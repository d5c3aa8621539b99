/** The three layer decoders of crates/holofs-core/src/rlnc.rs, with the number of chunks k as
    a parameter. What they promise is stated against the kernel of the coefficient vectors:
    a position is determined when every vector orthogonal to all of them vanishes there. */
module Decoder {
  import opened Field
  import opened LinAlg
  import opened Elimination
  import opened GfTables
  import opened ReducedSystem
  import opened Shortening
  import opened Wrappers

  function Coeffs(shards: seq<Shard>): (vs: seq<Vec>)
    ensures |vs| == |shards|
  {
    seq(|shards|, r requires 0 <= r < |shards| => shards[r].coeffs)
  }

  ghost predicate AllWellFormed(shards: seq<Shard>, k: nat, sl: nat) {
    forall r :: 0 <= r < |shards| ==> WellFormed(shards[r], k, sl)
  }

  ghost predicate AllConsistent(shards: seq<Shard>, chunks: seq<Vec>, sl: nat)
    requires Matrix(chunks, sl)
  {
    forall r :: 0 <= r < |shards| ==> Consistent(shards[r], chunks, sl)
  }

  /** Chunk i is the same in all sources that the coefficients cannot tell apart. */
  ghost predicate Determined(shards: seq<Shard>, k: nat, i: nat)
    requires i < k && Matrix(Coeffs(shards), k)
  {
    forall y: Vec :: |y| == k && Kills(Coeffs(shards), y) ==> y[i] == 0
  }

  function Flatten(chunks: seq<Vec>): Vec {
    if chunks == [] then [] else Flatten(chunks[..|chunks| - 1]) + chunks[|chunks| - 1]
  }

  // ---- Classification --------------------------------------------------------------

  /** The i for which `coeffs` is the i-th unit vector, if there is one. */
  method IdentityIndex(coeffs: Vec) returns (r: Option<nat>)
    ensures r.Some? ==> r.value < |coeffs| && coeffs == Unit(|coeffs|, r.value)
    ensures r.None? ==> forall i :: 0 <= i < |coeffs| ==> coeffs != Unit(|coeffs|, i)
  {
    var idx: Option<nat> := None;
    for i := 0 to |coeffs|
      invariant idx.None? ==> forall j :: 0 <= j < i ==> coeffs[j] == 0
      invariant idx.Some? ==> idx.value < i && coeffs[idx.value] == 1
      invariant idx.Some? ==> forall j :: 0 <= j < i && j != idx.value ==> coeffs[j] == 0
    {
      if coeffs[i] == 1 {
        if idx.Some? {
          TwoOnes(coeffs, idx.value, i);
          return None;
        }
        idx := Some(i);
      } else if coeffs[i] != 0 {
        NeitherZeroNorOne(coeffs, i);
        return None;
      }
    }
    r := idx;
    if idx.None? {
      forall i | 0 <= i < |coeffs| ensures coeffs != Unit(|coeffs|, i) {
        assert Unit(|coeffs|, i)[i] == 1 && coeffs[i] == 0;
      }
    }
  }

  lemma TwoOnes(v: Vec, a: nat, b: nat)
    requires a < b < |v| && v[a] == 1 && v[b] == 1
    ensures forall i :: 0 <= i < |v| ==> v != Unit(|v|, i)
  {
    forall i | 0 <= i < |v| ensures v != Unit(|v|, i) {
      var other := if i == a then b else a;
      assert Unit(|v|, i)[other] == 0;
    }
  }

  lemma NeitherZeroNorOne(v: Vec, a: nat)
    requires a < |v| && v[a] != 0 && v[a] != 1
    ensures forall i :: 0 <= i < |v| ==> v != Unit(|v|, i)
  {
    forall i | 0 <= i < |v| ensures v != Unit(|v|, i) {
      assert Unit(|v|, i)[a] == (if a == i then 1 else 0);
    }
  }

  ghost predicate IsRawCopy(s: Shard, known: Known) {
    exists i :: 0 <= i < |known| && known[i].Some? && s.coeffs == Unit(|known|, i)
  }

  /** Raw copies fill `known`; every shard is either in `rlnc` or a copy of a known position. */
  ghost predicate Split(shards: seq<Shard>, known: Known, rlnc: seq<Shard>) {
    && (forall s :: s in shards ==> s in rlnc || IsRawCopy(s, known))
    && (forall s :: s in rlnc ==> s in shards)
    && (forall i :: 0 <= i < |known| && known[i].Some? ==> Shard(Unit(|known|, i), known[i].value) in shards)
  }

  /** Every position with a raw copy is known. */
  ghost predicate RawKnown(shards: seq<Shard>, known: Known) {
    forall s, i :: s in shards && 0 <= i < |known| && s.coeffs == Unit(|known|, i) ==> known[i].Some?
  }

  lemma RawKnownStep(shards: seq<Shard>, s: Shard, known: Known, known': Known, idx: Option<nat>)
    requires RawKnown(shards, known) && |known'| == |known|
    requires forall i :: 0 <= i < |known| && known[i].Some? ==> known'[i].Some?
    requires idx.Some? ==> idx.value < |known| && s.coeffs == Unit(|known|, idx.value) && known'[idx.value].Some?
    requires idx.None? ==> forall i :: 0 <= i < |known| ==> s.coeffs != Unit(|known|, i)
    ensures RawKnown(shards + [s], known')
  {
    forall t, i | t in shards + [s] && 0 <= i < |known| && t.coeffs == Unit(|known|, i) ensures known'[i].Some? {
      if t !in shards {
        assert t == s && Unit(|known|, i)[i] == 1 && Unit(|known|, idx.value)[i] == 1;
      }
    }
  }

  /** A position is known exactly when a raw copy of its chunk arrived. */
  lemma KnownIsRaw(shards: seq<Shard>, known: Known, rlnc: seq<Shard>, i: nat)
    requires Split(shards, known, rlnc) && RawKnown(shards, known) && i < |known|
    ensures known[i].Some? <==> RawIn(Members(shards), |known|, i)
  {
    if known[i].Some? {
      assert Shard(Unit(|known|, i), known[i].value) in Members(shards);
    }
  }

  /** First copy of a chunk wins; `keepDuplicates` tells what happens to later copies:
      decode_layer and decode_layer_with_holes drop them, decode_layer_with_k keeps them as
      ordinary combinations. */
  method Classify(shards: seq<Shard>, k: nat, ghost sl: nat, keepDuplicates: bool) returns (known: Known, rlnc: seq<Shard>)
    requires AllWellFormed(shards, k, sl)
    ensures |known| == k && Split(shards, known, rlnc) && |rlnc| <= |shards|
    ensures KnownLengths(known, sl) && AllWellFormed(rlnc, k, sl) && RawKnown(shards, known)
  {
    known := seq(k, _ => None);
    rlnc := [];
    for n := 0 to |shards|
      invariant |known| == k && |rlnc| <= n
      invariant Split(shards[..n], known, rlnc)
      invariant KnownLengths(known, sl) && AllWellFormed(rlnc, k, sl) && RawKnown(shards[..n], known)
    {
      var s := shards[n];
      assert shards[..n + 1] == shards[..n] + [s];
      var idx := IdentityIndex(s.coeffs);
      ghost var known0, rlnc0 := known, rlnc;
      match idx {
        case Some(i) =>
          if known[i].None? {
            known := known[i := Some(s.payload)];
          } else if keepDuplicates {
            rlnc := rlnc + [s];
          }
        case None =>
          rlnc := rlnc + [s];
      }
      SplitStep(shards[..n], s, known0, rlnc0, known, rlnc);
      RawKnownStep(shards[..n], s, known0, known, idx);
    }
    assert shards[..|shards|] == shards;
  }

  lemma SplitStep(shards: seq<Shard>, s: Shard, known: Known, rlnc: seq<Shard>, known': Known, rlnc': seq<Shard>)
    requires Split(shards, known, rlnc) && |known'| == |known| == |s.coeffs|
    requires (known' == known && rlnc' == rlnc + [s])
          || (exists i :: 0 <= i < |known| && s.coeffs == Unit(|known|, i) && rlnc' == rlnc
                && ((known[i].None? && known' == known[i := Some(s.payload)]) || (known[i].Some? && known' == known)))
    ensures Split(shards + [s], known', rlnc')
  {
    if known' == known && rlnc' == rlnc + [s] {
    } else {
      var i :| 0 <= i < |known| && s.coeffs == Unit(|known|, i) && rlnc' == rlnc
                && ((known[i].None? && known' == known[i := Some(s.payload)]) || (known[i].Some? && known' == known));
      assert s == Shard(Unit(|known|, i), s.payload);
      assert known'[i].Some?;
      forall t | t in shards + [s]
        ensures t in rlnc' || IsRawCopy(t, known')
      {
        if t in shards && t !in rlnc {
          var j :| 0 <= j < |known| && known[j].Some? && t.coeffs == Unit(|known|, j);
          assert known'[j].Some?;
        }
      }
    }
  }

  /** The split system has the kernel of the original coefficient vectors. */
  lemma SplitKernel(shards: seq<Shard>, known: Known, rlnc: seq<Shard>, sl: nat, y: Vec)
    requires Split(shards, known, rlnc) && AllWellFormed(shards, |known|, sl) && |y| == |known|
    ensures InKernel(known, rlnc, y) <==> Kills(Coeffs(shards), y)
  {
    hide Dot;
    if Kills(Coeffs(shards), y) {
      forall s | s in shards ensures Dot(s.coeffs, y) == 0 {
        var r :| 0 <= r < |shards| && shards[r] == s;
        assert Coeffs(shards)[r] == s.coeffs;
      }
      forall i | 0 <= i < |known| && known[i].Some? ensures y[i] == 0 { DotUnit(y, i); }
    }
    if InKernel(known, rlnc, y) {
      forall r | 0 <= r < |shards| ensures Dot(Coeffs(shards)[r], y) == 0 {
        var s := shards[r];
        assert s in shards;
        if s in rlnc {
          var q :| 0 <= q < |rlnc| && rlnc[q] == s;
          assert Dot(rlnc[q].coeffs, y) == 0;
        } else {
          assert IsRawCopy(s, known);
          var i :| 0 <= i < |known| && known[i].Some? && s.coeffs == Unit(|known|, i);
          DotUnit(y, i);
        }
      }
    }
  }

  /** A source consistent with the shards explains the split system. */
  lemma SplitExplains(shards: seq<Shard>, known: Known, rlnc: seq<Shard>, sl: nat, chunks: seq<Vec>)
    requires Split(shards, known, rlnc) && |chunks| == |known|
    requires Matrix(chunks, sl) && AllConsistent(shards, chunks, sl)
    ensures Explains(chunks, known, rlnc, sl)
  {
    hide Consistent;
    forall s | s in shards ensures Consistent(s, chunks, sl) {
      var r :| 0 <= r < |shards| && shards[r] == s;
    }
    forall i | 0 <= i < |known| && known[i].Some? ensures known[i].value == chunks[i] {
      RawCopy(Shard(Unit(|known|, i), known[i].value), chunks, sl, i);
    }
  }

  /** A consistent shard with unit coefficients is a raw copy of its chunk. */
  lemma RawCopy(s: Shard, chunks: seq<Vec>, sl: nat, i: nat)
    requires Matrix(chunks, sl) && Consistent(s, chunks, sl) && i < |chunks| && s.coeffs == Unit(|chunks|, i)
    ensures s.payload == chunks[i]
  {
    hide Dot;
    forall j | 0 <= j < sl ensures s.payload[j] == chunks[i][j] {
      ConsistentByte(s, chunks, sl, j);
      DotUnit(Column(chunks, j), i);
    }
  }

  // ---- Building the reduced rows ------------------------------------------------------

  method ReduceShard(gf: Gf, s: Shard, known: Known, u: seq<nat>, sl: nat) returns (row: Vec)
    requires gf.Valid() && WellFormed(s, |known|, sl) && KnownLengths(known, sl)
    requires u == Unknown(known, |known|)
    ensures row == ReducedRow(s, known, sl)
  {
    hide Field.Mul;
    row := seq(|u| + sl, _ => 0);
    for col := 0 to |u|
      invariant |row| == |u| + sl
      invariant forall c :: 0 <= c < col ==> row[c] == s.coeffs[u[c]]
    {
      row := row[col := s.coeffs[u[col]]];
    }
    for j := 0 to sl
      invariant |row| == |u| + sl
      invariant forall c :: 0 <= c < |u| ==> row[c] == s.coeffs[u[c]]
      invariant forall b :: 0 <= b < j ==>
        row[|u| + b] == Add(s.payload[b], KnownDotN(s.coeffs, KnownColumn(known, sl, b), known, |known|))
    {
      var byte := SubtractKnown(gf, s, known, sl, j);
      row := row[|u| + j := byte];
    }
    assert row == ReducedRow(s, known, sl);
  }

  method SubtractKnown(gf: Gf, s: Shard, known: Known, sl: nat, j: nat) returns (byte: Byte)
    requires gf.Valid() && WellFormed(s, |known|, sl) && KnownLengths(known, sl) && j < sl
    ensures byte == Add(s.payload[j], KnownDotN(s.coeffs, KnownColumn(known, sl, j), known, |known|))
  {
    hide Field.Mul;
    ghost var x := KnownColumn(known, sl, j);
    byte := s.payload[j];
    AddLaws(byte, 0, 0);
    for i := 0 to |known|
      invariant byte == Add(s.payload[j], KnownDotN(s.coeffs, x, known, i))
    {
      ghost var kn := KnownDotN(s.coeffs, x, known, i);
      AddLaws(s.payload[j], kn, Field.Mul(s.coeffs[i], x[i]));
      MulOneZero(x[i]); AddLaws(kn, 0, 0);
      if known[i].Some? && s.coeffs[i] != 0 {
        byte := AddMul(gf, byte, s.coeffs[i], known[i].value[j]);
      }
    }
  }

  method AddMul(gf: Gf, a: Byte, b: Byte, c: Byte) returns (r: Byte)
    requires gf.Valid()
    ensures r == Add(a, Field.Mul(b, c))
  {
    r := a ^ gf.Mul(b, c);
  }

  method ReduceAll(gf: Gf, rlnc: seq<Shard>, known: Known, u: seq<nat>, sl: nat) returns (rows: array<Vec>)
    requires gf.Valid() && AllWellFormed(rlnc, |known|, sl) && KnownLengths(known, sl)
    requires u == Unknown(known, |known|)
    ensures fresh(rows) && rows[..] == ReducedRows(rlnc, known, sl)
  {
    hide ReducedRow;
    rows := new Vec[|rlnc|](_ => []);
    for r := 0 to |rlnc|
      invariant forall i :: 0 <= i < r ==> rows[i] == ReducedRow(rlnc[i], known, sl)
      invariant gf.Valid()
    {
      rows[r] := ReduceShard(gf, rlnc[r], known, u, sl);
    }
    assert rows[..] == ReducedRows(rlnc, known, sl);
  }

  // ---- All or nothing: decode_layer and decode_layer_with_k --------------------------

  ghost predicate OnlyZero(known: Known, rlnc: seq<Shard>) {
    forall y: Vec :: InKernel(known, rlnc, y) ==> y == Zero(|known|)
  }

  /** Fewer combinations than unknown positions leave some difference unseen. */
  lemma TooFewRows(rlnc: seq<Shard>, known: Known, sl: nat)
    requires AllWellFormed(rlnc, |known|, sl) && KnownLengths(known, sl)
    requires |rlnc| < |Unknown(known, |known|)|
    ensures !OnlyZero(known, rlnc)
  {
    hide Dot, KnownDotN;
    var u := Unknown(known, |known|);
    var vs := seq(|rlnc|, r requires 0 <= r < |rlnc| => Gather(rlnc[r].coeffs, u));
    var x := Underdetermined(vs, |u|);
    var y := Scatter(x, u, |known|);
    forall c | 0 <= c < |u| ensures y[u[c]] == x[c] { ScatterAt(x, known, c); }
    assert Gather(y, u) == x;
    forall r | 0 <= r < |rlnc| ensures Dot(rlnc[r].coeffs, y) == 0 {
      assert Dot(vs[r], x) == 0;
      RowAgainstKernel(rlnc[r], known, sl, y);
      var row := ReducedRow(rlnc[r], known, sl);
      assert row[..|u|] == vs[r];
      DotConcat(row, x, Zero(sl));
      DotWithZero(row[|u|..]);
      AddLaws(0, 0, 0);
    }
    var c := NonzeroEntry(x);
    assert y[u[c]] != 0;
    assert InKernel(known, rlnc, y);
  }

  /** Elimination stopped at column |cols|: the system has a nonzero kernel vector. */
  lemma StoppedColumn(rows: seq<Vec>, rlnc: seq<Shard>, known: Known, sl: nat, cols: seq<nat>)
    requires Solving(rows, rlnc, known, sl, cols, |cols| + 1)
    requires forall p :: 0 <= p < |cols| ==> cols[p] == p
    ensures !OnlyZero(known, rlnc)
  {
    var y := FreePosition(rows, rlnc, known, sl, cols, |cols| + 1, |cols|);
  }

  lemma PivotColumnsClean(rows: seq<Vec>, n: nat, cols: seq<nat>, p: nat)
    requires Matrix(rows, n) && |cols| <= n && Reduced(rows, n, cols, |cols|)
    requires p < |cols| && forall q :: 0 <= q < |cols| ==> cols[q] == q
    ensures Clean(rows[p], p, |cols|)
  {
    forall i | 0 <= i < |cols| && i != p ensures rows[p][i] == 0 { assert cols[i] == i; }
  }

  /** Every unknown column has a pivot: only zero is in the kernel. */
  lemma AllPivots(rows: seq<Vec>, rlnc: seq<Shard>, known: Known, sl: nat, cols: seq<nat>)
    requires Solving(rows, rlnc, known, sl, cols, |cols|) && |cols| == |Unknown(known, |known|)|
    requires forall p :: 0 <= p < |cols| ==> cols[p] == p
    ensures OnlyZero(known, rlnc)
  {
    var u := Unknown(known, |known|);
    UnknownMembers(known, |known|);
    forall y: Vec | InKernel(known, rlnc, y) ensures y == Zero(|known|) {
      forall i | 0 <= i < |known| ensures y[i] == 0 {
        if known[i].None? {
          var p := Position(u, i);
          PivotColumnsClean(rows, |u| + sl, cols, p);
          CleanDetermines(rows, rlnc, known, sl, cols, p, y);
        }
      }
    }
  }

  /** Chunk i of the output: the raw copy, or the payload of the row that solved its position. */
  function PartAt(known: Known, rows: seq<Vec>, i: nat): Vec
    requires i < |known| && (known[i].None? ==> i in Unknown(known, |known|))
    requires |Unknown(known, |known|)| <= |rows|
    requires forall r :: 0 <= r < |rows| ==> |Unknown(known, |known|)| <= |rows[r]|
  {
    if known[i].Some? then known[i].value
    else rows[Position(Unknown(known, |known|), i)][|Unknown(known, |known|)|..]
  }

  lemma FlattenSnoc(parts: seq<Vec>, part: Vec)
    ensures Flatten([]) == []
    ensures Flatten(parts + [part]) == Flatten(parts) + part
  {
    assert (parts + [part])[..|parts|] == parts;
  }

  method PartOf(known: Known, u: seq<nat>, rows: seq<Vec>, sl: nat, i: nat) returns (part: Vec)
    requires u == Unknown(known, |known|) && KnownLengths(known, sl) && i < |known|
    requires |u| <= |rows| && Matrix(rows, |u| + sl) && (known[i].None? ==> i in u)
    ensures part == PartAt(known, rows, i) && |part| == sl
  {
    if known[i].Some? {
      part := known[i].value;
    } else {
      part := rows[Position(u, i)][|u|..];
    }
  }

  method PickParts(known: Known, u: seq<nat>, rows: seq<Vec>, sl: nat) returns (parts: seq<Vec>)
    requires u == Unknown(known, |known|) && KnownLengths(known, sl)
    requires |u| <= |rows| && Matrix(rows, |u| + sl)
    requires forall i :: 0 <= i < |known| && known[i].None? ==> i in u
    ensures |parts| == |known| && Matrix(parts, sl)
    ensures forall i :: 0 <= i < |known| ==> parts[i] == PartAt(known, rows, i)
  {
    hide Unknown, PartAt;
    parts := [];
    for i := 0 to |known|
      invariant |parts| == i && Matrix(parts, sl)
      invariant forall j :: 0 <= j < i ==> parts[j] == PartAt(known, rows, j)
    {
      var part := PartOf(known, u, rows, sl, i);
      parts := parts + [part];
    }
  }

  /** Elimination over the unknown positions; from the classified shards on, decode_layer and
      decode_layer_with_k are the same code. */
  method SolveUnknown(gf: Gf, known: Known, rlnc: seq<Shard>, sl: nat) returns (r: Option<seq<Vec>>)
    requires gf.Valid() && AllWellFormed(rlnc, |known|, sl) && KnownLengths(known, sl)
    requires |Unknown(known, |known|)| <= |rlnc|
    ensures r.Some? <==> OnlyZero(known, rlnc)
    ensures r.Some? ==> |r.value| == |known| && forall chunks :: Explains(chunks, known, rlnc, sl) ==> r.value == chunks
  {
    hide InKernel, Explains, Pivoted, SameKernel, ReducedRows, Field.Mul, Alpha;
    var u := Unknown(known, |known|);
    var n := |u| + sl;
    var rows := ReduceAll(gf, rlnc, known, u, sl);
    SameKernelRefl(rows[..], n);
    ghost var cols: seq<nat> := [];
    for col := 0 to |u|
      invariant |cols| == col && forall p :: 0 <= p < col ==> cols[p] == p
      invariant gf.Valid()
      invariant Solving(rows[..], rlnc, known, sl, cols, col)
    {
      ghost var was := rows[..];
      var found := PivotColumn(gf, rows, n, col, col);
      if !found {
        ReducedSkip(was, n, cols, col);
        StoppedColumn(rows[..], rlnc, known, sl, cols);
        return None;
      }
      SolvingPivot(was, rows[..], rlnc, known, sl, cols, col);
      cols := cols + [col];
    }
    AllPivots(rows[..], rlnc, known, sl, cols);
    UnknownMembers(known, |known|);
    SolvingShape(rows[..], rlnc, known, sl, cols, |u|);
    var parts := PickParts(known, u, rows[..], sl);
    forall chunks | Explains(chunks, known, rlnc, sl) ensures parts == chunks {
      PartsAreChunks(rows[..], rlnc, known, sl, cols, parts, chunks);
    }
    r := Some(parts);
  }

  lemma SolvingPivot(was: seq<Vec>, rows: seq<Vec>, rlnc: seq<Shard>, known: Known, sl: nat, cols: seq<nat>, col: nat)
    requires Solving(was, rlnc, known, sl, cols, col) && col < |Unknown(known, |known|)|
    requires exists sel: nat, inv: Byte :: (
        && |cols| <= sel < |was| && inv != 0 && Field.Mul(inv, was[sel][col]) == 1
        && rows == Pivoted(was, |Unknown(known, |known|)| + sl, |cols|, sel, col, inv))
    ensures Solving(rows, rlnc, known, sl, cols + [col], col + 1)
  {
    hide Pivoted, SameKernel, ReducedRows, Field.Mul, Reduced;
    var n := |Unknown(known, |known|)| + sl;
    var sel: nat, inv: Byte :| |cols| <= sel < |was| && inv != 0 && Field.Mul(inv, was[sel][col]) == 1
        && rows == Pivoted(was, n, |cols|, sel, col, inv);
    CountBound(was, n, cols, col);
    ReducedPivot(was, n, cols, col, sel, inv);
    PivotedKernel(was, n, |cols|, sel, col, inv);
    SameKernelTrans(rows, was, ReducedRows(rlnc, known, sl), n);
  }

  lemma CountBound(rows: seq<Vec>, n: nat, cols: seq<nat>, col: nat)
    requires Matrix(rows, n) && col <= n && Reduced(rows, n, cols, col)
    ensures |cols| <= |rows|
  {}

  lemma PartsAreChunks(rows: seq<Vec>, rlnc: seq<Shard>, known: Known, sl: nat, cols: seq<nat>,
                       parts: seq<Vec>, chunks: seq<Vec>)
    requires Solving(rows, rlnc, known, sl, cols, |cols|) && |cols| == |Unknown(known, |known|)|
    requires forall p :: 0 <= p < |cols| ==> cols[p] == p
    requires |parts| == |known| && Explains(chunks, known, rlnc, sl) && |cols| <= |rows|
    requires forall i :: 0 <= i < |known| && known[i].None? ==> i in Unknown(known, |known|)
    requires forall i :: 0 <= i < |known| ==> parts[i] == PartAt(known, rows, i)
    ensures parts == chunks
  {
    hide SameKernel, ReducedRows, Consistent;
    var u := Unknown(known, |known|);
    forall i | 0 <= i < |known| ensures parts[i] == chunks[i] {
      if known[i].None? {
        var p := Position(u, i);
        PivotColumnsClean(rows, |u| + sl, cols, p);
        CleanCarriesChunk(rows, rlnc, known, sl, cols, p, chunks);
      }
    }
  }

  /** Success exactly when the coefficient vectors leave no difference unseen, and then the
      bytes are those of whatever source the shards are consistent with. */
  ghost predicate DecodesTo(shards: seq<Shard>, k: nat, sl: nat, r: Option<Vec>)
    requires AllWellFormed(shards, k, sl)
  {
    && (r.Some? <==> TrivialKernel(Coeffs(shards), k))
    && (r.Some? ==> forall chunks :: IsSource(chunks, shards, k, sl) ==> r.value == Flatten(chunks))
  }

  ghost predicate IsSource(chunks: seq<Vec>, shards: seq<Shard>, k: nat, sl: nat) {
    |chunks| == k && Matrix(chunks, sl) && AllConsistent(shards, chunks, sl)
  }

  /** Lost is an honest failure; OutOfBounds stands for an index past the end of a payload. */
  datatype Decoded = Whole(value: Vec) | Lost | OutOfBounds

  /** Decoding payloads of length len with the symbol length sl: an index error needs an sl that is
      too long; raw copies alone are always enough and, for such an sl, also necessary; otherwise
      success means determined, and the bytes are those delivered of any consistent source. */
  ghost predicate DecodesUpTo(shards: seq<Shard>, k: nat, len: nat, sl: nat, r: Decoded)
    requires AllWellFormed(shards, k, len)
  {
    && (r.Whole? ==> TrivialKernel(Coeffs(shards), k))
    && (r.Lost? ==> !TrivialKernel(Coeffs(shards), k))
    && (r.OutOfBounds? ==> sl > len)
    && (sl > len ==> (r.Whole? <==> AllRaw(Members(shards), k)))
    && (r.Whole? ==> forall chunks :: (IsSource(chunks, shards, k, len)
          ==> r.value == Flatten(Delivered(chunks, Members(shards), sl))))
  }

  ghost predicate AllRaw(shards: set<Shard>, k: nat) {
    forall i :: 0 <= i < k ==> RawIn(shards, k, i)
  }

  /** decode_layer. The symbol length is the caller's; `len` is what the payloads really have. */
  method DecodeLayer(gf: Gf, shards: seq<Shard>, k: nat, sl: nat, ghost len: nat) returns (r: Decoded)
    requires gf.Valid() && AllWellFormed(shards, k, len)
    ensures DecodesUpTo(shards, k, len, sl, r)
  {
    r := DecodeEither(gf, shards, k, sl, false, len);
  }

  method DecodeLayerWithK(gf: Gf, shards: seq<Shard>, k: nat, sl: nat) returns (r: Option<Vec>)
    requires gf.Valid() && AllWellFormed(shards, k, sl)
    ensures DecodesTo(shards, k, sl, r)
  {
    var d := DecodeEither(gf, shards, k, sl, true, sl);
    r := if d.Whole? then Some(d.value) else None;
    RightLength(shards, k, sl, d, r);
  }

  /** With the right symbol length there is no index error and the source comes back. */
  lemma RightLength(shards: seq<Shard>, k: nat, sl: nat, d: Decoded, r: Option<Vec>)
    requires AllWellFormed(shards, k, sl) && DecodesUpTo(shards, k, sl, sl, d)
    requires r == if d.Whole? then Some(d.value) else None
    ensures DecodesTo(shards, k, sl, r) && !d.OutOfBounds?
  {
    hide TrivialKernel, AllConsistent;
    if d.Whole? {
      forall chunks | IsSource(chunks, shards, k, sl) ensures d.value == Flatten(chunks) {
        DeliveredWhole(chunks, Members(shards), sl, sl);
      }
    }
  }

  /** The output loop: a raw copy as it came, or the part that was solved for. */
  method JoinParts(known: Known, parts: seq<Vec>) returns (out: Vec)
    requires forall i :: 0 <= i < |known| && known[i].None? ==> i < |parts|
    ensures out == Flatten(Joined(known, parts))
  {
    hide Flatten;
    out := [];
    ghost var all := Joined(known, parts);
    FlattenSnoc([], []);
    for i := 0 to |known|
      invariant out == Flatten(all[..i])
    {
      var part := if known[i].Some? then known[i].value else parts[i];
      FlattenSnoc(all[..i], part);
      assert all[..i + 1] == all[..i] + [part];
      out := out + part;
    }
    assert all[..|known|] == all;
  }

  function Joined(known: Known, parts: seq<Vec>): (out: seq<Vec>)
    requires forall i :: 0 <= i < |known| && known[i].None? ==> i < |parts|
    ensures |out| == |known|
  {
    seq(|known|, i requires 0 <= i < |known| => if known[i].Some? then known[i].value else parts[i])
  }

  /** The code the two share; they differ in what they do with a second copy of a raw chunk. */
  method DecodeEither(gf: Gf, shards: seq<Shard>, k: nat, sl: nat, keepDuplicates: bool, ghost len: nat)
    returns (r: Decoded)
    requires gf.Valid() && AllWellFormed(shards, k, len)
    ensures DecodesUpTo(shards, k, len, sl, r)
  {
    hide InKernel, Explains, Kills, Split, AllConsistent, RawIn, Delivered, RawKnown, Joined, ShortKnown, ShortShards, OnlyZero, Unknown, TrivialKernel, IsSource, Flatten;
    if |shards| < k {
      var y := Underdetermined(Coeffs(shards), k);
      NotAllRaw(shards, k, y);
      return Lost;
    }
    var known, rlnc := Classify(shards, k, len, keepDuplicates);
    KnownAreRaw(shards, known, rlnc);
    SplitTrivial(shards, known, rlnc, len);
    var u := Unknown(known, |known|);
    UnknownMembers(known, |known|);
    if |u| == 0 {
      var whole := JoinParts(known, []);
      AllKnown(known, rlnc);
      JoinedDelivered(shards, known, rlnc, len, sl, []);
      return Whole(whole);
    }
    assert known[u[0]].None?;
    if |rlnc| < |u| {
      TooFewRows(rlnc, known, len);
      return Lost;
    }
    if sl > |rlnc[0].payload| {
      return OutOfBounds;
    }
    ShortShape(known, rlnc, k, len, sl);
    ShortUnknown(known, sl, |known|);
    ShortOnlyZero(known, rlnc, sl);
    var parts := SolveUnknown(gf, ShortKnown(known, sl), ShortShards(rlnc, sl), sl);
    if parts.None? {
      return Lost;
    }
    var whole := JoinParts(known, parts.value);
    JoinedDelivered(shards, known, rlnc, len, sl, parts.value);
    r := Whole(whole);
  }

  lemma NotAllRaw(shards: seq<Shard>, k: nat, y: Vec)
    requires Matrix(Coeffs(shards), k) && |y| == k && y != Zero(k) && Kills(Coeffs(shards), y)
    ensures !AllRaw(Members(shards), k) && !TrivialKernel(Coeffs(shards), k)
  {
    hide Dot;
    var i := NonzeroEntry(y);
    if RawIn(Members(shards), k, i) {
      var s :| s in Members(shards) && s.coeffs == Unit(k, i);
      var r :| 0 <= r < |shards| && shards[r] == s;
      assert Coeffs(shards)[r] == Unit(k, i);
      DotUnit(y, i);
    }
  }

  lemma KnownAreRaw(shards: seq<Shard>, known: Known, rlnc: seq<Shard>)
    requires Split(shards, known, rlnc) && RawKnown(shards, known)
    ensures forall i :: 0 <= i < |known| ==> (known[i].Some? <==> RawIn(Members(shards), |known|, i))
  {
    hide Split, RawKnown, RawIn;
    forall i | 0 <= i < |known| ensures known[i].Some? <==> RawIn(Members(shards), |known|, i) {
      KnownIsRaw(shards, known, rlnc, i);
    }
  }

  lemma AllKnown(known: Known, rlnc: seq<Shard>)
    requires forall i :: 0 <= i < |known| ==> known[i].Some?
    ensures OnlyZero(known, rlnc)
  {
    hide Dot;
  }

  lemma ShortOnlyZero(known: Known, rlnc: seq<Shard>, sl: nat)
    ensures OnlyZero(ShortKnown(known, sl), ShortShards(rlnc, sl)) <==> OnlyZero(known, rlnc)
  {
    hide InKernel, ShortKnown, ShortShards;
    forall y: Vec ensures InKernel(ShortKnown(known, sl), ShortShards(rlnc, sl), y) <==> InKernel(known, rlnc, y) {
      ShortKernel(known, rlnc, sl, y);
    }
  }

  /** What is put together is what is delivered of any consistent source. */
  lemma JoinedDelivered(shards: seq<Shard>, known: Known, rlnc: seq<Shard>, len: nat, sl: nat, parts: seq<Vec>)
    requires Split(shards, known, rlnc) && AllWellFormed(shards, |known|, len)
    requires forall i :: 0 <= i < |known| ==> (known[i].Some? <==> RawIn(Members(shards), |known|, i))
    requires (forall i :: 0 <= i < |known| ==> known[i].Some?) || (sl <= len && |parts| == |known|
      && forall chunks :: Explains(chunks, ShortKnown(known, sl), ShortShards(rlnc, sl), sl) ==> parts == chunks)
    ensures forall i :: 0 <= i < |known| && known[i].None? ==> i < |parts|
    ensures forall chunks :: (IsSource(chunks, shards, |known|, len)
      ==> Joined(known, parts) == Delivered(chunks, Members(shards), sl))
  {
    hide Split, RawIn, AllConsistent, ShortKnown, ShortShards, Explains;
    forall chunks | IsSource(chunks, shards, |known|, len)
      ensures Joined(known, parts) == Delivered(chunks, Members(shards), sl)
    {
      SplitExplains(shards, known, rlnc, len, chunks);
      assert forall i :: 0 <= i < |known| && known[i].Some? ==> known[i].value == chunks[i] by { ExplainsKnown(chunks, known, rlnc, len); }
      if sl <= len {
        ShortExplains(chunks, known, rlnc, len, sl);
      }
    }
  }

  lemma ExplainsKnown(chunks: seq<Vec>, known: Known, rlnc: seq<Shard>, sl: nat)
    requires Explains(chunks, known, rlnc, sl)
    ensures |chunks| == |known| && forall i :: 0 <= i < |known| && known[i].Some? ==> known[i].value == chunks[i]
  {}

  lemma SplitTrivial(shards: seq<Shard>, known: Known, rlnc: seq<Shard>, sl: nat)
    requires Split(shards, known, rlnc) && AllWellFormed(shards, |known|, sl)
    ensures OnlyZero(known, rlnc) <==> TrivialKernel(Coeffs(shards), |known|)
  {
    hide Split, Kills, InKernel;
    forall y: Vec | |y| == |known| ensures InKernel(known, rlnc, y) <==> Kills(Coeffs(shards), y) {
      SplitKernel(shards, known, rlnc, sl, y);
    }
    forall y: Vec | InKernel(known, rlnc, y) ensures |y| == |known| { KernelLength(known, rlnc, y); }
  }

  lemma SourceShape(chunks: seq<Vec>, known: Known, rlnc: seq<Shard>, sl: nat)
    requires Explains(chunks, known, rlnc, sl)
    ensures |chunks| == |known|
  {}

  lemma KernelLength(known: Known, rlnc: seq<Shard>, y: Vec)
    requires InKernel(known, rlnc, y)
    ensures |y| == |known|
  {}

  // ---- With holes: decode_layer_with_holes --------------------------------------------

  /** Chunk by chunk: recovered exactly when determined, and then with the source's bytes. */
  ghost predicate HolesTo(shards: seq<Shard>, k: nat, sl: nat, r: seq<Option<Vec>>)
    requires AllWellFormed(shards, k, sl)
  {
    && |r| == k
    && (forall i :: 0 <= i < k ==> (r[i].Some? <==> Determined(shards, k, i)))
    && (forall chunks, i :: IsSource(chunks, shards, k, sl) && 0 <= i < k && r[i].Some? ==> r[i].value == chunks[i])
  }

  /** The same in terms of the classified shards. */
  ghost predicate HolesOf(known: Known, rlnc: seq<Shard>, sl: nat, r: seq<Option<Vec>>) {
    && |r| == |known|
    && (forall i :: 0 <= i < |known| ==> (r[i].Some? <==> Vanishes(known, rlnc, i)))
    && (forall chunks, i :: Explains(chunks, known, rlnc, sl) && 0 <= i < |known| && r[i].Some?
          ==> r[i].value == chunks[i])
  }

  ghost predicate Vanishes(known: Known, rlnc: seq<Shard>, i: nat)
    requires i < |known|
  {
    forall y: Vec :: InKernel(known, rlnc, y) ==> y[i] == 0
  }

  /** The same for payloads of length len read with the symbol length sl; None is an index error. */
  ghost predicate HolesUpTo(shards: seq<Shard>, k: nat, len: nat, sl: nat, r: Option<seq<Option<Vec>>>)
    requires AllWellFormed(shards, k, len)
  {
    && (r.None? ==> sl > len && !AllRaw(Members(shards), k))
    && (r.Some? ==>
      && |r.value| == k
      && (forall i :: 0 <= i < k ==> (r.value[i].Some? <==> Determined(shards, k, i)))
      && (forall chunks, i :: IsSource(chunks, shards, k, len) && 0 <= i < k && r.value[i].Some?
            ==> r.value[i].value == Delivered(chunks, Members(shards), sl)[i]))
  }

  method DecodeLayerWithHoles(gf: Gf, shards: seq<Shard>, k: nat, sl: nat, ghost len: nat)
    returns (r: Option<seq<Option<Vec>>>)
    requires gf.Valid() && AllWellFormed(shards, k, len)
    ensures HolesUpTo(shards, k, len, sl, r)
  {
    hide InKernel, Explains, Kills, Split, AllConsistent, HolesUpTo, RawIn, RawKnown, HolesOf, ShortKnown, ShortShards;
    var known, rlnc := Classify(shards, k, len, false);
    KnownAreRaw(shards, known, rlnc);
    var u := Unknown(known, |known|);
    if |u| == 0 || |rlnc| == 0 {
      NothingToSolve(known, rlnc, len);
      CopiesDelivered(shards, known, rlnc, len, sl);
      return Some(known);
    }
    if sl > |rlnc[0].payload| {
      NoneUpTo(shards, k, len, sl, u[0]);
      return None;
    }
    ShortShape(known, rlnc, k, len, sl);
    ShortUnknown(known, sl, |known|);
    var parts := FillHoles(gf, ShortKnown(known, sl), ShortShards(rlnc, sl), sl);
    HolesShape(ShortKnown(known, sl), ShortShards(rlnc, sl), sl, parts);
    OverlayDelivered(shards, known, rlnc, len, sl, parts);
    r := Some(Overlay(known, parts));
  }

  lemma HolesShape(known: Known, rlnc: seq<Shard>, sl: nat, r: seq<Option<Vec>>)
    requires HolesOf(known, rlnc, sl, r)
    ensures |r| == |known|
  {}

  lemma NoneUpTo(shards: seq<Shard>, k: nat, len: nat, sl: nat, i: nat)
    requires AllWellFormed(shards, k, len) && sl > len && i < k && !RawIn(Members(shards), k, i)
    ensures HolesUpTo(shards, k, len, sl, None)
  {}

  /** Raw copies stay as they came. */
  function Overlay(known: Known, parts: seq<Option<Vec>>): (out: seq<Option<Vec>>)
    requires |parts| == |known|
    ensures |out| == |known|
  {
    seq(|known|, i requires 0 <= i < |known| => if known[i].Some? then known[i] else parts[i])
  }

  lemma CopiesDelivered(shards: seq<Shard>, known: Known, rlnc: seq<Shard>, len: nat, sl: nat)
    requires Split(shards, known, rlnc) && AllWellFormed(shards, |known|, len)
    requires forall i :: 0 <= i < |known| ==> (known[i].Some? <==> RawIn(Members(shards), |known|, i))
    requires HolesOf(known, rlnc, len, known)
    ensures HolesUpTo(shards, |known|, len, sl, Some(known))
  {
    hide Split, RawIn, AllConsistent, Explains, Vanishes, Determined;
    forall i | 0 <= i < |known| ensures known[i].Some? <==> Determined(shards, |known|, i) {
      SplitDetermined(shards, known, rlnc, len, i);
    }
    forall chunks, i | IsSource(chunks, shards, |known|, len) && 0 <= i < |known| && known[i].Some?
      ensures known[i].value == Delivered(chunks, Members(shards), sl)[i]
    {
      SplitExplains(shards, known, rlnc, len, chunks);
      ExplainsKnown(chunks, known, rlnc, len);
    }
  }

  lemma OverlayDelivered(shards: seq<Shard>, known: Known, rlnc: seq<Shard>, len: nat, sl: nat, parts: seq<Option<Vec>>)
    requires Split(shards, known, rlnc) && AllWellFormed(shards, |known|, len) && sl <= len && |parts| == |known|
    requires forall i :: 0 <= i < |known| ==> (known[i].Some? <==> RawIn(Members(shards), |known|, i))
    requires HolesOf(ShortKnown(known, sl), ShortShards(rlnc, sl), sl, parts)
    ensures HolesUpTo(shards, |known|, len, sl, Some(Overlay(known, parts)))
  {
    hide Split, RawIn, AllConsistent, Explains, Vanishes, Determined, ShortShards;
    var out := Overlay(known, parts);
    forall i | 0 <= i < |known| ensures out[i].Some? <==> Determined(shards, |known|, i) {
      SplitDetermined(shards, known, rlnc, len, i);
      ShortVanishes(known, rlnc, sl, i);
      if known[i].Some? { KnownVanishes(known, rlnc, len, i); }
    }
    forall chunks, i | IsSource(chunks, shards, |known|, len) && 0 <= i < |known| && out[i].Some?
      ensures out[i].value == Delivered(chunks, Members(shards), sl)[i]
    {
      SplitExplains(shards, known, rlnc, len, chunks);
      ExplainsKnown(chunks, known, rlnc, len);
      ShortExplains(chunks, known, rlnc, len, sl);
    }
  }

  lemma ShortVanishes(known: Known, rlnc: seq<Shard>, sl: nat, i: nat)
    requires i < |known|
    ensures Vanishes(ShortKnown(known, sl), ShortShards(rlnc, sl), i) <==> Vanishes(known, rlnc, i)
  {
    hide InKernel, ShortKnown, ShortShards;
    forall y: Vec ensures InKernel(ShortKnown(known, sl), ShortShards(rlnc, sl), y) <==> InKernel(known, rlnc, y) {
      ShortKernel(known, rlnc, sl, y);
    }
    forall y: Vec | InKernel(known, rlnc, y) ensures |y| == |known| { KernelLength(known, rlnc, y); }
    forall y: Vec | InKernel(ShortKnown(known, sl), ShortShards(rlnc, sl), y) ensures |y| == |known| { KernelLength(known, rlnc, y); }
  }

  /** With the right symbol length, every determined chunk comes back whole. */
  lemma RightLengthHoles(shards: seq<Shard>, k: nat, sl: nat, r: Option<seq<Option<Vec>>>)
    requires AllWellFormed(shards, k, sl) && HolesUpTo(shards, k, sl, sl, r)
    ensures r.Some? && HolesTo(shards, k, sl, r.value)
  {
    hide Determined, AllConsistent;
    forall chunks | IsSource(chunks, shards, k, sl) ensures Delivered(chunks, Members(shards), sl) == chunks {
      DeliveredWhole(chunks, Members(shards), sl, sl);
    }
  }

  lemma SplitDetermined(shards: seq<Shard>, known: Known, rlnc: seq<Shard>, sl: nat, i: nat)
    requires Split(shards, known, rlnc) && AllWellFormed(shards, |known|, sl) && i < |known|
    ensures Vanishes(known, rlnc, i) <==> Determined(shards, |known|, i)
  {
    hide Split, Kills, InKernel;
    forall y: Vec | |y| == |known| ensures InKernel(known, rlnc, y) <==> Kills(Coeffs(shards), y) {
      SplitKernel(shards, known, rlnc, sl, y);
    }
    forall y: Vec | InKernel(known, rlnc, y) ensures |y| == |known| { KernelLength(known, rlnc, y); }
  }

  /** pivots[c] is the row that pivots column c: the inverse of the list cols. */
  ghost predicate PivotTable(pivots: seq<Option<nat>>, cols: seq<nat>, col: nat) {
    && col <= |pivots|
    && (forall c :: 0 <= c < |pivots| && pivots[c].Some? ==> pivots[c].value < |cols| && cols[pivots[c].value] == c)
    && (forall c :: 0 <= c < col && pivots[c].None? ==> c !in cols)
    && (forall c :: col <= c < |pivots| ==> pivots[c].None?)
  }

  method FillHoles(gf: Gf, known: Known, rlnc: seq<Shard>, sl: nat) returns (r: seq<Option<Vec>>)
    requires gf.Valid() && AllWellFormed(rlnc, |known|, sl) && KnownLengths(known, sl)
    ensures HolesOf(known, rlnc, sl, r)
  {
    hide InKernel, Explains, Pivoted, SameKernel, ReducedRows, Field.Mul, Alpha, HolesOf;
    var u := Unknown(known, |known|);
    var n := |u| + sl;
    var rows := ReduceAll(gf, rlnc, known, u, sl);
    SameKernelRefl(rows[..], n);
    ghost var cols: seq<nat> := [];
    var pivots: seq<Option<nat>> := seq(|u|, _ => None);
    var pr := 0;
    for col := 0 to |u|
      invariant |pivots| == |u| && pr == |cols| && gf.Valid()
      invariant PivotTable(pivots, cols, col)
      invariant Solving(rows[..], rlnc, known, sl, cols, col)
    {
      ghost var was := rows[..];
      var found := PivotColumn(gf, rows, n, pr, col);
      if found {
        SolvingPivot(was, rows[..], rlnc, known, sl, cols, col);
        pivots := pivots[col := Some(pr)];
        pr := pr + 1;
        cols := cols + [col];
      } else {
        ReducedSkip(was, n, cols, col);
      }
    }
    r := CollectClean(rows[..], rlnc, known, u, sl, pivots, cols);
  }

  /** With no unknown position, or no random combination, the raw copies are the answer. */
  lemma NothingToSolve(known: Known, rlnc: seq<Shard>, sl: nat)
    requires AllWellFormed(rlnc, |known|, sl) && KnownLengths(known, sl)
    requires |Unknown(known, |known|)| == 0 || |rlnc| == 0
    ensures HolesOf(known, rlnc, sl, known)
  {
    UnknownMembers(known, |known|);
    forall i | 0 <= i < |known| ensures known[i].Some? <==> Vanishes(known, rlnc, i) {
      if known[i].None? {
        assert InKernel(known, rlnc, Unit(|known|, i));
      }
    }
  }

  /** The copies in `known`, plus the payload of every pivot row that carries no other unknown. */
  method CollectClean(rows: seq<Vec>, ghost rlnc: seq<Shard>, known: Known, u: seq<nat>, sl: nat,
                      pivots: seq<Option<nat>>, ghost cols: seq<nat>) returns (r: seq<Option<Vec>>)
    requires u == Unknown(known, |known|) && |pivots| == |u|
    requires Solving(rows, rlnc, known, sl, cols, |u|) && PivotTable(pivots, cols, |u|)
    ensures HolesOf(known, rlnc, sl, r)
  {
    hide Solving, Vanishes, Explains, InKernel, Unknown, Clean;
    UnknownMembers(known, |known|);
    assert Matrix(rows, |u| + sl) && |cols| <= |rows| by { SolvingShape(rows, rlnc, known, sl, cols, |u|); }
    r := known;
    for col := 0 to |u|
      invariant |r| == |known|
      invariant forall i :: 0 <= i < |known| && known[i].Some? ==> r[i] == known[i]
      invariant forall c :: col <= c < |u| ==> r[u[c]].None?
      invariant forall c :: 0 <= c < col ==> r[u[c]] == Recovered(rows, |u|, pivots, c)
    {
      Ascending(u, col);
      var pivot := pivots[col];
      if pivot.Some? {
        var row := rows[pivot.value];
        var clean := IsClean(row, col, |u|);
        if clean {
          r := r[u[col] := Some(row[|u|..])];
        }
      }
    }
    CollectedIsRight(rows, rlnc, known, sl, pivots, cols, r);
  }

  lemma Ascending(u: seq<nat>, c: nat)
    requires c < |u| && forall a, b :: 0 <= a < b < |u| ==> u[a] < u[b]
    ensures forall a :: 0 <= a < |u| && a != c ==> u[a] != u[c]
  {}

  lemma CollectedIsRight(rows: seq<Vec>, rlnc: seq<Shard>, known: Known, sl: nat,
                         pivots: seq<Option<nat>>, cols: seq<nat>, r: seq<Option<Vec>>)
    requires Solving(rows, rlnc, known, sl, cols, |Unknown(known, |known|)|)
    requires |pivots| == |Unknown(known, |known|)| && PivotTable(pivots, cols, |pivots|) && |r| == |known|
    requires forall i :: 0 <= i < |known| && known[i].Some? ==> r[i] == known[i]
    requires forall c :: 0 <= c < |pivots| ==> r[Unknown(known, |known|)[c]] == Recovered(rows, |pivots|, pivots, c)
    ensures HolesOf(known, rlnc, sl, r)
  {
    hide Vanishes, Explains, InKernel, SameKernel, ReducedRows, Recovered;
    var u := Unknown(known, |known|);
    UnknownMembers(known, |known|);
    forall i | 0 <= i < |known|
      ensures r[i].Some? <==> Vanishes(known, rlnc, i)
      ensures forall chunks :: Explains(chunks, known, rlnc, sl) && r[i].Some?
                ==> |chunks| == |known| && r[i].value == chunks[i]
    {
      if known[i].Some? {
        KnownVanishes(known, rlnc, sl, i);
      } else {
        RecoveredIsRight(rows, rlnc, known, sl, pivots, cols, Position(u, i));
      }
    }
  }

  lemma SolvingShape(rows: seq<Vec>, rlnc: seq<Shard>, known: Known, sl: nat, cols: seq<nat>, col: nat)
    requires Solving(rows, rlnc, known, sl, cols, col)
    ensures Matrix(rows, |Unknown(known, |known|)| + sl) && |cols| <= |rows|
  {}

  method IsClean(row: Vec, c: nat, m: nat) returns (clean: bool)
    requires m <= |row|
    ensures clean <==> Clean(row, c, m)
  {
    for i := 0 to m
      invariant forall j :: 0 <= j < i && j != c ==> row[j] == 0
    {
      if i != c && row[i] != 0 {
        return false;
      }
    }
    clean := true;
  }

  ghost function Recovered(rows: seq<Vec>, m: nat, pivots: seq<Option<nat>>, c: nat): Option<Vec>
    requires c < |pivots|
    requires forall r :: 0 <= r < |rows| ==> m <= |rows[r]|
    requires pivots[c].Some? ==> pivots[c].value < |rows|
  {
    if pivots[c].Some? && Clean(rows[pivots[c].value], c, m) then Some(rows[pivots[c].value][m..]) else None
  }

  lemma KnownVanishes(known: Known, rlnc: seq<Shard>, sl: nat, i: nat)
    requires i < |known| && known[i].Some?
    ensures Vanishes(known, rlnc, i)
    ensures forall chunks :: Explains(chunks, known, rlnc, sl) ==> |chunks| == |known| && known[i].value == chunks[i]
  {}

  /** A clean pivot row recovers its chunk; any other unknown position varies in the kernel. */
  lemma RecoveredIsRight(rows: seq<Vec>, rlnc: seq<Shard>, known: Known, sl: nat, pivots: seq<Option<nat>>,
                         cols: seq<nat>, c: nat)
    requires Solving(rows, rlnc, known, sl, cols, |Unknown(known, |known|)|)
    requires |pivots| == |Unknown(known, |known|)| && c < |pivots|
    requires PivotTable(pivots, cols, |pivots|)
    ensures Recovered(rows, |pivots|, pivots, c).Some? <==> Vanishes(known, rlnc, Unknown(known, |known|)[c])
    ensures forall chunks :: Explains(chunks, known, rlnc, sl) && Recovered(rows, |pivots|, pivots, c).Some?
              ==> |chunks| == |known| && Recovered(rows, |pivots|, pivots, c).value == chunks[Unknown(known, |known|)[c]]
  {
    hide InKernel, Explains, SameKernel, ReducedRows;
    var u := Unknown(known, |known|);
    if pivots[c].None? {
      var y := FreePosition(rows, rlnc, known, sl, cols, |u|, c);
    } else {
      var p := pivots[c].value;
      if Clean(rows[p], c, |u|) {
        forall y: Vec | InKernel(known, rlnc, y) ensures |y| == |known| && y[u[c]] == 0 {
          KernelLength(known, rlnc, y);
          CleanDetermines(rows, rlnc, known, sl, cols, p, y);
        }
        forall chunks | Explains(chunks, known, rlnc, sl)
          ensures |chunks| == |known| && rows[p][|u|..] == chunks[u[c]]
        {
          SourceShape(chunks, known, rlnc, sl);
          CleanCarriesChunk(rows, rlnc, known, sl, cols, p, chunks);
        }
      } else {
        var f :| 0 <= f < |u| && f != c && rows[p][f] != 0;
        var y := FreePosition(rows, rlnc, known, sl, cols, |u|, f);
      }
    }
  }
}
