/** The reduced linear system of the decoders in crates/holofs-core/src/rlnc.rs: chunks that
    arrived as raw copies are subtracted from the random combinations, and elimination runs
    over the unknown positions only. This module relates solutions of the reduced system to
    solutions of the full one. */
module ReducedSystem {
  import opened Field
  import opened LinAlg
  import opened Elimination
  import opened Wrappers

  /** One coded piece: the coefficients of a linear combination of the k chunks, and its bytes. */
  datatype Shard = Shard(coeffs: Vec, payload: Vec)

  ghost predicate WellFormed(s: Shard, k: nat, sl: nat) {
    |s.coeffs| == k && |s.payload| == sl
  }

  /** The shard is the combination of the source chunks that its coefficients announce. */
  ghost predicate Consistent(s: Shard, chunks: seq<Vec>, sl: nat)
    requires Matrix(chunks, sl)
  {
    WellFormed(s, |chunks|, sl) && s.payload == Combo(s.coeffs, chunks, sl)
  }

  lemma ConsistentByte(s: Shard, chunks: seq<Vec>, sl: nat, j: nat)
    requires Matrix(chunks, sl) && Consistent(s, chunks, sl) && j < sl
    ensures s.payload[j] == Dot(s.coeffs, Column(chunks, j))
  {
    ComboNAt(s.coeffs, chunks, |s.coeffs|, sl, j);
  }

  type Known = seq<Option<Vec>>

  // ---- Positions still unknown ------------------------------------------------

  function Unknown(known: Known, n: nat): (u: seq<nat>)
    requires n <= |known|
    ensures |u| <= n
    ensures forall c :: 0 <= c < |u| ==> u[c] < n && known[u[c]].None?
  {
    if n == 0 then []
    else if known[n - 1].None? then Unknown(known, n - 1) + [n - 1]
    else Unknown(known, n - 1)
  }

  lemma {:induction false} UnknownMembers(known: Known, n: nat)
    requires n <= |known|
    ensures forall i :: 0 <= i < n && known[i].None? ==> i in Unknown(known, n)
    ensures forall c, d :: 0 <= c < d < |Unknown(known, n)| ==> Unknown(known, n)[c] < Unknown(known, n)[d]
  {
    if n == 0 {
    } else {
      UnknownMembers(known, n - 1);
    }
  }

  /** Entries of v at the listed positions. */
  function Gather(v: Vec, u: seq<nat>): (w: Vec)
    requires forall c :: 0 <= c < |u| ==> u[c] < |v|
    ensures |w| == |u|
  {
    seq(|u|, c requires 0 <= c < |u| => v[u[c]])
  }

  function Position(u: seq<nat>, i: nat): (c: nat)
    requires i in u
    ensures c < |u| && u[c] == i
  {
    if u[0] == i then 0 else 1 + Position(u[1..], i)
  }

  /** Puts the entries of y back at the listed positions, zero elsewhere. */
  function Scatter(y: Vec, u: seq<nat>, k: nat): (v: Vec)
    requires |y| == |u|
    ensures |v| == k
  {
    seq(k, i requires 0 <= i < k => if i in u then y[Position(u, i)] else 0)
  }

  lemma ScatterAt(y: Vec, known: Known, c: nat)
    requires |y| == |Unknown(known, |known|)| && c < |y|
    ensures Scatter(y, Unknown(known, |known|), |known|)[Unknown(known, |known|)[c]] == y[c]
  {
    UnknownMembers(known, |known|);
  }

  // ---- The row of a random combination -----------------------------------------

  /** Known part of a dot product. */
  function KnownDotN(c: Vec, x: Vec, known: Known, n: nat): Byte
    requires n <= |known| && n <= |c| && n <= |x|
  {
    if n == 0 then 0
    else if known[n - 1].Some? then Add(KnownDotN(c, x, known, n - 1), Mul(c[n - 1], x[n - 1]))
    else KnownDotN(c, x, known, n - 1)
  }

  ghost predicate KnownLengths(known: Known, sl: nat) {
    forall i :: 0 <= i < |known| && known[i].Some? ==> |known[i].value| == sl
  }

  /** Byte j of the known chunks, zero where the chunk is unknown. */
  function KnownColumn(known: Known, sl: nat, j: nat): (x: Vec)
    requires KnownLengths(known, sl) && j < sl
    ensures |x| == |known|
  {
    seq(|known|, i requires 0 <= i < |known| => if known[i].Some? then known[i].value[j] else 0)
  }

  /** Coefficients at the unknown positions, then the payload minus the known contributions. */
  function ReducedRow(s: Shard, known: Known, sl: nat): (row: Vec)
    requires WellFormed(s, |known|, sl) && KnownLengths(known, sl)
    ensures |row| == |Unknown(known, |known|)| + sl
  {
    Gather(s.coeffs, Unknown(known, |known|)) +
    seq(sl, j requires 0 <= j < sl =>
      Add(s.payload[j], KnownDotN(s.coeffs, KnownColumn(known, sl, j), known, |known|)))
  }

  function ReducedRows(rlnc: seq<Shard>, known: Known, sl: nat): (rows: seq<Vec>)
    requires (forall r :: 0 <= r < |rlnc| ==> WellFormed(rlnc[r], |known|, sl)) && KnownLengths(known, sl)
    ensures |rows| == |rlnc| && Matrix(rows, |Unknown(known, |known|)| + sl)
  {
    seq(|rlnc|, r requires 0 <= r < |rlnc| => ReducedRow(rlnc[r], known, sl))
  }

  // ---- Splitting dot products ----------------------------------------------------

  lemma {:induction false} DotKnownUnknown(c: Vec, x: Vec, known: Known, n: nat)
    requires n <= |known| && |known| == |c| == |x|
    ensures DotN(c, x, n)
         == Add(Dot(Gather(c, Unknown(known, n)), Gather(x, Unknown(known, n))), KnownDotN(c, x, known, n))
  {
    hide Add, Mul, Dot;
    if n == 0 {
      AddLaws(0, 0, 0);
      DotIsDotN([], []);
      assert Gather(c, []) == [] && Gather(x, []) == [];
    } else {
      DotKnownUnknown(c, x, known, n - 1);
      var u := Unknown(known, n - 1);
      var d, kn, p := Dot(Gather(c, u), Gather(x, u)), KnownDotN(c, x, known, n - 1), Mul(c[n - 1], x[n - 1]);
      AddLaws(d, kn, p); AddLaws(d, p, kn); AddLaws(kn, p, 0);
      if known[n - 1].None? {
        var gc, gx := Gather(c, u + [n - 1]), Gather(x, u + [n - 1]);
        assert gc[..|u|] == Gather(c, u) && gx[..|u|] == Gather(x, u);
        DotSnoc(gc, gx);
      }
    }
  }

  lemma {:induction false} KnownDotExt(c: Vec, x: Vec, x': Vec, known: Known, n: nat)
    requires n <= |known| && n <= |c| && n <= |x| && n <= |x'|
    requires forall i :: 0 <= i < n && known[i].Some? ==> x[i] == x'[i]
    ensures KnownDotN(c, x, known, n) == KnownDotN(c, x', known, n)
  {
    hide Add, Mul;
    if n == 0 {
    } else {
      KnownDotExt(c, x, x', known, n - 1);
    }
  }

  lemma {:induction false} KnownDotZero(c: Vec, x: Vec, known: Known, n: nat)
    requires n <= |known| && n <= |c| && n <= |x|
    requires forall i :: 0 <= i < n && known[i].Some? ==> x[i] == 0
    ensures KnownDotN(c, x, known, n) == 0
  {
    hide Add, Mul;
    if n == 0 {
    } else {
      KnownDotZero(c, x, known, n - 1); MulComm(c[n - 1], 0); MulOneZero(c[n - 1]); AddLaws(0, 0, 0);
    }
  }

  lemma {:induction false} DotConcat(u: Vec, x: Vec, w: Vec)
    requires |u| == |x| + |w|
    ensures Dot(u, x + w) == Add(Dot(u[..|x|], x), Dot(u[|x|..], w))
    decreases |w|
  {
    hide Add, Mul, Dot;
    if w == [] {
      assert x + w == x && u[..|x|] == u;
      DotIsDotN(u[|x|..], []);
      AddLaws(Dot(u, x), 0, 0);
    } else {
      var m := |w| - 1;
      DotConcat(u[..|u| - 1], x, w[..m]);
      assert (x + w)[..|u| - 1] == x + w[..m];
      assert u[..|u| - 1][..|x|] == u[..|x|] && u[..|u| - 1][|x|..] == u[|x|..][..m];
      DotSnoc(u, x + w);
      DotSnoc(u[|x|..], w);
      AddLaws(Dot(u[..|x|], x), Dot(u[|x|..][..m], w[..m]), Mul(u[|u| - 1], w[m]));
    }
  }

  // ---- Solutions of the full and of the reduced system ----------------------------

  /** y vanishes at the known positions and is orthogonal to the remaining combinations. */
  ghost predicate InKernel(known: Known, rlnc: seq<Shard>, y: Vec) {
    && |y| == |known|
    && (forall r :: 0 <= r < |rlnc| ==> |rlnc[r].coeffs| == |known|)
    && (forall i :: 0 <= i < |known| && known[i].Some? ==> y[i] == 0)
    && (forall r :: 0 <= r < |rlnc| ==> Dot(rlnc[r].coeffs, y) == 0)
  }

  /** The known chunks are the source's and the remaining combinations are consistent with it. */
  ghost predicate Explains(chunks: seq<Vec>, known: Known, rlnc: seq<Shard>, sl: nat) {
    && |chunks| == |known| && Matrix(chunks, sl)
    && (forall i :: 0 <= i < |known| && known[i].Some? ==> known[i].value == chunks[i])
    && (forall r :: 0 <= r < |rlnc| ==> Consistent(rlnc[r], chunks, sl))
  }

  lemma RowAgainstKernel(s: Shard, known: Known, sl: nat, y: Vec)
    requires WellFormed(s, |known|, sl) && KnownLengths(known, sl) && |y| == |known|
    requires forall i :: 0 <= i < |known| && known[i].Some? ==> y[i] == 0
    ensures Dot(s.coeffs, y) == Dot(ReducedRow(s, known, sl), Gather(y, Unknown(known, |known|)) + Zero(sl))
  {
    hide Add, Mul, Dot;
    var u := Unknown(known, |known|);
    var row, g := ReducedRow(s, known, sl), Gather(y, u);
    DotIsDotN(s.coeffs, y);
    DotKnownUnknown(s.coeffs, y, known, |known|);
    KnownDotZero(s.coeffs, y, known, |known|);
    DotConcat(row, g, Zero(sl));
    assert row[..|u|] == Gather(s.coeffs, u);
    DotWithZero(row[|u|..]);
    AddLaws(Dot(Gather(s.coeffs, u), g), 0, 0);
  }

  lemma RowAgainstSource(s: Shard, known: Known, sl: nat, chunks: seq<Vec>, j: nat)
    requires KnownLengths(known, sl) && |chunks| == |known| && Matrix(chunks, sl)
    requires Consistent(s, chunks, sl) && j < sl
    requires forall i :: 0 <= i < |known| && known[i].Some? ==> known[i].value == chunks[i]
    ensures Dot(ReducedRow(s, known, sl), Gather(Column(chunks, j), Unknown(known, |known|)) + Unit(sl, j)) == 0
  {
    hide Add, Mul, Dot;
    var u, x := Unknown(known, |known|), Column(chunks, j);
    var row, g := ReducedRow(s, known, sl), Gather(x, u);
    ConsistentByte(s, chunks, sl, j);
    DotIsDotN(s.coeffs, x);
    DotKnownUnknown(s.coeffs, x, known, |known|);
    KnownDotExt(s.coeffs, x, KnownColumn(known, sl, j), known, |known|);
    DotConcat(row, g, Unit(sl, j));
    assert row[..|u|] == Gather(s.coeffs, u);
    DotUnit(row[|u|..], j);
    var d, kn := Dot(Gather(s.coeffs, u), g), KnownDotN(s.coeffs, x, known, |known|);
    AddCancel(d, kn); AddLaws(d, d, 0);
  }

  /** State of elimination over the unknown columns of the reduced system. */
  ghost predicate Solving(rows: seq<Vec>, rlnc: seq<Shard>, known: Known, sl: nat, cols: seq<nat>, col: nat) {
    && (forall r :: 0 <= r < |rlnc| ==> WellFormed(rlnc[r], |known|, sl)) && KnownLengths(known, sl)
    && col <= |Unknown(known, |known|)|
    && Matrix(rows, |Unknown(known, |known|)| + sl)
    && SameKernel(rows, ReducedRows(rlnc, known, sl), |Unknown(known, |known|)| + sl)
    && Reduced(rows, |Unknown(known, |known|)| + sl, cols, col)
  }

  lemma ReducedKills(rlnc: seq<Shard>, known: Known, sl: nat, z: Vec)
    requires (forall r :: 0 <= r < |rlnc| ==> WellFormed(rlnc[r], |known|, sl)) && KnownLengths(known, sl)
    requires |z| == |Unknown(known, |known|)| + sl
    ensures Kills(ReducedRows(rlnc, known, sl), z)
       <==> forall r :: 0 <= r < |rlnc| ==> Dot(ReducedRow(rlnc[r], known, sl), z) == 0
  {
    hide Dot, ReducedRow;
    if Kills(ReducedRows(rlnc, known, sl), z) {
      forall r | 0 <= r < |rlnc| ensures Dot(ReducedRow(rlnc[r], known, sl), z) == 0 {
        assert ReducedRows(rlnc, known, sl)[r] == ReducedRow(rlnc[r], known, sl);
      }
    }
  }

  /** A processed column without pivot: the full system has a kernel vector that is 1 there,
      and at each pivot's position it is that row's entry in the free column. */
  lemma FreePosition(rows: seq<Vec>, rlnc: seq<Shard>, known: Known, sl: nat, cols: seq<nat>, col: nat, f: nat)
    returns (y: Vec)
    requires Solving(rows, rlnc, known, sl, cols, col) && f < col && f !in cols
    ensures InKernel(known, rlnc, y)
    ensures y[Unknown(known, |known|)[f]] == 1
    ensures forall p :: 0 <= p < |cols| ==> y[Unknown(known, |known|)[cols[p]]] == rows[p][f]
  {
    hide Dot, Kills, ReducedRow;
    var u := Unknown(known, |known|);
    var z := FreeVector(rows, |u| + sl, cols, col, f);
    y := Scatter(z[..|u|], u, |known|);
    forall c | 0 <= c < |u| ensures y[u[c]] == z[c] { ScatterAt(z[..|u|], known, c); }
    assert Gather(y, u) == z[..|u|];
    assert z == z[..|u|] + Zero(sl);
    ReducedKills(rlnc, known, sl, z);
    forall r | 0 <= r < |rlnc| ensures Dot(rlnc[r].coeffs, y) == 0 {
      RowAgainstKernel(rlnc[r], known, sl, y);
    }
  }

  /** Against every kernel vector of the full system, the eliminated rows vanish. */
  lemma KernelDescends(rows: seq<Vec>, rlnc: seq<Shard>, known: Known, sl: nat, cols: seq<nat>, col: nat, y: Vec)
    requires Solving(rows, rlnc, known, sl, cols, col) && InKernel(known, rlnc, y)
    ensures Kills(rows, Gather(y, Unknown(known, |known|)) + Zero(sl))
  {
    hide Dot, Kills, ReducedRow;
    var z := Gather(y, Unknown(known, |known|)) + Zero(sl);
    ReducedKills(rlnc, known, sl, z);
    forall r | 0 <= r < |rlnc| ensures Dot(ReducedRow(rlnc[r], known, sl), z) == 0 {
      RowAgainstKernel(rlnc[r], known, sl, y);
    }
  }

  /** Row p carries no unknown other than its pivot. */
  ghost predicate Clean(row: Vec, c: nat, m: nat)
    requires m <= |row|
  {
    forall i :: 0 <= i < m && i != c ==> row[i] == 0
  }

  /** A clean pivot row determines its position: every kernel vector vanishes there. */
  lemma CleanDetermines(rows: seq<Vec>, rlnc: seq<Shard>, known: Known, sl: nat, cols: seq<nat>, p: nat, y: Vec)
    requires Solving(rows, rlnc, known, sl, cols, |Unknown(known, |known|)|) && p < |cols|
    requires Clean(rows[p], cols[p], |Unknown(known, |known|)|)
    requires InKernel(known, rlnc, y)
    ensures y[Unknown(known, |known|)[cols[p]]] == 0
  {
    hide Dot;
    var u := Unknown(known, |known|);
    KernelDescends(rows, rlnc, known, sl, cols, |u|, y);
    CleanRow(rows[p], Gather(y, u) + Zero(sl), cols[p]);
  }

  /** A clean pivot row carries exactly the bytes of its source chunk. */
  lemma CleanCarriesChunk(rows: seq<Vec>, rlnc: seq<Shard>, known: Known, sl: nat, cols: seq<nat>, p: nat,
                          chunks: seq<Vec>)
    requires Solving(rows, rlnc, known, sl, cols, |Unknown(known, |known|)|) && p < |cols|
    requires Clean(rows[p], cols[p], |Unknown(known, |known|)|)
    requires Explains(chunks, known, rlnc, sl)
    ensures rows[p][|Unknown(known, |known|)|..] == chunks[Unknown(known, |known|)[cols[p]]]
  {
    hide Dot, Kills, ReducedRow, Consistent;
    var u := Unknown(known, |known|);
    forall j | 0 <= j < sl ensures rows[p][|u| + j] == chunks[u[cols[p]]][j] {
      var x := Gather(Column(chunks, j), u);
      var z := x + Unit(sl, j);
      ReducedKills(rlnc, known, sl, z);
      forall r | 0 <= r < |rlnc| ensures Dot(ReducedRow(rlnc[r], known, sl), z) == 0 {
        RowAgainstSource(rlnc[r], known, sl, chunks, j);
      }
      assert Kills(rows, z);
      RowGivesByte(rows, rows[p], p, x, cols[p], sl, j);
    }
  }

  lemma RowGivesByte(rows: seq<Vec>, row: Vec, p: nat, x: Vec, c: nat, sl: nat, j: nat)
    requires Matrix(rows, |x| + sl) && p < |rows| && rows[p] == row && c < |x| && j < sl
    requires Kills(rows, x + Unit(sl, j)) && row[c] == 1 && Clean(row, c, |x|)
    ensures row[|x| + j] == x[c]
  {
    hide Add, Mul;
    DotConcat(row, x, Unit(sl, j));
    DotUnit(row[|x|..], j);
    DotNSingle(row[..|x|], x, |x|, c);
    MulOneZero(x[c]);
    AddCancel(x[c], row[|x| + j]);
  }
}
