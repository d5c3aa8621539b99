/** What a caller gets from the decoders: exactness in terms of spans and of sources that the
    shards cannot tell apart, and agreement of the three variants. */
module DecodingTheorems {
  import opened Field
  import opened LinAlg
  import opened ReducedSystem
  import opened Decoder
  import opened Wrappers

  /** Decoding succeeds exactly when the coefficient vectors span GF(2^8)^k. */
  lemma DecodesIffSpanning(shards: seq<Shard>, k: nat, sl: nat, r: Option<Vec>)
    requires AllWellFormed(shards, k, sl) && DecodesTo(shards, k, sl, r)
    ensures r.Some? <==> SpansAll(Coeffs(shards), k)
  {
    hide SpansAll, TrivialKernel, IsSource;
    SpansAllIsTrivialKernel(Coeffs(shards), k);
  }

  /** Fewer than k shards never decode. */
  lemma TooFewNeverDecode(shards: seq<Shard>, k: nat, sl: nat, r: Option<Vec>)
    requires AllWellFormed(shards, k, sl) && DecodesTo(shards, k, sl, r)
    ensures |shards| < k ==> r.None?
  {
    if |shards| < k { var y := Underdetermined(Coeffs(shards), k); }
  }

  // ---- Sources that the shards cannot tell apart -----------------------------------

  /** The source with y[i] added to byte 0 of chunk i. */
  function Shifted(chunks: seq<Vec>, y: Vec, sl: nat): (out: seq<Vec>)
    requires Matrix(chunks, sl) && |y| == |chunks| && sl > 0
    ensures |out| == |chunks| && Matrix(out, sl)
  {
    seq(|chunks|, i requires 0 <= i < |chunks| => chunks[i][0 := Add(chunks[i][0], y[i])])
  }

  lemma {:induction false} DotNPlusRight(c: Vec, x: Vec, y: Vec, z: Vec, n: nat)
    requires n <= |c| && n <= |x| && n <= |y| && n <= |z|
    requires forall i :: 0 <= i < n ==> z[i] == Add(x[i], y[i])
    ensures DotN(c, z, n) == Add(DotN(c, x, n), DotN(c, y, n))
  {
    hide Add, Mul;
    if n == 0 {
      AddLaws(0, 0, 0);
    } else {
      DotNPlusRight(c, x, y, z, n - 1);
      MulAddRight(c[n - 1], x[n - 1], y[n - 1]);
      AddSwap(DotN(c, x, n - 1), DotN(c, y, n - 1), Mul(c[n - 1], x[n - 1]), Mul(c[n - 1], y[n - 1]));
    }
  }

  lemma ShiftedConsistent(s: Shard, chunks: seq<Vec>, y: Vec, sl: nat)
    requires Matrix(chunks, sl) && |y| == |chunks| && sl > 0
    requires Consistent(s, chunks, sl) && Dot(s.coeffs, y) == 0
    ensures Consistent(s, Shifted(chunks, y, sl), sl)
  {
    hide Add, Mul;
    var out := Shifted(chunks, y, sl);
    forall j | 0 <= j < sl ensures s.payload[j] == Combo(s.coeffs, out, sl)[j] {
      ComboNAt(s.coeffs, out, |s.coeffs|, sl, j);
      ConsistentByte(s, chunks, sl, j);
      if j == 0 {
        DotNPlusRight(s.coeffs, Column(chunks, 0), y, Column(out, 0), |y|);
        AddLaws(Dot(s.coeffs, Column(chunks, 0)), 0, 0);
      } else {
        DotNExt(s.coeffs, s.coeffs, Column(chunks, j), Column(out, j), |y|);
      }
    }
  }

  /** A position that is not determined: another source, different there, gives the same shards. */
  lemma UndeterminedHasTwin(shards: seq<Shard>, chunks: seq<Vec>, k: nat, sl: nat, i: nat) returns (twin: seq<Vec>)
    requires AllWellFormed(shards, k, sl) && IsSource(chunks, shards, k, sl) && i < k && sl > 0
    requires !Determined(shards, k, i)
    ensures IsSource(twin, shards, k, sl) && twin[i] != chunks[i]
  {
    hide Add, Dot, Consistent;
    var y: Vec :| |y| == k && Kills(Coeffs(shards), y) && y[i] != 0;
    twin := Shifted(chunks, y, sl);
    forall r | 0 <= r < |shards| ensures Consistent(shards[r], twin, sl) {
      assert Coeffs(shards)[r] == shards[r].coeffs;
      ShiftedConsistent(shards[r], chunks, y, sl);
    }
    AddChanges(chunks[i][0], y[i]);
    assert twin[i][0] != chunks[i][0];
  }

  lemma AddChanges(a: Byte, b: Byte)
    ensures Add(a, b) == a ==> b == 0
  {
    AddCancel(b, a);
    AddLaws(a, b, 0); AddLaws(a, a, 0);
    if Add(a, b) == a { assert Add(a, Add(a, b)) == 0; }
    hide Add;
  }

  /** Where a position is determined, all sources of the shards agree. */
  lemma {:induction false} DeterminedAgrees(shards: seq<Shard>, a: seq<Vec>, b: seq<Vec>, k: nat, sl: nat, i: nat)
    requires AllWellFormed(shards, k, sl) && IsSource(a, shards, k, sl) && IsSource(b, shards, k, sl) && i < k
    requires Determined(shards, k, i)
    ensures a[i] == b[i]
  {
    hide Add, Mul, Dot, Consistent;
    forall j | 0 <= j < sl ensures a[i][j] == b[i][j] {
      var x, z := Column(a, j), Column(b, j);
      var y := Plus(x, z);
      forall r | 0 <= r < |shards| ensures Dot(Coeffs(shards)[r], y) == 0 {
        var s := shards[r];
        assert Consistent(s, a, sl) && Consistent(s, b, sl);
        SameByte(s, a, b, sl, j);
        DotPlusRight(s.coeffs, x, z);
        AddLaws(Dot(s.coeffs, x), 0, 0);
      }
      assert Kills(Coeffs(shards), y);
      assert y[i] == 0;
      AddCancel(x[i], z[i]);
    }
  }

  lemma SameByte(s: Shard, a: seq<Vec>, b: seq<Vec>, sl: nat, j: nat)
    requires Matrix(a, sl) && Matrix(b, sl) && Consistent(s, a, sl) && Consistent(s, b, sl) && j < sl
    ensures |s.coeffs| == |a| == |b| && Dot(s.coeffs, Column(a, j)) == Dot(s.coeffs, Column(b, j))
  {
    ConsistentByte(s, a, sl, j); ConsistentByte(s, b, sl, j);
  }

  lemma DotPlusRight(c: Vec, x: Vec, z: Vec)
    requires |c| == |x| == |z|
    ensures Dot(c, Plus(x, z)) == Add(Dot(c, x), Dot(c, z))
  {
    DotNPlusRight(c, x, z, Plus(x, z), |c|);
  }

  /** Hole decoding is exact: a hole is left at i exactly when some other source, different in
      chunk i, would have produced the same shards; what is filled in is the true chunk. */
  lemma HolesExact(shards: seq<Shard>, chunks: seq<Vec>, k: nat, sl: nat, r: seq<Option<Vec>>, i: nat)
    requires AllWellFormed(shards, k, sl) && IsSource(chunks, shards, k, sl) && HolesTo(shards, k, sl, r)
    requires i < k && sl > 0
    ensures r[i].None? <==> exists twin :: IsSource(twin, shards, k, sl) && twin[i] != chunks[i]
    ensures r[i].Some? ==> r[i] == Some(chunks[i])
  {
    hide Determined, AllWellFormed;
    if r[i].None? {
      var twin := UndeterminedHasTwin(shards, chunks, k, sl, i);
    } else {
      forall twin | IsSource(twin, shards, k, sl) ensures twin[i] == chunks[i] {
        DeterminedAgrees(shards, twin, chunks, k, sl, i);
      }
    }
  }

  /** decode_layer fails exactly when two different sources explain the shards. */
  lemma FailureMeansAmbiguous(shards: seq<Shard>, chunks: seq<Vec>, k: nat, sl: nat, r: Option<Vec>)
    requires AllWellFormed(shards, k, sl) && IsSource(chunks, shards, k, sl) && DecodesTo(shards, k, sl, r)
    requires sl > 0
    ensures r.None? <==> exists twin :: IsSource(twin, shards, k, sl) && twin != chunks
  {
    hide Kills;
    if r.None? {
      var y: Vec :| |y| == k && Kills(Coeffs(shards), y) && y != Zero(k);
      var i := NonzeroEntry(y);
      var twin := UndeterminedHasTwin(shards, chunks, k, sl, i);
      assert twin[i] != chunks[i];
    } else {
      forall twin | IsSource(twin, shards, k, sl) ensures twin == chunks {
        forall i | 0 <= i < k ensures twin[i] == chunks[i] {
          TrivialDetermined(shards, k, i);
          DeterminedAgrees(shards, twin, chunks, k, sl, i);
        }
      }
    }
  }

  lemma TrivialDetermined(shards: seq<Shard>, k: nat, i: nat)
    requires Matrix(Coeffs(shards), k) && i < k && TrivialKernel(Coeffs(shards), k)
    ensures Determined(shards, k, i)
  {
    hide Kills;
  }

  // ---- The variants against each other -----------------------------------------------

  function Values(r: seq<Option<Vec>>): (vs: seq<Vec>)
    requires forall i :: 0 <= i < |r| ==> r[i].Some?
    ensures |vs| == |r|
  {
    seq(|r|, i requires 0 <= i < |r| => r[i].value)
  }

  /** All-or-nothing decoding succeeds exactly when no hole is left, and on consistent shards
      its output is the concatenation of the recovered chunks. */
  lemma DecodeIsHolesWithoutHoles(shards: seq<Shard>, k: nat, sl: nat, whole: Option<Vec>, parts: seq<Option<Vec>>)
    requires AllWellFormed(shards, k, sl) && DecodesTo(shards, k, sl, whole) && HolesTo(shards, k, sl, parts)
    ensures whole.Some? <==> forall i :: 0 <= i < k ==> parts[i].Some?
    ensures whole.Some? && (exists chunks :: IsSource(chunks, shards, k, sl)) ==> whole.value == Flatten(Values(parts))
  {
    hide Kills, AllConsistent;
    if whole.Some? {
      forall i | 0 <= i < k ensures parts[i].Some? { TrivialDetermined(shards, k, i); }
      if chunks :| IsSource(chunks, shards, k, sl) {
        assert Values(parts) == chunks;
      }
    } else {
      var y: Vec :| |y| == k && Kills(Coeffs(shards), y) && y != Zero(k);
      var i := NonzeroEntry(y);
      assert !Determined(shards, k, i);
    }
  }

  /** On shards of one source, decode_layer and decode_layer_with_k return the same result. */
  lemma DecodersAgree(shards: seq<Shard>, chunks: seq<Vec>, k: nat, sl: nat, a: Option<Vec>, b: Option<Vec>)
    requires AllWellFormed(shards, k, sl) && IsSource(chunks, shards, k, sl)
    requires DecodesTo(shards, k, sl, a) && DecodesTo(shards, k, sl, b)
    ensures a == b
  {
    hide TrivialKernel, IsSource;
  }
}
