/** Encoding a layer (encode_layer, encode_layer_with_k in crates/holofs-core/src/rlnc.rs):
    k raw copies followed by random linear combinations. */
module Encoder {
  import opened Field
  import opened LinAlg
  import opened Elimination
  import opened GfTables
  import opened ReducedSystem
  import opened Decoder
  import opened Quotients

  /** xorshift64 of crates/holofs-core/src/rng.rs. Callers see an arbitrary byte stream: the
      history `drawn` is all that their contracts speak about. */
  class Rng {
    var state: bv64
    ghost var drawn: Vec

    constructor (seed: bv64)
      ensures drawn == []
    {
      state := seed | 1;
      drawn := [];
    }

    method Byte() returns (b: Byte)
      modifies this
      ensures drawn == old(drawn) + [b]
    {
      var x := state;
      x := x ^ (x << 13);
      x := x ^ (x >> 7);
      x := x ^ (x << 17);
      state := x;
      b := ((x >> 33) & 0xff) as Field.Byte;
      drawn := drawn + [b];
    }
  }

  // ---- The source as k chunks --------------------------------------------------------

  lemma ChunkBounds(i: nat, k: nat, sl: nat)
    requires i < k
    ensures i * sl <= (i + 1) * sl <= k * sl && (i + 1) * sl == i * sl + sl
  {
    assert k * sl == (i + 1) * sl + (k - i - 1) * sl;
  }

  function ChunkOf(padded: Vec, k: nat, sl: nat, i: nat): (chunk: Vec)
    requires |padded| == k * sl && i < k
    ensures |chunk| == sl
  {
    ChunkBounds(i, k, sl);
    padded[i * sl..(i + 1) * sl]
  }

  function Chunks(padded: Vec, k: nat, sl: nat): (chunks: seq<Vec>)
    requires |padded| == k * sl
    ensures |chunks| == k && Matrix(chunks, sl)
  {
    seq(k, i requires 0 <= i < k && |padded| == k * sl => ChunkOf(padded, k, sl, i))
  }

  lemma ChunkAt(padded: Vec, k: nat, sl: nat, i: nat)
    requires |padded| == k * sl && i < k
    ensures i * sl <= (i + 1) * sl <= k * sl
    ensures Chunks(padded, k, sl)[i] == padded[i * sl..(i + 1) * sl]
  {
    ChunkBounds(i, k, sl);
  }

  lemma {:induction false} FlattenChunks(padded: Vec, k: nat, sl: nat, n: nat)
    requires |padded| == k * sl && n <= k
    ensures n * sl <= k * sl
    ensures Flatten(Chunks(padded, k, sl)[..n]) == padded[..n * sl]
  {
    var chunks := Chunks(padded, k, sl);
    if n == 0 {
    } else {
      FlattenChunks(padded, k, sl, n - 1);
      ChunkAt(padded, k, sl, n - 1);
      assert chunks[..n][..n - 1] == chunks[..n - 1];
      assert padded[..n * sl] == padded[..(n - 1) * sl] + padded[(n - 1) * sl..n * sl];
    }
  }

  function Padded(data: Vec, k: nat): (p: Vec)
    requires k >= 1
    ensures |p| == k * CeilDiv(|data|, k) && data <= p
  {
    CeilDivCovers(|data|, k);
    data + Zero(k * CeilDiv(|data|, k) - |data|)
  }

  function SourceChunks(data: Vec, k: nat): (chunks: seq<Vec>)
    requires k >= 1
    ensures |chunks| == k && Matrix(chunks, CeilDiv(|data|, k))
  {
    Chunks(Padded(data, k), k, CeilDiv(|data|, k))
  }

  lemma FlattenSource(data: Vec, k: nat)
    requires k >= 1
    ensures Flatten(SourceChunks(data, k)) == Padded(data, k)
  {
    var sl := CeilDiv(|data|, k);
    FlattenChunks(Padded(data, k), k, sl, k);
    assert SourceChunks(data, k)[..k] == SourceChunks(data, k);
    assert Padded(data, k)[..k * sl] == Padded(data, k);
  }

  // ---- The guard on random coefficients ------------------------------------------------

  function NonzeroCount(v: Vec): nat {
    if v == [] then 0 else (if v[|v| - 1] != 0 then 1 else 0) + NonzeroCount(v[..|v| - 1])
  }

  /** Fewer than two nonzero coefficients: flip a bit of the first and one of the second. */
  function Guarded(c: Vec): (g: Vec)
    requires |c| >= 1
    ensures |g| == |c|
  {
    if NonzeroCount(c) < 2 then
      var d := c[0 := c[0] ^ 0x80];
      if |c| > 1 then d[1 := d[1] ^ 0x40] else d
    else c
  }

  lemma {:induction false} CountBounds(v: Vec, i: nat, j: nat)
    requires i < |v| && j < |v|
    ensures NonzeroCount(v) == 0 ==> v[i] == 0
    ensures NonzeroCount(v) < 2 && i != j ==> v[i] == 0 || v[j] == 0
  {
    var m := |v| - 1;
    if i < m && j < m { CountBounds(v[..m], i, j); }
    else if i < m { CountBounds(v[..m], i, i); }
    else if j < m { CountBounds(v[..m], j, j); }
  }

  lemma {:induction false} CountTwo(v: Vec, i: nat, j: nat)
    requires i < j < |v| && v[i] != 0 && v[j] != 0
    ensures NonzeroCount(v) >= 2
  {
    CountBounds(v, i, j);
  }

  lemma {:induction false} CountSome(v: Vec) returns (i: nat, j: nat)
    ensures NonzeroCount(v) >= 1 ==> i < |v| && v[i] != 0
    ensures NonzeroCount(v) >= 2 ==> i < j < |v| && v[j] != 0
  {
    i, j := 0, 0;
    if v == [] {
    } else {
      var m := |v| - 1;
      i, j := CountSome(v[..m]);
      if v[m] != 0 {
        if NonzeroCount(v[..m]) == 0 { i := m; } else if NonzeroCount(v[..m]) == 1 { j := m; }
      }
    }
  }

  ghost predicate TwoNonzero(c: Vec) {
    exists i, j :: 0 <= i < j < |c| && c[i] != 0 && c[j] != 0
  }

  /** What the guard makes of a draw: the draw itself when two of its bytes are not zero; otherwise bit 7
      of the first byte and bit 6 of the second are flipped, and nothing else. */
  ghost predicate GuardedDraw(c: Vec, g: Vec) {
    |g| == |c| && if TwoNonzero(c) then g == c else
      && (|c| >= 1 ==> g[0] == c[0] ^ 0x80)
      && (|c| >= 2 ==> g[1] == c[1] ^ 0x40)
      && forall i :: 2 <= i < |c| ==> g[i] == c[i]
  }

  lemma GuardedIs(c: Vec)
    requires |c| >= 1
    ensures GuardedDraw(c, Guarded(c))
  {
    if NonzeroCount(c) >= 2 {
      var i, j := CountSome(c);
      assert TwoNonzero(c);
    } else if i, j :| 0 <= i < j < |c| && c[i] != 0 && c[j] != 0 {
      CountTwo(c, i, j);
      assert false;
    }
  }

  lemma GuardedHead(c: Vec)
    requires |c| >= 2 && NonzeroCount(c) < 2
    ensures Guarded(c)[0] == c[0] ^ 0x80 && Guarded(c)[1] == c[1] ^ 0x40
    ensures forall i :: 2 <= i < |c| ==> Guarded(c)[i] == c[i]
    ensures c[0] == 0 || c[1] == 0
  {
    CountBounds(c, 0, 1);
  }

  /** For k >= 2 a guarded vector is never zero and never a unit vector, so a random
      combination is never mistaken for a raw copy. */
  lemma GuardedIsNeitherZeroNorUnit(c: Vec)
    requires |c| >= 2
    ensures Guarded(c) != Zero(|c|)
    ensures forall i :: 0 <= i < |c| ==> Guarded(c) != Unit(|c|, i)
  {
    if NonzeroCount(c) >= 2 {
      var i, j := CountSome(c);
      forall u | 0 <= u < |c| ensures c != Unit(|c|, u) {
        assert Unit(|c|, u)[i] == 0 || Unit(|c|, u)[j] == 0;
      }
    } else {
      GuardedHead(c);
      var a := if c[0] == 0 then 0 else 1;
      assert (0 as Field.Byte) ^ 0x80 == 0x80 && (0 as Field.Byte) ^ 0x40 == 0x40;
      NeitherZeroNorOne(Guarded(c), a);
    }
  }

  /** The comment beside the guard promises two nonzero coefficients. That fails for exactly two
      draws: 0x80 alone in front, and 0x40 alone in second place. */
  lemma GuardedTwoNonzero(c: Vec)
    requires |c| >= 2
    ensures NonzeroCount(Guarded(c)) >= 2 <==> c != Zero(|c|)[0 := 0x80] && c != Zero(|c|)[1 := 0x40]
  {
    if NonzeroCount(c) >= 2 {
      var i, j := CountSome(c);
      assert Zero(|c|)[0 := 0x80][j] == 0;
      assert Zero(|c|)[1 := 0x40][i] == 0 || Zero(|c|)[1 := 0x40][j] == 0;
    } else {
      GuardedHead(c);
      XorZero(c[0], 0x80); XorZero(c[1], 0x40);
      var g := Guarded(c);
      if g[0] != 0 && g[1] != 0 {
        CountTwo(g, 0, 1);
        assert Zero(|c|)[0 := 0x80][0] == 0x80 && Zero(|c|)[1 := 0x40][1] == 0x40;
      } else {
        var p := if g[0] == 0 then 0 else 1;
        assert c[p] != 0;
        forall i | 0 <= i < |c| && i != p ensures c[i] == 0 { CountBounds(c, p, i); }
        assert c == Zero(|c|)[p := c[p]];
        if NonzeroCount(g) >= 2 { var i, j := CountSome(g); }
      }
    }
  }

  lemma XorZero(a: Field.Byte, b: Field.Byte)
    ensures a ^ b == 0 <==> a == b
    ensures 0 ^ b == b
  {}

  // ---- Encoding -----------------------------------------------------------------------

  method DrawCoefficients(rng: Rng, k: nat) returns (c: Vec)
    modifies rng
    ensures |c| == k && rng.drawn == old(rng.drawn) + c
  {
    c := [];
    for i := 0 to k
      invariant |c| == i && rng.drawn == old(rng.drawn) + c
    {
      var b := rng.Byte();
      c := c + [b];
    }
  }

  method NonzeroAtLeastTwo(c: Vec) returns (yes: bool)
    ensures yes <==> NonzeroCount(c) >= 2
  {
    var count := 0;
    assert c[..|c|] == c;
    for i := 0 to |c|
      invariant count == NonzeroCount(c[..i])
    {
      assert c[..i + 1][..i] == c[..i];
      if c[i] != 0 {
        count := count + 1;
      }
    }
    yes := count >= 2;
  }

  method Guard(c: Vec) returns (g: Vec)
    requires |c| >= 1
    ensures g == Guarded(c)
  {
    g := c;
    var enough := NonzeroAtLeastTwo(c);
    if !enough {
      g := g[0 := g[0] ^ 0x80];
      if |g| > 1 {
        g := g[1 := g[1] ^ 0x40];
      }
    }
  }

  /** The payload loop: accumulate coefficient times chunk, skipping zero coefficients. */
  method Combine(gf: Gf, coeffs: Vec, chunks: seq<Vec>, sl: nat) returns (payload: Vec)
    requires gf.Valid() && |coeffs| == |chunks| && Matrix(chunks, sl)
    ensures payload == Combo(coeffs, chunks, sl)
  {
    hide AddScaled;
    payload := Zero(sl);
    for i := 0 to |coeffs|
      invariant payload == ComboN(coeffs, chunks, i, sl)
    {
      AddZeroScaled(payload, chunks[i]);
      if coeffs[i] != 0 {
        payload := XorScaledRow(gf, payload, coeffs[i], chunks[i]);
      }
    }
  }

  lemma RawCopyConsistent(chunks: seq<Vec>, sl: nat, i: nat)
    requires Matrix(chunks, sl) && i < |chunks|
    ensures Consistent(Shard(Unit(|chunks|, i), chunks[i]), chunks, sl)
  {
    hide Dot, Add, Mul;
    var e := Unit(|chunks|, i);
    forall j | 0 <= j < sl ensures chunks[i][j] == Combo(e, chunks, sl)[j] {
      ComboNAt(e, chunks, |e|, sl, j);
      DotUnit(Column(chunks, j), i);
      DotIsDotN(e, Column(chunks, j));
    }
  }

  /** What encoding produces: min(n, k) raw copies, then one guarded combination per drawn vector. */
  ghost predicate Encodes(shards: seq<Shard>, chunks: seq<Vec>, sl: nat, n: nat, draws: seq<Vec>)
    requires Matrix(chunks, sl) && |chunks| >= 1
  {
    && |shards| == n
    && |draws| == (if n <= |chunks| then 0 else n - |chunks|) && Matrix(draws, |chunks|)
    && (forall i :: 0 <= i < n && i < |chunks| ==> shards[i] == Shard(Unit(|chunks|, i), chunks[i]))
    && (forall i :: |chunks| <= i < n ==> shards[i].coeffs == Guarded(draws[i - |chunks|]))
    && AllConsistent(shards, chunks, sl)
  }

  method EncodeLayerWithK(gf: Gf, data: Vec, k: nat, n: nat, rng: Rng)
    returns (sl: nat, shards: seq<Shard>, ghost draws: seq<Vec>)
    requires gf.Valid() && k >= 1 && rng !in gf.Tables()
    modifies rng
    ensures gf.Valid()
    ensures sl == CeilDiv(|data|, k)
    ensures Encodes(shards, SourceChunks(data, k), sl, n, draws)
    ensures forall m :: 0 <= m < |draws| ==> GuardedDraw(draws[m], shards[k + m].coeffs)
    ensures rng.drawn == old(rng.drawn) + Flatten(draws)
  {
    hide Combo, Guarded, GuardedDraw;
    sl := CeilDiv(|data|, k);
    CeilDivCovers(|data|, k);
    var padded := data + Zero(k * sl - |data|);
    var nSystematic := if n <= k then n else k;
    var pieces := CutChunks(padded, k, sl);
    assert pieces == SourceChunks(data, k);
    var raw := RawCopies(pieces, sl, nSystematic);
    var mixed;
    mixed, draws := RandomShards(gf, pieces, sl, n - nSystematic, rng);
    shards := raw + mixed;
    EncodesGuards(shards, pieces, sl, n, draws);
  }

  /** Beyond the raw copies, shard k + m has the m-th draw as coefficients, up to the guard. */
  lemma EncodesGuards(shards: seq<Shard>, chunks: seq<Vec>, sl: nat, n: nat, draws: seq<Vec>)
    requires Matrix(chunks, sl) && |chunks| >= 1 && Encodes(shards, chunks, sl, n, draws)
    ensures forall m :: 0 <= m < |draws| ==> GuardedDraw(draws[m], shards[|chunks| + m].coeffs)
  {
    hide Guarded, GuardedDraw, Consistent;
    forall m | 0 <= m < |draws| ensures GuardedDraw(draws[m], shards[|chunks| + m].coeffs) {
      GuardedIs(draws[m]);
    }
  }

  method RawCopies(chunks: seq<Vec>, sl: nat, count: nat) returns (shards: seq<Shard>)
    requires Matrix(chunks, sl) && count <= |chunks|
    ensures |shards| == count && AllConsistent(shards, chunks, sl)
    ensures forall j :: 0 <= j < count ==> shards[j] == Shard(Unit(|chunks|, j), chunks[j])
  {
    hide Consistent;
    shards := [];
    for i := 0 to count
      invariant |shards| == i && AllConsistent(shards, chunks, sl)
      invariant forall j :: 0 <= j < i ==> shards[j] == Shard(Unit(|chunks|, j), chunks[j])
    {
      RawCopyConsistent(chunks, sl, i);
      shards := shards + [Shard(Zero(|chunks|)[i := 1], chunks[i])];
      assert Zero(|chunks|)[i := 1] == Unit(|chunks|, i);
    }
  }

  method RandomShards(gf: Gf, chunks: seq<Vec>, sl: nat, count: nat, rng: Rng)
    returns (shards: seq<Shard>, ghost draws: seq<Vec>)
    requires gf.Valid() && Matrix(chunks, sl) && |chunks| >= 1 && rng !in gf.Tables()
    modifies rng
    ensures gf.Valid() && |shards| == |draws| == count && Matrix(draws, |chunks|)
    ensures AllConsistent(shards, chunks, sl)
    ensures forall j :: 0 <= j < count ==> shards[j].coeffs == Guarded(draws[j])
    ensures rng.drawn == old(rng.drawn) + Flatten(draws)
  {
    hide Combo, Guarded, Flatten;
    FlattenSnoc([], []);
    shards := [];
    draws := [];
    for i := 0 to count
      invariant |shards| == |draws| == i && Matrix(draws, |chunks|) && gf.Valid()
      invariant AllConsistent(shards, chunks, sl)
      invariant forall j :: 0 <= j < i ==> shards[j].coeffs == Guarded(draws[j])
      invariant rng.drawn == old(rng.drawn) + Flatten(draws)
    {
      var drawn := DrawCoefficients(rng, |chunks|);
      var coeffs := Guard(drawn);
      var payload := Combine(gf, coeffs, chunks, sl);
      FlattenSnoc(draws, drawn);
      shards := shards + [Shard(coeffs, payload)];
      draws := draws + [drawn];
    }
  }

  method CutChunks(padded: Vec, k: nat, sl: nat) returns (pieces: seq<Vec>)
    requires |padded| == k * sl
    ensures pieces == Chunks(padded, k, sl)
  {
    pieces := [];
    for i := 0 to k
      invariant |pieces| == i && pieces == Chunks(padded, k, sl)[..i]
    {
      ChunkAt(padded, k, sl, i);
      pieces := pieces + [padded[i * sl..(i + 1) * sl]];
    }
  }
}
