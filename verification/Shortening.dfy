/** Reading only the first sl bytes of every payload. The decoders are told a symbol length; when it
    is shorter than the payloads, raw copies stay whole and everything solved for is cut. */
module Shortening {
  import opened LinAlg
  import opened ReducedSystem
  import opened Wrappers

  function Short(v: Vec, sl: nat): (w: Vec)
    ensures |w| == if sl <= |v| then sl else |v|
  {
    if sl <= |v| then v[..sl] else v
  }

  function ShortChunks(chunks: seq<Vec>, sl: nat): (out: seq<Vec>)
    ensures |out| == |chunks|
  {
    seq(|chunks|, i requires 0 <= i < |chunks| => Short(chunks[i], sl))
  }

  function ShortShards(shards: seq<Shard>, sl: nat): (out: seq<Shard>)
    ensures |out| == |shards|
  {
    seq(|shards|, r requires 0 <= r < |shards| => Shard(shards[r].coeffs, Short(shards[r].payload, sl)))
  }

  function ShortKnown(known: Known, sl: nat): (out: Known)
    ensures |out| == |known|
  {
    seq(|known|, i requires 0 <= i < |known| =>
      if known[i].Some? then Some(Short(known[i].value, sl)) else None)
  }

  lemma {:induction false} ShortUnknown(known: Known, sl: nat, n: nat)
    requires n <= |known|
    ensures Unknown(ShortKnown(known, sl), n) == Unknown(known, n)
  {
    if n == 0 {
    } else {
      ShortUnknown(known, sl, n - 1);
    }
  }

  lemma ShortKernel(known: Known, rlnc: seq<Shard>, sl: nat, y: Vec)
    ensures InKernel(ShortKnown(known, sl), ShortShards(rlnc, sl), y) <==> InKernel(known, rlnc, y)
  {
    hide Dot;
    var short := ShortShards(rlnc, sl);
    assert forall r :: 0 <= r < |rlnc| ==> short[r].coeffs == rlnc[r].coeffs;
    assert forall i :: 0 <= i < |known| ==> (ShortKnown(known, sl)[i].Some? <==> known[i].Some?);
  }

  /** A combination of cut chunks is the cut combination. */
  lemma ShortConsistent(s: Shard, chunks: seq<Vec>, len: nat, sl: nat)
    requires Matrix(chunks, len) && Consistent(s, chunks, len) && sl <= len
    ensures Matrix(ShortChunks(chunks, sl), sl)
    ensures Consistent(Shard(s.coeffs, Short(s.payload, sl)), ShortChunks(chunks, sl), sl)
  {
    hide Dot, Combo;
    var out := ShortChunks(chunks, sl);
    forall j | 0 <= j < sl ensures Short(s.payload, sl)[j] == Combo(s.coeffs, out, sl)[j] {
      ConsistentByte(s, chunks, len, j);
      assert Column(out, j) == Column(chunks, j);
      ComboAt(s.coeffs, out, sl, j);
    }
  }

  lemma ComboAt(c: Vec, vs: seq<Vec>, len: nat, j: nat)
    requires |c| == |vs| && Matrix(vs, len) && j < len
    ensures Combo(c, vs, len)[j] == Dot(c, Column(vs, j))
  {
    ComboNAt(c, vs, |c|, len, j);
    DotIsDotN(c, Column(vs, j));
  }

  lemma ShortExplains(chunks: seq<Vec>, known: Known, rlnc: seq<Shard>, len: nat, sl: nat)
    requires Explains(chunks, known, rlnc, len) && sl <= len
    ensures Explains(ShortChunks(chunks, sl), ShortKnown(known, sl), ShortShards(rlnc, sl), sl)
  {
    hide Consistent;
    var out := ShortChunks(chunks, sl);
    assert Matrix(out, sl);
    forall r | 0 <= r < |rlnc| ensures Consistent(ShortShards(rlnc, sl)[r], out, sl) {
      ShortConsistent(rlnc[r], chunks, len, sl);
    }
  }

  lemma ShortShape(known: Known, rlnc: seq<Shard>, k: nat, len: nat, sl: nat)
    requires KnownLengths(known, len) && sl <= len
    requires forall r :: 0 <= r < |rlnc| ==> WellFormed(rlnc[r], k, len)
    ensures KnownLengths(ShortKnown(known, sl), sl)
    ensures forall r :: 0 <= r < |rlnc| ==> WellFormed(ShortShards(rlnc, sl)[r], k, sl)
  {}

  // ---- What arrives -----------------------------------------------------------------------

  function Members(shards: seq<Shard>): set<Shard> { set s | s in shards }

  /** A raw copy of chunk i is among the shards. */
  ghost predicate RawIn(shards: set<Shard>, k: nat, i: nat)
    requires i < k
  {
    exists s :: s in shards && s.coeffs == Unit(k, i)
  }

  /** The chunks as a reader told the length sl gets them: whole from a raw copy, else cut. */
  ghost function Delivered(chunks: seq<Vec>, shards: set<Shard>, sl: nat): (out: seq<Vec>)
    ensures |out| == |chunks|
  {
    seq(|chunks|, i requires 0 <= i < |chunks| =>
      if RawIn(shards, |chunks|, i) then chunks[i] else Short(chunks[i], sl))
  }

  /** Told the right length, or a longer one, a reader gets the chunks. */
  lemma DeliveredWhole(chunks: seq<Vec>, shards: set<Shard>, len: nat, sl: nat)
    requires Matrix(chunks, len) && sl >= len
    ensures Delivered(chunks, shards, sl) == chunks
  {
    hide RawIn;
    forall i | 0 <= i < |chunks| ensures Delivered(chunks, shards, sl)[i] == chunks[i] {
      assert |chunks[i]| == len;
      assert chunks[i][..len] == chunks[i];
    }
  }
}
