/** From encoding to decoding: whatever is selected, repeated, reordered or mixed again, decoding
    yields the source or nothing. */
module Soundness {
  import opened LinAlg
  import opened Wrappers
  import opened ReducedSystem
  import opened Decoder
  import opened DecodingTheorems
  import opened Encoder
  import opened Quotients
  import opened Repair

  /** Where a shard came from: the encoder, or a mix of shards that came from somewhere. */
  datatype Origin = FromEncoder(i: nat) | FromMix(donors: seq<Origin>, alpha: Vec)

  ghost predicate Sensible(o: Origin, n: nat)
    decreases o
  {
    match o
    case FromEncoder(i) => i < n
    case FromMix(donors, alpha) => |alpha| == |donors| >= 1 && forall j :: 0 <= j < |donors| ==> Sensible(donors[j], n)
  }

  function ShardFrom(o: Origin, encoded: seq<Shard>, k: nat, sl: nat): Shard
    requires Sensible(o, |encoded|) && forall i :: 0 <= i < |encoded| ==> WellFormed(encoded[i], k, sl)
    ensures WellFormed(ShardFrom(o, encoded, k, sl), k, sl)
    decreases o
  {
    match o
    case FromEncoder(i) => encoded[i]
    case FromMix(donors, alpha) =>
      var shards := seq(|donors|, j requires 0 <= j < |donors| => ShardFrom(donors[j], encoded, k, sl));
      Mixed(shards, alpha, k, sl)
  }

  lemma {:induction false} ShardFromConsistent(o: Origin, encoded: seq<Shard>, chunks: seq<Vec>, sl: nat)
    requires Sensible(o, |encoded|) && Matrix(chunks, sl) && AllConsistent(encoded, chunks, sl)
    requires forall i :: 0 <= i < |encoded| ==> WellFormed(encoded[i], |chunks|, sl)
    ensures Consistent(ShardFrom(o, encoded, |chunks|, sl), chunks, sl)
    decreases o
  {
    hide Combo;
    match o {
      case FromEncoder(i) =>
        assert Consistent(encoded[i], chunks, sl);
      case FromMix(donors, alpha) =>
        var k := |chunks|;
        var shards := seq(|donors|, j requires 0 <= j < |donors| => ShardFrom(donors[j], encoded, k, sl));
        forall j | 0 <= j < |donors| ensures Consistent(shards[j], chunks, sl) {
          ShardFromConsistent(donors[j], encoded, chunks, sl);
        }
        hide Consistent, Mixed;
        MixedConsistent(shards, alpha, chunks, sl);
    }
  }

  /** The shards of these origins: any sub-selection, order and repetition. */
  function ShardsFrom(os: seq<Origin>, encoded: seq<Shard>, k: nat, sl: nat): (shards: seq<Shard>)
    requires forall j :: 0 <= j < |os| ==> Sensible(os[j], |encoded|)
    requires forall i :: 0 <= i < |encoded| ==> WellFormed(encoded[i], k, sl)
    ensures |shards| == |os| && AllWellFormed(shards, k, sl)
  {
    seq(|os|, j requires 0 <= j < |os| => ShardFrom(os[j], encoded, k, sl))
  }

  lemma EncodedWellFormed(encoded: seq<Shard>, chunks: seq<Vec>, sl: nat, n: nat, draws: seq<Vec>)
    requires Matrix(chunks, sl) && |chunks| >= 1 && Encodes(encoded, chunks, sl, n, draws)
    ensures AllConsistent(encoded, chunks, sl)
    ensures forall i :: 0 <= i < |encoded| ==> WellFormed(encoded[i], |chunks|, sl)
  {
    hide Combo, Guarded;
    forall i | 0 <= i < |encoded| ensures WellFormed(encoded[i], |chunks|, sl) {
      assert Consistent(encoded[i], chunks, sl);
    }
  }

  /** Decode is sound: for all data, k, n and random draws, and any list of encoded or repeatedly
      mixed shards, either decoder returns nothing or exactly the zero-padded source, and both
      return the same. */
  lemma DecodeIsSound(data: Vec, k: nat, n: nat, draws: seq<Vec>, encoded: seq<Shard>, os: seq<Origin>, a: Option<Vec>, b: Option<Vec>)
    requires k >= 1 && Encodes(encoded, SourceChunks(data, k), CeilDiv(|data|, k), n, draws)
    requires forall j :: 0 <= j < |os| ==> Sensible(os[j], |encoded|)
    ensures forall i :: 0 <= i < |encoded| ==> WellFormed(encoded[i], k, CeilDiv(|data|, k))
    ensures var sl, shards := CeilDiv(|data|, k), ShardsFrom(os, encoded, k, CeilDiv(|data|, k));
      DecodesTo(shards, k, sl, a) && DecodesTo(shards, k, sl, b) ==> a == b && (a.Some? ==> a.value == Padded(data, k))
  {
    hide Consistent, Mixed, SourceChunks, CeilDiv, TrivialKernel, Encodes, Sensible, WellFormed;
    var chunks, sl := SourceChunks(data, k), CeilDiv(|data|, k);
    EncodedWellFormed(encoded, chunks, sl, n, draws);
    var shards := ShardsFrom(os, encoded, k, sl);
    forall j | 0 <= j < |shards| ensures Consistent(shards[j], chunks, sl) {
      ShardFromConsistent(os[j], encoded, chunks, sl);
    }
    assert IsSource(chunks, shards, k, sl);
    FlattenSource(data, k);
    if DecodesTo(shards, k, sl, a) && DecodesTo(shards, k, sl, b) {
      DecodersAgree(shards, chunks, k, sl, a, b);
    }
  }

  /** The shards of one encoding with n >= k always decode. */
  lemma EncodingDecodes(data: Vec, k: nat, n: nat, draws: seq<Vec>, encoded: seq<Shard>, r: Option<Vec>)
    requires k >= 1 && n >= k && Encodes(encoded, SourceChunks(data, k), CeilDiv(|data|, k), n, draws)
    ensures AllWellFormed(encoded, k, CeilDiv(|data|, k))
    ensures DecodesTo(encoded, k, CeilDiv(|data|, k), r) ==> r == Some(Padded(data, k))
  {
    hide Consistent, SourceChunks, CeilDiv, Guarded;
    var chunks, sl := SourceChunks(data, k), CeilDiv(|data|, k);
    EncodedWellFormed(encoded, chunks, sl, n, draws);
    hide WellFormed;
    forall y: Vec | |y| == k && Kills(Coeffs(encoded), y) ensures y == Zero(k) {
      forall i | 0 <= i < k ensures y[i] == 0 {
        assert Coeffs(encoded)[i] == Unit(k, i);
        DotUnit(y, i);
      }
    }
    assert IsSource(chunks, encoded, k, sl);
    FlattenSource(data, k);
  }
}
