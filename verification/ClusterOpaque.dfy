/** Arbitrary files over the cluster: put_opaque_object and get_opaque_object
    (crates/holofs-client/src/client.rs). A put records the new length before any node has
    acknowledged a shard, so a read may meet the length of one file and the shards of another. */
module ClusterOpaque {
  import opened LinAlg
  import opened U64
  import opened Quotients
  import opened ReducedSystem
  import opened Shortening
  import opened Decoder
  import opened Encoder
  import opened Merkle
  import opened Cluster
  import opened ClusterRepair

  ghost predicate HoldsFile(cl: Client, data: Vec)
    reads cl
  {
    cl.SourceIs([[data]])
  }

  /** The recorded lengths are those of a file of n bytes. */
  ghost predicate RecordsFile(cl: Client, n: nat)
    reads cl
  {
    cl.k >= 1 && cl.symLen == [CeilDiv(n, cl.k)] && cl.chunkLens == [n]
  }

  /** put_opaque_object: the lengths are recorded at once, the hash lists only when every shard has
      been acknowledged. */
  method PutOpaque(cl: Client, live: seq<u64>, id: u64, data: Vec, rng: Rng) returns (ok: bool)
    requires cl.Valid() && cl.LiveOk(live) && Apart(cl, rng) && cl.kind.Opaque? && cl.OneLayer()
    modifies cl, cl.nodes, rng
    ensures cl.Valid() && cl.objectId == id && RecordsFile(cl, |data|)
    ensures ok ==> HoldsFile(cl, data) && cl.AllReadable(live) && cl.AllPlaced(live, [[data]]) && cl.merkleRoot == Root(AllHashes(cl.shardHashes))
    ensures !ok ==> cl.shardHashes == old(cl.shardHashes) && cl.merkleRoot == old(cl.merkleRoot)
    ensures !ok ==> cl.source == old(cl.source) && cl.stored == old(cl.stored)
  {
    hide Client.SourceIs, Client.AllReadable, ListsValid, Root, AllHashes;
    cl.symLen := [CeilDiv(|data|, cl.k)];
    cl.chunkLens := [|data|];
    ghost var layers := [[data]];
    assert cl.DataFits(layers[0]);
    ok := cl.PutObject(live, id, [[data]], rng);
  }

  /** The recorded real length, or without one the length that arrived, as 32 bits. */
  function RealLength(chunkLens: seq<nat>, arrived: nat): nat {
    if chunkLens == [] then arrived % 0x1_0000_0000 else chunkLens[0]
  }

  /** get_opaque_object: the single layer, trimmed to the recorded length. */
  method GetOpaque(cl: Client, live: seq<u64>) returns (r: ReadResult)
    requires cl.Valid() && cl.InRange(live) && cl.OneLayer()
    ensures cl.HasLayer(0, 0) && !r.TextBytes? && !r.Object?
    ensures r.Bytes? ==> var whole := Flatten(Delivered(cl.source[0][0], cl.Verified(live, 0, 0), cl.symLen[0]));
      r.value == Short(whole, RealLength(cl.chunkLens, |whole|))
    ensures r.Bytes? ==> Determining(cl.Verified(live, 0, 0), cl.k)
    ensures r.LayerLost? ==> !Determining(cl.Verified(live, 0, 0), cl.k)
    ensures r.Panicked? ==> cl.symLen[0] > cl.stored[0]
  {
    hide ListsValid, Delivered, Determining;
    r := cl.ReadLayer(live, 0, 0);
    if r.Bytes? {
      var decoded := r.value;
      var realLen := if cl.chunkLens == [] then |decoded| % 0x1_0000_0000 else cl.chunkLens[0];
      r := Bytes(decoded[..if realLen <= |decoded| then realLen else |decoded|]);
    }
  }

  // ---- Which reads are right -------------------------------------------------------------

  /** What a read returns while the shards are those of `data` and the recorded length is n. */
  ghost function FileRead(data: Vec, k: nat, n: nat, shards: set<Shard>): Vec
    requires k >= 1
  {
    Short(Flatten(Delivered(SourceChunks(data, k), shards, CeilDiv(n, k))), n)
  }

  lemma FileReadIs(cl: Client, live: seq<u64>, r: ReadResult, data: Vec, n: nat)
    requires cl.InRange(live) && cl.HasLayer(0, 0) && HoldsFile(cl, data) && RecordsFile(cl, n)
    requires r.Bytes? ==> var whole := Flatten(Delivered(cl.source[0][0], cl.Verified(live, 0, 0), cl.symLen[0]));
      r.value == Short(whole, RealLength(cl.chunkLens, |whole|))
    ensures r.Bytes? ==> r.value == FileRead(data, cl.k, n, cl.Verified(live, 0, 0))
    ensures cl.stored[0] == CeilDiv(|data|, cl.k)
  {
    hide Delivered;
    ghost var all := [[data]];
    assert cl.ChannelIs(0, all[0]);
    assert |SourceChunks(data, cl.k)[0]| == CeilDiv(|data|, cl.k);
  }

  lemma LongEnough(data: Vec, k: nat, n: nat, shards: set<Shard>)
    requires k >= 1 && n >= |data|
    ensures FileRead(data, k, n, shards) == Short(Padded(data, k), n)
  {
    hide Delivered;
    DivideMonotone(|data| + k - 1, n + k - 1, k);
    DeliveredWhole(SourceChunks(data, k), shards, CeilDiv(|data|, k), CeilDiv(n, k));
    FlattenSource(data, k);
  }

  lemma NoPadding(n: nat, k: nat)
    requires k >= 1
    ensures k * CeilDiv(n, k) == n <==> n % k == 0
  {
    var q, r := n / k, n % k;
    assert n == q * k + r && q * k == k * q;
    if r == 0 {
      CeilDivExact(q, k);
    } else if k * CeilDiv(n, k) == n {
      var c := CeilDiv(n, k);
      assert c * k == k * c;
      SameQuotient(c, 0, q, r, k);
    }
  }

  /** With the shards of one file and the recorded length of another, a read that returns bytes
      returns the stored file exactly when the lengths agree, or the recorded one is longer and the
      stored file needed no padding. */
  lemma FileReadExact(data: Vec, k: nat, n: nat, shards: set<Shard>)
    requires k >= 1
    ensures FileRead(data, k, n, shards) == data <==> n == |data| || (n > |data| && |data| % k == 0)
  {
    hide CeilDiv, Delivered, SourceChunks;
    if n >= |data| {
      LongEnough(data, k, n, shards);
      NoPadding(|data|, k);
      CeilDivCovers(|data|, k);
      hide FileRead;
      assert Padded(data, k)[..|data|] == data;
    }
  }

  lemma FlattenRaw(data: Vec, k: nat, n: nat, shards: set<Shard>)
    requires k >= 1 && n <= |data| && AllRaw(shards, k)
    ensures FileRead(data, k, n, shards) == data[..n]
  {
    hide RawIn, CeilDiv;
    assert Delivered(SourceChunks(data, k), shards, CeilDiv(n, k)) == SourceChunks(data, k);
    FlattenSource(data, k);
    assert Padded(data, k)[..|data|] == data;
  }

  /** A failing input: 32 bytes are stored with k = 16, a put of 16 other bytes stops before its first
      acknowledgement, and the 16 old raw copies sit under the new id. Then a read finds the layer
      determined and returns the first half of the old file, which is neither file. */
  lemma HalfOfTheOldFile(before: Vec, after: Vec, shards: set<Shard>)
    requires |before| == 32 && |after| == 16 && after != before[..16]
    requires forall i :: 0 <= i < 16 ==> Raw(SourceChunks(before, 16), i) in shards
    ensures Determining(shards, 16) && CeilDiv(|after|, 16) <= CeilDiv(|before|, 16)
    ensures FileRead(before, 16, |after|, shards) == before[..16]
    ensures before[..16] != before && before[..16] != after
  {
    RawCopiesDetermine(shards, SourceChunks(before, 16), CeilDiv(32, 16));
    FlattenRaw(before, 16, 16, shards);
  }
}
