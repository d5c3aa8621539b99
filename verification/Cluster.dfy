/** The distributed client (crates/holofs-client/src/client.rs) over node stores that may be
    wiped, fed with arbitrary shards, or fail to answer. Each remote call is one step whose
    request may be lost before or after it took effect. */
module Cluster {
  import opened LinAlg
  import opened GfTables
  import opened ReducedSystem
  import opened Shortening
  import opened Decoder
  import opened Encoder
  import opened Quotients
  import opened Repair
  import opened Merkle
  import opened NodeStore
  import opened U64
  import opened Health
  import ObjectManifest
  import opened Wrappers

  /** LayerLost: the shards do not suffice; Unavailable: a node did not answer; Panicked: an index
      past the end of a payload ended the read. */
  datatype ReadResult =
    Bytes(value: Vec) | TextBytes(bytes: Vec, holes: nat) | Object(layers: seq<seq<Vec>>) | LayerLost | Unavailable | Panicked

  /** y is orthogonal to every shard of the set. */
  ghost predicate KilledBySet(shards: set<Shard>, y: Vec) {
    forall s :: s in shards ==> |s.coeffs| == |y| && Dot(s.coeffs, y) == 0
  }

  /** The two sets of shards determine the same things. */
  ghost predicate SameInformation(a: set<Shard>, b: set<Shard>, k: nat) {
    forall y: Vec :: |y| == k ==> (KilledBySet(a, y) <==> KilledBySet(b, y))
  }

  ghost predicate Determining(shards: set<Shard>, k: nat) {
    forall y: Vec :: |y| == k && KilledBySet(shards, y) ==> y == Zero(k)
  }

  /** Chunk i is the same in all sources that the shards cannot tell apart. */
  ghost predicate DeterminesAt(shards: set<Shard>, k: nat, i: nat)
    requires i < k
  {
    forall y: Vec :: |y| == k && KilledBySet(shards, y) ==> y[i] == 0
  }

  /** The determined chunks, as far as the symbol length sl lets them through. */
  ghost predicate Arrived(pieces: seq<Option<Vec>>, chunks: seq<Vec>, shards: set<Shard>, sl: nat) {
    && |pieces| == |chunks|
    && forall i :: 0 <= i < |chunks| ==>
      && (pieces[i].Some? <==> DeterminesAt(shards, |chunks|, i))
      && (pieces[i].Some? ==> pieces[i].value == Delivered(chunks, shards, sl)[i])
  }

  lemma SetDetermining(list: seq<Shard>, shards: set<Shard>, k: nat)
    requires (forall s :: s in list <==> s in shards) && Matrix(Coeffs(list), k)
    ensures Determining(shards, k) <==> TrivialKernel(Coeffs(list), k)
  {
    hide Kills, KilledBySet;
    forall y: Vec | |y| == k ensures KilledBySet(shards, y) <==> Kills(Coeffs(list), y) {
      SetKilled(list, shards, y);
    }
  }

  lemma SetDeterminesAt(list: seq<Shard>, k: nat, i: nat)
    requires Matrix(Coeffs(list), k) && i < k
    ensures DeterminesAt(Members(list), k, i) <==> Determined(list, k, i)
  {
    hide Kills, KilledBySet;
    forall y: Vec | |y| == k ensures KilledBySet(Members(list), y) <==> Kills(Coeffs(list), y) {
      SetKilled(list, Members(list), y);
    }
  }

  lemma SetKilled(list: seq<Shard>, shards: set<Shard>, y: Vec)
    requires (forall s :: s in list <==> s in shards) && Matrix(Coeffs(list), |y|)
    ensures KilledBySet(shards, y) <==> Kills(Coeffs(list), y)
  {
    hide Dot;
    forall r | 0 <= r < |list| ensures list[r] in shards && Coeffs(list)[r] == list[r].coeffs {
      assert list[r] in list;
    }
    if Kills(Coeffs(list), y) {
      forall s | s in shards ensures |s.coeffs| == |y| && Dot(s.coeffs, y) == 0 {
        assert s in list;
        var r :| 0 <= r < |list| && list[r] == s;
      }
    }
  }

  /** All expected hashes, channel by channel and layer by layer. */
  function FlattenHashes(hs: seq<seq<Hash>>): seq<Hash> {
    if hs == [] then [] else FlattenHashes(hs[..|hs| - 1]) + hs[|hs| - 1]
  }

  function AllHashes(hs: seq<seq<seq<Hash>>>): seq<Hash> {
    if hs == [] then [] else AllHashes(hs[..|hs| - 1]) + FlattenHashes(hs[|hs| - 1])
  }

  lemma HashesSnoc(hs: seq<seq<Hash>>, h: seq<Hash>, all: seq<seq<seq<Hash>>>)
    ensures FlattenHashes([]) == [] && AllHashes([]) == []
    ensures FlattenHashes(hs + [h]) == FlattenHashes(hs) + h
    ensures AllHashes(all + [hs]) == AllHashes(all) + FlattenHashes(hs)
  {
    assert (hs + [h])[..|hs|] == hs && (all + [hs])[..|all|] == all;
  }

  lemma {:induction false} NothingListed(channels: nat, layers: nat)
    ensures AllHashes(seq(channels, _ => seq(layers, _ => []))) == []
    decreases channels
  {
    if channels == 0 {
    } else {
      NothingListed(channels - 1, layers);
      NothingInChannel(layers);
      var hs: seq<seq<seq<Hash>>> := seq(channels, _ => seq(layers, _ => []));
      assert hs[..channels - 1] == seq(channels - 1, _ => seq(layers, _ => []));
    }
  }

  lemma {:induction false} NothingInChannel(layers: nat)
    ensures FlattenHashes(seq(layers, _ => [])) == []
  {
    if layers == 0 {
    } else {
      NothingInChannel(layers - 1);
      var hs: seq<seq<Hash>> := seq(layers, _ => []);
      assert hs[..layers - 1] == seq(layers - 1, _ => []);
    }
  }

  /** Every hash of the list names a shard consistent with the chunks. */
  ghost predicate ListsConsistent(hashes: seq<Hash>, chunks: seq<Vec>, sl: nat)
    requires Matrix(chunks, sl)
  {
    forall h :: h in hashes ==> h.OfShard? && Consistent(h.shard, chunks, sl)
  }

  /** The safety invariant: every listed hash names a shard consistent with its layer's source. */
  ghost predicate ListsValid(hashes: seq<seq<seq<Hash>>>, source: seq<seq<seq<Vec>>>, channels: nat, lens: seq<nat>, k: nat) {
    && |hashes| == |source| == channels
    && forall c, l :: 0 <= c < channels && 0 <= l < |lens| ==> LayerValid(hashes, source, lens, k, c, l)
  }

  ghost predicate LayerValid(hashes: seq<seq<seq<Hash>>>, source: seq<seq<seq<Vec>>>, lens: seq<nat>, k: nat, c: nat, l: nat)
    requires c < |hashes| && c < |source| && l < |lens|
  {
    && |hashes[c]| == |source[c]| == |lens|
    && |source[c][l]| == k && Matrix(source[c][l], lens[l])
    && ListsConsistent(hashes[c][l], source[c][l], lens[l])
  }

  /** The shards that the hashes name. */
  function Listed(hashes: seq<Hash>): (shards: seq<Shard>)
    requires forall i :: 0 <= i < |hashes| ==> hashes[i].OfShard?
    ensures |shards| == |hashes|
  {
    seq(|hashes|, i requires 0 <= i < |hashes| => hashes[i].shard)
  }

  lemma EncodesCount(shards: seq<Shard>, chunks: seq<Vec>, sl: nat, n: nat, draws: seq<Vec>)
    requires Matrix(chunks, sl) && |chunks| >= 1 && Encodes(shards, chunks, sl, n, draws)
    ensures |shards| == n
  {}

  function Raw(chunks: seq<Vec>, i: nat): Shard
    requires i < |chunks|
  {
    Shard(Unit(|chunks|, i), chunks[i])
  }

  class Client {
    const gf: Gf
    const nodes: seq<Store>
    const k: nat
    const kind: ObjectManifest.ObjectKind
    const plan: Plan              // its object id is superseded by the field below
    var objectId: u64
    var symLen: seq<nat>          // symbol length of each layer as recorded by the last put begun
    var chunkLens: seq<nat>       // text: chunk lengths; opaque: the real length; by the last put begun
    var shardHashes: seq<seq<seq<Hash>>>
    var merkleRoot: Hash
    ghost var source: seq<seq<seq<Vec>>>  // what the last completed put stored
    ghost var stored: seq<nat>            // and its symbol lengths

    ghost function Stores(): set<object> { set s | s in nodes :: s as object }

    ghost predicate Valid()
      reads this, gf, gf.exp, gf.log, nodes
    {
      gf.Valid() && NodesValid() && ManifestValid()
    }

    ghost predicate NodesValid()
      reads nodes
    {
      && (forall i :: 0 <= i < |nodes| ==> nodes[i].Valid())
      && (forall i, j :: 0 <= i < j < |nodes| ==> nodes[i] != nodes[j])
    }

    ghost predicate ManifestValid()
      reads this
    {
      && k >= 1 && |symLen| == |stored| == |plan.nPerLayer| < 0x100
      && (Layered() ==> symLen == stored)
      && ListsValid(shardHashes, source, plan.channels, stored, k)
    }

    /** Images and audio: puts check the recorded symbol lengths instead of replacing them. */
    ghost predicate Layered() { !kind.Text? && !kind.Opaque? }

    /** Text and opaque objects: one channel with one layer. */
    ghost predicate OneLayer() { plan.channels == 1 && |plan.nPerLayer| == 1 }

    /** The Merkle root is that of the listed hashes. */
    ghost predicate RootIsCurrent()
      reads `merkleRoot, `shardHashes
    {
      merkleRoot == Root(AllHashes(shardHashes))
    }

    ghost predicate InRange(live: seq<u64>) {
      forall i :: 0 <= i < |live| ==> live[i] < |nodes|
    }

    ghost predicate LiveOk(live: seq<u64>) {
      Placeable(plan, live) && InRange(live)
    }

    /** The plan under the current object id. */
    function CurrentPlan(): Plan
      reads `objectId
    {
      plan.(objectId := objectId)
    }

    function LayerKey(c: nat, l: nat): Key
      reads `objectId
    {
      Key(objectId, c, l)
    }

    /** Shards of one layer held by the listed nodes. */
    ghost function Reachable(live: seq<u64>, key: Key): set<Shard>
      requires InRange(live)
      reads nodes
    {
      set n, s | n in live && s in nodes[n].Bucket(key) :: s
    }

    /** Those of them whose hash the manifest lists. */
    ghost function Verified(live: seq<u64>, c: nat, l: nat): set<Shard>
      requires InRange(live)
      requires c < |shardHashes| && l < |shardHashes[c]|
      reads `shardHashes, `objectId, nodes
    {
      set s | s in Reachable(live, LayerKey(c, l)) && ShardHash(s) in shardHashes[c][l]
    }

    constructor (gf: Gf, nodes: seq<Store>, k: nat, kind: ObjectManifest.ObjectKind, symLen: seq<nat>, plan: Plan)
      requires gf.Valid() && k >= 1 && |symLen| == |plan.nPerLayer| < 0x100
      requires forall i :: 0 <= i < |nodes| ==> nodes[i].Valid()
      requires forall i, j :: 0 <= i < j < |nodes| ==> nodes[i] != nodes[j]
      ensures Valid() && SourceIs(Blank(plan.channels, symLen, k))
      ensures this.gf == gf && this.nodes == nodes && this.k == k && this.kind == kind && this.plan == plan
      ensures this.symLen == symLen && chunkLens == [] && RootIsCurrent()
    {
      this.gf, this.nodes, this.k, this.kind, this.plan := gf, nodes, k, kind, plan;
      this.symLen, chunkLens := symLen, [];
      objectId := 0;
      shardHashes := seq(plan.channels, _ => seq(|symLen|, _ => []));
      merkleRoot := ZeroHash;
      source := AllChunks(Blank(plan.channels, symLen, k), k);
      stored := symLen;
      new;
      BlankLengths(symLen, k);
      NothingListed(plan.channels, |symLen|);
    }

    // ---- Remote calls -----------------------------------------------------------------

    /** Put one shard; without an acknowledgement it may or may not have been stored. */
    method SendPut(node: u64, key: Key, s: Shard) returns (acked: bool)
      requires node < |nodes| && nodes[node].Valid()
      modifies nodes[node]
      ensures nodes[node].Valid()
      ensures forall key' :: key' != key ==> nodes[node].Bucket(key') == old(nodes[node].Bucket(key'))
      ensures nodes[node].Bucket(key) in {old(nodes[node].Bucket(key)), old(nodes[node].Bucket(key)) + {s}}
      ensures acked ==> s in nodes[node].Bucket(key)
    {
      var delivered: bool := *;
      acked := *;
      acked := acked && delivered;
      if delivered {
        var added := nodes[node].Put(key, s);
      }
    }

    method SendPurge(node: u64) returns (acked: bool)
      requires node < |nodes| && nodes[node].Valid()
      modifies nodes[node]
      ensures nodes[node].Valid()
      ensures forall key: Key :: nodes[node].Bucket(key) <= old(nodes[node].Bucket(key))
      ensures forall key: Key :: key.objectId != objectId ==> nodes[node].Bucket(key) == old(nodes[node].Bucket(key))
      ensures acked ==> forall key: Key :: key.objectId == objectId ==> nodes[node].Bucket(key) == {}
    {
      var delivered: bool := *;
      acked := *;
      acked := acked && delivered;
      if delivered {
        var removed := nodes[node].Purge(objectId);
      }
    }

    method SendGet(node: u64, key: Key) returns (r: Option<seq<Shard>>)
      requires node < |nodes| && nodes[node].Valid()
      ensures r.Some? ==> forall s :: s in r.value <==> s in nodes[node].Bucket(key)
    {
      var answered: bool := *;
      if !answered {
        return None;
      }
      var shards := nodes[node].Get(key);
      r := Some(shards);
    }

    /** gather_layer */
    method GatherLayer(live: seq<u64>, c: nat, l: nat) returns (r: Option<seq<Shard>>)
      requires Valid() && InRange(live)
      ensures r.Some? ==> forall s :: s in r.value <==> s in Reachable(live, LayerKey(c, l))
    {
      var acc: seq<Shard> := [];
      for i := 0 to |live|
        invariant forall s :: s in acc <==> s in Reachable(live[..i], LayerKey(c, l))
      {
        var got := SendGet(live[i], LayerKey(c, l));
        if got.None? {
          return None;
        }
        ReachableSnoc(live[..i], live[i], LayerKey(c, l));
        assert live[..i + 1] == live[..i] + [live[i]];
        acc := acc + got.value;
      }
      assert live[..|live|] == live;
      r := Some(acc);
    }

    lemma ReachableSnoc(live: seq<u64>, n: u64, key: Key)
      requires InRange(live) && n < |nodes|
      ensures InRange(live + [n])
      ensures forall s :: s in Reachable(live + [n], key) <==> s in Reachable(live, key) || s in nodes[n].Bucket(key)
    {
      forall s ensures s in Reachable(live + [n], key) <==> s in Reachable(live, key) || s in nodes[n].Bucket(key) {
        if s in Reachable(live, key) {
          var m :| m in live && s in nodes[m].Bucket(key);
          assert m in live + [n];
        }
        assert n in live + [n];
      }
    }

    /** Keep the shards whose hash is expected. */
    method FilterVerified(raw: seq<Shard>, c: nat, l: nat) returns (out: seq<Shard>)
      requires c < |shardHashes| && l < |shardHashes[c]|
      ensures forall s :: s in out <==> s in raw && ShardHash(s) in shardHashes[c][l]
    {
      out := [];
      for i := 0 to |raw|
        invariant forall s :: s in out <==> s in raw[..i] && ShardHash(s) in shardHashes[c][l]
      {
        assert raw[..i + 1] == raw[..i] + [raw[i]];
        if ShardHash(raw[i]) in shardHashes[c][l] {
          out := out + [raw[i]];
        }
      }
      assert raw[..|raw|] == raw;
    }

    /** The manifest and the source have this layer. */
    ghost predicate HasLayer(c: nat, l: nat)
      reads this
    {
      && c < |shardHashes| && c < |source| && l < |shardHashes[c]| && l < |source[c]| && l < |stored|
      && |source[c][l]| == k && Matrix(source[c][l], stored[l])
    }

    lemma LayerPresent(c: nat, l: nat)
      requires ManifestValid() && c < plan.channels && l < |stored|
      ensures HasLayer(c, l)
    {
      assert LayerValid(shardHashes, source, stored, k, c, l);
    }

    lemma VerifiedConsistent(list: seq<Shard>, c: nat, l: nat)
      requires ManifestValid() && HasLayer(c, l) && c < plan.channels && l < |stored|
      requires forall s :: s in list ==> ShardHash(s) in shardHashes[c][l]
      ensures HasLayer(c, l) && AllConsistent(list, source[c][l], stored[l]) && AllWellFormed(list, k, stored[l])
      ensures IsSource(source[c][l], list, k, stored[l])
    {
      hide Combo;
      assert LayerValid(shardHashes, source, stored, k, c, l);
      forall r | 0 <= r < |list| ensures Consistent(list[r], source[c][l], stored[l]) {
        assert list[r] in list;
      }
    }

    /** One layer of get_object (and the whole of get_opaque_object before trimming): what the
        recorded symbol length lets through of the source, or an honest failure. A layer is lost
        exactly when the verified shards do not determine it; only a recorded length beyond the
        stored one ends in an index error. */
    method ReadLayer(live: seq<u64>, c: nat, l: nat) returns (r: ReadResult)
      requires Valid() && c < plan.channels && l < |symLen| && InRange(live)
      ensures HasLayer(c, l) && !r.TextBytes? && !r.Object?
      ensures r.Bytes? ==> r.value == Flatten(Delivered(source[c][l], Verified(live, c, l), symLen[l]))
      ensures r.Bytes? ==> Determining(Verified(live, c, l), k)
      ensures r.LayerLost? ==> !Determining(Verified(live, c, l), k)
      ensures r.Panicked? ==> symLen[l] > stored[l]
      ensures symLen[l] > stored[l] && !r.Unavailable? ==> (r.Bytes? <==> AllRaw(Verified(live, c, l), k))
    {
      hide TrivialKernel, AllConsistent, Determining, AllRaw, Delivered;
      LayerPresent(c, l);
      var raw := GatherLayer(live, c, l);
      if raw.None? {
        return Unavailable;
      }
      var verified := FilterVerified(raw.value, c, l);
      VerifiedConsistent(verified, c, l);
      CoeffsMatrix(verified, k, stored[l]);
      SetDetermining(verified, Verified(live, c, l), k);
      assert Members(verified) == Verified(live, c, l);
      var decoded := DecodeLayer(gf, verified, k, symLen[l], stored[l]);
      match decoded {
        case Whole(value) => r := Bytes(value);
        case Lost => r := LayerLost;
        case OutOfBounds => r := Panicked;
      }
    }

    /** The verified shards on these nodes determine the layer. */
    ghost predicate Readable(live: seq<u64>, c: nat, l: nat)
      requires InRange(live)
      reads this, nodes
    {
      HasLayer(c, l) && Determining(Verified(live, c, l), k)
    }

    /** The first n layers of channel c of the source, concatenated. */
    ghost predicate ChannelRead(c: nat, n: nat, layers: seq<Vec>)
      reads this
    {
      |layers| == n && forall l :: 0 <= l < n ==> HasLayer(c, l) && layers[l] == Flatten(source[c][l])
    }

    method ReadChannel(live: seq<u64>, c: nat, n: nat) returns (failure: Option<ReadResult>, layers: seq<Vec>)
      requires Valid() && Layered() && InRange(live) && c < plan.channels && n <= |symLen|
      ensures failure.None? ==> ChannelRead(c, n, layers) && forall l :: 0 <= l < n ==> Readable(live, c, l)
      ensures failure.Some? ==> failure.value.Unavailable? || failure.value.LayerLost?
      ensures failure.Some? && failure.value.LayerLost? ==> exists l :: 0 <= l < n && !Readable(live, c, l)
    {
      hide ListsValid, Determining, Delivered, Flatten, NodesValid, Client.Verified;
      layers := [];
      for l := 0 to n
        invariant ChannelRead(c, l, layers) && forall j :: 0 <= j < l ==> Readable(live, c, j)
      {
        var got := ReadLayer(live, c, l);
        match got {
          case Bytes(value) =>
            DeliveredWhole(source[c][l], Verified(live, c, l), stored[l], symLen[l]);
            layers := layers + [value];
          case LayerLost =>
            assert !Readable(live, c, l);
            return Some(LayerLost), layers;
          case _ =>
            return Some(Unavailable), layers;
        }
      }
      failure := None;
    }

    /** get_object_up_to_layer before the transform, with n layers of each channel; get_object reads
        all of them. The first layer that fails ends the read. */
    method ReadObject(live: seq<u64>, n: nat) returns (r: ReadResult)
      requires Valid() && Layered() && InRange(live) && n <= |symLen|
      ensures r.Object? || r.LayerLost? || r.Unavailable?
      ensures r.Object? ==> |r.layers| == plan.channels && forall c :: 0 <= c < plan.channels ==> ChannelRead(c, n, r.layers[c])
      ensures r.Object? ==> forall c, l :: 0 <= c < plan.channels && 0 <= l < n ==> Readable(live, c, l)
      ensures r.LayerLost? ==> exists c, l :: 0 <= c < plan.channels && 0 <= l < n && !Readable(live, c, l)
    {
      hide Client.Valid, ChannelRead, Readable;
      var layers: seq<seq<Vec>> := [];
      for c := 0 to plan.channels
        invariant |layers| == c && forall i :: 0 <= i < c ==> ChannelRead(i, n, layers[i])
        invariant forall i, l :: 0 <= i < c && 0 <= l < n ==> Readable(live, i, l)
      {
        var failure, channel := ReadChannel(live, c, n);
        if failure.Some? {
          return failure.value;
        }
        layers := layers + [channel];
      }
      r := Object(layers);
    }

    /** The read of get_text_object_with_holes before assembly: a chunk is there exactly when the
        verified shards determine it. None is an index error. */
    method ReadLayerWithHoles(live: seq<u64>, c: nat, l: nat) returns (r: Option<Option<seq<Option<Vec>>>>)
      requires Valid() && c < plan.channels && l < |symLen| && InRange(live)
      ensures HasLayer(c, l)
      ensures r == Some(None) ==> symLen[l] > stored[l]
      ensures r.Some? && r.value.Some? ==> HolesRead(live, c, l, r.value.value)
    {
      hide HolesUpTo, HolesRead;
      LayerPresent(c, l);
      var raw := GatherLayer(live, c, l);
      if raw.None? {
        return None;
      }
      var kept := FilterVerified(raw.value, c, l);
      VerifiedConsistent(kept, c, l);
      var holes := DecodeLayerWithHoles(gf, kept, k, symLen[l], stored[l]);
      assert Members(kept) == Verified(live, c, l);
      HolesOfRead(live, c, l, kept, holes);
      r := Some(holes);
    }

    /** Determined chunks have arrived, as far as the recorded symbol length lets them through. */
    ghost predicate HolesRead(live: seq<u64>, c: nat, l: nat, pieces: seq<Option<Vec>>)
      requires InRange(live) && HasLayer(c, l) && l < |symLen|
      reads this, nodes
    {
      Arrived(pieces, source[c][l], Verified(live, c, l), symLen[l])
    }

    lemma HolesOfRead(live: seq<u64>, c: nat, l: nat, kept: seq<Shard>, holes: Option<seq<Option<Vec>>>)
      requires InRange(live) && HasLayer(c, l) && l < |symLen| && Members(kept) == Verified(live, c, l)
      requires AllWellFormed(kept, k, stored[l]) && HolesUpTo(kept, k, stored[l], symLen[l], holes)
      requires IsSource(source[c][l], kept, k, stored[l])
      ensures holes.None? ==> symLen[l] > stored[l]
      ensures holes.Some? ==> HolesRead(live, c, l, holes.value)
    {
      hide Determined, DeterminesAt, AllConsistent, Delivered, Client.Verified, AllRaw;
      CoeffsMatrix(kept, k, stored[l]);
      forall i | 0 <= i < k ensures DeterminesAt(Verified(live, c, l), k, i) <==> Determined(kept, k, i) {
        SetDeterminesAt(kept, k, i);
      }
    }

    // ---- Put ---------------------------------------------------------------------------

    /** Every raw copy of the layer is on a live node, under a listed hash. */
    ghost predicate RawStored(live: seq<u64>, key: Key, chunks: seq<Vec>, hashes: seq<Hash>)
      requires InRange(live)
      reads nodes
    {
      forall i :: 0 <= i < |chunks| ==> Raw(chunks, i) in Reachable(live, key) && ShardHash(Raw(chunks, i)) in hashes
    }

    /** The shard with this index is on the node where placement puts it. */
    ghost predicate OnItsNode(live: seq<u64>, c: nat, l: nat, idx: nat, s: Shard)
      reads `objectId, nodes
    {
      && c < 0x100 && l < |plan.nPerLayer| < 0x100 && idx < plan.nPerLayer[l] && Placeable(CurrentPlan(), live)
      && exists n: u64 :: n < |nodes| && n in live
           && Placed(CurrentPlan(), c, l, idx, live, n) && s in nodes[n].Bucket(LayerKey(c, l))
    }

    /** Send one shard to the node placement chooses for it. */
    method StoreShard(live: seq<u64>, c: u8, l: u8, idx: u32, s: Shard) returns (acked: bool)
      requires NodesValid() && LiveOk(live) && l < |plan.nPerLayer| && idx < plan.nPerLayer[l]
      modifies nodes
      ensures NodesValid()
      ensures forall c', l', i, t :: old(OnItsNode(live, c', l', i, t)) ==> OnItsNode(live, c', l', i, t)
      ensures acked ==> OnItsNode(live, c, l, idx, s)
    {
      hide Placed, Placeable;
      PlanLive(live);
      var node := PlaceShard(CurrentPlan(), c, l, idx, live);
      acked := SendPut(node, LayerKey(c, l), s);
      forall n: nat, key | n < |nodes| ensures old(nodes[n].Bucket(key)) <= nodes[n].Bucket(key) {
        if n != node { assert nodes[n] != nodes[node]; }
      }
    }

    lemma PlanLive(live: seq<u64>)
      requires LiveOk(live)
      ensures Placeable(CurrentPlan(), live) && |plan.nPerLayer| < 0x100
      ensures forall n :: n in live ==> n < |nodes|
    {
      forall n | n in live ensures n < |nodes| {
        var i :| 0 <= i < |live| && live[i] == n;
      }
    }

    /** Place and send the shards of one layer, collecting their hashes. */
    method DispatchLayer(live: seq<u64>, c: u8, l: u8, shards: seq<Shard>) returns (ok: bool, hashes: seq<Hash>)
      requires NodesValid() && LiveOk(live) && l < |plan.nPerLayer| && |shards| == plan.nPerLayer[l]
      modifies nodes
      ensures NodesValid()
      ensures forall c', l', i, t :: old(OnItsNode(live, c', l', i, t)) ==> OnItsNode(live, c', l', i, t)
      ensures ok ==> |hashes| == |shards| && forall i :: 0 <= i < |shards| ==> hashes[i] == ShardHash(shards[i])
      ensures ok ==> forall i :: 0 <= i < |shards| ==> OnItsNode(live, c, l, i, shards[i])
    {
      hide NodesValid, OnItsNode, Placeable;
      hashes := [];
      for idx := 0 to |shards|
        invariant NodesValid()
        invariant forall c', l', i, t :: old(OnItsNode(live, c', l', i, t)) ==> OnItsNode(live, c', l', i, t)
        invariant |hashes| == idx && forall i :: 0 <= i < idx ==> hashes[i] == ShardHash(shards[i])
        invariant forall i :: 0 <= i < idx ==> OnItsNode(live, c, l, i, shards[i])
      {
        var acked := StoreShard(live, c, l, idx, shards[idx]);
        hashes := hashes + [ShardHash(shards[idx])];
        if !acked {
          return false, hashes;
        }
      }
      ok := true;
    }

    /** The hashes list, in order, the shards of one encoding of the data under these draws, and each
        shard is on its node. */
    ghost predicate LayerStoredWith(live: seq<u64>, c: nat, l: nat, data: Vec, hashes: seq<Hash>, draws: seq<Vec>)
      reads `objectId, `symLen, nodes
    {
      && k >= 1 && l < |symLen| == |plan.nPerLayer| && symLen[l] == CeilDiv(|data|, k)
      && (forall i :: 0 <= i < |hashes| ==> hashes[i].OfShard?)
      && Encodes(Listed(hashes), SourceChunks(data, k), symLen[l], plan.nPerLayer[l], draws)
      && forall i :: 0 <= i < |hashes| ==> OnItsNode(live, c, l, i, hashes[i].shard)
    }

    ghost predicate LayerStored(live: seq<u64>, c: nat, l: nat, data: Vec, hashes: seq<Hash>)
      reads `objectId, `symLen, nodes
    {
      exists draws :: LayerStoredWith(live, c, l, data, hashes, draws)
    }

    /** One layer: encoded, hashed, placed and acknowledged. */
    method PutLayer(live: seq<u64>, c: u8, l: u8, data: Vec, rng: Rng)
      returns (ok: bool, hashes: seq<Hash>, ghost draws: seq<Vec>)
      requires gf.Valid() && NodesValid() && k >= 1 && LiveOk(live) && l < |symLen| == |plan.nPerLayer|
      requires symLen[l] == CeilDiv(|data|, k)
      requires rng !in gf.Tables() && rng !in Stores() && gf.Tables() !! Stores()
      modifies nodes, rng
      ensures gf.Valid() && NodesValid()
      ensures forall c', l', d, h :: old(LayerStored(live, c', l', d, h)) ==> LayerStored(live, c', l', d, h)
      ensures ok ==> LayerStoredWith(live, c, l, data, hashes, draws)
      ensures rng.drawn == old(rng.drawn) + Flatten(draws)
    {
      hide SourceChunks, Chunks, Encodes, OnItsNode, Flatten, Placeable;
      var sl, shards;
      sl, shards, draws := EncodeLayerWithK(gf, data, k, plan.nPerLayer[l], rng);
      EncodesCount(shards, SourceChunks(data, k), sl, plan.nPerLayer[l], draws);
      ok, hashes := DispatchLayer(live, c, l, shards);
      if ok { assert Listed(hashes) == shards; }
      forall c', l', d, h | old(LayerStored(live, c', l', d, h)) ensures LayerStored(live, c', l', d, h) {
        ghost var with :| old(LayerStoredWith(live, c', l', d, h, with));
        assert LayerStoredWith(live, c', l', d, h, with);
      }
    }

    /** A stored layer has only consistent hashes, and its raw copies are within reach. */
    lemma StoredFacts(live: seq<u64>, c: nat, l: nat, data: Vec, hashes: seq<Hash>)
      requires InRange(live) && LayerStored(live, c, l, data, hashes)
      ensures k >= 1 && l < |symLen| == |plan.nPerLayer| && symLen[l] == CeilDiv(|data|, k)
      ensures ListsConsistent(hashes, SourceChunks(data, k), symLen[l])
      ensures k <= plan.nPerLayer[l] ==> RawStored(live, LayerKey(c, l), SourceChunks(data, k), hashes)
    {
      hide Consistent, SourceChunks, Placed, Placeable, GuardedDraw, Guarded;
      var chunks, sl := SourceChunks(data, k), symLen[l];
      var draws :| LayerStoredWith(live, c, l, data, hashes, draws);
      forall h | h in hashes ensures h.OfShard? && Consistent(h.shard, chunks, sl) {
        var i :| 0 <= i < |hashes| && hashes[i] == h;
        assert Consistent(Listed(hashes)[i], chunks, sl);
      }
      if k <= plan.nPerLayer[l] {
        forall i | 0 <= i < k
          ensures Raw(chunks, i) in Reachable(live, LayerKey(c, l)) && ShardHash(Raw(chunks, i)) in hashes
        {
          assert Listed(hashes)[i] == Raw(chunks, i) && hashes[i] in hashes;
          assert OnItsNode(live, c, l, i, hashes[i].shard);
        }
      }
    }

    /** The source now holds the chunks of the data. */
    ghost predicate SourceIs(data: seq<seq<Vec>>)
      reads this
    {
      && k >= 1 && |source| == |data|
      && forall c :: 0 <= c < |data| ==> ChannelIs(c, data[c])
    }

    ghost predicate ChannelIs(c: nat, data: seq<Vec>)
      requires k >= 1 && c < |source|
      reads this
    {
      |source[c]| == |data| && forall l :: 0 <= l < |data| ==> source[c][l] == SourceChunks(data[l], k)
    }

    ghost predicate ChannelStored(live: seq<u64>, c: nat, data: seq<Vec>, hashes: seq<seq<Hash>>)
      reads `objectId, `symLen, nodes
    {
      && DataFits(data) && |hashes| == |data|
      && forall l :: 0 <= l < |data| ==> LayerStored(live, c, l, data[l], hashes[l])
    }

    /** The data cut into chunks has the recorded symbol lengths. */
    ghost predicate DataFits(data: seq<Vec>)
      reads `symLen
    {
      FitsLengths(symLen, data)
    }

    ghost predicate FitsLengths(lens: seq<nat>, data: seq<Vec>) {
      k >= 1 && |data| == |lens| == |plan.nPerLayer| < 0x100
      && forall l :: 0 <= l < |data| ==> lens[l] == CeilDiv(|data[l]|, k)
    }

    method PutChannel(live: seq<u64>, c: u8, data: seq<Vec>, rng: Rng) returns (ok: bool, hashes: seq<seq<Hash>>)
      requires gf.Valid() && NodesValid() && LiveOk(live) && DataFits(data)
      requires rng !in gf.Tables() && rng !in Stores() && gf.Tables() !! Stores()
      modifies nodes, rng
      ensures gf.Valid() && NodesValid()
      ensures ok ==> ChannelStored(live, c, data, hashes)
      ensures forall c', d, h :: old(ChannelStored(live, c', d, h)) ==> ChannelStored(live, c', d, h)
    {
      hide NodesValid, LayerStored, LayerStoredWith, SourceChunks, Placeable, Flatten;
      hashes := [];
      for l := 0 to |data|
        invariant gf.Valid() && NodesValid() && |hashes| == l
        invariant forall c', l', d, h :: old(LayerStored(live, c', l', d, h)) ==> LayerStored(live, c', l', d, h)
        invariant forall i :: 0 <= i < l ==> LayerStored(live, c, i, data[i], hashes[i])
      {
        var stored, hs;
        ghost var draws;
        stored, hs, draws := PutLayer(live, c, l, data[l], rng);
        if !stored {
          return false, hashes;
        }
        StoredBy(live, c, l, data[l], hs, draws);
        hashes := hashes + [hs];
      }
      ok := true;
    }

    lemma StoredBy(live: seq<u64>, c: nat, l: nat, data: Vec, hashes: seq<Hash>, draws: seq<Vec>)
      requires LayerStoredWith(live, c, l, data, hashes, draws)
      ensures LayerStored(live, c, l, data, hashes)
    {}

    method PutChannels(live: seq<u64>, data: seq<seq<Vec>>, rng: Rng) returns (ok: bool, hashes: seq<seq<seq<Hash>>>)
      requires gf.Valid() && NodesValid() && LiveOk(live)
      requires |data| == plan.channels && forall c :: 0 <= c < |data| ==> DataFits(data[c])
      requires rng !in gf.Tables() && rng !in Stores() && gf.Tables() !! Stores()
      modifies nodes, rng
      ensures gf.Valid() && NodesValid()
      ensures ok ==> |hashes| == |data|
      ensures ok ==> forall c :: 0 <= c < |data| ==> ChannelStored(live, c, data[c], hashes[c])
    {
      hide NodesValid, ChannelStored, Placeable, DataFits;
      hashes := [];
      for c := 0 to |data|
        invariant gf.Valid() && NodesValid() && |hashes| == c
        invariant forall i :: 0 <= i < c ==> ChannelStored(live, i, data[i], hashes[i])
      {
        var stored, hs := PutChannel(live, c, data[c], rng);
        if !stored {
          return false, hashes;
        }
        hashes := hashes + [hs];
      }
      ok := true;
    }

    /** Every layer of the data is listed and placed as one encoding of it. */
    ghost predicate AllPlaced(live: seq<u64>, data: seq<seq<Vec>>)
      reads `objectId, `symLen, `shardHashes, nodes
    {
      |shardHashes| == |data| && forall c :: 0 <= c < |data| ==> ChannelStored(live, c, data[c], shardHashes[c])
    }

    /** put_object. The manifest's hash lists and root are replaced only when every shard has
        been acknowledged; the object id is overwritten at once. */
    method PutObject(live: seq<u64>, id: u64, data: seq<seq<Vec>>, rng: Rng) returns (ok: bool)
      requires Valid() && LiveOk(live)
      requires |data| == plan.channels && forall c :: 0 <= c < |data| ==> DataFits(data[c])
      requires rng !in gf.Tables() && rng !in Stores() && rng as object != this
      requires gf.Tables() !! Stores() && this !in gf.Tables() && this !in Stores()
      modifies this, nodes, rng
      ensures Valid() && objectId == id
      ensures symLen == old(symLen) && chunkLens == old(chunkLens)
      ensures !ok ==> shardHashes == old(shardHashes) && merkleRoot == old(merkleRoot)
      ensures !ok ==> source == old(source) && stored == old(stored)
      ensures ok ==> merkleRoot == Root(AllHashes(shardHashes))
      ensures ok ==> SourceIs(data) && stored == symLen && AllReadable(live) && AllPlaced(live, data)
    {
      hide NodesValid, Reachable, ChannelStored, Placeable, ListsValid, DataFits, AllReadable, SourceIs, Root, AllHashes, AllChunks;
      objectId := id;
      var hashes;
      ok, hashes := PutChannels(live, data, rng);
      if !ok {
        return;
      }
      shardHashes := hashes;
      source, stored := AllChunks(data, k), symLen;
      merkleRoot := ComputeRoot(hashes);
      AllStored(live, data);
    }

    /** Every layer with n >= k can be read from these nodes. */
    ghost predicate AllReadable(live: seq<u64>)
      requires InRange(live)
      reads this, nodes
    {
      && |shardHashes| == plan.channels && |symLen| == |plan.nPerLayer|
      && forall c, l :: 0 <= c < plan.channels && 0 <= l < |symLen| ==>
           |shardHashes[c]| == |symLen| && (k <= plan.nPerLayer[l] ==> Determining(Verified(live, c, l), k))
    }

    /** When every channel is stored, the new lists are valid and every layer with n >= k reads back. */
    lemma AllStored(live: seq<u64>, data: seq<seq<Vec>>)
      requires InRange(live) && k >= 1 && |symLen| == |plan.nPerLayer| < 0x100 && stored == symLen
      requires |data| == |shardHashes| == plan.channels && source == AllChunks(data, k)
      requires forall c :: 0 <= c < |data| ==> ChannelStored(live, c, data[c], shardHashes[c])
      ensures ManifestValid() && SourceIs(data) && AllReadable(live)
    {
      hide Determining, Reachable, SourceChunks, ListsConsistent, LayerStored;
      forall c, l | 0 <= c < plan.channels && 0 <= l < |symLen|
        ensures LayerValid(shardHashes, source, stored, k, c, l)
        ensures |shardHashes[c]| == |symLen| && (k <= plan.nPerLayer[l] ==> Determining(Verified(live, c, l), k))
      {
        assert ChannelStored(live, c, data[c], shardHashes[c]);
        assert source[c] == ChannelChunks(data[c], k);
        assert LayerStored(live, c, l, data[c][l], shardHashes[c][l]);
        StoredFacts(live, c, l, data[c][l], shardHashes[c][l]);
        if k <= plan.nPerLayer[l] {
          RawCopiesDetermine(Verified(live, c, l), source[c][l], symLen[l]);
        }
      }
    }
  }

  function ChannelChunks(data: seq<Vec>, k: nat): seq<seq<Vec>>
    requires k >= 1
  {
    seq(|data|, l requires 0 <= l < |data| => SourceChunks(data[l], k))
  }

  function AllChunks(data: seq<seq<Vec>>, k: nat): seq<seq<seq<Vec>>>
    requires k >= 1
  {
    seq(|data|, c requires 0 <= c < |data| => ChannelChunks(data[c], k))
  }

  /** The zero data of a new client. */
  function Blank(channels: nat, symLen: seq<nat>, k: nat): (data: seq<seq<Vec>>)
    ensures |data| == channels
  {
    seq(channels, _ => BlankChannel(symLen, k))
  }

  function BlankChannel(symLen: seq<nat>, k: nat): (data: seq<Vec>)
    ensures |data| == |symLen|
  {
    seq(|symLen|, l requires 0 <= l < |symLen| => Zero(k * symLen[l]))
  }

  lemma BlankLengths(symLen: seq<nat>, k: nat)
    requires k >= 1
    ensures forall l :: 0 <= l < |symLen| ==> CeilDiv(|BlankChannel(symLen, k)[l]|, k) == symLen[l]
  {
    hide CeilDiv;
    forall l | 0 <= l < |symLen| ensures CeilDiv(|BlankChannel(symLen, k)[l]|, k) == symLen[l] {
      CeilDivExact(symLen[l], k);
    }
  }

  /** All raw copies together determine the layer. */
  lemma RawCopiesDetermine(shards: set<Shard>, chunks: seq<Vec>, sl: nat)
    requires Matrix(chunks, sl)
    requires forall i :: 0 <= i < |chunks| ==> Raw(chunks, i) in shards
    ensures Determining(shards, |chunks|)
    ensures forall i :: 0 <= i < |chunks| ==> DeterminesAt(shards, |chunks|, i) && RawIn(shards, |chunks|, i)
  {
    hide Dot;
    forall i | 0 <= i < |chunks| ensures RawIn(shards, |chunks|, i) {
      assert Raw(chunks, i).coeffs == Unit(|chunks|, i);
    }
    forall y: Vec | |y| == |chunks| && KilledBySet(shards, y) ensures y == Zero(|chunks|) {
      forall i | 0 <= i < |chunks| ensures y[i] == 0 {
        assert Raw(chunks, i) in shards;
        DotUnit(y, i);
      }
    }
  }

  method ComputeRoot(hashes: seq<seq<seq<Hash>>>) returns (root: Hash)
    ensures root == Root(AllHashes(hashes))
  {
    hide Root, AllHashes, FlattenHashes;
    var leaves: seq<Hash> := [];
    HashesSnoc([], [], []);
    for c := 0 to |hashes|
      invariant leaves == AllHashes(hashes[..c])
    {
      var flat: seq<Hash> := [];
      for l := 0 to |hashes[c]|
        invariant flat == FlattenHashes(hashes[c][..l])
      {
        HashesSnoc(hashes[c][..l], hashes[c][l], []);
        assert hashes[c][..l + 1] == hashes[c][..l] + [hashes[c][l]];
        flat := flat + hashes[c][l];
      }
      assert hashes[c][..|hashes[c]|] == hashes[c];
      HashesSnoc(hashes[c], [], hashes[..c]);
      assert hashes[..c + 1] == hashes[..c] + [hashes[c]];
      leaves := leaves + flat;
    }
    assert hashes[..|hashes|] == hashes;
    root := MerkleRoot(leaves);
  }
}
