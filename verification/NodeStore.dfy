/** The in-memory index of a storage node (Store in crates/holofs-storage/src/node_service.rs). */
module NodeStore {
  import opened ReducedSystem
  import opened Merkle

  datatype Key = Key(objectId: nat, channel: nat, layer: nat)

  function BucketIn(shards: map<Key, map<Hash, Shard>>, k: Key): set<Shard> {
    if k in shards then shards[k].Values else {}
  }

  class Store {
    var shards: map<Key, map<Hash, Shard>>

    /** Every shard sits under its own hash. */
    ghost predicate Valid()
      reads this
    {
      forall k, h :: k in shards && h in shards[k] ==> h == ShardHash(shards[k][h])
    }

    /** The shards held under a key. */
    ghost function Bucket(k: Key): set<Shard>
      reads this
    {
      BucketIn(shards, k)
    }

    constructor ()
      ensures Valid() && forall k :: Bucket(k) == {}
    {
      shards := map[];
    }

    /** False when the shard was already there. */
    method Put(k: Key, s: Shard) returns (added: bool)
      requires Valid()
      modifies this
      ensures Valid()
      ensures added <==> s !in old(Bucket(k))
      ensures forall k' :: Bucket(k') == if k' == k then old(Bucket(k')) + {s} else old(Bucket(k'))
    {
      var h := ShardHash(s);
      var bucket := if k in shards then shards[k] else map[];
      assert forall x :: x in bucket.Values <==> x in old(Bucket(k));
      if h in bucket {
        assert bucket[h] == s && s in bucket.Values;
        shards := shards[k := bucket];
        return false;
      }
      assert s !in bucket.Values;
      ValuesAfter(bucket, h, s);
      shards := shards[k := bucket[h := s]];
      added := true;
    }

    /** All shards under the key, each once, in no particular order. */
    method Get(k: Key) returns (out: seq<Shard>)
      requires Valid()
      ensures forall s :: s in out <==> s in Bucket(k)
      ensures forall i, j :: 0 <= i < j < |out| ==> out[i] != out[j]
    {
      out := [];
      if k !in shards {
        return;
      }
      var bucket := shards[k];
      var todo := bucket.Keys;
      while todo != {}
        invariant todo <= bucket.Keys
        invariant forall s :: s in out ==> ShardHash(s) in bucket && ShardHash(s) !in todo && bucket[ShardHash(s)] == s
        invariant forall h :: h in bucket && h !in todo ==> bucket[h] in out
        invariant forall i, j :: 0 <= i < j < |out| ==> out[i] != out[j]
        decreases todo
      {
        var h :| h in todo;
        assert h == ShardHash(bucket[h]);
        out := out + [bucket[h]];
        todo := todo - {h};
      }
    }

    /** Drop everything stored for one object; the number of shards dropped. */
    method Purge(objectId: nat) returns (removed: nat)
      requires Valid()
      modifies this
      ensures Valid()
      ensures forall k :: Bucket(k) == if k.objectId == objectId then {} else old(Bucket(k))
      ensures removed == |Holdings(old(shards), old(shards).Keys, objectId)|
    {
      hide Holdings, PurgedSoFar, BucketIn;
      removed := 0;
      var todo := shards.Keys;
      ghost var before, seen: set<Key> := shards, {};
      NothingHeld(before, objectId);
      PurgeBegins(before, objectId);
      while todo != {}
        invariant todo + seen == before.Keys && todo !! seen
        invariant PurgedSoFar(before, shards, todo, objectId)
        invariant removed == |Holdings(before, seen, objectId)|
        decreases todo
      {
        var k :| k in todo;
        OneMoreBucket(before, seen, k, objectId);
        PurgeStep(before, shards, todo, k, objectId);
        if k.objectId == objectId {
          removed := removed + |shards[k]|;
          shards := shards - {k};
        }
        todo, seen := todo - {k}, seen + {k};
      }
      assert seen == before.Keys;
      PurgeEnds(before, shards, objectId);
    }

    /** Node death and replacement. */
    method Wipe()
      modifies this
      ensures Valid() && forall k :: Bucket(k) == {}
    {
      shards := map[];
    }

    /** Plant an arbitrary shard. */
    method InjectCorrupt(k: Key, s: Shard)
      requires Valid()
      modifies this
      ensures Valid()
      ensures forall k' :: Bucket(k') == if k' == k then old(Bucket(k')) + {s} else old(Bucket(k'))
    {
      var bucket := if k in shards then shards[k] else map[];
      assert forall x :: x in bucket.Values <==> x in old(Bucket(k));
      ValuesAfter(bucket, ShardHash(s), s);
      shards := shards[k := bucket[ShardHash(s) := s]];
    }
  }

  /** What is stored for one object under some of the keys. */
  function Holdings(m: map<Key, map<Hash, Shard>>, keys: set<Key>, objectId: nat): set<(Key, Hash)> {
    set k, h | k in keys && k in m && k.objectId == objectId && h in m[k] :: (k, h)
  }

  function Named(k: Key, hs: set<Hash>): set<(Key, Hash)> {
    set h | h in hs :: (k, h)
  }

  lemma {:induction false} NamedCount(k: Key, hs: set<Hash>)
    ensures |Named(k, hs)| == |hs|
  {
    if hs == {} {
      assert Named(k, hs) == {};
    } else {
      var h :| h in hs;
      NamedCount(k, hs - {h});
      assert Named(k, hs) == Named(k, hs - {h}) + {(k, h)};
    }
  }

  /** Everything else is as it was; of the object only the keys still to do are left. */
  ghost predicate PurgedSoFar(before: map<Key, map<Hash, Shard>>, now: map<Key, map<Hash, Shard>>, todo: set<Key>, objectId: nat) {
    && (forall k :: k in now <==> k in before && (k in todo || k.objectId != objectId))
    && (forall k :: k in now ==> now[k] == before[k])
  }

  lemma PurgeBegins(m: map<Key, map<Hash, Shard>>, objectId: nat)
    ensures PurgedSoFar(m, m, m.Keys, objectId)
  {}

  lemma PurgeStep(before: map<Key, map<Hash, Shard>>, now: map<Key, map<Hash, Shard>>, todo: set<Key>, k: Key, objectId: nat)
    requires PurgedSoFar(before, now, todo, objectId) && k in todo && k in before
    ensures k in now && now[k] == before[k]
    ensures PurgedSoFar(before, if k.objectId == objectId then now - {k} else now, todo - {k}, objectId)
  {}

  lemma PurgeEnds(before: map<Key, map<Hash, Shard>>, now: map<Key, map<Hash, Shard>>, objectId: nat)
    requires PurgedSoFar(before, now, {}, objectId)
    ensures forall k :: BucketIn(now, k) == if k.objectId == objectId then {} else BucketIn(before, k)
    ensures forall k :: k in now ==> k in before && now[k] == before[k]
  {}

  lemma NothingHeld(m: map<Key, map<Hash, Shard>>, objectId: nat)
    ensures Holdings(m, {}, objectId) == {}
  {}

  lemma OneMoreBucket(m: map<Key, map<Hash, Shard>>, seen: set<Key>, k: Key, objectId: nat)
    requires k in m && k !in seen
    ensures |Holdings(m, seen + {k}, objectId)|
         == |Holdings(m, seen, objectId)| + if k.objectId == objectId then |m[k]| else 0
  {
    HoldingsGrow(m, seen, k, objectId);
    hide Holdings;
    var hs := m[k].Keys;
    NamedCount(k, hs);
    assert |hs| == |m[k]|;
  }

  lemma HoldingsGrow(m: map<Key, map<Hash, Shard>>, seen: set<Key>, k: Key, objectId: nat)
    requires k in m && k !in seen
    ensures k.objectId != objectId ==> Holdings(m, seen + {k}, objectId) == Holdings(m, seen, objectId)
    ensures k.objectId == objectId ==> Holdings(m, seen + {k}, objectId) == Holdings(m, seen, objectId) + Named(k, m[k].Keys)
    ensures Holdings(m, seen, objectId) !! Named(k, m[k].Keys)
  {
    forall p: (Key, Hash)
      ensures p in Holdings(m, seen + {k}, objectId)
        <==> p in Holdings(m, seen, objectId) || (p.0 == k && k.objectId == objectId && p.1 in m[k])
      ensures p in Named(k, m[k].Keys) <==> p.0 == k && p.1 in m[k]
    {
      HeldPair(m, seen, objectId, p);
      HeldPair(m, seen + {k}, objectId, p);
    }
    hide Holdings, Named;
  }

  lemma HeldPair(m: map<Key, map<Hash, Shard>>, keys: set<Key>, objectId: nat, p: (Key, Hash))
    ensures p in Holdings(m, keys, objectId) <==> p.0 in keys && p.0 in m && p.0.objectId == objectId && p.1 in m[p.0]
  {}

  /** Writing a shard under its own hash replaces nothing but itself. */
  lemma ValuesAfter(bucket: map<Hash, Shard>, h: Hash, s: Shard)
    requires h == ShardHash(s) && (forall g :: g in bucket ==> g == ShardHash(bucket[g]))
    ensures bucket[h := s].Values == bucket.Values + {s}
  {
    var after := bucket[h := s];
    forall x | x in bucket.Values ensures x in after.Values {
      var g :| g in bucket && bucket[g] == x;
      assert g in after && after[g] == x;
    }
    assert h in after;
  }
}
