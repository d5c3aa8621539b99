/** Where shards go (crates/holofs-model/src/placement.rs): rendezvous hashing and its
    zone-aware variant. */
module Placement {
  import opened U64
  import opened Quotients
  import opened Wrappers

  // ---- The hash ------------------------------------------------------------------------

  const GOLDEN: u64 := 0x9E37_79B9_7F4A_7C15
  const FACTOR1: u64 := 0xBF58_476D_1CE4_E5B9
  const FACTOR2: u64 := 0x94D0_49BB_1331_11EB

  /** SplitMix64. */
  function Mix64(z: u64): u64 {
    var z1 := WrappingMul(XorShift(WrappingAdd(z, GOLDEN), 30), FACTOR1);
    var z2 := WrappingMul(XorShift(z1, 27), FACTOR2);
    XorShift(z2, 31)
  }

  /** The three multipliers are odd; here are their inverses modulo 2^64. */
  lemma FactorInverses()
    ensures GOLDEN * 0xf1de_83e1_9937_733d % W == 1
    ensures FACTOR1 * 0x96de_1b17_3f11_9089 % W == 1
    ensures FACTOR2 * 0x3196_42b2_d24d_8ec3 % W == 1
  {}

  lemma Mix64Injective(x: u64, y: u64)
    requires Mix64(x) == Mix64(y)
    ensures x == y
  {
    FactorInverses();
    var xa, ya := WrappingAdd(x, GOLDEN), WrappingAdd(y, GOLDEN);
    var xb, yb := WrappingMul(XorShift(xa, 30), FACTOR1), WrappingMul(XorShift(ya, 30), FACTOR1);
    var xc, yc := WrappingMul(XorShift(xb, 27), FACTOR2), WrappingMul(XorShift(yb, 27), FACTOR2);
    hide WrappingAdd, WrappingMul, XorShift;
    XorShiftInjective(xc, yc, 31);
    WrappingMulInjective(XorShift(xb, 27), XorShift(yb, 27), FACTOR2, 0x3196_42b2_d24d_8ec3);
    XorShiftInjective(xb, yb, 27);
    WrappingMulInjective(XorShift(xa, 30), XorShift(ya, 30), FACTOR1, 0x96de_1b17_3f11_9089);
    XorShiftInjective(xa, ya, 30);
    WrappingAddInjective(x, y, GOLDEN);
  }

  /** Identifies a position inside an object. */
  datatype ShardKey = ShardKey(objectId: u64, channel: u8, layer: u8, shardIdx: u32)

  /** (shard_idx << 16) | (channel << 8) | layer: the three fields do not overlap. */
  function KeyWord(key: ShardKey): u64 {
    key.shardIdx * 0x1_0000 + key.channel * 0x100 + key.layer
  }

  /** A node's score for a key; usize is a 64-bit word. */
  function Score(key: ShardKey, node: u64): u64 {
    Mix64(Xor64(Xor64(Mix64(key.objectId), Mix64(WrappingMul(node, GOLDEN))), Mix64(KeyWord(key))))
  }

  /** Two different nodes never tie for a key. */
  lemma NoTies(key: ShardKey, a: u64, b: u64)
    requires Score(key, a) == Score(key, b)
    ensures a == b
  {
    hide Mix64, WrappingMul, KeyWord, Xor;
    var h, t := Mix64(key.objectId), Mix64(KeyWord(key));
    var ga, gb := WrappingMul(a, GOLDEN), WrappingMul(b, GOLDEN);
    Mix64Injective(Xor64(Xor64(h, Mix64(ga)), t), Xor64(Xor64(h, Mix64(gb)), t));
    XorCancel(h, Mix64(ga), Mix64(gb), t);
    Mix64Injective(ga, gb);
    FactorInverses();
    WrappingMulInjective(a, b, GOLDEN, 0xf1de_83e1_9937_733d);
  }

  // ---- Choosing one node ------------------------------------------------------------------

  datatype Scheme = RoundRobin | Rendezvous | RendezvousZoneAware

  /** The live node with the highest score. */
  ghost predicate Winner(key: ShardKey, live: seq<u64>, node: u64) {
    node in live && forall n :: n in live ==> Score(key, n) <= Score(key, node)
  }

  function RoundRobinStart(key: ShardKey, total: nat): nat
    requires total > 0
  {
    WrappingAdd(Mix64(Xor64(Xor64(key.objectId, key.channel * 0x1_0000), key.layer * 0x100)), key.shardIdx) % total
  }

  /** The first live node met when stepping forward from the start position. */
  ghost predicate FirstLive(start: nat, total: nat, live: seq<u64>, node: u64)
    requires total > 0
  {
    node in live && exists off: nat :: node == Step(start, off, total) && NoneBefore(start, total, live, off)
  }

  ghost predicate NoneBefore(start: nat, total: nat, live: seq<u64>, off: nat)
    requires total > 0
  {
    forall o: nat :: o < off ==> Step(start, o, total) !in live
  }

  function Step(start: nat, off: nat, total: nat): nat
    requires total > 0
  {
    (start + off) % total
  }

  lemma StepReaches(start: nat, total: nat, node: u64) returns (off: nat)
    requires start < total && node < total
    ensures off < total && Step(start, off, total) == node
  {
    off := if node >= start then node - start else node + total - start;
    SmallRemainder(node, total);
  }

  lemma SmallRemainder(n: nat, total: nat)
    requires n < total
    ensures n % total == n && (n + total) % total == n
  {
    assert n / total == 0;
  }

  method Place(scheme: Scheme, key: ShardKey, total: nat, live: seq<u64>) returns (node: u64)
    requires live != []
    requires scheme.RoundRobin? ==> forall n :: n in live ==> n < total
    ensures node in live
    ensures !scheme.RoundRobin? ==> Winner(key, live, node)
    ensures scheme.RoundRobin? ==> total > 0 && FirstLive(RoundRobinStart(key, total), total, live, node)
  {
    hide Score, RoundRobinStart;
    if scheme.RoundRobin? {
      assert live[0] in live;
      var start := RoundRobinStart(key, total);
      var off := 0;
      ghost var bound := StepReaches(StartBound(key, total), total, live[0]);
      while (start + off) % total !in live
        invariant off <= bound && NoneBefore(start, total, live, off)
        decreases bound - off
      {
        assert Step(start, off, total) !in live;
        off := off + 1;
      }
      node := (start + off) % total;
      assert node == Step(start, off, total);
    } else {
      var best := 0;
      node := live[0];
      for i := 0 to |live|
        invariant node in live
        invariant forall j :: 0 <= j < i ==> Score(key, live[j]) <= best
        invariant i > 0 ==> best == Score(key, node)
        invariant i == 0 ==> best == 0
      {
        var h := Score(key, live[i]);
        if h >= best {
          best, node := h, live[i];
        }
      }
    }
  }

  ghost function StartBound(key: ShardKey, total: nat): (s: nat)
    requires total > 0
    ensures s < total && s == RoundRobinStart(key, total)
  {
    RoundRobinStart(key, total)
  }

  /** The winner is unique, so it depends on the set of live nodes only. */
  lemma WinnerOfSet(key: ShardKey, live: seq<u64>, live': seq<u64>, a: u64, b: u64)
    requires (forall n :: n in live <==> n in live')
    requires Winner(key, live, a) && Winner(key, live', b)
    ensures a == b
  {
    hide Score;
    NoTies(key, a, b);
  }

  /** When nodes disappear, a shard moves only if it sat on one of them. */
  lemma SurvivingWinnerStays(key: ShardKey, all: seq<u64>, some: seq<u64>, a: u64, b: u64)
    requires (forall n :: n in some ==> n in all)
    requires Winner(key, all, a) && Winner(key, some, b) && a in some
    ensures a == b
  {
    hide Score;
    NoTies(key, a, b);
  }

  // ---- Zone-aware layout --------------------------------------------------------------------

  /** Library sort by descending score. */
  function InsertByScore(key: ShardKey, n: u64, s: seq<u64>): (out: seq<u64>)
    ensures forall x :: x in out <==> x == n || x in s
  {
    if s == [] then [n]
    else if Score(key, s[0]) < Score(key, n) then [n] + s
    else [s[0]] + InsertByScore(key, n, s[1..])
  }

  function SortByScore(key: ShardKey, live: seq<u64>): (out: seq<u64>)
    ensures forall x :: x in out <==> x in live
  {
    if live == [] then [] else InsertByScore(key, live[0], SortByScore(key, live[1..]))
  }

  ghost predicate Descending(key: ShardKey, s: seq<u64>) {
    forall i, j :: 0 <= i < j < |s| ==> Score(key, s[i]) >= Score(key, s[j])
  }

  lemma {:induction false} InsertDescending(key: ShardKey, n: u64, s: seq<u64>)
    requires Descending(key, s)
    ensures Descending(key, InsertByScore(key, n, s))
  {
    hide Score;
    if s == [] || Score(key, s[0]) < Score(key, n) {
    } else {
      var rest := InsertByScore(key, n, s[1..]);
      InsertDescending(key, n, s[1..]);
      forall i | 0 <= i < |rest| ensures Score(key, rest[i]) <= Score(key, s[0]) {
        assert rest[i] in rest;
        if rest[i] != n { assert rest[i] in s[1..]; }
      }
    }
  }

  lemma {:induction false} SortDescending(key: ShardKey, live: seq<u64>)
    ensures Descending(key, SortByScore(key, live))
  {
    if live == [] {
    } else {
      SortDescending(key, live[1..]);
      InsertDescending(key, live[0], SortByScore(key, live[1..]));
    }
  }

  type Zones = seq<nat>

  ghost predicate InZones(nodes: seq<u64>, zones: Zones) {
    forall i :: 0 <= i < |nodes| ==> nodes[i] < |zones|
  }

  function ZonesOf(nodes: seq<u64>, zones: Zones): set<nat>
    requires InZones(nodes, zones)
  {
    set n | n in nodes :: zones[n]
  }

  /** How many of the listed nodes lie in the zone. */
  function CountIn(nodes: seq<u64>, zones: Zones, zone: nat): nat
    requires InZones(nodes, zones)
  {
    if nodes == [] then 0
    else CountIn(nodes[..|nodes| - 1], zones, zone) + (if zones[nodes[|nodes| - 1]] == zone then 1 else 0)
  }

  /** The best live node among those whose zone is still below quota. */
  ghost predicate BestBelowQuota(key: ShardKey, live: seq<u64>, zones: Zones, placed: seq<u64>, quota: nat, node: u64)
    requires InZones(live, zones) && InZones(placed, zones)
  {
    && node in live && CountIn(placed, zones, zones[node]) < quota
    && forall n :: n in live && CountIn(placed, zones, zones[n]) < quota ==> Score(key, n) <= Score(key, node)
  }

  /** The whole layout: shard idx goes to the best node below quota given the earlier ones. */
  ghost predicate ZoneLayout(objectId: u64, c: u8, l: u8, live: seq<u64>, zones: Zones, quota: nat, out: seq<u64>)
    requires InZones(live, zones)
  {
    && InZones(out, zones) && |out| < 0x1_0000_0000
    && forall i :: 0 <= i < |out| ==>
         BestBelowQuota(ShardKey(objectId, c, l, i), live, zones, out[..i], quota, out[i])
  }

  lemma {:induction false} CountWithout(nodes: seq<u64>, zones: Zones, zone: nat) returns (rest: seq<u64>)
    requires InZones(nodes, zones)
    ensures InZones(rest, zones) && |rest| + CountIn(nodes, zones, zone) == |nodes|
    ensures forall z :: z != zone ==> CountIn(rest, zones, z) == CountIn(nodes, zones, z)
    ensures forall n :: n in rest ==> n in nodes && zones[n] != zone
  {
    if nodes == [] {
      rest := [];
    } else {
      var m := |nodes| - 1;
      rest := CountWithout(nodes[..m], zones, zone);
      if zones[nodes[m]] != zone {
        var longer := rest + [nodes[m]];
        assert longer[..|longer| - 1] == rest;
        rest := longer;
      }
    }
  }

  /** Pigeonhole: fewer than |zs| * quota placed nodes leave some zone below quota. */
  lemma {:induction false} SomeZoneBelow(placed: seq<u64>, zones: Zones, zs: set<nat>, quota: nat) returns (zone: nat)
    requires InZones(placed, zones) && |placed| < quota * |zs|
    ensures zone in zs && CountIn(placed, zones, zone) < quota
    decreases |zs|
  {
    zone :| zone in zs;
    if CountIn(placed, zones, zone) >= quota {
      var rest := CountWithout(placed, zones, zone);
      var zs' := zs - {zone};
      assert quota * |zs| == quota * |zs'| + quota;
      zone := SomeZoneBelow(rest, zones, zs', quota);
    }
  }

  method CountZones(live: seq<u64>, zones: Zones) returns (zs: set<nat>)
    requires InZones(live, zones)
    ensures zs == ZonesOf(live, zones)
  {
    zs := {};
    for i := 0 to |live|
      invariant forall z :: z in zs <==> exists j :: 0 <= j < i && zones[live[j]] == z
    {
      zs := zs + {zones[live[i]]};
    }
  }

  ghost predicate UsedIs(used: map<nat, nat>, placed: seq<u64>, zones: Zones)
    requires InZones(placed, zones)
  {
    forall z: nat :: (if z in used then used[z] else 0) == CountIn(placed, zones, z)
  }

  /** place_layer_zone_aware: n shards of one layer. Each zone receives at most
      ceil(n / number of live zones) of them. */
  method PlaceLayerZoneAware(objectId: u64, c: u8, l: u8, n: u32, live: seq<u64>, zones: Zones)
    returns (out: seq<u64>)
    requires live != [] && InZones(live, zones)
    ensures |out| == n && InZones(out, zones) && (forall i :: 0 <= i < n ==> out[i] in live)
    ensures ZonesOf(live, zones) != {}
    ensures ZoneLayout(objectId, c, l, live, zones, CeilDiv(n, |ZonesOf(live, zones)|), out)
    ensures forall z :: CountIn(out, zones, z) <= CeilDiv(n, |ZonesOf(live, zones)|)
  {
    hide Score, ZonesOf, UsedIs, ZoneLayout, BestBelowQuota, CountIn, CeilDiv;
    var zs := CountZones(live, zones);
    SomeZoneLives(live, zones);
    var quota := CeilDiv(n, |zs|);
    CeilDivCovers(n, |zs|);
    var used: map<nat, nat> := map[];
    out := [];
    LayoutStart(objectId, c, l, live, zones, quota);
    for idx := 0 to n
      invariant |out| == idx && InZones(out, zones) && (forall i :: 0 <= i < idx ==> out[i] in live)
      invariant UsedIs(used, out, zones)
      invariant ZoneLayout(objectId, c, l, live, zones, quota, out)
      invariant forall z :: CountIn(out, zones, z) <= quota
    {
      var key := ShardKey(objectId, c, l, idx);
      ghost var zone := SomeZoneBelow(out, zones, zs, quota);
      var node := FirstBelowQuota(key, live, zones, used, out, quota, zone);
      BestIsLive(key, live, zones, out, quota, node);
      LayoutSnoc(objectId, c, l, live, zones, quota, out, used, node);
      var z := zones[node];
      used := used[z := (if z in used then used[z] else 0) + 1];
      out := out + [node];
    }
  }

  lemma SomeZoneLives(live: seq<u64>, zones: Zones)
    requires live != [] && InZones(live, zones)
    ensures ZonesOf(live, zones) != {}
  {
    assert live[0] in live && zones[live[0]] in ZonesOf(live, zones);
  }

  lemma LayoutStart(objectId: u64, c: u8, l: u8, live: seq<u64>, zones: Zones, quota: nat)
    requires InZones(live, zones)
    ensures ZoneLayout(objectId, c, l, live, zones, quota, []) && UsedIs(map[], [], zones)
    ensures forall z :: CountIn([], zones, z) == 0
  {}

  lemma BestIsLive(key: ShardKey, live: seq<u64>, zones: Zones, placed: seq<u64>, quota: nat, node: u64)
    requires InZones(live, zones) && InZones(placed, zones) && BestBelowQuota(key, live, zones, placed, quota, node)
    ensures node in live && node < |zones| && CountIn(placed, zones, zones[node]) < quota
  {
    hide Score, CountIn;
  }

  /** Placing one more shard on the best node below quota. */
  lemma LayoutSnoc(objectId: u64, c: u8, l: u8, live: seq<u64>, zones: Zones, quota: nat, out: seq<u64>, used: map<nat, nat>, node: u64)
    requires InZones(live, zones) && InZones(out, zones) && |out| + 1 < 0x1_0000_0000 && node < |zones|
    requires ZoneLayout(objectId, c, l, live, zones, quota, out) && UsedIs(used, out, zones)
    requires BestBelowQuota(ShardKey(objectId, c, l, |out|), live, zones, out, quota, node)
    ensures InZones(out + [node], zones) && ZoneLayout(objectId, c, l, live, zones, quota, out + [node])
    ensures var z := zones[node]; UsedIs(used[z := (if z in used then used[z] else 0) + 1], out + [node], zones)
    ensures forall z :: CountIn(out + [node], zones, z) == CountIn(out, zones, z) + if z == zones[node] then 1 else 0
  {
    hide BestBelowQuota;
    var longer := out + [node];
    assert longer[..|out|] == out;
    forall i | 0 <= i < |longer|
      ensures BestBelowQuota(ShardKey(objectId, c, l, i), live, zones, longer[..i], quota, longer[i])
    {
      if i < |out| { assert longer[..i] == out[..i]; }
    }
  }

  /** Scan the sorted nodes for the first whose zone is below quota. The fallback of the source
      (any node, over quota) is not needed: some zone is always below. */
  method FirstBelowQuota(key: ShardKey, live: seq<u64>, zones: Zones, used: map<nat, nat>, ghost placed: seq<u64>,
                         quota: nat, ghost zone: nat) returns (node: u64)
    requires live != [] && InZones(live, zones) && InZones(placed, zones) && UsedIs(used, placed, zones)
    requires zone in ZonesOf(live, zones) && CountIn(placed, zones, zone) < quota
    ensures BestBelowQuota(key, live, zones, placed, quota, node)
  {
    hide Score;
    var scored := SortByScore(key, live);
    SortDescending(key, live);
    SameNodesInZones(live, scored, zones);
    ghost var below: nat :| below < |scored| && zones[scored[below]] == zone;
    hide SortByScore, Descending;
    var chosen: Option<u64> := None;
    var i := 0;
    while i < |scored| && chosen.None?
      invariant 0 <= i <= |scored|
      invariant chosen.None? ==> forall j :: 0 <= j < i ==> CountIn(placed, zones, zones[scored[j]]) >= quota
      invariant chosen.Some? ==> BestBelowQuota(key, live, zones, placed, quota, chosen.value)
    {
      assert scored[i] in scored;
      var z := zones[scored[i]];
      if (if z in used then used[z] else 0) < quota {
        chosen := Some(scored[i]);
        forall n | n in live && CountIn(placed, zones, zones[n]) < quota
          ensures Score(key, n) <= Score(key, scored[i])
        {
          LaterIsLower(key, scored, i, n, placed, zones, quota);
        }
      }
      i := i + 1;
    }
    assert zones[scored[below]] == zone;
    node := chosen.value;
  }

  lemma SameNodesInZones(a: seq<u64>, b: seq<u64>, zones: Zones)
    requires InZones(a, zones) && forall x :: x in b <==> x in a
    ensures InZones(b, zones)
  {
    forall i | 0 <= i < |b| ensures b[i] < |zones| { assert b[i] in b; }
  }

  lemma LaterIsLower(key: ShardKey, scored: seq<u64>, i: nat, n: u64, placed: seq<u64>, zones: Zones, quota: nat)
    requires Descending(key, scored) && InZones(scored, zones) && InZones(placed, zones)
    requires i < |scored| && n in scored && CountIn(placed, zones, zones[n]) < quota
    requires forall j :: 0 <= j < i ==> CountIn(placed, zones, zones[scored[j]]) >= quota
    ensures Score(key, n) <= Score(key, scored[i])
  {
    hide Score;
    var j :| 0 <= j < |scored| && scored[j] == n;
  }

  /** The layout is a function of the set of live nodes. */
  lemma {:induction false} LayoutOfSet(objectId: u64, c: u8, l: u8, live: seq<u64>, live': seq<u64>, zones: Zones,
                                       quota: nat, out: seq<u64>, out': seq<u64>, n: nat)
    requires InZones(live, zones) && InZones(live', zones)
    requires forall x :: x in live <==> x in live'
    requires ZoneLayout(objectId, c, l, live, zones, quota, out) && ZoneLayout(objectId, c, l, live', zones, quota, out')
    requires n <= |out| && n <= |out'| && |out| < 0x1_0000_0000
    ensures out[..n] == out'[..n]
  {
    hide Score, ZoneLayout, BestBelowQuota;
    if n == 0 {
    } else {
      LayoutOfSet(objectId, c, l, live, live', zones, quota, out, out', n - 1);
      LayoutAt(objectId, c, l, live, zones, quota, out, n - 1);
      LayoutAt(objectId, c, l, live', zones, quota, out', n - 1);
      SameChoice(ShardKey(objectId, c, l, n - 1), live, live', zones, out[..n - 1], quota, out[n - 1], out'[n - 1]);
      assert out[..n] == out[..n - 1] + [out[n - 1]];
      assert out'[..n] == out'[..n - 1] + [out'[n - 1]];
    }
  }

  lemma LayoutAt(objectId: u64, c: u8, l: u8, live: seq<u64>, zones: Zones, quota: nat, out: seq<u64>, i: nat)
    requires InZones(live, zones) && ZoneLayout(objectId, c, l, live, zones, quota, out) && i < |out|
    ensures i < 0x1_0000_0000 && InZones(out[..i], zones)
    ensures BestBelowQuota(ShardKey(objectId, c, l, i), live, zones, out[..i], quota, out[i])
  {}

  lemma SameChoice(key: ShardKey, live: seq<u64>, live': seq<u64>, zones: Zones, placed: seq<u64>, quota: nat,
                   a: u64, b: u64)
    requires InZones(live, zones) && InZones(live', zones) && InZones(placed, zones)
    requires forall x :: x in live <==> x in live'
    requires BestBelowQuota(key, live, zones, placed, quota, a) && BestBelowQuota(key, live', zones, placed, quota, b)
    ensures a == b
  {
    hide Score;
    NoTies(key, a, b);
  }
}
