/** Zone-failure forecast (crates/holofs-cluster/src/health.rs) and the layer layout it is
    computed from (Manifest::place_shard in crates/holofs-model/src/manifest.rs). */
module Health {
  import opened U64
  import opened Placement
  import opened Quotients
  import opened Wrappers

  /** The manifest fields that decide where shards live. */
  datatype Plan = Plan(objectId: u64, k: nat, scheme: Scheme, nodes: nat, zones: Zones,
                       channels: u8, nPerLayer: seq<u32>)

  /** What placement asks of the live list. */
  ghost predicate Placeable(p: Plan, live: seq<u64>) {
    && live != []
    && |p.nPerLayer| < 0x100
    && (p.scheme.RoundRobin? ==> forall n :: n in live ==> n < p.nodes)
    && (p.scheme.RendezvousZoneAware? ==> InZones(live, p.zones))
  }

  ghost predicate IsLayout(p: Plan, c: u8, l: u8, live: seq<u64>, out: seq<u64>)
    requires Placeable(p, live) && p.scheme.RendezvousZoneAware? && l < |p.nPerLayer|
  {
    && |out| == p.nPerLayer[l] && ZonesOf(live, p.zones) != {}
    && ZoneLayout(p.objectId, c, l, live, p.zones, CeilDiv(p.nPerLayer[l], |ZonesOf(live, p.zones)|), out)
  }

  /** `node` is where shard idx of (c, l) belongs. */
  ghost predicate Placed(p: Plan, c: u8, l: u8, idx: u32, live: seq<u64>, node: u64)
    requires Placeable(p, live) && l < |p.nPerLayer| && idx < p.nPerLayer[l]
  {
    var key := ShardKey(p.objectId, c, l, idx);
    match p.scheme
    case RoundRobin => p.nodes > 0 && FirstLive(RoundRobinStart(key, p.nodes), p.nodes, live, node)
    case Rendezvous => Winner(key, live, node)
    case RendezvousZoneAware => exists out :: IsLayout(p, c, l, live, out) && out[idx] == node
  }

  /** Manifest::place_shard; the zone-aware case recomputes the layout of the whole layer. */
  method PlaceShard(p: Plan, c: u8, l: u8, idx: u32, live: seq<u64>) returns (node: u64)
    requires Placeable(p, live) && l < |p.nPerLayer| && idx < p.nPerLayer[l]
    ensures node in live && Placed(p, c, l, idx, live, node)
  {
    if p.scheme.RendezvousZoneAware? {
      var layout := PlaceLayerZoneAware(p.objectId, c, l, p.nPerLayer[l], live, p.zones);
      assert IsLayout(p, c, l, live, layout);
      node := layout[idx];
    } else {
      node := Place(p.scheme, ShardKey(p.objectId, c, l, idx), p.nodes, live);
    }
  }

  /** One layer of build_layout: each shard placed on its own. */
  method BuildLayer(p: Plan, c: u8, l: u8, live: seq<u64>) returns (nodes: seq<u64>)
    requires Placeable(p, live) && l < |p.nPerLayer|
    ensures LayerPlaced(p, c, l, live, nodes)
  {
    hide Placed;
    nodes := [];
    for idx := 0 to p.nPerLayer[l]
      invariant |nodes| == idx
      invariant forall i :: 0 <= i < idx ==> nodes[i] in live && Placed(p, c, l, i, live, nodes[i])
    {
      var node := PlaceShard(p, c, l, idx, live);
      nodes := nodes + [node];
    }
  }

  ghost predicate LayerPlaced(p: Plan, c: u8, l: u8, live: seq<u64>, nodes: seq<u64>)
    requires Placeable(p, live) && l < |p.nPerLayer|
  {
    && |nodes| == p.nPerLayer[l]
    && forall i :: 0 <= i < |nodes| ==> nodes[i] in live && Placed(p, c, l, i, live, nodes[i])
  }

  /** Placing shards one by one gives the layer's zone-aware layout. */
  lemma OneByOneIsLayout(p: Plan, c: u8, l: u8, live: seq<u64>, nodes: seq<u64>, out: seq<u64>)
    requires Placeable(p, live) && l < |p.nPerLayer| && p.scheme.RendezvousZoneAware?
    requires LayerPlaced(p, c, l, live, nodes) && IsLayout(p, c, l, live, out)
    ensures nodes == out
  {
    hide ZoneLayout;
    var quota := CeilDiv(p.nPerLayer[l], |ZonesOf(live, p.zones)|);
    forall i | 0 <= i < |nodes| ensures nodes[i] == out[i] {
      var mine :| IsLayout(p, c, l, live, mine) && mine[i] == nodes[i];
      LayoutOfSet(p.objectId, c, l, live, live, p.zones, quota, mine, out, p.nPerLayer[l]);
      assert mine[..|mine|] == mine && out[..|out|] == out;
    }
  }

  /** No zone holds more than ceil(n / number of live zones) shards of a layer. */
  lemma ZoneShare(p: Plan, c: u8, l: u8, live: seq<u64>, nodes: seq<u64>, zone: nat)
    requires Placeable(p, live) && l < |p.nPerLayer| && p.scheme.RendezvousZoneAware?
    requires LayerPlaced(p, c, l, live, nodes)
    ensures InZones(nodes, p.zones) && ZonesOf(live, p.zones) != {}
    ensures CountIn(nodes, p.zones, zone) <= CeilDiv(p.nPerLayer[l], |ZonesOf(live, p.zones)|)
  {
    hide Placed;
    LiveZonesNonempty(live, p.zones);
    if nodes == [] {
    } else {
      assert exists out :: IsLayout(p, c, l, live, out) by { LayoutFromPlaced(p, c, l, live, nodes[0]); }
      var out :| IsLayout(p, c, l, live, out);
      OneByOneIsLayout(p, c, l, live, nodes, out);
      LayoutShare(p.objectId, c, l, live, p.zones, CeilDiv(|out|, |ZonesOf(live, p.zones)|), out, zone, |out|);
      assert out[..|out|] == out;
    }
  }

  lemma LiveZonesNonempty(live: seq<u64>, zones: Zones)
    requires live != [] && InZones(live, zones)
    ensures ZonesOf(live, zones) != {}
  {
    assert live[0] in live;
    assert zones[live[0]] in ZonesOf(live, zones);
  }

  lemma LayoutFromPlaced(p: Plan, c: u8, l: u8, live: seq<u64>, node: u64)
    requires Placeable(p, live) && l < |p.nPerLayer| && p.scheme.RendezvousZoneAware? && 0 < p.nPerLayer[l]
    requires Placed(p, c, l, 0, live, node)
    ensures exists out :: IsLayout(p, c, l, live, out)
  {}

  lemma {:induction false} LayoutShare(objectId: u64, c: u8, l: u8, live: seq<u64>, zones: Zones, quota: nat,
                                       out: seq<u64>, zone: nat, n: nat)
    requires InZones(live, zones) && ZoneLayout(objectId, c, l, live, zones, quota, out) && n <= |out|
    ensures InZones(out[..n], zones) && CountIn(out[..n], zones, zone) <= quota
  {
    hide Score;
    if n == 0 {
    } else {
      LayoutShare(objectId, c, l, live, zones, quota, out, zone, n - 1);
      LayoutAt(objectId, c, l, live, zones, quota, out, n - 1);
      assert out[..n][..n - 1] == out[..n - 1];
    }
  }

  // ---- What survives the loss of one zone -------------------------------------------------

  /** Shards of a layer that stay when every node of the zone is gone. */
  method CountAlive(nodes: seq<u64>, zones: Zones, zone: nat) returns (alive: nat)
    requires InZones(nodes, zones)
    ensures alive + CountIn(nodes, zones, zone) == |nodes|
  {
    alive := 0;
    assert nodes[..|nodes|] == nodes;
    for i := 0 to |nodes|
      invariant alive + CountIn(nodes[..i], zones, zone) == i
    {
      assert nodes[..i + 1][..i] == nodes[..i];
      if zones[nodes[i]] != zone {
        alive := alive + 1;
      }
    }
  }

  /** Without the zone, layer l keeps at least k shards in every channel. */
  ghost predicate LayerSurvives(p: Plan, live: seq<u64>, l: u8, zone: nat)
    requires Placeable(p, live) && l < |p.nPerLayer|
  {
    forall c: u8, nodes :: c < p.channels && LayerPlaced(p, c, l, live, nodes) && InZones(nodes, p.zones)
      ==> |nodes| - CountIn(nodes, p.zones, zone) >= p.k
  }

  /** Losing one zone of a zone-aware layout leaves n - ceil(n / z) shards of each layer. */
  lemma ZoneLossSurvivable(p: Plan, live: seq<u64>, l: u8, zone: nat)
    requires Placeable(p, live) && l < |p.nPerLayer| && p.scheme.RendezvousZoneAware?
    requires ZonesOf(live, p.zones) != {}
    requires p.nPerLayer[l] - CeilDiv(p.nPerLayer[l], |ZonesOf(live, p.zones)|) >= p.k
    ensures LayerSurvives(p, live, l, zone)
  {
    hide LayerPlaced;
    forall c: u8, nodes | c < p.channels && LayerPlaced(p, c, l, live, nodes) && InZones(nodes, p.zones)
      ensures |nodes| - CountIn(nodes, p.zones, zone) >= p.k
    {
      ZoneShare(p, c, l, live, nodes, zone);
      LayerSize(p, c, l, live, nodes);
    }
  }

  lemma LayerSize(p: Plan, c: u8, l: u8, live: seq<u64>, nodes: seq<u64>)
    requires Placeable(p, live) && l < |p.nPerLayer| && LayerPlaced(p, c, l, live, nodes)
    ensures |nodes| == p.nPerLayer[l]
  {}

  /** Placement is deterministic: a layer has one layout. */
  lemma LayerUnique(p: Plan, c: u8, l: u8, live: seq<u64>, a: seq<u64>, b: seq<u64>)
    requires Placeable(p, live) && l < |p.nPerLayer|
    requires LayerPlaced(p, c, l, live, a) && LayerPlaced(p, c, l, live, b)
    ensures a == b
  {
    forall i | 0 <= i < |a| ensures a[i] == b[i] {
      PlacedUnique(p, c, l, i, live, live, a[i], b[i]);
    }
  }

  lemma PlacedUnique(p: Plan, c: u8, l: u8, idx: u32, live: seq<u64>, live': seq<u64>, a: u64, b: u64)
    requires Placeable(p, live) && Placeable(p, live') && l < |p.nPerLayer| && idx < p.nPerLayer[l]
    requires forall n :: n in live <==> n in live'
    requires Placed(p, c, l, idx, live, a) && Placed(p, c, l, idx, live', b)
    ensures a == b
  {
    hide ZoneLayout, Score, FirstLive, Winner, RoundRobinStart;
    match p.scheme
    case Rendezvous => WinnerOfSet(ShardKey(p.objectId, c, l, idx), live, live', a, b);
    case RoundRobin => FirstLiveUnique(RoundRobinStart(ShardKey(p.objectId, c, l, idx), p.nodes), p.nodes, live, live', a, b);
    case RendezvousZoneAware =>
      var x :| IsLayout(p, c, l, live, x) && x[idx] == a;
      var y :| IsLayout(p, c, l, live', y) && y[idx] == b;
      assert ZonesOf(live, p.zones) == ZonesOf(live', p.zones);
      LayoutOfSet(p.objectId, c, l, live, live', p.zones,
        CeilDiv(p.nPerLayer[l], |ZonesOf(live, p.zones)|), x, y, p.nPerLayer[l]);
      assert x[..|x|] == x && y[..|y|] == y;
  }

  lemma FirstLiveUnique(start: nat, total: nat, live: seq<u64>, live': seq<u64>, a: u64, b: u64)
    requires total > 0 && (forall n :: n in live <==> n in live')
    requires FirstLive(start, total, live, a) && FirstLive(start, total, live', b)
    ensures a == b
  {
    hide Step;
    var i: nat :| a == Step(start, i, total) && NoneBefore(start, total, live, i);
    var j: nat :| b == Step(start, j, total) && NoneBefore(start, total, live', j);
  }

  datatype ZoneFailure = ZoneFailure(zone: nat, nodesInZone: nat, resolution: Option<nat>)

  /** Layers 0 .. m - 1 survive the loss of the zone and layer m, if there is one, does not. */
  ghost predicate SurvivingPrefix(p: Plan, live: seq<u64>, zone: nat, m: nat)
    requires Placeable(p, live)
  {
    && m <= |p.nPerLayer|
    && (forall l :: 0 <= l < m ==> LayerSurvives(p, live, l, zone))
    && (m < |p.nPerLayer| ==> !LayerSurvives(p, live, m, zone))
  }

  method LayerOk(p: Plan, live: seq<u64>, l: u8, zone: nat) returns (ok: bool)
    requires Placeable(p, live) && l < |p.nPerLayer| && InZones(live, p.zones)
    ensures ok <==> LayerSurvives(p, live, l, zone)
  {
    hide LayerPlaced;
    for c := 0 to p.channels
      invariant forall c': u8, nodes :: (c' < c && LayerPlaced(p, c', l, live, nodes) && InZones(nodes, p.zones)
        ==> |nodes| - CountIn(nodes, p.zones, zone) >= p.k)
    {
      var nodes := BuildLayer(p, c, l, live);
      LayerInZones(p, c, l, live, nodes);
      var alive := CountAlive(nodes, p.zones, zone);
      forall other | LayerPlaced(p, c, l, live, other) ensures other == nodes {
        LayerUnique(p, c, l, live, other, nodes);
      }
      if alive < p.k {
        return false;
      }
    }
    ok := true;
  }

  lemma LayerInZones(p: Plan, c: u8, l: u8, live: seq<u64>, nodes: seq<u64>)
    requires Placeable(p, live) && l < |p.nPerLayer| && LayerPlaced(p, c, l, live, nodes) && InZones(live, p.zones)
    ensures InZones(nodes, p.zones)
  {
    hide Placed;
    forall i | 0 <= i < |nodes| ensures nodes[i] < |p.zones| { assert nodes[i] in live; }
  }

  /** How many layers a resolution covers. */
  function Covered(resolution: Option<nat>): nat {
    if resolution.None? then 0 else resolution.value + 1
  }

  /** One entry of simulate_zone_failures. */
  method ZoneResolution(p: Plan, live: seq<u64>, zone: nat) returns (resolution: Option<nat>)
    requires Placeable(p, live) && InZones(live, p.zones)
    ensures SurvivingPrefix(p, live, zone, Covered(resolution))
  {
    hide LayerSurvives;
    resolution := None;
    for l := 0 to |p.nPerLayer|
      invariant Covered(resolution) == l && (forall i :: 0 <= i < l ==> LayerSurvives(p, live, i, zone))
    {
      var ok := LayerOk(p, live, l, zone);
      if !ok {
        return;
      }
      resolution := Some(l);
    }
  }

  /** The forecast for a zone is at least the longest prefix of layers in which
      n - ceil(n / z) shards are still enough. */
  lemma ForecastLowerBound(p: Plan, live: seq<u64>, zone: nat, resolution: Option<nat>, safe: nat)
    requires Placeable(p, live) && p.scheme.RendezvousZoneAware? && ZonesOf(live, p.zones) != {}
    requires SurvivingPrefix(p, live, zone, Covered(resolution)) && safe <= |p.nPerLayer|
    requires forall l :: 0 <= l < safe ==>
      p.nPerLayer[l] - CeilDiv(p.nPerLayer[l], |ZonesOf(live, p.zones)|) >= p.k
    ensures safe > 0 ==> resolution.Some? && resolution.value >= safe - 1
  {
    hide LayerSurvives;
    if Covered(resolution) < safe {
      ZoneLossSurvivable(p, live, Covered(resolution), zone);
    }
  }

  function ZoneIds(zones: Zones): set<nat> {
    set z | z in zones
  }

  /** simulate_zone_failures: one forecast for each zone of the cluster, in increasing order; none
      for a single zone. */
  method SimulateZoneFailures(p: Plan, live: seq<u64>) returns (out: seq<ZoneFailure>)
    requires Placeable(p, live) && InZones(live, p.zones)
    ensures forall i :: 0 <= i < |out| ==> SurvivingPrefix(p, live, out[i].zone, Covered(out[i].resolution))
    ensures |ZoneIds(p.zones)| <= 1 ==> out == []
    ensures |ZoneIds(p.zones)| > 1 ==> forall z :: z in p.zones ==> exists i :: 0 <= i < |out| && out[i].zone == z
    ensures forall i :: 0 <= i < |out| ==> out[i].zone in p.zones
    ensures forall i, j :: 0 <= i < j < |out| ==> out[i].zone < out[j].zone
    ensures forall i :: 0 <= i < |out| ==> out[i].nodesInZone == CountZone(p.zones, out[i].zone)
  {
    hide Forecasts, ZoneIds;
    out := [];
    ZoneIdsAre(p.zones);
    var unique := ZoneIds(p.zones);
    if |unique| <= 1 {
      return;
    }
    var todo := unique;
    while todo != {}
      invariant todo <= unique
      invariant forall i :: 0 <= i < |out| ==> Forecasts(p, live, out[i])
      invariant forall z :: z in unique && z !in todo ==> z in Reported(out)
      invariant forall i, z :: 0 <= i < |out| && z in todo ==> out[i].zone < z
      invariant forall i, j :: 0 <= i < j < |out| ==> out[i].zone < out[j].zone
      decreases todo
    {
      var z := Smallest(todo);
      var resolution := ZoneResolution(p, live, z);
      var f := ZoneFailure(z, CountZone(p.zones, z), resolution);
      assert Forecasts(p, live, f) by { IsForecast(p, live, f); }
      OneMoreReport(out, f);
      out := out + [f];
      todo := todo - {z};
    }
    ForecastsMean(p, live, out);
  }

  ghost predicate Forecasts(p: Plan, live: seq<u64>, f: ZoneFailure)
    requires Placeable(p, live) && InZones(live, p.zones)
  {
    SurvivingPrefix(p, live, f.zone, Covered(f.resolution)) && f.zone in p.zones && f.nodesInZone == CountZone(p.zones, f.zone)
  }

  ghost function Reported(out: seq<ZoneFailure>): set<nat> { set f | f in out :: f.zone }

  lemma IsForecast(p: Plan, live: seq<u64>, f: ZoneFailure)
    requires Placeable(p, live) && InZones(live, p.zones) && f.zone in p.zones
    requires SurvivingPrefix(p, live, f.zone, Covered(f.resolution)) && f.nodesInZone == CountZone(p.zones, f.zone)
    ensures Forecasts(p, live, f)
  {}

  lemma OneMoreReport(out: seq<ZoneFailure>, f: ZoneFailure)
    ensures Reported(out + [f]) == Reported(out) + {f.zone}
  {
    assert f in out + [f];
  }

  lemma ForecastsMean(p: Plan, live: seq<u64>, out: seq<ZoneFailure>)
    requires Placeable(p, live) && InZones(live, p.zones) && forall i :: 0 <= i < |out| ==> Forecasts(p, live, out[i])
    ensures forall i :: 0 <= i < |out| ==> SurvivingPrefix(p, live, out[i].zone, Covered(out[i].resolution))
    ensures forall i :: 0 <= i < |out| ==> out[i].zone in p.zones
    ensures forall i :: 0 <= i < |out| ==> out[i].nodesInZone == CountZone(p.zones, out[i].zone)
    ensures forall z :: z in Reported(out) ==> exists i :: 0 <= i < |out| && out[i].zone == z
  {
    hide SurvivingPrefix, CountZone, Covered;
    forall z | z in Reported(out) ensures exists i :: 0 <= i < |out| && out[i].zone == z {
      var f :| f in out && f.zone == z;
      var i :| 0 <= i < |out| && out[i] == f;
    }
  }

  lemma ZoneIdsAre(zones: Zones)
    ensures forall z :: z in ZoneIds(zones) <==> z in zones
  {}

  /** Nodes of the zone, dead ones included. */
  function CountZone(zones: Zones, z: nat): nat {
    if zones == [] then 0 else CountZone(zones[..|zones| - 1], z) + (if zones[|zones| - 1] == z then 1 else 0)
  }

  /** Zones are visited in increasing order. */
  function Smallest(s: set<nat>): (z: nat)
    requires s != {}
    ensures z in s && forall x :: x in s ==> z <= x
  {
    SmallestExists(s);
    var z :| IsLeast(s, z);
    z
  }

  lemma {:induction false} SmallestExists(s: set<nat>)
    requires s != {}
    ensures exists z :: IsLeast(s, z)
  {
    var y :| y in s;
    var rest := s - {y};
    if rest == {} {
      assert s == {y} && IsLeast(s, y);
    } else {
      SmallestExists(rest);
      var z :| IsLeast(rest, z);
      var least := if y < z then y else z;
      forall x | x in s ensures least <= x {
        if x != y { assert x in rest; }
      }
      assert IsLeast(s, least);
    }
  }

  predicate IsLeast(s: set<nat>, z: nat) {
    z in s && forall x :: x in s ==> z <= x
  }

  // ---- Current resolution ---------------------------------------------------------------------

  datatype LayerStats = LayerStats(channel: u8, layer: u8, margin: int)

  /** The first entry for the pair says the layer can be decoded; no entry means it cannot. */
  predicate Decodable(stats: seq<LayerStats>, c: nat, l: nat) {
    stats != [] &&
    if stats[0].channel == c && stats[0].layer == l then stats[0].margin >= 0 else Decodable(stats[1..], c, l)
  }

  ghost predicate DecodableEverywhere(stats: seq<LayerStats>, channels: u8, l: nat) {
    forall c :: 0 <= c < channels ==> Decodable(stats, c, l)
  }

  method FindDecodable(stats: seq<LayerStats>, c: nat, l: nat) returns (ok: bool)
    ensures ok == Decodable(stats, c, l)
  {
    for i := 0 to |stats|
      invariant Decodable(stats, c, l) == Decodable(stats[i..], c, l)
    {
      assert stats[i..][1..] == stats[i + 1..];
      if stats[i].channel == c && stats[i].layer == l {
        return stats[i].margin >= 0;
      }
    }
    ok := false;
  }

  /** current_resolution: the last layer up to which every layer decodes in every channel. */
  method CurrentResolution(stats: seq<LayerStats>, channels: u8, nlayers: u8) returns (max: Option<nat>)
    ensures var m := if max.None? then 0 else max.value + 1;
      m <= nlayers && (forall l :: 0 <= l < m ==> DecodableEverywhere(stats, channels, l))
      && (m < nlayers ==> !DecodableEverywhere(stats, channels, m))
  {
    hide Decodable;
    max := None;
    for l := 0 to nlayers
      invariant l == if max.None? then 0 else max.value + 1
      invariant forall m :: 0 <= m < l ==> DecodableEverywhere(stats, channels, m)
    {
      var allOk := true;
      for c := 0 to channels
        invariant allOk && forall d :: 0 <= d < c ==> Decodable(stats, d, l)
      {
        var ok := FindDecodable(stats, c, l);
        if !ok {
          allOk := false;
          break;
        }
      }
      if allOk {
        max := Some(l);
      } else {
        break;
      }
    }
  }
}
