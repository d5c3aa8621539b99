/** Node regeneration by mixing donor shards (crates/holofs-core/src/repair.rs). Nothing is
    decoded: fresh shards are random combinations of survivors, so a layer can neither lose
    nor gain information. */
module Repair {
  import opened Field
  import opened LinAlg
  import opened Elimination
  import opened GfTables
  import opened ReducedSystem
  import opened Decoder
  import opened Encoder

  function Payloads(shards: seq<Shard>): (vs: seq<Vec>)
    ensures |vs| == |shards|
  {
    seq(|shards|, r requires 0 <= r < |shards| => shards[r].payload)
  }

  lemma CoeffsMatrix(shards: seq<Shard>, k: nat, sl: nat)
    requires AllWellFormed(shards, k, sl)
    ensures Matrix(Coeffs(shards), k) && Matrix(Payloads(shards), sl)
  {}

  /** The combination of the donors with weights alpha; the first donor when it comes out zero. */
  function Mixed(donors: seq<Shard>, alpha: Vec, k: nat, sl: nat): (s: Shard)
    requires |donors| >= 1 && |alpha| == |donors|
    requires Matrix(Coeffs(donors), k) && Matrix(Payloads(donors), sl)
  {
    var c := Combo(alpha, Coeffs(donors), k);
    if c == Zero(k) then donors[0] else Shard(c, Combo(alpha, Payloads(donors), sl))
  }

  /** s is the mix of the donors with weights alpha, byte by byte; when every coefficient of the mix is
      zero, the first donor stands in for it. */
  ghost predicate IsMix(s: Shard, alpha: Vec, donors: seq<Shard>, k: nat, sl: nat)
    requires Matrix(Coeffs(donors), k) && Matrix(Payloads(donors), sl)
  {
    && donors != [] && |alpha| == |donors|
    && if forall j :: 0 <= j < k ==> Dot(alpha, Column(Coeffs(donors), j)) == 0 then s == donors[0]
       else
         && WellFormed(s, k, sl)
         && (forall j :: 0 <= j < k ==> s.coeffs[j] == Dot(alpha, Column(Coeffs(donors), j)))
         && (forall b :: 0 <= b < sl ==> s.payload[b] == Dot(alpha, Column(Payloads(donors), b)))
  }

  lemma ComboByte(alpha: Vec, vs: seq<Vec>, n: nat, j: nat)
    requires |alpha| == |vs| && Matrix(vs, n) && j < n
    ensures Combo(alpha, vs, n)[j] == Dot(alpha, Column(vs, j))
  {
    ComboNAt(alpha, vs, |alpha|, n, j);
    DotIsDotN(alpha, Column(vs, j));
  }

  lemma MixedBytes(donors: seq<Shard>, alpha: Vec, k: nat, sl: nat)
    requires |donors| >= 1 && |alpha| == |donors|
    requires Matrix(Coeffs(donors), k) && Matrix(Payloads(donors), sl)
    ensures IsMix(Mixed(donors, alpha, k, sl), alpha, donors, k, sl)
  {
    hide Combo, Dot;
    var c := Combo(alpha, Coeffs(donors), k);
    forall j | 0 <= j < k ensures c[j] == Dot(alpha, Column(Coeffs(donors), j)) { ComboByte(alpha, Coeffs(donors), k, j); }
    forall b | 0 <= b < sl ensures Combo(alpha, Payloads(donors), sl)[b] == Dot(alpha, Column(Payloads(donors), b)) {
      ComboByte(alpha, Payloads(donors), sl, b);
    }
    if forall j :: 0 <= j < k ==> Dot(alpha, Column(Coeffs(donors), j)) == 0 {
      assert c == Zero(k);
    }
  }

  /** Weight 1 on one donor and 0 on the others gives that donor. */
  lemma MixPicks(s: Shard, donors: seq<Shard>, i: nat, k: nat, sl: nat)
    requires AllWellFormed(donors, k, sl) && i < |donors| && donors[i].coeffs != Zero(k)
    requires Matrix(Coeffs(donors), k) && Matrix(Payloads(donors), sl)
    requires IsMix(s, Unit(|donors|, i), donors, k, sl)
    ensures s == donors[i]
  {
    hide Dot;
    var alpha := Unit(|donors|, i);
    forall j | 0 <= j < k ensures Dot(alpha, Column(Coeffs(donors), j)) == donors[i].coeffs[j] {
      DotUnit(Column(Coeffs(donors), j), i);
    }
    forall b | 0 <= b < sl ensures Dot(alpha, Column(Payloads(donors), b)) == donors[i].payload[b] {
      DotUnit(Column(Payloads(donors), b), i);
    }
    var j := NonzeroEntry(donors[i].coeffs);
    assert Dot(alpha, Column(Coeffs(donors), j)) != 0;
    assert s.coeffs == donors[i].coeffs && s.payload == donors[i].payload;
  }

  /** mix_donors: `need` fresh shards, each with its own weights drawn from the stream. */
  method MixDonors(gf: Gf, donors: seq<Shard>, k: nat, ghost sl: nat, need: nat, rng: Rng)
    returns (out: seq<Shard>, ghost draws: seq<Vec>)
    requires gf.Valid() && rng !in gf.Tables()
    requires AllWellFormed(donors, k, sl)
    modifies rng
    ensures gf.Valid()
    ensures |out| == |draws| == if donors == [] then 0 else need
    ensures Matrix(draws, |donors|) && Matrix(Coeffs(donors), k) && Matrix(Payloads(donors), sl)
    ensures forall i :: 0 <= i < |out| ==> out[i] == Mixed(donors, draws[i], k, sl)
    ensures forall i :: 0 <= i < |out| ==> IsMix(out[i], draws[i], donors, k, sl)
    ensures rng.drawn == old(rng.drawn) + Flatten(draws)
  {
    hide Mixed, Flatten, IsMix;
    CoeffsMatrix(donors, k, sl);
    FlattenSnoc([], []);
    out := [];
    draws := [];
    if donors == [] || need == 0 {
      return;
    }
    var slen := |donors[0].payload|;
    for i := 0 to need
      invariant |out| == |draws| == i && Matrix(draws, |donors|) && gf.Valid()
      invariant forall j :: 0 <= j < i ==> out[j] == Mixed(donors, draws[j], k, sl)
      invariant forall j :: 0 <= j < i ==> IsMix(out[j], draws[j], donors, k, sl)
      invariant rng.drawn == old(rng.drawn) + Flatten(draws)
    {
      var s;
      ghost var alpha;
      s, alpha := MixOne(gf, donors, k, slen, rng);
      FlattenSnoc(draws, alpha);
      MixedBytes(donors, alpha, k, sl);
      out := out + [s];
      draws := draws + [alpha];
    }
  }

  method MixOne(gf: Gf, donors: seq<Shard>, k: nat, sl: nat, rng: Rng) returns (s: Shard, ghost alpha: Vec)
    requires gf.Valid() && rng !in gf.Tables() && |donors| >= 1 && AllWellFormed(donors, k, sl)
    requires Matrix(Coeffs(donors), k) && Matrix(Payloads(donors), sl)
    modifies rng
    ensures gf.Valid() && |alpha| == |donors| && s == Mixed(donors, alpha, k, sl)
    ensures rng.drawn == old(rng.drawn) + alpha
  {
    hide AddScaled;
    var nc, np := Zero(k), Zero(sl);
    alpha := [];
    ghost var cs, ps := Coeffs(donors), Payloads(donors);
    for i := 0 to |donors|
      invariant |alpha| == i && rng.drawn == old(rng.drawn) + alpha && gf.Valid()
      invariant nc == ComboN(alpha, cs, i, k) && np == ComboN(alpha, ps, i, sl)
    {
      var a := rng.Byte();
      ComboNExt(alpha, alpha + [a], cs, cs, i, k);
      ComboNExt(alpha, alpha + [a], ps, ps, i, sl);
      AddZeroScaled(nc, cs[i]); AddZeroScaled(np, ps[i]);
      alpha := alpha + [a];
      if a != 0 {
        nc := XorScaledRow(gf, nc, a, donors[i].coeffs);
        np := XorScaledRow(gf, np, a, donors[i].payload);
      }
    }
    var zero := AllZero(nc);
    s := if zero then donors[0] else Shard(nc, np);
  }

  method AllZero(v: Vec) returns (zero: bool)
    ensures zero <==> v == Zero(|v|)
  {
    for i := 0 to |v|
      invariant forall j :: 0 <= j < i ==> v[j] == 0
    {
      if v[i] != 0 {
        return false;
      }
    }
    zero := true;
  }

  // ---- What mixing keeps ----------------------------------------------------------------

  lemma MemberInSpan(vs: seq<Vec>, n: nat, i: nat)
    requires Matrix(vs, n) && i < |vs|
    ensures InSpan(vs[i], vs)
  {
    hide Dot;
    SpanIsDoubleKernel(vs[i], vs);
  }

  /** A mixed shard adds nothing to the span of its donors. */
  lemma MixedInSpan(donors: seq<Shard>, alpha: Vec, k: nat, sl: nat)
    requires |donors| >= 1 && |alpha| == |donors| && AllWellFormed(donors, k, sl)
    requires Matrix(Coeffs(donors), k) && Matrix(Payloads(donors), sl)
    ensures WellFormed(Mixed(donors, alpha, k, sl), k, sl)
    ensures InSpan(Mixed(donors, alpha, k, sl).coeffs, Coeffs(donors))
  {
    hide Combo;
    MemberInSpan(Coeffs(donors), k, 0);
    assert Coeffs(donors)[0] == donors[0].coeffs;
  }

  /** Dot product with a combination, term by term. */
  lemma {:induction false} ComboDot(c: Vec, vs: seq<Vec>, n: nat, z: Vec, dots: Vec)
    requires n <= |c| && n <= |vs| && n <= |dots| && Matrix(vs, |z|)
    requires forall r :: 0 <= r < n ==> dots[r] == Dot(vs[r], z)
    ensures Dot(ComboN(c, vs, n, |z|), z) == DotN(c, dots, n)
  {
    hide Add, Mul, Dot;
    if n == 0 {
      DotWithZero(z);
    } else {
      ComboDot(c, vs, n - 1, z, dots);
      DotAddScaled(ComboN(c, vs, n - 1, |z|), c[n - 1], vs[n - 1], z);
    }
  }

  /** Mixing consistent shards gives a consistent shard. */
  lemma MixedConsistent(donors: seq<Shard>, alpha: Vec, chunks: seq<Vec>, sl: nat)
    requires |donors| >= 1 && |alpha| == |donors| && Matrix(chunks, sl) && AllConsistent(donors, chunks, sl)
    requires Matrix(Coeffs(donors), |chunks|) && Matrix(Payloads(donors), sl)
    ensures Consistent(Mixed(donors, alpha, |chunks|, sl), chunks, sl)
  {
    hide Dot, Add, Mul;
    var k := |chunks|;
    var cs, ps := Coeffs(donors), Payloads(donors);
    var c, p := Combo(alpha, cs, k), Combo(alpha, ps, sl);
    assert Consistent(donors[0], chunks, sl);
    forall j | 0 <= j < sl ensures p[j] == Combo(c, chunks, sl)[j] {
      var x := Column(chunks, j);
      ComboNAt(alpha, ps, |alpha|, sl, j);
      ComboNAt(c, chunks, k, sl, j);
      DotIsDotN(c, x);
      forall r | 0 <= r < |donors| ensures Column(ps, j)[r] == Dot(cs[r], x) {
        assert Consistent(donors[r], chunks, sl);
        ConsistentByte(donors[r], chunks, sl, j);
      }
      ComboDot(alpha, cs, |alpha|, x, Column(ps, j));
    }
  }

  // ---- The pool -----------------------------------------------------------------------------

  const CHANNELS: nat := 3
  const NLAYERS: nat := 4

  datatype ShardRec = ShardRec(node: nat, channel: nat, layer: nat, shard: Shard)

  function Survivors(all: seq<ShardRec>, node: nat): (out: seq<ShardRec>)
    ensures forall r :: r in out <==> r in all && r.node != node
  {
    if all == [] then []
    else if all[|all| - 1].node != node then Survivors(all[..|all| - 1], node) + [all[|all| - 1]]
    else Survivors(all[..|all| - 1], node)
  }

  /** The shards of one (channel, layer), in pool order. */
  function LayerOf(all: seq<ShardRec>, c: nat, l: nat): (out: seq<Shard>)
  {
    if all == [] then []
    else
      var r := all[|all| - 1];
      if r.channel == c && r.layer == l then LayerOf(all[..|all| - 1], c, l) + [r.shard]
      else LayerOf(all[..|all| - 1], c, l)
  }

  lemma {:induction false} LayerOfConcat(a: seq<ShardRec>, b: seq<ShardRec>, c: nat, l: nat)
    ensures LayerOf(a + b, c, l) == LayerOf(a, c, l) + LayerOf(b, c, l)
    decreases |b|
  {
    if b == [] {
      assert a + b == a;
    } else {
      var m := |b| - 1;
      LayerOfConcat(a, b[..m], c, l);
      assert (a + b)[..|a + b| - 1] == a + b[..m];
    }
  }

  ghost predicate Holds(all: seq<ShardRec>, c: nat, l: nat, s: Shard) {
    exists i :: 0 <= i < |all| && all[i].channel == c && all[i].layer == l && all[i].shard == s
  }

  lemma {:induction false} LayerOfMembers(all: seq<ShardRec>, c: nat, l: nat)
    ensures forall s :: s in LayerOf(all, c, l) <==> Holds(all, c, l, s)
  {
    if all == [] {
    } else {
      var m := |all| - 1;
      LayerOfMembers(all[..m], c, l);
      forall s
        ensures Holds(all, c, l, s)
          <==> (Holds(all[..m], c, l, s) || (all[m].channel == c && all[m].layer == l && all[m].shard == s))
      {
        if i :| 0 <= i < m && all[i].channel == c && all[i].layer == l && all[i].shard == s {
          assert all[..m][i] == all[i];
        }
      }
    }
  }

  /** Records of the fresh shards of one layer. */
  function Records(node: nat, c: nat, l: nat, shards: seq<Shard>): (out: seq<ShardRec>)
    ensures |out| == |shards|
  {
    seq(|shards|, i requires 0 <= i < |shards| => ShardRec(node, c, l, shards[i]))
  }

  lemma {:induction false} LayerOfRecords(node: nat, c: nat, l: nat, shards: seq<Shard>, c': nat, l': nat)
    ensures LayerOf(Records(node, c, l, shards), c', l') == if c == c' && l == l' then shards else []
    decreases |shards|
  {
    if shards == [] {
    } else {
      var m := |shards| - 1;
      LayerOfRecords(node, c, l, shards[..m], c', l');
      assert Records(node, c, l, shards)[..m] == Records(node, c, l, shards[..m]);
    }
  }

  function Min(a: nat, b: nat): nat { if a <= b then a else b }

  /** `after` is `before` refilled to n shards by mixing the first d of them. */
  ghost predicate Refilled(before: seq<Shard>, after: seq<Shard>, n: nat, d: nat, k: nat, sl: nat) {
    && AllWellFormed(before, k, sl)
    && before <= after
    && |after| == (if d == 0 || before == [] || n <= |before| then |before| else n)
    && forall i :: |before| <= i < |after| ==> IsMixOf(after[i], before[..Min(d, |before|)], k, sl)
  }

  ghost predicate IsMixOf(s: Shard, donors: seq<Shard>, k: nat, sl: nat) {
    && |donors| >= 1 && Matrix(Coeffs(donors), k) && Matrix(Payloads(donors), sl)
    && exists alpha: Vec :: |alpha| == |donors| && s == Mixed(donors, alpha, k, sl)
  }

  /** One call of regenerate_node on the pool. */
  ghost predicate Regenerated(before: seq<ShardRec>, after: seq<ShardRec>, node: nat,
                              n: seq<nat>, d: nat, k: nat, sl: seq<nat>)
    requires |n| == |sl| == NLAYERS
  {
    && Survivors(before, node) <= after
    && (forall i :: |Survivors(before, node)| <= i < |after| ==> after[i].node == node)
    && (forall c, l :: 0 <= c < CHANNELS && 0 <= l < NLAYERS ==>
          Refilled(LayerOf(Survivors(before, node), c, l), LayerOf(after, c, l), n[l], d, k, sl[l]))
  }

  ghost predicate PoolWellFormed(all: seq<ShardRec>, k: nat, sl: seq<nat>)
    requires |sl| == NLAYERS
  {
    forall r :: r in all ==> r.channel < CHANNELS && r.layer < NLAYERS && WellFormed(r.shard, k, sl[r.layer])
  }

  /** Progress of the double loop: pairs before (c, l) are refilled, the others untouched. */
  ghost predicate RefilledUpTo(base: seq<ShardRec>, all: seq<ShardRec>, c: nat, l: nat,
                               n: seq<nat>, d: nat, k: nat, sl: seq<nat>)
    requires |n| == |sl| == NLAYERS
  {
    forall c', l' :: 0 <= c' < CHANNELS && 0 <= l' < NLAYERS ==>
      if c' < c || (c' == c && l' < l)
      then Refilled(LayerOf(base, c', l'), LayerOf(all, c', l'), n[l'], d, k, sl[l'])
      else LayerOf(all, c', l') == LayerOf(base, c', l')
  }

  datatype RepairStats = RepairStats(
    bytesDownloaded: nat, bytesBaselineFull: nat, gfMulsRepair: nat, gfMulsBaseline: nat,
    shardsGenerated: nat, layersRepaired: nat, layersUnrecoverable: nat)

  const NO_STATS := RepairStats(0, 0, 0, 0, 0, 0, 0)

  function SumStats(a: RepairStats, b: RepairStats): RepairStats {
    RepairStats(a.bytesDownloaded + b.bytesDownloaded, a.bytesBaselineFull + b.bytesBaselineFull,
      a.gfMulsRepair + b.gfMulsRepair, a.gfMulsBaseline + b.gfMulsBaseline,
      a.shardsGenerated + b.shardsGenerated, a.layersRepaired + b.layersRepaired,
      a.layersUnrecoverable + b.layersUnrecoverable)
  }

  /** The record holds the mix, with weights alpha, of the first d shards that base has of its layer. */
  ghost predicate MixedFrom(r: ShardRec, alpha: Vec, base: seq<ShardRec>, d: nat, k: nat, sl: nat) {
    var layer := LayerOf(base, r.channel, r.layer);
    var donors := layer[..Min(d, |layer|)];
    Matrix(Coeffs(donors), k) && Matrix(Payloads(donors), sl) && IsMix(r.shard, alpha, donors, k, sl)
  }

  /** Every record after the base is such a mix, each with the next weights. */
  ghost predicate AllMixed(base: seq<ShardRec>, all: seq<ShardRec>, weights: seq<Vec>, d: nat, k: nat, sl: seq<nat>) {
    && |all| == |base| + |weights|
    && forall i :: 0 <= i < |weights| ==> MixedAt(all[|base| + i], weights[i], base, d, k, sl)
  }

  ghost predicate MixedAt(r: ShardRec, alpha: Vec, base: seq<ShardRec>, d: nat, k: nat, sl: seq<nat>) {
    r.layer < |sl| && MixedFrom(r, alpha, base, d, k, sl[r.layer])
  }

  /** The records added to one layer are such mixes. */
  ghost predicate LayerMixed(before: seq<ShardRec>, after: seq<ShardRec>, weights: seq<Vec>, c: nat, l: nat, d: nat, k: nat, sl: nat) {
    && |after| == |before| + |weights|
    && forall i :: 0 <= i < |weights| ==>
         after[|before| + i].channel == c && after[|before| + i].layer == l
         && MixedFrom(after[|before| + i], weights[i], before, d, k, sl)
  }

  lemma {:induction false} FlattenConcat(a: seq<Vec>, b: seq<Vec>)
    ensures Flatten(a + b) == Flatten(a) + Flatten(b)
  {
    if b == [] {
      assert a + b == a;
    } else {
      var m := |b| - 1;
      FlattenConcat(a, b[..m]);
      FlattenSnoc(a + b[..m], b[m]);
      FlattenSnoc(b[..m], b[m]);
      assert a + b == (a + b[..m]) + [b[m]] && b == b[..m] + [b[m]];
    }
  }

  lemma MoreMixed(base: seq<ShardRec>, before: seq<ShardRec>, after: seq<ShardRec>, weights: seq<Vec>, more: seq<Vec>,
                  c: nat, l: nat, d: nat, k: nat, sl: seq<nat>)
    requires base <= before <= after && AllMixed(base, before, weights, d, k, sl) && l < |sl|
    requires LayerMixed(before, after, more, c, l, d, k, sl[l]) && LayerOf(before, c, l) == LayerOf(base, c, l)
    ensures AllMixed(base, after, weights + more, d, k, sl)
  {
    hide IsMix, LayerOf;
    var all := weights + more;
    forall i | 0 <= i < |all| ensures MixedAt(after[|base| + i], all[i], base, d, k, sl) {
      var r := after[|base| + i];
      if i < |weights| {
        assert all[i] == weights[i] && r == before[|base| + i];
        assert MixedAt(r, weights[i], base, d, k, sl);
      } else {
        var m := i - |weights|;
        assert all[i] == more[m] && r == after[|before| + m];
        assert MixedFrom(r, more[m], before, d, k, sl[l]);
      }
    }
  }

  /** What a layer with `count` survivors out of n adds to the statistics. */
  function LayerStats(count: nat, sl: nat, n: nat, d: nat, k: nat): RepairStats {
    if n <= count then NO_STATS
    else if count == 0 then NO_STATS.(layersUnrecoverable := 1)
    else
      var take, need := Min(d, count), n - count;
      RepairStats(Traffic(take, k, sl), Traffic(Min(k, count), k, sl), MixCost(need, take, k, sl), RebuildCost(need, k, sl),
        if take == 0 then 0 else need, 1, 0)
  }

  function Traffic(shards: nat, k: nat, sl: nat): nat { shards * (k + sl) }

  function MixCost(need: nat, take: nat, k: nat, sl: nat): nat { need * (take * (sl + k)) }

  function RebuildCost(need: nat, k: nat, sl: nat): nat { k * (k + 1) * (sl + k) + need * k * sl }

  /** The sum over the layers before (c, l) in the order of the double loop. */
  function StatsUpTo(base: seq<ShardRec>, c: nat, l: nat, n: seq<nat>, d: nat, k: nat, sl: seq<nat>): RepairStats
    requires |n| == |sl| == NLAYERS && l <= NLAYERS
    decreases c, l
  {
    if l > 0 then SumStats(StatsUpTo(base, c, l - 1, n, d, k, sl), LayerStats(|LayerOf(base, c, l - 1)|, sl[l - 1], n[l - 1], d, k))
    else if c > 0 then StatsUpTo(base, c - 1, NLAYERS, n, d, k, sl)
    else NO_STATS
  }

  /** With at most k donors a layer, repair never downloads more than rebuilding every layer would. */
  lemma {:induction false} TrafficAtMostRebuild(base: seq<ShardRec>, c: nat, l: nat, n: seq<nat>, d: nat, k: nat, sl: seq<nat>)
    requires |n| == |sl| == NLAYERS && l <= NLAYERS && d <= k
    ensures StatsUpTo(base, c, l, n, d, k, sl).bytesDownloaded <= StatsUpTo(base, c, l, n, d, k, sl).bytesBaselineFull
    decreases c, l
  {
    hide LayerStats, LayerOf;
    if l > 0 {
      TrafficAtMostRebuild(base, c, l - 1, n, d, k, sl);
      LayerTraffic(|LayerOf(base, c, l - 1)|, sl[l - 1], n[l - 1], d, k);
    } else if c > 0 {
      TrafficAtMostRebuild(base, c - 1, NLAYERS, n, d, k, sl);
    } else {
    }
  }

  lemma LayerTraffic(count: nat, sl: nat, n: nat, d: nat, k: nat)
    requires d <= k
    ensures LayerStats(count, sl, n, d, k).bytesDownloaded <= LayerStats(count, sl, n, d, k).bytesBaselineFull
  {
    hide Traffic, MixCost, RebuildCost;
    if 0 < count < n {
      MoreTraffic(Min(d, count), Min(k, count), k, sl);
    }
  }

  lemma MoreTraffic(a: nat, b: nat, k: nat, sl: nat)
    requires a <= b
    ensures Traffic(a, k, sl) <= Traffic(b, k, sl)
  {
    assert (b - a) * (k + sl) >= 0;
  }

  lemma StatsStep(base: seq<ShardRec>, c: nat, l: nat, n: seq<nat>, d: nat, k: nat, sl: seq<nat>)
    requires |n| == |sl| == NLAYERS && l < NLAYERS
    ensures StatsUpTo(base, 0, 0, n, d, k, sl) == NO_STATS
    ensures StatsUpTo(base, c, l + 1, n, d, k, sl)
         == SumStats(StatsUpTo(base, c, l, n, d, k, sl), LayerStats(|LayerOf(base, c, l)|, sl[l], n[l], d, k))
    ensures StatsUpTo(base, c + 1, 0, n, d, k, sl) == StatsUpTo(base, c, NLAYERS, n, d, k, sl)
  {
    hide LayerStats, SumStats, LayerOf;
  }

  class Pool {
    var all: seq<ShardRec>

    constructor (records: seq<ShardRec>)
      ensures all == records
    {
      all := records;
    }

    method RetainOthers(node: nat)
      modifies this
      ensures all == Survivors(old(all), node)
    {
      var kept: seq<ShardRec> := [];
      assert all[..|all|] == all;
      for i := 0 to |all|
        invariant all == old(all) && kept == Survivors(all[..i], node)
      {
        assert all[..i + 1][..i] == all[..i];
        if all[i].node != node {
          kept := kept + [all[i]];
        }
      }
      all := kept;
    }

    /** The shards of one (channel, layer): donors, and the live count. */
    method Collect(c: nat, l: nat) returns (shards: seq<Shard>)
      ensures shards == LayerOf(all, c, l)
    {
      shards := [];
      assert all[..|all|] == all;
      for i := 0 to |all|
        invariant shards == LayerOf(all[..i], c, l)
      {
        assert all[..i + 1][..i] == all[..i];
        if all[i].channel == c && all[i].layer == l {
          shards := shards + [all[i].shard];
        }
      }
    }

    /** regenerate_node: drop what the node held, then refill every (channel, layer). */
    method RegenerateNode(gf: Gf, node: nat, sl: seq<nat>, n: seq<nat>, d: nat, k: nat, rng: Rng)
      returns (stats: RepairStats, ghost weights: seq<Vec>)
      requires gf.Valid() && rng !in gf.Tables() && this !in gf.Tables() && this as object != rng
      requires |n| == |sl| == NLAYERS && PoolWellFormed(all, k, sl)
      modifies this, rng
      ensures gf.Valid() && Regenerated(old(all), all, node, n, d, k, sl)
      ensures stats.shardsGenerated == |all| - |Survivors(old(all), node)|
      ensures stats == StatsUpTo(Survivors(old(all), node), CHANNELS, 0, n, d, k, sl)
      ensures AllMixed(Survivors(old(all), node), all, weights, d, k, sl) && rng.drawn == old(rng.drawn) + Flatten(weights)
    {
      hide LayerStats, SumStats, StatsUpTo, Refilled, LayerOf, Survivors, AllMixed, LayerMixed, Flatten;
      RetainOthers(node);
      weights := [];
      FlattenSnoc([], []);
      NoneMixed(all, d, k, sl);
      stats := NO_STATS;
      StatsStep(all, 0, 0, n, d, k, sl);
      ghost var base := all;
      for c := 0 to CHANNELS
        invariant gf.Valid() && base <= all && stats.shardsGenerated == |all| - |base|
        invariant forall i :: |base| <= i < |all| ==> all[i].node == node
        invariant RefilledUpTo(base, all, c, 0, n, d, k, sl)
        invariant stats == StatsUpTo(base, c, 0, n, d, k, sl)
        invariant AllMixed(base, all, weights, d, k, sl) && rng.drawn == old(rng.drawn) + Flatten(weights)
      {
        StatsStep(base, c, 0, n, d, k, sl);
        for l := 0 to NLAYERS
          invariant gf.Valid() && base <= all && stats.shardsGenerated == |all| - |base|
          invariant forall i :: |base| <= i < |all| ==> all[i].node == node
          invariant RefilledUpTo(base, all, c, l, n, d, k, sl)
          invariant stats == StatsUpTo(base, c, l, n, d, k, sl)
          invariant AllMixed(base, all, weights, d, k, sl) && rng.drawn == old(rng.drawn) + Flatten(weights)
        {
          LayerWellFormed(base, c, l, k, sl);
          StatsStep(base, c, l, n, d, k, sl);
          ghost var before, more := all, [];
          stats, more := RefillLayer(gf, node, c, l, sl[l], n[l], d, k, rng, stats);
          MoreMixed(base, before, all, weights, more, c, l, d, k, sl);
          FlattenConcat(weights, more);
          weights := weights + more;
        }
      }
    }

    method RefillLayer(gf: Gf, node: nat, c: nat, l: nat, sl: nat, n: nat, d: nat, k: nat, rng: Rng, stats0: RepairStats)
      returns (stats: RepairStats, ghost weights: seq<Vec>)
      requires gf.Valid() && rng !in gf.Tables() && this !in gf.Tables() && this as object != rng
      requires AllWellFormed(LayerOf(all, c, l), k, sl)
      modifies this, rng
      ensures gf.Valid() && old(all) <= all
      ensures forall i :: |old(all)| <= i < |all| ==> all[i].node == node
      ensures Refilled(LayerOf(old(all), c, l), LayerOf(all, c, l), n, d, k, sl)
      ensures forall c': nat, l': nat :: (c', l') != (c, l) ==> LayerOf(all, c', l') == LayerOf(old(all), c', l')
      ensures stats.shardsGenerated == stats0.shardsGenerated + |all| - |old(all)|
      ensures stats == SumStats(stats0, LayerStats(|LayerOf(old(all), c, l)|, sl, n, d, k))
      ensures LayerMixed(old(all), all, weights, c, l, d, k, sl) && rng.drawn == old(rng.drawn) + Flatten(weights)
    {
      hide Mixed, Traffic, MixCost, RebuildCost, LayerOf, IsMix, Flatten;
      stats := stats0;
      weights := [];
      FlattenSnoc([], []);
      var live := Collect(c, l);
      if n <= |live| {
        return;
      }
      if |live| == 0 {
        stats := stats.(layersUnrecoverable := stats.layersUnrecoverable + 1);
        return;
      }
      var take, need := Min(d, |live|), n - |live|;
      var donors := live[..take];
      stats := stats.(
        bytesDownloaded := stats.bytesDownloaded + Traffic(take, k, sl),
        bytesBaselineFull := stats.bytesBaselineFull + Traffic(Min(k, |live|), k, sl),
        gfMulsBaseline := stats.gfMulsBaseline + RebuildCost(need, k, sl),
        gfMulsRepair := stats.gfMulsRepair + MixCost(need, take, k, sl));
      var minted;
      ghost var draws;
      minted, draws := MixDonors(gf, donors, k, sl, need, rng);
      weights := draws;
      AppendFresh(all, node, c, l, minted);
      all := all + Records(node, c, l, minted);
      stats := stats.(shardsGenerated := stats.shardsGenerated + |minted|, layersRepaired := stats.layersRepaired + 1);
      RefilledBy(live, donors, minted, draws, n, d, k, sl);
    }
  }

  lemma NoneMixed(all: seq<ShardRec>, d: nat, k: nat, sl: seq<nat>)
    ensures AllMixed(all, all, [], d, k, sl)
  {}

  lemma LayerWellFormed(all: seq<ShardRec>, c: nat, l: nat, k: nat, sl: seq<nat>)
    requires |sl| == NLAYERS && PoolWellFormed(all, k, sl) && l < NLAYERS
    ensures AllWellFormed(LayerOf(all, c, l), k, sl[l])
  {
    var layer := LayerOf(all, c, l);
    LayerOfMembers(all, c, l);
    forall i | 0 <= i < |layer| ensures WellFormed(layer[i], k, sl[l]) {
      assert layer[i] in layer;
      var r :| 0 <= r < |all| && all[r].channel == c && all[r].layer == l && all[r].shard == layer[i];
      assert all[r] in all;
    }
  }

  lemma AppendFresh(all: seq<ShardRec>, node: nat, c: nat, l: nat, minted: seq<Shard>)
    ensures forall c': nat, l': nat :: (LayerOf(all + Records(node, c, l, minted), c', l')
      == if c == c' && l == l' then LayerOf(all, c, l) + minted else LayerOf(all, c', l'))
  {
    forall c': nat, l': nat
      ensures LayerOf(all + Records(node, c, l, minted), c', l')
        == if c == c' && l == l' then LayerOf(all, c, l) + minted else LayerOf(all, c', l')
    {
      LayerOfConcat(all, Records(node, c, l, minted), c', l');
      LayerOfRecords(node, c, l, minted, c', l');
    }
  }

  lemma RefilledBy(live: seq<Shard>, donors: seq<Shard>, minted: seq<Shard>, draws: seq<Vec>, n: nat, d: nat, k: nat, sl: nat)
    requires AllWellFormed(live, k, sl) && 0 < |live| < n && donors == live[..Min(d, |live|)]
    requires |minted| == |draws| == if donors == [] then 0 else n - |live|
    requires Matrix(draws, |donors|) && Matrix(Coeffs(donors), k) && Matrix(Payloads(donors), sl)
    requires forall i :: 0 <= i < |minted| ==> minted[i] == Mixed(donors, draws[i], k, sl)
    ensures Refilled(live, live + minted, n, d, k, sl)
  {
    hide Mixed;
    forall i | |live| <= i < |live + minted| ensures IsMixOf((live + minted)[i], donors, k, sl) {
      assert (live + minted)[i] == Mixed(donors, draws[i - |live|], k, sl);
    }
  }
}
