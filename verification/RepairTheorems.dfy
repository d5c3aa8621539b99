/** Consequences of one regeneration, and of any run of deaths and regenerations. */
module RepairTheorems {
  import opened LinAlg
  import opened ReducedSystem
  import opened Decoder
  import opened Repair
  import opened Wrappers

  // ---- Repair neither loses nor invents information --------------------------------------

  ghost predicate SameSpan(a: seq<Vec>, b: seq<Vec>, n: nat)
    requires Matrix(a, n) && Matrix(b, n)
  {
    forall v: Vec :: |v| == n ==> (InSpan(v, a) <==> InSpan(v, b))
  }

  lemma SameKernelSameSpan(a: seq<Vec>, b: seq<Vec>, n: nat)
    requires Matrix(a, n) && Matrix(b, n) && SameKernel(a, b, n)
    ensures SameSpan(a, b, n)
  {
    hide Kills, InSpan;
    forall v: Vec | |v| == n ensures InSpan(v, a) <==> InSpan(v, b) {
      SpanIsDoubleKernel(v, a);
      SpanIsDoubleKernel(v, b);
    }
  }

  /** Whatever is orthogonal to the survivors stays orthogonal to the refilled layer. */
  lemma RefillKernel(before: seq<Shard>, after: seq<Shard>, n: nat, d: nat, k: nat, sl: nat, y: Vec)
    requires Refilled(before, after, n, d, k, sl) && |y| == k
    ensures AllWellFormed(after, k, sl)
    ensures Kills(Coeffs(before), y) <==> Kills(Coeffs(after), y)
  {
    hide Dot, Mixed, InSpan;
    var donors := before[..Min(d, |before|)];
    forall i | 0 <= i < |after|
      ensures WellFormed(after[i], k, sl)
      ensures Kills(Coeffs(before), y) ==> Dot(after[i].coeffs, y) == 0
    {
      if i < |before| {
        assert after[i] == before[i];
        assert Coeffs(before)[i] == before[i].coeffs;
      } else {
        assert IsMixOf(after[i], donors, k, sl);
        var alpha: Vec :| |alpha| == |donors| && after[i] == Mixed(donors, alpha, k, sl);
        MixedInSpan(donors, alpha, k, sl);
        SpanIsDoubleKernel(after[i].coeffs, Coeffs(donors));
        if Kills(Coeffs(before), y) {
          forall r | 0 <= r < |donors| ensures Dot(Coeffs(donors)[r], y) == 0 {
            assert Coeffs(donors)[r] == Coeffs(before)[r];
          }
        }
      }
    }
    if Kills(Coeffs(after), y) {
      forall r | 0 <= r < |before| ensures Dot(Coeffs(before)[r], y) == 0 {
        assert Coeffs(before)[r] == Coeffs(after)[r];
      }
    }
  }

  /** After a refill the span of the layer's coefficient vectors is exactly the survivors' span;
      hence it is decodable exactly when the survivors are, and the same positions are determined. */
  lemma RefillKeepsSpan(before: seq<Shard>, after: seq<Shard>, n: nat, d: nat, k: nat, sl: nat)
    requires Refilled(before, after, n, d, k, sl)
    ensures AllWellFormed(after, k, sl)
    ensures SameSpan(Coeffs(before), Coeffs(after), k)
    ensures TrivialKernel(Coeffs(before), k) <==> TrivialKernel(Coeffs(after), k)
    ensures forall i :: 0 <= i < k ==> (Determined(before, k, i) <==> Determined(after, k, i))
  {
    hide Kills, Refilled, SameSpan;
    RefillKernel(before, after, n, d, k, sl, Zero(k));
    assert AllWellFormed(before, k, sl) by { RefilledShape(before, after, n, d, k, sl); }
    forall y: Vec | |y| == k ensures Kills(Coeffs(before), y) <==> Kills(Coeffs(after), y) {
      RefillKernel(before, after, n, d, k, sl, y);
    }
    SameKernelSameSpan(Coeffs(before), Coeffs(after), k);
  }

  lemma RefilledShape(before: seq<Shard>, after: seq<Shard>, n: nat, d: nat, k: nat, sl: nat)
    requires Refilled(before, after, n, d, k, sl)
    ensures AllWellFormed(before, k, sl)
  {}

  /** Consistency with a source survives refilling. */
  lemma RefillKeepsConsistency(before: seq<Shard>, after: seq<Shard>, n: nat, d: nat, sl: nat, chunks: seq<Vec>)
    requires Matrix(chunks, sl) && Refilled(before, after, n, d, |chunks|, sl)
    requires AllConsistent(before, chunks, sl)
    ensures AllConsistent(after, chunks, sl)
  {
    hide Mixed, Consistent;
    var donors := before[..Min(d, |before|)];
    forall i | 0 <= i < |after| ensures Consistent(after[i], chunks, sl) {
      if i < |before| {
        assert after[i] == before[i];
      } else {
        assert IsMixOf(after[i], donors, |chunks|, sl);
        var alpha: Vec :| |alpha| == |donors| && after[i] == Mixed(donors, alpha, |chunks|, sl);
        MixedConsistent(donors, alpha, chunks, sl);
      }
    }
  }

  // ---- Runs of deaths and repairs -----------------------------------------------------------

  /** pools[t + 1] results from pools[t] by regenerating nodes[t] with ds[t] donors per layer. */
  ghost predicate RepairRun(pools: seq<seq<ShardRec>>, nodes: seq<nat>, ds: seq<nat>, n: seq<nat>, k: nat, sl: seq<nat>)
    requires |n| == |sl| == NLAYERS
  {
    && |pools| == |nodes| + 1 && |ds| == |nodes|
    && PoolWellFormed(pools[0], k, sl)
    && forall t :: 0 <= t < |nodes| ==> Regenerated(pools[t], pools[t + 1], nodes[t], n, ds[t], k, sl)
  }

  ghost predicate Decodable(all: seq<ShardRec>, c: nat, l: nat, k: nat)
  {
    Matrix(Coeffs(LayerOf(all, c, l)), k) && TrivialKernel(Coeffs(LayerOf(all, c, l)), k)
  }

  /** A death can only lose information. */
  lemma DeathShrinks(all: seq<ShardRec>, node: nat, c: nat, l: nat, k: nat)
    requires Decodable(Survivors(all, node), c, l, k) && Matrix(Coeffs(LayerOf(all, c, l)), k)
    ensures Decodable(all, c, l, k)
  {
    hide Dot;
    var few, many := LayerOf(Survivors(all, node), c, l), LayerOf(all, c, l);
    LayerOfMembers(Survivors(all, node), c, l);
    LayerOfMembers(all, c, l);
    forall y: Vec | |y| == k && Kills(Coeffs(many), y) ensures y == Zero(k) {
      forall r | 0 <= r < |few| ensures Dot(Coeffs(few)[r], y) == 0 {
        assert few[r] in few && Holds(Survivors(all, node), c, l, few[r]);
        var i :| 0 <= i < |Survivors(all, node)| && Survivors(all, node)[i].channel == c
          && Survivors(all, node)[i].layer == l && Survivors(all, node)[i].shard == few[r];
        assert Survivors(all, node)[i] in all;
        assert few[r] in many;
        var q :| 0 <= q < |many| && many[q] == few[r];
        assert Coeffs(many)[q] == Coeffs(few)[r];
      }
      assert Kills(Coeffs(few), y);
    }
  }

  lemma StepDecodable(before: seq<ShardRec>, after: seq<ShardRec>, node: nat, n: seq<nat>, d: nat,
                      k: nat, sl: seq<nat>, c: nat, l: nat)
    requires |n| == |sl| == NLAYERS && c < CHANNELS && l < NLAYERS
    requires Regenerated(before, after, node, n, d, k, sl)
    ensures Decodable(after, c, l, k) <==> Decodable(Survivors(before, node), c, l, k)
    ensures AllWellFormed(LayerOf(after, c, l), k, sl[l])
  {
    hide TrivialKernel, Refilled, Determined;
    var s, a := LayerOf(Survivors(before, node), c, l), LayerOf(after, c, l);
    RefillKeepsSpan(s, a, n[l], d, k, sl[l]);
    RefilledShape(s, a, n[l], d, k, sl[l]);
  }

  /** After any series of deaths and repairs, with any random stream and any donor counts, a layer
      decodes exactly when the survivors of every single death still decoded: repair itself never
      decides. */
  lemma {:induction false} RunDecodable(pools: seq<seq<ShardRec>>, nodes: seq<nat>, ds: seq<nat>, n: seq<nat>,
                                        k: nat, sl: seq<nat>, c: nat, l: nat)
    requires |n| == |sl| == NLAYERS && c < CHANNELS && l < NLAYERS
    requires RepairRun(pools, nodes, ds, n, k, sl)
    ensures AllWellFormed(LayerOf(pools[|nodes|], c, l), k, sl[l])
    ensures Decodable(pools[|nodes|], c, l, k) <==>
      (Decodable(pools[0], c, l, k) && forall t :: 0 <= t < |nodes| ==> Decodable(Survivors(pools[t], nodes[t]), c, l, k))
    decreases |nodes|
  {
    hide Regenerated, Decodable;
    if nodes == [] {
      LayerWellFormed(pools[0], c, l, k, sl);
    } else {
      var m := |nodes| - 1;
      assert RepairRun(pools[..m + 1], nodes[..m], ds[..m], n, k, sl);
      RunDecodable(pools[..m + 1], nodes[..m], ds[..m], n, k, sl, c, l);
      StepDecodable(pools[m], pools[m + 1], nodes[m], n, ds[m], k, sl, c, l);
      CoeffsMatrix(LayerOf(pools[m], c, l), k, sl[l]);
      if Decodable(Survivors(pools[m], nodes[m]), c, l, k) {
        DeathShrinks(pools[m], nodes[m], c, l, k);
      }
    }
  }

  lemma SurvivorWasThere(all: seq<ShardRec>, node: nat, c: nat, l: nat, s: Shard)
    requires s in LayerOf(Survivors(all, node), c, l)
    ensures s in LayerOf(all, c, l)
  {
    LayerOfMembers(all, c, l);
    LayerOfMembers(Survivors(all, node), c, l);
    var i :| 0 <= i < |Survivors(all, node)| && Survivors(all, node)[i].channel == c
      && Survivors(all, node)[i].layer == l && Survivors(all, node)[i].shard == s;
    var r := Survivors(all, node)[i];
    assert r in all;
    var q :| 0 <= q < |all| && all[q] == r;
    assert Holds(all, c, l, s);
  }

  lemma EmptyStaysEmpty(all: seq<ShardRec>, node: nat, c: nat, l: nat)
    requires LayerOf(all, c, l) == []
    ensures LayerOf(Survivors(all, node), c, l) == []
  {
    hide LayerOf, Survivors;
    var few := LayerOf(Survivors(all, node), c, l);
    if few != [] { SurvivorWasThere(all, node, c, l, few[0]); }
  }

  /** With donors asked for, a layer is full again after every repair, unless some death took its last
      shard; then it is gone for good. */
  lemma {:induction false} RunRefilled(pools: seq<seq<ShardRec>>, nodes: seq<nat>, ds: seq<nat>, n: seq<nat>,
                                       k: nat, sl: seq<nat>, c: nat, l: nat)
    requires |n| == |sl| == NLAYERS && c < CHANNELS && l < NLAYERS
    requires RepairRun(pools, nodes, ds, n, k, sl) && nodes != [] && forall t :: 0 <= t < |ds| ==> ds[t] >= 1
    ensures LayerOf(pools[|nodes|], c, l) == [] || |LayerOf(pools[|nodes|], c, l)| >= n[l]
    ensures LayerOf(pools[|nodes|], c, l) == [] <==>
      exists t :: 0 <= t < |nodes| && LayerOf(Survivors(pools[t], nodes[t]), c, l) == []
    decreases |nodes|
  {
    hide Survivors, LayerOf;
    var m := |nodes| - 1;
    StepRefilled(pools[m], pools[m + 1], nodes[m], n, ds[m], k, sl, c, l);
    if m == 0 {
    } else {
      assert RepairRun(pools[..m + 1], nodes[..m], ds[..m], n, k, sl);
      RunRefilled(pools[..m + 1], nodes[..m], ds[..m], n, k, sl, c, l);
      if LayerOf(pools[m], c, l) == [] { EmptyStaysEmpty(pools[m], nodes[m], c, l); }
      if LayerOf(pools[m + 1], c, l) != [] {
        forall t | 0 <= t < |nodes| ensures LayerOf(Survivors(pools[t], nodes[t]), c, l) != [] {
          if t < m { assert pools[..m + 1][t] == pools[t] && nodes[..m][t] == nodes[t]; }
        }
      }
    }
  }

  lemma StepRefilled(before: seq<ShardRec>, after: seq<ShardRec>, node: nat, n: seq<nat>, d: nat,
                     k: nat, sl: seq<nat>, c: nat, l: nat)
    requires |n| == |sl| == NLAYERS && c < CHANNELS && l < NLAYERS && d >= 1
    requires Regenerated(before, after, node, n, d, k, sl)
    ensures LayerOf(after, c, l) == [] <==> LayerOf(Survivors(before, node), c, l) == []
    ensures LayerOf(after, c, l) == [] || |LayerOf(after, c, l)| >= n[l]
  {
    hide Survivors, LayerOf;
    assert Refilled(LayerOf(Survivors(before, node), c, l), LayerOf(after, c, l), n[l], d, k, sl[l]);
  }

  /** Throughout a run every shard stays consistent with the source of its layer. */
  lemma {:induction false} RunConsistent(pools: seq<seq<ShardRec>>, nodes: seq<nat>, ds: seq<nat>, n: seq<nat>,
                                         sl: seq<nat>, c: nat, l: nat, chunks: seq<Vec>)
    requires |n| == |sl| == NLAYERS && c < CHANNELS && l < NLAYERS && Matrix(chunks, sl[l])
    requires RepairRun(pools, nodes, ds, n, |chunks|, sl)
    requires AllConsistent(LayerOf(pools[0], c, l), chunks, sl[l])
    ensures AllConsistent(LayerOf(pools[|nodes|], c, l), chunks, sl[l])
    decreases |nodes|
  {
    hide Consistent, Refilled;
    if nodes == [] {
    } else {
      var m := |nodes| - 1;
      assert RepairRun(pools[..m + 1], nodes[..m], ds[..m], n, |chunks|, sl);
      RunConsistent(pools[..m + 1], nodes[..m], ds[..m], n, sl, c, l, chunks);
      SurvivorsConsistent(pools[m], nodes[m], c, l, chunks, sl[l]);
      RefillKeepsConsistency(LayerOf(Survivors(pools[m], nodes[m]), c, l), LayerOf(pools[m + 1], c, l),
        n[l], ds[m], sl[l], chunks);
    }
  }

  lemma SurvivorsConsistent(all: seq<ShardRec>, node: nat, c: nat, l: nat, chunks: seq<Vec>, sl: nat)
    requires Matrix(chunks, sl) && AllConsistent(LayerOf(all, c, l), chunks, sl)
    ensures AllConsistent(LayerOf(Survivors(all, node), c, l), chunks, sl)
  {
    hide Consistent;
    var few, many := LayerOf(Survivors(all, node), c, l), LayerOf(all, c, l);
    LayerOfMembers(Survivors(all, node), c, l);
    LayerOfMembers(all, c, l);
    forall r | 0 <= r < |few| ensures Consistent(few[r], chunks, sl) {
      assert few[r] in few && Holds(Survivors(all, node), c, l, few[r]);
      var i :| 0 <= i < |Survivors(all, node)| && Survivors(all, node)[i].channel == c
        && Survivors(all, node)[i].layer == l && Survivors(all, node)[i].shard == few[r];
      assert Survivors(all, node)[i] in all;
      assert few[r] in many;
    }
  }

  /** Reading after a run: the source bytes when every death left enough survivors, nothing otherwise. */
  lemma ReadAfterRun(pools: seq<seq<ShardRec>>, nodes: seq<nat>, ds: seq<nat>, n: seq<nat>,
                     sl: seq<nat>, c: nat, l: nat, chunks: seq<Vec>, r: Option<Vec>)
    requires |n| == |sl| == NLAYERS && c < CHANNELS && l < NLAYERS && Matrix(chunks, sl[l])
    requires RepairRun(pools, nodes, ds, n, |chunks|, sl)
    requires AllConsistent(LayerOf(pools[0], c, l), chunks, sl[l])
    requires AllWellFormed(LayerOf(pools[|nodes|], c, l), |chunks|, sl[l])
    requires DecodesTo(LayerOf(pools[|nodes|], c, l), |chunks|, sl[l], r)
    ensures r == if Decodable(pools[0], c, l, |chunks|)
                    && forall t :: 0 <= t < |nodes| ==> Decodable(Survivors(pools[t], nodes[t]), c, l, |chunks|)
                 then Some(Flatten(chunks)) else None
  {
    hide TrivialKernel, AllConsistent, Regenerated;
    RunDecodable(pools, nodes, ds, n, |chunks|, sl, c, l);
    RunConsistent(pools, nodes, ds, n, sl, c, l, chunks);
    assert Decodable(pools[|nodes|], c, l, |chunks|) <==> TrivialKernel(Coeffs(LayerOf(pools[|nodes|], c, l)), |chunks|);
    assert IsSource(chunks, LayerOf(pools[|nodes|], c, l), |chunks|, sl[l]);
  }
}
