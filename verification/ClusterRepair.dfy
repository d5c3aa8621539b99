/** repair_node of crates/holofs-client/src/client.rs: purge the replaced node, mix verified
    donors from the other live nodes, list and store the fresh shards. Any remote call may
    fail and end the repair half-way. */
module ClusterRepair {
  import opened LinAlg
  import opened ReducedSystem
  import opened Decoder
  import opened Encoder
  import opened Repair
  import opened Merkle
  import opened U64
  import opened Health
  import opened Cluster
  import opened Wrappers

  /** Live nodes other than the one being replaced. */
  function Others(live: seq<u64>, replacement: u64): (out: seq<u64>)
    ensures forall n :: n in out <==> n in live && n != replacement
  {
    if live == [] then []
    else if live[|live| - 1] == replacement then Others(live[..|live| - 1], replacement)
    else Others(live[..|live| - 1], replacement) + [live[|live| - 1]]
  }

  lemma OthersInRange(cl: Client, live: seq<u64>, replacement: u64)
    requires cl.InRange(live)
    ensures cl.InRange(Others(live, replacement))
  {
    forall i | 0 <= i < |Others(live, replacement)| ensures Others(live, replacement)[i] < |cl.nodes| {
      assert Others(live, replacement)[i] in live;
    }
  }

  /** Whatever kills the base kills the fresh shards. */
  ghost predicate AddsNothing(base: set<Shard>, minted: seq<Shard>, k: nat) {
    forall s, y: Vec :: s in minted && |y| == k && KilledBySet(base, y) ==> |s.coeffs| == k && Dot(s.coeffs, y) == 0
  }

  /** Fresh shards that only repeat what the base determines do not change the information. */
  lemma BetweenSame(base: set<Shard>, mid: set<Shard>, minted: seq<Shard>, k: nat)
    requires base <= mid && forall s :: s in mid ==> s in base || s in minted
    requires AddsNothing(base, minted, k)
    ensures SameInformation(base, mid, k)
  {
    hide Dot;
  }

  lemma MixedKilled(base: set<Shard>, donors: seq<Shard>, draw: Vec, k: nat, sl: nat, y: Vec)
    requires donors != [] && |draw| == |donors| && AllWellFormed(donors, k, sl)
    requires Matrix(Coeffs(donors), k) && Matrix(Payloads(donors), sl)
    requires forall s :: s in donors ==> s in base
    requires |y| == k && KilledBySet(base, y)
    ensures |Mixed(donors, draw, k, sl).coeffs| == k && Dot(Mixed(donors, draw, k, sl).coeffs, y) == 0
  {
    hide Dot, Mixed;
    MixedInSpan(donors, draw, k, sl);
    SpanIsDoubleKernel(Mixed(donors, draw, k, sl).coeffs, Coeffs(donors));
    forall r | 0 <= r < |donors| ensures Dot(Coeffs(donors)[r], y) == 0 {
      assert donors[r] in donors && donors[r] in base;
      assert Coeffs(donors)[r] == donors[r].coeffs;
    }
  }

  /** How often the node occurs in the list. */
  function Occurrences(nodes: seq<u64>, node: u64): nat {
    if nodes == [] then 0 else Occurrences(nodes[..|nodes| - 1], node) + if nodes[|nodes| - 1] == node then 1 else 0
  }

  /** Placement assigns `need` shards of the layer to the node. */
  ghost predicate Assigned(p: Plan, c: u8, l: u8, live: seq<u64>, node: u64, need: nat)
    requires Placeable(p, live) && l < |p.nPerLayer|
  {
    exists nodes :: LayerPlaced(p, c, l, live, nodes) && Occurrences(nodes, node) == need
  }

  /** Placement is deterministic, so the number is determined. */
  lemma AssignedOnce(p: Plan, c: u8, l: u8, live: seq<u64>, node: u64, a: nat, b: nat)
    requires Placeable(p, live) && l < |p.nPerLayer|
    requires Assigned(p, c, l, live, node, a) && Assigned(p, c, l, live, node, b)
    ensures a == b
  {
    hide LayerPlaced;
    var x :| LayerPlaced(p, c, l, live, x) && Occurrences(x, node) == a;
    var y :| LayerPlaced(p, c, l, live, y) && Occurrences(y, node) == b;
    LayerUnique(p, c, l, live, x, y);
  }

  /** How many shards of the layer placement assigns to the node. */
  method CountNeed(cl: Client, live: seq<u64>, c: u8, l: u8, replacement: u64) returns (need: nat)
    requires cl.LiveOk(live) && l < |cl.plan.nPerLayer|
    ensures Placeable(cl.CurrentPlan(), live)
    ensures Assigned(cl.CurrentPlan(), c, l, live, replacement, need)
  {
    ghost var p := cl.CurrentPlan();
    assert Placeable(p, live);
    hide Placed, Placeable, Assigned;
    ghost var nodes: seq<u64> := [];
    need := 0;
    for idx := 0 to cl.plan.nPerLayer[l]
      invariant |nodes| == idx && Occurrences(nodes, replacement) == need
      invariant forall i :: 0 <= i < idx ==> nodes[i] in live && Placed(p, c, l, i, live, nodes[i])
    {
      var node := PlaceShard(cl.CurrentPlan(), c, l, idx, live);
      OneMoreNode(nodes, node, replacement);
      nodes := nodes + [node];
      if node == replacement {
        need := need + 1;
      }
    }
    AllPlaced(p, c, l, live, replacement, nodes, need);
  }

  lemma OneMoreNode(nodes: seq<u64>, node: u64, n: u64)
    ensures Occurrences(nodes + [node], n) == Occurrences(nodes, n) + if node == n then 1 else 0
  {
    assert (nodes + [node])[..|nodes|] == nodes;
  }

  lemma AllPlaced(p: Plan, c: u8, l: u8, live: seq<u64>, node: u64, nodes: seq<u64>, need: nat)
    requires Placeable(p, live) && l < |p.nPerLayer| && |nodes| == p.nPerLayer[l] && Occurrences(nodes, node) == need
    requires forall i :: 0 <= i < |nodes| ==> nodes[i] in live && Placed(p, c, l, i, live, nodes[i])
    ensures Assigned(p, c, l, live, node, need)
  {
    hide Placed, Placeable, Occurrences;
    assert LayerPlaced(p, c, l, live, nodes);
  }

  /** Verified shards of a single node. */
  ghost function Offer(cl: Client, n: u64, c: nat, l: nat): set<Shard>
    requires n < |cl.nodes| && c < |cl.shardHashes| && l < |cl.shardHashes[c]|
    reads cl`shardHashes, cl`objectId, cl.nodes
  {
    set s | s in cl.nodes[n].Bucket(cl.LayerKey(c, l)) && ShardHash(s) in cl.shardHashes[c][l]
  }

  lemma VerifiedSnoc(cl: Client, live: seq<u64>, n: u64, c: nat, l: nat)
    requires cl.InRange(live) && n < |cl.nodes| && c < |cl.shardHashes| && l < |cl.shardHashes[c]|
    ensures cl.InRange(live + [n])
    ensures cl.Verified(live + [n], c, l) == cl.Verified(live, c, l) + Offer(cl, n, c, l)
  {
    cl.ReachableSnoc(live, n, cl.LayerKey(c, l));
  }

  lemma VerifiedPrefix(cl: Client, live: seq<u64>, i: nat, c: nat, l: nat)
    requires cl.InRange(live) && i <= |live| && c < |cl.shardHashes| && l < |cl.shardHashes[c]|
    ensures cl.Verified(live[..i], c, l) <= cl.Verified(live, c, l)
  {
    forall s | s in cl.Verified(live[..i], c, l) ensures s in cl.Verified(live, c, l) {
      var n :| n in live[..i] && s in cl.nodes[n].Bucket(cl.LayerKey(c, l));
      assert n in live;
    }
  }

  method AskNode(cl: Client, n: u64, c: nat, l: nat) returns (r: Option<seq<Shard>>)
    requires cl.NodesValid() && n < |cl.nodes| && c < |cl.shardHashes| && l < |cl.shardHashes[c]|
    ensures r.Some? ==> MembersAre(r.value, Offer(cl, n, c, l))
  {
    var got := cl.SendGet(n, cl.LayerKey(c, l));
    if got.None? {
      return None;
    }
    var kept := cl.FilterVerified(got.value, c, l);
    r := Some(kept);
  }

  ghost predicate AllAmong(shards: set<Shard>, list: seq<Shard>) {
    forall s :: s in shards ==> s in list
  }

  /** Ask the other nodes in turn and keep verified shards until d are at hand: fewer than d only when
      there are no others. */
  method CollectDonors(cl: Client, others: seq<u64>, c: nat, l: nat, d: nat) returns (r: Option<seq<Shard>>)
    requires cl.NodesValid() && cl.InRange(others) && c < |cl.shardHashes| && l < |cl.shardHashes[c]|
    ensures r.Some? ==> forall s :: s in r.value ==> s in cl.Verified(others, c, l)
    ensures r.Some? ==> |r.value| <= d
    ensures r.Some? && |r.value| < d ==> AllAmong(cl.Verified(others, c, l), r.value)
    ensures r.Some? && r.value == [] && d > 0 ==> cl.Verified(others, c, l) == {}
  {
    NothingVerified(cl, c, l);
    hide Client.Verified, Offer, Client.NodesValid, MembersAre, AllAmong;
    var donors: seq<Shard> := [];
    NoMembers();
    var i := 0;
    while i < |others| && (i == 0 || |donors| < d)
      invariant 0 <= i <= |others|
      invariant MembersAre(donors, cl.Verified(others[..i], c, l))
    {
      var kept := AskNode(cl, others[i], c, l);
      if kept.None? {
        return None;
      }
      VerifiedSnoc(cl, others[..i], others[i], c, l);
      MembersJoin(donors, cl.Verified(others[..i], c, l), kept.value, Offer(cl, others[i], c, l));
      assert others[..i + 1] == others[..i] + [others[i]];
      donors := donors + kept.value;
      i := i + 1;
    }
    VerifiedPrefix(cl, others, i, c, l);
    assert others[..|others|] == others;
    r := Some(if |donors| <= d then donors else donors[..d]);
    DonorsTaken(donors, cl.Verified(others[..i], c, l), cl.Verified(others, c, l), d, r.value);
  }

  /** The list holds exactly the shards of the set. */
  ghost predicate MembersAre(list: seq<Shard>, shards: set<Shard>) {
    forall s :: s in list <==> s in shards
  }

  lemma NoMembers()
    ensures MembersAre([], {})
  {}

  lemma MembersJoin(a: seq<Shard>, A: set<Shard>, b: seq<Shard>, B: set<Shard>)
    requires MembersAre(a, A) && MembersAre(b, B)
    ensures MembersAre(a + b, A + B)
  {}

  lemma DonorsTaken(donors: seq<Shard>, seen: set<Shard>, all: set<Shard>, d: nat, taken: seq<Shard>)
    requires MembersAre(donors, seen) && seen <= all && (seen == all || |donors| >= d)
    requires taken == if |donors| <= d then donors else donors[..d]
    ensures forall s :: s in taken ==> s in all
    ensures |taken| < d ==> AllAmong(all, taken)
    ensures taken == [] && d > 0 ==> all == {}
  {
    if taken == [] && d > 0 {
      assert donors == [];
      forall s ensures s !in all { assert s !in donors; }
    }
  }

  lemma NothingVerified(cl: Client, c: nat, l: nat)
    requires c < |cl.shardHashes| && l < |cl.shardHashes[c]|
    ensures cl.Verified([], c, l) == {}
  {}

  // ---- One layer ------------------------------------------------------------------------

  function HashesOf(shards: seq<Shard>): (hs: seq<Hash>)
    ensures |hs| == |shards|
    ensures forall h :: h in hs <==> h.OfShard? && h.shard in shards
  {
    if shards == [] then [] else HashesOf(shards[..|shards| - 1]) + [ShardHash(shards[|shards| - 1])]
  }

  /** The hash lists with more shards listed for one layer. */
  function WithShards(hs: seq<seq<seq<Hash>>>, c: nat, l: nat, shards: seq<Shard>): (out: seq<seq<seq<Hash>>>)
    requires c < |hs| && l < |hs[c]|
    ensures |out| == |hs| && forall i :: 0 <= i < |hs| ==> |out[i]| == |hs[i]|
  {
    hs[c := hs[c][l := hs[c][l] + HashesOf(shards)]]
  }

  lemma WithOneMore(hs: seq<seq<seq<Hash>>>, c: nat, l: nat, shards: seq<Shard>, s: Shard)
    requires c < |hs| && l < |hs[c]|
    ensures WithShards(hs, c, l, []) == hs
    ensures WithShards(hs, c, l, shards + [s])
         == WithShards(hs, c, l, shards)[c := WithShards(hs, c, l, shards)[c][l := WithShards(hs, c, l, shards)[c][l] + [ShardHash(s)]]]
  {
    assert hs[c][l] + HashesOf([]) == hs[c][l];
    assert hs[c][l := hs[c][l]] == hs[c];
    assert (shards + [s])[..|shards|] == shards;
    assert hs[c][l] + (HashesOf(shards) + [ShardHash(s)]) == (hs[c][l] + HashesOf(shards)) + [ShardHash(s)];
    assert hs[c][l := hs[c][l] + HashesOf(shards)][l := hs[c][l] + HashesOf(shards + [s])]
        == hs[c][l := hs[c][l] + HashesOf(shards + [s])];
  }

  /** List each fresh shard, then send it; the first refusal ends the repair. */
  method StoreMinted(cl: Client, replacement: u64, c: nat, l: nat, minted: seq<Shard>) returns (ok: bool, ghost m: nat)
    requires cl.NodesValid() && replacement < |cl.nodes| && c < |cl.shardHashes| && l < |cl.shardHashes[c]|
    modifies cl`shardHashes, cl.nodes[replacement]
    ensures cl.NodesValid()
    ensures m <= |minted| && cl.shardHashes == WithShards(old(cl.shardHashes), c, l, minted[..m])
    ensures forall key :: key != cl.LayerKey(c, l) ==> cl.nodes[replacement].Bucket(key) == old(cl.nodes[replacement].Bucket(key))
    ensures forall s :: (s in cl.nodes[replacement].Bucket(cl.LayerKey(c, l))
      ==> s in old(cl.nodes[replacement].Bucket(cl.LayerKey(c, l))) || s in minted)
    ensures ok ==> m == |minted| && forall s :: s in minted ==> s in cl.nodes[replacement].Bucket(cl.LayerKey(c, l))
  {
    hide WithShards;
    m := 0;
    ghost var hs := cl.shardHashes;
    WithOneMoreStart(hs, c, l);
    for i := 0 to |minted|
      invariant cl.NodesValid() && m == i && |cl.shardHashes| == |hs| && |cl.shardHashes[c]| == |hs[c]|
      invariant cl.shardHashes == WithShards(hs, c, l, minted[..i])
      invariant forall key :: key != cl.LayerKey(c, l) ==> cl.nodes[replacement].Bucket(key) == old(cl.nodes[replacement].Bucket(key))
      invariant forall s :: (s in cl.nodes[replacement].Bucket(cl.LayerKey(c, l))
        ==> s in old(cl.nodes[replacement].Bucket(cl.LayerKey(c, l))) || s in minted)
      invariant forall j :: 0 <= j < i ==> minted[j] in cl.nodes[replacement].Bucket(cl.LayerKey(c, l))
    {
      var s := minted[i];
      WithOneMore(hs, c, l, minted[..i], s);
      assert minted[..i + 1] == minted[..i] + [s];
      cl.shardHashes := cl.shardHashes[c := cl.shardHashes[c][l := cl.shardHashes[c][l] + [ShardHash(s)]]];
      m := i + 1;
      var acked := cl.SendPut(replacement, cl.LayerKey(c, l), s);
      if !acked {
        return false, m;
      }
    }
    assert minted[..|minted|] == minted;
    ok := true;
  }

  lemma WithOneMoreStart(hs: seq<seq<seq<Hash>>>, c: nat, l: nat)
    requires c < |hs| && l < |hs[c]|
    ensures WithShards(hs, c, l, []) == hs
  {
    WithOneMore(hs, c, l, [], Shard([], []));
  }

  /** Listing consistent shards keeps the manifest valid. */
  lemma ListingKeepsValid(hs: seq<seq<seq<Hash>>>, source: seq<seq<seq<Vec>>>, channels: nat, lens: seq<nat>, k: nat,
                          c: nat, l: nat, shards: seq<Shard>)
    requires ListsValid(hs, source, channels, lens, k) && c < channels && l < |lens|
    requires l < |hs[c]| && l < |source[c]| && Matrix(source[c][l], lens[l])
    requires forall s :: s in shards ==> Consistent(s, source[c][l], lens[l])
    ensures ListsValid(WithShards(hs, c, l, shards), source, channels, lens, k)
  {
    hide Consistent;
    var out := WithShards(hs, c, l, shards);
    forall i, j | 0 <= i < channels && 0 <= j < |lens| ensures LayerValid(out, source, lens, k, i, j) {
      assert LayerValid(hs, source, lens, k, i, j);
      if i == c && j == l {
        assert out[c][l] == hs[c][l] + HashesOf(shards);
      } else if i == c {
        assert out[c][j] == hs[c][j];
      }
    }
  }

  /** Verified shards when the replaced node holds nothing of the layer: those of the others. */
  lemma EmptyReplacement(cl: Client, live: seq<u64>, replacement: u64, c: nat, l: nat)
    requires cl.InRange(live) && cl.InRange(Others(live, replacement)) && replacement < |cl.nodes|
    requires c < |cl.shardHashes| && l < |cl.shardHashes[c]|
    requires cl.nodes[replacement].Bucket(cl.LayerKey(c, l)) == {}
    ensures cl.Verified(live, c, l) == cl.Verified(Others(live, replacement), c, l)
  {}

  /** Verified shards after listing and sending: the base plus, at most, fresh shards. */
  lemma AfterStore(cl: Client, live: seq<u64>, replacement: u64, c: nat, l: nat, hs: seq<seq<seq<Hash>>>,
                   minted: seq<Shard>, m: nat, base: set<Shard>)
    requires cl.InRange(live) && cl.InRange(Others(live, replacement)) && replacement in live && replacement < |cl.nodes|
    requires c < |hs| && l < |hs[c]| && m <= |minted|
    requires cl.shardHashes == WithShards(hs, c, l, minted[..m])
    requires base == set s | s in cl.Reachable(Others(live, replacement), cl.LayerKey(c, l)) && ShardHash(s) in hs[c][l]
    requires forall s :: s in cl.nodes[replacement].Bucket(cl.LayerKey(c, l)) ==> s in minted
    ensures base <= cl.Verified(live, c, l)
    ensures forall s :: s in cl.Verified(live, c, l) ==> s in base || s in minted
  {
    var key := cl.LayerKey(c, l);
    assert cl.shardHashes[c][l] == hs[c][l] + HashesOf(minted[..m]);
    forall s | s in base ensures s in cl.Verified(live, c, l) {
      var n :| n in Others(live, replacement) && s in cl.nodes[n].Bucket(key);
      assert n in live;
    }
    forall s | s in cl.Verified(live, c, l) ensures s in base || s in minted {
      var n :| n in live && s in cl.nodes[n].Bucket(key);
      if n != replacement {
        assert n in Others(live, replacement);
        if ShardHash(s) !in hs[c][l] { assert ShardHash(s) in HashesOf(minted[..m]); }
      }
    }
  }

  ghost predicate Apart(cl: Client, rng: Rng)
    reads cl.gf
  {
    && rng !in cl.gf.Tables() && rng !in cl.Stores() && rng as object != cl
    && cl.gf.Tables() !! cl.Stores() && cl !in cl.gf.Tables() && cl !in cl.Stores()
  }

  /** Shard i is the mix of the donors with the i-th weights; the donors are at most d of the base. */
  ghost predicate FreshMixes(minted: seq<Shard>, donors: seq<Shard>, draws: seq<Vec>, base: set<Shard>, d: nat, k: nat, sl: nat) {
    && |minted| <= |draws| && |donors| <= d && (forall s :: s in donors ==> s in base)
    && Matrix(Coeffs(donors), k) && Matrix(Payloads(donors), sl)
    && forall i :: 0 <= i < |minted| ==> IsMix(minted[i], draws[i], donors, k, sl)
  }

  lemma NoMixes(base: set<Shard>, d: nat, k: nat, sl: nat)
    ensures FreshMixes([], [], [], base, d, k, sl) && Flatten([]) == []
  {}

  lemma FewerMixes(minted: seq<Shard>, donors: seq<Shard>, draws: seq<Vec>, base: set<Shard>, d: nat, k: nat, sl: nat)
    requires FreshMixes(minted, donors, draws, base, d, k, sl)
    ensures forall m :: 0 <= m <= |minted| ==> FreshMixes(minted[..m], donors, draws, base, d, k, sl)
  {
    hide IsMix;
  }

  /** Fresh shards for one layer: none, or mixes of verified donors from the other nodes. */
  method Mint(cl: Client, live: seq<u64>, replacement: u64, c: u8, l: u8, d: nat, rng: Rng)
    returns (r: Option<seq<Shard>>, need: nat, ghost used: seq<Shard>, ghost draws: seq<Vec>)
    requires cl.Valid() && cl.LiveOk(live) && c < cl.plan.channels && l < |cl.stored| && Apart(cl, rng)
    modifies rng
    ensures Placeable(cl.CurrentPlan(), live)
    ensures Assigned(cl.CurrentPlan(), c, l, live, replacement, need)
    ensures cl.Valid() && cl.HasLayer(c, l) && cl.InRange(Others(live, replacement))
    ensures r.Some? ==> forall s :: s in r.value ==> Consistent(s, cl.source[c][l], cl.stored[l])
    ensures r.Some? ==> AddsNothing(cl.Verified(Others(live, replacement), c, l), r.value, cl.k)
    ensures rng.drawn == old(rng.drawn) + Flatten(draws) && (r.None? ==> draws == [])
    ensures r.Some? ==> FreshMixes(r.value, used, draws, cl.Verified(Others(live, replacement), c, l), d, cl.k, cl.stored[l])
    ensures r.Some? ==>
      |r.value| == if d == 0 || cl.Verified(Others(live, replacement), c, l) == {} then 0 else need
  {
    hide Consistent, Mixed, Dot, Placed, Assigned, Placeable, AllAmong, ListsValid, Client.NodesValid, Client.Reachable, IsMix, FreshMixes, Flatten;
    OthersInRange(cl, live, replacement);
    cl.LayerPresent(c, l);
    used, draws := [], [];
    NoMixes(cl.Verified(Others(live, replacement), c, l), d, cl.k, cl.stored[l]);
    need := CountNeed(cl, live, c, l, replacement);
    if need == 0 {
      return Some([]), 0, used, draws;
    }
    var others := Others(live, replacement);
    var donors := CollectDonors(cl, others, c, l, d);
    if donors.None? {
      return None, need, used, draws;
    }
    used := donors.value;
    DonorsEmpty(donors.value, cl.Verified(others, c, l));
    cl.VerifiedConsistent(donors.value, c, l);
    var minted;
    minted, draws := MixDonors(cl.gf, donors.value, cl.k, cl.stored[l], need, rng);
    MintedFacts(donors.value, minted, draws, cl.source[c][l], cl.stored[l], cl.Verified(others, c, l));
    AreFresh(minted, used, draws, cl.Verified(others, c, l), d, cl.k, cl.stored[l]);
    r := Some(minted);
  }

  lemma AreFresh(minted: seq<Shard>, donors: seq<Shard>, draws: seq<Vec>, base: set<Shard>, d: nat, k: nat, sl: nat)
    requires |minted| == |draws| && |donors| <= d && (forall s :: s in donors ==> s in base)
    requires Matrix(Coeffs(donors), k) && Matrix(Payloads(donors), sl)
    requires forall i :: 0 <= i < |minted| ==> IsMix(minted[i], draws[i], donors, k, sl)
    ensures FreshMixes(minted, donors, draws, base, d, k, sl)
  {
    hide IsMix;
  }

  lemma DonorsEmpty(donors: seq<Shard>, base: set<Shard>)
    requires forall s :: s in donors ==> s in base
    ensures base == {} ==> donors == []
  {
    if donors != [] { assert donors[0] in donors; }
  }

  lemma MintedFacts(donors: seq<Shard>, minted: seq<Shard>, draws: seq<Vec>, chunks: seq<Vec>, sl: nat, base: set<Shard>)
    requires Matrix(chunks, sl) && AllConsistent(donors, chunks, sl) && (forall s :: s in donors ==> s in base)
    requires AllWellFormed(donors, |chunks|, sl)
    requires |minted| == |draws| && (donors == [] ==> minted == []) && Matrix(draws, |donors|)
    requires Matrix(Coeffs(donors), |chunks|) && Matrix(Payloads(donors), sl)
    requires forall i :: 0 <= i < |minted| ==> minted[i] == Mixed(donors, draws[i], |chunks|, sl)
    ensures forall s :: s in minted ==> Consistent(s, chunks, sl)
    ensures AddsNothing(base, minted, |chunks|)
  {
    hide Consistent, Mixed, Dot, KilledBySet;
    forall s | s in minted
      ensures Consistent(s, chunks, sl)
      ensures forall y: Vec :: |y| == |chunks| && KilledBySet(base, y) ==> |s.coeffs| == |chunks| && Dot(s.coeffs, y) == 0
    {
      var i :| 0 <= i < |minted| && minted[i] == s;
      MixedConsistent(donors, draws[i], chunks, sl);
      forall y: Vec | |y| == |chunks| && KilledBySet(base, y)
        ensures |s.coeffs| == |chunks| && Dot(s.coeffs, y) == 0
      {
        MixedKilled(base, donors, draws[i], |chunks|, sl, y);
      }
    }
  }

  /** Sending to one node leaves the shards of the other nodes alone. */
  method StoreMintedApart(cl: Client, live: seq<u64>, replacement: u64, c: nat, l: nat, minted: seq<Shard>)
    returns (ok: bool, ghost m: nat)
    requires cl.NodesValid() && replacement < |cl.nodes| && c < |cl.shardHashes| && l < |cl.shardHashes[c]|
    requires cl.InRange(live) && cl.InRange(Others(live, replacement)) && replacement in live
    requires cl.nodes[replacement].Bucket(cl.LayerKey(c, l)) == {}
    modifies cl`shardHashes, cl.nodes[replacement]
    ensures cl.NodesValid()
    ensures m <= |minted| && cl.shardHashes == WithShards(old(cl.shardHashes), c, l, minted[..m])
    ensures forall key :: key != cl.LayerKey(c, l) ==> cl.nodes[replacement].Bucket(key) == old(cl.nodes[replacement].Bucket(key))
    ensures old(cl.Verified(Others(live, replacement), c, l)) <= cl.Verified(live, c, l)
    ensures forall s :: (s in cl.Verified(live, c, l)
      ==> s in old(cl.Verified(Others(live, replacement), c, l)) || s in minted)
    ensures ok ==> m == |minted| && MembersAre(minted, cl.nodes[replacement].Bucket(cl.LayerKey(c, l)))
  {
    ghost var others, key, hs := Others(live, replacement), cl.LayerKey(c, l), cl.shardHashes;
    ghost var base := cl.Verified(others, c, l);
    ok, m := StoreMinted(cl, replacement, c, l, minted);
    forall n | n in others ensures cl.nodes[n].Bucket(key) == old(cl.nodes[n].Bucket(key)) {
      assert cl.nodes[n] != cl.nodes[replacement];
    }
    assert cl.Reachable(others, key) == old(cl.Reachable(others, key));
    AfterStore(cl, live, replacement, c, l, hs, minted, m, base);
  }

  /** One layer of repair_node: when every request is acknowledged, as many shards are listed as
      placement assigns to the node, provided there was a donor and d >= 1, and each listed one is
      stored there. Equal shards are listed again but stored once. */
  method RepairLayer(cl: Client, live: seq<u64>, replacement: u64, c: u8, l: u8, d: nat, rng: Rng)
    returns (ok: bool, ghost listed: seq<Shard>, ghost need: nat, ghost used: seq<Shard>, ghost draws: seq<Vec>)
    requires cl.Valid() && cl.LiveOk(live) && replacement in live && c < cl.plan.channels && l < |cl.stored|
    requires Apart(cl, rng) && replacement < |cl.nodes| && cl.InRange(Others(live, replacement)) && cl.HasLayer(c, l)
    requires cl.nodes[replacement].Bucket(cl.LayerKey(c, l)) == {}
    modifies cl`shardHashes, cl.nodes[replacement], rng
    ensures cl.Valid() && cl.HasLayer(c, l)
    ensures cl.shardHashes == WithShards(old(cl.shardHashes), c, l, listed)
    ensures forall key :: key != cl.LayerKey(c, l) ==> cl.nodes[replacement].Bucket(key) == old(cl.nodes[replacement].Bucket(key))
    ensures SameInformation(old(cl.Verified(Others(live, replacement), c, l)), cl.Verified(live, c, l), cl.k)
    ensures Placeable(cl.CurrentPlan(), live)
    ensures Assigned(cl.CurrentPlan(), c, l, live, replacement, need)
    ensures ok ==> |listed| == if d == 0 || old(cl.Verified(Others(live, replacement), c, l)) == {} then 0 else need
    ensures ok ==> MembersAre(listed, cl.nodes[replacement].Bucket(cl.LayerKey(c, l)))
    ensures FreshMixes(listed, used, draws, old(cl.Verified(Others(live, replacement), c, l)), d, cl.k, cl.stored[l])
    ensures rng.drawn == old(rng.drawn) + Flatten(draws)
  {
    hide Consistent, ListsValid, Placeable, SameInformation, AddsNothing, WithShards, Client.Verified, Assigned, FreshMixes, Flatten;
    ghost var base := cl.Verified(Others(live, replacement), c, l);
    ghost var hs := cl.shardHashes;
    EmptyReplacement(cl, live, replacement, c, l);
    SameInformationRefl(base, cl.k);
    WithOneMoreStart(hs, c, l);
    NoMixes(base, d, cl.k, cl.stored[l]);
    var minted, count;
    minted, count, used, draws := Mint(cl, live, replacement, c, l, d, rng);
    need := count;
    if minted.None? {
      return false, [], need, [], draws;
    }
    FewerMixes(minted.value, used, draws, base, d, cl.k, cl.stored[l]);
    ListingKeepsValidUpTo(hs, cl.source, cl.plan.channels, cl.stored, cl.k, c, l, minted.value);
    ghost var m;
    ok, m := StoreMintedApart(cl, live, replacement, c, l, minted.value);
    listed := minted.value[..m];
    BetweenSame(base, cl.Verified(live, c, l), minted.value, cl.k);
    ShapeKept(hs, c, l, listed);
  }

  lemma ShapeKept(hs: seq<seq<seq<Hash>>>, c: nat, l: nat, shards: seq<Shard>)
    requires c < |hs| && l < |hs[c]|
    ensures |WithShards(hs, c, l, shards)| == |hs| && l < |WithShards(hs, c, l, shards)[c]|
  {}

  lemma SameInformationRefl(a: set<Shard>, k: nat)
    ensures SameInformation(a, a, k)
  {}

  lemma ListingKeepsValidUpTo(hs: seq<seq<seq<Hash>>>, source: seq<seq<seq<Vec>>>, channels: nat, lens: seq<nat>, k: nat,
                              c: nat, l: nat, shards: seq<Shard>)
    requires ListsValid(hs, source, channels, lens, k) && c < channels && l < |lens|
    requires c < |hs| && c < |source| && l < |hs[c]| && l < |source[c]| && Matrix(source[c][l], lens[l])
    requires forall s :: s in shards ==> Consistent(s, source[c][l], lens[l])
    ensures forall m :: 0 <= m <= |shards| ==> ListsValid(WithShards(hs, c, l, shards[..m]), source, channels, lens, k)
  {
    hide Consistent, ListsValid;
    forall m | 0 <= m <= |shards| ensures ListsValid(WithShards(hs, c, l, shards[..m]), source, channels, lens, k) {
      ListingKeepsValid(hs, source, channels, lens, k, c, l, shards[..m]);
    }
  }

  // ---- The whole node -----------------------------------------------------------------------

  ghost predicate HasList(cl: Client, i: nat, j: nat)
    reads cl`shardHashes
  {
    i < |cl.shardHashes| && j < |cl.shardHashes[i]|
  }

  /** One layer as a repair sees it: its list of hashes, the verified shards of all live nodes and of
      those that are not being replaced, and what the replaced node holds. */
  datatype LayerView = LayerView(list: seq<Hash>, verified: set<Shard>, base: set<Shard>, held: set<Shard>)

  ghost function View(cl: Client, live: seq<u64>, replacement: u64, i: nat, j: nat): LayerView
    reads cl`shardHashes, cl`objectId, cl.nodes
  {
    if HasList(cl, i, j) && replacement < |cl.nodes| && cl.InRange(live) && cl.InRange(Others(live, replacement)) then
      LayerView(cl.shardHashes[i][j], cl.Verified(live, i, j), cl.Verified(Others(live, replacement), i, j),
                cl.nodes[replacement].Bucket(cl.LayerKey(i, j)))
    else LayerView([], {}, {}, {})
  }

  /** Afterwards the verified shards determine what those of the other nodes determined before. */
  ghost predicate InformationKept(before: LayerView, after: LayerView, k: nat) {
    SameInformation(before.base, after.verified, k)
  }

  /** Unless there was no donor, the list has grown by as many shards as placement assigns to the
      node, each a mix of at most d shards of the others, and the node holds exactly these. */
  ghost predicate Refilled(before: LayerView, after: LayerView, p: Plan, live: seq<u64>, node: u64, d: nat, i: nat, j: nat,
                           k: nat, sl: nat) {
    && i < 0x100 && j < |p.nPerLayer| < 0x100 && Placeable(p, live)
    && exists listed: seq<Shard>, need: nat ::
      && Assigned(p, i, j, live, node, need)
      && |listed| == (if d == 0 || before.base == {} then 0 else need)
      && after.list == before.list + HashesOf(listed)
      && MembersAre(listed, after.held)
      && MixesOf(listed, before.base, d, k, sl)
  }

  /** Each shard is a mix of the same at most d shards of the base. */
  ghost predicate MixesOf(listed: seq<Shard>, base: set<Shard>, d: nat, k: nat, sl: nat) {
    exists donors: seq<Shard>, draws: seq<Vec> :: FreshMixes(listed, donors, draws, base, d, k, sl)
  }

  lemma RefilledNow(before: LayerView, after: LayerView, p: Plan, live: seq<u64>, node: u64, d: nat, c: u8, l: u8,
                    listed: seq<Shard>, need: nat, k: nat, sl: nat)
    requires MixesOf(listed, before.base, d, k, sl)
    requires l < |p.nPerLayer| < 0x100 && Placeable(p, live) && Assigned(p, c, l, live, node, need)
    requires |listed| == (if d == 0 || before.base == {} then 0 else need) && after.list == before.list + HashesOf(listed)
    requires MembersAre(listed, after.held)
    ensures Refilled(before, after, p, live, node, d, c, l, k, sl)
  {
    hide Assigned, Placeable, HashesOf, MembersAre, MixesOf;
  }

  ghost function ListAt(cl: Client, i: nat, j: nat): seq<Hash>
    reads cl`shardHashes
  {
    if HasList(cl, i, j) then cl.shardHashes[i][j] else []
  }

  /** Repairing one layer keeps its information and refills it. */
  method RepairLayerView(cl: Client, live: seq<u64>, replacement: u64, c: u8, l: u8, d: nat, rng: Rng) returns (ok: bool)
    requires cl.Valid() && cl.LiveOk(live) && replacement in live && c < cl.plan.channels && l < |cl.stored|
    requires Apart(cl, rng) && replacement < |cl.nodes| && cl.InRange(Others(live, replacement)) && cl.HasLayer(c, l)
    requires View(cl, live, replacement, c, l).held == {}
    modifies cl`shardHashes, cl.nodes[replacement], rng
    ensures cl.Valid()
    ensures forall i: nat, j: nat :: HasList(cl, i, j) <==> old(HasList(cl, i, j))
    ensures forall i: nat, j: nat :: i != c || j != l ==> ListAt(cl, i, j) == old(ListAt(cl, i, j))
    ensures forall key :: key != cl.LayerKey(c, l) ==> cl.nodes[replacement].Bucket(key) == old(cl.nodes[replacement].Bucket(key))
    ensures InformationKept(old(View(cl, live, replacement, c, l)), View(cl, live, replacement, c, l), cl.k)
    ensures ok ==>
      Refilled(old(View(cl, live, replacement, c, l)), View(cl, live, replacement, c, l), cl.CurrentPlan(), live, replacement, d, c, l,
               cl.k, cl.stored[l])
  {
    assert |cl.stored| == |cl.plan.nPerLayer| < 0x100;
    hide SameInformation, Client.ManifestValid, Placeable, Assigned, HashesOf, Refilled, FreshMixes;
    ghost var listed, need, used, draws;
    ghost var before := View(cl, live, replacement, c, l);
    ok, listed, need, used, draws := RepairLayer(cl, live, replacement, c, l, d, rng);
    ghost var after := View(cl, live, replacement, c, l);
    assert after.list == before.list + HashesOf(listed);
    if ok {
      assert MixesOf(listed, before.base, d, cl.k, cl.stored[l]);
      RefilledNow(before, after, cl.CurrentPlan(), live, replacement, d, c, l, listed, need, cl.k, cl.stored[l]);
    }
  }

  /** It also leaves every other layer alone. */
  method RepairLayerOnly(cl: Client, live: seq<u64>, replacement: u64, c: u8, l: u8, d: nat, rng: Rng) returns (ok: bool)
    requires cl.Valid() && cl.LiveOk(live) && replacement in live && c < cl.plan.channels && l < |cl.stored|
    requires Apart(cl, rng) && replacement < |cl.nodes| && cl.InRange(Others(live, replacement)) && cl.HasLayer(c, l)
    requires View(cl, live, replacement, c, l).held == {}
    modifies cl`shardHashes, cl.nodes[replacement], rng
    ensures cl.Valid()
    ensures forall i: nat, j: nat :: i != c || j != l ==> View(cl, live, replacement, i, j) == old(View(cl, live, replacement, i, j))
    ensures InformationKept(old(View(cl, live, replacement, c, l)), View(cl, live, replacement, c, l), cl.k)
    ensures ok ==>
      Refilled(old(View(cl, live, replacement, c, l)), View(cl, live, replacement, c, l), cl.CurrentPlan(), live, replacement, d, c, l,
               cl.k, cl.stored[l])
  {
    hide InformationKept, Client.ManifestValid, Placeable, Refilled;
    ok := RepairLayerView(cl, live, replacement, c, l, d, rng);
    forall i: nat, j: nat | i != c || j != l
      ensures View(cl, live, replacement, i, j) == old(View(cl, live, replacement, i, j))
    {
      if HasList(cl, i, j) {
        ghost var key := cl.LayerKey(i, j);
        assert key != cl.LayerKey(c, l) && ListAt(cl, i, j) == old(ListAt(cl, i, j));
        forall n | 0 <= n < |cl.nodes| ensures cl.nodes[n].Bucket(key) == old(cl.nodes[n].Bucket(key)) {
          if n != replacement { assert cl.nodes[n] != cl.nodes[replacement]; }
        }
        assert cl.Reachable(live, key) == old(cl.Reachable(live, key));
        assert cl.Reachable(Others(live, replacement), key) == old(cl.Reachable(Others(live, replacement), key));
      }
    }
  }

  /** What the acknowledged purge leaves of a layer. */
  function Purged(v: LayerView): LayerView {
    LayerView(v.list, v.base, v.base, {})
  }

  /** First step: after an acknowledged purge the verified shards are those of the others. */
  method PurgeReplacement(cl: Client, live: seq<u64>, replacement: u64) returns (ok: bool)
    requires cl.NodesValid() && cl.InRange(live) && replacement < |cl.nodes| && cl.InRange(Others(live, replacement))
    modifies cl.nodes[replacement]
    ensures cl.NodesValid()
    ensures ok ==> forall i: nat, j: nat :: View(cl, live, replacement, i, j) == Purged(old(View(cl, live, replacement, i, j)))
  {
    ok := cl.SendPurge(replacement);
    if ok {
      forall i: nat, j: nat ensures View(cl, live, replacement, i, j) == Purged(old(View(cl, live, replacement, i, j))) {
        if HasList(cl, i, j) {
          EmptyReplacement(cl, live, replacement, i, j);
          forall n | n in Others(live, replacement)
            ensures cl.nodes[n].Bucket(cl.LayerKey(i, j)) == old(cl.nodes[n].Bucket(cl.LayerKey(i, j)))
          {
            assert cl.nodes[n] != cl.nodes[replacement];
          }
          assert cl.Reachable(Others(live, replacement), cl.LayerKey(i, j))
              == old(cl.Reachable(Others(live, replacement), cl.LayerKey(i, j)));
        }
      }
    }
  }

  /** The layers of one channel. Even when it stops early, every layer keeps its information. */
  method RepairChannel(cl: Client, live: seq<u64>, replacement: u64, c: u8, d: nat, rng: Rng) returns (ok: bool)
    requires cl.Valid() && cl.LiveOk(live) && replacement in live && c < cl.plan.channels
    requires Apart(cl, rng) && replacement < |cl.nodes| && cl.InRange(Others(live, replacement))
    requires forall j: nat :: j < |cl.stored| ==> IsPurged(View(cl, live, replacement, c, j))
    modifies cl`shardHashes, cl.nodes[replacement], rng
    ensures cl.Valid()
    ensures forall i: nat, j: nat :: i != c ==> View(cl, live, replacement, i, j) == old(View(cl, live, replacement, i, j))
    ensures forall j: nat :: j < |cl.stored| ==>
      InformationKept(old(View(cl, live, replacement, c, j)), View(cl, live, replacement, c, j), cl.k)
    ensures ok ==> forall j: nat :: j < |cl.stored| ==>
      Refilled(old(View(cl, live, replacement, c, j)), View(cl, live, replacement, c, j), cl.CurrentPlan(), live, replacement, d, c, j,
               cl.k, cl.stored[j])
  {
    hide ListsValid, Placeable, InformationKept, Refilled, View, Client.NodesValid;
    PurgedKeeps(cl.k);
    for l := 0 to |cl.plan.nPerLayer|
      invariant cl.Valid()
      invariant forall i: nat, j: nat :: i != c ==> View(cl, live, replacement, i, j) == old(View(cl, live, replacement, i, j))
      invariant forall j: nat :: l <= j < |cl.stored| ==> View(cl, live, replacement, c, j) == old(View(cl, live, replacement, c, j))
      invariant forall j: nat :: j < l ==>
        InformationKept(old(View(cl, live, replacement, c, j)), View(cl, live, replacement, c, j), cl.k)
      invariant forall j: nat :: j < l ==>
        Refilled(old(View(cl, live, replacement, c, j)), View(cl, live, replacement, c, j), cl.CurrentPlan(), live, replacement, d, c, j,
               cl.k, cl.stored[j])
    {
      cl.LayerPresent(c, l);
      var done := RepairLayerOnly(cl, live, replacement, c, l, d, rng);
      if !done {
        return false;
      }
    }
    ok := true;
  }

  /** The repair has not reached this layer. */
  ghost predicate IsPurged(v: LayerView) { v.held == {} && v.verified == v.base }

  lemma PurgedKeeps(k: nat)
    ensures forall v :: IsPurged(v) ==> InformationKept(v, v, k)
  {}

  method RepairChannels(cl: Client, live: seq<u64>, replacement: u64, d: nat, rng: Rng) returns (ok: bool)
    requires cl.Valid() && cl.LiveOk(live) && replacement in live
    requires Apart(cl, rng) && replacement < |cl.nodes| && cl.InRange(Others(live, replacement))
    requires forall i: nat, j: nat :: IsPurged(View(cl, live, replacement, i, j))
    modifies cl`shardHashes, cl.nodes[replacement], rng
    ensures cl.Valid()
    ensures forall i: nat, j: nat :: i < cl.plan.channels && j < |cl.stored| ==>
      InformationKept(old(View(cl, live, replacement, i, j)), View(cl, live, replacement, i, j), cl.k)
    ensures ok ==> forall i: nat, j: nat :: i < cl.plan.channels && j < |cl.stored| ==>
      Refilled(old(View(cl, live, replacement, i, j)), View(cl, live, replacement, i, j), cl.CurrentPlan(), live, replacement, d, i, j,
               cl.k, cl.stored[j])
  {
    hide Client.Valid, Placeable, InformationKept, Refilled, View;
    PurgedKeeps(cl.k);
    for c := 0 to cl.plan.channels
      invariant cl.Valid()
      invariant forall i: nat, j: nat :: c <= i ==> View(cl, live, replacement, i, j) == old(View(cl, live, replacement, i, j))
      invariant forall i: nat, j: nat :: i < c && j < |cl.stored| ==>
        InformationKept(old(View(cl, live, replacement, i, j)), View(cl, live, replacement, i, j), cl.k)
      invariant forall i: nat, j: nat :: i < c && j < |cl.stored| ==>
        Refilled(old(View(cl, live, replacement, i, j)), View(cl, live, replacement, i, j), cl.CurrentPlan(), live, replacement, d, i, j,
               cl.k, cl.stored[j])
    {
      var done := RepairChannel(cl, live, replacement, c, d, rng);
      if !done {
        return false;
      }
    }
    ok := true;
  }

  /** repair_node. Once the purge is acknowledged, and however the repair ends, each layer's verified
      shards on the live nodes determine exactly what those on the other nodes determined; the
      safety invariant holds throughout; a completed repair has refilled every layer and leaves the
      root of the new lists. */
  method RepairNode(cl: Client, live: seq<u64>, replacement: u64, d: nat, rng: Rng) returns (ok: bool, ghost purged: bool)
    requires cl.Valid() && cl.LiveOk(live) && replacement in live && Apart(cl, rng)
    modifies cl`shardHashes, cl`merkleRoot, cl.nodes, rng
    ensures cl.Valid() && cl.InRange(Others(live, replacement))
    ensures ok ==> purged && cl.merkleRoot == Root(AllHashes(cl.shardHashes))
    ensures !ok ==> cl.merkleRoot == old(cl.merkleRoot)
    ensures !purged ==> cl.shardHashes == old(cl.shardHashes)
    ensures forall n, key :: 0 <= n < |cl.nodes| && n != replacement ==> cl.nodes[n].Bucket(key) == old(cl.nodes[n].Bucket(key))
    ensures purged ==> forall i: nat, j: nat :: i < cl.plan.channels && j < |cl.stored| ==>
      InformationKept(old(View(cl, live, replacement, i, j)), View(cl, live, replacement, i, j), cl.k)
    ensures ok ==> forall i: nat, j: nat :: i < cl.plan.channels && j < |cl.stored| ==>
      Refilled(old(View(cl, live, replacement, i, j)), View(cl, live, replacement, i, j), cl.CurrentPlan(), live, replacement, d, i, j,
               cl.k, cl.stored[j])
  {
    hide ListsValid, Placeable, Client.NodesValid, View, SameInformation, Assigned, FreshMixes;
    OthersInRange(cl, live, replacement);
    var acked := PurgeReplacement(cl, live, replacement);
    purged := acked;
    if !acked {
      return false, purged;
    }
    ok := RepairChannels(cl, live, replacement, d, rng);
    if !ok {
      return;
    }
    cl.merkleRoot := ComputeRoot(cl.shardHashes);
  }

  // ---- One loss after another ---------------------------------------------------------------

  datatype Loss = Loss(replacement: u64, d: nat)

  /** One layer in the whole cluster: its list of hashes and what every node holds of it. */
  datatype LayerState = LayerState(list: seq<Hash>, buckets: map<nat, set<Shard>>)

  ghost function StateOf(cl: Client, i: nat, j: nat): LayerState
    reads cl`shardHashes, cl`objectId, cl.nodes
  {
    LayerState(if HasList(cl, i, j) then cl.shardHashes[i][j] else [],
               map n: nat | n < |cl.nodes| :: cl.nodes[n].Bucket(cl.LayerKey(i, j)))
  }

  /** The listed shards that these nodes hold. */
  ghost function VerifiedIn(s: LayerState, live: seq<u64>): set<Shard> {
    set n, t | n in live && n in s.buckets && t in s.buckets[n] && ShardHash(t) in s.list :: t
  }

  ghost function ViewIn(s: LayerState, live: seq<u64>, replacement: u64): LayerView {
    LayerView(s.list, VerifiedIn(s, live), VerifiedIn(s, Others(live, replacement)),
              if replacement in s.buckets then s.buckets[replacement] else {})
  }

  /** What a completed repair after one loss makes of the layer: only the replaced node and the end of
      the list have changed, the layer is refilled, and it determines what the others determined. */
  ghost predicate Repaired(s: LayerState, s': LayerState, p: Plan, live: seq<u64>, loss: Loss, i: nat, j: nat, k: nat,
                           sl: nat) {
    && s'.buckets.Keys == s.buckets.Keys
    && (forall n :: n in s.buckets && n != loss.replacement ==> s'.buckets[n] == s.buckets[n])
    && Refilled(ViewIn(s, live, loss.replacement), ViewIn(s', live, loss.replacement), p, live, loss.replacement, loss.d, i, j, k, sl)
    && InformationKept(ViewIn(s, live, loss.replacement), ViewIn(s', live, loss.replacement), k)
  }

  /** Each state results from the one before by repairing one loss. */
  ghost predicate RepairTrace(states: seq<LayerState>, p: Plan, live: seq<u64>, losses: seq<Loss>, i: nat, j: nat, k: nat,
                              sl: nat) {
    && |states| <= |losses| + 1
    && forall m :: 0 <= m < |states| - 1 ==> Repaired(states[m], states[m + 1], p, live, losses[m], i, j, k, sl)
  }

  /** What loss m leaves of the layer on the other nodes. */
  ghost function Left(states: seq<LayerState>, live: seq<u64>, losses: seq<Loss>, m: nat): set<Shard>
    requires m < |states| && m < |losses|
  {
    VerifiedIn(states[m], Others(live, losses[m].replacement))
  }

  lemma MoreDetermines(a: set<Shard>, b: set<Shard>, k: nat)
    requires a <= b && Determining(a, k)
    ensures Determining(b, k)
  {
    hide Dot;
    forall y: Vec | |y| == k && KilledBySet(b, y) ensures y == Zero(k) {
      assert KilledBySet(a, y);
    }
  }

  lemma SameDetermines(a: set<Shard>, b: set<Shard>, k: nat)
    requires SameInformation(a, b, k)
    ensures Determining(a, k) <==> Determining(b, k)
  {
    hide KilledBySet;
  }

  lemma LeftIsFewer(s: LayerState, live: seq<u64>, replacement: u64)
    ensures VerifiedIn(s, Others(live, replacement)) <= VerifiedIn(s, live)
  {}

  /** Over any series of losses, each repaired before the next: the layer is determined at the end exactly
      when it was at the start and every loss left enough of it, however often repair has mixed what
      was left. */
  lemma {:induction false} SeriesDetermined(states: seq<LayerState>, p: Plan, live: seq<u64>, losses: seq<Loss>, i: nat, j: nat,
                                             k: nat, sl: nat)
    requires |states| == |losses| + 1 && RepairTrace(states, p, live, losses, i, j, k, sl)
    ensures Determining(VerifiedIn(states[|losses|], live), k) <==>
      Determining(VerifiedIn(states[0], live), k)
      && forall m :: 0 <= m < |losses| ==> Determining(Left(states, live, losses, m), k)
  {
    hide Determining, VerifiedIn, Refilled, SameInformation;
    if losses == [] {
    } else {
      var m := |losses| - 1;
      SeriesDetermined(states[..m + 1], p, live, losses[..m], i, j, k, sl);
      assert Repaired(states[m], states[m + 1], p, live, losses[m], i, j, k, sl);
      SameDetermines(Left(states, live, losses, m), VerifiedIn(states[m + 1], live), k);
      LeftIsFewer(states[m], live, losses[m].replacement);
      if Determining(Left(states, live, losses, m), k) {
        MoreDetermines(Left(states, live, losses, m), VerifiedIn(states[m], live), k);
      }
      assert forall n :: 0 <= n < m ==> Left(states[..m + 1], live, losses[..m], n) == Left(states, live, losses, n);
    }
  }

  lemma StateVerified(cl: Client, live: seq<u64>, i: nat, j: nat)
    requires cl.InRange(live) && HasList(cl, i, j)
    ensures VerifiedIn(StateOf(cl, i, j), live) == cl.Verified(live, i, j)
  {
    forall n | n in live ensures n < |cl.nodes| {
      var q :| 0 <= q < |live| && live[q] == n;
    }
  }

  /** The view of a layer is a matter of its state. */
  lemma ViewOfState(cl: Client, live: seq<u64>, replacement: u64, i: nat, j: nat)
    requires cl.InRange(live) && replacement in live && HasList(cl, i, j)
    ensures View(cl, live, replacement, i, j) == ViewIn(StateOf(cl, i, j), live, replacement)
  {
    OthersInRange(cl, live, replacement);
    var n :| 0 <= n < |live| && live[n] == replacement;
    StateVerified(cl, live, i, j);
    StateVerified(cl, Others(live, replacement), i, j);
    hide Client.Verified, VerifiedIn;
  }

  lemma ListPresent(cl: Client, i: nat, j: nat)
    requires cl.HasLayer(i, j)
    ensures HasList(cl, i, j)
  {}

  /** repair_node as a step between states of one layer. */
  method RepairLoss(cl: Client, live: seq<u64>, loss: Loss, rng: Rng, ghost i: nat, ghost j: nat) returns (ok: bool)
    requires cl.Valid() && cl.LiveOk(live) && Apart(cl, rng) && loss.replacement in live
    requires i < cl.plan.channels && j < |cl.stored|
    modifies cl`shardHashes, cl`merkleRoot, cl.nodes, rng
    ensures cl.Valid() && HasList(cl, i, j)
    ensures ok ==> Repaired(old(StateOf(cl, i, j)), StateOf(cl, i, j), cl.CurrentPlan(), live, loss, i, j, cl.k, cl.stored[j])
  {
    hide Client.ManifestValid, Placeable, View, ViewIn, Refilled, SameInformation;
    cl.LayerPresent(i, j);
    ViewOfState(cl, live, loss.replacement, i, j);
    ghost var purged;
    ok, purged := RepairNode(cl, live, loss.replacement, loss.d, rng);
    cl.LayerPresent(i, j);
    ViewOfState(cl, live, loss.replacement, i, j);
  }

  /** Any series of losses, each repaired before the next, stopping at the first repair that fails. The
      states of the layer form a trace of repairs from the state before to the state after, so by
      SeriesDetermined the layer is determined exactly when every loss left enough of it. */
  method RepairSeries(cl: Client, live: seq<u64>, losses: seq<Loss>, rng: Rng, ghost i: nat, ghost j: nat)
    returns (done: bool, ghost states: seq<LayerState>)
    requires cl.Valid() && cl.LiveOk(live) && Apart(cl, rng) && i < cl.plan.channels && j < |cl.stored|
    requires forall m :: 0 <= m < |losses| ==> losses[m].replacement in live
    modifies cl`shardHashes, cl`merkleRoot, cl.nodes, rng
    ensures cl.Valid() && HasList(cl, i, j)
    ensures states != [] && states[0] == old(StateOf(cl, i, j))
    ensures RepairTrace(states, cl.CurrentPlan(), live, losses, i, j, cl.k, cl.stored[j])
    ensures done ==> |states| == |losses| + 1 && states[|losses|] == StateOf(cl, i, j)
    ensures done ==> (Determining(cl.Verified(live, i, j), cl.k) <==>
      Determining(VerifiedIn(states[0], live), cl.k)
      && forall m :: 0 <= m < |losses| ==> Determining(Left(states, live, losses, m), cl.k))
  {
    hide Client.ManifestValid, Client.NodesValid, Placeable, Determining, Repaired, StateOf, Client.Verified, VerifiedIn, HasList;
    cl.LayerPresent(i, j);
    assert HasList(cl, i, j) by { ListPresent(cl, i, j); }
    states := [StateOf(cl, i, j)];
    for n := 0 to |losses|
      invariant cl.Valid() && HasList(cl, i, j) && |states| == n + 1
      invariant states[0] == old(StateOf(cl, i, j)) && states[n] == StateOf(cl, i, j)
      invariant RepairTrace(states, cl.CurrentPlan(), live, losses, i, j, cl.k, cl.stored[j])
    {
      var ok := RepairLoss(cl, live, losses[n], rng, i, j);
      if !ok {
        return false, states;
      }
      states := states + [StateOf(cl, i, j)];
    }
    StateVerified(cl, live, i, j);
    SeriesDetermined(states, cl.CurrentPlan(), live, losses, i, j, cl.k, cl.stored[j]);
    done := true;
  }
}
