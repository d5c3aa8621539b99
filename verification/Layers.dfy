/** Priority layers of coefficients, and progressive reads: crates/holofs-core/src/transform.rs,
    crates/holofs-client/src/client.rs and the layer positions of a blank manifest. */
module Layers {
  import opened U64
  import opened Haar
  import opened HaarInPlace
  import opened HaarTheorems

  const LEVELS: nat := 3
  const NLAYERS: nat := LEVELS + 1

  /** The corner that is left after l halvings. */
  predicate InBlock(x: nat, y: nat, w: nat, h: nat, l: nat) {
    x < Shr(w, l) && y < Shr(h, l)
  }

  /** The search for the ring that holds (x, y), from level l downwards. */
  function RingFrom(x: nat, y: nat, w: nat, h: nat, l: nat): nat
    requires l <= LEVELS
  {
    if l == 0 then LEVELS
    else if InBlock(x, y, w, h, l - 1) && !InBlock(x, y, w, h, l) then LEVELS - l + 1
    else RingFrom(x, y, w, h, l - 1)
  }

  function CoeffLayer(x: nat, y: nat, w: nat, h: nat): nat {
    if InBlock(x, y, w, h, LEVELS) then 0 else RingFrom(x, y, w, h, LEVELS)
  }

  lemma BlocksNest(x: nat, y: nat, w: nat, h: nat, l: nat)
    requires InBlock(x, y, w, h, l + 1)
    ensures InBlock(x, y, w, h, l)
  {
    ShrFacts(w, l); ShrFacts(h, l);
  }

  lemma {:induction false} RingIs(x: nat, y: nat, w: nat, h: nat, l: nat, k: nat)
    requires x < w && y < h && l <= LEVELS && k <= LEVELS && !InBlock(x, y, w, h, l)
    ensures LEVELS - l < RingFrom(x, y, w, h, l) <= LEVELS
    ensures RingFrom(x, y, w, h, l) <= k <==> k > LEVELS - l && InBlock(x, y, w, h, LEVELS - k)
  {
    hide InBlock;
    assert InBlock(x, y, w, h, 0) by { ShrFacts(w, 0); ShrFacts(h, 0); BlockZero(x, y, w, h); }
    if InBlock(x, y, w, h, l - 1) {
      InsideOuter(x, y, w, h, l - 1, LEVELS - k);
      OutsideInner(x, y, w, h, l, LEVELS - k);
    } else {
      RingIs(x, y, w, h, l - 1, k);
    }
  }

  lemma BlockZero(x: nat, y: nat, w: nat, h: nat)
    requires x < w && y < h
    ensures InBlock(x, y, w, h, 0)
  {}

  lemma {:induction false} InsideOuter(x: nat, y: nat, w: nat, h: nat, l: nat, m: int)
    requires InBlock(x, y, w, h, l)
    ensures 0 <= m <= l ==> InBlock(x, y, w, h, m)
  {
    hide InBlock;
    if 0 <= m < l {
      BlocksNest(x, y, w, h, l - 1);
      InsideOuter(x, y, w, h, l - 1, m);
    }
  }

  lemma OutsideInner(x: nat, y: nat, w: nat, h: nat, l: nat, m: nat)
    requires !InBlock(x, y, w, h, l)
    ensures l <= m ==> !InBlock(x, y, w, h, m)
  {
    hide InBlock;
    if l <= m && InBlock(x, y, w, h, m) {
      InsideOuter(x, y, w, h, m, l);
    }
  }

  /** Layers 0..k are exactly the corner left after LEVELS - k halvings; this fixes the layer of
      every position of the plane. */
  lemma LayerAtMost(x: nat, y: nat, w: nat, h: nat, k: nat)
    requires x < w && y < h && k <= LEVELS
    ensures CoeffLayer(x, y, w, h) <= LEVELS
    ensures CoeffLayer(x, y, w, h) <= k <==> InBlock(x, y, w, h, LEVELS - k)
  {
    hide InBlock;
    if InBlock(x, y, w, h, LEVELS) {
      InsideOuter(x, y, w, h, LEVELS, LEVELS - k);
    } else {
      RingIs(x, y, w, h, LEVELS, k);
    }
  }

  /** The layer of place p of the buffer. */
  function LayerOf(p: nat, w: nat, h: nat): nat
    requires w > 0
  {
    CoeffLayer(p % w, p / w, w, h)
  }

  lemma LayerOfPlace(x: nat, y: nat, w: nat, h: nat)
    requires x < w && y < h
    ensures LayerOf(y * w + x, w, h) == CoeffLayer(x, y, w, h) < NLAYERS
  {
    QuotientIs(y * w + x, w, y, x);
    LayerAtMost(x, y, w, h, 0);
  }

  // ---- The positions of each layer -------------------------------------------------------------------

  ghost predicate Ascending(s: seq<nat>) {
    forall i, j :: 0 <= i < j < |s| ==> s[i] < s[j]
  }

  /** The lists partition the places below `upto`, each in ascending order. */
  ghost predicate Partition(positions: seq<seq<nat>>, w: nat, h: nat, upto: nat) {
    && w > 0 && |positions| == NLAYERS
    && forall l :: 0 <= l < NLAYERS ==> ListsLayer(positions[l], w, h, upto, l)
  }

  ghost predicate ListsLayer(list: seq<nat>, w: nat, h: nat, upto: nat, l: nat)
    requires w > 0
  {
    Ascending(list) && forall p :: p in list <==> 0 <= p < upto && LayerOf(p, w, h) == l
  }

  lemma ListPush(list: seq<nat>, w: nat, h: nat, p: nat, l: nat)
    requires w > 0 && ListsLayer(list, w, h, p, l)
    ensures ListsLayer(if LayerOf(p, w, h) == l then list + [p] else list, w, h, p + 1, l)
  {
    hide LayerOf;
    forall i | 0 <= i < |list| ensures list[i] < p { assert list[i] in list; }
    var longer := list + [p];
    forall q ensures q in longer <==> q in list || q == p { assert longer[|list|] == p; }
  }

  lemma PartitionPush(positions: seq<seq<nat>>, w: nat, h: nat, p: nat)
    requires Partition(positions, w, h, p) && LayerOf(p, w, h) < NLAYERS
    ensures var l := LayerOf(p, w, h); Partition(positions[l := positions[l] + [p]], w, h, p + 1)
  {
    hide LayerOf;
    var l := LayerOf(p, w, h);
    var pushed := positions[l := positions[l] + [p]];
    forall m | 0 <= m < NLAYERS ensures ListsLayer(pushed[m], w, h, p + 1, m) {
      assert ListsLayer(positions[m], w, h, p, m);
      ListPush(positions[m], w, h, p, m);
    }
  }

  /** The layer positions of blank_manifest: every place in exactly one list. */
  method LayerPositions(w: nat, h: nat) returns (positions: seq<seq<nat>>)
    requires w > 0
    ensures Partition(positions, w, h, w * h)
  {
    hide Partition, LayerOf, CoeffLayer;
    positions := seq(NLAYERS, _ => []);
    PartitionEmpty(w, h);
    for y := 0 to h
      invariant Partition(positions, w, h, y * w)
    {
      for x := 0 to w
        invariant Partition(positions, w, h, y * w + x)
      {
        LayerOfPlace(x, y, w, h);
        PartitionPush(positions, w, h, y * w + x);
        var l := CoeffLayer(x, y, w, h);
        assert |positions| == NLAYERS by { PartitionLists(positions, w, h, y * w + x); }
        positions := positions[l := positions[l] + [y * w + x]];
      }
      assert y * w + w == (y + 1) * w;
    }
  }

  lemma PartitionEmpty(w: nat, h: nat)
    requires w > 0
    ensures Partition(seq(NLAYERS, _ => []), w, h, 0)
  {}

  lemma PartitionLists(positions: seq<seq<nat>>, w: nat, h: nat, upto: nat)
    requires Partition(positions, w, h, upto)
    ensures w > 0 && |positions| == NLAYERS
    ensures forall l, i :: 0 <= l < NLAYERS && 0 <= i < |positions[l]| ==> positions[l][i] < upto
  {
    hide LayerOf;
    forall l, i | 0 <= l < NLAYERS && 0 <= i < |positions[l]| ensures positions[l][i] < upto {
      assert ListsLayer(positions[l], w, h, upto, l);
      assert positions[l][i] in positions[l];
    }
  }

  // ---- Storing and reading a plane ---------------------------------------------------------------------

  /** The coefficients at the listed places. */
  function Pick(d: seq<real>, list: seq<nat>): (v: seq<real>)
    requires forall i :: 0 <= i < |list| ==> list[i] < |d|
    ensures |v| == |list|
  {
    seq(|list|, i requires 0 <= i < |list| => d[list[i]])
  }

  /** What put_object encodes: the transformed plane, layer by layer. */
  method StoredLayers(plane: array<real>, w: nat, h: nat, levels: nat, positions: seq<seq<nat>>, s: Nonzero) returns (values: seq<seq<real>>)
    requires plane.Length == w * h && Partition(positions, w, h, w * h)
    modifies plane
    ensures plane[..] == Forward(old(plane[..]), w, h, w, h, levels, s)
    ensures Layered(values, positions, w, h, plane[..])
  {
    hide Forward;
    HaarForward(plane, w, h, levels, s);
    values := PickLayers(plane[..], positions, w, h);
  }

  method PickLayers(d: seq<real>, positions: seq<seq<nat>>, w: nat, h: nat) returns (values: seq<seq<real>>)
    requires Partition(positions, w, h, |d|)
    ensures Layered(values, positions, w, h, d)
  {
    hide Partition;
    PartitionLists(positions, w, h, |d|);
    values := [];
    for l := 0 to |positions|
      invariant |values| == l
      invariant forall m :: 0 <= m < l ==> values[m] == Pick(d, positions[m])
    {
      var layer: seq<real> := [];
      for i := 0 to |positions[l]|
        invariant |layer| == i
        invariant forall j :: 0 <= j < i ==> layer[j] == d[positions[l][j]]
      {
        layer := layer + [d[positions[l][i]]];
      }
      assert layer == Pick(d, positions[l]);
      values := values + [layer];
    }
  }

  /** values holds the coefficients of d, layer by layer. */
  ghost predicate Layered(values: seq<seq<real>>, positions: seq<seq<nat>>, w: nat, h: nat, d: seq<real>) {
    && Partition(positions, w, h, |d|) && |values| == |positions| == NLAYERS
    && (forall l, i :: 0 <= l < NLAYERS && 0 <= i < |positions[l]| ==> positions[l][i] < |d|)
    && forall l :: 0 <= l < NLAYERS ==> values[l] == Pick(d, positions[l])
  }

  /** The coefficients of the layers up to maxLayer; zero elsewhere. */
  function Masked(d: seq<real>, w: nat, h: nat, maxLayer: int): (r: seq<real>)
    requires w > 0
    ensures |r| == |d|
  {
    seq(|d|, p requires 0 <= p < |d| => if LayerOf(p, w, h) <= maxLayer then d[p] else 0.0)
  }

  /** The places of layers < l hold their coefficient (unless skipped), the others are zero. */
  ghost predicate Filled(plane: seq<real>, d: seq<real>, w: nat, h: nat, maxLayer: nat, l: nat)
    requires w > 0 && |plane| == |d|
  {
    forall p :: 0 <= p < |d| ==> plane[p] == if LayerOf(p, w, h) < l && LayerOf(p, w, h) <= maxLayer then d[p] else 0.0
  }

  /** Write one decoded layer into the plane. */
  method PlaceLayer(plane: array<real>, positions: seq<nat>, values: seq<real>, w: nat, h: nat, maxLayer: nat, l: nat, ghost d: seq<real>)
    requires w > 0 && |d| == plane.Length && Filled(plane[..], d, w, h, maxLayer, l) && l <= maxLayer
    requires ListsLayer(positions, w, h, |d|, l) && (forall i :: 0 <= i < |positions| ==> positions[i] < |d|)
    requires values == Pick(d, positions)
    modifies plane
    ensures Filled(plane[..], d, w, h, maxLayer, l + 1)
  {
    hide LayerOf;
    for i := 0 to |positions|
      invariant forall p :: 0 <= p < |d| ==> plane[p] == if p in positions[..i] then d[p] else old(plane[p])
    {
      plane[positions[i]] := values[i];
      assert positions[..i + 1] == positions[..i] + [positions[i]];
    }
    assert positions[..|positions|] == positions;
  }

  /** get_object_up_to_layer for one channel, given the decoded layers. */
  method ReadUpTo(w: nat, h: nat, levels: nat, positions: seq<seq<nat>>, values: seq<seq<real>>, maxLayer: nat, s: Nonzero, ghost d: seq<real>)
    returns (plane: array<real>)
    requires |d| == w * h && Layered(values, positions, w, h, d)
    ensures fresh(plane) && plane[..] == Inverse(Masked(d, w, h, maxLayer), w, h, w, h, levels, s)
  {
    assert w > 0;
    hide Inverse, Filled, Layered;
    plane := new real[w * h](_ => 0.0);
    PlaceLayers(plane, positions, values, w, h, maxLayer, d);
    FilledAll(plane[..], d, w, h, maxLayer);
    HaarInverse(plane, w, h, levels, s);
  }

  /** Write the layers up to maxLayer into a plane of zeros. */
  method PlaceLayers(plane: array<real>, positions: seq<seq<nat>>, values: seq<seq<real>>, w: nat, h: nat, maxLayer: nat, ghost d: seq<real>)
    requires |d| == plane.Length && w > 0 && Layered(values, positions, w, h, d)
    requires forall p :: 0 <= p < plane.Length ==> plane[p] == 0.0
    modifies plane
    ensures Filled(plane[..], d, w, h, maxLayer, NLAYERS)
  {
    hide Filled, LayerOf, ListsLayer;
    FilledStart(plane[..], d, w, h, maxLayer);
    for l := 0 to NLAYERS
      invariant Filled(plane[..], d, w, h, maxLayer, l)
    {
      if l > maxLayer {
        SkipLayer(plane[..], d, w, h, maxLayer, l);
        continue;
      }
      PlaceLayer(plane, positions[l], values[l], w, h, maxLayer, l, d);
    }
  }

  lemma FilledStart(plane: seq<real>, d: seq<real>, w: nat, h: nat, maxLayer: nat)
    requires w > 0 && |plane| == |d| && forall p :: 0 <= p < |plane| ==> plane[p] == 0.0
    ensures Filled(plane, d, w, h, maxLayer, 0)
  {}

  lemma SkipLayer(plane: seq<real>, d: seq<real>, w: nat, h: nat, maxLayer: nat, l: nat)
    requires w > 0 && |plane| == |d| && Filled(plane, d, w, h, maxLayer, l) && l > maxLayer
    ensures Filled(plane, d, w, h, maxLayer, l + 1)
  {
    hide LayerOf;
  }

  /** Every place of the plane has a layer. */
  lemma LayerInRange(p: nat, w: nat, h: nat)
    requires w > 0 && p < w * h
    ensures LayerOf(p, w, h) < NLAYERS
  {
    var x, y := p % w, p / w;
    assert p == y * w + x;
    if h < y { Below(w, h, y); }
    LayerAtMost(x, y, w, h, 0);
  }

  lemma FilledAll(plane: seq<real>, d: seq<real>, w: nat, h: nat, maxLayer: nat)
    requires w > 0 && |plane| == |d| == w * h && Filled(plane, d, w, h, maxLayer, NLAYERS)
    ensures plane == Masked(d, w, h, maxLayer)
  {
    hide LayerOf;
    forall p | 0 <= p < |d| ensures plane[p] == Masked(d, w, h, maxLayer)[p] {
      LayerInRange(p, w, h);
    }
  }

  // ---- Progressive reads never get worse -----------------------------------------------------------------

  /** Energy of the coefficients a read up to maxLayer skips. */
  function SkippedEnergy(d: seq<real>, w: nat, h: nat, maxLayer: int): real
    requires w > 0
  {
    if d == [] then 0.0 else
      var p := |d| - 1;
      SkippedEnergy(d[..p], w, h, maxLayer) + if LayerOf(p, w, h) > maxLayer then Sq(d[p]) else 0.0
  }

  lemma {:induction false} MaskedError(d: seq<real>, w: nat, h: nat, maxLayer: int)
    requires w > 0
    ensures Energy(Minus(d, Masked(d, w, h, maxLayer))) == SkippedEnergy(d, w, h, maxLayer)
  {
    hide LayerOf;
    if d == [] {
    } else {
      var p := |d| - 1;
      MaskedError(d[..p], w, h, maxLayer);
      assert Minus(d, Masked(d, w, h, maxLayer))[..p] == Minus(d[..p], Masked(d[..p], w, h, maxLayer));
    }
  }

  lemma {:induction false} SkippedShrinks(d: seq<real>, w: nat, h: nat, lo: int, hi: int)
    requires w > 0 && lo <= hi
    ensures 0.0 <= SkippedEnergy(d, w, h, hi) <= SkippedEnergy(d, w, h, lo)
  {
    hide LayerOf;
    if d == [] {
    } else {
      SkippedShrinks(d[..|d| - 1], w, h, lo, hi);
    }
  }

  /** The plane a read up to maxLayer yields. */
  ghost function Preview(d: seq<real>, w: nat, h: nat, levels: nat, maxLayer: int, s: Nonzero): (r: seq<real>)
    requires w > 0 && |d| == w * h
    ensures |r| == |d|
  {
    Inverse(Masked(Forward(d, w, h, w, h, levels, s), w, h, maxLayer), w, h, w, h, levels, s)
  }

  /** The squared error of a read up to a layer is exactly the energy of the skipped coefficients. */
  lemma PreviewError(d: seq<real>, w: nat, h: nat, levels: nat, maxLayer: int, s: Nonzero)
    requires w > 0 && |d| == w * h && s * s == 2.0 && w % Pow2(levels) == 0 && h % Pow2(levels) == 0
    ensures Energy(Minus(d, Preview(d, w, h, levels, maxLayer, s)))
         == SkippedEnergy(Forward(d, w, h, w, h, levels, s), w, h, maxLayer)
  {
    hide Forward, Inverse, Masked, Energy, Minus, SkippedEnergy;
    var q := Forward(d, w, h, w, h, levels, s);
    var m := Masked(q, w, h, maxLayer);
    HalvableMeansDivisible(w, levels); HalvableMeansDivisible(h, levels);
    RoundTripHalvable(d, w, h, w, h, levels, s);
    InverseMinus(q, m, w, h, w, h, levels, s);
    EnergyKept(Minus(q, m), w, h, levels, s);
    MaskedError(q, w, h, maxLayer);
  }

  /** More layers never give a worse picture, and all of them give the picture itself. */
  lemma PreviewsImprove(d: seq<real>, w: nat, h: nat, levels: nat, lo: nat, hi: nat, s: Nonzero)
    requires w > 0 && |d| == w * h && s * s == 2.0 && w % Pow2(levels) == 0 && h % Pow2(levels) == 0
    requires lo <= hi
    ensures Energy(Minus(d, Preview(d, w, h, levels, hi, s))) <= Energy(Minus(d, Preview(d, w, h, levels, lo, s)))
    ensures hi >= NLAYERS - 1 ==> Preview(d, w, h, levels, hi, s) == d
  {
    hide Forward, Inverse, Energy, Minus, SkippedEnergy, LayerOf;
    var q := Forward(d, w, h, w, h, levels, s);
    PreviewError(d, w, h, levels, lo, s); PreviewError(d, w, h, levels, hi, s);
    SkippedShrinks(q, w, h, lo, hi);
    if hi >= NLAYERS - 1 {
      forall p | 0 <= p < |q| ensures Masked(q, w, h, hi)[p] == q[p] { LayerInRange(p, w, h); }
      assert Masked(q, w, h, hi) == q;
      HalvableMeansDivisible(w, levels); HalvableMeansDivisible(h, levels);
      RoundTripHalvable(d, w, h, w, h, levels, s);
    }
  }
}
