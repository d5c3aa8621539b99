/** Priority layers of one-dimensional coefficients and progressive audio reads (coeff_layer_1d in
    crates/holofs-core/src/transform.rs, the audio path of crates/holofs-client/src/client.rs). A line of
    n samples is the first row of a plane of which only the columns matter. */
module AudioLayers {
  import opened U64
  import opened Haar
  import opened HaarInPlace
  import opened HaarTheorems
  import opened Layers

  /** Tall enough that every corner reaches the first row. */
  const TALL: nat := 8

  function RingFrom1D(i: nat, n: nat, l: nat): nat
    requires l <= LEVELS
  {
    if l == 0 then LEVELS
    else if i < Shr(n, l - 1) && i >= Shr(n, l) then LEVELS - l + 1
    else RingFrom1D(i, n, l - 1)
  }

  function CoeffLayer1D(i: nat, n: nat): nat {
    if i < Shr(n, LEVELS) then 0 else RingFrom1D(i, n, LEVELS)
  }

  lemma TallEnough(l: nat)
    requires l <= LEVELS
    ensures Shr(TALL, l) > 0
  {
    assert Shr(8, 0) == 8 && Shr(8, 1) == 4 && Shr(8, 2) == 2 && Shr(8, 3) == 1;
  }

  lemma {:induction false} RingInFirstRow(i: nat, n: nat, l: nat)
    requires l <= LEVELS
    ensures RingFrom1D(i, n, l) == RingFrom(i, 0, n, TALL, l)
  {
    hide Shr;
    if l == 0 {
    } else {
      TallEnough(l);
      TallEnough(l - 1);
      RingInFirstRow(i, n, l - 1);
    }
  }

  lemma FirstRow(i: nat, n: nat)
    requires i < n
    ensures CoeffLayer1D(i, n) == LayerOf(i, n, TALL) < NLAYERS
  {
    hide Shr;
    TallEnough(LEVELS);
    RingInFirstRow(i, n, LEVELS);
    LayerOfPlace(i, 0, n, TALL);
  }

  /** Layers 0..k are exactly what is left of the line after LEVELS - k halvings. */
  lemma Layer1DAtMost(i: nat, n: nat, k: nat)
    requires i < n && k <= LEVELS
    ensures CoeffLayer1D(i, n) <= k <==> i < Shr(n, LEVELS - k)
  {
    hide Shr, CoeffLayer;
    TallEnough(LEVELS);
    RingInFirstRow(i, n, LEVELS);
    assert CoeffLayer1D(i, n) == CoeffLayer(i, 0, n, TALL) by { FirstRow(i, n); LayerOfPlace(i, 0, n, TALL); }
    LayerAtMost(i, 0, n, TALL, k);
    TallEnough(LEVELS - k);
  }

  /** Every place of the line in exactly one list, in ascending order. */
  method AudioPositions(n: nat) returns (positions: seq<seq<nat>>)
    requires n > 0
    ensures Partition(positions, n, TALL, n)
  {
    hide Partition, LayerOf, CoeffLayer1D;
    positions := seq(NLAYERS, _ => []);
    PartitionEmpty(n, TALL);
    for i := 0 to n
      invariant Partition(positions, n, TALL, i)
    {
      FirstRow(i, n);
      PartitionPush(positions, n, TALL, i);
      PartitionLists(positions, n, TALL, i);
      var l := CoeffLayer1D(i, n);
      positions := positions[l := positions[l] + [i]];
    }
  }

  /** What put_audio_object encodes for one channel: the transformed line, layer by layer. */
  method StoredAudio(line: array<real>, levels: nat, positions: seq<seq<nat>>, s: Nonzero) returns (values: seq<seq<real>>)
    requires line.Length > 0 && Partition(positions, line.Length, TALL, line.Length)
    modifies line
    ensures line[..] == Forward1D(old(line[..]), line.Length, levels, s)
    ensures Layered(values, positions, line.Length, TALL, line[..])
  {
    hide Forward1D;
    HaarForward1D(line, levels, s);
    values := PickLayers(line[..], positions, line.Length, TALL);
  }

  /** get_audio_object_up_to_layer for one channel, given the decoded layers. */
  method ReadAudio(n: nat, levels: nat, positions: seq<seq<nat>>, values: seq<seq<real>>, maxLayer: nat, s: Nonzero, ghost d: seq<real>)
    returns (line: array<real>)
    requires n > 0 && |d| == n && Layered(values, positions, n, TALL, d)
    ensures fresh(line) && line[..] == Inverse1D(Masked(d, n, TALL, maxLayer), n, levels, s)
  {
    hide Inverse1D, Layered;
    line := new real[n](_ => 0.0);
    PlaceLayers(line, positions, values, n, TALL, maxLayer, d);
    assert line[..] == Masked(d, n, TALL, maxLayer) by { LineFilled(line[..], d, n, maxLayer); }
    HaarInverse1D(line, levels, s);
  }

  lemma LineFilled(line: seq<real>, d: seq<real>, n: nat, maxLayer: nat)
    requires n > 0 && |line| == |d| == n && Filled(line, d, n, TALL, maxLayer, NLAYERS)
    ensures line == Masked(d, n, TALL, maxLayer)
  {
    hide LayerOf, CoeffLayer1D;
    forall p | 0 <= p < n ensures line[p] == Masked(d, n, TALL, maxLayer)[p] { FirstRow(p, n); }
  }

  // ---- Progressive reads never get worse -----------------------------------------------------------------

  lemma {:induction false} Inverse1DMinus(a: seq<real>, b: seq<real>, cn: nat, levels: nat, s: Nonzero)
    requires |a| == |b| && cn <= |a|
    ensures Inverse1D(Minus(a, b), cn, levels, s) == Minus(Inverse1D(a, cn, levels, s), Inverse1D(b, cn, levels, s))
    decreases levels
  {
    hide Apply, Minus;
    if levels == 0 {
    } else {
      Inverse1DMinus(a, b, cn / 2, levels - 1, s);
      PrefixFits(cn, |a|);
      ApplyMinus(Inverse1D(a, cn / 2, levels - 1, s), Inverse1D(b, cn / 2, levels - 1, s), Prefix(cn), Back, s);
    }
  }

  /** The line a read up to maxLayer yields. */
  ghost function AudioPreview(d: seq<real>, levels: nat, maxLayer: int, s: Nonzero): (r: seq<real>)
    requires d != []
    ensures |r| == |d|
  {
    Inverse1D(Masked(Forward1D(d, |d|, levels, s), |d|, TALL, maxLayer), |d|, levels, s)
  }

  /** The squared error of a read up to a layer is exactly the energy of the skipped coefficients. */
  lemma AudioPreviewError(d: seq<real>, levels: nat, maxLayer: int, s: Nonzero)
    requires d != [] && s * s == 2.0 && |d| % Pow2(levels) == 0
    ensures Energy(Minus(d, AudioPreview(d, levels, maxLayer, s)))
         == SkippedEnergy(Forward1D(d, |d|, levels, s), |d|, TALL, maxLayer)
  {
    hide Forward1D, Inverse1D, Masked, Energy, Minus, SkippedEnergy, Halvable;
    var n := |d|;
    var q := Forward1D(d, n, levels, s);
    var m := Masked(q, n, TALL, maxLayer);
    HalvableMeansDivisible(n, levels);
    RoundTrip1DHalvable(d, n, levels, s);
    Inverse1DMinus(q, m, n, levels, s);
    InverseEnergy1D(Minus(q, m), levels, s);
    MaskedError(q, n, TALL, maxLayer);
  }

  lemma InverseEnergy1D(q: seq<real>, levels: nat, s: Nonzero)
    requires s * s == 2.0 && Halvable(|q|, levels)
    ensures Energy(Inverse1D(q, |q|, levels, s)) == Energy(q)
  {
    hide Forward1D, Inverse1D, Energy, Halvable;
    RoundTrip1DHalvable(q, |q|, levels, s);
    RoundTrip1DHalvable(Inverse1D(q, |q|, levels, s), |q|, levels, s);
  }

  /** More layers never give worse sound, and all of them give the line itself. */
  lemma AudioPreviewsImprove(d: seq<real>, levels: nat, lo: nat, hi: nat, s: Nonzero)
    requires d != [] && s * s == 2.0 && |d| % Pow2(levels) == 0 && lo <= hi
    ensures Energy(Minus(d, AudioPreview(d, levels, hi, s))) <= Energy(Minus(d, AudioPreview(d, levels, lo, s)))
    ensures hi >= NLAYERS - 1 ==> AudioPreview(d, levels, hi, s) == d
  {
    hide Forward1D, Inverse1D, Energy, Minus, SkippedEnergy, LayerOf, Halvable, CoeffLayer1D;
    var n := |d|;
    var q := Forward1D(d, n, levels, s);
    AudioPreviewError(d, levels, lo, s);
    AudioPreviewError(d, levels, hi, s);
    SkippedShrinks(q, n, TALL, lo, hi);
    if hi >= NLAYERS - 1 {
      forall p | 0 <= p < n ensures Masked(q, n, TALL, hi)[p] == q[p] { FirstRow(p, n); }
      assert Masked(q, n, TALL, hi) == q;
      HalvableMeansDivisible(n, levels);
      RoundTrip1DHalvable(d, n, levels, s);
    }
  }
}
