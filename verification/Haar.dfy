/** The Haar wavelet transform in place (crates/holofs-core/src/transform.rs), over exact reals.
    A plane is a flat buffer; rows and columns are lines of equally spaced samples in it. */
module Haar {
  import opened U64

  /** The divisor SQRT2: the theorems need s * s == 2. */
  type Nonzero = s: real | s != 0.0 witness 1.0

  /** n samples of a buffer, `stride` apart. */
  datatype Line = Line(off: nat, stride: nat, n: nat)

  datatype Dir = Forth | Back

  function Opposite(dir: Dir): Dir {
    if dir.Forth? then Back else Forth
  }

  function At(l: Line, i: nat): nat {
    l.off + i * l.stride
  }

  /** The samples of the line are distinct places of a buffer of this length. */
  ghost predicate Fits(l: Line, len: nat) {
    && (forall i :: 0 <= i < l.n ==> At(l, i) < len)
    && (forall i, j :: 0 <= i < j < l.n ==> At(l, i) != At(l, j))
  }

  ghost predicate Disjoint(a: Line, b: Line) {
    forall i, j :: 0 <= i < a.n && 0 <= j < b.n ==> At(a, i) != At(b, j)
  }

  function Gather(d: seq<real>, l: Line): (v: seq<real>)
    requires Fits(l, |d|)
    ensures |v| == l.n
  {
    seq(l.n, i requires 0 <= i < l.n => d[At(l, i)])
  }

  /** d with the first |v| samples of the line replaced by v. */
  function Scatter(d: seq<real>, l: Line, v: seq<real>): (r: seq<real>)
    requires Fits(l, |d|) && |v| <= l.n
    ensures |r| == |d|
  {
    if v == [] then d else
      var m := |v| - 1;
      Scatter(d, l, v[..m])[At(l, m) := v[m]]
  }

  /** One analysis step: sums in the first half, differences in the second; an odd last place is zero. */
  function Analyze(v: seq<real>, s: Nonzero): (r: seq<real>)
    ensures |r| == |v|
  {
    var half := |v| / 2;
    seq(|v|, i requires 0 <= i < |v| =>
      if i < half then (v[2 * i] + v[2 * i + 1]) / s
      else if i < 2 * half then (v[2 * (i - half)] - v[2 * (i - half) + 1]) / s
      else 0.0)
  }

  function Synthesize(v: seq<real>, s: Nonzero): (r: seq<real>)
    ensures |r| == |v|
  {
    var half := |v| / 2;
    seq(|v|, i requires 0 <= i < |v| =>
      if i >= 2 * half then 0.0
      else if i % 2 == 0 then (v[i / 2] + v[half + i / 2]) / s
      else (v[i / 2] - v[half + i / 2]) / s)
  }

  lemma AnalyzeAt(v: seq<real>, i: nat, s: Nonzero)
    requires i < |v| / 2
    ensures Analyze(v, s)[i] == (v[2 * i] + v[2 * i + 1]) / s
    ensures Analyze(v, s)[|v| / 2 + i] == (v[2 * i] - v[2 * i + 1]) / s
  {}

  lemma SynthesizeAt(v: seq<real>, i: nat, s: Nonzero)
    requires i < |v| / 2
    ensures Synthesize(v, s)[2 * i] == (v[i] + v[|v| / 2 + i]) / s
    ensures Synthesize(v, s)[2 * i + 1] == (v[i] - v[|v| / 2 + i]) / s
  {}

  function Turn(v: seq<real>, dir: Dir, s: Nonzero): (r: seq<real>)
    ensures |r| == |v|
  {
    if dir.Forth? then Analyze(v, s) else Synthesize(v, s)
  }

  function Apply(d: seq<real>, l: Line, dir: Dir, s: Nonzero): (r: seq<real>)
    requires Fits(l, |d|)
    ensures |r| == |d|
  {
    Scatter(d, l, Turn(Gather(d, l), dir, s))
  }

  // ---- Laws of one line ----------------------------------------------------------------------

  lemma {:induction false} ScatterLaw(d: seq<real>, l: Line, v: seq<real>)
    requires Fits(l, |d|) && |v| <= l.n
    ensures forall i :: 0 <= i < |v| ==> Scatter(d, l, v)[At(l, i)] == v[i]
    ensures forall p :: 0 <= p < |d| && (forall i :: 0 <= i < |v| ==> At(l, i) != p) ==> Scatter(d, l, v)[p] == d[p]
  {
    hide At;
    if v == [] {
    } else {
      ScatterLaw(d, l, v[..|v| - 1]);
    }
  }

  /** Two buffers that agree on the line and off it are equal. */
  lemma SameEverywhere(a: seq<real>, b: seq<real>, l: Line)
    requires |a| == |b| && Fits(l, |a|)
    requires forall i :: 0 <= i < l.n ==> a[At(l, i)] == b[At(l, i)]
    requires forall p :: 0 <= p < |a| && (forall i :: 0 <= i < l.n ==> At(l, i) != p) ==> a[p] == b[p]
    ensures a == b
  {
    hide At;
    forall p | 0 <= p < |a| ensures a[p] == b[p] {
      if i :| 0 <= i < l.n && At(l, i) == p {}
    }
  }

  lemma ApplyLaw(d: seq<real>, l: Line, dir: Dir, s: Nonzero)
    requires Fits(l, |d|)
    ensures forall i :: 0 <= i < l.n ==> Apply(d, l, dir, s)[At(l, i)] == Turn(Gather(d, l), dir, s)[i]
    ensures forall p :: 0 <= p < |d| && (forall i :: 0 <= i < l.n ==> At(l, i) != p) ==> Apply(d, l, dir, s)[p] == d[p]
    ensures Gather(Apply(d, l, dir, s), l) == Turn(Gather(d, l), dir, s)
  {
    hide At, Turn;
    ScatterLaw(d, l, Turn(Gather(d, l), dir, s));
  }

  /** A line apart from this one is not touched. */
  lemma ApplyElsewhere(d: seq<real>, l: Line, dir: Dir, s: Nonzero, m: Line)
    requires Fits(l, |d|) && Fits(m, |d|) && Disjoint(l, m)
    ensures Gather(Apply(d, l, dir, s), m) == Gather(d, m)
  {
    hide At, Turn, Apply;
    ApplyLaw(d, l, dir, s);
    forall j | 0 <= j < m.n ensures Apply(d, l, dir, s)[At(m, j)] == d[At(m, j)] {}
  }

  lemma RootLaw(a: real, b: real, s: Nonzero)
    requires s * s == 2.0
    ensures ((a + b) / s + (a - b) / s) / s == a
    ensures ((a + b) / s - (a - b) / s) / s == b
  {
    assert (a + b) / s + (a - b) / s == 2.0 * a / s;
    assert (a + b) / s - (a - b) / s == 2.0 * b / s;
    Twice(a, s); Twice(b, s);
  }

  lemma Twice(a: real, s: Nonzero)
    requires s * s == 2.0
    ensures 2.0 * a / s / s == a
  {
    assert 2.0 * a / s == a * s;
  }

  lemma TurnUndo(v: seq<real>, dir: Dir, s: Nonzero)
    requires s * s == 2.0 && |v| % 2 == 0
    ensures Turn(Turn(v, dir, s), Opposite(dir), s) == v
  {
    if dir.Forth? {
      AnalyzeUndo(v, s);
    } else {
      SynthesizeUndo(v, s);
    }
  }

  lemma AnalyzeUndo(v: seq<real>, s: Nonzero)
    requires s * s == 2.0 && |v| % 2 == 0
    ensures Synthesize(Analyze(v, s), s) == v
  {
    var half := |v| / 2;
    forall i | 0 <= i < |v| ensures Synthesize(Analyze(v, s), s)[i] == v[i] {
      var j := i / 2;
      assert Analyze(v, s)[j] == (v[2 * j] + v[2 * j + 1]) / s;
      assert Analyze(v, s)[half + j] == (v[2 * j] - v[2 * j + 1]) / s;
      RootLaw(v[2 * j], v[2 * j + 1], s);
    }
  }

  lemma SynthesizeUndo(v: seq<real>, s: Nonzero)
    requires s * s == 2.0 && |v| % 2 == 0
    ensures Analyze(Synthesize(v, s), s) == v
  {
    hide Analyze, Synthesize;
    var half, w := |v| / 2, Synthesize(v, s);
    forall i | 0 <= i < |v| ensures Analyze(w, s)[i] == v[i] {
      var j := if i < half then i else i - half;
      SynthesizeAt(v, j, s);
      AnalyzeAt(w, j, s);
      RootLaw(v[j], v[half + j], s);
    }
  }

  lemma ApplyUndo(d: seq<real>, l: Line, dir: Dir, s: Nonzero)
    requires Fits(l, |d|) && s * s == 2.0 && l.n % 2 == 0
    ensures Apply(Apply(d, l, dir, s), l, Opposite(dir), s) == d
  {
    hide At, Turn, Apply;
    var e := Apply(d, l, dir, s);
    ApplyLaw(d, l, dir, s);
    ApplyLaw(e, l, Opposite(dir), s);
    TurnUndo(Gather(d, l), dir, s);
    SameEverywhere(Apply(e, l, Opposite(dir), s), d, l);
  }

  lemma ApplyCommute(d: seq<real>, a: Line, b: Line, x: Dir, y: Dir, s: Nonzero)
    requires Fits(a, |d|) && Fits(b, |d|) && Disjoint(a, b)
    ensures Apply(Apply(d, a, x, s), b, y, s) == Apply(Apply(d, b, y, s), a, x, s)
  {
    hide At, Turn, Apply, Gather;
    var da, db := Apply(d, a, x, s), Apply(d, b, y, s);
    ApplyLaw(d, a, x, s); ApplyLaw(d, b, y, s);
    ApplyLaw(da, b, y, s); ApplyLaw(db, a, x, s);
    ApplyElsewhere(d, a, x, s, b); ApplyElsewhere(d, b, y, s, a);
    SameEverywhere(Apply(da, b, y, s), Apply(db, a, x, s), a);
  }

  // ---- Passes over many lines ------------------------------------------------------------------

  ghost predicate AllFit(lines: seq<Line>, len: nat) {
    forall k :: 0 <= k < |lines| ==> Fits(lines[k], len)
  }

  ghost predicate AllApart(lines: seq<Line>) {
    forall j, k :: 0 <= j < k < |lines| ==> Disjoint(lines[j], lines[k])
  }

  ghost predicate AllEven(lines: seq<Line>) {
    forall k :: 0 <= k < |lines| ==> lines[k].n % 2 == 0
  }

  function Pass(d: seq<real>, lines: seq<Line>, dir: Dir, s: Nonzero): (r: seq<real>)
    requires AllFit(lines, |d|)
    ensures |r| == |d|
  {
    if lines == [] then d else
      var m := |lines| - 1;
      Apply(Pass(d, lines[..m], dir, s), lines[m], dir, s)
  }

  lemma {:induction false} PassCommute(d: seq<real>, lines: seq<Line>, dir: Dir, l: Line, y: Dir, s: Nonzero)
    requires AllFit(lines, |d|) && Fits(l, |d|) && forall k :: 0 <= k < |lines| ==> Disjoint(lines[k], l)
    ensures Apply(Pass(d, lines, dir, s), l, y, s) == Pass(Apply(d, l, y, s), lines, dir, s)
  {
    hide Apply, Fits, Disjoint;
    if lines == [] {
    } else {
      var m := |lines| - 1;
      PassCommute(d, lines[..m], dir, l, y, s);
      ApplyCommute(Pass(d, lines[..m], dir, s), lines[m], l, dir, y, s);
    }
  }

  lemma {:induction false} PassUndo(d: seq<real>, lines: seq<Line>, dir: Dir, s: Nonzero)
    requires AllFit(lines, |d|) && AllApart(lines) && AllEven(lines) && s * s == 2.0
    ensures Pass(Pass(d, lines, dir, s), lines, Opposite(dir), s) == d
  {
    hide Apply, Fits, Disjoint, Opposite;
    if lines == [] {
    } else {
      var m := |lines| - 1;
      var e := Pass(d, lines[..m], dir, s);
      PassUndo(d, lines[..m], dir, s);
      PassCommute(e, lines[..m], Opposite(dir), lines[m], dir, s);
      ApplyUndo(d, lines[m], dir, s);
    }
  }

  /** Each line of a pass is transformed exactly once. */
  lemma {:induction false} PassLine(d: seq<real>, lines: seq<Line>, dir: Dir, s: Nonzero, k: nat)
    requires AllFit(lines, |d|) && AllApart(lines) && k < |lines|
    ensures Gather(Pass(d, lines, dir, s), lines[k]) == Turn(Gather(d, lines[k]), dir, s)
  {
    hide Apply, Fits, Disjoint, Turn, Gather;
    var m := |lines| - 1;
    var e := Pass(d, lines[..m], dir, s);
    if k < m {
      PassLine(d, lines[..m], dir, s, k);
      DisjointSym(lines[k], lines[m]);
      ApplyElsewhere(e, lines[m], dir, s, lines[k]);
    } else {
      PassElsewhere(d, lines[..m], dir, s, lines[m]);
      ApplyLaw(e, lines[m], dir, s);
    }
  }

  lemma DisjointSym(a: Line, b: Line)
    requires Disjoint(a, b)
    ensures Disjoint(b, a)
  {
    hide At;
  }

  lemma {:induction false} PassElsewhere(d: seq<real>, lines: seq<Line>, dir: Dir, s: Nonzero, l: Line)
    requires AllFit(lines, |d|) && Fits(l, |d|) && forall k :: 0 <= k < |lines| ==> Disjoint(lines[k], l)
    ensures Gather(Pass(d, lines, dir, s), l) == Gather(d, l)
  {
    hide Apply, Fits, Disjoint, Gather;
    if lines == [] {
    } else {
      var m := |lines| - 1;
      PassElsewhere(d, lines[..m], dir, s, l);
      ApplyElsewhere(Pass(d, lines[..m], dir, s), lines[m], dir, s, l);
    }
  }

  // ---- Energy ------------------------------------------------------------------------------------

  function Sq(x: real): real { x * x }

  function Energy(d: seq<real>): real {
    if d == [] then 0.0 else Energy(d[..|d| - 1]) + Sq(d[|d| - 1])
  }

  lemma EnergySnoc(d: seq<real>, x: real)
    ensures Energy(d + [x]) == Energy(d) + Sq(x)
  {
    assert (d + [x])[..|d|] == d;
  }

  lemma {:induction false} EnergyConcat(a: seq<real>, b: seq<real>)
    ensures Energy(a + b) == Energy(a) + Energy(b)
  {
    hide Sq;
    if b == [] {
      assert a + b == a;
    } else {
      var m := |b| - 1;
      EnergyConcat(a, b[..m]);
      EnergySnoc(a + b[..m], b[m]);
      assert a + b == (a + b[..m]) + [b[m]];
    }
  }

  lemma {:induction false} EnergyUpdate(d: seq<real>, p: nat, v: real)
    requires p < |d|
    ensures Energy(d[p := v]) == Energy(d) - Sq(d[p]) + Sq(v)
  {
    hide Sq;
    var m := |d| - 1;
    if p == m {
      assert d[p := v][..m] == d[..m];
    } else {
      EnergyUpdate(d[..m], p, v);
      assert d[p := v][..m] == d[..m][p := v];
    }
  }

  lemma {:induction false} ScatterEnergy(d: seq<real>, l: Line, v: seq<real>)
    requires Fits(l, |d|) && |v| <= l.n
    ensures Energy(Scatter(d, l, v)) == Energy(d) - Energy(Gather(d, l)[..|v|]) + Energy(v)
  {
    hide Sq, At;
    if v == [] {
    } else {
      var m := |v| - 1;
      var e := Scatter(d, l, v[..m]);
      ScatterEnergy(d, l, v[..m]);
      ScatterLaw(d, l, v[..m]);
      EnergyUpdate(e, At(l, m), v[m]);
      assert e[At(l, m)] == d[At(l, m)];
      assert Gather(d, l)[..|v|][..m] == Gather(d, l)[..m];
    }
  }

  lemma PairEnergy(a: real, b: real, s: Nonzero)
    requires s * s == 2.0
    ensures Sq((a + b) / s) + Sq((a - b) / s) == Sq(a) + Sq(b)
  {
    var p, q := a + b, a - b;
    HalfSquare(p, s); HalfSquare(q, s);
    assert p * p + q * q == 2.0 * (a * a) + 2.0 * (b * b);
  }

  lemma HalfSquare(x: real, s: Nonzero)
    requires s * s == 2.0
    ensures 2.0 * Sq(x / s) == x * x
  {
    var y := x / s;
    assert y * s == x;
    assert (y * s) * (y * s) == (y * y) * (s * s);
  }

  function Sums(v: seq<real>, s: Nonzero): seq<real> {
    seq(|v| / 2, i requires 0 <= i < |v| / 2 => (v[2 * i] + v[2 * i + 1]) / s)
  }

  function Differences(v: seq<real>, s: Nonzero): seq<real> {
    seq(|v| / 2, i requires 0 <= i < |v| / 2 => (v[2 * i] - v[2 * i + 1]) / s)
  }

  lemma {:induction false} HalvesEnergy(v: seq<real>, s: Nonzero)
    requires s * s == 2.0 && |v| % 2 == 0
    ensures Energy(Sums(v, s)) + Energy(Differences(v, s)) == Energy(v)
  {
    hide Sq;
    if |v| == 0 {
    } else {
      var m := |v| - 2;
      HalvesEnergy(v[..m], s);
      HalvesStep(v[..m], v[m], v[m + 1], s);
      assert v == v[..m] + [v[m], v[m + 1]];
    }
  }

  lemma HalvesStep(u: seq<real>, a: real, b: real, s: Nonzero)
    requires s * s == 2.0 && |u| % 2 == 0 && Energy(Sums(u, s)) + Energy(Differences(u, s)) == Energy(u)
    ensures var v := u + [a, b]; Energy(Sums(v, s)) + Energy(Differences(v, s)) == Energy(v)
  {
    hide Sq, Energy, Sums, Differences;
    PairEnergy(a, b, s);
    HalvesSnoc(u, a, b, s);
    var plus, minus := (a + b) / s, (a - b) / s;
    EnergySnoc(Sums(u, s), plus);
    EnergySnoc(Differences(u, s), minus);
    EnergySnoc(u, a); EnergySnoc(u + [a], b);
    assert u + [a, b] == u + [a] + [b];
  }

  lemma HalvesSnoc(u: seq<real>, a: real, b: real, s: Nonzero)
    requires |u| % 2 == 0
    ensures Sums(u + [a, b], s) == Sums(u, s) + [(a + b) / s]
    ensures Differences(u + [a, b], s) == Differences(u, s) + [(a - b) / s]
  {}

  lemma AnalyzeHalves(v: seq<real>, s: Nonzero)
    requires |v| % 2 == 0
    ensures Analyze(v, s) == Sums(v, s) + Differences(v, s)
  {
    forall i | 0 <= i < |v| ensures Analyze(v, s)[i] == (Sums(v, s) + Differences(v, s))[i] {}
  }

  lemma TurnEnergy(v: seq<real>, dir: Dir, s: Nonzero)
    requires s * s == 2.0 && |v| % 2 == 0
    ensures Energy(Turn(v, dir, s)) == Energy(v)
  {
    hide Energy, Analyze, Synthesize;
    var u := if dir.Forth? then v else Synthesize(v, s);
    HalvesEnergy(u, s);
    EnergyConcat(Sums(u, s), Differences(u, s));
    AnalyzeHalves(u, s);
    if dir.Back? { SynthesizeUndo(v, s); }
  }

  lemma ApplyEnergy(d: seq<real>, l: Line, dir: Dir, s: Nonzero)
    requires Fits(l, |d|) && s * s == 2.0 && l.n % 2 == 0
    ensures Energy(Apply(d, l, dir, s)) == Energy(d)
  {
    hide Energy, Turn, Fits, Gather;
    var v := Gather(d, l);
    TurnEnergy(v, dir, s);
    ScatterEnergy(d, l, Turn(v, dir, s));
    assert v[..|v|] == v;
  }

  lemma {:induction false} PassEnergy(d: seq<real>, lines: seq<Line>, dir: Dir, s: Nonzero)
    requires AllFit(lines, |d|) && AllEven(lines) && s * s == 2.0
    ensures Energy(Pass(d, lines, dir, s)) == Energy(d)
  {
    hide Apply, Fits, Energy;
    if lines == [] {
    } else {
      var m := |lines| - 1;
      PassEnergy(d, lines[..m], dir, s);
      ApplyEnergy(Pass(d, lines[..m], dir, s), lines[m], dir, s);
    }
  }

  // ---- Linearity -----------------------------------------------------------------------------------

  function Minus(a: seq<real>, b: seq<real>): (r: seq<real>)
    requires |a| == |b|
    ensures |r| == |a|
  {
    seq(|a|, i requires 0 <= i < |a| => a[i] - b[i])
  }

  lemma DivideMinus(a: real, b: real, s: Nonzero)
    ensures (a - b) / s == a / s - b / s
  {}

  lemma AnalyzeMinus(a: seq<real>, b: seq<real>, s: Nonzero)
    requires |a| == |b|
    ensures Analyze(Minus(a, b), s) == Minus(Analyze(a, s), Analyze(b, s))
  {
    hide Analyze, Minus;
    forall i | 0 <= i < |a| ensures Analyze(Minus(a, b), s)[i] == Minus(Analyze(a, s), Analyze(b, s))[i] {
      AnalyzeMinusAt(a, b, i, s);
    }
  }

  lemma AnalyzeMinusAt(a: seq<real>, b: seq<real>, i: nat, s: Nonzero)
    requires |a| == |b| && i < |a|
    ensures Analyze(Minus(a, b), s)[i] == Minus(Analyze(a, s), Analyze(b, s))[i]
  {
    hide Analyze;
    var half, d := |a| / 2, Minus(a, b);
    if i < half || half <= i < 2 * half {
      var j := if i < half then i else i - half;
      AnalyzeAt(a, j, s); AnalyzeAt(b, j, s); AnalyzeAt(d, j, s);
      PairMinus(a[2 * j], a[2 * j + 1], b[2 * j], b[2 * j + 1], s);
    } else {
      AnalyzeRest(a, i, s); AnalyzeRest(b, i, s); AnalyzeRest(d, i, s);
    }
  }

  lemma AnalyzeRest(v: seq<real>, i: nat, s: Nonzero)
    requires 2 * (|v| / 2) <= i < |v|
    ensures Analyze(v, s)[i] == 0.0
  {}

  lemma PairMinus(a: real, a': real, b: real, b': real, s: Nonzero)
    ensures ((a - b) + (a' - b')) / s == (a + a') / s - (b + b') / s
    ensures ((a - b) - (a' - b')) / s == (a - a') / s - (b - b') / s
  {
    DivideMinus(a + a', b + b', s);
    DivideMinus(a - a', b - b', s);
  }

  lemma SynthesizeMinus(a: seq<real>, b: seq<real>, s: Nonzero)
    requires |a| == |b|
    ensures Synthesize(Minus(a, b), s) == Minus(Synthesize(a, s), Synthesize(b, s))
  {
    var half := |a| / 2;
    forall i | 0 <= i < |a| ensures Synthesize(Minus(a, b), s)[i] == Synthesize(a, s)[i] - Synthesize(b, s)[i] {
      if i < 2 * half {
        var j := i / 2;
        PairMinus(a[j], a[half + j], b[j], b[half + j], s);
      }
    }
  }

  lemma TurnMinus(a: seq<real>, b: seq<real>, dir: Dir, s: Nonzero)
    requires |a| == |b|
    ensures Turn(Minus(a, b), dir, s) == Minus(Turn(a, dir, s), Turn(b, dir, s))
  {
    hide Analyze, Synthesize;
    AnalyzeMinus(a, b, s);
    SynthesizeMinus(a, b, s);
  }

  lemma GatherMinus(a: seq<real>, b: seq<real>, l: Line)
    requires |a| == |b| && Fits(l, |a|)
    ensures Gather(Minus(a, b), l) == Minus(Gather(a, l), Gather(b, l))
  {
    hide At;
  }

  lemma ApplyMinus(a: seq<real>, b: seq<real>, l: Line, dir: Dir, s: Nonzero)
    requires |a| == |b| && Fits(l, |a|)
    ensures Apply(Minus(a, b), l, dir, s) == Minus(Apply(a, l, dir, s), Apply(b, l, dir, s))
  {
    hide At, Apply, Turn, Gather;
    TurnMinus(Gather(a, l), Gather(b, l), dir, s);
    GatherMinus(a, b, l);
    ApplyLaw(a, l, dir, s); ApplyLaw(b, l, dir, s); ApplyLaw(Minus(a, b), l, dir, s);
    SameEverywhere(Apply(Minus(a, b), l, dir, s), Minus(Apply(a, l, dir, s), Apply(b, l, dir, s)), l);
  }

  lemma {:induction false} PassMinus(a: seq<real>, b: seq<real>, lines: seq<Line>, dir: Dir, s: Nonzero)
    requires |a| == |b| && AllFit(lines, |a|)
    ensures Pass(Minus(a, b), lines, dir, s) == Minus(Pass(a, lines, dir, s), Pass(b, lines, dir, s))
  {
    hide Apply, Fits;
    if lines == [] {
    } else {
      var m := |lines| - 1;
      PassMinus(a, b, lines[..m], dir, s);
      ApplyMinus(Pass(a, lines[..m], dir, s), Pass(b, lines[..m], dir, s), lines[m], dir, s);
    }
  }

  // ---- Rows and columns of a w x h plane ------------------------------------------------------------

  function Row(w: nat, cw: nat, y: nat): Line { Line(y * w, 1, cw) }

  function Column(w: nat, ch: nat, x: nat): Line { Line(x, w, ch) }

  function Rows(w: nat, cw: nat, ch: nat): seq<Line> { seq(ch, y requires 0 <= y => Row(w, cw, y)) }

  function Columns(w: nat, cw: nat, ch: nat): seq<Line> { seq(cw, x requires 0 <= x => Column(w, ch, x)) }

  /** The cw x ch corner of a w x h plane of `len` samples. */
  ghost predicate Corner(w: nat, h: nat, cw: nat, ch: nat, len: nat) {
    cw <= w && ch <= h && len == w * h
  }

  lemma Below(w: nat, y: nat, y': nat)
    requires y < y'
    ensures y * w + w <= y' * w
  {
    var gap := y' - y - 1;
    assert gap * w >= 0;
    assert y' * w == (y + 1 + gap) * w == y * w + w + gap * w;
  }

  lemma Place(w: nat, h: nat, x: nat, y: nat)
    requires x < w && y < h
    ensures y * w + x < w * h
  {
    Below(w, y, h);
  }

  lemma PlaceApart(w: nat, x: nat, y: nat, x': nat, y': nat)
    requires x < w && x' < w && y * w + x == y' * w + x'
    ensures x == x' && y == y'
  {
    if y < y' { Below(w, y, y'); }
    if y' < y { Below(w, y', y); }
  }

  lemma RowsFit(w: nat, h: nat, cw: nat, ch: nat, len: nat)
    requires Corner(w, h, cw, ch, len)
    ensures AllFit(Rows(w, cw, ch), len) && AllApart(Rows(w, cw, ch))
  {
    forall y | 0 <= y < ch ensures Fits(Row(w, cw, y), len) {
      forall i | 0 <= i < cw ensures At(Row(w, cw, y), i) < len {
        Place(w, h, i, y);
      }
    }
    forall y, y' | 0 <= y < y' < ch ensures Disjoint(Row(w, cw, y), Row(w, cw, y')) {
      forall i, j | 0 <= i < cw && 0 <= j < cw ensures At(Row(w, cw, y), i) != At(Row(w, cw, y'), j) {
        if y * w + i == y' * w + j { PlaceApart(w, i, y, j, y'); }
      }
    }
  }

  lemma ColumnsFit(w: nat, h: nat, cw: nat, ch: nat, len: nat)
    requires Corner(w, h, cw, ch, len)
    ensures AllFit(Columns(w, cw, ch), len) && AllApart(Columns(w, cw, ch))
  {
    forall x | 0 <= x < cw ensures Fits(Column(w, ch, x), len) {
      forall i | 0 <= i < ch ensures At(Column(w, ch, x), i) < len {
        Place(w, h, x, i);
      }
      forall i, j | 0 <= i < j < ch ensures At(Column(w, ch, x), i) != At(Column(w, ch, x), j) {
        if i * w + x == j * w + x { PlaceApart(w, x, i, x, j); }
      }
    }
    forall x, x' | 0 <= x < x' < cw ensures Disjoint(Column(w, ch, x), Column(w, ch, x')) {
      forall i, j | 0 <= i < ch && 0 <= j < ch ensures At(Column(w, ch, x), i) != At(Column(w, ch, x'), j) {
        if i * w + x == j * w + x' { PlaceApart(w, x, i, x', j); }
      }
    }
  }

  lemma LinesEven(w: nat, cw: nat, ch: nat)
    requires cw % 2 == 0 && ch % 2 == 0
    ensures AllEven(Rows(w, cw, ch)) && AllEven(Columns(w, cw, ch))
  {}

  function RowPass(d: seq<real>, w: nat, h: nat, cw: nat, ch: nat, dir: Dir, s: Nonzero): (r: seq<real>)
    requires Corner(w, h, cw, ch, |d|)
    ensures |r| == |d|
  {
    RowsFit(w, h, cw, ch, |d|);
    Pass(d, Rows(w, cw, ch), dir, s)
  }

  function ColumnPass(d: seq<real>, w: nat, h: nat, cw: nat, ch: nat, dir: Dir, s: Nonzero): (r: seq<real>)
    requires Corner(w, h, cw, ch, |d|)
    ensures |r| == |d|
  {
    ColumnsFit(w, h, cw, ch, |d|);
    Pass(d, Columns(w, cw, ch), dir, s)
  }

  /** `levels` analysis steps on ever smaller corners. */
  function Forward(d: seq<real>, w: nat, h: nat, cw: nat, ch: nat, levels: nat, s: Nonzero): (r: seq<real>)
    requires Corner(w, h, cw, ch, |d|)
    ensures |r| == |d|
    decreases levels
  {
    if levels == 0 then d else
      Forward(ColumnPass(RowPass(d, w, h, cw, ch, Forth, s), w, h, cw, ch, Forth, s), w, h, cw / 2, ch / 2, levels - 1, s)
  }

  function Inverse(d: seq<real>, w: nat, h: nat, cw: nat, ch: nat, levels: nat, s: Nonzero): (r: seq<real>)
    requires Corner(w, h, cw, ch, |d|)
    ensures |r| == |d|
    decreases levels
  {
    if levels == 0 then d else
      RowPass(ColumnPass(Inverse(d, w, h, cw / 2, ch / 2, levels - 1, s), w, h, cw, ch, Back, s), w, h, cw, ch, Back, s)
  }

  lemma LevelUndo(d: seq<real>, w: nat, h: nat, cw: nat, ch: nat, s: Nonzero)
    requires Corner(w, h, cw, ch, |d|) && cw % 2 == 0 && ch % 2 == 0 && s * s == 2.0
    ensures RowPass(RowPass(d, w, h, cw, ch, Forth, s), w, h, cw, ch, Back, s) == d
    ensures RowPass(RowPass(d, w, h, cw, ch, Back, s), w, h, cw, ch, Forth, s) == d
    ensures ColumnPass(ColumnPass(d, w, h, cw, ch, Forth, s), w, h, cw, ch, Back, s) == d
    ensures ColumnPass(ColumnPass(d, w, h, cw, ch, Back, s), w, h, cw, ch, Forth, s) == d
  {
    hide Pass, AllFit, AllApart, AllEven, Rows, Columns;
    RowsFit(w, h, cw, ch, |d|); ColumnsFit(w, h, cw, ch, |d|);
    LinesEven(w, cw, ch);
    PassUndo(d, Rows(w, cw, ch), Forth, s); PassUndo(d, Rows(w, cw, ch), Back, s);
    PassUndo(d, Columns(w, cw, ch), Forth, s); PassUndo(d, Columns(w, cw, ch), Back, s);
  }

  /** n can be halved exactly, `levels` times over. */
  predicate Halvable(n: nat, levels: nat) {
    levels == 0 || (n % 2 == 0 && Halvable(n / 2, levels - 1))
  }

  lemma {:induction false} HalvableMeansDivisible(n: nat, levels: nat)
    ensures Halvable(n, levels) <==> n % Pow2(levels) == 0
  {
    if levels == 0 {
    } else {
      HalvableMeansDivisible(n / 2, levels - 1);
      EvenDivision(n, Pow2(levels - 1));
    }
  }

  lemma EvenDivision(n: nat, p: nat)
    requires p > 0
    ensures n % (2 * p) == 0 <==> n % 2 == 0 && n / 2 % p == 0
  {
    if n % (2 * p) == 0 {
      var q := n / (2 * p);
      assert n == 2 * (p * q);
      MultipleOf(p, q);
    }
    if n % 2 == 0 && n / 2 % p == 0 {
      var q := n / 2 / p;
      assert n == (2 * p) * q by { assert n / 2 == p * q; }
      MultipleOf(2 * p, q);
    }
  }

  lemma MultipleOf(p: nat, q: nat)
    requires p > 0
    ensures p * q % p == 0
  {
    QuotientIs(p * q, p, q, 0);
  }

  lemma QuotientIs(n: nat, p: nat, q: nat, r: nat)
    requires n == q * p + r && r < p
    ensures n / p == q && n % p == r
  {
    var q', r' := n / p, n % p;
    assert q' * p + r' == n;
    PlaceApart(p, r, q, r', q');
  }

  lemma {:induction false} RoundTripHalvable(d: seq<real>, w: nat, h: nat, cw: nat, ch: nat, levels: nat, s: Nonzero)
    requires Corner(w, h, cw, ch, |d|) && s * s == 2.0 && Halvable(cw, levels) && Halvable(ch, levels)
    ensures Inverse(Forward(d, w, h, cw, ch, levels, s), w, h, cw, ch, levels, s) == d
    ensures Forward(Inverse(d, w, h, cw, ch, levels, s), w, h, cw, ch, levels, s) == d
    decreases levels
  {
    hide RowPass, ColumnPass;
    if levels == 0 {
    } else {
      var r := RowPass(d, w, h, cw, ch, Forth, s);
      LevelUndo(d, w, h, cw, ch, s);
      LevelUndo(r, w, h, cw, ch, s);
      RoundTripHalvable(ColumnPass(r, w, h, cw, ch, Forth, s), w, h, cw / 2, ch / 2, levels - 1, s);
      var e := Inverse(d, w, h, cw / 2, ch / 2, levels - 1, s);
      RoundTripHalvable(d, w, h, cw / 2, ch / 2, levels - 1, s);
      LevelUndo(e, w, h, cw, ch, s);
      LevelUndo(ColumnPass(e, w, h, cw, ch, Back, s), w, h, cw, ch, s);
    }
  }

  lemma LevelEnergy(d: seq<real>, w: nat, h: nat, cw: nat, ch: nat, dir: Dir, s: Nonzero)
    requires Corner(w, h, cw, ch, |d|) && cw % 2 == 0 && ch % 2 == 0 && s * s == 2.0
    ensures Energy(RowPass(d, w, h, cw, ch, dir, s)) == Energy(d)
    ensures Energy(ColumnPass(d, w, h, cw, ch, dir, s)) == Energy(d)
  {
    hide Pass, AllFit, AllApart, AllEven, Rows, Columns, Energy;
    RowsFit(w, h, cw, ch, |d|); ColumnsFit(w, h, cw, ch, |d|);
    LinesEven(w, cw, ch);
    PassEnergy(d, Rows(w, cw, ch), dir, s);
    PassEnergy(d, Columns(w, cw, ch), dir, s);
  }

  lemma {:induction false} EnergyHalvable(d: seq<real>, w: nat, h: nat, cw: nat, ch: nat, levels: nat, s: Nonzero)
    requires Corner(w, h, cw, ch, |d|) && s * s == 2.0 && Halvable(cw, levels) && Halvable(ch, levels)
    ensures Energy(Forward(d, w, h, cw, ch, levels, s)) == Energy(d)
    ensures Energy(Inverse(d, w, h, cw, ch, levels, s)) == Energy(d)
    decreases levels
  {
    hide RowPass, ColumnPass, Energy;
    if levels == 0 {
    } else {
      var r := RowPass(d, w, h, cw, ch, Forth, s);
      LevelEnergy(d, w, h, cw, ch, Forth, s);
      LevelEnergy(r, w, h, cw, ch, Forth, s);
      EnergyHalvable(ColumnPass(r, w, h, cw, ch, Forth, s), w, h, cw / 2, ch / 2, levels - 1, s);
      EnergyHalvable(d, w, h, cw / 2, ch / 2, levels - 1, s);
      var e := Inverse(d, w, h, cw / 2, ch / 2, levels - 1, s);
      LevelEnergy(e, w, h, cw, ch, Back, s);
      LevelEnergy(ColumnPass(e, w, h, cw, ch, Back, s), w, h, cw, ch, Back, s);
    }
  }

  lemma LevelMinus(a: seq<real>, b: seq<real>, w: nat, h: nat, cw: nat, ch: nat, dir: Dir, s: Nonzero)
    requires |a| == |b| && Corner(w, h, cw, ch, |a|)
    ensures RowPass(Minus(a, b), w, h, cw, ch, dir, s)
         == Minus(RowPass(a, w, h, cw, ch, dir, s), RowPass(b, w, h, cw, ch, dir, s))
    ensures ColumnPass(Minus(a, b), w, h, cw, ch, dir, s)
         == Minus(ColumnPass(a, w, h, cw, ch, dir, s), ColumnPass(b, w, h, cw, ch, dir, s))
  {
    hide Pass, AllFit, AllApart, Rows, Columns, Minus;
    RowsFit(w, h, cw, ch, |a|); ColumnsFit(w, h, cw, ch, |a|);
    PassMinus(a, b, Rows(w, cw, ch), dir, s);
    PassMinus(a, b, Columns(w, cw, ch), dir, s);
  }

  lemma {:induction false} InverseMinus(a: seq<real>, b: seq<real>, w: nat, h: nat, cw: nat, ch: nat, levels: nat, s: Nonzero)
    requires |a| == |b| && Corner(w, h, cw, ch, |a|)
    ensures Inverse(Minus(a, b), w, h, cw, ch, levels, s)
         == Minus(Inverse(a, w, h, cw, ch, levels, s), Inverse(b, w, h, cw, ch, levels, s))
    decreases levels
  {
    hide RowPass, ColumnPass, Minus;
    if levels == 0 {
    } else {
      InverseMinus(a, b, w, h, cw / 2, ch / 2, levels - 1, s);
      var e, f := Inverse(a, w, h, cw / 2, ch / 2, levels - 1, s), Inverse(b, w, h, cw / 2, ch / 2, levels - 1, s);
      LevelMinus(e, f, w, h, cw, ch, Back, s);
      LevelMinus(ColumnPass(e, w, h, cw, ch, Back, s), ColumnPass(f, w, h, cw, ch, Back, s), w, h, cw, ch, Back, s);
    }
  }
}
