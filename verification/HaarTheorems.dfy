/** What the Haar transform promises: exact inversion precisely on planes whose sides the
    levels divide, the meaning of each coefficient, and reads that never get worse. */
module HaarTheorems {
  import opened U64
  import opened Haar
  import opened HaarInPlace

  // ---- Exactly when the inverse undoes the transform ------------------------------------------------

  function Zeros(n: nat): (z: seq<real>)
    ensures |z| == n
  {
    seq(n, _ => 0.0)
  }

  lemma ZerosTurn(n: nat, dir: Dir, s: Nonzero)
    ensures Turn(Zeros(n), dir, s) == Zeros(n)
  {
    var r := Turn(Zeros(n), dir, s);
    assert (0.0 + 0.0) / s == 0.0 && (0.0 - 0.0) / s == 0.0;
    forall i | 0 <= i < n ensures r[i] == 0.0 {}
  }

  /** A line of zeros stays as it is. */
  lemma ApplyQuiet(d: seq<real>, l: Line, dir: Dir, s: Nonzero)
    requires Fits(l, |d|) && forall i :: 0 <= i < l.n ==> d[At(l, i)] == 0.0
    ensures Apply(d, l, dir, s) == d
  {
    assert Gather(d, l) == Zeros(l.n);
    hide At, Apply, Turn, Gather;
    ZerosTurn(l.n, dir, s);
    ApplyLaw(d, l, dir, s);
    SameEverywhere(Apply(d, l, dir, s), d, l);
  }

  lemma {:induction false} PassZeros(n: nat, lines: seq<Line>, dir: Dir, s: Nonzero)
    requires AllFit(lines, n)
    ensures Pass(Zeros(n), lines, dir, s) == Zeros(n)
  {
    if lines == [] {
    } else {
      PassZeros(n, lines[..|lines| - 1], dir, s);
      ApplyQuiet(Zeros(n), lines[|lines| - 1], dir, s);
    }
  }

  /** The unpaired last sample of a line of odd length. */
  function LastOnly(n: nat, l: Line): (d: seq<real>)
    requires Fits(l, n) && l.n > 0
    ensures |d| == n
  {
    Zeros(n)[At(l, l.n - 1) := 1.0]
  }

  /** Analysis drops an unpaired last sample. */
  lemma AnalyzeDropsLast(v: seq<real>, s: Nonzero)
    requires |v| % 2 == 1 && forall i :: 0 <= i < |v| - 1 ==> v[i] == 0.0
    ensures Analyze(v, s) == Zeros(|v|)
  {
    var r := Analyze(v, s);
    assert (0.0 + 0.0) / s == 0.0 && (0.0 - 0.0) / s == 0.0;
    forall i | 0 <= i < |v| ensures r[i] == 0.0 {}
  }

  lemma LastOnlyAt(n: nat, l: Line)
    requires Fits(l, n) && l.n > 0
    ensures forall i :: 0 <= i < l.n - 1 ==> LastOnly(n, l)[At(l, i)] == 0.0
    ensures forall p :: 0 <= p < n && (forall i :: 0 <= i < l.n ==> At(l, i) != p) ==> LastOnly(n, l)[p] == 0.0
    ensures LastOnly(n, l) != Zeros(n)
  {
    hide At;
    assert LastOnly(n, l)[At(l, l.n - 1)] == 1.0;
  }

  lemma OddLineLost(n: nat, l: Line, s: Nonzero)
    requires Fits(l, n) && l.n % 2 == 1
    ensures Apply(LastOnly(n, l), l, Forth, s) == Zeros(n)
  {
    hide At, LastOnly, Analyze, Apply;
    var d := LastOnly(n, l);
    LastOnlyAt(n, l);
    AnalyzeDropsLast(Gather(d, l), s);
    ApplyLaw(d, l, Forth, s);
    SameEverywhere(Apply(d, l, Forth, s), Zeros(n), l);
  }

  lemma {:induction false} PassLosesOdd(n: nat, lines: seq<Line>, k: nat, s: Nonzero)
    requires AllFit(lines, n) && AllApart(lines) && k < |lines| && lines[k].n % 2 == 1
    ensures Pass(LastOnly(n, lines[k]), lines, Forth, s) == Zeros(n)
  {
    hide Apply, Zeros, Disjoint;
    var m := |lines| - 1;
    var d := LastOnly(n, lines[k]);
    if k < m {
      PassLosesOdd(n, lines[..m], k, s);
      ApplyZeros(n, lines[m], Forth, s);
    } else {
      PassQuiet(n, lines[..m], lines[m], s);
      OddLineLost(n, lines[m], s);
    }
  }

  lemma ApplyZeros(n: nat, l: Line, dir: Dir, s: Nonzero)
    requires Fits(l, n)
    ensures Apply(Zeros(n), l, dir, s) == Zeros(n)
  {
    ApplyQuiet(Zeros(n), l, dir, s);
  }

  lemma {:induction false} PassQuiet(n: nat, lines: seq<Line>, l: Line, s: Nonzero)
    requires AllFit(lines, n) && Fits(l, n) && l.n > 0 && forall k :: 0 <= k < |lines| ==> Disjoint(lines[k], l)
    ensures Pass(LastOnly(n, l), lines, Forth, s) == LastOnly(n, l)
  {
    hide Apply, At;
    if lines == [] {
    } else {
      var m := |lines| - 1;
      PassQuiet(n, lines[..m], l, s);
      ApplyQuiet(LastOnly(n, l), lines[m], Forth, s);
    }
  }

  /** Not all zero, yet the transform maps it to zero. */
  ghost predicate Lost(d: seq<real>, w: nat, h: nat, cw: nat, ch: nat, levels: nat, s: Nonzero) {
    && Corner(w, h, cw, ch, |d|) && d != Zeros(|d|)
    && Forward(d, w, h, cw, ch, levels, s) == Zeros(|d|)
  }

  lemma {:induction false} ForwardZeros(n: nat, w: nat, h: nat, cw: nat, ch: nat, levels: nat, s: Nonzero)
    requires Corner(w, h, cw, ch, n)
    ensures Forward(Zeros(n), w, h, cw, ch, levels, s) == Zeros(n)
    ensures Inverse(Zeros(n), w, h, cw, ch, levels, s) == Zeros(n)
    decreases levels
  {
    hide RowPass, ColumnPass, Zeros;
    if levels == 0 {
    } else {
      LevelZeros(n, w, h, cw, ch, Forth, s); LevelZeros(n, w, h, cw, ch, Back, s);
      ForwardZeros(n, w, h, cw / 2, ch / 2, levels - 1, s);
    }
  }

  lemma LevelZeros(n: nat, w: nat, h: nat, cw: nat, ch: nat, dir: Dir, s: Nonzero)
    requires Corner(w, h, cw, ch, n)
    ensures RowPass(Zeros(n), w, h, cw, ch, dir, s) == Zeros(n)
    ensures ColumnPass(Zeros(n), w, h, cw, ch, dir, s) == Zeros(n)
  {
    hide Pass, AllApart, AllFit, Rows, Columns, Zeros;
    RowsFit(w, h, cw, ch, n); ColumnsFit(w, h, cw, ch, n);
    PassZeros(n, Rows(w, cw, ch), dir, s);
    PassZeros(n, Columns(w, cw, ch), dir, s);
  }

  lemma OddWidthLoses(w: nat, h: nat, cw: nat, ch: nat, levels: nat, s: Nonzero) returns (d: seq<real>)
    requires Corner(w, h, cw, ch, w * h) && cw % 2 == 1 && ch > 0 && levels > 0
    ensures Lost(d, w, h, cw, ch, levels, s)
  {
    hide Pass, AllApart, Fits, LastOnly, ColumnPass, Zeros, Row;
    RowsFit(w, h, cw, ch, w * h);
    var lines := Rows(w, cw, ch);
    assert lines[0] == Row(w, cw, 0) && lines[0].n == cw by { RowLength(w, cw, 0); }
    hide Rows;
    d := LastOnly(w * h, lines[0]);
    LastOnlyAt(w * h, lines[0]);
    PassLosesOdd(w * h, lines, 0, s);
    LevelZeros(w * h, w, h, cw, ch, Forth, s);
    ForwardZeros(w * h, w, h, cw / 2, ch / 2, levels - 1, s);
  }

  lemma RowLength(w: nat, cw: nat, y: nat)
    ensures Row(w, cw, y).n == cw
  {}

  lemma OddHeightLoses(w: nat, h: nat, cw: nat, ch: nat, levels: nat, s: Nonzero) returns (d: seq<real>)
    requires Corner(w, h, cw, ch, w * h) && cw % 2 == 0 && cw > 0 && ch % 2 == 1 && levels > 0 && s * s == 2.0
    ensures Lost(d, w, h, cw, ch, levels, s)
  {
    hide Pass, AllApart, Fits, LastOnly, Zeros, AllFit;
    RowsUndo(w, h, cw, ch, s);
    ColumnsFit(w, h, cw, ch, w * h);
    var lines := Columns(w, cw, ch);
    assert lines[0].n == ch;
    hide Columns;
    assert Fits(lines[0], w * h) by { AllFitAt(lines, w * h, 0); }
    var e := LastOnly(w * h, lines[0]);
    LastOnlyAt(w * h, lines[0]);
    PassLosesOdd(w * h, lines, 0, s);
    assert ColumnPass(e, w, h, cw, ch, Forth, s) == Zeros(w * h);
    d := RowPass(e, w, h, cw, ch, Back, s);
    hide RowPass, ColumnPass;
    LevelZeros(w * h, w, h, cw, ch, Forth, s);
    ForwardZeros(w * h, w, h, cw / 2, ch / 2, levels - 1, s);
  }

  lemma AllFitAt(lines: seq<Line>, n: nat, k: nat)
    requires AllFit(lines, n) && k < |lines|
    ensures Fits(lines[k], n)
  {}

  lemma RowsUndo(w: nat, h: nat, cw: nat, ch: nat, s: Nonzero)
    requires Corner(w, h, cw, ch, w * h) && cw % 2 == 0 && s * s == 2.0
    ensures forall e: seq<real> :: |e| == w * h ==>
      RowPass(RowPass(e, w, h, cw, ch, Back, s), w, h, cw, ch, Forth, s) == e
  {
    hide Pass, AllApart, AllFit, Fits;
    RowsFit(w, h, cw, ch, w * h);
    forall e: seq<real> | |e| == w * h
      ensures RowPass(RowPass(e, w, h, cw, ch, Back, s), w, h, cw, ch, Forth, s) == e
    {
      PassUndo(e, Rows(w, cw, ch), Back, s);
    }
  }

  lemma {:induction false} SomethingLost(w: nat, h: nat, cw: nat, ch: nat, levels: nat, s: Nonzero) returns (d: seq<real>)
    requires Corner(w, h, cw, ch, w * h) && cw > 0 && ch > 0 && s * s == 2.0
    requires !(Halvable(cw, levels) && Halvable(ch, levels))
    ensures Lost(d, w, h, cw, ch, levels, s)
    decreases levels
  {
    hide RowPass, ColumnPass, Zeros;
    if cw % 2 == 1 {
      d := OddWidthLoses(w, h, cw, ch, levels, s);
    } else if ch % 2 == 1 {
      d := OddHeightLoses(w, h, cw, ch, levels, s);
    } else {
      var e := SomethingLost(w, h, cw / 2, ch / 2, levels - 1, s);
      var f := ColumnPass(e, w, h, cw, ch, Back, s);
      d := RowPass(f, w, h, cw, ch, Back, s);
      LevelUndo(e, w, h, cw, ch, s);
      LevelUndo(f, w, h, cw, ch, s);
      LevelZeros(w * h, w, h, cw, ch, Forth, s);
    }
  }

  ghost predicate RoundTrips(d: seq<real>, w: nat, h: nat, levels: nat, s: Nonzero)
    requires |d| == w * h
  {
    && Inverse(Forward(d, w, h, w, h, levels, s), w, h, w, h, levels, s) == d
    && Forward(Inverse(d, w, h, w, h, levels, s), w, h, w, h, levels, s) == d
  }

  /** The inverse undoes the transform for every plane of a size, in both orders, exactly when
      both sides are multiples of 2^levels. */
  lemma RoundTripExactly(w: nat, h: nat, levels: nat, s: Nonzero)
    requires w > 0 && h > 0 && s * s == 2.0
    ensures (forall d: seq<real> :: |d| == w * h ==> RoundTrips(d, w, h, levels, s))
        <==> w % Pow2(levels) == 0 && h % Pow2(levels) == 0
  {
    hide Forward, Inverse, Halvable, Zeros;
    HalvableMeansDivisible(w, levels);
    HalvableMeansDivisible(h, levels);
    if Halvable(w, levels) && Halvable(h, levels) {
      forall d: seq<real> | |d| == w * h ensures RoundTrips(d, w, h, levels, s) {
        RoundTripHalvable(d, w, h, w, h, levels, s);
      }
    } else {
      var d := SomethingLost(w, h, w, h, levels, s);
      ForwardZeros(w * h, w, h, w, h, levels, s);
      assert !RoundTrips(d, w, h, levels, s);
    }
  }

  /** On such planes the transform and its inverse keep the sum of squares. */
  lemma EnergyKept(d: seq<real>, w: nat, h: nat, levels: nat, s: Nonzero)
    requires |d| == w * h && s * s == 2.0 && w % Pow2(levels) == 0 && h % Pow2(levels) == 0
    ensures Energy(Forward(d, w, h, w, h, levels, s)) == Energy(d)
    ensures Energy(Inverse(d, w, h, w, h, levels, s)) == Energy(d)
  {
    HalvableMeansDivisible(w, levels);
    HalvableMeansDivisible(h, levels);
    EnergyHalvable(d, w, h, w, h, levels, s);
  }

  // ---- One dimension ----------------------------------------------------------------------------------

  lemma {:induction false} RoundTrip1DHalvable(d: seq<real>, cn: nat, levels: nat, s: Nonzero)
    requires cn <= |d| && s * s == 2.0 && Halvable(cn, levels)
    ensures Inverse1D(Forward1D(d, cn, levels, s), cn, levels, s) == d
    ensures Forward1D(Inverse1D(d, cn, levels, s), cn, levels, s) == d
    ensures Energy(Forward1D(d, cn, levels, s)) == Energy(d)
    decreases levels
  {
    hide Apply, Energy;
    if levels == 0 {
    } else {
      ApplyUndo(d, Prefix(cn), Forth, s);
      ApplyEnergy(d, Prefix(cn), Forth, s);
      RoundTrip1DHalvable(Apply(d, Prefix(cn), Forth, s), cn / 2, levels - 1, s);
      RoundTrip1DHalvable(d, cn / 2, levels - 1, s);
      ApplyUndo(Inverse1D(d, cn / 2, levels - 1, s), Prefix(cn), Back, s);
    }
  }

  lemma {:induction false} Zeros1D(n: nat, cn: nat, levels: nat, s: Nonzero)
    requires cn <= n
    ensures Forward1D(Zeros(n), cn, levels, s) == Zeros(n)
    ensures Inverse1D(Zeros(n), cn, levels, s) == Zeros(n)
    decreases levels
  {
    hide Apply, Zeros;
    if levels == 0 {
    } else {
      PrefixFits(cn, n);
      ApplyZeros(n, Prefix(cn), Forth, s);
      ApplyZeros(n, Prefix(cn), Back, s);
      Zeros1D(n, cn / 2, levels - 1, s);
    }
  }

  lemma PrefixFits(cn: nat, n: nat)
    requires cn <= n
    ensures Fits(Prefix(cn), n)
  {}

  /** Some line that is not zero is mapped to zero. */
  lemma {:induction false} SomethingLost1D(n: nat, cn: nat, levels: nat, s: Nonzero) returns (d: seq<real>)
    requires 0 < cn <= n && s * s == 2.0 && !Halvable(cn, levels)
    ensures |d| == n && d != Zeros(n) && Forward1D(d, cn, levels, s) == Zeros(n)
    decreases levels
  {
    hide Apply, Zeros, LastOnly;
    PrefixFits(cn, n);
    if cn % 2 == 1 {
      d := LastOnly(n, Prefix(cn));
      LastOnlyAt(n, Prefix(cn));
      OddLineLost(n, Prefix(cn), s);
      Zeros1D(n, cn / 2, levels - 1, s);
    } else {
      var e := SomethingLost1D(n, cn / 2, levels - 1, s);
      d := Apply(e, Prefix(cn), Back, s);
      ApplyUndo(e, Prefix(cn), Back, s);
      ApplyZeros(n, Prefix(cn), Forth, s);
    }
  }

  ghost predicate RoundTrips1D(d: seq<real>, levels: nat, s: Nonzero) {
    && Inverse1D(Forward1D(d, |d|, levels, s), |d|, levels, s) == d
    && Forward1D(Inverse1D(d, |d|, levels, s), |d|, levels, s) == d
  }

  /** Audio: the same for lines. */
  lemma RoundTrip1DExactly(n: nat, levels: nat, s: Nonzero)
    requires n > 0 && s * s == 2.0
    ensures (forall d: seq<real> :: |d| == n ==> RoundTrips1D(d, levels, s)) <==> n % Pow2(levels) == 0
  {
    hide Forward1D, Inverse1D, Halvable, Zeros;
    HalvableMeansDivisible(n, levels);
    if Halvable(n, levels) {
      forall d: seq<real> | |d| == n ensures RoundTrips1D(d, levels, s) {
        RoundTrip1DHalvable(d, n, levels, s);
      }
    } else {
      var d := SomethingLost1D(n, n, levels, s);
      Zeros1D(n, n, levels, s);
      assert !RoundTrips1D(d, levels, s);
    }
  }

  // ---- What one level computes ----------------------------------------------------------------------

  function Sample(d: seq<real>, w: nat, h: nat, x: nat, y: nat): real
    requires |d| == w * h && x < w && y < h
  {
    Place(w, h, x, y);
    d[y * w + x]
  }

  /** A row of the plane seen as a line. */
  lemma RowSample(d: seq<real>, w: nat, h: nat, cw: nat, x: nat, y: nat)
    requires |d| == w * h && cw <= w && x < cw && y < h
    ensures Fits(Row(w, cw, y), |d|) && Gather(d, Row(w, cw, y))[x] == Sample(d, w, h, x, y)
  {
    hide AllApart;
    RowsFit(w, h, cw, h, |d|);
    assert Rows(w, cw, h)[y] == Row(w, cw, y);
    hide Fits;
    assert At(Row(w, cw, y), x) == y * w + x;
  }

  lemma ColumnSample(d: seq<real>, w: nat, h: nat, ch: nat, x: nat, y: nat)
    requires |d| == w * h && ch <= h && x < w && y < ch
    ensures Fits(Column(w, ch, x), |d|) && Gather(d, Column(w, ch, x))[y] == Sample(d, w, h, x, y)
  {
    hide AllApart;
    ColumnsFit(w, h, w, ch, |d|);
    assert Columns(w, w, ch)[x] == Column(w, ch, x);
    hide Fits;
    assert At(Column(w, ch, x), y) == y * w + x;
  }

  lemma RowsAt(d: seq<real>, w: nat, h: nat, cw: nat, ch: nat, x: nat, y: nat, s: Nonzero)
    requires Corner(w, h, cw, ch, |d|) && x < cw / 2 && y < ch
    ensures var r := RowPass(d, w, h, cw, ch, Forth, s);
      var a, b := Sample(d, w, h, 2 * x, y), Sample(d, w, h, 2 * x + 1, y);
      Sample(r, w, h, x, y) == (a + b) / s && Sample(r, w, h, cw / 2 + x, y) == (a - b) / s
  {
    hide Pass, Fits, Gather, Analyze, Sample, AllApart, AllFit;
    var l := Row(w, cw, y);
    var r := RowPass(d, w, h, cw, ch, Forth, s);
    RowsFit(w, h, cw, ch, |d|);
    assert Rows(w, cw, ch)[y] == l;
    PassLine(d, Rows(w, cw, ch), Forth, s, y);
    RowSample(d, w, h, cw, 2 * x, y); RowSample(d, w, h, cw, 2 * x + 1, y);
    RowSample(r, w, h, cw, x, y); RowSample(r, w, h, cw, cw / 2 + x, y);
    AnalyzeAt(Gather(d, l), x, s);
  }

  lemma ColumnsAt(d: seq<real>, w: nat, h: nat, cw: nat, ch: nat, x: nat, y: nat, s: Nonzero)
    requires Corner(w, h, cw, ch, |d|) && x < cw && y < ch / 2
    ensures var r := ColumnPass(d, w, h, cw, ch, Forth, s);
      var a, b := Sample(d, w, h, x, 2 * y), Sample(d, w, h, x, 2 * y + 1);
      Sample(r, w, h, x, y) == (a + b) / s && Sample(r, w, h, x, ch / 2 + y) == (a - b) / s
  {
    hide Pass, Fits, Gather, Analyze, Sample, AllApart, AllFit;
    var l := Column(w, ch, x);
    var r := ColumnPass(d, w, h, cw, ch, Forth, s);
    ColumnsFit(w, h, cw, ch, |d|);
    assert Columns(w, cw, ch)[x] == l;
    PassLine(d, Columns(w, cw, ch), Forth, s, x);
    ColumnSample(d, w, h, ch, x, 2 * y); ColumnSample(d, w, h, ch, x, 2 * y + 1);
    ColumnSample(r, w, h, ch, x, y); ColumnSample(r, w, h, ch, x, ch / 2 + y);
    AnalyzeAt(Gather(d, l), y, s);
  }

  lemma Halve(p: real, q: real, s: Nonzero)
    requires s * s == 2.0
    ensures (p / s + q / s) / s == (p + q) / 2.0 && (p / s - q / s) / s == (p - q) / 2.0
  {
    HalfOf(p + q, s); HalfOf(p - q, s);
    assert p / s + q / s == (p + q) / s && p / s - q / s == (p - q) / s;
  }

  lemma HalfOf(a: real, s: Nonzero)
    requires s * s == 2.0
    ensures a / s / s == a / 2.0
  {
    assert a / s == a / 2.0 * s by { assert a / 2.0 * s * s == a; }
  }

  /** The four subbands of one level over a 2 x 2 block: half its sum, and half of each of the three differences. */
  lemma Subbands(d: seq<real>, w: nat, h: nat, cw: nat, ch: nat, x: nat, y: nat, s: Nonzero)
    requires Corner(w, h, cw, ch, |d|) && s * s == 2.0 && x < cw / 2 && y < ch / 2
    ensures var r := ColumnPass(RowPass(d, w, h, cw, ch, Forth, s), w, h, cw, ch, Forth, s);
      var a, b := Sample(d, w, h, 2 * x, 2 * y), Sample(d, w, h, 2 * x + 1, 2 * y);
      var c, e := Sample(d, w, h, 2 * x, 2 * y + 1), Sample(d, w, h, 2 * x + 1, 2 * y + 1);
      && Sample(r, w, h, x, y) == (a + b + c + e) / 2.0
      && Sample(r, w, h, cw / 2 + x, y) == (a - b + c - e) / 2.0
      && Sample(r, w, h, x, ch / 2 + y) == (a + b - c - e) / 2.0
      && Sample(r, w, h, cw / 2 + x, ch / 2 + y) == (a - b - c + e) / 2.0
  {
    hide RowPass, ColumnPass, Sample;
    var t := RowPass(d, w, h, cw, ch, Forth, s);
    RowsAt(d, w, h, cw, ch, x, 2 * y, s);
    RowsAt(d, w, h, cw, ch, x, 2 * y + 1, s);
    ColumnsAt(t, w, h, cw, ch, x, y, s);
    ColumnsAt(t, w, h, cw, ch, cw / 2 + x, y, s);
    var a, b := Sample(d, w, h, 2 * x, 2 * y), Sample(d, w, h, 2 * x + 1, 2 * y);
    var c, e := Sample(d, w, h, 2 * x, 2 * y + 1), Sample(d, w, h, 2 * x + 1, 2 * y + 1);
    Halve(a + b, c + e, s);
    Halve(a - b, c - e, s);
  }
}
