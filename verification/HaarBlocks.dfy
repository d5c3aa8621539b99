/** What the whole transform computes, without its passes: block sums for the remaining corner,
    signed block sums for every detail coefficient, zero for what has no partner. */
module HaarBlocks {
  import opened U64
  import opened Haar
  import opened HaarInPlace
  import opened HaarTheorems

  // ---- What a pass leaves alone -------------------------------------------------------------------

  ghost predicate Off(l: Line, p: nat) {
    forall i :: 0 <= i < l.n ==> At(l, i) != p
  }

  lemma {:induction false} PassOff(d: seq<real>, lines: seq<Line>, dir: Dir, s: Nonzero, p: nat)
    requires AllFit(lines, |d|) && p < |d| && forall k :: 0 <= k < |lines| ==> Off(lines[k], p)
    ensures Pass(d, lines, dir, s)[p] == d[p]
  {
    hide Apply, Fits, At;
    if lines == [] {
    } else {
      var m := |lines| - 1;
      PassOff(d, lines[..m], dir, s, p);
      ApplyLaw(Pass(d, lines[..m], dir, s), lines[m], dir, s);
    }
  }

  lemma RowsOff(w: nat, cw: nat, ch: nat, x: nat, y: nat)
    requires cw <= w && x < w && (x >= cw || y >= ch)
    ensures forall k :: 0 <= k < ch ==> Off(Row(w, cw, k), y * w + x)
  {
    forall k, i | 0 <= k < ch && 0 <= i < cw ensures At(Row(w, cw, k), i) != y * w + x {
      if k * w + i == y * w + x { PlaceApart(w, i, k, x, y); }
    }
  }

  lemma ColumnsOff(w: nat, cw: nat, ch: nat, x: nat, y: nat)
    requires cw <= w && x < w && (x >= cw || y >= ch)
    ensures forall k :: 0 <= k < cw ==> Off(Column(w, ch, k), y * w + x)
  {
    forall k, i | 0 <= k < cw && 0 <= i < ch ensures At(Column(w, ch, k), i) != y * w + x {
      if i * w + k == y * w + x { PlaceApart(w, k, i, x, y); }
    }
  }

  /** The passes of a level, in both directions, change nothing outside their corner. */
  lemma PassesStayInCorner(d: seq<real>, w: nat, h: nat, cw: nat, ch: nat, dir: Dir, s: Nonzero, x: nat, y: nat)
    requires Corner(w, h, cw, ch, |d|) && x < w && y < h && (x >= cw || y >= ch)
    ensures Sample(RowPass(d, w, h, cw, ch, dir, s), w, h, x, y) == Sample(d, w, h, x, y)
    ensures Sample(ColumnPass(d, w, h, cw, ch, dir, s), w, h, x, y) == Sample(d, w, h, x, y)
  {
    hide Pass, Fits, AllApart, Off, Row, Column;
    Place(w, h, x, y);
    RowsFit(w, h, cw, ch, |d|); ColumnsFit(w, h, cw, ch, |d|);
    RowsOff(w, cw, ch, x, y); ColumnsOff(w, cw, ch, x, y);
    PassOff(d, Rows(w, cw, ch), dir, s, y * w + x);
    PassOff(d, Columns(w, cw, ch), dir, s, y * w + x);
  }

  lemma {:induction false} ForwardStaysInCorner(d: seq<real>, w: nat, h: nat, cw: nat, ch: nat, levels: nat, s: Nonzero, x: nat, y: nat)
    requires Corner(w, h, cw, ch, |d|) && x < w && y < h && (x >= cw || y >= ch)
    ensures Sample(Forward(d, w, h, cw, ch, levels, s), w, h, x, y) == Sample(d, w, h, x, y)
    ensures Sample(Inverse(d, w, h, cw, ch, levels, s), w, h, x, y) == Sample(d, w, h, x, y)
    decreases levels
  {
    hide RowPass, ColumnPass, Sample;
    if levels == 0 {
    } else {
      var r := RowPass(d, w, h, cw, ch, Forth, s);
      PassesStayInCorner(d, w, h, cw, ch, Forth, s, x, y);
      PassesStayInCorner(r, w, h, cw, ch, Forth, s, x, y);
      ForwardStaysInCorner(ColumnPass(r, w, h, cw, ch, Forth, s), w, h, cw / 2, ch / 2, levels - 1, s, x, y);
      var e := Inverse(d, w, h, cw / 2, ch / 2, levels - 1, s);
      ForwardStaysInCorner(d, w, h, cw / 2, ch / 2, levels - 1, s, x, y);
      PassesStayInCorner(e, w, h, cw, ch, Back, s, x, y);
      PassesStayInCorner(ColumnPass(e, w, h, cw, ch, Back, s), w, h, cw, ch, Back, s, x, y);
    }
  }

  // ---- One level --------------------------------------------------------------------------------------

  /** The plane after one level of analysis. */
  function Level(d: seq<real>, w: nat, h: nat, cw: nat, ch: nat, s: Nonzero): (r: seq<real>)
    requires Corner(w, h, cw, ch, |d|)
    ensures |r| == |d|
  {
    ColumnPass(RowPass(d, w, h, cw, ch, Forth, s), w, h, cw, ch, Forth, s)
  }

  /** The unpaired last place of a row or a column becomes zero. */
  lemma RowRest(d: seq<real>, w: nat, h: nat, cw: nat, ch: nat, dir: Dir, x: nat, y: nat, s: Nonzero)
    requires Corner(w, h, cw, ch, |d|) && 2 * (cw / 2) <= x < cw && y < ch
    ensures Sample(RowPass(d, w, h, cw, ch, dir, s), w, h, x, y) == 0.0
  {
    hide Pass, Fits, Gather, Analyze, Synthesize, Sample, AllApart, AllFit;
    var l := Row(w, cw, y);
    RowsFit(w, h, cw, ch, |d|);
    assert Rows(w, cw, ch)[y] == l;
    PassLine(d, Rows(w, cw, ch), dir, s, y);
    RowSample(d, w, h, cw, x, y);
    RowSample(RowPass(d, w, h, cw, ch, dir, s), w, h, cw, x, y);
    AnalyzeLast(Gather(d, l), s);
  }

  lemma ColumnRest(d: seq<real>, w: nat, h: nat, cw: nat, ch: nat, dir: Dir, x: nat, y: nat, s: Nonzero)
    requires Corner(w, h, cw, ch, |d|) && x < cw && 2 * (ch / 2) <= y < ch
    ensures Sample(ColumnPass(d, w, h, cw, ch, dir, s), w, h, x, y) == 0.0
  {
    hide Pass, Fits, Gather, Analyze, Synthesize, Sample, AllApart, AllFit;
    var l := Column(w, ch, x);
    ColumnsFit(w, h, cw, ch, |d|);
    assert Columns(w, cw, ch)[x] == l;
    PassLine(d, Columns(w, cw, ch), dir, s, x);
    ColumnSample(d, w, h, ch, x, y);
    ColumnSample(ColumnPass(d, w, h, cw, ch, dir, s), w, h, ch, x, y);
    AnalyzeLast(Gather(d, l), s);
  }

  lemma ZeroOver(s: Nonzero)
    ensures (0.0 + 0.0) / s == 0.0 && (0.0 - 0.0) / s == 0.0
  {}

  /** A place of the corner without a partner in its row or column is zero after the level. */
  lemma LevelRest(d: seq<real>, w: nat, h: nat, cw: nat, ch: nat, x: nat, y: nat, s: Nonzero)
    requires Corner(w, h, cw, ch, |d|) && x < cw && y < ch && (2 * (cw / 2) <= x || 2 * (ch / 2) <= y)
    ensures Sample(Level(d, w, h, cw, ch, s), w, h, x, y) == 0.0
  {
    hide RowPass, ColumnPass, Sample;
    var t := RowPass(d, w, h, cw, ch, Forth, s);
    if 2 * (ch / 2) <= y {
      ColumnRest(t, w, h, cw, ch, Forth, x, y, s);
    } else {
      var j := if y < ch / 2 then y else y - ch / 2;
      RowRest(d, w, h, cw, ch, Forth, x, 2 * j, s);
      RowRest(d, w, h, cw, ch, Forth, x, 2 * j + 1, s);
      ColumnsAt(t, w, h, cw, ch, x, j, s);
      ZeroOver(s);
    }
  }

  // ---- Sums over blocks -----------------------------------------------------------------------------------

  /** n samples of row y from column x on, added up. */
  function RowSum(d: seq<real>, w: nat, h: nat, x: nat, y: nat, n: nat): real
    requires |d| == w * h && x + n <= w && y < h
  {
    if n == 0 then 0.0 else RowSum(d, w, h, x, y, n - 1) + Sample(d, w, h, x + n - 1, y)
  }

  /** The samples of the n x m block at (x, y), added up. */
  function BlockSum(d: seq<real>, w: nat, h: nat, x: nat, y: nat, n: nat, m: nat): real
    requires |d| == w * h && x + n <= w && y + m <= h
  {
    if m == 0 then 0.0 else BlockSum(d, w, h, x, y, n, m - 1) + RowSum(d, w, h, x, y + m - 1, n)
  }

  lemma {:induction false} RowSumOfLevel(d: seq<real>, w: nat, h: nat, cw: nat, ch: nat, x: nat, y: nat, n: nat, s: Nonzero)
    requires Corner(w, h, cw, ch, |d|) && s * s == 2.0 && x + n <= cw / 2 && y < ch / 2
    ensures RowSum(Level(d, w, h, cw, ch, s), w, h, x, y, n)
         == (RowSum(d, w, h, 2 * x, 2 * y, 2 * n) + RowSum(d, w, h, 2 * x, 2 * y + 1, 2 * n)) / 2.0
  {
    hide RowPass, ColumnPass, Sample;
    if n == 0 {
    } else {
      RowSumOfLevel(d, w, h, cw, ch, x, y, n - 1, s);
      Subbands(d, w, h, cw, ch, x + n - 1, y, s);
      RowSumTwo(d, w, h, 2 * x, 2 * y, 2 * n);
      RowSumTwo(d, w, h, 2 * x, 2 * y + 1, 2 * n);
    }
  }

  lemma RowSumTwo(d: seq<real>, w: nat, h: nat, x: nat, y: nat, n: nat)
    requires |d| == w * h && x + n <= w && y < h && n >= 2
    ensures RowSum(d, w, h, x, y, n) == RowSum(d, w, h, x, y, n - 2) + Sample(d, w, h, x + n - 2, y) + Sample(d, w, h, x + n - 1, y)
  {
    hide Sample;
  }

  lemma BlockSumTwo(d: seq<real>, w: nat, h: nat, x: nat, y: nat, n: nat, m: nat)
    requires |d| == w * h && x + n <= w && y + m <= h && m >= 2
    ensures BlockSum(d, w, h, x, y, n, m)
         == BlockSum(d, w, h, x, y, n, m - 2) + RowSum(d, w, h, x, y + m - 2, n) + RowSum(d, w, h, x, y + m - 1, n)
  {
    hide RowSum;
  }

  /** A level halves the sums over blocks of twice the sides. */
  lemma {:induction false} BlockSumOfLevel(d: seq<real>, w: nat, h: nat, cw: nat, ch: nat, x: nat, y: nat, n: nat, m: nat, s: Nonzero)
    requires Corner(w, h, cw, ch, |d|) && s * s == 2.0 && x + n <= cw / 2 && y + m <= ch / 2
    ensures BlockSum(Level(d, w, h, cw, ch, s), w, h, x, y, n, m) == BlockSum(d, w, h, 2 * x, 2 * y, 2 * n, 2 * m) / 2.0
  {
    hide Level, RowSum;
    if m == 0 {
    } else {
      BlockSumOfLevel(d, w, h, cw, ch, x, y, n, m - 1, s);
      RowSumOfLevel(d, w, h, cw, ch, x, y + m - 1, n, s);
      BlockSumTwo(d, w, h, 2 * x, 2 * y, 2 * n, 2 * m);
    }
  }

  /** Block (i, j) when the plane is cut into n x n blocks. */
  function Tile(d: seq<real>, w: nat, h: nat, i: nat, j: nat, n: nat): real
    requires |d| == w * h && i * n + n <= w && j * n + n <= h
  {
    BlockSum(d, w, h, i * n, j * n, n, n)
  }

  lemma Doubled(i: nat, n: nat)
    ensures i * (2 * n) == 2 * (i * n)
  {}

  lemma TileOfLevel(d: seq<real>, w: nat, h: nat, cw: nat, ch: nat, i: nat, j: nat, n: nat, s: Nonzero)
    requires Corner(w, h, cw, ch, |d|) && s * s == 2.0 && i * n + n <= cw / 2 && j * n + n <= ch / 2
    ensures i * (2 * n) + 2 * n <= cw && j * (2 * n) + 2 * n <= ch
    ensures Tile(Level(d, w, h, cw, ch, s), w, h, i, j, n) == Tile(d, w, h, i, j, 2 * n) / 2.0
  {
    hide Level, BlockSum;
    Doubled(i, n); Doubled(j, n);
    BlockSumOfLevel(d, w, h, cw, ch, i * n, j * n, n, n, s);
  }

  /** The remaining corner holds as many whole blocks as it has places. */
  lemma {:induction false} BlocksFit(n: nat, levels: nat, i: nat)
    requires i < Shr(n, levels)
    ensures i * Pow2(levels) + Pow2(levels) <= n && i < n
  {
    if levels > 0 {
      BlocksFit(n / 2, levels - 1, i);
      Doubled(i, Pow2(levels - 1));
    }
  }

  lemma HalvedAgain(a: real, p: nat)
    requires p > 0
    ensures a / 2.0 / p as real == a / (2 * p) as real
  {
    assert (2 * p) as real == 2.0 * p as real;
  }

  /** The coefficients of the remaining corner are the sums over the 2^levels x 2^levels blocks, divided by 2^levels. */
  lemma {:induction false} CornerIsBlockSums(d: seq<real>, w: nat, h: nat, cw: nat, ch: nat, levels: nat, s: Nonzero, x: nat, y: nat)
    requires Corner(w, h, cw, ch, |d|) && s * s == 2.0 && x < Shr(cw, levels) && y < Shr(ch, levels)
    ensures x < cw && x * Pow2(levels) + Pow2(levels) <= cw
    ensures y < ch && y * Pow2(levels) + Pow2(levels) <= ch
    ensures Sample(Forward(d, w, h, cw, ch, levels, s), w, h, x, y) == Tile(d, w, h, x, y, Pow2(levels)) / Pow2(levels) as real
    decreases levels
  {
    hide RowPass, ColumnPass, Sample, Tile;
    BlocksFit(cw, levels, x); BlocksFit(ch, levels, y);
    if levels == 0 {
      TileOfOne(d, w, h, x, y);
    } else {
      var p := Pow2(levels - 1);
      BlocksFit(cw / 2, levels - 1, x); BlocksFit(ch / 2, levels - 1, y);
      CornerIsBlockSums(Level(d, w, h, cw, ch, s), w, h, cw / 2, ch / 2, levels - 1, s, x, y);
      TileOfLevel(d, w, h, cw, ch, x, y, p, s);
      HalvedAgain(Tile(d, w, h, x, y, 2 * p), p);
    }
  }

  lemma TileOfOne(d: seq<real>, w: nat, h: nat, i: nat, j: nat)
    requires |d| == w * h && i < w && j < h
    ensures Tile(d, w, h, i, j, 1) == Sample(d, w, h, i, j)
  {
    hide Sample;
    assert RowSum(d, w, h, i, j, 0) == 0.0 && BlockSum(d, w, h, i, j, 1, 0) == 0.0;
  }

  /** The halves of a place of the ring: the four sub-blocks of its block. */
  lemma QuartersFit(n: nat, levels: nat, i: nat)
    requires i < Shr(n, levels) && levels > 0
    ensures var p := Pow2(levels - 1); 2 * i * p + p <= n && (2 * i + 1) * p + p <= n
    ensures Shr(n, levels) + i < n
  {
    hide Shr;
    var p := Pow2(levels - 1);
    BlocksFit(n, levels, i);
    assert i * Pow2(levels) == 2 * i * p;
    assert (2 * i + 1) * p == 2 * i * p + p;
    ShrFacts(n, levels - 1);
    ShrFacts(n / 2, levels - 1);
    ShrShr(n, 1, levels - 1);
    assert Shr(n, 1) == n / 2 by { ShrFacts(n, 0); }
  }

  /** Of a level's four sub-blocks, each with its value: the three detail coefficients. */
  ghost predicate SignedSums(across: real, down: real, both: real, a: real, b: real, c: real, e: real, p: nat)
    requires p > 0
  {
    && across == (a - b + c - e) / p as real
    && down == (a + b - c - e) / p as real
    && both == (a - b - c + e) / p as real
  }

  lemma SignedSumsDouble(across: real, down: real, both: real, a: real, b: real, c: real, e: real, p: nat)
    requires p > 0 && SignedSums(across, down, both, a / 2.0, b / 2.0, c / 2.0, e / 2.0, p)
    ensures SignedSums(across, down, both, a, b, c, e, 2 * p)
  {
    HalvedAgain(a - b + c - e, p); HalvedAgain(a + b - c - e, p); HalvedAgain(a - b - c + e, p);
    assert a / 2.0 - b / 2.0 + c / 2.0 - e / 2.0 == (a - b + c - e) / 2.0;
    assert a / 2.0 + b / 2.0 - c / 2.0 - e / 2.0 == (a + b - c - e) / 2.0;
    assert a / 2.0 - b / 2.0 - c / 2.0 + e / 2.0 == (a - b - c + e) / 2.0;
  }

  /** r holds, at the three places (x, y) has around the corner cx x cy, the signed sums of the four
      p x p quarters of block (x, y) of d, divided by 2 p. */
  ghost predicate Details(r: seq<real>, d: seq<real>, w: nat, h: nat, cx: nat, cy: nat, x: nat, y: nat, p: nat) {
    && |r| == |d| == w * h && p > 0 && cx + x < w && cy + y < h
    && 2 * x * p + p <= w && (2 * x + 1) * p + p <= w && 2 * y * p + p <= h && (2 * y + 1) * p + p <= h
    && SignedSums(Sample(r, w, h, cx + x, y), Sample(r, w, h, x, cy + y), Sample(r, w, h, cx + x, cy + y),
                  Tile(d, w, h, 2 * x, 2 * y, p), Tile(d, w, h, 2 * x + 1, 2 * y, p),
                  Tile(d, w, h, 2 * x, 2 * y + 1, p), Tile(d, w, h, 2 * x + 1, 2 * y + 1, p), 2 * p)
  }

  /** A detail coefficient of ring l is a signed sum of the four quarters of its 2^l x 2^l block, divided by 2^l. */
  lemma {:induction false} RingIsSignedSums(d: seq<real>, w: nat, h: nat, cw: nat, ch: nat, levels: nat, l: nat, s: Nonzero,
                                            x: nat, y: nat)
    requires Corner(w, h, cw, ch, |d|) && s * s == 2.0 && 1 <= l <= levels && x < Shr(cw, l) && y < Shr(ch, l)
    ensures Details(Forward(d, w, h, cw, ch, levels, s), d, w, h, Shr(cw, l), Shr(ch, l), x, y, Pow2(l - 1))
    decreases levels
  {
    hide Level, Details, Shr, Pow2, Forward;
    var r, e := Forward(d, w, h, cw, ch, levels, s), Level(d, w, h, cw, ch, s);
    ForwardByLevel(d, w, h, cw, ch, levels, s);
    ShrStep(cw, l); ShrStep(ch, l); Pow2Step(l - 1);
    if l == 1 {
      FirstRing(d, w, h, cw, ch, x, y, s);
      DetailsStay(e, d, w, h, cw / 2, ch / 2, levels - 1, s, x, y, 1);
    } else {
      QuartersFit(cw / 2, l - 1, x); QuartersFit(ch / 2, l - 1, y);
      RingIsSignedSums(e, w, h, cw / 2, ch / 2, levels - 1, l - 1, s, x, y);
      DetailsStep(r, d, w, h, cw, ch, Shr(cw, l), Shr(ch, l), x, y, Pow2(l - 2), s);
    }
  }

  lemma ShrStep(n: nat, l: nat)
    requires l >= 1
    ensures Shr(n, l) == Shr(n / 2, l - 1) && (l == 1 ==> Shr(n, l) == n / 2)
  {}

  lemma Pow2Step(l: nat)
    ensures Pow2(l) == if l == 0 then 1 else 2 * Pow2(l - 1)
  {}

  lemma ForwardByLevel(d: seq<real>, w: nat, h: nat, cw: nat, ch: nat, levels: nat, s: Nonzero)
    requires Corner(w, h, cw, ch, |d|) && levels > 0
    ensures Forward(d, w, h, cw, ch, levels, s) == Forward(Level(d, w, h, cw, ch, s), w, h, cw / 2, ch / 2, levels - 1, s)
  {}

  /** Details of d found around a corner outlast the transform of that corner. */
  lemma DetailsStay(e: seq<real>, d: seq<real>, w: nat, h: nat, cx: nat, cy: nat, levels: nat, s: Nonzero, x: nat, y: nat, p: nat)
    requires Corner(w, h, cx, cy, |e|) && Details(e, d, w, h, cx, cy, x, y, p)
    ensures Details(Forward(e, w, h, cx, cy, levels, s), d, w, h, cx, cy, x, y, p)
  {
    hide Forward, Inverse, Sample, Tile, SignedSums;
    ForwardStaysInCorner(e, w, h, cx, cy, levels, s, cx + x, y);
    ForwardStaysInCorner(e, w, h, cx, cy, levels, s, x, cy + y);
    ForwardStaysInCorner(e, w, h, cx, cy, levels, s, cx + x, cy + y);
  }

  /** Details of one level further up have quarters of twice the side. */
  lemma DetailsStep(r: seq<real>, d: seq<real>, w: nat, h: nat, cw: nat, ch: nat, cx: nat, cy: nat, x: nat, y: nat, p: nat, s: Nonzero)
    requires Corner(w, h, cw, ch, |d|) && s * s == 2.0
    requires (2 * x * p + p <= cw / 2) && ((2 * x + 1) * p + p <= cw / 2)
    requires (2 * y * p + p <= ch / 2) && ((2 * y + 1) * p + p <= ch / 2)
    requires Details(r, Level(d, w, h, cw, ch, s), w, h, cx, cy, x, y, p)
    ensures Details(r, d, w, h, cx, cy, x, y, 2 * p)
  {
    hide Level, Sample, Tile, SignedSums;
    TileOfLevel(d, w, h, cw, ch, 2 * x, 2 * y, p, s);
    TileOfLevel(d, w, h, cw, ch, 2 * x + 1, 2 * y, p, s);
    TileOfLevel(d, w, h, cw, ch, 2 * x, 2 * y + 1, p, s);
    TileOfLevel(d, w, h, cw, ch, 2 * x + 1, 2 * y + 1, p, s);
    SignedSumsDouble(Sample(r, w, h, cx + x, y), Sample(r, w, h, x, cy + y), Sample(r, w, h, cx + x, cy + y),
                     Tile(d, w, h, 2 * x, 2 * y, 2 * p), Tile(d, w, h, 2 * x + 1, 2 * y, 2 * p),
                     Tile(d, w, h, 2 * x, 2 * y + 1, 2 * p), Tile(d, w, h, 2 * x + 1, 2 * y + 1, 2 * p), 2 * p);
  }

  lemma FirstRing(d: seq<real>, w: nat, h: nat, cw: nat, ch: nat, x: nat, y: nat, s: Nonzero)
    requires Corner(w, h, cw, ch, |d|) && s * s == 2.0 && x < cw / 2 && y < ch / 2
    ensures Details(Level(d, w, h, cw, ch, s), d, w, h, cw / 2, ch / 2, x, y, 1)
  {
    hide RowPass, ColumnPass, Sample, Tile;
    Subbands(d, w, h, cw, ch, x, y, s);
    TileOfOne(d, w, h, 2 * x, 2 * y); TileOfOne(d, w, h, 2 * x + 1, 2 * y);
    TileOfOne(d, w, h, 2 * x, 2 * y + 1); TileOfOne(d, w, h, 2 * x + 1, 2 * y + 1);
  }

  /** A place of ring l that its level finds without a partner holds zero at the end. */
  lemma {:induction false} RingRestIsZero(d: seq<real>, w: nat, h: nat, cw: nat, ch: nat, levels: nat, l: nat, s: Nonzero,
                                          x: nat, y: nat)
    requires Corner(w, h, cw, ch, |d|) && 1 <= l <= levels && x < Shr(cw, l - 1) && y < Shr(ch, l - 1)
    requires 2 * Shr(cw, l) <= x || 2 * Shr(ch, l) <= y
    ensures x < cw && y < ch && Sample(Forward(d, w, h, cw, ch, levels, s), w, h, x, y) == 0.0
    decreases levels
  {
    hide RowPass, ColumnPass, Sample;
    BlocksFit(cw, l - 1, x); BlocksFit(ch, l - 1, y);
    if l == 1 {
      LevelRest(d, w, h, cw, ch, x, y, s);
      ForwardStaysInCorner(Level(d, w, h, cw, ch, s), w, h, cw / 2, ch / 2, levels - 1, s, x, y);
    } else {
      RingRestIsZero(Level(d, w, h, cw, ch, s), w, h, cw / 2, ch / 2, levels - 1, l - 1, s, x, y);
    }
  }

  /** Every place of the plane is in the remaining corner, or in one ring, where it is one of the
      three kinds of detail or has no partner. */
  lemma {:induction false} PlacesCovered(cw: nat, ch: nat, levels: nat, x: nat, y: nat) returns (l: nat)
    requires x < cw && y < ch && !(x < Shr(cw, levels) && y < Shr(ch, levels))
    ensures 1 <= l <= levels && x < Shr(cw, l - 1) && y < Shr(ch, l - 1) && !(x < Shr(cw, l) && y < Shr(ch, l))
  {
    if x < cw / 2 && y < ch / 2 {
      var m := PlacesCovered(cw / 2, ch / 2, levels - 1, x, y);
      l := m + 1;
    } else {
      l := 1;
      assert Shr(cw, 1) == Shr(cw / 2, 0) && Shr(ch, 1) == Shr(ch / 2, 0);
    }
  }

  // ---- The inverse, place by place ------------------------------------------------------------------------

  function Signed(odd: bool, a: real): real {
    if odd then -a else a
  }

  lemma RowsBackAt(d: seq<real>, w: nat, h: nat, cw: nat, ch: nat, x: nat, y: nat, s: Nonzero)
    requires Corner(w, h, cw, ch, |d|) && x < 2 * (cw / 2) && y < ch
    ensures Sample(RowPass(d, w, h, cw, ch, Back, s), w, h, x, y)
         == (Sample(d, w, h, x / 2, y) + Signed(x % 2 == 1, Sample(d, w, h, cw / 2 + x / 2, y))) / s
  {
    hide Pass, Fits, Gather, Synthesize, Sample, AllApart, AllFit;
    var l := Row(w, cw, y);
    var r := RowPass(d, w, h, cw, ch, Back, s);
    RowsFit(w, h, cw, ch, |d|);
    assert Rows(w, cw, ch)[y] == l;
    PassLine(d, Rows(w, cw, ch), Back, s, y);
    RowSample(d, w, h, cw, x / 2, y); RowSample(d, w, h, cw, cw / 2 + x / 2, y);
    RowSample(r, w, h, cw, x, y);
    SynthesizeAt(Gather(d, l), x / 2, s);
  }

  lemma ColumnsBackAt(d: seq<real>, w: nat, h: nat, cw: nat, ch: nat, x: nat, y: nat, s: Nonzero)
    requires Corner(w, h, cw, ch, |d|) && x < cw && y < 2 * (ch / 2)
    ensures Sample(ColumnPass(d, w, h, cw, ch, Back, s), w, h, x, y)
         == (Sample(d, w, h, x, y / 2) + Signed(y % 2 == 1, Sample(d, w, h, x, ch / 2 + y / 2))) / s
  {
    hide Pass, Fits, Gather, Synthesize, Sample, AllApart, AllFit;
    var l := Column(w, ch, x);
    var r := ColumnPass(d, w, h, cw, ch, Back, s);
    ColumnsFit(w, h, cw, ch, |d|);
    assert Columns(w, cw, ch)[x] == l;
    PassLine(d, Columns(w, cw, ch), Back, s, x);
    ColumnSample(d, w, h, ch, x, y / 2); ColumnSample(d, w, h, ch, x, ch / 2 + y / 2);
    ColumnSample(r, w, h, ch, x, y);
    SynthesizeAt(Gather(d, l), y / 2, s);
  }

  function LevelBack(d: seq<real>, w: nat, h: nat, cw: nat, ch: nat, s: Nonzero): (r: seq<real>)
    requires Corner(w, h, cw, ch, |d|)
    ensures |r| == |d|
  {
    RowPass(ColumnPass(d, w, h, cw, ch, Back, s), w, h, cw, ch, Back, s)
  }

  /** A sample from the four coefficients of its 2 x 2 block. */
  function FromBlock(a: real, b: real, c: real, e: real, x: nat, y: nat): real {
    (a + Signed(x % 2 == 1, b) + Signed(y % 2 == 1, c) + Signed(x % 2 != y % 2, e)) / 2.0
  }

  lemma LevelBackAt(d: seq<real>, w: nat, h: nat, cw: nat, ch: nat, x: nat, y: nat, s: Nonzero)
    requires Corner(w, h, cw, ch, |d|) && s * s == 2.0 && x < 2 * (cw / 2) && y < 2 * (ch / 2)
    ensures Sample(LevelBack(d, w, h, cw, ch, s), w, h, x, y)
         == FromBlock(Sample(d, w, h, x / 2, y / 2), Sample(d, w, h, cw / 2 + x / 2, y / 2),
                      Sample(d, w, h, x / 2, ch / 2 + y / 2), Sample(d, w, h, cw / 2 + x / 2, ch / 2 + y / 2), x, y)
  {
    hide RowPass, ColumnPass, Sample;
    var t := ColumnPass(d, w, h, cw, ch, Back, s);
    RowsBackAt(t, w, h, cw, ch, x, y, s);
    ColumnsBackAt(d, w, h, cw, ch, x / 2, y, s);
    ColumnsBackAt(d, w, h, cw, ch, cw / 2 + x / 2, y, s);
    var a, b := Sample(d, w, h, x / 2, y / 2), Sample(d, w, h, cw / 2 + x / 2, y / 2);
    var c, e := Sample(d, w, h, x / 2, ch / 2 + y / 2), Sample(d, w, h, cw / 2 + x / 2, ch / 2 + y / 2);
    Halve(a + Signed(y % 2 == 1, c), b + Signed(y % 2 == 1, e), s);
  }

  lemma LevelBackRest(d: seq<real>, w: nat, h: nat, cw: nat, ch: nat, x: nat, y: nat, s: Nonzero)
    requires Corner(w, h, cw, ch, |d|) && x < cw && y < ch && (2 * (cw / 2) <= x || 2 * (ch / 2) <= y)
    ensures Sample(LevelBack(d, w, h, cw, ch, s), w, h, x, y) == 0.0
  {
    hide RowPass, ColumnPass, Sample;
    var t := ColumnPass(d, w, h, cw, ch, Back, s);
    if 2 * (cw / 2) <= x {
      RowRest(t, w, h, cw, ch, Back, x, y, s);
    } else {
      RowsBackAt(t, w, h, cw, ch, x, y, s);
      ColumnRest(d, w, h, cw, ch, Back, x / 2, y, s);
      ColumnRest(d, w, h, cw, ch, Back, cw / 2 + x / 2, y, s);
      ZeroOver(s);
    }
  }

  /** The sample at (x, y) from the coefficients above it: one of the remaining corner, and three of each ring. */
  function Rebuilt(d: seq<real>, w: nat, h: nat, cw: nat, ch: nat, levels: nat, x: nat, y: nat): real
    requires Corner(w, h, cw, ch, |d|) && x < cw && y < ch
    decreases levels
  {
    if levels == 0 then Sample(d, w, h, x, y)
    else if 2 * (cw / 2) <= x || 2 * (ch / 2) <= y then 0.0
    else
      FromBlock(Rebuilt(d, w, h, cw / 2, ch / 2, levels - 1, x / 2, y / 2), Sample(d, w, h, cw / 2 + x / 2, y / 2),
                Sample(d, w, h, x / 2, ch / 2 + y / 2), Sample(d, w, h, cw / 2 + x / 2, ch / 2 + y / 2), x, y)
  }

  lemma AroundStays(d: seq<real>, w: nat, h: nat, cx: nat, cy: nat, levels: nat, s: Nonzero, x: nat, y: nat)
    requires Corner(w, h, cx, cy, |d|) && cx + x < w && cy + y < h
    ensures var e := Inverse(d, w, h, cx, cy, levels, s);
      && Sample(e, w, h, cx + x, y) == Sample(d, w, h, cx + x, y)
      && Sample(e, w, h, x, cy + y) == Sample(d, w, h, x, cy + y)
      && Sample(e, w, h, cx + x, cy + y) == Sample(d, w, h, cx + x, cy + y)
  {
    hide Forward, Inverse, Sample;
    ForwardStaysInCorner(d, w, h, cx, cy, levels, s, cx + x, y);
    ForwardStaysInCorner(d, w, h, cx, cy, levels, s, x, cy + y);
    ForwardStaysInCorner(d, w, h, cx, cy, levels, s, cx + x, cy + y);
  }

  lemma InverseByLevel(d: seq<real>, w: nat, h: nat, cw: nat, ch: nat, levels: nat, s: Nonzero)
    requires Corner(w, h, cw, ch, |d|) && levels > 0
    ensures Inverse(d, w, h, cw, ch, levels, s) == LevelBack(Inverse(d, w, h, cw / 2, ch / 2, levels - 1, s), w, h, cw, ch, s)
  {}

  /** The inverse of any plane, place by place. */
  lemma {:induction false} InverseIsRebuilt(d: seq<real>, w: nat, h: nat, cw: nat, ch: nat, levels: nat, s: Nonzero, x: nat, y: nat)
    requires Corner(w, h, cw, ch, |d|) && s * s == 2.0 && x < cw && y < ch
    ensures Sample(Inverse(d, w, h, cw, ch, levels, s), w, h, x, y) == Rebuilt(d, w, h, cw, ch, levels, x, y)
    decreases levels
  {
    hide LevelBack, Inverse, Sample, FromBlock;
    if levels == 0 {
      assert Inverse(d, w, h, cw, ch, 0, s) == d by { NothingToUndo(d, w, h, cw, ch, s); }
    } else {
      InverseByLevel(d, w, h, cw, ch, levels, s);
      var e := Inverse(d, w, h, cw / 2, ch / 2, levels - 1, s);
      if 2 * (cw / 2) <= x || 2 * (ch / 2) <= y {
        LevelBackRest(e, w, h, cw, ch, x, y, s);
      } else {
        LevelBackAt(e, w, h, cw, ch, x, y, s);
        InverseIsRebuilt(d, w, h, cw / 2, ch / 2, levels - 1, s, x / 2, y / 2);
        AroundStays(d, w, h, cw / 2, ch / 2, levels - 1, s, x / 2, y / 2);
      }
    }
  }

  lemma NothingToUndo(d: seq<real>, w: nat, h: nat, cw: nat, ch: nat, s: Nonzero)
    requires Corner(w, h, cw, ch, |d|)
    ensures Inverse(d, w, h, cw, ch, 0, s) == d
  {}

  // ---- One dimension -------------------------------------------------------------------------------------------

  /** n samples from place i on, added up. */
  function Span(d: seq<real>, i: nat, n: nat): real
    requires i + n <= |d|
  {
    if n == 0 then 0.0 else Span(d, i, n - 1) + d[i + n - 1]
  }

  /** Stretch i when the line is cut into stretches of n samples. */
  function Stretch(d: seq<real>, i: nat, n: nat): real
    requires i * n + n <= |d|
  {
    Span(d, i * n, n)
  }

  function Power(s: Nonzero, k: nat): (p: Nonzero) {
    if k == 0 then 1.0 else NonzeroTimes(s, Power(s, k - 1)); s * Power(s, k - 1)
  }

  lemma NonzeroTimes(a: Nonzero, b: Nonzero)
    ensures a * b != 0.0
  {
    assert a * b / b == a;
  }

  lemma OverPower(a: real, s: Nonzero, k: nat)
    ensures a / s / Power(s, k) == a / Power(s, k + 1)
  {
    var p := Power(s, k);
    assert Power(s, k + 1) == s * p;
    assert a / s / p == a / (s * p) by { QuotientOfQuotient(a, s, p); }
  }

  lemma QuotientOfQuotient(a: real, s: Nonzero, p: Nonzero)
    ensures s * p != 0.0 && a / s / p == a / (s * p)
  {
    NonzeroTimes(s, p);
    var q := a / s / p;
    assert q * p == a / s;
    assert q * p * s == a;
    assert q * (s * p) == q * p * s;
  }

  lemma LinePair(d: seq<real>, cn: nat, i: nat, s: Nonzero)
    requires cn <= |d| && i < cn / 2
    ensures var r := Apply(d, Prefix(cn), Forth, s);
      r[i] == (d[2 * i] + d[2 * i + 1]) / s && r[cn / 2 + i] == (d[2 * i] - d[2 * i + 1]) / s
  {
    hide Apply, Analyze;
    var l := Prefix(cn);
    ApplyLaw(d, l, Forth, s);
    AnalyzeAt(Gather(d, l), i, s);
    assert At(l, i) == i && At(l, cn / 2 + i) == cn / 2 + i;
  }

  lemma LineRest(d: seq<real>, cn: nat, i: nat, s: Nonzero)
    requires cn <= |d| && 2 * (cn / 2) <= i < |d|
    ensures Apply(d, Prefix(cn), Forth, s)[i] == if i < cn then 0.0 else d[i]
  {
    hide Apply, Analyze;
    var l := Prefix(cn);
    ApplyLaw(d, l, Forth, s);
    AnalyzeLast(Gather(d, l), s);
    if i < cn { assert At(l, i) == i; }
  }

  lemma SpanTwo(d: seq<real>, i: nat, n: nat)
    requires i + n <= |d| && n >= 2
    ensures Span(d, i, n) == Span(d, i, n - 2) + d[i + n - 2] + d[i + n - 1]
  {}

  lemma AddOver(a: real, b: real, s: Nonzero)
    ensures a / s + b / s == (a + b) / s && a / s - b / s == (a - b) / s
  {}

  lemma {:induction false} SpanOfLevel(d: seq<real>, cn: nat, i: nat, n: nat, s: Nonzero)
    requires cn <= |d| && i + n <= cn / 2
    ensures Span(Apply(d, Prefix(cn), Forth, s), i, n) == Span(d, 2 * i, 2 * n) / s
  {
    hide Apply;
    if n == 0 {
      ZeroOver(s);
    } else {
      SpanOfLevel(d, cn, i, n - 1, s);
      LinePair(d, cn, i + n - 1, s);
      SpanTwo(d, 2 * i, 2 * n);
      AddOver(Span(d, 2 * i, 2 * n - 2), d[2 * (i + n - 1)] + d[2 * (i + n - 1) + 1], s);
    }
  }

  lemma StretchOfLevel(d: seq<real>, cn: nat, i: nat, n: nat, s: Nonzero)
    requires cn <= |d| && i * n + n <= cn / 2
    ensures i * (2 * n) + 2 * n <= cn
    ensures Stretch(Apply(d, Prefix(cn), Forth, s), i, n) == Stretch(d, i, 2 * n) / s
  {
    hide Apply, Span;
    Doubled(i, n);
    SpanOfLevel(d, cn, i * n, n, s);
  }

  lemma StretchOfOne(d: seq<real>, i: nat)
    requires i < |d|
    ensures Stretch(d, i, 1) == d[i]
  {
    assert Span(d, i, 0) == 0.0;
  }

  lemma {:induction false} Forward1DStays(d: seq<real>, cn: nat, levels: nat, s: Nonzero, i: nat)
    requires cn <= i < |d|
    ensures Forward1D(d, cn, levels, s)[i] == d[i]
    decreases levels
  {
    hide Apply;
    if levels == 0 {
    } else {
      LineRest(d, cn, i, s);
      Forward1DStays(Apply(d, Prefix(cn), Forth, s), cn / 2, levels - 1, s, i);
    }
  }

  /** The remaining prefix holds the sums over stretches of 2^levels samples, divided by s^levels. */
  lemma {:induction false} PrefixIsSpans(d: seq<real>, cn: nat, levels: nat, s: Nonzero, i: nat)
    requires cn <= |d| && i < Shr(cn, levels)
    ensures i < cn && i * Pow2(levels) + Pow2(levels) <= cn
    ensures Forward1D(d, cn, levels, s)[i] == Stretch(d, i, Pow2(levels)) / Power(s, levels)
    decreases levels
  {
    hide Apply, Stretch;
    BlocksFit(cn, levels, i);
    if levels == 0 {
      StretchOfOne(d, i);
    } else {
      var p := Pow2(levels - 1);
      BlocksFit(cn / 2, levels - 1, i);
      PrefixIsSpans(Apply(d, Prefix(cn), Forth, s), cn / 2, levels - 1, s, i);
      StretchOfLevel(d, cn, i, p, s);
      OverPower(Stretch(d, i, 2 * p), s, levels - 1);
    }
  }

  /** r holds at place q the difference of halves i of d, p samples each, divided by s^l. */
  ghost predicate Difference(r: seq<real>, d: seq<real>, q: nat, i: nat, p: nat, l: nat, s: Nonzero) {
    && q < |r| && 2 * i * p + p <= |d| && (2 * i + 1) * p + p <= |d|
    && r[q] == (Stretch(d, 2 * i, p) - Stretch(d, 2 * i + 1, p)) / Power(s, l)
  }

  lemma DifferenceStep(r: seq<real>, d: seq<real>, cn: nat, q: nat, i: nat, p: nat, l: nat, s: Nonzero)
    requires cn <= |d| && (2 * i * p + p <= cn / 2) && ((2 * i + 1) * p + p <= cn / 2)
    requires Difference(r, Apply(d, Prefix(cn), Forth, s), q, i, p, l, s)
    ensures Difference(r, d, q, i, 2 * p, l + 1, s)
  {
    hide Apply, Stretch, Power;
    StretchOfLevel(d, cn, 2 * i, p, s);
    StretchOfLevel(d, cn, 2 * i + 1, p, s);
    var a, b := Stretch(d, 2 * i, 2 * p), Stretch(d, 2 * i + 1, 2 * p);
    AddOver(a, b, s);
    OverPower(a - b, s, l);
  }

  /** A detail of octave l is the difference of the two halves of its stretch of 2^l samples, divided by s^l. */
  lemma {:induction false} OctaveIsDifferences(d: seq<real>, cn: nat, levels: nat, l: nat, s: Nonzero, i: nat)
    requires cn <= |d| && 1 <= l <= levels && i < Shr(cn, l)
    ensures Difference(Forward1D(d, cn, levels, s), d, Shr(cn, l) + i, i, Pow2(l - 1), l, s)
    decreases levels
  {
    hide Apply, Difference, Shr, Pow2;
    var e := Apply(d, Prefix(cn), Forth, s);
    ShrStep(cn, l); Pow2Step(l - 1);
    if l == 1 {
      LinePair(d, cn, i, s);
      FirstOctave(e, d, cn, i, s);
      DifferenceStays(e, d, cn / 2, levels - 1, i, s);
    } else {
      QuartersFit(cn / 2, l - 1, i);
      OctaveIsDifferences(e, cn / 2, levels - 1, l - 1, s, i);
      DifferenceStep(Forward1D(d, cn, levels, s), d, cn, Shr(cn, l) + i, i, Pow2(l - 2), l - 1, s);
    }
  }

  lemma FirstOctave(e: seq<real>, d: seq<real>, cn: nat, i: nat, s: Nonzero)
    requires cn <= |d| == |e| && i < cn / 2 && e[cn / 2 + i] == (d[2 * i] - d[2 * i + 1]) / s
    ensures Difference(e, d, cn / 2 + i, i, 1, 1, s)
  {
    StretchOfOne(d, 2 * i); StretchOfOne(d, 2 * i + 1);
    assert Power(s, 0) == 1.0;
  }

  lemma DifferenceStays(e: seq<real>, d: seq<real>, cn: nat, levels: nat, i: nat, s: Nonzero)
    requires cn <= |e| && Difference(e, d, cn + i, i, 1, 1, s)
    ensures Difference(Forward1D(e, cn, levels, s), d, cn + i, i, 1, 1, s)
  {
    Forward1DStays(e, cn, levels, s, cn + i);
  }

  /** An unpaired last place an octave finds holds zero at the end. */
  lemma {:induction false} OctaveRestIsZero(d: seq<real>, cn: nat, levels: nat, l: nat, s: Nonzero, i: nat)
    requires cn <= |d| && 1 <= l <= levels && 2 * Shr(cn, l) <= i < Shr(cn, l - 1)
    ensures i < cn && Forward1D(d, cn, levels, s)[i] == 0.0
    decreases levels
  {
    hide Apply;
    BlocksFit(cn, l - 1, i);
    if l == 1 {
      LineRest(d, cn, i, s);
      Forward1DStays(Apply(d, Prefix(cn), Forth, s), cn / 2, levels - 1, s, i);
    } else {
      OctaveRestIsZero(Apply(d, Prefix(cn), Forth, s), cn / 2, levels - 1, l - 1, s, i);
    }
  }

  lemma LineBackPair(d: seq<real>, cn: nat, j: nat, s: Nonzero)
    requires cn <= |d| && j < cn / 2
    ensures var r := Apply(d, Prefix(cn), Back, s);
      r[2 * j] == (d[j] + d[cn / 2 + j]) / s && r[2 * j + 1] == (d[j] - d[cn / 2 + j]) / s
  {
    hide Apply, Synthesize;
    var l := Prefix(cn);
    ApplyLaw(d, l, Back, s);
    SynthesizeAt(Gather(d, l), j, s);
    assert At(l, 2 * j) == 2 * j && At(l, 2 * j + 1) == 2 * j + 1;
  }

  lemma LineBackAt(d: seq<real>, cn: nat, i: nat, s: Nonzero)
    requires cn <= |d| && i < 2 * (cn / 2)
    ensures Apply(d, Prefix(cn), Back, s)[i] == (d[i / 2] + Signed(i % 2 == 1, d[cn / 2 + i / 2])) / s
  {
    hide Apply;
    LineBackPair(d, cn, i / 2, s);
  }

  lemma LineBackRest(d: seq<real>, cn: nat, i: nat, s: Nonzero)
    requires 2 * (cn / 2) <= i < cn <= |d|
    ensures Apply(d, Prefix(cn), Back, s)[i] == 0.0
  {
    hide Apply, Synthesize;
    var l := Prefix(cn);
    ApplyLaw(d, l, Back, s);
    AnalyzeLast(Gather(d, l), s);
    assert At(l, i) == i;
  }

  lemma LineBackOff(d: seq<real>, cn: nat, i: nat, s: Nonzero)
    requires cn <= i < |d|
    ensures Apply(d, Prefix(cn), Back, s)[i] == d[i]
  {
    hide Apply;
    ApplyLaw(d, Prefix(cn), Back, s);
  }

  lemma {:induction false} Inverse1DStays(d: seq<real>, cn: nat, levels: nat, s: Nonzero, i: nat)
    requires cn <= i < |d|
    ensures Inverse1D(d, cn, levels, s)[i] == d[i]
    decreases levels
  {
    hide Apply;
    if levels == 0 {
    } else {
      Inverse1DStays(d, cn / 2, levels - 1, s, i);
      LineBackOff(Inverse1D(d, cn / 2, levels - 1, s), cn, i, s);
    }
  }

  /** Sample i from the coefficients above it: one of the remaining prefix, and one of each octave. */
  function Rebuilt1D(d: seq<real>, cn: nat, levels: nat, s: Nonzero, i: nat): real
    requires i < cn <= |d|
    decreases levels
  {
    if levels == 0 then d[i]
    else if 2 * (cn / 2) <= i then 0.0
    else (Rebuilt1D(d, cn / 2, levels - 1, s, i / 2) + Signed(i % 2 == 1, d[cn / 2 + i / 2])) / s
  }

  /** The inverse of any line, place by place. */
  lemma {:induction false} InverseIsRebuilt1D(d: seq<real>, cn: nat, levels: nat, s: Nonzero, i: nat)
    requires i < cn <= |d|
    ensures Inverse1D(d, cn, levels, s)[i] == Rebuilt1D(d, cn, levels, s, i)
    decreases levels
  {
    hide Apply, Signed;
    if levels == 0 {
    } else {
      var e := Inverse1D(d, cn / 2, levels - 1, s);
      if 2 * (cn / 2) <= i {
        LineBackRest(e, cn, i, s);
      } else {
        LineBackAt(e, cn, i, s);
        InverseIsRebuilt1D(d, cn / 2, levels - 1, s, i / 2);
        Inverse1DStays(d, cn / 2, levels - 1, s, cn / 2 + i / 2);
      }
    }
  }
}
