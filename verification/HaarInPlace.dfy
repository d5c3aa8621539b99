/** The transforms as the source runs them: line by line through a temporary, in one buffer. */
module HaarInPlace {
  import opened U64
  import opened Haar

  method AnalyzeLine(d: array<real>, l: Line, s: Nonzero) returns (tmp: array<real>)
    requires Fits(l, d.Length)
    ensures fresh(tmp) && tmp[..] == Analyze(Gather(d[..], l), s)
  {
    hide Fits, At, Analyze;
    ghost var v := Gather(d[..], l);
    ghost var r := Analyze(v, s);
    var half := l.n / 2;
    tmp := new real[l.n](_ => 0.0);
    for i := 0 to half
      invariant forall j :: 0 <= j < i ==> tmp[j] == r[j]
      invariant forall j :: half <= j < half + i ==> tmp[j] == r[j]
      invariant forall j :: 2 * half <= j < l.n ==> tmp[j] == 0.0
    {
      FitsAt(l, 2 * i, d.Length); FitsAt(l, 2 * i + 1, d.Length);
      var a := d[At(l, 2 * i)];
      var b := d[At(l, 2 * i + 1)];
      AnalyzeAt(v, i, s);
      tmp[i] := (a + b) / s;
      tmp[half + i] := (a - b) / s;
    }
    AnalyzeLast(v, s);
  }

  lemma AnalyzeLast(v: seq<real>, s: Nonzero)
    ensures forall j :: |v| / 2 * 2 <= j < |v| ==> Analyze(v, s)[j] == Synthesize(v, s)[j] == 0.0
  {}

  method SynthesizeLine(d: array<real>, l: Line, s: Nonzero) returns (tmp: array<real>)
    requires Fits(l, d.Length)
    ensures fresh(tmp) && tmp[..] == Synthesize(Gather(d[..], l), s)
  {
    hide Fits, At, Synthesize;
    ghost var v := Gather(d[..], l);
    ghost var r := Synthesize(v, s);
    var half := l.n / 2;
    tmp := new real[l.n](_ => 0.0);
    for i := 0 to half
      invariant forall j :: 0 <= j < 2 * i ==> tmp[j] == r[j]
      invariant forall j :: 2 * half <= j < l.n ==> tmp[j] == 0.0
    {
      FitsAt(l, i, d.Length); FitsAt(l, half + i, d.Length);
      var a := d[At(l, i)];
      var dd := d[At(l, half + i)];
      SynthesizeAt(v, i, s);
      tmp[2 * i] := (a + dd) / s;
      tmp[2 * i + 1] := (a - dd) / s;
    }
    AnalyzeLast(v, s);
  }

  method ForwardLine(d: array<real>, l: Line, s: Nonzero)
    requires Fits(l, d.Length)
    modifies d
    ensures d[..] == Apply(old(d[..]), l, Forth, s)
  {
    hide Fits, Analyze;
    var tmp := AnalyzeLine(d, l, s);
    WriteLine(d, l, tmp);
  }

  method InverseLine(d: array<real>, l: Line, s: Nonzero)
    requires Fits(l, d.Length)
    modifies d
    ensures d[..] == Apply(old(d[..]), l, Back, s)
  {
    hide Fits, Synthesize;
    var tmp := SynthesizeLine(d, l, s);
    WriteLine(d, l, tmp);
  }

  lemma FitsAt(l: Line, i: nat, len: nat)
    requires Fits(l, len) && i < l.n
    ensures At(l, i) < len
  {}

  method WriteLine(d: array<real>, l: Line, tmp: array<real>)
    requires Fits(l, d.Length) && tmp.Length == l.n && tmp != d
    modifies d
    ensures d[..] == Scatter(old(d[..]), l, tmp[..])
  {
    hide Fits, At;
    for i := 0 to l.n
      invariant d[..] == Scatter(old(d[..]), l, tmp[..i])
    {
      FitsAt(l, i, d.Length);
      assert tmp[..i + 1][..i] == tmp[..i];
      d[At(l, i)] := tmp[i];
    }
    assert tmp[..l.n] == tmp[..];
  }

  method LinesInPlace(d: array<real>, lines: seq<Line>, dir: Dir, s: Nonzero)
    requires AllFit(lines, d.Length)
    modifies d
    ensures d[..] == Pass(old(d[..]), lines, dir, s)
  {
    hide Apply, Fits;
    for k := 0 to |lines|
      invariant d[..] == Pass(old(d[..]), lines[..k], dir, s)
    {
      assert lines[..k + 1][..k] == lines[..k];
      match dir {
        case Forth => ForwardLine(d, lines[k], s);
        case Back => InverseLine(d, lines[k], s);
      }
    }
    assert lines[..|lines|] == lines;
  }

  method RowsInPlace(d: array<real>, w: nat, h: nat, cw: nat, ch: nat, dir: Dir, s: Nonzero)
    requires Corner(w, h, cw, ch, d.Length)
    modifies d
    ensures d[..] == RowPass(old(d[..]), w, h, cw, ch, dir, s)
  {
    hide Pass, AllFit, AllApart, Rows;
    RowsFit(w, h, cw, ch, d.Length);
    LinesInPlace(d, Rows(w, cw, ch), dir, s);
  }

  method ColumnsInPlace(d: array<real>, w: nat, h: nat, cw: nat, ch: nat, dir: Dir, s: Nonzero)
    requires Corner(w, h, cw, ch, d.Length)
    modifies d
    ensures d[..] == ColumnPass(old(d[..]), w, h, cw, ch, dir, s)
  {
    hide Pass, AllFit, AllApart, Columns;
    ColumnsFit(w, h, cw, ch, d.Length);
    LinesInPlace(d, Columns(w, cw, ch), dir, s);
  }

  method HaarForward(d: array<real>, w: nat, h: nat, levels: nat, s: Nonzero)
    requires d.Length == w * h
    modifies d
    ensures d[..] == Forward(old(d[..]), w, h, w, h, levels, s)
  {
    hide RowPass, ColumnPass;
    var cw, ch := w, h;
    for done := 0 to levels
      invariant Corner(w, h, cw, ch, d.Length)
      invariant Forward(d[..], w, h, cw, ch, levels - done, s) == Forward(old(d[..]), w, h, w, h, levels, s)
    {
      RowsInPlace(d, w, h, cw, ch, Forth, s);
      ColumnsInPlace(d, w, h, cw, ch, Forth, s);
      cw := cw / 2;
      ch := ch / 2;
    }
  }

  lemma {:induction false} ShrFacts(n: nat, level: nat)
    ensures Shr(n, level) / 2 == Shr(n, level + 1) && Shr(n, level) <= n && Shr(n, 0) == n
  {
    if level > 0 { ShrFacts(n / 2, level - 1); }
    ShrShr(n, level, 1);
    assert Shr(Shr(n, level), 1) == Shr(n, level) / 2;
  }

  method HaarInverse(d: array<real>, w: nat, h: nat, levels: nat, s: Nonzero)
    requires d.Length == w * h
    modifies d
    ensures d[..] == Inverse(old(d[..]), w, h, w, h, levels, s)
  {
    hide RowPass, ColumnPass, Shr;
    ShrFacts(w, levels); ShrFacts(h, levels);
    for level := levels downto 0
      invariant Corner(w, h, Shr(w, level), Shr(h, level), d.Length)
      invariant d[..] == Inverse(old(d[..]), w, h, Shr(w, level), Shr(h, level), levels - level, s)
    {
      ShrFacts(w, level); ShrFacts(h, level);
      var cw, ch := Shr(w, level), Shr(h, level);
      ColumnsInPlace(d, w, h, cw, ch, Back, s);
      RowsInPlace(d, w, h, cw, ch, Back, s);
    }
  }

  // ---- One dimension -------------------------------------------------------------------------------

  function Prefix(n: nat): Line { Line(0, 1, n) }

  function Forward1D(d: seq<real>, cn: nat, levels: nat, s: Nonzero): (r: seq<real>)
    requires cn <= |d|
    ensures |r| == |d|
    decreases levels
  {
    if levels == 0 then d else Forward1D(Apply(d, Prefix(cn), Forth, s), cn / 2, levels - 1, s)
  }

  function Inverse1D(d: seq<real>, cn: nat, levels: nat, s: Nonzero): (r: seq<real>)
    requires cn <= |d|
    ensures |r| == |d|
    decreases levels
  {
    if levels == 0 then d else Apply(Inverse1D(d, cn / 2, levels - 1, s), Prefix(cn), Back, s)
  }

  method HaarForward1D(d: array<real>, levels: nat, s: Nonzero)
    modifies d
    ensures d[..] == Forward1D(old(d[..]), d.Length, levels, s)
  {
    hide Apply;
    var cn: nat := d.Length;
    for done := 0 to levels
      invariant cn <= d.Length
      invariant Forward1D(d[..], cn, levels - done, s) == Forward1D(old(d[..]), d.Length, levels, s)
    {
      ForwardLine(d, Prefix(cn), s);
      cn := cn / 2;
    }
  }

  method HaarInverse1D(d: array<real>, levels: nat, s: Nonzero)
    modifies d
    ensures d[..] == Inverse1D(old(d[..]), d.Length, levels, s)
  {
    hide Apply, Shr;
    ShrFacts(d.Length, levels);
    for level := levels downto 0
      invariant Shr(d.Length, level) <= d.Length
      invariant d[..] == Inverse1D(old(d[..]), Shr(d.Length, level), levels - level, s)
    {
      ShrFacts(d.Length, level);
      InverseLine(d, Prefix(Shr(d.Length, level)), s);
    }
  }
}
