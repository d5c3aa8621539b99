/** Catalog paths (crates/holofs-model/src/path.rs) and their byte order. */
module Paths {
  import opened U64
  import opened Wrappers

  type Path = seq<u8>

  const SLASH: u8 := 47
  const DOT: u8 := 46
  const MAX_SEGMENT: nat := 255

  datatype PathError = Empty | LeadingSlash | TrailingSlash | EmptySegment | DotSegment | DotDotSegment | SegmentTooLong

  /** The segments between slashes; never an empty list. */
  function Split(p: Path): (s: seq<Path>)
    ensures |s| > 0
  {
    if p == [] then [[]]
    else
      var rest := Split(p[1..]);
      if p[0] == SLASH then [[]] + rest else [[p[0]] + rest[0]] + rest[1..]
  }

  function SegmentError(s: Path): Option<PathError> {
    if s == [] then Some(EmptySegment)
    else if s == [DOT] then Some(DotSegment)
    else if s == [DOT, DOT] then Some(DotDotSegment)
    else if |s| > MAX_SEGMENT then Some(SegmentTooLong)
    else None
  }

  /** The error of the first bad segment. */
  function FirstError(segs: seq<Path>): Option<PathError> {
    if segs == [] then None
    else
      var e := SegmentError(segs[0]);
      if e.Some? then e else FirstError(segs[1..])
  }

  function Validate(p: Path): Option<PathError> {
    if p == [] then Some(Empty)
    else if p[0] == SLASH then Some(LeadingSlash)
    else if p[|p| - 1] == SLASH then Some(TrailingSlash)
    else FirstError(Split(p))
  }

  /** Every segment is acceptable. */
  predicate Good(p: Path) {
    FirstError(Split(p)).None?
  }

  lemma {:induction false} SplitEnds(p: Path)
    ensures p != [] && p[0] == SLASH ==> Split(p)[0] == []
    ensures p != [] && p[|p| - 1] == SLASH ==> Split(p)[|Split(p)| - 1] == []
    ensures p == [] ==> Split(p) == [[]]
  {
    if |p| <= 1 {
    } else {
      SplitEnds(p[1..]);
    }
  }

  lemma {:induction false} FirstErrorMeans(segs: seq<Path>)
    ensures FirstError(segs).None? <==> forall i :: 0 <= i < |segs| ==> SegmentError(segs[i]).None?
  {
    if segs == [] {
    } else {
      FirstErrorMeans(segs[1..]);
      assert (forall i :: 0 <= i < |segs| ==> SegmentError(segs[i]).None?)
        ==> forall i :: 0 <= i < |segs[1..]| ==> SegmentError(segs[1..][i]).None?;
      if SegmentError(segs[0]).None? && FirstError(segs[1..]).None? {
        forall i | 0 <= i < |segs| ensures SegmentError(segs[i]).None? {
          assert i > 0 ==> segs[i] == segs[1..][i - 1];
        }
      }
    }
  }

  /** validate accepts a path exactly when every segment is acceptable: the checks on the whole
      string add nothing but their own error. */
  lemma ValidateMeansGood(p: Path)
    ensures Validate(p).None? <==> Good(p)
    ensures Good(p) <==> forall i :: 0 <= i < |Split(p)| ==> SegmentError(Split(p)[i]).None?
  {
    hide Split, FirstError;
    SplitEnds(p);
    FirstErrorMeans(Split(p));
    var last := |Split(p)| - 1;
    assert SegmentError([]).Some?;
    if Good(p) {
      assert SegmentError(Split(p)[0]).None? && SegmentError(Split(p)[last]).None?;
    }
  }

  lemma {:induction false} SplitJoin(a: Path, b: Path)
    ensures Split(a + [SLASH] + b) == Split(a) + Split(b)
  {
    var p := a + [SLASH] + b;
    if a == [] {
      assert p == [SLASH] + b && p[1..] == b;
      assert Split([]) == [[]];
    } else {
      assert p[1..] == a[1..] + [SLASH] + b && p[0] == a[0];
      SplitJoin(a[1..], b);
    }
  }

  lemma {:induction false} FirstErrorConcat(a: seq<Path>, b: seq<Path>)
    ensures FirstError(a + b).None? <==> FirstError(a).None? && FirstError(b).None?
  {
    if a == [] {
      assert a + b == b;
    } else {
      FirstErrorConcat(a[1..], b);
      assert (a + b)[1..] == a[1..] + b;
    }
  }

  lemma GoodJoin(a: Path, b: Path)
    ensures Good(a + [SLASH] + b) <==> Good(a) && Good(b)
  {
    hide Split, FirstError;
    SplitJoin(a, b);
    FirstErrorConcat(Split(a), Split(b));
  }

  lemma GoodIsNonempty(p: Path)
    requires Good(p)
    ensures p != []
  {
    assert SegmentError([]).Some? && Split([]) == [[]] && FirstError([[]]).Some?;
  }

  // ---- Ancestors ------------------------------------------------------------------------------

  /** k lies below a: it is a followed by a slash and more. */
  predicate Under(k: Path, a: Path) {
    |a| < |k| && k[..|a|] == a && k[|a|] == SLASH
  }

  /** The prefixes of p that end at a slash at or after `start`, shortest first. */
  function AncestorsFrom(p: Path, start: nat): seq<Path>
    requires start <= |p|
    decreases |p| - start
  {
    if start == |p| then []
    else if p[start] == SLASH then [p[..start]] + AncestorsFrom(p, start + 1)
    else AncestorsFrom(p, start + 1)
  }

  /** They are exactly the paths p lies below, each listed once, shortest first. */
  lemma {:induction false} AncestorsAre(p: Path, start: nat)
    requires start <= |p|
    ensures var out := AncestorsFrom(p, start);
      (forall a :: a in out <==> Under(p, a) && start <= |a|)
      && forall i, j :: 0 <= i < j < |out| ==> |out[i]| < |out[j]|
    decreases |p| - start
  {
    if start >= |p| {
    } else {
      AncestorsAre(p, start + 1);
      AncestorsStep(p, start);
      var out, rest := AncestorsFrom(p, start), AncestorsFrom(p, start + 1);
      assert out == if p[start] == SLASH then [p[..start]] + rest else rest;
      hide Under, AncestorsFrom;
      forall i | 0 <= i < |rest| ensures start < |rest[i]| { assert rest[i] in rest; }
      ShortestFirst(p[..start], rest);
      assert forall a :: a in [p[..start]] + rest <==> a == p[..start] || a in rest;
    }
  }

  lemma ShortestFirst(a: Path, rest: seq<Path>)
    requires forall i :: 0 <= i < |rest| ==> |a| < |rest[i]|
    requires forall i, j :: 0 <= i < j < |rest| ==> |rest[i]| < |rest[j]|
    ensures forall i, j :: 0 <= i < j < |[a] + rest| ==> |([a] + rest)[i]| < |([a] + rest)[j]|
  {}

  lemma AncestorsStep(p: Path, start: nat)
    requires start < |p|
    ensures forall a :: Under(p, a) && start <= |a| <==> (a == p[..start] && p[start] == SLASH) || (Under(p, a) && start + 1 <= |a|)
  {}

  /** ancestors: root first, the path itself excluded. */
  method Ancestors(p: Path) returns (out: seq<Path>)
    ensures out == AncestorsFrom(p, 0)
  {
    out := [];
    var start := 0;
    var found := Find(p, start);
    while found < |p|
      invariant start <= found <= |p| && out + AncestorsFrom(p, start) == AncestorsFrom(p, 0)
      invariant NoSlash(p, start, found)
      invariant found < |p| ==> p[found] == SLASH
      decreases |p| - start
    {
      AncestorsSkip(p, start, found);
      hide *;
      Regroup(out, p[..found], AncestorsFrom(p, found + 1));
      out := out + [p[..found]];
      start := found + 1;
      found := Find(p, start);
    }
    AncestorsSkip(p, start, found);
    AncestorsNone(p);
  }

  lemma Regroup(a: seq<Path>, x: Path, b: seq<Path>)
    ensures a + ([x] + b) == a + [x] + b
  {}

  ghost predicate NoSlash(p: Path, start: nat, found: nat)
    requires start <= found <= |p|
  {
    forall i :: start <= i < found ==> p[i] != SLASH
  }

  lemma AncestorsNone(p: Path)
    ensures AncestorsFrom(p, |p|) == []
  {}

  lemma {:induction false} AncestorsSkip(p: Path, start: nat, found: nat)
    requires start <= found <= |p| && NoSlash(p, start, found)
    ensures AncestorsFrom(p, start) == AncestorsFrom(p, found)
    ensures found < |p| && p[found] == SLASH ==> AncestorsFrom(p, start) == [p[..found]] + AncestorsFrom(p, found + 1)
    decreases found - start
  {
    if start >= found {
    } else {
      AncestorsSkip(p, start + 1, found);
    }
  }

  /** The next slash at or after start, or the length. */
  method Find(p: Path, start: nat) returns (i: nat)
    requires start <= |p|
    ensures start <= i <= |p| && NoSlash(p, start, i) && (i < |p| ==> p[i] == SLASH)
  {
    i := start;
    while i < |p| && p[i] != SLASH
      invariant start <= i <= |p| && NoSlash(p, start, i)
    {
      i := i + 1;
    }
  }

  /** Everything up to the last slash. */
  function Parent(p: Path): (r: Option<Path>)
    ensures r.None? <==> SLASH !in p
    ensures r.Some? ==> Under(p, r.value) && SLASH !in p[|r.value| + 1..]
  {
    if p == [] then None
    else if p[|p| - 1] == SLASH then Some(p[..|p| - 1])
    else
      var r := Parent(p[..|p| - 1]);
      assert p == p[..|p| - 1] + [p[|p| - 1]];
      r
  }

  lemma SlashBetween(p: Path, a: Path, q: Path)
    requires Under(p, a) && Under(p, q) && |q| < |a|
    ensures SLASH in p[|q| + 1..]
  {
    assert p[|q| + 1..][|a| - |q| - 1] == SLASH;
  }

  lemma UnderHasSlash(p: Path, a: Path)
    requires Under(p, a)
    ensures SLASH in p
  {
    assert p[|a|] == SLASH;
  }

  /** The other ancestors of a path are those of its parent. */
  lemma ParentIsNearest(p: Path, a: Path)
    requires Parent(p).Some?
    ensures Under(p, a) <==> a == Parent(p).value || Under(Parent(p).value, a)
  {
    hide Parent;
    var q := Parent(p).value;
    if Under(p, a) && |q| < |a| {
      SlashBetween(p, a, q);
    }
    if Under(p, a) && |a| < |q| {
      assert q == p[..|q|] && q[|a|] == p[|a|];
    }
  }

  lemma NoParentNoAncestor(p: Path, a: Path)
    requires Parent(p).None?
    ensures !Under(p, a)
  {
    hide Parent;
    if Under(p, a) { UnderHasSlash(p, a); }
  }

  lemma UnderGood(k: Path, a: Path)
    requires Under(k, a)
    ensures k == a + [SLASH] + k[|a| + 1..]
    ensures Good(k) <==> Good(a) && Good(k[|a| + 1..])
  {
    hide Good;
    assert k == a + [SLASH] + k[|a| + 1..];
    GoodJoin(a, k[|a| + 1..]);
  }

  lemma UnderTransitive(a: Path, b: Path, c: Path)
    requires Under(a, b) && Under(b, c)
    ensures Under(a, c)
  {}

  /** Two places above the same path are nested. */
  lemma UnderChain(k: Path, a: Path, b: Path)
    requires Under(k, a) && Under(k, b)
    ensures a == b || Under(a, b) || Under(b, a)
  {
    if |a| < |b| {
      assert b == k[..|b|] && b[..|a|] == k[..|a|];
    } else if |b| < |a| {
      assert a == k[..|a|] && a[..|b|] == k[..|b|];
    }
  }

  // ---- Byte order -----------------------------------------------------------------------------

  /** a sorts strictly before b. */
  predicate Before(a: Path, b: Path) {
    if b == [] then false
    else if a == [] then true
    else a[0] < b[0] || (a[0] == b[0] && Before(a[1..], b[1..]))
  }

  lemma {:induction false} BeforeIsTotal(a: Path, b: Path)
    ensures Before(a, b) || a == b || Before(b, a)
    ensures !(Before(a, b) && Before(b, a)) && !Before(a, a)
  {
    if a != [] && b != [] {
      BeforeIsTotal(a[1..], b[1..]);
      assert a == [a[0]] + a[1..] && b == [b[0]] + b[1..];
    }
    if a == [] {
    } else {
      BeforeIsTotal(a[1..], a[1..]);
    }
  }

  lemma {:induction false} BeforeIsTransitive(a: Path, b: Path, c: Path)
    requires Before(a, b) && Before(b, c)
    ensures Before(a, c)
  {
    if a != [] && a[0] == b[0] == c[0] { BeforeIsTransitive(a[1..], b[1..], c[1..]); }
  }

  /** Keys that start with a prefix are contiguous from the prefix on. */
  lemma {:induction false} PrefixContiguous(prefix: Path, x: Path, y: Path)
    requires !Before(x, prefix) && Before(x, y) && prefix <= y
    ensures prefix <= x
  {
    if prefix == [] {
    } else {
      assert y[0] == prefix[0];
      assert prefix[1..] <= y[1..];
      if x != [] && x[0] == y[0] {
        PrefixContiguous(prefix[1..], x[1..], y[1..]);
        assert prefix == [prefix[0]] + prefix[1..] && x == [x[0]] + x[1..];
      }
    }
  }

  lemma {:induction false} PrefixNotAfter(prefix: Path, y: Path)
    requires prefix <= y
    ensures !Before(y, prefix)
  {
    if prefix == [] {
    } else {
      PrefixNotAfter(prefix[1..], y[1..]);
    }
  }
}
