/** The hierarchical catalog: the operations of crates/holofs-gateway/src/http_gateway.rs over the
    Directory map of crates/holofs-model/src/fs.rs, each as one atomic step. */
module Catalog {
  import opened U64
  import opened Wrappers
  import opened Fips180
  import opened Paths
  import opened ObjectManifest
  import opened CatalogTree

  datatype CatalogError = NotFound | BadRequest | IsDirectory | AlreadyExists | NotADirectory | DirectoryNotEmpty

  datatype Move = Move(src: Path, dst: Path, manifest: Manifest)

  /** "holofs-dir-v1\0" */
  const DIR_TAG: seq<u8> := [104, 111, 108, 111, 102, 115, 45, 100, 105, 114, 45, 118, 49, 0]

  /** The first eight bytes of the tagged hash of the path. */
  function DirectoryObjectId(p: Path): u64 {
    var first := Digest(DIR_TAG + p)[..8];
    NumberFits(first);
    assert Pow256(8) == W by { assert Pow256(4) == M32; }
    NumberOf(first)
  }

  function NewDirectory(p: Path): Manifest { DirectoryManifest(DirectoryObjectId(p)) }

  // ---- Sorted keys ------------------------------------------------------------------------------

  ghost predicate Ascending(keys: seq<Path>) {
    forall i, j :: 0 <= i < j < |keys| ==> Before(keys[i], keys[j])
  }

  /** Insert into an ascending list unless already there. */
  method InsertSorted(keys: seq<Path>, x: Path) returns (r: seq<Path>)
    requires Ascending(keys)
    ensures Ascending(r) && forall k :: k in r <==> k in keys || k == x
  {
    hide Before;
    var i := 0;
    while i < |keys| && Before(keys[i], x)
      invariant 0 <= i <= |keys| && forall j :: 0 <= j < i ==> Before(keys[j], x)
    {
      i := i + 1;
    }
    if i < |keys| && keys[i] == x {
      return keys;
    }
    r := keys[..i] + [x] + keys[i..];
    InsertedAscending(keys, x, i);
  }

  lemma InsertedAscending(keys: seq<Path>, x: Path, i: nat)
    requires Ascending(keys) && i <= |keys| && (forall j :: 0 <= j < i ==> Before(keys[j], x))
    requires i < |keys| ==> !Before(keys[i], x) && keys[i] != x
    ensures Ascending(keys[..i] + [x] + keys[i..])
    ensures forall k :: k in keys[..i] + [x] + keys[i..] <==> k in keys || k == x
  {
    hide Before;
    var r := keys[..i] + [x] + keys[i..];
    forall j | i <= j < |keys| ensures Before(x, keys[j]) {
      BeforeIsTotal(x, keys[i]);
      if i < j { BeforeIsTransitive(x, keys[i], keys[j]); }
    }
    assert keys == keys[..i] + keys[i..];
  }

  // ---- Error conditions -----------------------------------------------------------------------------

  /** The parent must be the root or a directory entry. */
  function ParentError(m: Entries, p: Path): Option<CatalogError> {
    var q := Parent(p);
    if q.None? || IsDir(m, q.value) then None
    else if q.value in m then Some(NotADirectory)
    else Some(BadRequest)
  }

  function MkdirError(m: Entries, p: Path): Option<CatalogError> {
    if Validate(p).Some? then Some(BadRequest)
    else if p in m then Some(AlreadyExists)
    else ParentError(m, p)
  }

  ghost function RmdirError(m: Entries, p: Path): Option<CatalogError> {
    if Validate(p).Some? then Some(BadRequest)
    else if p !in m then Some(NotFound)
    else if !m[p].kind.Directory? then Some(NotADirectory)
    else if HasDescendant(m, p) then Some(DirectoryNotEmpty)
    else None
  }

  function RemoveError(m: Entries, p: Path): Option<CatalogError> {
    if Validate(p).Some? then Some(BadRequest)
    else if p !in m then Some(NotFound)
    else if m[p].kind.Directory? then Some(IsDirectory)
    else None
  }

  function IngestError(m: Entries, p: Path, emptyBody: bool, put: Option<Manifest>): Option<CatalogError> {
    if emptyBody || Validate(p).Some? then Some(BadRequest)
    else if IsDir(m, p) then Some(AlreadyExists)
    else if ParentError(m, p).Some? then ParentError(m, p)
    else if put.None? then Some(BadRequest)
    else None
  }

  function RenameError(m: Entries, src: Path, dst: Path): Option<CatalogError> {
    if Validate(src).Some? || Validate(dst).Some? then Some(BadRequest)
    else if src == dst then None
    else if Under(dst, src) then Some(BadRequest)
    else if src !in m then Some(NotFound)
    else if dst in m then Some(AlreadyExists)
    else ParentError(m, dst)
  }

  /** The keys a rename moves: the entry, and what lies below it if it is a directory. */
  ghost function MoveSet(m: Entries, src: Path, below: bool): set<Path> {
    set k | k in m && Side(k, src) && (below || k == src)
  }

  /** A target inside the moved directory is taken. */
  ghost predicate Collides(m: Entries, src: Path, dst: Path)
    requires src in m
  {
    m[src].kind.Directory? && exists k :: k in m && Under(k, src) && Moved(k, src, dst) in m
  }

  ghost function RenameOutcome(m: Entries, src: Path, dst: Path): Option<CatalogError> {
    if RenameError(m, src, dst).Some? then RenameError(m, src, dst)
    else if src != dst && Collides(m, src, dst) then Some(AlreadyExists)
    else None
  }

  /** f is m with exactly the entries of S carried from src to dst. */
  ghost predicate Carried(m: Entries, f: Entries, src: Path, dst: Path, S: set<Path>) {
    && (forall p :: p in f <==> (p in m && p !in S) || p in MovedKeys(S, src, dst))
    && (forall k :: k in S ==> k in m && Moved(k, src, dst) in f && f[Moved(k, src, dst)] == m[k])
    && (forall p :: p in m && p !in S ==> p in f && f[p] == m[p])
  }

  ghost predicate CarriedBy(m: Entries, f: Entries, src: Path, dst: Path, count: nat) {
    && src in m && Carried(m, f, src, dst, MoveSet(m, src, m[src].kind.Directory?))
    && count == |MoveSet(m, src, m[src].kind.Directory?)|
  }

  /** A valid path whose parent is in order is well placed. */
  lemma PlacedWhenParentOk(m: Entries, p: Path)
    requires IsTree(m) && Validate(p).None? && ParentError(m, p).None?
    ensures WellPlaced(m, p)
  {
    hide Validate, Good, Parent, Under;
    ValidateMeansGood(p);
    ParentSuffices(m, p);
  }

  /** Nothing lives at or below a path that is not an entry. */
  lemma AbsentIsFree(m: Entries, p: Path)
    requires IsTree(m) && p !in m
    ensures Free(m, p)
  {
    hide Under, Good;
    forall k | k in m ensures !Side(k, p) {
      assert WellPlaced(m, k);
    }
  }

  // ---- When an operation succeeds in a tree ----------------------------------------------------------

  lemma PlacedIffParentOk(m: Entries, p: Path)
    requires IsTree(m)
    ensures WellPlaced(m, p) <==> Validate(p).None? && ParentError(m, p).None?
  {
    hide Validate, Good, Parent, Under;
    ValidateMeansGood(p);
    if WellPlaced(m, p) && Parent(p).Some? { ParentIsNearest(p, Parent(p).value); }
    if Validate(p).None? && ParentError(m, p).None? { PlacedWhenParentOk(m, p); }
  }

  lemma EntryIsPlaced(m: Entries, p: Path)
    requires IsTree(m) && p in m
    ensures WellPlaced(m, p) && Validate(p).None?
  {
    hide Validate, Good;
    ValidateMeansGood(p);
  }

  /** mkdir: a free place below directories. */
  lemma MkdirSucceeds(m: Entries, p: Path)
    requires IsTree(m)
    ensures MkdirError(m, p).None? <==> WellPlaced(m, p) && p !in m
  {
    hide Validate, WellPlaced, IsTree, ParentError;
    PlacedIffParentOk(m, p);
  }

  /** rmdir: a directory with nothing below it. */
  lemma RmdirSucceeds(m: Entries, p: Path)
    requires IsTree(m)
    ensures RmdirError(m, p).None? <==> IsDir(m, p) && !HasDescendant(m, p)
  {
    hide Validate, WellPlaced, IsTree, HasDescendant;
    if p in m { EntryIsPlaced(m, p); }
  }

  /** remove: an entry that holds data. */
  lemma RemoveSucceeds(m: Entries, p: Path)
    requires IsTree(m)
    ensures RemoveError(m, p).None? <==> p in m && !IsDir(m, p)
  {
    hide Validate, WellPlaced, IsTree;
    if p in m { EntryIsPlaced(m, p); }
  }

  /** put: a stored body at a place below directories that is not a directory itself. */
  lemma IngestSucceeds(m: Entries, p: Path, emptyBody: bool, put: Option<Manifest>)
    requires IsTree(m)
    ensures IngestError(m, p, emptyBody, put).None? <==> !emptyBody && put.Some? && WellPlaced(m, p) && !IsDir(m, p)
  {
    hide Validate, WellPlaced, IsTree, ParentError;
    PlacedIffParentOk(m, p);
  }

  /** rename: an entry, and a free place below directories that is not inside the entry itself. */
  lemma RenameSucceeds(m: Entries, src: Path, dst: Path)
    requires IsTree(m) && src != dst
    ensures RenameOutcome(m, src, dst).None? <==> src in m && WellPlaced(m, dst) && dst !in m && !Under(dst, src)
  {
    hide Validate, WellPlaced, IsTree, ParentError, Under, Collides;
    PlacedIffParentOk(m, dst);
    if src in m { EntryIsPlaced(m, src); }
    if src in m && dst !in m && Collides(m, src, dst) { TreeHasNoCollision(m, src, dst); }
  }

  // ---- The directory -------------------------------------------------------------------------------

  class Directory {
    var entries: Entries

    constructor ()
      ensures entries == map[] && IsTree(entries)
    {
      entries := map[];
    }

    /** Keys from `from` on, in byte order (BTreeMap::range). */
    method Range(from: Path) returns (keys: seq<Path>)
      ensures Ascending(keys) && forall k :: k in keys <==> k in entries && !Before(k, from)
    {
      hide Before;
      keys := [];
      var pending := entries.Keys;
      while pending != {}
        invariant pending <= entries.Keys && Ascending(keys)
        invariant forall k :: k in keys <==> k in entries && k !in pending && !Before(k, from)
        decreases |pending|
      {
        var k :| k in pending;
        pending := pending - {k};
        if !Before(k, from) {
          keys := InsertSorted(keys, k);
        }
      }
    }

    method Mkdir(p: Path) returns (e: Option<CatalogError>)
      modifies this
      ensures e == MkdirError(old(entries), p)
      ensures entries == if e.None? then old(entries)[p := NewDirectory(p)] else old(entries)
      ensures IsTree(old(entries)) ==> IsTree(entries)
    {
      hide Validate, Parent, NewDirectory, IsTree, WellPlaced;
      if Validate(p).Some? { return Some(BadRequest); }
      if p in entries { return Some(AlreadyExists); }
      e := ParentError(entries, p);
      if e.Some? { return; }
      if IsTree(entries) {
        PlacedWhenParentOk(entries, p);
        InsertKeepsTree(entries, p, NewDirectory(p));
      }
      entries := entries[p := NewDirectory(p)];
    }

    /** Refused when the first key from "p/" on lies below p. */
    method Rmdir(p: Path) returns (e: Option<CatalogError>)
      modifies this
      ensures e == RmdirError(old(entries), p)
      ensures entries == if e.None? then old(entries) - {p} else old(entries)
      ensures IsTree(old(entries)) ==> IsTree(entries)
    {
      hide Validate, IsTree, WellPlaced, HasDescendant;
      if Validate(p).Some? { return Some(BadRequest); }
      if p !in entries { return Some(NotFound); }
      if !entries[p].kind.Directory? { return Some(NotADirectory); }
      var prefix := p + [SLASH];
      var keys := Range(prefix);
      FirstDecides(entries, p, keys);
      if keys != [] && prefix <= keys[0] {
        return Some(DirectoryNotEmpty);
      }
      if IsTree(entries) { RemoveKeepsTree(entries, p); }
      entries := entries - {p};
      e := None;
    }

    method Remove(p: Path) returns (e: Option<CatalogError>)
      modifies this
      ensures e == RemoveError(old(entries), p)
      ensures entries == if e.None? then old(entries) - {p} else old(entries)
      ensures IsTree(old(entries)) ==> IsTree(entries)
    {
      hide Validate, IsTree, WellPlaced, HasDescendant;
      if Validate(p).Some? { return Some(BadRequest); }
      if p in entries && entries[p].kind.Directory? { return Some(IsDirectory); }
      if p !in entries { return Some(NotFound); }
      if IsTree(entries) {
        if HasDescendant(entries, p) { OnlyDirectoriesHaveDescendants(entries, p); }
        RemoveKeepsTree(entries, p);
      }
      entries := entries - {p};
      e := None;
    }

    /** The catalog part of ingest_bytes; put is what storing the body yielded. */
    method Ingest(p: Path, emptyBody: bool, put: Option<Manifest>) returns (e: Option<CatalogError>)
      modifies this
      ensures e == IngestError(old(entries), p, emptyBody, put)
      ensures entries == if e.None? then old(entries)[p := put.value] else old(entries)
      ensures IsTree(old(entries)) ==> IsTree(entries)
    {
      hide Validate, Parent, IsTree, WellPlaced;
      if emptyBody { return Some(BadRequest); }
      if Validate(p).Some? { return Some(BadRequest); }
      if p in entries && entries[p].kind.Directory? { return Some(AlreadyExists); }
      e := ParentError(entries, p);
      if e.Some? { return; }
      if put.None? { return Some(BadRequest); }
      if IsTree(entries) {
        PlacedWhenParentOk(entries, p);
        InsertKeepsTree(entries, p, put.value);
      }
      entries := entries[p := put.value];
    }

    /** The list of moves: the entry itself, then the keys from "src/" on up to the first that does
        not start with it. None when a target is taken. */
    method CollectMoves(src: Path, dst: Path) returns (r: Option<seq<Move>>)
      requires src in entries && dst !in entries
      ensures r.None? <==> Collides(entries, src, dst)
      ensures r.Some? ==> Moves(entries, src, dst, r.value, entries[src].kind.Directory?) && NoneTaken(entries, r.value)
    {
      hide Before, Moved, Under;
      var moved := [Move(src, dst, entries[src])];
      MovesStart(entries, src, dst);
      if !entries[src].kind.Directory? {
        return Some(moved);
      }
      var prefix := src + [SLASH];
      var keys := Range(prefix);
      var i := 0;
      while i < |keys|
        invariant 0 <= i <= |keys|
        invariant forall j :: 0 <= j < i ==> Under(keys[j], src)
        invariant |moved| == i + 1 && moved[0] == Move(src, dst, entries[src]) && NoneTaken(entries, moved)
        invariant forall j :: 0 <= j < i ==> moved[j + 1] == Move(keys[j], Moved(keys[j], src, dst), entries[keys[j]])
      {
        var k := keys[i];
        PrefixMeansUnder(k, src);
        if !(prefix <= k) {
          break;
        }
        var suffix := k[|prefix|..];
        var target := dst + [SLASH] + suffix;
        TargetIsMoved(k, src, dst);
        assert k in keys;
        if target in entries {
          return None;
        }
        moved := moved + [Move(k, target, entries[k])];
        i := i + 1;
      }
      ScanIsComplete(entries, src, keys, i);
      ScanMoves(entries, src, dst, keys, i, moved);
      NoneCollides(entries, src, dst, moved);
      r := Some(moved);
    }

    /** rename: the entry moves with what is below it, or nothing changes. In a tree no target inside
        is ever taken, and the result is again a tree. */
    method Rename(src: Path, dst: Path) returns (e: Option<CatalogError>, count: nat)
      modifies this
      ensures e == RenameOutcome(old(entries), src, dst)
      ensures e.Some? || src == dst ==> entries == old(entries) && count == 0
      ensures e.None? && src != dst ==> CarriedBy(old(entries), entries, src, dst, count)
      ensures IsTree(old(entries)) ==> TreeRenamed(old(entries), entries, src, dst, e, count)
    {
      hide Validate, Parent, IsTree, Moved, Side, Under, Moves, IsDir, Carried, Collides, TreeRenamed, MoveSet;
      count := 0;
      StayedTree(entries, src, dst);
      if Validate(src).Some? { return Some(BadRequest), 0; }
      if Validate(dst).Some? { return Some(BadRequest), 0; }
      if src == dst { return None, 0; }
      PrefixMeansUnder(dst, src);
      if dst == src || src + [SLASH] <= dst { return Some(BadRequest), 0; }
      if src !in entries { return Some(NotFound), 0; }
      if dst in entries { return Some(AlreadyExists), 0; }
      e := ParentError(entries, dst);
      if e.Some? { return; }
      ghost var m := entries;
      var moved := CollectMoves(src, dst);
      if moved.None? {
        TreeHasNoCollision(m, src, dst);
        return Some(AlreadyExists), 0;
      }
      count := |moved.value|;
      ApplyMoves(moved.value);
      MovesCarry(m, src, dst, moved.value, m[src].kind.Directory?);
      CarriedInTree(m, entries, src, dst, count);
    }

    /** list_dir: the immediate children of a directory, or of the root for the empty prefix. */
    method ListDir(prefix: Path) returns (e: Option<CatalogError>, out: seq<Path>)
      ensures e == ListError(entries, prefix)
      ensures e.None? ==> Ascending(out) && forall k :: k in out <==> k in entries && IsChild(k, prefix)
      ensures e.Some? ==> out == []
    {
      hide Validate, Before, IsChild, Under;
      out := [];
      if prefix != [] {
        if Validate(prefix).Some? { return Some(BadRequest), []; }
        if prefix !in entries { return Some(NotFound), []; }
        if !entries[prefix].kind.Directory? { return Some(NotADirectory), []; }
      }
      var start := if prefix == [] then [] else prefix + [SLASH];
      var keys := Range(start);
      var i := 0;
      while i < |keys|
        invariant 0 <= i <= |keys|
        invariant forall j :: 0 <= j < i ==> start <= keys[j]
        invariant forall k :: k in out <==> k in keys[..i] && IsChild(k, prefix)
        invariant Ascending(out)
      {
        var k := keys[i];
        if prefix != [] && !(start <= k) {
          break;
        }
        assert keys[..i + 1] == keys[..i] + [k];
        ChildTest(k, prefix);
        var remainder := k[|start|..];
        if k != prefix && remainder != [] && SLASH !in remainder {
          AscendingSnoc(keys, out, i);
          out := out + [k];
        }
        i := i + 1;
      }
      ListedAll(entries, prefix, keys, i);
      e := None;
    }

    /** synthesize_missing_directories */
    method SynthesizeMissingDirectories() returns (n: nat)
      modifies this
      ensures entries == Synthesized(old(entries)) && n == |Missing(old(entries))|
    {
      hide Missing, NewDirectory;
      var wanted := Wanted();
      hide Ascending;
      var sorted := SortDedup(wanted);
      n := |sorted|;
      AscendingCount(sorted, Missing(entries));
      hide WithDirectories;
      WithNone(entries);
      for i := 0 to |sorted|
        invariant entries == WithDirectories(old(entries), PathSet(sorted[..i]))
      {
        assert sorted[..i + 1] == sorted[..i] + [sorted[i]];
        WithOneMore(old(entries), sorted[..i], sorted[i]);
        entries := entries[sorted[i] := NewDirectory(sorted[i])];
      }
      assert sorted[..|sorted|] == sorted;
      assert PathSet(sorted) == Missing(old(entries));
    }

    /** The missing ancestors of the data entries, as they are met. */
    method Wanted() returns (wanted: seq<Path>)
      ensures forall a :: a in wanted <==> a in Missing(entries)
    {
      hide Before, Missing, Under;
      wanted := [];
      var keys := Range([]);
      NothingBeforeEmpty();
      for i := 0 to |keys|
        invariant forall a :: a in wanted <==> MissingFrom(entries, keys[..i], a)
      {
        assert keys[..i + 1] == keys[..i] + [keys[i]] && keys[i] in keys;
        MissingSnoc(entries, keys[..i], keys[i]);
        if entries[keys[i]].kind.Directory? {
          continue;
        }
        var ancestors := Ancestors(keys[i]);
        AncestorsAre(keys[i], 0);
        for j := 0 to |ancestors|
          invariant forall a :: a in wanted <==> MissingFrom(entries, keys[..i], a) || (a in ancestors[..j] && a !in entries)
        {
          assert ancestors[..j + 1] == ancestors[..j] + [ancestors[j]];
          if ancestors[j] !in entries {
            wanted := wanted + [ancestors[j]];
          }
        }
        assert ancestors[..|ancestors|] == ancestors;
      }
      assert keys[..|keys|] == keys;
      MissingAll(entries, keys);
    }

    method ApplyMoves(moved: seq<Move>)
      modifies this
      ensures entries == AfterMoves(old(entries), moved)
    {
      for i := 0 to |moved|
        invariant entries == AfterMoves(old(entries), moved[..i])
      {
        assert moved[..i + 1][..i] == moved[..i];
        entries := entries - {moved[i].src};
        entries := entries[moved[i].dst := moved[i].manifest];
      }
      assert moved[..|moved|] == moved;
    }
  }

  // ---- Listing ----------------------------------------------------------------------------------------

  function ListError(m: Entries, prefix: Path): Option<CatalogError> {
    if prefix == [] then None
    else if Validate(prefix).Some? then Some(BadRequest)
    else if prefix !in m then Some(NotFound)
    else if !m[prefix].kind.Directory? then Some(NotADirectory)
    else None
  }

  /** k is one segment below the prefix; the empty prefix stands for the root. */
  predicate IsChild(k: Path, prefix: Path) {
    if prefix == [] then k != [] && SLASH !in k
    else Under(k, prefix) && k[|prefix| + 1..] != [] && SLASH !in k[|prefix| + 1..]
  }

  /** The children of a directory are the entries whose parent it is. */
  lemma ChildrenHaveThisParent(k: Path, prefix: Path)
    requires Good(k) && (prefix == [] || Good(prefix))
    ensures IsChild(k, prefix) <==> Parent(k) == if prefix == [] then None else Some(prefix)
  {
    hide Good, Parent;
    GoodIsNonempty(k);
    if prefix != [] && Parent(k).Some? {
      var q := Parent(k).value;
      if q == prefix {
        UnderGood(k, q);
        GoodIsNonempty(k[|q| + 1..]);
      } else if Under(k, prefix) {
        UnderChain(k, q, prefix);
        ParentIsNearest(k, prefix);
        SlashBetween(k, q, prefix);
      }
    }
    if prefix != [] && Under(k, prefix) { UnderHasSlash(k, prefix); }
  }

  lemma ChildTest(k: Path, prefix: Path)
    ensures prefix == [] ==> (IsChild(k, prefix) <==> k != prefix && k[0..] != [] && SLASH !in k[0..])
    ensures prefix != [] && prefix + [SLASH] <= k ==>
      (IsChild(k, prefix) <==> k != prefix && k[|prefix| + 1..] != [] && SLASH !in k[|prefix| + 1..])
  {
    assert k[0..] == k;
    PrefixMeansUnder(k, prefix);
  }

  lemma AscendingSnoc(keys: seq<Path>, out: seq<Path>, i: nat)
    requires Ascending(keys) && i < |keys| && Ascending(out) && forall k :: k in out ==> k in keys[..i]
    ensures Ascending(out + [keys[i]])
  {
    hide Before;
    forall j | 0 <= j < |out| ensures Before(out[j], keys[i]) {
      assert out[j] in keys[..i];
    }
  }

  lemma ListedAll(m: Entries, prefix: Path, keys: seq<Path>, n: nat)
    requires var start := if prefix == [] then [] else prefix + [SLASH];
      Ascending(keys) && n <= |keys| && (forall k :: k in keys <==> k in m && !Before(k, start))
      && (forall j :: 0 <= j < n ==> start <= keys[j]) && (n < |keys| ==> prefix != [] && !(start <= keys[n]))
    ensures forall k :: k in keys[..n] && IsChild(k, prefix) <==> k in m && IsChild(k, prefix)
  {
    hide Before, Under;
    if prefix == [] {
      NothingBeforeEmpty();
      assert keys[..n] == keys;
    } else {
      forall j | 0 <= j < n ensures Under(keys[j], prefix) { PrefixMeansUnder(keys[j], prefix); }
      if n < |keys| { PrefixMeansUnder(keys[n], prefix); }
      ScanIsComplete(m, prefix, keys, n);
      forall k | k in keys[..n] ensures k in m {
        assert k in keys;
      }
    }
  }

  lemma NothingBeforeEmpty()
    ensures forall k :: !Before(k, [])
  {}

  // ---- Missing directories --------------------------------------------------------------------------

  /** a is an ancestor of some data entry among the keys, and not an entry. */
  ghost predicate MissingFrom(m: Entries, keys: seq<Path>, a: Path) {
    a !in m && exists k :: k in keys && AboveData(m, k, a)
  }

  predicate AboveData(m: Entries, k: Path, a: Path) {
    k in m && !m[k].kind.Directory? && Under(k, a)
  }

  ghost function Missing(m: Entries): (s: set<Path>)
  {
    set k, a | k in m && a in AncestorsFrom(k, 0) && AboveData(m, k, a) && a !in m :: a
  }

  lemma MissingMeans(m: Entries, a: Path)
    ensures a in Missing(m) <==> a !in m && exists k :: k in m && AboveData(m, k, a)
  {
    hide Under;
    if a !in m {
      if k :| k in m && AboveData(m, k, a) {
        AncestorsAre(k, 0);
        assert a in AncestorsFrom(k, 0);
      }
    }
  }

  function PathSet(list: seq<Path>): set<Path> {
    set a | a in list
  }

  function WithDirectories(m: Entries, s: set<Path>): Entries {
    m + map a | a in s :: NewDirectory(a)
  }

  lemma WithNone(m: Entries)
    ensures WithDirectories(m, PathSet([])) == m
  {}

  lemma WithOneMore(m: Entries, list: seq<Path>, x: Path)
    ensures WithDirectories(m, PathSet(list + [x])) == WithDirectories(m, PathSet(list))[x := NewDirectory(x)]
  {
    hide NewDirectory;
    assert PathSet(list + [x]) == PathSet(list) + {x};
    var a, b := WithDirectories(m, PathSet(list + [x])), WithDirectories(m, PathSet(list))[x := NewDirectory(x)];
    assert a.Keys == b.Keys;
  }

  ghost function Synthesized(m: Entries): Entries {
    WithDirectories(m, Missing(m))
  }

  lemma MissingSnoc(m: Entries, keys: seq<Path>, k: Path)
    ensures forall a :: MissingFrom(m, keys + [k], a) <==> MissingFrom(m, keys, a) || (a !in m && AboveData(m, k, a))
  {
    hide AboveData;
    forall a ensures MissingFrom(m, keys + [k], a) <==> MissingFrom(m, keys, a) || (a !in m && AboveData(m, k, a)) {
      assert forall j :: j in keys + [k] <==> j in keys || j == k;
    }
  }

  lemma MissingAll(m: Entries, keys: seq<Path>)
    requires forall k :: k in keys <==> k in m
    ensures forall a :: MissingFrom(m, keys, a) <==> a in Missing(m)
  {
    hide AboveData, Missing;
    forall a ensures MissingFrom(m, keys, a) <==> a in Missing(m) { MissingMeans(m, a); }
  }

  lemma MissingIsNew(m: Entries)
    ensures Missing(m) !! m.Keys
  {
    hide AboveData;
  }

  /** sort and dedup: each wanted path once, in order. */
  method SortDedup(list: seq<Path>) returns (r: seq<Path>)
    ensures Ascending(r) && forall k :: k in r <==> k in list
  {
    r := [];
    for i := 0 to |list|
      invariant Ascending(r) && forall k :: k in r <==> k in list[..i]
    {
      assert list[..i + 1] == list[..i] + [list[i]];
      r := InsertSorted(r, list[i]);
    }
    assert list[..|list|] == list;
  }

  lemma {:induction false} AscendingCount(keys: seq<Path>, s: set<Path>)
    requires Ascending(keys) && forall k :: k in keys <==> k in s
    ensures |keys| == |s|
  {
    hide Before;
    if keys == [] {
      assert s == {};
    } else {
      var n := |keys| - 1;
      var x := keys[n];
      forall k ensures k in keys[..n] <==> k in s - {x} {
        if k in keys[..n] {
          var i :| 0 <= i < n && keys[i] == k;
          BeforeIsTotal(x, x);
        }
        assert k in keys <==> k in keys[..n] || k == x by { assert keys == keys[..n] + [x]; }
      }
      AscendingCount(keys[..n], s - {x});
    }
  }

  // ---- The range scan of rename and rmdir ---------------------------------------------------------

  lemma PrefixMeansUnder(k: Path, p: Path)
    ensures p + [SLASH] <= k <==> Under(k, p)
  {
    if Under(k, p) {
      assert k[..|p| + 1] == p + [SLASH];
    }
    if p + [SLASH] <= k {
      assert k[..|p|] == p && k[|p|] == SLASH;
    }
  }

  lemma TargetIsMoved(k: Path, src: Path, dst: Path)
    requires Under(k, src)
    ensures |src| + 1 <= |k| && dst + [SLASH] + k[|src| + 1..] == Moved(k, src, dst)
  {
    assert k[|src|..] == [SLASH] + k[|src| + 1..];
  }

  /** The first key at or after "p/" tells whether anything lies below p. */
  lemma FirstDecides(m: Entries, p: Path, keys: seq<Path>)
    requires Ascending(keys) && forall k :: k in keys <==> k in m && !Before(k, p + [SLASH])
    ensures HasDescendant(m, p) <==> keys != [] && p + [SLASH] <= keys[0]
  {
    hide Before, Under;
    var prefix := p + [SLASH];
    if keys != [] && prefix <= keys[0] {
      PrefixMeansUnder(keys[0], p);
      assert keys[0] in keys;
    }
    if HasDescendant(m, p) {
      var k :| k in m && Under(k, p);
      PrefixMeansUnder(k, p);
      PrefixNotAfter(prefix, k);
      assert k in keys;
      var i :| 0 <= i < |keys| && keys[i] == k;
      assert keys[0] in keys;
      if i > 0 { PrefixContiguous(prefix, keys[0], k); }
    }
  }

  /** The scan that stops at the first key without the prefix has seen every descendant. */
  lemma ScanIsComplete(m: Entries, src: Path, keys: seq<Path>, n: nat)
    requires Ascending(keys) && forall k :: k in keys <==> k in m && !Before(k, src + [SLASH])
    requires n <= |keys| && (forall j :: 0 <= j < n ==> Under(keys[j], src))
    requires n < |keys| ==> !Under(keys[n], src)
    ensures forall k :: k in m && Under(k, src) ==> k in keys[..n]
  {
    hide Before, Under;
    var prefix := src + [SLASH];
    forall k | k in m && Under(k, src) ensures k in keys[..n] {
      PrefixMeansUnder(k, src);
      PrefixNotAfter(prefix, k);
      assert k in keys;
      var i :| 0 <= i < |keys| && keys[i] == k;
      if n < i {
        assert keys[n] in keys;
        PrefixContiguous(prefix, keys[n], k);
        PrefixMeansUnder(keys[n], src);
      }
      assert i < n;
      assert keys[..n][i] == k;
    }
  }

  /** Each move takes an entry of the subtree to its place below dst, no entry twice; with
      `below`, none is left out. */
  ghost predicate Moves(m: Entries, src: Path, dst: Path, list: seq<Move>, below: bool) {
    && (forall i :: 0 <= i < |list| ==> MoveOk(m, src, dst, list[i]) && (below || list[i].src == src))
    && (forall i, j :: 0 <= i < j < |list| ==> list[i].src != list[j].src)
    && (forall k :: k in m && Side(k, src) && (below || k == src) ==> HasMove(list, k))
  }

  ghost predicate NoneTaken(m: Entries, list: seq<Move>) {
    forall i :: 0 <= i < |list| ==> list[i].dst !in m
  }

  predicate MoveOk(m: Entries, src: Path, dst: Path, v: Move) {
    v.src in m && Side(v.src, src) && v.dst == Moved(v.src, src, dst) && v.manifest == m[v.src]
  }

  ghost predicate HasMove(list: seq<Move>, k: Path) {
    exists i :: 0 <= i < |list| && list[i].src == k
  }

  lemma MovesStart(m: Entries, src: Path, dst: Path)
    requires src in m
    ensures Moves(m, src, dst, [Move(src, dst, m[src])], false)
  {
    MovedSide(src, src, dst);
    assert [Move(src, dst, m[src])][0].src == src;
  }

  lemma ScanMoves(m: Entries, src: Path, dst: Path, keys: seq<Path>, n: nat, moved: seq<Move>)
    requires src in m && Ascending(keys) && (forall k :: k in keys ==> k in m) && n <= |keys|
    requires (forall j :: 0 <= j < n ==> Under(keys[j], src)) && forall k :: k in m && Under(k, src) ==> k in keys[..n]
    requires |moved| == n + 1 && moved[0] == Move(src, dst, m[src])
    requires forall j :: 0 <= j < n ==> keys[j] in m && moved[j + 1] == Move(keys[j], Moved(keys[j], src, dst), m[keys[j]])
    ensures Moves(m, src, dst, moved, true)
  {
    hide Before, Moved, Under;
    MovedSide(src, src, dst);
    forall i | 0 <= i < |moved| ensures MoveOk(m, src, dst, moved[i]) {
      if i > 0 {
        assert Under(keys[i - 1], src);
        assert moved[i] == moved[(i - 1) + 1];
      }
    }
    forall i, j | 0 <= i < j < |moved| ensures moved[i].src != moved[j].src {
      assert moved[j] == moved[(j - 1) + 1] && Under(keys[j - 1], src);
      if i > 0 {
        assert moved[i] == moved[(i - 1) + 1];
        assert Before(keys[i - 1], keys[j - 1]);
        BeforeIsTotal(keys[i - 1], keys[i - 1]);
      } else {
        NotUnderItself(src);
      }
    }
    forall k | k in m && Side(k, src) ensures HasMove(moved, k) {
      if k == src {
        assert moved[0].src == k;
      } else {
        var j :| 0 <= j < n && keys[..n][j] == k;
        assert moved[j + 1].src == k;
      }
    }
  }

  lemma NotUnderItself(p: Path)
    ensures !Under(p, p)
  {}

  // ---- The moves amount to the renaming ---------------------------------------------------------------

  function AfterMoves(m: Entries, list: seq<Move>): Entries {
    if list == [] then m else
      var v := list[|list| - 1];
      (AfterMoves(m, list[..|list| - 1]) - {v.src})[v.dst := v.manifest]
  }

  /** A free, valid target is apart from the source. */
  lemma TargetsAreApart(m: Entries, src: Path, dst: Path)
    requires IsTree(m) && src in m && dst !in m && !Under(dst, src)
    ensures Apart(src, dst)
  {
    hide Under, Good;
    assert WellPlaced(m, src);
  }

  /** When every move's target is free there is no collision. */
  lemma NoneCollides(m: Entries, src: Path, dst: Path, list: seq<Move>)
    requires src in m && Moves(m, src, dst, list, true) && NoneTaken(m, list)
    ensures !Collides(m, src, dst)
  {
    hide Under, Moved;
    forall k | k in m && Under(k, src) ensures Moved(k, src, dst) !in m {
      assert HasMove(list, k);
      var i :| 0 <= i < |list| && list[i].src == k;
    }
  }

  /** In a tree no target below an absent path is taken. */
  lemma NoCollision(m: Entries, src: Path, dst: Path)
    requires IsTree(m) && dst !in m
    ensures forall k :: Under(k, src) ==> Moved(k, src, dst) !in m
  {
    AbsentIsFree(m, dst);
    hide Under, Moved, IsTree;
    forall k | Under(k, src) ensures Moved(k, src, dst) !in m {
      MovedSide(k, src, dst);
    }
  }

  lemma TreeHasNoCollision(m: Entries, src: Path, dst: Path)
    requires src in m && dst !in m && Collides(m, src, dst)
    ensures !IsTree(m)
  {
    hide Under, Moved, IsTree;
    if IsTree(m) { NoCollision(m, src, dst); }
  }

  /** In a tree nothing lies below a data entry, so a rename always moves the whole subtree. */
  lemma SubtreeMoves(m: Entries, src: Path)
    requires IsTree(m) && src in m
    ensures MoveSet(m, src, m[src].kind.Directory?) == set k | k in m && Side(k, src)
  {
    hide Under, Good;
    forall k | k in m && Side(k, src) && k != src ensures m[src].kind.Directory? {
      assert WellPlaced(m, k);
      assert IsDir(m, src);
    }
  }

  /** What a rename does to a tree. */
  ghost predicate TreeRenamed(m: Entries, f: Entries, src: Path, dst: Path, e: Option<CatalogError>, count: nat) {
    && IsTree(f) && e == RenameError(m, src, dst)
    && (e.None? && src != dst ==> (f == Renamed(m, src, dst) && count == |set k | k in m && Side(k, src)|
          && Free(m, dst) && Apart(src, dst)))
  }

  lemma StayedTree(m: Entries, src: Path, dst: Path)
    ensures IsTree(m) ==> forall e, count :: (e == RenameError(m, src, dst) && (e.Some? || src == dst) ==> TreeRenamed(m, m, src, dst, e, count))
  {
    hide IsTree, Renamed, Free, Apart;
  }

  lemma CarriedInTree(m: Entries, f: Entries, src: Path, dst: Path, count: nat)
    requires RenameError(m, src, dst).None? && src != dst
    requires Carried(m, f, src, dst, MoveSet(m, src, m[src].kind.Directory?))
    requires count == |MoveSet(m, src, m[src].kind.Directory?)|
    ensures IsTree(m) ==> TreeRenamed(m, f, src, dst, None, count)
  {
    hide IsTree, Renamed, Free, Apart, Moved, Side, Under, Carried, WellPlaced, Validate, Parent, MoveSet, IsDir, ParentError;
    if IsTree(m) {
      AbsentIsFree(m, dst);
      TargetsAreApart(m, src, dst);
      SubtreeMoves(m, src);
      CarriedIsRenamed(m, f, src, dst);
      PlacedWhenParentOk(m, dst);
      RenameKeepsTree(m, src, dst);
    }
  }

  /** Carrying a whole subtree to a free place is the renaming. */
  lemma CarriedIsRenamed(m: Entries, f: Entries, src: Path, dst: Path)
    requires Free(m, dst) && Carried(m, f, src, dst, set k | k in m && Side(k, src))
    ensures f == Renamed(m, src, dst)
  {
    hide Moved, Side, Renamed, Free;
    RenamedAt(m, src, dst);
    var S, r := (set k | k in m && Side(k, src)), Renamed(m, src, dst);
    forall p | p in m && p !in S ensures Moved(p, src, dst) == p { StaysPut(p, src, dst); }
    forall p ensures p in f <==> p in r {
      if p in r {
        var k := Moved(p, dst, src);
        assert k in m && p == Moved(k, src, dst);
      }
    }
    forall p | p in f ensures f[p] == r[p] {
      if p in MovedKeys(S, src, dst) {
        var k :| k in S && p == Moved(k, src, dst);
      }
    }
  }

  lemma {:induction false} AfterMovesAre(m: Entries, src: Path, dst: Path, list: seq<Move>)
    requires NoneTaken(m, list) && (forall i :: 0 <= i < |list| ==> MoveOk(m, src, dst, list[i]))
    requires forall i, j :: 0 <= i < j < |list| ==> list[i].src != list[j].src
    ensures forall p :: p in AfterMoves(m, list) <==> (p in m && !HasMove(list, p)) || Lands(list, p)
    ensures forall i :: 0 <= i < |list| ==> list[i].dst in AfterMoves(m, list) && AfterMoves(m, list)[list[i].dst] == list[i].manifest
    ensures forall p :: p in m && !HasMove(list, p) ==> p in AfterMoves(m, list) && AfterMoves(m, list)[p] == m[p]
  {
    hide Moved, Side;
    if list == [] {
    } else {
      var n := |list| - 1;
      var v := list[n];
      AfterMovesAre(m, src, dst, list[..n]);
      assert forall i :: 0 <= i < n ==> list[..n][i] == list[i];
      forall i | 0 <= i < |list| ensures list[i].dst !in m && (i < n ==> list[i].dst != v.dst) {
        MovesApart(m, src, dst, list[i], v);
      }
      forall p ensures HasMove(list, p) <==> HasMove(list[..n], p) || p == v.src { MoveSnoc(list, p); }
      forall p ensures Lands(list, p) <==> Lands(list[..n], p) || p == v.dst { MoveSnoc(list, p); }
      hide HasMove, Lands;
      assert v.src in m;
      assert forall i :: 0 <= i < n ==> list[i].dst != v.src;
      AfterOneMore(m, AfterMoves(m, list[..n]), list, n);
    }
  }

  lemma AfterOneMore(m: Entries, e: Entries, list: seq<Move>, n: nat)
    requires |list| == n + 1
    requires forall p :: p in e <==> (p in m && !HasMove(list[..n], p)) || Lands(list[..n], p)
    requires forall i :: 0 <= i < n ==> list[i].dst in e && e[list[i].dst] == list[i].manifest
    requires forall p :: p in m && !HasMove(list[..n], p) ==> p in e && e[p] == m[p]
    requires forall p :: HasMove(list, p) <==> HasMove(list[..n], p) || p == list[n].src
    requires forall p :: Lands(list, p) <==> Lands(list[..n], p) || p == list[n].dst
    requires list[n].src in m && forall i :: 0 <= i <= n ==> list[i].dst !in m
    requires forall i :: 0 <= i < n ==> list[i].dst != list[n].dst
    ensures var f := (e - {list[n].src})[list[n].dst := list[n].manifest];
      && (forall p :: p in f <==> (p in m && !HasMove(list, p)) || Lands(list, p))
      && (forall i :: 0 <= i < |list| ==> list[i].dst in f && f[list[i].dst] == list[i].manifest)
      && (forall p :: p in m && !HasMove(list, p) ==> p in f && f[p] == m[p])
  {
    var v, front := list[n], list[..n];
    LandsMeans(front);
    forall p | Lands(front, p) ensures p !in m {
      var i :| 0 <= i < |front| && front[i].dst == p;
      assert list[i].dst == p;
    }
    hide HasMove, Lands;
    AfterKeys(m, e, front, list, v);
    AfterTargets(m, e, list, n);
    AfterOthers(m, e, front, list, v);
  }

  lemma AfterKeys(m: Entries, e: Entries, front: seq<Move>, list: seq<Move>, v: Move)
    requires forall p :: p in e <==> (p in m && !HasMove(front, p)) || Lands(front, p)
    requires forall p :: HasMove(list, p) <==> HasMove(front, p) || p == v.src
    requires forall p :: Lands(list, p) <==> Lands(front, p) || p == v.dst
    requires v.src in m && v.dst !in m && forall p :: Lands(front, p) ==> p !in m
    ensures forall p :: p in (e - {v.src})[v.dst := v.manifest] <==> (p in m && !HasMove(list, p)) || Lands(list, p)
  {
    hide HasMove, Lands;
    var f := (e - {v.src})[v.dst := v.manifest];
    forall p ensures p in f <==> (p in m && !HasMove(list, p)) || Lands(list, p) {
      assert p in f <==> p == v.dst || (p in e && p != v.src);
    }
  }

  lemma AfterTargets(m: Entries, e: Entries, list: seq<Move>, n: nat)
    requires |list| == n + 1 && forall i :: 0 <= i < n ==> list[i].dst in e && e[list[i].dst] == list[i].manifest
    requires list[n].src in m && forall i :: 0 <= i <= n ==> list[i].dst !in m
    requires forall i :: 0 <= i < n ==> list[i].dst != list[n].dst
    ensures var f := (e - {list[n].src})[list[n].dst := list[n].manifest];
      forall i :: 0 <= i < |list| ==> list[i].dst in f && f[list[i].dst] == list[i].manifest
  {
    var f := (e - {list[n].src})[list[n].dst := list[n].manifest];
    forall i | 0 <= i < |list| ensures list[i].dst in f && f[list[i].dst] == list[i].manifest {
      assert i < n ==> list[i].dst in e && list[i].dst != list[n].src;
    }
  }

  lemma AfterOthers(m: Entries, e: Entries, front: seq<Move>, list: seq<Move>, v: Move)
    requires forall p :: p in m && !HasMove(front, p) ==> p in e && e[p] == m[p]
    requires forall p :: HasMove(list, p) <==> HasMove(front, p) || p == v.src
    requires v.dst !in m
    ensures var f := (e - {v.src})[v.dst := v.manifest]; forall p :: p in m && !HasMove(list, p) ==> p in f && f[p] == m[p]
  {
    hide HasMove;
    var f := (e - {v.src})[v.dst := v.manifest];
    forall p | p in m && !HasMove(list, p) ensures p in f && f[p] == m[p] {
      assert p in e && p != v.src && p != v.dst;
    }
  }

  lemma LandsMeans(list: seq<Move>)
    ensures forall p :: Lands(list, p) ==> exists i :: 0 <= i < |list| && list[i].dst == p
  {}

  ghost predicate Lands(list: seq<Move>, p: Path) {
    exists i :: 0 <= i < |list| && list[i].dst == p
  }

  lemma MoveSnoc(list: seq<Move>, p: Path)
    requires list != []
    ensures HasMove(list, p) <==> HasMove(list[..|list| - 1], p) || p == list[|list| - 1].src
    ensures Lands(list, p) <==> Lands(list[..|list| - 1], p) || p == list[|list| - 1].dst
  {
    var n := |list| - 1;
    assert forall i :: 0 <= i < n ==> list[..n][i] == list[i];
    if i :| 0 <= i < n && list[i].src == p { assert list[..n][i].src == p; }
    if i :| 0 <= i < n && list[i].dst == p { assert list[..n][i].dst == p; }
  }

  lemma MovesApart(m: Entries, src: Path, dst: Path, a: Move, b: Move)
    requires MoveOk(m, src, dst, a) && MoveOk(m, src, dst, b)
    ensures a.src != b.src ==> a.dst != b.dst
  {
    hide Moved, Side;
    MovedSide(a.src, src, dst); MovedSide(b.src, src, dst);
  }

  /** Carrying out the moves one by one carries exactly their entries. */
  lemma MovesCarry(m: Entries, src: Path, dst: Path, list: seq<Move>, below: bool)
    requires Moves(m, src, dst, list, below) && NoneTaken(m, list)
    ensures Carried(m, AfterMoves(m, list), src, dst, MoveSet(m, src, below))
    ensures |list| == |MoveSet(m, src, below)|
  {
    hide Moved, Side, AfterMoves, Lands, HasMove, MoveOk, MoveSet, MovedKeys, Sources;
    DistinctCount(list);
    SourcesAreMoved(m, src, dst, list, below);
    CarriedKeys(m, src, dst, list, below);
    CarriedEntries(m, src, dst, list, below);
  }

  lemma CarriedKeys(m: Entries, src: Path, dst: Path, list: seq<Move>, below: bool)
    requires Moves(m, src, dst, list, below) && NoneTaken(m, list)
    ensures var f, S := AfterMoves(m, list), MoveSet(m, src, below);
      forall p :: p in f <==> (p in m && p !in S) || p in MovedKeys(S, src, dst)
  {
    AfterMovesAre(m, src, dst, list);
    hide Moved, Side, AfterMoves, Lands, HasMove, MoveOk, MoveSet, MovedKeys, Sources;
    SourcesAreMoved(m, src, dst, list, below);
    forall p ensures Lands(list, p) <==> p in MovedKeys(MoveSet(m, src, below), src, dst) {
      LandsIsMoved(m, src, dst, list, below, p);
    }
  }

  lemma CarriedEntries(m: Entries, src: Path, dst: Path, list: seq<Move>, below: bool)
    requires Moves(m, src, dst, list, below) && NoneTaken(m, list)
    ensures var f, S := AfterMoves(m, list), MoveSet(m, src, below);
      && (forall k :: k in S ==> k in m && Moved(k, src, dst) in f && f[Moved(k, src, dst)] == m[k])
      && (forall p :: p in m && p !in S ==> p in f && f[p] == m[p])
  {
    AfterMovesAre(m, src, dst, list);
    hide Moved, Side, AfterMoves, Lands, HasMove, MoveOk, MoveSet, Sources;
    SourcesAreMoved(m, src, dst, list, below);
    var f, S := AfterMoves(m, list), MoveSet(m, src, below);
    forall k | k in S ensures k in m && Moved(k, src, dst) in f && f[Moved(k, src, dst)] == m[k] {
      var i := MoveOf(m, src, dst, list, below, k);
    }
  }

  lemma MoveOf(m: Entries, src: Path, dst: Path, list: seq<Move>, below: bool, k: Path) returns (i: nat)
    requires Moves(m, src, dst, list, below) && k in MoveSet(m, src, below)
    ensures i < |list| && k in m && list[i].src == k && list[i].dst == Moved(k, src, dst) && list[i].manifest == m[k]
  {
    hide Moved, Side;
    assert HasMove(list, k);
    var q :| 0 <= q < |list| && list[q].src == k;
    i := q;
    assert MoveOk(m, src, dst, list[i]);
  }

  lemma SourcesAreMoved(m: Entries, src: Path, dst: Path, list: seq<Move>, below: bool)
    requires Moves(m, src, dst, list, below)
    ensures Sources(list) == MoveSet(m, src, below)
    ensures forall k :: k in MoveSet(m, src, below) <==> HasMove(list, k)
  {
    hide Moved, Side;
  }

  lemma LandsIsMoved(m: Entries, src: Path, dst: Path, list: seq<Move>, below: bool, p: Path)
    requires Moves(m, src, dst, list, below)
    ensures Lands(list, p) <==> p in MovedKeys(MoveSet(m, src, below), src, dst)
  {
    hide Moved, Side;
    if i :| 0 <= i < |list| && list[i].dst == p {
      assert MoveOk(m, src, dst, list[i]) && list[i].src in MoveSet(m, src, below);
    }
    if p in MovedKeys(MoveSet(m, src, below), src, dst) {
      var k :| k in MoveSet(m, src, below) && p == Moved(k, src, dst);
      assert HasMove(list, k);
      var i :| 0 <= i < |list| && list[i].src == k;
      assert MoveOk(m, src, dst, list[i]);
    }
  }

  function Sources(list: seq<Move>): (s: set<Path>)
    ensures forall k :: k in s <==> HasMove(list, k)
  {
    set i | 0 <= i < |list| :: list[i].src
  }

  lemma {:induction false} DistinctCount(list: seq<Move>)
    requires forall i, j :: 0 <= i < j < |list| ==> list[i].src != list[j].src
    ensures |Sources(list)| == |list|
  {
    if list == [] {
    } else {
      var n := |list| - 1;
      DistinctCount(list[..n]);
      forall p ensures HasMove(list, p) <==> HasMove(list[..n], p) || p == list[n].src { MoveSnoc(list, p); }
      assert Sources(list) == Sources(list[..n]) + {list[n].src};
    }
  }
}
