/** Whole runs of catalog operations, and what filling in missing directories achieves. */
module CatalogRun {
  import opened Wrappers
  import opened Paths
  import opened ObjectManifest
  import opened CatalogTree
  import opened Catalog

  // ---- synthesize_missing_directories -------------------------------------------------------------

  /** No entry changes, the new ones are directories, and every ancestor of every data entry is present. */
  lemma SynthesizeCompletes(m: Entries)
    ensures forall k :: k in m ==> k in Synthesized(m) && Synthesized(m)[k] == m[k]
    ensures forall a :: a in Synthesized(m) && a !in m ==> a in Missing(m) && IsDir(Synthesized(m), a)
    ensures forall k, a :: AboveData(Synthesized(m), k, a) ==> a in Synthesized(m)
  {
    hide Missing, Under, NewDirectory;
    MissingIsNew(m);
    forall a | a in Missing(m) ensures Synthesized(m)[a].kind.Directory? { NewDirectoryIsOne(a); }
    forall k, a | AboveData(Synthesized(m), k, a) ensures a in Synthesized(m) {
      assert k in m && AboveData(m, k, a);
      MissingMeans(m, a);
    }
  }

  lemma NewDirectoryIsOne(a: Path)
    ensures NewDirectory(a).kind.Directory?
  {
    hide DirectoryObjectId;
  }

  /** A second run adds nothing. */
  lemma SynthesizeTwice(m: Entries)
    ensures Missing(Synthesized(m)) == {} && Synthesized(Synthesized(m)) == Synthesized(m)
  {
    hide AboveData, Synthesized, Missing;
    SynthesizeCompletes(m);
    var r := Synthesized(m);
    forall a ensures a !in Missing(r) { MissingMeans(r, a); }
    assert Missing(r) == {};
    NothingToAdd(r);
  }

  lemma NothingToAdd(m: Entries)
    requires Missing(m) == {}
    ensures Synthesized(m) == m
  {}

  /** It yields a tree exactly when all keys are valid, no data entry lies above another entry,
      and what lies above a directory entry is an entry or lies above some data entry. */
  lemma SynthesizeMakesTree(m: Entries)
    ensures IsTree(Synthesized(m)) <==> Repairable(m)
  {
    hide AboveData, Synthesized, Missing, Under, Good, IsDir;
    SynthesizeCompletes(m);
    var r := Synthesized(m);
    if Repairable(m) {
      forall k | k in r ensures WellPlaced(r, k) { PlaceSynthesized(m, k); }
    }
    if IsTree(r) {
      forall k | k in m ensures PlacedOrMissing(m, k) {
        assert WellPlaced(r, k);
        forall a | Under(k, a) ensures IsDir(m, a) || a in Missing(m) {
          SameKind(m, a);
        }
      }
    }
  }

  /** k is valid and everything above it is a directory entry or about to become one. */
  ghost predicate PlacedOrMissing(m: Entries, k: Path) {
    Good(k) && forall a :: Under(k, a) ==> IsDir(m, a) || a in Missing(m)
  }

  ghost predicate Repairable(m: Entries) {
    forall k :: k in m ==> PlacedOrMissing(m, k)
  }

  lemma SameKind(m: Entries, a: Path)
    ensures IsDir(Synthesized(m), a) <==> IsDir(m, a) || a in Missing(m)
  {
    hide Missing, NewDirectory;
    MissingIsNew(m);
    if a in Missing(m) { NewDirectoryIsOne(a); }
  }

  lemma PlaceSynthesized(m: Entries, k: Path)
    requires Repairable(m) && k in Synthesized(m)
    ensures WellPlaced(Synthesized(m), k)
  {
    hide AboveData, Synthesized, Missing, Under, Good, IsDir;
    SynthesizeCompletes(m);
    var below := k;
    if k in m {
      assert PlacedOrMissing(m, k);
    } else {
      MissingMeans(m, k);
      below :| below in m && AboveData(m, below, k);
      assert PlacedOrMissing(m, below);
      DataBelow(m, below, k);
    }
    forall a | Under(k, a) ensures IsDir(Synthesized(m), a) {
      SameKind(m, a);
      if below != k { UnderTransitive(below, k, a); }
    }
  }

  lemma DataBelow(m: Entries, k: Path, a: Path)
    requires AboveData(m, k, a)
    ensures Under(k, a) && (Good(k) ==> Good(a)) && k != a
  {
    UnderGood(k, a);
  }

  // ---- Runs --------------------------------------------------------------------------------------------

  datatype CatalogOp =
    | OpMkdir(path: Path)
    | OpRmdir(path: Path)
    | OpRename(src: Path, dst: Path)
    | OpPut(path: Path, emptyBody: bool, put: Option<Manifest>)
    | OpDelete(path: Path)

  /** What one operation does to a tree. */
  ghost function Effect(m: Entries, op: CatalogOp): Entries {
    match op
    case OpMkdir(p) => if MkdirError(m, p).None? then m[p := NewDirectory(p)] else m
    case OpRmdir(p) => if RmdirError(m, p).None? then m - {p} else m
    case OpRename(src, dst) => if RenameError(m, src, dst).None? && src != dst then Renamed(m, src, dst) else m
    case OpPut(p, empty, put) => if IngestError(m, p, empty, put).None? then m[p := put.value] else m
    case OpDelete(p) => if RemoveError(m, p).None? then m - {p} else m
  }

  ghost function EffectOfAll(m: Entries, ops: seq<CatalogOp>): Entries {
    if ops == [] then m else Effect(EffectOfAll(m, ops[..|ops| - 1]), ops[|ops| - 1])
  }

  method Step(d: Directory, op: CatalogOp)
    requires IsTree(d.entries)
    modifies d
    ensures d.entries == Effect(old(d.entries), op) && IsTree(d.entries)
  {
    hide IsTree, MkdirError, RmdirError, RenameError, IngestError, RemoveError, Renamed, NewDirectory, Free, Apart, CarriedBy, RenameOutcome;
    match op {
      case OpMkdir(p) => var _ := d.Mkdir(p);
      case OpRmdir(p) => var _ := d.Rmdir(p);
      case OpRename(src, dst) => var _, _ := d.Rename(src, dst);
      case OpPut(p, empty, put) => var _ := d.Ingest(p, empty, put);
      case OpDelete(p) => var _ := d.Remove(p);
    }
  }

  /** Every run of operations, failed ones included, keeps the catalog a tree. */
  method Run(d: Directory, ops: seq<CatalogOp>)
    requires IsTree(d.entries)
    modifies d
    ensures IsTree(d.entries) && d.entries == EffectOfAll(old(d.entries), ops)
  {
    hide IsTree, Effect;
    for i := 0 to |ops|
      invariant IsTree(d.entries) && d.entries == EffectOfAll(old(d.entries), ops[..i])
    {
      assert ops[..i + 1][..i] == ops[..i];
      Step(d, ops[i]);
    }
    assert ops[..|ops|] == ops;
  }

  /** A rename that moved something can be undone by renaming back. */
  method RenameThereAndBack(d: Directory, src: Path, dst: Path) returns (there: Option<CatalogError>, back: Option<CatalogError>)
    requires IsTree(d.entries)
    modifies d
    ensures there.None? ==> back.None?
    ensures d.entries == old(d.entries)
  {
    hide IsTree, Renamed, Free, Apart, Side, Validate, Parent, Under, IsDir, CarriedBy, RenameOutcome;
    ghost var m := d.entries;
    var n;
    there, n := d.Rename(src, dst);
    if there.Some? {
      return there, None;
    }
    BackIsAllowed(m, src, dst);
    back, n := d.Rename(dst, src);
    if src != dst { RenameBack(m, src, dst); }
  }

  lemma BackIsAllowed(m: Entries, src: Path, dst: Path)
    requires IsTree(m) && RenameError(m, src, dst).None? && (src != dst ==> Free(m, dst) && Apart(src, dst))
    ensures RenameError(if src == dst then m else Renamed(m, src, dst), dst, src).None?
  {
    hide Renamed, Validate, Good, Parent, IsDir, Moved, Under, Free;
    if src != dst {
      var r := Renamed(m, src, dst);
      RenamedAt(m, src, dst);
      RenameBack(m, src, dst);
      FreeMeans(r, src);
      MovedSide(src, src, dst);
      assert dst in r;
      if Parent(src).Some? {
        var q := Parent(src).value;
        ParentIsNearest(src, q);
        assert WellPlaced(m, src);
        AboveIsOutside(src, q);
        StaysPut(q, src, dst);
        StillDir(m, src, dst, q);
      }
    }
  }

  lemma FreeMeans(m: Entries, p: Path)
    requires Free(m, p)
    ensures p !in m
  {}

  lemma AboveIsOutside(k: Path, a: Path)
    requires Under(k, a)
    ensures !Side(a, k)
  {}
}
