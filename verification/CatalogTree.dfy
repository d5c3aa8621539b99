/** What each catalog operation does to the entries, and that it keeps them a tree. */
module CatalogTree {
  import opened Paths
  import opened ObjectManifest

  type Entries = map<Path, Manifest>

  predicate IsDir(m: Entries, p: Path) {
    p in m && m[p].kind.Directory?
  }

  /** The key is a valid path, and each proper ancestor of it is a directory entry. */
  ghost predicate WellPlaced(m: Entries, k: Path) {
    Good(k) && forall a :: Under(k, a) ==> IsDir(m, a)
  }

  ghost predicate IsTree(m: Entries) {
    forall k :: k in m ==> WellPlaced(m, k)
  }

  ghost predicate HasDescendant(m: Entries, p: Path) {
    exists k :: k in m && Under(k, p)
  }

  lemma OnlyDirectoriesHaveDescendants(m: Entries, p: Path)
    requires IsTree(m) && HasDescendant(m, p)
    ensures IsDir(m, p)
  {
    var k :| k in m && Under(k, p);
    assert WellPlaced(m, k);
  }

  /** A good path whose parent is a directory entry, or the root, is well placed. */
  lemma ParentSuffices(m: Entries, p: Path)
    requires IsTree(m) && Good(p) && (Parent(p).Some? ==> IsDir(m, Parent(p).value))
    ensures WellPlaced(m, p)
  {
    hide Under, Good, Parent;
    forall a | Under(p, a) ensures IsDir(m, a) {
      if Parent(p).None? {
        NoParentNoAncestor(p, a);
      } else {
        var q := Parent(p).value;
        ParentIsNearest(p, a);
        assert WellPlaced(m, q);
      }
    }
  }

  lemma InsertKeepsTree(m: Entries, p: Path, man: Manifest)
    requires IsTree(m) && WellPlaced(m, p) && !IsDir(m, p)
    ensures IsTree(m[p := man])
  {
    hide Under, Good;
    var r := m[p := man];
    forall k | k in r ensures WellPlaced(r, k) {
      assert WellPlaced(m, k);
    }
  }

  lemma RemoveKeepsTree(m: Entries, p: Path)
    requires IsTree(m) && !HasDescendant(m, p)
    ensures IsTree(m - {p})
  {
    hide Under, Good;
    var r := m - {p};
    forall k | k in r ensures WellPlaced(r, k) {
      assert WellPlaced(m, k);
    }
  }

  // ---- Rename -----------------------------------------------------------------------------------

  /** k is a itself or lies below it. */
  predicate Side(k: Path, a: Path) {
    k == a || Under(k, a)
  }

  /** The subtree at `src` becomes the subtree at `dst`. */
  function Moved(k: Path, src: Path, dst: Path): Path {
    if Side(k, src) then dst + k[|src|..] else k
  }

  /** Neither path contains the other. */
  predicate Apart(a: Path, b: Path) {
    !Side(a, b) && !Side(b, a)
  }

  ghost predicate Free(m: Entries, p: Path) {
    forall k :: k in m ==> !Side(k, p)
  }

  lemma MovedSide(k: Path, src: Path, dst: Path)
    requires Side(k, src)
    ensures Side(Moved(k, src, dst), dst)
    ensures Moved(Moved(k, src, dst), dst, src) == k
    ensures Under(k, src) <==> Under(Moved(k, src, dst), dst)
    ensures k == src <==> Moved(k, src, dst) == dst
  {
    var s := k[|src|..];
    var p := dst + s;
    assert k == src + s;
    assert p[|dst|..] == s;
    if Under(k, src) {
      assert s[0] == SLASH && p[..|dst|] == dst;
    }
  }

  lemma MovedBack(k: Path, src: Path, dst: Path)
    requires !Side(k, dst)
    ensures Moved(Moved(k, src, dst), dst, src) == k
  {
    hide Under;
    if Side(k, src) {
      MovedSide(k, src, dst);
    }
  }

  /** Nothing can be on both sides of two paths that are apart. */
  lemma ApartSides(k: Path, a: Path, b: Path)
    requires Apart(a, b) && Side(k, a)
    ensures !Side(k, b)
  {
    hide Under;
    if Side(k, b) && Under(k, a) && Under(k, b) {
      UnderChain(k, a, b);
    }
  }

  function MovedKeys(keys: set<Path>, src: Path, dst: Path): set<Path> {
    set k | k in keys :: Moved(k, src, dst)
  }

  /** The catalog with the subtree at src moved to dst. */
  function Renamed(m: Entries, src: Path, dst: Path): Entries {
    map p | p in MovedKeys(m.Keys, src, dst) && Moved(p, dst, src) in m :: m[Moved(p, dst, src)]
  }

  lemma AllMovedBack(m: Entries, src: Path, dst: Path)
    requires Free(m, dst)
    ensures forall p :: p in MovedKeys(m.Keys, src, dst) ==> Moved(p, dst, src) in m && Moved(Moved(p, dst, src), src, dst) == p
  {
    hide Moved, Side;
    forall p | p in MovedKeys(m.Keys, src, dst) ensures Moved(p, dst, src) in m && Moved(Moved(p, dst, src), src, dst) == p {
      var k :| k in m && p == Moved(k, src, dst);
      MovedBack(k, src, dst);
    }
  }

  /** A renamed catalog has exactly the moved keys, each with the entry it had. */
  lemma RenamedAt(m: Entries, src: Path, dst: Path)
    requires Free(m, dst)
    ensures forall k :: k in m ==> Moved(k, src, dst) in Renamed(m, src, dst) && Renamed(m, src, dst)[Moved(k, src, dst)] == m[k]
    ensures forall p :: p in Renamed(m, src, dst) ==> Moved(p, dst, src) in m && Moved(Moved(p, dst, src), src, dst) == p
    ensures Renamed(m, src, dst).Keys == MovedKeys(m.Keys, src, dst)
  {
    hide Moved, Side;
    AllMovedBack(m, src, dst);
    forall k | k in m ensures Moved(Moved(k, src, dst), dst, src) == k { MovedBack(k, src, dst); }
  }

  /** Renaming back restores the catalog. */
  lemma RenameBack(m: Entries, src: Path, dst: Path)
    requires Free(m, dst) && Apart(src, dst)
    ensures Free(Renamed(m, src, dst), src)
    ensures Renamed(Renamed(m, src, dst), dst, src) == m
  {
    hide Side, Moved, Apart, Renamed;
    RenamedAt(m, src, dst);
    var r := Renamed(m, src, dst);
    forall p | p in r ensures !Side(p, src) {
      NotOnOldSide(Moved(p, dst, src), src, dst);
    }
    RenamedAt(r, dst, src);
    var back := Renamed(r, dst, src);
    forall k ensures k in back <==> k in m {
      if k in m { MovedBack(k, src, dst); }
      if k in back {
        var p := Moved(k, src, dst);
        assert p in r && Moved(p, dst, src) == k;
      }
    }
    forall k | k in m ensures back[k] == m[k] {
      MovedBack(k, src, dst);
      assert back[Moved(Moved(k, src, dst), dst, src)] == r[Moved(k, src, dst)];
    }
  }

  lemma NotOnOldSide(k: Path, src: Path, dst: Path)
    requires Apart(src, dst)
    ensures !Side(Moved(k, src, dst), src)
  {
    hide Under;
    if Side(k, src) {
      MovedSide(k, src, dst);
      assert Apart(dst, src);
      ApartSides(Moved(k, src, dst), dst, src);
    }
  }

  lemma {:induction false} MovedInjective(s: set<Path>, src: Path, dst: Path)
    requires forall k :: k in s ==> !Side(k, dst)
    ensures |MovedKeys(s, src, dst)| == |s|
  {
    hide Side, Moved;
    if s == {} {
    } else {
      var x :| x in s;
      var rest := s - {x};
      MovedInjective(rest, src, dst);
      forall k | k in rest ensures Moved(k, src, dst) != Moved(x, src, dst) {
        MovedBack(k, src, dst); MovedBack(x, src, dst);
      }
      assert MovedKeys(s, src, dst) == MovedKeys(rest, src, dst) + {Moved(x, src, dst)};
    }
  }

  /** A rename keeps the number of entries. */
  lemma RenameKeepsSize(m: Entries, src: Path, dst: Path)
    requires Free(m, dst)
    ensures |Renamed(m, src, dst)| == |m|
  {
    hide Side, Moved;
    MovedInjective(m.Keys, src, dst);
    RenamedAt(m, src, dst);
    assert |Renamed(m, src, dst).Keys| == |m.Keys|;
  }

  /** Ancestors of a moved path: those of the target, or moved ancestors. */
  lemma MovedAncestors(k: Path, src: Path, dst: Path, a: Path)
    requires Side(k, src) && Under(Moved(k, src, dst), a)
    ensures Under(dst, a) || (Side(a, dst) && Under(k, Moved(a, dst, src)))
  {
    var p := Moved(k, src, dst);
    MovedSide(k, src, dst);
    if p == dst {
    } else {
      hide Moved;
      UnderChain(p, a, dst);
      if Side(a, dst) {
        MovedDeeper(p, a, dst, src);
      }
    }
  }

  lemma MovedDeeper(p: Path, a: Path, dst: Path, src: Path)
    requires Side(p, dst) && Side(a, dst) && Under(p, a)
    ensures Under(Moved(p, dst, src), Moved(a, dst, src))
  {
    var n := |a| - |dst|;
    assert p[|dst|..][..n] == a[|dst|..];
    assert p[|dst|..][n] == SLASH;
    assert Moved(p, dst, src)[..|src| + n] == src + p[|dst|..][..n];
    assert Moved(p, dst, src)[|src| + n] == p[|dst|..][n];
  }

  lemma MovedGood(k: Path, src: Path, dst: Path)
    requires Side(k, src) && Good(k) && Good(dst)
    ensures Good(Moved(k, src, dst))
  {
    hide Good;
    MovedSide(k, src, dst);
    var p := Moved(k, src, dst);
    if Under(k, src) {
      UnderGood(k, src); UnderGood(p, dst);
      assert p[|dst| + 1..] == k[|src| + 1..];
    }
  }

  /** Renaming an entry to a free, well-placed path keeps the tree. */
  lemma RenameKeepsTree(m: Entries, src: Path, dst: Path)
    requires IsTree(m) && Free(m, dst) && Apart(src, dst) && WellPlaced(m, dst)
    ensures IsTree(Renamed(m, src, dst))
  {
    hide Side, Moved, Under, Good, IsDir, Renamed;
    RenamedAt(m, src, dst);
    var r := Renamed(m, src, dst);
    forall p | p in r ensures WellPlaced(r, p) {
      RenamedPlace(m, src, dst, Moved(p, dst, src));
    }
  }

  lemma RenamedPlace(m: Entries, src: Path, dst: Path, k: Path)
    requires IsTree(m) && Free(m, dst) && Apart(src, dst) && WellPlaced(m, dst) && k in m
    ensures WellPlaced(Renamed(m, src, dst), Moved(k, src, dst))
  {
    hide Side, Moved, Under, Good, IsDir, Apart, Renamed;
    var r, p := Renamed(m, src, dst), Moved(k, src, dst);
    assert WellPlaced(m, k);
    if Side(k, src) {
      MovedGood(k, src, dst);
    } else {
      StaysPut(k, src, dst);
    }
    forall a | Under(p, a) ensures IsDir(r, a) {
      if Side(k, src) {
        MovedAncestors(k, src, dst, a);
        if Under(dst, a) {
          OutsideOld(a, src, dst);
          StillDir(m, src, dst, a);
        } else {
          SideBack(a, src, dst);
          StillDir(m, src, dst, Moved(a, dst, src));
        }
      } else {
        AboveOutside(k, src, a);
        StaysPut(a, src, dst);
        StillDir(m, src, dst, a);
      }
    }
  }

  lemma StaysPut(k: Path, src: Path, dst: Path)
    requires !Side(k, src)
    ensures Moved(k, src, dst) == k
  {}

  lemma OutsideOld(a: Path, src: Path, dst: Path)
    requires Under(dst, a) && Apart(src, dst)
    ensures Moved(a, src, dst) == a
  {
    hide Under;
    if Under(a, src) { UnderTransitive(dst, a, src); }
  }

  lemma SideBack(a: Path, src: Path, dst: Path)
    requires Side(a, dst)
    ensures Moved(Moved(a, dst, src), src, dst) == a
  {
    MovedSide(a, dst, src);
  }

  lemma AboveOutside(k: Path, src: Path, a: Path)
    requires !Side(k, src) && Under(k, a)
    ensures !Side(a, src)
  {
    hide Under;
    if Under(a, src) { UnderTransitive(k, a, src); }
  }

  lemma StillDir(m: Entries, src: Path, dst: Path, a: Path)
    requires Free(m, dst) && IsDir(m, a)
    ensures IsDir(Renamed(m, src, dst), Moved(a, src, dst))
  {
    hide Moved, Free;
    RenamedAt(m, src, dst);
  }
}
