/** Content hashes (crates/holofs-core/src/merkle.rs). SHA-256 with its domain prefixes is taken
    as injective: a hash is the term that was hashed. */
module Merkle {
  import opened ReducedSystem

  datatype Hash = ZeroHash | OfShard(shard: Shard) | OfPair(left: Hash, right: Hash)

  function ShardHash(s: Shard): Hash { OfShard(s) }

  // ---- The tree -----------------------------------------------------------------------

  /** The number of pairs among n, with an odd last one counted. */
  function Half(n: nat): (h: nat)
    ensures n <= 2 * h <= n + 1
  {
    (n + 1) / 2
  }

  /** Pairs of neighbours; an odd last element is paired with itself. */
  function NextLevel(level: seq<Hash>): (next: seq<Hash>)
    ensures |next| == Half(|level|)
  {
    if level == [] then []
    else if |level| == 1 then [OfPair(level[0], level[0])]
    else [OfPair(level[0], level[1])] + NextLevel(level[2..])
  }

  function Root(leaves: seq<Hash>): Hash
    decreases |leaves|
  {
    if leaves == [] then ZeroHash
    else if |leaves| == 1 then leaves[0]
    else Root(NextLevel(leaves))
  }

  lemma {:induction false} NextLevelAt(level: seq<Hash>, i: nat)
    requires 2 * i < |level|
    ensures NextLevel(level)[i] == OfPair(level[2 * i], if 2 * i + 1 < |level| then level[2 * i + 1] else level[2 * i])
  {
    if i == 0 {
    } else {
      NextLevelAt(level[2..], i - 1);
    }
  }

  /** merkle_root: the current level is replaced by the next one until one hash is left. */
  method MerkleRoot(leaves: seq<Hash>) returns (root: Hash)
    ensures root == Root(leaves)
  {
    hide NextLevel;
    if leaves == [] {
      return ZeroHash;
    }
    var level := leaves;
    while |level| > 1
      invariant |level| >= 1 && Root(level) == Root(leaves)
      decreases |level|
    {
      level := PairUp(level);
    }
    root := level[0];
  }

  /** The inner loop: two steps of `i` for each pair. */
  method PairUp(level: seq<Hash>) returns (next: seq<Hash>)
    requires |level| > 1
    ensures next == NextLevel(level) && 1 <= |next| < |level|
  {
    next := [];
    var i := 0;
    while i < |level|
      invariant i <= |level| + 1 && 2 * |next| == i
      invariant forall j :: 0 <= j < |next| ==> next[j] == NextLevel(level)[j]
    {
      var right := if i + 1 < |level| then level[i + 1] else level[i];
      NextLevelAt(level, |next|);
      next := next + [OfPair(level[i], right)];
      i := i + 2;
    }
  }

  lemma {:induction false} NextLevelInjective(a: seq<Hash>, b: seq<Hash>)
    requires |a| == |b| && NextLevel(a) == NextLevel(b)
    ensures a == b
  {
    forall j | 0 <= j < |a| ensures a[j] == b[j] {
      NextLevelAt(a, j / 2);
      NextLevelAt(b, j / 2);
    }
  }

  /** For a given number of leaves the root determines every leaf. */
  lemma {:induction false} RootBindsLeaves(a: seq<Hash>, b: seq<Hash>)
    requires |a| == |b| && Root(a) == Root(b)
    ensures a == b
    decreases |a|
  {
    if |a| >= 2 {
      RootBindsLeaves(NextLevel(a), NextLevel(b));
      NextLevelInjective(a, b);
    } else if |a| == 1 {
      assert a == [a[0]] && b == [b[0]];
    }
  }

  // ---- Lists of different lengths -----------------------------------------------------

  function Levels(n: nat): nat {
    if n <= 1 then 0 else 1 + Levels(Half(n))
  }

  /** The number of leaves of the full tree over n leaves. */
  function Width(n: nat): (w: nat)
    ensures n <= w
  {
    if n <= 1 then n else 2 * Width(Half(n))
  }

  /** The leaf that stands at place p of the full tree over n leaves. */
  function LeafAt(p: nat, n: nat): (i: nat)
    requires p < Width(n)
    ensures i < n
    decreases n
  {
    if n == 1 then 0
    else
      var i := 2 * LeafAt(p / 2, Half(n)) + p % 2;
      if i < n then i else n - 1
  }

  /** The leaves with every repetition that merkle_root makes on its way up written out. */
  function WrittenOut(a: seq<Hash>): (p: seq<Hash>)
    ensures |p| == Width(|a|)
  {
    seq(Width(|a|), p requires 0 <= p < Width(|a|) => a[LeafAt(p, |a|)])
  }

  ghost predicate ShardHashes(a: seq<Hash>) {
    forall i :: 0 <= i < |a| ==> a[i].OfShard?
  }

  /** The two leaves under place q of the next level. */
  lemma LeafPair(q: nat, n: nat) returns (i: nat, j: nat)
    requires n >= 2 && q < Width(Half(n))
    ensures 2 * q + 1 < Width(n) == 2 * Width(Half(n))
    ensures i == LeafAt(q, Half(n)) && 2 * i <= j < n && j == if 2 * i + 1 < n then 2 * i + 1 else 2 * i
    ensures LeafAt(2 * q, n) == 2 * i && LeafAt(2 * q + 1, n) == j
  {
    assert (2 * q) / 2 == q && (2 * q + 1) / 2 == q && (2 * q) % 2 == 0 && (2 * q + 1) % 2 == 1;
    i := LeafAt(q, Half(n));
    j := if 2 * i + 1 < n then 2 * i + 1 else 2 * i;
  }

  lemma NextOfWrittenOut(a: seq<Hash>)
    requires |a| >= 2
    ensures NextLevel(WrittenOut(a)) == WrittenOut(NextLevel(a))
  {
    var w := Width(Half(|a|));
    assert Width(|a|) == 2 * w;
    assert |NextLevel(WrittenOut(a))| == |WrittenOut(NextLevel(a))| == w;
    hide NextLevel, LeafAt, Width, WrittenOut, Half;
    forall q: nat | q < w
      ensures NextLevel(WrittenOut(a))[q] == WrittenOut(NextLevel(a))[q]
    {
      NextAt(a, WrittenOut(a), q);
    }
  }

  lemma NextAt(a: seq<Hash>, p: seq<Hash>, q: nat)
    requires |a| >= 2 && q < Width(Half(|a|)) && p == WrittenOut(a)
    ensures q < |NextLevel(p)| && NextLevel(p)[q] == WrittenOut(NextLevel(a))[q]
  {
    hide NextLevel, LeafAt, Width, Half, WrittenOut;
    var i, j := LeafPair(q, |a|);
    WrittenOutAt(a, 2 * q);
    WrittenOutAt(a, 2 * q + 1);
    WrittenOutAt(NextLevel(a), q);
    PairAt(p, q, 2 * q + 1);
    PairAt(a, i, j);
  }

  lemma WrittenOutAt(a: seq<Hash>, p: nat)
    requires p < Width(|a|)
    ensures WrittenOut(a)[p] == a[LeafAt(p, |a|)]
  {}

  lemma PairAt(level: seq<Hash>, i: nat, j: nat)
    requires 2 * i <= j < |level| && j == if 2 * i + 1 < |level| then 2 * i + 1 else 2 * i
    ensures i < |NextLevel(level)| && NextLevel(level)[i] == OfPair(level[2 * i], level[j])
  {
    hide NextLevel;
    NextLevelAt(level, i);
  }

  lemma {:induction false} RootOfWrittenOut(a: seq<Hash>)
    ensures Root(WrittenOut(a)) == Root(a)
    decreases |a|
  {
    if |a| <= 1 {
      assert WrittenOut(a) == a;
    } else {
      RootOfWrittenOut(NextLevel(a));
      NextOfWrittenOut(a);
    }
  }

  function Spine(h: Hash): nat {
    if h.OfPair? then 1 + Spine(h.left) else 0
  }

  lemma {:induction false} SpineOfRoot(a: seq<Hash>)
    requires a != []
    ensures Spine(Root(a)) == Levels(|a|) + Spine(a[0])
    decreases |a|
  {
    if |a| == 1 {
    } else {
      SpineOfRoot(NextLevel(a));
      NextLevelAt(a, 0);
    }
  }

  lemma {:induction false} WidthOfLevels(m: nat, n: nat)
    requires m >= 1 && n >= 1 && Levels(m) == Levels(n)
    ensures Width(m) == Width(n)
  {
    if m == 1 {
    } else {
      WidthOfLevels(Half(m), Half(n));
    }
  }

  lemma EmptyRoot(a: seq<Hash>)
    requires ShardHashes(a)
    ensures Root(a) == ZeroHash <==> a == []
  {
    if |a| >= 2 { SpineOfRoot(a); }
  }

  /** Two lists of shard hashes, of any lengths, have one root exactly when writing out the
      repetitions makes them the same list. */
  lemma RootsAgree(a: seq<Hash>, b: seq<Hash>)
    requires ShardHashes(a) && ShardHashes(b)
    ensures Root(a) == Root(b) <==> WrittenOut(a) == WrittenOut(b)
  {
    RootOfWrittenOut(a);
    RootOfWrittenOut(b);
    if Root(a) == Root(b) {
      EmptyRoot(a);
      EmptyRoot(b);
      if a != [] {
        SpineOfRoot(a);
        SpineOfRoot(b);
        WidthOfLevels(|a|, |b|);
      }
      RootBindsLeaves(WrittenOut(a), WrittenOut(b));
    }
  }

  lemma {:induction false} OwnPlace(p: nat, n: nat)
    requires p < n
    ensures LeafAt(p, n) == p
  {
    if n == 1 {
    } else {
      OwnPlace(p / 2, Half(n));
    }
  }

  /** Lists that share a root start alike: one continues the other. */
  lemma OneContinuesOther(a: seq<Hash>, b: seq<Hash>)
    requires ShardHashes(a) && ShardHashes(b) && Root(a) == Root(b)
    ensures a <= b || b <= a
    ensures |a| == |b| ==> a == b
  {
    hide Root, LeafAt;
    RootsAgree(a, b);
    var short := if |a| <= |b| then |a| else |b|;
    forall i | 0 <= i < short ensures a[i] == b[i] {
      OwnPlace(i, |a|);
      OwnPlace(i, |b|);
      assert WrittenOut(a)[i] == WrittenOut(b)[i];
    }
  }

  /** Repeating the last leaf of an odd list keeps the root exactly when there are three or more. */
  lemma RepeatedLastLeaf(a: seq<Hash>)
    requires ShardHashes(a) && |a| % 2 == 1
    ensures Root(a + [a[|a| - 1]]) == Root(a) <==> |a| >= 3
  {
    hide Root, NextLevel;
    var m := Middle(|a|);
    if m == 0 {
      PairDiffers(a);
    } else {
      OddEnd(a, m);
      assert Root(a + [a[2 * m]]) == Root(NextLevel(a)) == Root(a) by { LevelsShareRoot(a); LevelsShareRoot(a + [a[2 * m]]); }
    }
  }

  lemma Middle(n: nat) returns (m: nat)
    requires n % 2 == 1
    ensures n == 2 * m + 1
  {
    m := n / 2;
  }

  lemma LevelsShareRoot(a: seq<Hash>)
    requires |a| >= 2
    ensures Root(a) == Root(NextLevel(a))
  {}

  lemma PairDiffers(a: seq<Hash>)
    requires ShardHashes(a) && |a| == 1
    ensures Root(a + [a[0]]) != Root(a)
  {
    SpineOfRoot(a);
    SpineOfRoot(a + [a[0]]);
  }

  lemma OddEnd(a: seq<Hash>, m: nat)
    requires |a| == 2 * m + 1
    ensures NextLevel(a + [a[2 * m]]) == NextLevel(a)
  {
    hide NextLevel, Half;
    SamePairs(a, a + [a[2 * m]], m);
  }

  lemma SamePairs(a: seq<Hash>, b: seq<Hash>, m: nat)
    requires |a| == 2 * m + 1 && |b| == 2 * m + 2 && b[2 * m + 1] == a[2 * m]
    requires forall i :: 0 <= i < |a| ==> b[i] == a[i]
    ensures NextLevel(b) == NextLevel(a)
  {
    hide NextLevel, Half;
    assert |NextLevel(a)| == |NextLevel(b)| == m + 1;
    forall i: nat | i <= m ensures NextLevel(b)[i] == NextLevel(a)[i] {
      NextLevelAt(a, i);
      NextLevelAt(b, i);
    }
  }

  /** An even list can collide too: six leaves, and eight with the last pair repeated. */
  lemma RepeatedLastPair(a: Hash, b: Hash, c: Hash, d: Hash, e: Hash, f: Hash)
    ensures Root([a, b, c, d, e, f]) == Root([a, b, c, d, e, f, e, f])
  {
    hide NextLevel;
    var x, y := [a, b, c, d, e, f], [a, b, c, d, e, f, e, f];
    var x', y' := NextLevel(x), NextLevel(y);
    forall i | 0 <= i < 4 ensures y'[i] == if i < 3 then x'[i] else x'[2] {
      NextLevelAt(y, i);
      NextLevelAt(x, if i < 3 then i else 2);
    }
    assert y' == x' + [x'[2]];
    OddEnd(x', 1);
  }
}
