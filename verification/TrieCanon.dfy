/**
 * The trees that must exist: one for every slot that two distinct stored keys share.  The steps of
 * insertion and removal that establish this again, level by level.
 */
module TrieCanon {
  import opened Bits
  import opened TriePaths
  import opened TrieShape
  import opened TrieSlots

  const LEVEL_MAX: nat := 9

  ghost function Way(key: nat, n: nat): (p: Path)
    requires n <= LEVEL_MAX + 1
    ensures |p| == n + 1
  {
    assert Fits(TRIE);
    PathOf(TRIE, key, n)
  }

  lemma ThroughWay(key: nat, n: nat)
    requires n <= LEVEL_MAX + 1
    ensures Through(key, Way(key, n))
  {
  }

  lemma WayThrough(key: nat, p: Path)
    requires Through(key, p)
    ensures 1 <= |p| <= LEVEL_MAX + 2 && p == Way(key, |p| - 1)
  {
  }

  lemma WayNext(key: nat, n: nat)
    requires n <= LEVEL_MAX
    ensures Fits(TRIE) && n <= TRIE.depth && Digit(TRIE, key, n) < TREE_MAX
    ensures Way(key, n + 1) == Way(key, n) + [Digit(TRIE, key, n)] && Parent(Way(key, n + 1)) == Way(key, n)
  {
    assert Pow2(3) == 8;
    PathNext(TRIE, key, n);
  }

  lemma WayPrefix(key: nat, m: nat, n: nat)
    requires m <= n <= LEVEL_MAX + 1
    ensures Way(key, n)[..m + 1] == Way(key, m)
  {
    PathPrefix(TRIE, key, m, n);
  }

  /** Distinct keys have separated before the digits run out. */
  lemma WaysSeparate(k: nat, l: nat, n: nat)
    requires n <= LEVEL_MAX + 1 && k != l && Way(k, n) == Way(l, n)
    ensures n <= LEVEL_MAX
  {
    if n == LEVEL_MAX + 1 {
      FullPath(TRIE, k, l);
    }
  }

  lemma ThroughParent(k: nat, p: Path)
    requires Through(k, p) && |p| > 1
    ensures Through(k, Parent(p)) && p[|p| - 1] < TREE_MAX && p == Parent(p) + [p[|p| - 1]]
  {
    hide Way;
    WayThrough(k, p);
    WayNext(k, |p| - 2);
    ThroughWay(k, |p| - 2);
  }

  lemma ThroughChild(k: nat, p: Path)
    requires Through(k, p) && |p| <= LEVEL_MAX + 1
    ensures Fits(TRIE) && Digit(TRIE, k, |p| - 1) < TREE_MAX
    ensures Through(k, p + [Digit(TRIE, k, |p| - 1)])
  {
    hide Way;
    WayThrough(k, p);
    WayNext(k, |p| - 1);
    ThroughWay(k, |p|);
  }

  lemma ThroughRoot(k: nat, p: Path)
    requires Through(k, p) && |p| == 1 && k < Pow2(KEY_BIT)
    ensures p == [BucketOf(TRIE, k)] && p[0] < BUCKET_MAX
  {
    assert Pow2(5) == 32;
    BucketBound(TRIE, k);
  }

  lemma CrowdedUp(keys: set<nat>, p: Path)
    requires Crowded(keys, p) && |p| > 1
    ensures Crowded(keys, Parent(p))
  {
    hide Through;
    var k, l :| k in keys && l in keys && k != l && Through(k, p) && Through(l, p);
    ThroughParent(k, p);
    ThroughParent(l, p);
  }

  lemma CrowdedDepth(keys: set<nat>, p: Path)
    requires Crowded(keys, p)
    ensures 1 <= |p| <= LEVEL_MAX + 1
  {
    hide Through, Way;
    var k, l :| k in keys && l in keys && k != l && Through(k, p) && Through(l, p);
    WayThrough(k, p);
    WayThrough(l, p);
    WaysSeparate(k, l, |p| - 1);
  }

  lemma CrowdedMore(keys: set<nat>, keys': set<nat>, p: Path)
    requires keys <= keys' && Crowded(keys, p)
    ensures Crowded(keys', p)
  {
    hide Through;
  }

  lemma CanonicalUpClosed(keys: set<nat>, trees: Trees)
    requires Canonical(keys, trees)
    ensures UpClosed(trees)
  {
    hide Crowded;
    forall p | p in trees && |p| > 1 ensures Parent(p) in trees {
      CrowdedUp(keys, p);
    }
  }

  /** All slots that two distinct keys share. */
  ghost function SharedSlots(keys: set<nat>): set<Path> {
    set k, n | k in keys && 0 <= n <= LEVEL_MAX && Crowded(keys, Way(k, n)) :: Way(k, n)
  }

  /** Which trees exist depends on the keys alone, not on the order of insertions and removals. */
  lemma TreesOfKeys(keys: set<nat>, trees: Trees)
    requires Canonical(keys, trees)
    ensures trees.Keys == SharedSlots(keys)
  {
    hide Way, Through;
    forall p | p in trees ensures p in SharedSlots(keys) {
      var k, l :| k in keys && l in keys && k != l && Through(k, p) && Through(l, p);
      CrowdedDepth(keys, p);
      WayThrough(k, p);
      assert p == Way(k, |p| - 1);
    }
  }

  lemma {:induction false} TreesAbove(trees: Trees, p: Path, m: nat)
    requires UpClosed(trees) && p in trees && 1 <= m <= |p|
    ensures p[..m] in trees
    decreases |p|
  {
    if m < |p| {
      TreesAbove(trees, Parent(p), m);
      assert Parent(p)[..m] == p[..m];
    } else {
      assert p[..m] == p;
    }
  }

  lemma {:induction false} CrowdedAbove(keys: set<nat>, p: Path, m: nat)
    requires Crowded(keys, p) && 1 <= m <= |p|
    ensures Crowded(keys, p[..m])
    decreases |p|
  {
    hide Crowded;
    if m < |p| {
      CrowdedUp(keys, p);
      CrowdedAbove(keys, Parent(p), m);
      assert Parent(p)[..m] == p[..m];
    } else {
      assert p[..m] == p;
    }
  }

  /** The walk of a key has ended at level n: the slots above are trees, those below do not exist. */
  ghost predicate EndsAt(trees: Trees, key: nat, n: nat) {
    n <= LEVEL_MAX + 1 && Way(key, n) !in trees && (n > 0 ==> Way(key, n - 1) in trees)
  }

  lemma OnlySlot(trees: Trees, key: nat, n: nat, q: Path)
    requires UpClosed(trees) && EndsAt(trees, key, n) && Through(key, q) && (q in trees || Present(trees, q)) && q != Way(key, n)
    ensures q in trees && |q| <= n
  {
    hide Through, Way;
    WayThrough(key, q);
    var m := |q| - 1;
    if m < n {
      WayPrefix(key, m, n - 1);
      TreesAbove(trees, Way(key, n - 1), m + 1);
    } else {
      var r := if q in trees then q else Parent(q);
      ThroughRoots(key, q);
      WayPrefix(key, n, |r| - 1);
      TreesAbove(trees, r, n + 1);
    }
  }

  lemma ThroughRoots(key: nat, q: Path)
    requires Through(key, q)
    ensures |q| > 1 ==> Parent(q) == Way(key, |q| - 2)
  {
    if |q| > 1 {
      WayThrough(key, q);
      WayNext(key, |q| - 2);
    }
  }

  /** A fresh key in an empty slot needs no tree. */
  lemma FreshCanonical(keys: set<nat>, trees: Trees, key: nat, n: nat)
    requires Canonical(keys, trees) && key !in keys && EndsAt(trees, key, n)
    requires forall k | k in keys :: !Through(k, Way(key, n))
    ensures Canonical(keys + {key}, trees)
  {
    hide Through, Way;
    CanonicalUpClosed(keys, trees);
    forall p ensures p in trees <==> Crowded(keys + {key}, p) {
      if p in trees {
        CrowdedMore(keys, keys + {key}, p);
      } else if Crowded(keys + {key}, p) {
        FreshNotCrowded(keys, trees, key, n, p);
      }
    }
  }

  lemma FreshNotCrowded(keys: set<nat>, trees: Trees, key: nat, n: nat, p: Path)
    requires UpClosed(trees) && EndsAt(trees, key, n) && p !in trees && Crowded(keys + {key}, p)
    ensures Crowded(keys, p) || Under(Way(key, n), p)
    ensures Under(Way(key, n), p) ==> exists k | k in keys :: Through(k, Way(key, n))
  {
    hide Through, Way;
    var k, l :| k in keys + {key} && l in keys + {key} && k != l && Through(k, p) && Through(l, p);
    if Through(key, p) {
      WayThrough(key, p);
      if |p| <= n {
        WayPrefix(key, |p| - 1, n - 1);
        TreesAbove(trees, Way(key, n - 1), |p|);
      }
      WayPrefix(key, n, |p| - 1);
    }
    if Under(Way(key, n), p) {
      var other := if k == key then l else k;
      WayThrough(other, p);
      WayPrefix(other, n, |p| - 1);
      ThroughWay(other, n);
    }
  }

  /** Insertion below slot i of the key: two keys collide there, and no tree is missing elsewhere. */
  ghost predicate Growing(keys: set<nat>, trees: Trees, key: nat, other: nat, i: nat) {
    && EndsAt(trees, key, i) && UpClosed(trees)
    && key != other && key in keys && other in keys && Through(other, Way(key, i))
    && (forall k | k in keys && Through(k, Way(key, i)) :: k == key || k == other)
    && (forall p | p in trees :: Crowded(keys, p))
    && (forall p | Crowded(keys, p) && p !in trees :: Under(Way(key, i), p))
  }

  lemma GrowStart(keys: set<nat>, trees: Trees, key: nat, other: nat, n: nat)
    requires Canonical(keys, trees) && key !in keys && EndsAt(trees, key, n) && Sole(keys, Way(key, n), other)
    ensures Growing(keys + {key}, trees, key, other, n)
  {
    hide Through, Way;
    CanonicalUpClosed(keys, trees);
    forall p | p in trees ensures Crowded(keys + {key}, p) {
      CrowdedMore(keys, keys + {key}, p);
    }
    forall p | Crowded(keys + {key}, p) && p !in trees ensures Under(Way(key, n), p) {
      FreshNotCrowded(keys, trees, key, n, p);
    }
  }

  lemma GrowCollides(keys: set<nat>, trees: Trees, key: nat, other: nat, i: nat)
    requires Growing(keys, trees, key, other, i)
    ensures i <= LEVEL_MAX && Crowded(keys, Way(key, i)) && Way(other, i) == Way(key, i)
  {
    hide Way, Through, UpClosed;
    WayThrough(other, Way(key, i));
    WaysSeparate(key, other, i);
    ThroughWay(key, i);
  }

  /** Whoever goes on from the new tree is one of the two keys. */
  lemma GrowChildren(keys: set<nat>, trees: Trees, key: nat, other: nat, i: nat, q: Path, k: nat)
    requires Growing(keys, trees, key, other, i) && i <= LEVEL_MAX && Way(other, i) == Way(key, i)
    requires |q| > 1 && Parent(q) == Way(key, i) && k in keys && Through(k, q)
    ensures (k == key && q == Way(key, i + 1)) || (k == other && q == Way(other, i + 1))
  {
    hide Way, Through;
    ThroughParent(k, q);
    WayThrough(k, q);
  }

  lemma GrowDeeper(keys: set<nat>, trees: Trees, key: nat, other: nat, i: nat, t: Tree)
    requires Growing(keys, trees, key, other, i) && i <= LEVEL_MAX && Way(other, i + 1) == Way(key, i + 1)
    requires Way(other, i) == Way(key, i) && UpClosed(trees[Way(key, i) := t]) && Crowded(keys, Way(key, i))
    ensures Growing(keys, trees[Way(key, i) := t], key, other, i + 1)
  {
    hide Way, Through, UpClosed;
    var trees' := trees[Way(key, i) := t];
    WayNext(key, i);
    ThroughWay(other, i + 1);
    assert Way(key, i + 1) !in trees' by {
      if Way(key, i + 1) in trees {
        assert UpClosed(trees);
        ParentTree(trees, Way(key, i + 1));
      }
    }
    forall k | k in keys && Through(k, Way(key, i + 1)) ensures k == key || k == other {
      GrowChildren(keys, trees, key, other, i, Way(key, i + 1), k);
    }
    forall p | Crowded(keys, p) && p !in trees' ensures Under(Way(key, i + 1), p) {
      GrowBelow(keys, trees, key, other, i, p);
    }
  }

  lemma ParentTree(trees: Trees, p: Path)
    requires UpClosed(trees) && p in trees && |p| > 1
    ensures Parent(p) in trees
  {
  }

  /** A missing tree below a collision needs both keys on its way. */
  lemma GrowBelow(keys: set<nat>, trees: Trees, key: nat, other: nat, i: nat, p: Path)
    requires Growing(keys, trees, key, other, i) && i <= LEVEL_MAX && Way(other, i) == Way(key, i)
    requires Crowded(keys, p) && p !in trees && p != Way(key, i)
    ensures Under(Way(key, i + 1), p) && Way(key, i + 1) == Way(other, i + 1)
  {
    hide Way, Through;
    var k, l :| k in keys && l in keys && k != l && Through(k, p) && Through(l, p);
    WayThrough(k, p);
    WayThrough(l, p);
    WayPrefix(k, i, |p| - 1);
    WayPrefix(l, i, |p| - 1);
    ThroughWay(k, i);
    ThroughWay(l, i);
    WayPrefix(k, i + 1, |p| - 1);
    WayPrefix(l, i + 1, |p| - 1);
  }

  lemma GrowDone(keys: set<nat>, trees: Trees, key: nat, other: nat, i: nat, t: Tree)
    requires Growing(keys, trees, key, other, i) && i <= LEVEL_MAX && Way(other, i + 1) != Way(key, i + 1)
    requires Way(other, i) == Way(key, i) && Crowded(keys, Way(key, i))
    ensures Canonical(keys, trees[Way(key, i) := t])
    ensures Sole(keys, Way(key, i + 1), key) && Sole(keys, Way(other, i + 1), other)
  {
    hide Way, Through, Crowded;
    WayNext(key, i);
    WayNext(other, i);
    ThroughWay(key, i + 1);
    ThroughWay(other, i + 1);
    forall k | k in keys && Through(k, Way(key, i + 1)) ensures k == key {
      GrowChildren(keys, trees, key, other, i, Way(key, i + 1), k);
    }
    forall k | k in keys && Through(k, Way(other, i + 1)) ensures k == other {
      GrowChildren(keys, trees, key, other, i, Way(other, i + 1), k);
    }
    forall p | Crowded(keys, p) && p !in trees && p != Way(key, i) ensures false {
      GrowBelow(keys, trees, key, other, i, p);
    }
  }

  /** Removal of the last node of a key: above `level` there may be trees too many, on its way. */
  ghost predicate Shrinking(keys: set<nat>, trees: Trees, key: nat, level: nat) {
    && level <= LEVEL_MAX + 1 && UpClosed(trees)
    && (forall p | Crowded(keys, p) :: p in trees)
    && (forall p | p in trees :: Crowded(keys, p) || (1 <= |p| <= level && p == Way(key, |p| - 1)))
    && (forall p | p in trees :: Crowded(keys + {key}, p))
    && (level > 0 ==> Way(key, level - 1) in trees)
  }

  lemma ShrinkStart(keys: set<nat>, trees: Trees, key: nat, n: nat)
    requires Canonical(keys, trees) && EndsAt(trees, key, n) && key in keys
    ensures Shrinking(keys - {key}, trees, key, n)
  {
    hide Through, Way;
    CanonicalUpClosed(keys, trees);
    assert keys - {key} + {key} == keys;
    forall p | Crowded(keys - {key}, p) ensures p in trees {
      CrowdedMore(keys - {key}, keys, p);
    }
    forall p | p in trees ensures Crowded(keys - {key}, p) || (1 <= |p| <= n && p == Way(key, |p| - 1)) {
      if Through(key, p) {
        OnlySlot(trees, key, n, p);
        WayThrough(key, p);
      } else {
        assert Crowded(keys, p);
      }
    }
  }

  lemma ShrinkDone(keys: set<nat>, trees: Trees, key: nat)
    requires Shrinking(keys, trees, key, 0)
    ensures Canonical(keys, trees)
  {
    hide Crowded;
  }

  /** A shared slot stops the removal of trees: all above are shared too. */
  lemma ShrinkBlocked(keys: set<nat>, trees: Trees, key: nat, level: nat)
    requires level <= LEVEL_MAX && Shrinking(keys, trees, key, level + 1) && Crowded(keys, Way(key, level))
    ensures Canonical(keys, trees)
  {
    hide Crowded, Way;
    forall p | p in trees ensures Crowded(keys, p) {
      if !Crowded(keys, p) {
        WayPrefix(key, |p| - 1, level);
        CrowdedAbove(keys, Way(key, level), |p|);
      }
    }
  }

  lemma ShrinkChild(keys: set<nat>, trees: Trees, key: nat, level: nat, q: Path)
    requires level <= LEVEL_MAX && Shrinking(keys, trees, key, level + 1)
    requires q in trees && |q| > 1 && Parent(q) == Way(key, level)
    ensures Crowded(keys, q) && Crowded(keys, Way(key, level))
  {
    hide Crowded, Way;
    CrowdedUp(keys, q);
  }

  lemma ShrinkStep(keys: set<nat>, trees: Trees, key: nat, level: nat)
    requires level <= LEVEL_MAX && Shrinking(keys, trees, key, level + 1) && !Crowded(keys, Way(key, level))
    ensures forall q {:trigger Parent(q)} | q in trees && |q| > 1 :: Parent(q) != Way(key, level)
    ensures Shrinking(keys, trees - {Way(key, level)}, key, level)
  {
    hide Crowded, Way;
    forall q | q in trees && |q| > 1 ensures Parent(q) != Way(key, level) {
      if Parent(q) == Way(key, level) {
        ShrinkChild(keys, trees, key, level, q);
      }
    }
    if level > 0 {
      WayNext(key, level - 1);
    }
  }

  /** The tree held two keys, so one is left: its count of children is not zero. */
  lemma ShrinkOneLeft(keys: set<nat>, trees: Trees, key: nat, level: nat) returns (k: nat)
    requires level <= LEVEL_MAX && Shrinking(keys, trees, key, level + 1) && !Crowded(keys, Way(key, level))
    ensures Sole(keys, Way(key, level), k)
  {
    hide Through, Way;
    var p := Way(key, level);
    assert Crowded(keys + {key}, p);
    var l, m :| l in keys + {key} && m in keys + {key} && l != m && Through(l, p) && Through(m, p);
    k := if l == key then m else l;
    assert k in keys;
  }

  /** A key through a tree is found in the child that its next digit selects. */
  lemma KeyChild<D>(model: Model<D>, trees: Trees<D>, maps: Maps<D>, roots: seq<Slot<D>>, p: Path, k: nat) returns (d: nat)
    requires Filled(model, trees, maps, roots, {}) && p in trees && |p| <= LEVEL_MAX + 1
    requires (forall q | Crowded(model.Keys, q) :: q in trees) && (forall l | l in model :: model[l] != [])
    requires k in model && Through(k, p)
    ensures trees[p] in maps && |maps[trees[p]]| == TREE_MAX && d < TREE_MAX && maps[trees[p]][d] != Empty
    ensures maps[trees[p]][d].Leaf? ==> Sole(model.Keys, p + [d], k) && maps[trees[p]][d] == Leaf(model[k][0])
  {
    hide Content, Through, Crowded, Way;
    WayThrough(k, p);
    ThroughChild(k, p);
    d := Digit(TRIE, k, |p| - 1);
    var q := p + [d];
    ChildValue(model, trees, maps, roots, p, d);
    if q !in trees {
      NotCrowdedSole(model.Keys, q, k);
      SoleContent(model, trees, q, k);
    } else {
      TreeContent(model, trees, q);
    }
  }

  lemma ChildValue<D>(model: Model<D>, trees: Trees<D>, maps: Maps<D>, roots: seq<Slot<D>>, p: Path, d: nat)
    requires Filled(model, trees, maps, roots, {}) && p in trees && |p| >= 1 && d < TREE_MAX
    ensures trees[p] in maps && |maps[trees[p]]| == TREE_MAX
    ensures maps[trees[p]][d] == Content(model, trees, p + [d])
  {
    hide Content;
    assert Parent(p + [d]) == p;
    assert Present(trees, p + [d]);
  }

  lemma TreeContent<D>(model: Model<D>, trees: Trees<D>, p: Path)
    ensures Content(model, trees, p).Inner? <==> p in trees
    ensures p in trees ==> Content(model, trees, p) == Inner(trees[p])
  {
  }

  lemma NotCrowdedSole(keys: set<nat>, p: Path, k: nat)
    requires !Crowded(keys, p) && k in keys && Through(k, p)
    ensures Sole(keys, p, k)
  {
    hide Through;
  }

  /** A sub tree, or two lists: the slot of the tree is shared. */
  lemma SharedChildren<D>(model: Model<D>, trees: Trees<D>, maps: Maps<D>, roots: seq<Slot<D>>, key: nat, level: nat,
                          d: nat, e: nat)
    requires Filled(model, trees, maps, roots, {}) && level <= LEVEL_MAX && Shrinking(model.Keys, trees, key, level + 1)
    requires d < TREE_MAX && e < TREE_MAX
    requires var p := Way(key, level);
             && p in trees && trees[p] in maps && |maps[trees[p]]| == TREE_MAX
             && (maps[trees[p]][d].Inner? || (d != e && maps[trees[p]][d].Leaf? && maps[trees[p]][e].Leaf?))
    ensures Canonical(model.Keys, trees)
  {
    hide Content, Through, Way, Crowded, Canonical, Sole;
    var p := Way(key, level);
    ChildValue(model, trees, maps, roots, p, d);
    ChildValue(model, trees, maps, roots, p, e);
    TreeContent(model, trees, p + [d]);
    if maps[trees[p]][d].Inner? {
      assert Parent(p + [d]) == p;
      ShrinkChild(model.Keys, trees, key, level, p + [d]);
    } else {
      var k := LeafContent(model, trees, p + [d]);
      var l := LeafContent(model, trees, p + [e]);
      TwoBelow(model.Keys, p, d, e, k, l);
    }
    ShrinkBlocked(model.Keys, trees, key, level);
  }

  lemma TwoBelow(keys: set<nat>, p: Path, d: nat, e: nat, k: nat, l: nat)
    requires Sole(keys, p + [d], k) && Sole(keys, p + [e], l) && d != e && |p| >= 1
    ensures Crowded(keys, p)
  {
    hide Through, Way;
    ThroughParent(k, p + [d]);
    ThroughParent(l, p + [e]);
    assert Parent(p + [d]) == p && Parent(p + [e]) == p;
    WayThrough(k, p + [d]);
    WayThrough(l, p + [e]);
    assert (p + [d])[|p|] != (p + [e])[|p|];
  }

  /** At most one list and nothing else: there is exactly one, and it belongs into the slot of the tree. */
  lemma LastChild<D>(model: Model<D>, trees: Trees<D>, maps: Maps<D>, roots: seq<Slot<D>>, key: nat, level: nat, last: nat)
    requires Filled(model, trees, maps, roots, {}) && level <= LEVEL_MAX && Shrinking(model.Keys, trees, key, level + 1)
    requires forall l | l in model :: model[l] != []
    requires var p := Way(key, level);
             && p in trees && trees[p] in maps && |maps[trees[p]]| == TREE_MAX
             && forall d | 0 <= d < TREE_MAX && maps[trees[p]][d] != Empty :: d == last && maps[trees[p]][d].Leaf?
    ensures var p := Way(key, level);
            && !Crowded(model.Keys, p)
            && last < TREE_MAX && maps[trees[p]][last].Leaf?
            && Content(model, trees - {p}, p) == maps[trees[p]][last]
  {
    hide Content, Through, Way, Filled;
    var p := Way(key, level);
    if Crowded(model.Keys, p) {
      var k, l :| k in model && l in model && k != l && Through(k, p) && Through(l, p);
      OneChild(model, trees, maps, roots, p, last, k, l);
    }
    var k := ShrinkOneLeft(model.Keys, trees, key, level);
    OneChild(model, trees, maps, roots, p, last, k, k);
    SoleContent(model, trees - {p}, p, k);
  }

  lemma OneChild<D>(model: Model<D>, trees: Trees<D>, maps: Maps<D>, roots: seq<Slot<D>>, p: Path, last: nat, k: nat, l: nat)
    requires Filled(model, trees, maps, roots, {}) && p in trees && |p| <= LEVEL_MAX + 1
    requires (forall q | Crowded(model.Keys, q) :: q in trees) && (forall l | l in model :: model[l] != [])
    requires trees[p] in maps && |maps[trees[p]]| == TREE_MAX
    requires forall d | 0 <= d < TREE_MAX && maps[trees[p]][d] != Empty :: d == last && maps[trees[p]][d].Leaf?
    requires k in model && l in model && Through(k, p) && Through(l, p)
    ensures k == l && last < TREE_MAX && maps[trees[p]][last] == Leaf(model[k][0])
  {
    hide Content, Through, Crowded, Filled;
    var d := KeyChild(model, trees, maps, roots, p, k);
    var e := KeyChild(model, trees, maps, roots, p, l);
    assert Through(l, p + [e]);
  }
}
