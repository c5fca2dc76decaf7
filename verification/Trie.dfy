/**
 * tommy_trie: lists of equal keys hang below allocated trees of pointers.  `model` maps each stored
 * key to its nodes in insertion order; the trie is proved to be that map, and its trees to be exactly
 * the slots that two distinct stored keys share.
 */
module Trie {
  import opened Bits
  import opened TommyList
  import opened NodeSeqs
  import opened KeyedLists
  import opened TriePaths
  import opened TrieShape
  import opened TrieSlots
  import opened TrieCanon

  ghost function MapsOf<D>(blocks: set<Tree<D>>): Maps<D>
    reads blocks`slots
  {
    map t | t in blocks :: t.slots
  }

  lemma MapValues<D>(blocks: set<Tree<D>>)
    ensures MapsOf(blocks).Keys == blocks
    ensures forall t {:trigger t.slots} {:trigger MapsOf(blocks)[t]} | t in blocks :: MapsOf(blocks)[t] == t.slots
  {
  }

  /** A fresh key changes the content of the slot where its walk ends, and of no other. */
  lemma RemodelKey<D>(model: Model<D>, model': Model<D>, trees: Trees<D>, maps: Maps<D>, roots: seq<Slot<D>>,
                      key: nat, n: nat)
    requires Filled(model, trees, maps, roots, {}) && UpClosed(trees) && EndsAt(trees, key, n)
    requires model - {key} == model' - {key}
    ensures Filled(model', trees, maps, roots, {Way(key, n)})
  {
    hide Filled, Content, Through, Way, Present;
    forall q | Present(trees, q) && q !in {Way(key, n)} ensures Content(model, trees, q) == Content(model', trees, q) {
      if Through(key, q) {
        OnlySlot(trees, key, n, q);
      }
      ContentElsewhere(model, model', trees, key, q);
    }
    Remodel(model, model', trees, maps, roots, {}, {Way(key, n)});
  }

  lemma WayLevel(trees: Trees, key: nat, n: nat)
    requires EndsAt(trees, key, n)
    ensures n <= LEVEL_MAX + 1 && Way(key, n) !in trees
  {
  }

  lemma OnlyKey<D>(model: Model<D>, m: Model<D>, key: nat)
    requires key in m && m == model[key := m[key]]
    ensures model - {key} == m - {key}
  {
  }

  lemma OnlyKeyDropped<D>(model: Model<D>, key: nat, remove: Node<D>)
    requires key in model
    ensures model - {key} == Dropped(model, key, remove) - {key}
  {
    hide Without;
  }

  lemma FreshContent<D>(model: Model<D>, trees: Trees<D>, insert: Node<D>, key: nat, n: nat)
    requires Canonical(model.Keys, trees) && key !in model && EndsAt(trees, key, n)
    requires forall k | k in model :: !Through(k, Way(key, n))
    ensures Canonical(model[key := [insert]].Keys, trees)
    ensures Content(model[key := [insert]], trees, Way(key, n)) == Leaf(insert)
  {
    hide Through, Way, Content, Canonical;
    var m := model[key := [insert]];
    FreshCanonical(model.Keys, trees, key, n);
    assert m.Keys == model.Keys + {key};
    ThroughWay(key, n);
    SoleContent(m, trees, Way(key, n), key);
  }

  lemma DropContent<D>(model: Model<D>, trees: Trees<D>, remove: Node<D>, key: nat, n: nat)
    requires Canonical(model.Keys, trees) && key in model && EndsAt(trees, key, n) && Sole(model.Keys, Way(key, n), key)
    requires forall k | k in model :: model[k] != []
    ensures var m, s, p := Dropped(model, key, remove), Without(model[key], remove), Way(key, n);
            && (forall l | l in m :: m[l] != [])
            && Content(m, trees, p) == (if s == [] then Empty else Leaf(s[0]))
            && (if s == [] then Shrinking(m.Keys, trees, key, n) else Canonical(m.Keys, trees))
  {
    hide Through, Way, Content, Canonical, Without, Shrinking;
    var m, s, p := Dropped(model, key, remove), Without(model[key], remove), Way(key, n);
    if s == [] {
      NoContent(m, trees, p);
      ShrinkStart(model.Keys, trees, key, n);
      assert m.Keys == model.Keys - {key};
    } else {
      assert m.Keys == model.Keys;
      SoleContent(m, trees, p, key);
    }
  }

  /** A longer list with the same first node changes no content. */
  lemma RemodelTail<D>(model: Model<D>, trees: Trees<D>, maps: Maps<D>, roots: seq<Slot<D>>, key: nat, s: seq<Node<D>>)
    requires Filled(model, trees, maps, roots, {}) && key in model && model[key] != [] && s != [] && s[0] == model[key][0]
    ensures Filled(model[key := s], trees, maps, roots, {})
  {
    hide Filled, Content, Through, Present;
    var model' := model[key := s];
    assert model'.Keys == model.Keys;
    forall q | Present(trees, q) ensures Content(model, trees, q) == Content(model', trees, q) {
      if q !in trees && Sole(model.Keys, q, key) {
        SoleContent(model, trees, q, key);
        SoleContent(model', trees, q, key);
      } else {
        OtherSole(model, model', trees, key, q);
      }
    }
    Remodel(model, model', trees, maps, roots, {}, {});
  }

  lemma OtherSole<D>(model: Model<D>, model': Model<D>, trees: Trees<D>, key: nat, q: Path)
    requires model.Keys == model'.Keys && model - {key} == model' - {key}
    requires q in trees || !Sole(model.Keys, q, key)
    ensures Content(model, trees, q) == Content(model', trees, q)
  {
    hide Through;
    if q !in trees {
      if k :| Sole(model.Keys, q, k) {
        assert model[k] == (model - {key})[k] == model'[k];
        if model[k] != [] {
          SoleContent(model, trees, q, k);
          SoleContent(model', trees, q, k);
        }
      }
    }
  }

  /** `let_back`: the pointers to the trees on the way down. */
  ghost predicate Saved<D>(trees: Trees<D>, key: nat, level: nat, letBack: seq<(Tree?<D>, nat)>) {
    && level <= LEVEL_MAX + 1 && level <= |letBack|
    && forall j | 0 <= j < level :: PointsTo(trees, Way(key, j), letBack[j].0, letBack[j].1)
  }

  /** The pointers above a tree do not depend on it. */
  lemma SavedAbove<D>(trees: Trees<D>, key: nat, level: nat, letBack: seq<(Tree?<D>, nat)>)
    requires level <= LEVEL_MAX && Saved(trees, key, level + 1, letBack)
    ensures Saved(trees - {Way(key, level)}, key, level, letBack)
  {
    hide Way;
    forall j | 0 <= j < level ensures PointsTo(trees - {Way(key, level)}, Way(key, j), letBack[j].0, letBack[j].1) {
      assert PointsTo(trees, Way(key, j), letBack[j].0, letBack[j].1);
    }
  }

  class Trie<D> {
    const bucket: array<Slot<D>>
    var count: nat
    var nodeCount: nat
    ghost var model: Model<D>
    ghost var trees: Trees<D>
    ghost var nodes: set<Node<D>>
    ghost var blocks: set<Tree<D>>

    /** All slots outside `holes` hold what the keys of `m` say. */
    ghost predicate Wired(m: Model<D>, holes: set<Path>)
      reads `trees, `blocks, `nodeCount, bucket, blocks`slots
    {
      && Filled(m, trees, MapsOf(blocks), bucket[..], holes) && UpClosed(trees)
      && trees.Values <= blocks && nodeCount == |trees|
    }

    ghost predicate Tied()
      reads `model, `trees, `nodes, `blocks, `nodeCount, bucket, blocks`slots, nodes
    {
      && Keyed(model, nodes) && Lists(model, nodes)
      && Wired(model, {}) && Canonical(model.Keys, trees)
    }

    ghost predicate Valid()
      reads this, bucket, blocks, nodes
    {
      Tied() && count == |nodes|
    }

    constructor ()
      ensures Valid() && fresh(bucket) && model == map[] && nodes == {} && blocks == {}
    {
      bucket := new Slot<D>[BUCKET_MAX](_ => Empty);
      count := 0;
      nodeCount := 0;
      model := map[];
      trees := map[];
      nodes := {};
      blocks := {};
    }

    lemma Parts()
      requires Tied()
      ensures Keyed(model, nodes) && Lists(model, nodes) && Wired(model, {}) && Canonical(model.Keys, trees)
      ensures Filled(model, trees, MapsOf(blocks), bucket[..], {}) && UpClosed(trees)
      ensures forall k | k in model :: model[k] != []
    {
      hide Filled, UpClosed, Canonical, Pow2, IsList;
    }

    /** `node_count` is a function of the stored keys. */
    lemma NodeCount()
      requires Valid()
      ensures nodeCount == |SharedSlots(model.Keys)|
    {
      hide Filled, Keyed, Lists, SharedSlots, Canonical;
      TreesOfKeys(model.Keys, trees);
      assert |trees| == |trees.Keys|;
    }

    /** The slot of the key at level n, its pointer, and what it holds. */
    ghost predicate On(key: nat, n: nat, owner: Tree?<D>, index: nat, slot: Slot<D>)
      reads `model, `trees
    {
      && n <= LEVEL_MAX + 1 && PointsTo(trees, Way(key, n), owner, index)
      && slot == Content(model, trees, Way(key, n))
      && (n > 0 ==> Way(key, n - 1) in trees)
    }

    lemma WalkStart(key: nat)
      requires Tied() && key < Pow2(KEY_BIT)
      ensures var index := BucketOf(TRIE, key);
              index < bucket.Length && On(key, 0, null, index, bucket[index])
    {
      Parts();
      hide Tied, Wired, Content, UpClosed, Canonical, Pow2, Keyed, Lists;
      ThroughWay(key, 0);
      ThroughRoot(key, Way(key, 0));
      assert Present(trees, Way(key, 0));
    }

    lemma WalkStep(key: nat, n: nat, owner: Tree?<D>, index: nat, tree: Tree<D>)
      requires Tied() && On(key, n, owner, index, Inner(tree))
      ensures n <= LEVEL_MAX && Fits(TRIE) && n <= TRIE.depth && Way(key, n) in trees
      ensures var d := Digit(TRIE, key, n);
              d < |tree.slots| && On(key, n + 1, tree, d, tree.slots[d])
    {
      hide Content, Keyed, Lists, Through, Way, Pow2, Digit;
      TreeContent(model, trees, Way(key, n));
      CrowdedDepth(model.Keys, Way(key, n));
      WayNext(key, n);
      ChildValue(model, trees, MapsOf(blocks), bucket[..], Way(key, n), Digit(TRIE, key, n));
    }

    lemma WalkEnd(key: nat, n: nat, owner: Tree?<D>, index: nat, slot: Slot<D>)
      requires Tied() && On(key, n, owner, index, slot) && !slot.Inner?
      ensures EndsAt(trees, key, n)
      ensures slot == Empty ==> key !in model && forall k | k in model :: !Through(k, Way(key, n))
      ensures slot.Leaf? ==>
                && slot.node in nodes && slot.node.key in model && model[slot.node.key] != []
                && slot.node == model[slot.node.key][0]
                && Sole(model.Keys, Way(key, n), slot.node.key)
                && (slot.node.key != key ==> key !in model)
    {
      Parts();
      hide Tied, Content, Lists, Through, Way, Pow2, PointsTo, Filled, UpClosed;
      var p := Way(key, n);
      TreeContent(model, trees, p);
      ThroughWay(key, n);
      if slot == Empty {
        EmptyContent(model, trees, p);
      } else {
        var k := LeafContent(model, trees, p);
        OwnKey(model, nodes, k, slot.node);
      }
    }

    lemma MaskIs(key: nat, n: nat)
      requires n <= LEVEL_MAX
      ensures Fits(TRIE) && And(ShiftRight(key, TRIE.shift - TRIE.bit * n), TREE_MAX - 1) == Digit(TRIE, key, n)
    {
      assert Pow2(3) == 8;
    }

    /** The walk down to a list or an empty slot. */
    method Walk(key: nat) returns (owner: Tree?<D>, index: nat, slot: Slot<D>, shift: int, ghost n: nat)
      requires Tied() && key < Pow2(KEY_BIT)
      ensures On(key, n, owner, index, slot) && EndsAt(trees, key, n) && !slot.Inner?
      ensures shift == TRIE.shift - TRIE.bit * n
      ensures slot == Empty ==> key !in model && forall k | k in model :: !Through(k, Way(key, n))
      ensures slot.Leaf? ==>
                && slot.node in nodes && slot.node.key in model && model[slot.node.key] != []
                && slot.node == model[slot.node.key][0]
                && Sole(model.Keys, Way(key, n), slot.node.key)
                && (slot.node.key != key ==> key !in model)
    {
      hide Tied, Pow2, On, EndsAt, Sole, Through;
      WalkStart(key);
      owner, index := null, ShiftRight(key, TRIE.shift);
      slot := bucket[index];
      n := 0;
      shift := TRIE.shift;
      while slot.Inner?
        invariant On(key, n, owner, index, slot) && n <= LEVEL_MAX + 1 && shift == TRIE.shift - TRIE.bit * n
        decreases LEVEL_MAX + 1 - n
      {
        WalkStep(key, n, owner, index, slot.tree);
        MaskIs(key, n);
        owner, index := slot.tree, And(ShiftRight(key, shift), TREE_MAX - 1);
        slot := owner.slots[index];
        shift := shift - TRIE.bit;
        n := n + 1;
      }
      WalkEnd(key, n, owner, index, slot);
    }

    /** tommy_trie_bucket: the list of all and only the nodes with the key. */
    method Bucket(key: nat) returns (head: Node?<D>)
      requires Valid() && key < Pow2(KEY_BIT)
      ensures if key in model then model[key] != [] && head == model[key][0] && IsList(head, model[key]) else head == null
      ensures forall x | x in nodes :: x.key == key <==> key in model && x in model[key]
    {
      hide IsList, Wired, Canonical, Pow2, Through, Way, On, EndsAt, Sole;
      var _, _, slot, _, _ := Walk(key);
      if slot.Leaf? && slot.node.key == key {
        head := slot.node;
      } else {
        head := null;
      }
      forall x | x in nodes ensures x.key == key <==> key in model && x in model[key] {
        if key in model && x in model[key] {
          OwnKey(model, nodes, key, x);
        }
      }
    }

    /** `*let_ptr = value`. */
    method SetSlot(owner: Tree?<D>, index: nat, value: Slot<D>)
      requires if owner == null then index < bucket.Length else owner in blocks && index < |owner.slots|
      modifies bucket, (if owner == null then {} else {owner})`slots
      ensures bucket[..] == SetRoot(old(bucket[..]), owner, index, value)
      ensures MapsOf(blocks) == SetMap(old(MapsOf(blocks)), owner, index, value)
    {
      if owner == null {
        bucket[index] := value;
      } else {
        owner.slots := owner.slots[index := value];
      }
    }

    /** Puts the right value into a slot. */
    method Write(owner: Tree?<D>, index: nat, value: Slot<D>, ghost m: Model<D>, ghost holes: set<Path>, ghost p: Path)
      requires Wired(m, holes) && PointsTo(trees, p, owner, index) && value == Content(m, trees, p)
      modifies bucket, blocks`slots
      ensures Wired(m, holes - {p})
    {
      hide Filled, UpClosed, PointsTo, Content, SetMap, SetRoot, MapsOf;
      WriteSlot(m, trees, MapsOf(blocks), bucket[..], holes, p, owner, index, value);
      MapValues(blocks);
      SetSlot(owner, index, value);
    }

    ghost method Adopt(m: Model<D>, all: set<Node<D>>)
      requires Keyed(m, all) && Lists(m, all) && Wired(m, {}) && Canonical(m.Keys, trees)
      modifies `model, `nodes
      ensures Tied() && model == m && nodes == all
    {
      hide Keyed, Lists, Filled, UpClosed, MapsOf, Canonical;
      model, nodes := m, all;
    }

    /** A changed model leaves the storage as it is. */
    lemma Rewired(m: Model<D>, holes: set<Path>)
      requires Wired(model, {}) && Filled(m, trees, MapsOf(blocks), bucket[..], holes)
      ensures Wired(m, holes)
    {
      hide Filled, UpClosed;
    }

    lemma FreshFacts(insert: Node<D>, key: nat, n: nat)
      requires Tied() && key !in model && EndsAt(trees, key, n) && forall k | k in model :: !Through(k, Way(key, n))
      ensures Wired(model[key := [insert]], {Way(key, n)}) && Canonical(model[key := [insert]].Keys, trees)
      ensures Content(model[key := [insert]], trees, Way(key, n)) == Leaf(insert)
    {
      Parts();
      hide *;
      ghost var m := model[key := [insert]];
      OnlyKey(model, m, key);
      RemodelKey(model, m, trees, MapsOf(blocks), bucket[..], key, n);
      FreshContent(model, trees, insert, key, n);
      WayLevel(trees, key, n);
      Rewired(m, {Way(key, n)});
    }

    /** A key without a list, in an empty slot. */
    method PutFresh(owner: Tree?<D>, index: nat, insert: Node<D>, key: nat, ghost n: nat)
      requires Tied() && key < Pow2(KEY_BIT) && insert !in nodes && insert.key == key && key !in model
      requires EndsAt(trees, key, n) && PointsTo(trees, Way(key, n), owner, index)
      requires forall k | k in model :: !Through(k, Way(key, n))
      modifies `model, `nodes, bucket, blocks`slots, insert`next, insert`prev
      ensures Tied() && model == old(model)[key := [insert]] && nodes == old(nodes) + {insert}
    {
      hide *;
      Parts();
      FreshFacts(insert, key, n);
      KeyedInsert(model, nodes, insert);
      FreshLists(model, nodes, key, insert);
      ghost var m, p := model[key := [insert]], EndLevel(key, n);
      var first := InsertFirst(insert);
      FreshLists(model, nodes, key, insert);
      Write(owner, index, Leaf(first), m, {p}, p);
      assert {p} - {p} == {};
      Adopt(m, nodes + {insert});
    }

    ghost function EndLevel(key: nat, n: nat): (p: Path)
      requires EndsAt(trees, key, n)
      reads `trees
      ensures n <= LEVEL_MAX + 1 && p == Way(key, n)
    {
      Way(key, n)
    }

    /** A key that is stored: the node joins the end of its list. */
    method AppendSame(head: Node<D>, insert: Node<D>, key: nat)
      requires Tied() && key in model && model[key] != [] && head == model[key][0] && insert !in nodes
      requires insert.key == key && key < Pow2(KEY_BIT)
      modifies `model, `nodes, nodes`next, nodes`prev, insert`next, insert`prev
      ensures Tied() && model == old(model)[key := old(model)[key] + [insert]] && nodes == old(nodes) + {insert}
    {
      hide *;
      Parts();
      AppendFacts(model, nodes, insert, key);
      ghost var s := model[key];
      ghost var m := model[key := s + [insert]];
      SameKeys(m, key);
      InsertTailNotEmpty(head, insert, s);
      ElemsAppend(s, insert, nodes);
      ListsJoin(model, nodes - Elems(s), key, s + [insert], nodes + {insert});
      Adopt(m, nodes + {insert});
    }

    lemma SameKeys(m: Model<D>, key: nat)
      requires Tied() && key in model && model[key] != [] && key in m && m[key] != [] && m[key][0] == model[key][0]
      requires m == model[key := m[key]]
      ensures Wired(m, {}) && Canonical(m.Keys, trees)
    {
      Parts();
      hide Tied, Filled, UpClosed, Keyed, Lists, Crowded;
      RemodelTail(model, trees, MapsOf(blocks), bucket[..], key, m[key]);
      assert m.Keys == model.Keys;
    }

    /** Converts an empty slot to a tree, blank so far. */
    method Allocate(owner: Tree?<D>, index: nat, ghost m: Model<D>, ghost p: Path,
                    ghost children: set<Path>) returns (tree: Tree<D>)
      requires Wired(m, {p}) && PointsTo(trees, p, owner, index) && p !in trees && p !in children
      requires forall q {:trigger Parent(q)} | |q| > 1 && Parent(q) == p && q !in children :: forall k | k in m :: !Through(k, q)
      modifies `trees, `blocks, `nodeCount, bucket, blocks`slots
      ensures fresh(tree) && blocks == old(blocks) + {tree} && trees == old(trees)[p := tree]
      ensures |tree.slots| == TREE_MAX && Wired(m, children)
    {
      hide Filled, UpClosed, PointsTo, Content, SetMap, SetRoot, MapsOf, Storage, Present;
      tree := new Tree();
      AllocFacts(m, p, owner, index, tree, children);
      nodeCount := nodeCount + 1;
      blocks := blocks + {tree};
      trees := trees[p := tree];
      TreeContent(m, trees, p);
      Write(owner, index, Inner(tree), m, {p} + children, p);
      assert {p} + children - {p} == children;
      WiredLength(m, children, p);
    }

    lemma WiredLength(m: Model<D>, holes: set<Path>, p: Path)
      requires Wired(m, holes) && p in trees
      ensures |trees[p].slots| == TREE_MAX
    {
    }

    lemma AllocFacts(m: Model<D>, p: Path, owner: Tree?<D>, index: nat, tree: Tree<D>, children: set<Path>)
      requires Wired(m, {p}) && PointsTo(trees, p, owner, index) && p !in trees && tree !in blocks && tree.slots == Blank()
      requires forall q {:trigger Parent(q)} | |q| > 1 && Parent(q) == p && q !in children :: forall k | k in m :: !Through(k, q)
      ensures Filled(m, trees[p := tree], MapsOf(blocks + {tree}), bucket[..], {p} + children) && UpClosed(trees[p := tree])
      ensures trees[p := tree].Values <= blocks + {tree} && |trees[p := tree]| == |trees| + 1
      ensures PointsTo(trees[p := tree], p, owner, index)
    {
      PointsToPresent(p, owner, index);
      AllocTree(m, trees, MapsOf(blocks), bucket[..], p, tree, children);
      assert MapsOf(blocks + {tree}) == MapsOf(blocks)[tree := Blank()];
    }

    lemma PointsToPresent(p: Path, owner: Tree?<D>, index: nat)
      requires PointsTo(trees, p, owner, index)
      ensures Present(trees, p)
    {
    }

    /** One more tree on the common way of two keys. */
    method AddLevel(owner: Tree?<D>, index: nat, ghost m: Model<D>, ghost key: nat, ghost other: nat,
                    ghost i: nat) returns (tree: Tree<D>)
      requires i <= LEVEL_MAX && Growing(m.Keys, trees, key, other, i) && Way(other, i) == Way(key, i)
      requires Wired(m, {Way(key, i)}) && PointsTo(trees, Way(key, i), owner, index)
      modifies `trees, `blocks, `nodeCount, bucket, blocks`slots
      ensures fresh(tree) && blocks == old(blocks) + {tree} && trees == old(trees)[Way(key, i) := tree]
      ensures |tree.slots| == TREE_MAX && Wired(m, {Way(key, i + 1), Way(other, i + 1)})
    {
      hide Wired, PointsTo, Through, Way;
      ghost var p, children := Way(key, i), {Way(key, i + 1), Way(other, i + 1)};
      forall q | |q| > 1 && Parent(q) == p && q !in children ensures forall k | k in m :: !Through(k, q) {
        forall k | k in m ensures !Through(k, q) {
          if Through(k, q) {
            GrowChildren(m.Keys, trees, key, other, i, q, k);
          }
        }
      }
      tree := Allocate(owner, index, m, p, children);
    }

    lemma Separated(m: Model<D>, above: Trees<D>, key: nat, other: nat, i: nat, tree: Tree<D>)
      requires i <= LEVEL_MAX && Growing(m.Keys, above, key, other, i) && Way(other, i) == Way(key, i)
      requires Crowded(m.Keys, Way(key, i)) && trees == above[Way(key, i) := tree]
      requires Fits(TRIE) && Digit(TRIE, key, i) != Digit(TRIE, other, i) && m[key] != [] && m[other] != []
      ensures Digit(TRIE, key, i) < TREE_MAX && Digit(TRIE, other, i) < TREE_MAX && Way(key, i + 1) != Way(other, i + 1)
      ensures Canonical(m.Keys, trees)
      ensures Content(m, trees, Way(key, i + 1)) == Leaf(m[key][0])
      ensures Content(m, trees, Way(other, i + 1)) == Leaf(m[other][0])
      ensures PointsTo(trees, Way(key, i + 1), tree, Digit(TRIE, key, i))
      ensures PointsTo(trees, Way(other, i + 1), tree, Digit(TRIE, other, i))
    {
      hide Through, Way, Content;
      WayNext(key, i);
      WayNext(other, i);
      assert Way(key, i + 1)[i + 1] != Way(other, i + 1)[i + 1];
      GrowDone(m.Keys, above, key, other, i, tree);
      SoleContent(m, trees, Way(key, i + 1), key);
      SoleContent(m, trees, Way(other, i + 1), other);
    }

    lemma Deepened(m: Model<D>, above: Trees<D>, key: nat, other: nat, i: nat, tree: Tree<D>)
      requires i <= LEVEL_MAX && Growing(m.Keys, above, key, other, i) && Way(other, i) == Way(key, i)
      requires Crowded(m.Keys, Way(key, i)) && trees == above[Way(key, i) := tree] && UpClosed(trees)
      requires Fits(TRIE) && Digit(TRIE, key, i) == Digit(TRIE, other, i)
      ensures Digit(TRIE, key, i) < TREE_MAX && {Way(key, i + 1), Way(other, i + 1)} == {Way(key, i + 1)}
      ensures Growing(m.Keys, trees, key, other, i + 1)
      ensures PointsTo(trees, Way(key, i + 1), tree, Digit(TRIE, key, i))
    {
      hide Through, Way, Crowded, UpClosed, Growing;
      WayNext(key, i);
      WayNext(other, i);
      GrowDeeper(m.Keys, above, key, other, i, tree);
    }

    lemma ExpandFacts(insert: Node<D>, key: nat, other: nat, n: nat)
      requires Tied() && key !in model && EndsAt(trees, key, n) && Sole(model.Keys, Way(key, n), other)
      ensures Wired(model[key := [insert]], {Way(key, n)}) && Growing(model[key := [insert]].Keys, trees, key, other, n)
    {
      Parts();
      hide Tied, Wired, Filled, UpClosed, Canonical, Through, Way, Keyed, Lists, Content, Growing, Sole;
      var m := model[key := [insert]];
      RemodelKey(model, m, trees, MapsOf(blocks), bucket[..], key, n);
      Rewired(m, {Way(key, n)});
      GrowStart(model.Keys, trees, key, other, n);
      assert m.Keys == model.Keys + {key};
    }

    lemma WiredUp(m: Model<D>, holes: set<Path>)
      requires Wired(m, holes)
      ensures UpClosed(trees)
    {
    }

    lemma LevelLeft(i: nat)
      requires i <= LEVEL_MAX
      ensures TRIE.shift - TRIE.bit * i >= 0
    {
    }

    /** The two keys go different ways: each list gets its slot. */
    method Fork(tree: Tree<D>, d: nat, e: nat, node: Node<D>, insert: Node<D>, key: nat, ghost above: Trees<D>, ghost i: nat)
      requires key !in model && Lists(model, nodes) && Keyed(model[key := [insert]], nodes + {insert}) && insert !in nodes
      requires node.key in model && model[node.key] != [] && node == model[node.key][0]
      requires i <= LEVEL_MAX && Growing(model[key := [insert]].Keys, above, key, node.key, i)
      requires Way(node.key, i) == Way(key, i)
      requires Crowded(model[key := [insert]].Keys, Way(key, i)) && trees == above[Way(key, i) := tree]
      requires Fits(TRIE) && e == Digit(TRIE, key, i) != Digit(TRIE, node.key, i) == d
      requires Wired(model[key := [insert]], {Way(key, i + 1), Way(node.key, i + 1)})
      modifies `model, `nodes, bucket, blocks`slots, insert`next, insert`prev
      ensures Tied() && model == old(model)[key := [insert]] && nodes == old(nodes) + {insert}
    {
      hide *;
      ghost var m, p, q := model[key := [insert]], Way(node.key, i + 1), Way(key, i + 1);
      Separated(m, above, key, node.key, i, tree);
      Write(tree, d, Leaf(node), m, {q, p}, p);
      FreshLists(model, nodes, key, insert);
      var first := InsertFirst(insert);
      FreshLists(model, nodes, key, insert);
      assert {q, p} - {p} == {q} && {q} - {q} == {};
      Write(tree, e, Leaf(first), m, {q}, q);
      Adopt(m, nodes + {insert});
    }

    /** A slot with the list of another key: trees are added until the two keys go different ways. */
    method Expand(owner0: Tree?<D>, index0: nat, node: Node<D>, insert: Node<D>, key: nat, shift0: int, ghost n: nat)
      requires Tied() && key < Pow2(KEY_BIT) && insert !in nodes && insert.key == key && key !in model
      requires EndsAt(trees, key, n) && PointsTo(trees, Way(key, n), owner0, index0) && shift0 == TRIE.shift - TRIE.bit * n
      requires node in nodes && node.key in model && model[node.key] != [] && node == model[node.key][0]
      requires Sole(model.Keys, Way(key, n), node.key)
      modifies `model, `nodes, `trees, `blocks, `nodeCount, bucket, blocks`slots, insert`next, insert`prev
      ensures Tied() && model == old(model)[key := [insert]] && nodes == old(nodes) + {insert}
      ensures old(blocks) <= blocks && fresh(blocks - old(blocks))
    {
      hide *;
      Parts();
      KeyedInsert(model, nodes, insert);
      FreshLists(model, nodes, key, insert);
      ghost var m, other := model[key := [insert]], node.key;
      ghost var i := n;
      ExpandFacts(insert, key, other, n);
      GrowCollides(m.Keys, trees, key, other, n);
      var owner, index := owner0, index0;
      var shift := shift0;
      while true
        invariant i <= LEVEL_MAX && shift == TRIE.shift - TRIE.bit * i
        invariant Growing(m.Keys, trees, key, other, i) && Crowded(m.Keys, Way(key, i)) && Way(other, i) == Way(key, i)
        invariant Wired(m, {Way(key, i)}) && PointsTo(trees, Way(key, i), owner, index)
        invariant old(blocks) <= blocks && fresh(blocks - old(blocks))
        invariant model == old(model) && nodes == old(nodes) && Lists(model, nodes) && Keyed(m, nodes + {insert})
        decreases LEVEL_MAX - i
      {
        LevelLeft(i);
        ghost var above := trees;
        var tree := AddLevel(owner, index, m, key, other, i);
        MaskIs(node.key, i);
        MaskIs(key, i);
        var d := And(ShiftRight(node.key, shift), TREE_MAX - 1);
        var e := And(ShiftRight(key, shift), TREE_MAX - 1);
        if d != e {
          Fork(tree, d, e, node, insert, key, above, i);
          return;
        }
        WiredUp(m, {Way(key, i + 1), Way(other, i + 1)});
        Deepened(m, above, key, other, i, tree);
        GrowCollides(m.Keys, trees, key, other, i + 1);
        owner, index := tree, d;
        shift := shift - TRIE.bit;
        i := i + 1;
      }
    }

    /** trie_bucket_insert. */
    method BucketInsert(insert: Node<D>, key: nat)
      requires Tied() && key < Pow2(KEY_BIT) && insert !in nodes && insert.key == key
      modifies `model, `nodes, `trees, `blocks, `nodeCount, bucket, blocks`slots, nodes`next, nodes`prev, insert`next, insert`prev
      ensures Tied() && model == old(model)[key := Listed(old(model), key) + [insert]]
      ensures nodes == old(nodes) + {insert}
      ensures old(blocks) <= blocks && fresh(blocks - old(blocks))
    {
      hide *;
      var owner, index, slot, shift, n := Walk(key);
      OnPointsTo(key, n, owner, index, slot);
      ListedAppend(model, key, insert);
      if slot == Empty {
        PutFresh(owner, index, insert, key, n);
      } else if slot.node.key == key {
        AppendSame(slot.node, insert, key);
      } else {
        Expand(owner, index, slot.node, insert, key, shift, n);
      }
    }

    /** tommy_trie_insert. */
    method Insert(insert: Node<D>, data: D, key: nat)
      requires Valid() && key < Pow2(KEY_BIT) && insert !in nodes
      modifies this, bucket, blocks`slots, insert, nodes`next, nodes`prev
      ensures Valid() && insert.data == data && insert.key == key
      ensures model == old(model)[key := Listed(old(model), key) + [insert]]
      ensures nodes == old(nodes) + {insert}
      ensures old(blocks) <= blocks && fresh(blocks - old(blocks))
    {
      hide Tied, Pow2, Listed;
      insert.data := data;
      insert.key := key;
      BucketInsert(insert, key);
      count := count + 1;
    }

    /** The walk of the removal, which keeps its way; a level more would overflow `let_back`. */
    method WalkBack(key: nat, letBack: array<(Tree?<D>, nat)>)
      returns (owner: Tree?<D>, index: nat, slot: Slot<D>, level: nat)
      requires Tied() && key < Pow2(KEY_BIT) && letBack.Length == LEVEL_MAX + 1
      modifies letBack
      ensures On(key, level, owner, index, slot) && EndsAt(trees, key, level) && !slot.Inner?
      ensures Saved(trees, key, level, letBack[..])
      ensures slot == Empty ==> key !in model
      ensures slot.Leaf? ==>
                && slot.node in nodes && slot.node.key in model && model[slot.node.key] != []
                && slot.node == model[slot.node.key][0]
                && Sole(model.Keys, Way(key, level), slot.node.key)
                && (slot.node.key != key ==> key !in model)
    {
      hide Tied, Pow2, On, EndsAt, Sole, Through, PointsTo;
      WalkStart(key);
      owner, index := null, ShiftRight(key, TRIE.shift);
      slot := bucket[index];
      level := 0;
      var shift: int := TRIE.shift;
      while slot.Inner?
        invariant On(key, level, owner, index, slot) && level <= LEVEL_MAX + 1 && shift == TRIE.shift - TRIE.bit * level
        invariant Saved(trees, key, level, letBack[..])
        decreases LEVEL_MAX + 1 - level
      {
        WalkStep(key, level, owner, index, slot.tree);
        OnPointsTo(key, level, owner, index, slot);
        MaskIs(key, level);
        letBack[level] := (owner, index);
        level := level + 1;
        owner, index := slot.tree, And(ShiftRight(key, shift), TREE_MAX - 1);
        slot := owner.slots[index];
        shift := shift - TRIE.bit;
      }
      WalkEnd(key, level, owner, index, slot);
    }

    lemma OnPointsTo(key: nat, n: nat, owner: Tree?<D>, index: nat, slot: Slot<D>)
      requires On(key, n, owner, index, slot)
      ensures n <= LEVEL_MAX + 1 && PointsTo(trees, Way(key, n), owner, index)
    {
    }

    /** The loop over the branches of a tree: whether it must stay, and its last child. */
    static method CountChildren(tree: Tree<D>) returns (stays: bool, count: nat, last: nat, ghost d: nat, ghost e: nat)
      requires |tree.slots| == TREE_MAX
      ensures stays ==> d < TREE_MAX && e < TREE_MAX
                        && (tree.slots[d].Inner? || (d != e && tree.slots[d].Leaf? && tree.slots[e].Leaf?))
      ensures !stays ==> count <= 1 && (count == 0 ==> forall i | 0 <= i < TREE_MAX :: tree.slots[i] == Empty)
      ensures !stays ==> forall i | 0 <= i < TREE_MAX && tree.slots[i] != Empty :: i == last && tree.slots[i].Leaf?
    {
      count, last, d, e := 0, 0, 0, 0;
      var i := 0;
      while i < TREE_MAX
        invariant i <= TREE_MAX && count <= 1 && last < TREE_MAX && d < TREE_MAX
        invariant count == 0 ==> forall j | 0 <= j < i :: tree.slots[j] == Empty
        invariant count == 1 ==> last < i && d == last && tree.slots[last].Leaf?
                                 && forall j | 0 <= j < i && j != last :: tree.slots[j] == Empty
      {
        if tree.slots[i] != Empty {
          if tree.slots[i].Inner? {
            d := i;
            return true, count, last, d, e;
          }
          count := count + 1;
          if count > 1 {
            e := i;
            return true, count, last, d, e;
          }
          last := i;
          d := i;
        }
        i := i + 1;
      }
      stays := false;
    }

    lemma LastChildFacts(m: Model<D>, key: nat, level: nat, stays: bool, count: nat, last: nat, d: nat, e: nat)
      requires Wired(m, {}) && level <= LEVEL_MAX && Shrinking(m.Keys, trees, key, level + 1)
      requires forall l | l in m :: m[l] != []
      requires Way(key, level) in trees
      requires var s := trees[Way(key, level)].slots;
               && |s| == TREE_MAX
               && (if stays then d < TREE_MAX && e < TREE_MAX && (s[d].Inner? || (d != e && s[d].Leaf? && s[e].Leaf?))
                   else count <= 1 && (count == 0 ==> forall i | 0 <= i < TREE_MAX :: s[i] == Empty)
                        && forall i | 0 <= i < TREE_MAX && s[i] != Empty :: i == last && s[i].Leaf?)
      ensures stays ==> Canonical(m.Keys, trees)
      ensures !stays ==>
                var p := Way(key, level);
                && count == 1 && last < TREE_MAX && Content(m, trees - {p}, p) == trees[p].slots[last]
                && Shrinking(m.Keys, trees - {p}, key, level)
                && forall q {:trigger Parent(q)} | q in trees && |q| > 1 :: Parent(q) != p
    {
      hide Filled, Way, Content, Shrinking, Crowded, Canonical;
      WiredStorage(m, Way(key, level));
      if stays {
        SharedChildren(m, trees, MapsOf(blocks), bucket[..], key, level, d, e);
      } else {
        LastChild(m, trees, MapsOf(blocks), bucket[..], key, level, last);
        ShrinkStep(m.Keys, trees, key, level);
      }
    }

    lemma WiredStorage(m: Model<D>, p: Path)
      requires Wired(m, {}) && p in trees
      ensures Filled(m, trees, MapsOf(blocks), bucket[..], {})
      ensures trees[p] in blocks && trees[p] in MapsOf(blocks) && MapsOf(blocks)[trees[p]] == trees[p].slots
      ensures |trees[p].slots| == TREE_MAX
    {
    }

    lemma FreeFacts(m: Model<D>, p: Path)
      requires Wired(m, {}) && p in trees
      requires forall q {:trigger Parent(q)} | q in trees && |q| > 1 :: Parent(q) != p
      ensures Filled(m, trees - {p}, MapsOf(blocks - {trees[p]}), bucket[..], {p}) && UpClosed(trees - {p})
      ensures (trees - {p}).Values <= blocks - {trees[p]} && |trees - {p}| == nodeCount - 1
    {
      hide Content;
      FreeTree(m, trees, MapsOf(blocks), bucket[..], p);
      assert MapsOf(blocks - {trees[p]}) == MapsOf(blocks) - {trees[p]};
      assert trees == (trees - {p})[p := trees[p]];
    }

    /** The only list of a tree moves up into its slot, and the tree is freed. */
    method Collapse(owner: Tree?<D>, index: nat, tree: Tree<D>, last: nat, ghost m: Model<D>, ghost p: Path)
      requires Wired(m, {}) && p in trees && tree == trees[p] && PointsTo(trees, p, owner, index) && last < |tree.slots|
      requires Content(m, trees - {p}, p) == tree.slots[last]
      requires forall q {:trigger Parent(q)} | q in trees && |q| > 1 :: Parent(q) != p
      modifies `trees, `blocks, `nodeCount, bucket, blocks`slots
      ensures Wired(m, {}) && trees == old(trees) - {p} && blocks == old(blocks) - {tree}
    {
      hide Filled, UpClosed, Content, MapsOf;
      var child := tree.slots[last];
      FreeFacts(m, p);
      ParentStays(p, owner, index);
      nodeCount := nodeCount - 1;
      blocks := blocks - {tree};
      trees := trees - {p};
      Write(owner, index, child, m, {p}, p);
      assert {p} - {p} == {};
    }

    lemma ParentStays(p: Path, owner: Tree?<D>, index: nat)
      requires PointsTo(trees, p, owner, index)
      ensures PointsTo(trees - {p}, p, owner, index)
    {
    }

    lemma SavedSlot(m: Model<D>, key: nat, level: nat, letBack: seq<(Tree?<D>, nat)>)
      requires Wired(m, {}) && level <= LEVEL_MAX && Shrinking(m.Keys, trees, key, level + 1)
      requires Saved(trees, key, level + 1, letBack)
      ensures level < |letBack| && Way(key, level) in trees
      ensures var (owner, index), tree := letBack[level], trees[Way(key, level)];
              && PointsTo(trees, Way(key, level), owner, index) && |tree.slots| == TREE_MAX && tree in blocks
              && if owner == null then index < bucket.Length && bucket[index] == Inner(tree)
                 else index < |owner.slots| && owner.slots[index] == Inner(tree)
    {
      hide Way, Content;
      var p, owner, index := Way(key, level), letBack[level].0, letBack[level].1;
      assert PointsTo(trees, p, owner, index);
      SlotExists(trees, MapsOf(blocks), bucket[..], p, owner, index);
      TreeContent(m, trees, p);
      WiredStorage(m, p);
    }

    /** The `reduce` loop: from the deepest tree on the way upwards. */
    method Reduce(key: nat, level0: nat, letBack: array<(Tree?<D>, nat)>, ghost m: Model<D>)
      requires Wired(m, {}) && Shrinking(m.Keys, trees, key, level0) && forall l | l in m :: m[l] != []
      requires level0 <= LEVEL_MAX + 1 && Saved(trees, key, level0, letBack[..])
      modifies `trees, `blocks, `nodeCount, bucket, blocks`slots
      ensures Wired(m, {}) && Canonical(m.Keys, trees) && blocks <= old(blocks)
    {
      hide *;
      var level: nat := level0;
      while level > 0
        invariant level <= LEVEL_MAX + 1 && Wired(m, {}) && Shrinking(m.Keys, trees, key, level)
        invariant Saved(trees, key, level, letBack[..]) && blocks <= old(blocks)
      {
        level := level - 1;
        SavedSlot(m, key, level, letBack[..]);
        var owner, index := letBack[level].0, letBack[level].1;
        var tree := if owner == null then bucket[index].tree else owner.slots[index].tree;
        var stays, count, last, d, e := CountChildren(tree);
        LastChildFacts(m, key, level, stays, count, last, d, e);
        if stays {
          return;
        }
        assert count == 1;
        SavedAbove(trees, key, level, letBack[..]);
        Collapse(owner, index, tree, last, m, Way(key, level));
      }
      ShrinkDone(m.Keys, trees, key);
    }

    /** What the slots must hold when a node left the list of its key. */
    lemma DropFacts(remove: Node<D>, key: nat, level: nat)
      requires Tied() && key in model && DistinctNodes(model[key]) && remove in model[key]
      requires EndsAt(trees, key, level) && Sole(model.Keys, Way(key, level), key)
      ensures var m, s, p := Dropped(model, key, remove), Without(model[key], remove), Way(key, level);
              && Wired(m, {p}) && (forall l | l in m :: m[l] != [])
              && Content(m, trees, p) == (if s == [] then Empty else Leaf(s[0]))
              && (if s == [] then Shrinking(m.Keys, trees, key, level) else Canonical(m.Keys, trees))
    {
      Parts();
      hide *;
      ghost var m := Dropped(model, key, remove);
      OnlyKeyDropped(model, key, remove);
      WayLevel(trees, key, level);
      RemodelKey(model, m, trees, MapsOf(blocks), bucket[..], key, level);
      DropContent(model, trees, remove, key, level);
      Rewired(m, {Way(key, level)});
    }

    /** The steps after the walk: the node leaves its list, and trees without a second key are freed. */
    method TakeOut(remove: Node<D>, node: Node<D>, owner: Tree?<D>, index: nat, key: nat, level: nat,
                   letBack: array<(Tree?<D>, nat)>)
      requires Tied() && remove in nodes && remove.key == key && key in model && model[key] != [] && node == model[key][0]
      requires EndsAt(trees, key, level) && Sole(model.Keys, Way(key, level), key)
      requires PointsTo(trees, Way(key, level), owner, index) && level <= LEVEL_MAX + 1
      requires Saved(trees, key, level, letBack[..])
      modifies `model, `nodes, `trees, `blocks, `nodeCount, bucket, blocks`slots, nodes`next, nodes`prev
      ensures Tied() && nodes == old(nodes) - {remove} && model == Dropped(old(model), key, remove) && blocks <= old(blocks)
    {
      hide *;
      Parts();
      UnlinkFacts(model, nodes, remove, key);
      DropFacts(remove, key, level);
      ghost var m, p := Dropped(model, key, remove), Way(key, level);
      var first := Unlink(node, remove, model[key]);
      ListsDrop(model, nodes, key, remove, first);
      assert {p} - {p} == {};
      if first != null {
        Write(owner, index, Leaf(first), m, {p}, p);
      } else {
        Write(owner, index, Empty, m, {p}, p);
        Reduce(key, level, letBack, m);
      }
      Adopt(m, nodes - {remove});
    }

    /** trie_bucket_remove_existing: takes out the given node, or the first one of the key. */
    method BucketRemove(which: Node?<D>, key: nat) returns (remove: Node?<D>)
      requires Tied() && key < Pow2(KEY_BIT) && (which != null ==> which in nodes && which.key == key)
      modifies `model, `nodes, `trees, `blocks, `nodeCount, bucket, blocks`slots, nodes`next, nodes`prev
      ensures Tied() && blocks <= old(blocks)
      ensures remove == null <==> key !in old(model)
      ensures remove == null ==> which == null && model == old(model) && nodes == old(nodes)
      ensures remove != null ==>
                && remove in old(nodes) && nodes == old(nodes) - {remove}
                && old(model)[key] != [] && remove == (if which != null then which else old(model)[key][0])
                && model == Dropped(old(model), key, remove)
    {
      hide *;
      var letBack := new (Tree?<D>, nat)[LEVEL_MAX + 1](_ => (null, 0));
      var owner, index, slot, level := WalkBack(key, letBack);
      RemoveTarget(which, slot, key);
      if slot == Empty {
        return null;
      }
      remove := which;
      if remove == null {
        remove := slot.node;
        if remove.key != key {
          return null;
        }
      }
      OnPointsTo(key, level, owner, index, slot);
      TakeOut(remove, slot.node, owner, index, key, level, letBack);
    }

    lemma RemoveTarget(which: Node?<D>, slot: Slot<D>, key: nat)
      requires Tied() && (which != null ==> which in nodes && which.key == key) && !slot.Inner?
      requires slot == Empty ==> key !in model
      requires slot.Leaf? && slot.node.key != key ==> key !in model
      ensures slot == Empty ==> which == null
      ensures which != null ==> key in model && (slot.Leaf? ==> slot.node.key == key)
    {
      hide Pow2, Wired, Canonical, IsList;
    }

    /** tommy_trie_remove: the first node of the key leaves. */
    method Remove(key: nat) returns (removed: Node?<D>)
      requires Valid() && key < Pow2(KEY_BIT)
      modifies this, bucket, blocks`slots, nodes`next, nodes`prev
      ensures Valid() && blocks <= old(blocks)
      ensures if key in old(model)
              then old(model)[key] != [] && removed == old(model)[key][0]
                   && nodes == old(nodes) - {removed} && model == Dropped(old(model), key, removed)
              else removed == null && model == old(model) && nodes == old(nodes)
    {
      hide Tied, Pow2, Dropped;
      removed := BucketRemove(null, key);
      if removed != null {
        count := count - 1;
      }
    }

    lemma StoredKey(node: Node<D>)
      requires Tied() && node in nodes
      ensures node.key in model && node.key < Pow2(KEY_BIT)
    {
      hide Pow2, Wired, Canonical, IsList;
    }

    /** tommy_trie_remove_existing: the given node leaves, wherever it is in its list. */
    method RemoveExisting(node: Node<D>) returns (data: D)
      requires Valid() && node in nodes
      modifies this, bucket, blocks`slots, nodes`next, nodes`prev
      ensures Valid() && data == node.data && blocks <= old(blocks)
      ensures node.key in old(model) && nodes == old(nodes) - {node} && model == Dropped(old(model), node.key, node)
    {
      hide Tied, Pow2, Dropped;
      StoredKey(node);
      var removed := BucketRemove(node, node.key);
      assert removed == node;
      count := count - 1;
      data := removed.data;
    }

    /** A fresh key that comes and goes leaves the same map behind, and the same number of trees. */
    method InsertAndRemove(insert: Node<D>, data: D, key: nat)
      requires Valid() && key < Pow2(KEY_BIT) && insert !in nodes && key !in model
      modifies this, bucket, blocks`slots, insert, nodes`next, nodes`prev
      ensures Valid() && model == old(model) && nodes == old(nodes) && nodeCount == old(nodeCount)
    {
      hide Valid, Pow2, Dropped, Listed, SharedSlots;
      NodeCount();
      InsertThenDrop(model, key, insert);
      Insert(insert, data, key);
      var _ := RemoveExisting(insert);
      NodeCount();
    }
  }
}
