/**
 * What every slot of tommy_trie holds, as a function of the stored keys: a tree if at least two
 * distinct keys share the slot, the list of the key if there is one, nothing otherwise.
 */
module TrieSlots {
  import opened TommyList
  import opened TriePaths
  import opened TrieShape

  const TREE_MAX: nat := 8
  const BUCKET_MAX: nat := 32

  /** A pointer whose low bit tells a list from a tree. */
  datatype Slot<D> = Empty | Leaf(node: Node<D>) | Inner(tree: Tree<D>)

  class Tree<D> {
    var slots: seq<Slot<D>>

    constructor ()
      ensures slots == Blank()
    {
      slots := Blank();
    }
  }

  function Blank<D>(): seq<Slot<D>> {
    [Empty, Empty, Empty, Empty, Empty, Empty, Empty, Empty]
  }

  type Model<D> = map<nat, seq<Node<D>>>
  type Trees<D> = map<Path, Tree<D>>
  type Maps<D> = map<Tree<D>, seq<Slot<D>>>

  ghost predicate Through(key: nat, p: Path) {
    Fits(TRIE) && OnPath(TRIE, key, p)
  }

  ghost predicate Sole(keys: set<nat>, p: Path, k: nat) {
    k in keys && Through(k, p) && forall l | l in keys && Through(l, p) :: l == k
  }

  /** At least two distinct keys share the slot. */
  ghost predicate Crowded(keys: set<nat>, p: Path) {
    exists k, l :: k in keys && l in keys && k != l && Through(k, p) && Through(l, p)
  }

  ghost predicate Canonical(keys: set<nat>, trees: Trees) {
    forall p :: p in trees <==> Crowded(keys, p)
  }

  ghost function Content<D>(model: Model<D>, trees: Trees<D>, p: Path): Slot<D> {
    if p in trees then Inner(trees[p])
    else if exists k :: Sole(model.Keys, p, k) then
      var k :| Sole(model.Keys, p, k);
      if model[k] != [] then Leaf(model[k][0]) else Empty
    else Empty
  }

  lemma SoleContent<D>(model: Model<D>, trees: Trees<D>, p: Path, k: nat)
    requires Sole(model.Keys, p, k) && p !in trees && model[k] != []
    ensures Content(model, trees, p) == Leaf(model[k][0])
  {
    hide Through;
  }

  lemma NoContent<D>(model: Model<D>, trees: Trees<D>, p: Path)
    requires p !in trees && forall k | k in model :: !Through(k, p)
    ensures Content(model, trees, p) == Empty
  {
    hide Through;
  }

  lemma LeafContent<D>(model: Model<D>, trees: Trees<D>, p: Path) returns (k: nat)
    requires Content(model, trees, p).Leaf?
    ensures p !in trees && Sole(model.Keys, p, k)
    ensures model[k] != [] && Content(model, trees, p) == Leaf(model[k][0])
  {
    hide Through;
    k :| Sole(model.Keys, p, k) && model[k] != [] && Content(model, trees, p) == Leaf(model[k][0]);
  }

  lemma EmptyContent<D>(model: Model<D>, trees: Trees<D>, p: Path)
    requires Content(model, trees, p) == Empty && !Crowded(model.Keys, p)
    requires forall k | k in model :: model[k] != []
    ensures forall k | k in model :: !Through(k, p)
  {
    hide Through;
    forall k | k in model ensures !Through(k, p) {
      if Through(k, p) {
        assert Sole(model.Keys, p, k);
        SoleContent(model, trees, p, k);
      }
    }
  }

  /** Only the slots on the way of a key depend on it. */
  lemma ContentElsewhere<D>(model: Model<D>, model': Model<D>, trees: Trees<D>, key: nat, p: Path)
    requires model - {key} == model' - {key}
    requires p in trees || !Through(key, p)
    ensures Content(model, trees, p) == Content(model', trees, p)
  {
    hide Through;
    if p !in trees {
      forall k ensures Sole(model.Keys, p, k) <==> Sole(model'.Keys, p, k) {
        SoleElsewhere(model, model', key, p, k);
        SoleElsewhere(model', model, key, p, k);
      }
      if k :| Sole(model.Keys, p, k) {
        assert model[k] == (model - {key})[k] == model'[k];
        if model[k] != [] {
          SoleContent(model, trees, p, k);
          SoleContent(model', trees, p, k);
        }
      }
    }
  }

  lemma SoleElsewhere<D>(model: Model<D>, model': Model<D>, key: nat, p: Path, k: nat)
    requires model - {key} == model' - {key} && !Through(key, p)
    ensures Sole(model.Keys, p, k) ==> Sole(model'.Keys, p, k)
  {
    hide Through;
    if Sole(model.Keys, p, k) {
      assert k in model - {key};
      forall l | l in model' && Through(l, p) ensures l == k {
        assert l in model' - {key};
      }
    }
  }

  /** The slots that exist: the roots, and those of the allocated trees. */
  ghost predicate Present(trees: Trees, p: Path) {
    if |p| == 1 then p[0] < BUCKET_MAX else |p| > 1 && Parent(p) in trees && p[|p| - 1] < TREE_MAX
  }

  ghost predicate Storage<D>(trees: Trees<D>, maps: Maps<D>, roots: seq<Slot<D>>) {
    && |roots| == BUCKET_MAX
    && (forall p {:trigger trees[p]} | p in trees :: trees[p] in maps && |maps[trees[p]]| == TREE_MAX)
    && (forall p, q | p in trees && q in trees && trees[p] == trees[q] :: p == q)
  }

  ghost predicate UpClosed(trees: Trees) {
    forall p {:trigger Parent(p)} | p in trees && |p| > 1 :: Parent(p) in trees
  }

  ghost function ValueAt<D>(trees: Trees<D>, maps: Maps<D>, roots: seq<Slot<D>>, p: Path): Slot<D>
    requires Storage(trees, maps, roots) && Present(trees, p)
  {
    if |p| == 1 then roots[p[0]] else maps[trees[Parent(p)]][p[|p| - 1]]
  }

  /** All slots outside `holes` hold what the keys say. */
  ghost predicate Filled<D>(model: Model<D>, trees: Trees<D>, maps: Maps<D>, roots: seq<Slot<D>>, holes: set<Path>) {
    && Storage(trees, maps, roots)
    && forall p {:trigger Present(trees, p)} | Present(trees, p) && p !in holes ::
         ValueAt(trees, maps, roots, p) == Content(model, trees, p)
  }

  /** The pointer behind `owner` and `index` is slot p. */
  ghost predicate PointsTo<D>(trees: Trees<D>, p: Path, owner: Tree?<D>, index: nat) {
    if owner == null then p == [index] && index < BUCKET_MAX
    else |p| > 1 && Parent(p) in trees && owner == trees[Parent(p)] && p == Parent(p) + [index] && index < TREE_MAX
  }

  ghost function SetMap<D>(maps: Maps<D>, owner: Tree?<D>, index: nat, v: Slot<D>): Maps<D>
    requires owner != null ==> owner in maps && index < |maps[owner]|
  {
    if owner == null then maps else maps[owner := maps[owner][index := v]]
  }

  ghost function SetRoot<D>(roots: seq<Slot<D>>, owner: Tree?<D>, index: nat, v: Slot<D>): seq<Slot<D>>
    requires owner == null ==> index < |roots|
  {
    if owner == null then roots[index := v] else roots
  }

  lemma SlotExists<D>(trees: Trees<D>, maps: Maps<D>, roots: seq<Slot<D>>, p: Path, owner: Tree?<D>, index: nat)
    requires Storage(trees, maps, roots) && PointsTo(trees, p, owner, index)
    ensures Present(trees, p)
    ensures owner == null ==> index < |roots| && ValueAt(trees, maps, roots, p) == roots[index]
    ensures owner != null ==> owner in maps && index < |maps[owner]| && ValueAt(trees, maps, roots, p) == maps[owner][index]
  {
  }

  lemma Written<D>(trees: Trees<D>, maps: Maps<D>, roots: seq<Slot<D>>, p: Path, owner: Tree?<D>, index: nat,
                   v: Slot<D>, q: Path)
    requires Storage(trees, maps, roots) && PointsTo(trees, p, owner, index) && Present(trees, q)
    requires owner == null ==> index < |roots|
    requires owner != null ==> owner in maps && index < |maps[owner]|
    ensures Storage(trees, SetMap(maps, owner, index, v), SetRoot(roots, owner, index, v))
    ensures ValueAt(trees, SetMap(maps, owner, index, v), SetRoot(roots, owner, index, v), q) ==
            if q == p then v else ValueAt(trees, maps, roots, q)
  {
    if |q| > 1 {
      assert q == Parent(q) + [q[|q| - 1]];
    }
  }

  /** Writing the right value fills a hole. */
  lemma WriteSlot<D>(model: Model<D>, trees: Trees<D>, maps: Maps<D>, roots: seq<Slot<D>>, holes: set<Path>,
                     p: Path, owner: Tree?<D>, index: nat, v: Slot<D>)
    requires Filled(model, trees, maps, roots, holes) && PointsTo(trees, p, owner, index)
    requires v == Content(model, trees, p)
    ensures owner == null ==> index < |roots|
    ensures owner != null ==> owner in maps && index < |maps[owner]|
    ensures Filled(model, trees, SetMap(maps, owner, index, v), SetRoot(roots, owner, index, v), holes - {p})
  {
    hide Content, Present, Storage, ValueAt, SetMap, SetRoot, PointsTo;
    SlotExists(trees, maps, roots, p, owner, index);
    Written(trees, maps, roots, p, owner, index, v, p);
    forall q | Present(trees, q) && q !in holes - {p}
      ensures ValueAt(trees, SetMap(maps, owner, index, v), SetRoot(roots, owner, index, v), q) == Content(model, trees, q)
    {
      Written(trees, maps, roots, p, owner, index, v, q);
    }
  }

  /** A changed model opens holes where the content changes. */
  lemma Remodel<D>(model: Model<D>, model': Model<D>, trees: Trees<D>, maps: Maps<D>, roots: seq<Slot<D>>,
                   holes: set<Path>, holes': set<Path>)
    requires Filled(model, trees, maps, roots, holes) && holes <= holes'
    requires forall q | Present(trees, q) && q !in holes' :: Content(model, trees, q) == Content(model', trees, q)
    ensures Filled(model', trees, maps, roots, holes')
  {
    hide Content, Present, Storage, ValueAt;
  }

  lemma AllocStorage<D>(trees: Trees<D>, maps: Maps<D>, roots: seq<Slot<D>>, p: Path, t: Tree<D>, q: Path)
    requires Storage(trees, maps, roots) && UpClosed(trees) && Present(trees, p) && p !in trees && t !in maps
    ensures Storage(trees[p := t], maps[t := Blank()], roots) && UpClosed(trees[p := t])
    ensures Present(trees[p := t], q) ==>
              if |q| > 1 && Parent(q) == p then
                q !in trees && q != p && ValueAt(trees[p := t], maps[t := Blank()], roots, q) == Empty
              else
                Present(trees, q) && ValueAt(trees[p := t], maps[t := Blank()], roots, q) == ValueAt(trees, maps, roots, q)
  {
  }

  lemma SameTrees<D>(model: Model<D>, trees: Trees<D>, trees': Trees<D>, q: Path)
    requires if q in trees then q in trees' && trees[q] == trees'[q] else q !in trees'
    ensures Content(model, trees, q) == Content(model, trees', q)
  {
    hide Sole;
  }

  /** A new tree is blank: its own slot and the slots that need a value are open. */
  lemma AllocTree<D>(model: Model<D>, trees: Trees<D>, maps: Maps<D>, roots: seq<Slot<D>>, p: Path, t: Tree<D>,
                     children: set<Path>)
    requires Filled(model, trees, maps, roots, {p}) && UpClosed(trees) && Present(trees, p) && p !in trees && t !in maps
    requires forall q {:trigger Parent(q)} | |q| > 1 && Parent(q) == p && q !in children :: forall k | k in model :: !Through(k, q)
    ensures Filled(model, trees[p := t], maps[t := Blank()], roots, {p} + children) && UpClosed(trees[p := t])
  {
    hide Through, Content, Storage, UpClosed, Present, ValueAt, Blank;
    var trees', maps' := trees[p := t], maps[t := Blank()];
    AllocStorage(trees, maps, roots, p, t, p);
    forall q | Present(trees', q) && q !in {p} + children
      ensures ValueAt(trees', maps', roots, q) == Content(model, trees', q)
    {
      AllocStorage(trees, maps, roots, p, t, q);
      if |q| > 1 && Parent(q) == p {
        NoContent(model, trees', q);
      } else {
        SameTrees(model, trees, trees', q);
      }
    }
  }

  /** A freed tree leaves its slot open. */
  lemma FreeTree<D>(model: Model<D>, trees: Trees<D>, maps: Maps<D>, roots: seq<Slot<D>>, p: Path)
    requires Filled(model, trees, maps, roots, {}) && UpClosed(trees) && p in trees
    requires forall q {:trigger Parent(q)} | q in trees && |q| > 1 :: Parent(q) != p
    ensures Filled(model, trees - {p}, maps - {trees[p]}, roots, {p}) && UpClosed(trees - {p})
  {
    hide Content;
    var trees', maps' := trees - {p}, maps - {trees[p]};
    forall q | Present(trees', q) && q != p
      ensures ValueAt(trees', maps', roots, q) == Content(model, trees', q)
    {
      assert Present(trees, q);
      SameTrees(model, trees, trees', q);
    }
  }
}
