/**
 * tommy_trie_inplace: the stored nodes themselves are the inner nodes of the trie.  `model` maps
 * each stored key to its nodes in insertion order; the trie is proved to be that map.
 */
module TrieInplace {
  import opened Bits
  import opened TommyList
  import opened NodeSeqs
  import opened KeyedLists
  import opened TriePaths
  import opened TrieShape

  const TREE_MAX: nat := 4
  const BUCKET_MAX: nat := 64

  /** The node a pointer to slot p holds. */
  ghost function Head<D>(model: map<nat, seq<Node<D>>>, keyAt: map<Path, nat>, p: Path): Node?<D> {
    if p in keyAt && keyAt[p] in model && model[keyAt[p]] != [] then model[keyAt[p]][0] else null
  }

  type Branches<D> = map<Node<D>, seq<Node?<D>>>

  /** The branches of the first node at p point to the first nodes one level down. */
  ghost predicate BranchOk<D>(model: map<nat, seq<Node<D>>>, keyAt: map<Path, nat>, br: Branches<D>, p: Path) {
    var h := Head(model, keyAt, p);
    h != null && h in br && |br[h]| == TREE_MAX && forall d | 0 <= d < TREE_MAX :: br[h][d] == Head(model, keyAt, p + [d])
  }

  ghost predicate BranchesOk<D>(model: map<nat, seq<Node<D>>>, keyAt: map<Path, nat>, br: Branches<D>) {
    forall p {:trigger BranchOk(model, keyAt, br, p)} | p in keyAt :: BranchOk(model, keyAt, br, p)
  }

  ghost predicate RootsOk<D>(model: map<nat, seq<Node<D>>>, keyAt: map<Path, nat>, roots: seq<Node?<D>>) {
    |roots| == BUCKET_MAX && forall b | 0 <= b < BUCKET_MAX :: roots[b] == Head(model, keyAt, [b])
  }

  /** No node is first at two slots. */
  ghost predicate HeadsApart<D>(model: map<nat, seq<Node<D>>>) {
    forall k, l | k in model && l in model && model[k] != [] && model[l] != [] && model[k][0] == model[l][0] :: k == l
  }

  lemma HeadsDiffer<D>(model: map<nat, seq<Node<D>>>, place: map<nat, Path>, keyAt: map<Path, nat>, p: Path, q: Path)
    requires Fits(INPLACE) && Shape(INPLACE, place, keyAt) && HeadsApart(model)
    requires Head(model, keyAt, p) != null && Head(model, keyAt, p) == Head(model, keyAt, q)
    ensures p == q
  {
  }

  /** The pointer behind `owner` and `index` belongs to slot p. */
  ghost predicate PointsTo<D>(model: map<nat, seq<Node<D>>>, keyAt: map<Path, nat>, p: Path, owner: Node?<D>, index: nat) {
    if owner == null then p == [index] && index < BUCKET_MAX
    else |p| > 1 && p == Parent(p) + [index] && index < TREE_MAX && owner == Head(model, keyAt, Parent(p))
  }

  ghost function SetBranch<D>(br: Branches<D>, owner: Node?<D>, index: nat, x: Node?<D>): Branches<D>
    requires owner != null ==> owner in br && index < |br[owner]|
  {
    if owner == null then br else br[owner := br[owner][index := x]]
  }

  ghost function SetRoot<D>(roots: seq<Node?<D>>, owner: Node?<D>, index: nat, x: Node?<D>): seq<Node?<D>>
    requires owner == null ==> index < |roots|
  {
    if owner == null then roots[index := x] else roots
  }

  /**
   * Changing what is first at slot p, and the one pointer to it, keeps all pointers right.  The new
   * first node has branches of its own that were put right beforehand.
   */
  lemma Repoint<D>(model: map<nat, seq<Node<D>>>, place: map<nat, Path>, keyAt: map<Path, nat>,
                   model': map<nat, seq<Node<D>>>, place': map<nat, Path>, keyAt': map<Path, nat>,
                   br: Branches<D>, br': Branches<D>, p: Path, owner: Node?<D>, index: nat)
    requires Fits(INPLACE) && Shape(INPLACE, place, keyAt) && HeadsApart(model) && BranchesOk(model, keyAt, br)
    requires PointsTo(model, keyAt, p, owner, index) && (owner != null ==> Parent(p) in keyAt)
    requires keyAt'.Keys <= keyAt.Keys + {p}
    requires forall q | q != p :: Head(model', keyAt', q) == Head(model, keyAt, q)
    requires owner != null ==>
               && owner in br' && owner in br && |br[owner]| == TREE_MAX
               && br'[owner] == br[owner][index := Head(model', keyAt', p)]
    requires forall q | q in keyAt' && q != p :: Head(model, keyAt, q) != owner ==>
               && Head(model, keyAt, q) in br' && Head(model, keyAt, q) in br
               && br'[Head(model, keyAt, q)] == br[Head(model, keyAt, q)]
    requires p in keyAt' ==> BranchOk(model', keyAt', br', p)
    ensures BranchesOk(model', keyAt', br')
  {
    forall q | q in keyAt' ensures BranchOk(model', keyAt', br', q) {
      if q != p {
        assert BranchOk(model, keyAt, br, q);
        forall d | 0 <= d < TREE_MAX
          ensures br'[Head(model, keyAt, q)][d] == Head(model', keyAt', q + [d])
        {
          if q + [d] == p {
            assert Parent(p) == q;
          } else if Head(model, keyAt, q) == owner {
            HeadsDiffer(model, place, keyAt, q, Parent(p));
            assert q + [d] != p ==> d != index;
          }
        }
      }
    }
  }

  ghost predicate TrieOk<D>(model: map<nat, seq<Node<D>>>, place: map<nat, Path>, keyAt: map<Path, nat>,
                            br: Branches<D>, roots: seq<Node?<D>>)
  {
    && Fits(INPLACE) && Shape(INPLACE, place, keyAt) && place.Keys == model.Keys
    && (forall k | k in model :: model[k] != []) && HeadsApart(model)
    && BranchesOk(model, keyAt, br) && RootsOk(model, keyAt, roots)
  }

  /** A pointer is stored where `owner` and `index` say, and nowhere else. */
  lemma RootsRepoint<D>(model: map<nat, seq<Node<D>>>, keyAt: map<Path, nat>, model': map<nat, seq<Node<D>>>,
                        keyAt': map<Path, nat>,
                        roots: seq<Node?<D>>, p: Path, owner: Node?<D>, index: nat)
    requires RootsOk(model, keyAt, roots) && PointsTo(model, keyAt, p, owner, index)
    requires forall q | q != p :: Head(model', keyAt', q) == Head(model, keyAt, q)
    ensures RootsOk(model', keyAt', SetRoot(roots, owner, index, Head(model', keyAt', p)))
  {
    forall b | 0 <= b < BUCKET_MAX
      ensures SetRoot(roots, owner, index, Head(model', keyAt', p))[b] == Head(model', keyAt', [b])
    {
      if [b] == p {
        assert p[0] == b;
      }
    }
  }

  /** A fresh key at the first free slot on its way. */
  lemma FreshOk<D>(model: map<nat, seq<Node<D>>>, place: map<nat, Path>, keyAt: map<Path, nat>,
                   br: Branches<D>, roots: seq<Node?<D>>, key: nat, n: nat, owner: Node?<D>, index: nat, x: Node<D>)
    requires TrieOk(model, place, keyAt, br, roots) && n <= INPLACE.depth + 1
    requires var p := PathOf(INPLACE, key, n);
             && key !in model && p !in keyAt && (n > 0 ==> PathOf(INPLACE, key, n - 1) in keyAt)
             && PointsTo(model, keyAt, p, owner, index)
    requires x !in br && forall k | k in model :: model[k][0] != x
    ensures owner != null ==> owner in br && index < |br[owner]|
    ensures owner == null ==> index < |roots|
    ensures var p := PathOf(INPLACE, key, n);
            TrieOk(model[key := [x]], place[key := p], keyAt[p := key],
                   SetBranch(br[x := [null, null, null, null]], owner, index, x), SetRoot(roots, owner, index, x))
  {
    hide PathOf, Shape;
    var p: Path := PathOf(INPLACE, key, n);
    ShapeInsert(INPLACE, place, keyAt, key, n);
    var model', place', keyAt' := model[key := [x]], place[key := p], keyAt[p := key];
    if owner != null {
      PathNext(INPLACE, key, n - 1);
      assert Parent(p) == PathOf(INPLACE, key, n - 1);
      assert BranchOk(model, keyAt, br, Parent(p));
    }
    var br' := SetBranch(br[x := [null, null, null, null]], owner, index, x);
    forall q | q != p ensures Head(model', keyAt', q) == Head(model, keyAt, q) {
      HeadElsewhere(model, place, keyAt, key, p, x, q);
    }
    assert HeadsApart(model');
    assert BranchOk(model', keyAt', br', p) by {
      forall d | 0 <= d < TREE_MAX ensures Head(model', keyAt', p + [d]) == null {
        assert Parent(p + [d]) == p;
        if p + [d] in keyAt {
          ParentIn(place, keyAt, p + [d]);
        }
      }
    }
    forall q | q in keyAt ensures Head(model, keyAt, q) in br {
      assert BranchOk(model, keyAt, br, q);
    }
    Repoint(model, place, keyAt, model', place', keyAt', br, br', p, owner, index);
    RootsRepoint(model, keyAt, model', keyAt', roots, p, owner, index);
  }

  lemma HeadElsewhere<D>(model: map<nat, seq<Node<D>>>, place: map<nat, Path>, keyAt: map<Path, nat>, key: nat,
                         p: Path, x: Node<D>, q: Path)
    requires Fits(INPLACE) && Shape(INPLACE, place, keyAt) && place.Keys == model.Keys && key !in model && p !in keyAt
    ensures q != p ==> Head(model[key := [x]], keyAt[p := key], q) == Head(model, keyAt, q)
  {
  }

  ghost predicate Childless(keyAt: map<Path, nat>, p: Path) {
    forall q {:trigger Parent(q)} | q in keyAt && |q| > 1 :: Parent(q) != p
  }

  /** A list that keeps its first node keeps all pointers. */
  lemma SameHeadsOk<D>(model: map<nat, seq<Node<D>>>, place: map<nat, Path>, keyAt: map<Path, nat>,
                       br: Branches<D>, roots: seq<Node?<D>>, key: nat, s: seq<Node<D>>)
    requires TrieOk(model, place, keyAt, br, roots) && key in model && s != [] && s[0] == model[key][0]
    ensures TrieOk(model[key := s], place, keyAt, br, roots)
  {
    hide Shape;
    var model' := model[key := s];
    forall q ensures Head(model', keyAt, q) == Head(model, keyAt, q) {
    }
    forall q | q in keyAt ensures BranchOk(model', keyAt, br, q) {
      assert BranchOk(model, keyAt, br, q);
    }
  }

  lemma HeadsLeft<D>(model: map<nat, seq<Node<D>>>, place: map<nat, Path>, keyAt: map<Path, nat>, p: Path, q: Path)
    requires Fits(INPLACE) && Shape(INPLACE, place, keyAt) && p in keyAt && q != p
    ensures Head(model - {keyAt[p]}, keyAt - {p}, q) == Head(model, keyAt, q)
  {
  }

  /** A childless slot is given up. */
  lemma DeleteOk<D>(model: map<nat, seq<Node<D>>>, place: map<nat, Path>, keyAt: map<Path, nat>,
                    br: Branches<D>, roots: seq<Node?<D>>, p: Path, owner: Node?<D>, index: nat)
    requires TrieOk(model, place, keyAt, br, roots) && p in keyAt && Childless(keyAt, p)
    requires PointsTo(model, keyAt, p, owner, index)
    ensures owner != null ==> owner in br && index < |br[owner]|
    ensures owner == null ==> index < |roots|
    ensures TrieOk(model - {keyAt[p]}, place - {keyAt[p]}, keyAt - {p},
                   SetBranch(br, owner, index, null), SetRoot(roots, owner, index, null))
  {
    hide Shape;
    ShapeDelete(INPLACE, place, keyAt, p);
    var model', keyAt' := model - {keyAt[p]}, keyAt - {p};
    if owner != null {
      ParentIn(place, keyAt, p);
      assert BranchOk(model, keyAt, br, Parent(p));
    }
    var br' := SetBranch(br, owner, index, null);
    forall q | q != p ensures Head(model', keyAt', q) == Head(model, keyAt, q) {
      HeadsLeft(model, place, keyAt, p, q);
    }
    forall q | q in keyAt ensures Head(model, keyAt, q) in br {
      assert BranchOk(model, keyAt, br, q);
    }
    Repoint(model, place, keyAt, model', place - {keyAt[p]}, keyAt', br, br', p, owner, index);
    RootsRepoint(model, keyAt, model', keyAt', roots, p, owner, index);
  }

  lemma ParentIn(place: map<nat, Path>, keyAt: map<Path, nat>, p: Path)
    requires Fits(INPLACE) && Shape(INPLACE, place, keyAt) && p in keyAt && |p| > 1
    ensures Parent(p) in keyAt
  {
  }

  /** Node y takes over a slot, with the branches of the node it replaces. */
  lemma ReplaceOk<D>(model: map<nat, seq<Node<D>>>, place: map<nat, Path>, keyAt: map<Path, nat>,
                     br: Branches<D>, roots: seq<Node?<D>>, p: Path, owner: Node?<D>, index: nat,
                     model': map<nat, seq<Node<D>>>, place': map<nat, Path>, keyAt': map<Path, nat>, y: Node<D>)
    requires TrieOk(model, place, keyAt, br, roots) && p in keyAt && PointsTo(model, keyAt, p, owner, index)
    requires Shape(INPLACE, place', keyAt') && place'.Keys == model'.Keys && keyAt'.Keys == keyAt.Keys
    requires (forall k | k in model' :: model'[k] != []) && HeadsApart(model')
    requires Head(model', keyAt', p) == y && forall q | q != p :: Head(model', keyAt', q) == Head(model, keyAt, q) != y
    ensures Head(model, keyAt, p) in br
    ensures owner != null ==> owner != y && owner in br && index < |br[owner]|
    ensures owner == null ==> index < |roots|
    ensures TrieOk(model', place', keyAt',
                   SetBranch(br[y := br[Head(model, keyAt, p)]], owner, index, y), SetRoot(roots, owner, index, y))
  {
    hide Shape;
    assert BranchOk(model, keyAt, br, p);
    var x := Head(model, keyAt, p);
    if owner != null {
      ParentIn(place, keyAt, p);
      assert BranchOk(model, keyAt, br, Parent(p));
    }
    var br' := SetBranch(br[y := br[x]], owner, index, y);
    forall q | q in keyAt ensures Head(model, keyAt, q) in br {
      assert BranchOk(model, keyAt, br, q);
    }
    assert BranchOk(model', keyAt', br', p);
    Repoint(model, place, keyAt, model', place', keyAt', br, br', p, owner, index);
    RootsRepoint(model, keyAt, model', keyAt', roots, p, owner, index);
  }

  /** Only the branches of first nodes matter. */
  lemma OtherBranchesOk<D>(model: map<nat, seq<Node<D>>>, place: map<nat, Path>, keyAt: map<Path, nat>,
                           br: Branches<D>, br': Branches<D>, roots: seq<Node?<D>>)
    requires TrieOk(model, place, keyAt, br, roots)
    requires forall k | k in model && model[k][0] in br :: model[k][0] in br' && br'[model[k][0]] == br[model[k][0]]
    ensures TrieOk(model, place, keyAt, br', roots)
  {
    hide Shape, HeadsApart;
    forall q | q in keyAt ensures BranchOk(model, keyAt, br', q) {
      assert BranchOk(model, keyAt, br, q);
    }
  }

  lemma HeadAt<D>(model: map<nat, seq<Node<D>>>, place: map<nat, Path>, keyAt: map<Path, nat>, key: nat)
    requires Fits(INPLACE) && Shape(INPLACE, place, keyAt) && place.Keys == model.Keys && key in model && model[key] != []
    ensures place[key] in keyAt && keyAt[place[key]] == key && Head(model, keyAt, place[key]) == model[key][0]
  {
  }

  /** The owner of a pointer is not the node that it points to. */
  lemma OwnerElsewhere<D>(model: map<nat, seq<Node<D>>>, place: map<nat, Path>, keyAt: map<Path, nat>, p: Path,
                          owner: Node?<D>, index: nat)
    requires Fits(INPLACE) && Shape(INPLACE, place, keyAt) && HeadsApart(model)
    requires PointsTo(model, keyAt, p, owner, index) && Head(model, keyAt, p) != null
    ensures owner != Head(model, keyAt, p)
  {
    hide Shape, HeadsApart, Head;
    if owner == Head(model, keyAt, p) {
      HeadsDiffer(model, place, keyAt, p, Parent(p));
    }
  }

  /** The second node of a list takes over the slot and the branches of the first. */
  lemma SubstituteOk<D>(model: map<nat, seq<Node<D>>>, place: map<nat, Path>, keyAt: map<Path, nat>,
                        br: Branches<D>, roots: seq<Node?<D>>, key: nat, owner: Node?<D>, index: nat, s: seq<Node<D>>)
    requires TrieOk(model, place, keyAt, br, roots) && key in model && PointsTo(model, keyAt, place[key], owner, index)
    requires s != [] && forall k | k in model :: model[k][0] != s[0]
    ensures model[key][0] in br && owner != s[0] && owner != model[key][0]
    ensures if owner == null then index < |roots| else owner in br && index < |br[owner]|
    ensures TrieOk(model[key := s], place, keyAt,
                   SetBranch(br, owner, index, s[0])[s[0] := br[model[key][0]]], SetRoot(roots, owner, index, s[0]))
  {
    hide Shape, BranchesOk, RootsOk;
    var p, model' := place[key], model[key := s];
    HeadAt(model, place, keyAt, key);
    HeadAt(model', place, keyAt, key);
    OwnerElsewhere(model, place, keyAt, p, owner, index);
    forall q | q != p ensures Head(model', keyAt, q) == Head(model, keyAt, q) != s[0] {
      HeadKeeps(model, place, keyAt, key, s, q);
    }
    ReplaceOk(model, place, keyAt, br, roots, p, owner, index, model', place, keyAt, s[0]);
    assert SetBranch(br[s[0] := br[model[key][0]]], owner, index, s[0]) ==
           SetBranch(br, owner, index, s[0])[s[0] := br[model[key][0]]];
  }

  lemma HeadKeeps<D>(model: map<nat, seq<Node<D>>>, place: map<nat, Path>, keyAt: map<Path, nat>, key: nat,
                     s: seq<Node<D>>, q: Path)
    requires Fits(INPLACE) && Shape(INPLACE, place, keyAt) && key in place && q != place[key]
    ensures Head(model[key := s], keyAt, q) == Head(model, keyAt, q)
  {
  }

  /** The branches of the node at q, on the way down to a leaf below p. */
  lemma LeafStep<D>(model: map<nat, seq<Node<D>>>, place: map<nat, Path>, keyAt: map<Path, nat>,
                    br: Branches<D>, roots: seq<Node?<D>>, p: Path, owner: Node?<D>, index: nat, q: Path)
    requires TrieOk(model, place, keyAt, br, roots) && p in keyAt && PointsTo(model, keyAt, p, owner, index)
    requires q in keyAt && Under(p, q)
    ensures Head(model, keyAt, q) != null && Head(model, keyAt, q) != owner && |q| <= INPLACE.depth + 2
    ensures var x := Head(model, keyAt, q);
            x in br && |br[x]| == TREE_MAX
            && forall d {:trigger br[x][d]} | 0 <= d < TREE_MAX :: (
                 && br[x][d] == Head(model, keyAt, q + [d])
                 && (br[x][d] != null ==> q + [d] in keyAt && Under(p, q + [d]) && PointsTo(model, keyAt, q + [d], x, d)))
  {
    hide RootsOk, PathOf;
    assert BranchOk(model, keyAt, br, q);
    assert OnPath(INPLACE, keyAt[q], q);
    forall d | 0 <= d < TREE_MAX && Head(model, keyAt, q + [d]) != null
      ensures q + [d] in keyAt && Under(p, q + [d]) && PointsTo(model, keyAt, q + [d], Head(model, keyAt, q), d)
    {
      assert (q + [d])[..|p|] == p && Parent(q + [d]) == q;
    }
  }

  /** A node without branches is a leaf of the trie. */
  lemma LeafIsChildless<D>(model: map<nat, seq<Node<D>>>, place: map<nat, Path>, keyAt: map<Path, nat>,
                           br: Branches<D>, roots: seq<Node?<D>>, q: Path)
    requires TrieOk(model, place, keyAt, br, roots) && q in keyAt
    requires forall d | 0 <= d < TREE_MAX :: Head(model, keyAt, q + [d]) == null
    ensures Childless(keyAt, q)
  {
    hide RootsOk, BranchesOk, HeadsApart;
    forall r | r in keyAt && |r| > 1 ensures Parent(r) != q {
      LastDigit(place, keyAt, r);
      assert r == Parent(r) + [r[|r| - 1]];
    }
  }

  lemma LastDigit(place: map<nat, Path>, keyAt: map<Path, nat>, r: Path)
    requires Fits(INPLACE) && Shape(INPLACE, place, keyAt) && r in keyAt && |r| > 1
    ensures r[|r| - 1] < TREE_MAX
  {
    var k := keyAt[r];
    assert OnPath(INPLACE, k, r);
    assert r[|r| - 1] == Digit(INPLACE, k, |r| - 2);
    assert Pow2(2) == 4;
  }

  /** The leaf's list moves up to a slot above it, in place of the key that was there. */
  ghost function Lifted(place: map<nat, Path>, keyAt: map<Path, nat>, p: Path, q: Path): (map<nat, Path>, map<Path, nat>)
    requires p in keyAt && q in keyAt
  {
    ((place - {keyAt[p]})[keyAt[q] := p], (keyAt - {q})[p := keyAt[q]])
  }

  lemma LiftedHeads<D>(model: map<nat, seq<Node<D>>>, place: map<nat, Path>, keyAt: map<Path, nat>, p: Path, q: Path)
    requires Fits(INPLACE) && Shape(INPLACE, place, keyAt) && place.Keys == model.Keys
    requires p in keyAt && q in keyAt && p != q
    ensures var y, keyAt', model' := Head(model, keyAt, q), Lifted(place, keyAt, p, q).1, model - {keyAt[p]};
            && keyAt'.Keys == (keyAt - {q}).Keys && Lifted(place, keyAt, p, q).0.Keys == model'.Keys
            && Head(model', keyAt', p) == y
            && forall r | r != p :: Head(model', keyAt', r) == Head(model - {keyAt[q]}, keyAt - {q}, r)
  {
  }

  lemma LeafElsewhere<D>(model: map<nat, seq<Node<D>>>, place: map<nat, Path>, keyAt: map<Path, nat>, q: Path, r: Path)
    requires Fits(INPLACE) && Shape(INPLACE, place, keyAt) && HeadsApart(model)
    requires q in keyAt && Head(model, keyAt, q) != null
    ensures Head(model - {keyAt[q]}, keyAt - {q}, r) != Head(model, keyAt, q)
  {
  }

  /** The branches after a leaf moved up. */
  ghost function PromotedBranches<D>(br: Branches<D>, owner: Node?<D>, index: nat, leafOwner: Node<D>, leafIndex: nat,
                                     x: Node<D>, y: Node<D>): Branches<D>
    requires leafOwner in br && leafIndex < |br[leafOwner]| && x in br
    requires owner != null ==> owner in br && owner != leafOwner && owner != y && index < |br[owner]|
  {
    var br1 := SetBranch(br, leafOwner, leafIndex, null);
    SetBranch(br1[y := br1[x]], owner, index, y)
  }

  /** The order in which the pointers are written does not matter. */
  lemma SwappedBranches<D>(br: Branches<D>, owner: Node?<D>, index: nat, leafOwner: Node<D>, leafIndex: nat,
                           x: Node<D>, y: Node<D>)
    requires leafOwner in br && leafIndex < |br[leafOwner]| && x in br && y in br && y != leafOwner
    requires owner != null ==> owner in br && owner != leafOwner && owner != x && owner != y && index < |br[owner]|
    ensures var b := SetBranch(SetBranch(br, owner, index, null), leafOwner, leafIndex, null);
            SetBranch(b[y := b[x]], owner, index, y) == PromotedBranches(br, owner, index, leafOwner, leafIndex, x, y)
  {
    if owner != null {
      assert br[owner][index := null][index := y] == br[owner][index := y];
    }
  }

  /** A leaf takes over the slot and the branches of a node above it that leaves. */
  lemma PromoteOk<D>(model: map<nat, seq<Node<D>>>, place: map<nat, Path>, keyAt: map<Path, nat>,
                     br: Branches<D>, roots: seq<Node?<D>>, p: Path, owner: Node?<D>, index: nat,
                     q: Path, leafOwner: Node<D>, leafIndex: nat)
    requires TrieOk(model, place, keyAt, br, roots) && p in keyAt && q in keyAt && Under(p, q) && p != q
    requires PointsTo(model, keyAt, p, owner, index) && PointsTo(model, keyAt, q, leafOwner, leafIndex)
    requires leafOwner != owner && Childless(keyAt, q)
    ensures var x, y, lifted := Head(model, keyAt, p), Head(model, keyAt, q), Lifted(place, keyAt, p, q);
            && x != null && y != null && x in br && x != owner && x != y && y != leafOwner && y != owner
            && leafOwner in br && leafIndex < |br[leafOwner]|
            && (if owner == null then index < |roots| else owner in br && index < |br[owner]|)
            && TrieOk(model - {keyAt[p]}, lifted.0, lifted.1, PromotedBranches(br, owner, index, leafOwner, leafIndex, x, y),
                      SetRoot(roots, owner, index, y))
  {
    hide Shape, BranchesOk, RootsOk, Head, Childless, HeadsApart;
    LeafStep(model, place, keyAt, br, roots, p, owner, index, p);
    LeafStep(model, place, keyAt, br, roots, p, owner, index, q);
    var x, y, key := Head(model, keyAt, p), Head(model, keyAt, q), keyAt[q];
    OwnerElsewhere(model, place, keyAt, p, owner, index);
    OwnerElsewhere(model, place, keyAt, q, leafOwner, leafIndex);
    if x == y {
      HeadsDiffer(model, place, keyAt, p, q);
    }
    DeleteOk(model, place, keyAt, br, roots, q, leafOwner, leafIndex);
    var (place', keyAt') := Lifted(place, keyAt, p, q);
    PromoteShape(place, keyAt, p, q);
    LiftedHeads(model, place, keyAt, p, q);
    StillPointsTo(model, place, keyAt, p, owner, index, q);
    FewerHeads(model, keyAt[p]);
    forall r | r != p ensures Head(model - {keyAt[p]}, keyAt', r) == Head(model - {key}, keyAt - {q}, r) != y {
      LeafElsewhere(model, place, keyAt, q, r);
    }
    ReplaceOk(model - {key}, place - {key}, keyAt - {q}, SetBranch(br, leafOwner, leafIndex, null), roots, p, owner, index,
              model - {keyAt[p]}, place', keyAt', y);
  }

  lemma PromoteShape(place: map<nat, Path>, keyAt: map<Path, nat>, p: Path, q: Path)
    requires Fits(INPLACE) && Shape(INPLACE, place, keyAt) && p in keyAt && q in keyAt && Under(p, q) && p != q
    requires Childless(keyAt, q)
    ensures Shape(INPLACE, Lifted(place, keyAt, p, q).0, Lifted(place, keyAt, p, q).1)
  {
    hide Shape;
    ShapePromote(INPLACE, place, keyAt, p, q);
  }

  lemma StillPointsTo<D>(model: map<nat, seq<Node<D>>>, place: map<nat, Path>, keyAt: map<Path, nat>, p: Path,
                         owner: Node?<D>, index: nat, q: Path)
    requires Fits(INPLACE) && Shape(INPLACE, place, keyAt) && p in keyAt && q in keyAt && Under(p, q) && p != q
    requires PointsTo(model, keyAt, p, owner, index)
    ensures PointsTo(model - {keyAt[q]}, keyAt - {q}, p, owner, index)
    ensures Head(model - {keyAt[q]}, keyAt - {q}, p) == Head(model, keyAt, p)
  {
    hide Shape, Head;
    HeadsLeft(model, place, keyAt, q, p);
    if owner != null {
      HeadsLeft(model, place, keyAt, q, Parent(p));
    }
  }

  lemma FewerHeads<D>(model: map<nat, seq<Node<D>>>, key: nat)
    requires HeadsApart(model)
    ensures HeadsApart(model - {key})
  {
  }

  ghost function BranchMap<D>(nodes: set<Node<D>>): Branches<D>
    reads nodes`branch
  {
    map x | x in nodes :: x.branch
  }

  lemma BranchValues<D>(nodes: set<Node<D>>)
    ensures BranchMap(nodes).Keys == nodes
    ensures forall x {:trigger x.branch} {:trigger BranchMap(nodes)[x]} | x in nodes :: BranchMap(nodes)[x] == x.branch
  {
  }

  lemma BranchInsert<D>(nodes: set<Node<D>>, x: Node<D>)
    ensures BranchMap(nodes + {x}) == BranchMap(nodes)[x := x.branch]
  {
  }

  lemma OwnerBranches<D>(model: map<nat, seq<Node<D>>>, keyAt: map<Path, nat>, br: Branches<D>, p: Path)
    requires BranchesOk(model, keyAt, br) && p in keyAt
    ensures BranchOk(model, keyAt, br, p)
  {
  }

  lemma SlotLength<D>(model: map<nat, seq<Node<D>>>, keyAt: map<Path, nat>, p: Path, owner: Node?<D>, index: nat)
    requires PointsTo(model, keyAt, p, owner, index)
    ensures |p| >= 1
  {
  }

  lemma SetBranchLengths<D>(br: Branches<D>, owner: Node?<D>, index: nat, x: Node?<D>)
    requires owner != null ==> owner in br && index < |br[owner]|
    ensures SetBranch(br, owner, index, x).Keys == br.Keys
    ensures forall y | y in br :: |SetBranch(br, owner, index, x)[y]| == |br[y]|
  {
  }

  lemma SetBranchElsewhere<D>(br: Branches<D>, owner: Node?<D>, index: nat, x: Node?<D>)
    requires owner != null ==> owner in br && index < |br[owner]|
    ensures SetBranch(br, owner, index, x).Keys == br.Keys
    ensures forall y | y in br && y != owner :: SetBranch(br, owner, index, x)[y] == br[y]
  {
  }

  /** The branches of a node that left do not matter. */
  lemma LeftOut<D>(model: map<nat, seq<Node<D>>>, place: map<nat, Path>, keyAt: map<Path, nat>, nodes: set<Node<D>>,
                   roots: seq<Node?<D>>, x: Node<D>)
    requires Keyed(model, nodes - {x}) && TrieOk(model, place, keyAt, BranchMap(nodes), roots)
    ensures TrieOk(model, place, keyAt, BranchMap(nodes - {x}), roots)
  {
    hide Shape, BranchesOk, RootsOk, HeadsApart, Pow2;
    OtherBranchesOk(model, place, keyAt, BranchMap(nodes), BranchMap(nodes - {x}), roots);
  }

  class TrieInplace<D> {
    const bucket: array<Node?<D>>
    var count: nat
    ghost var model: map<nat, seq<Node<D>>>
    ghost var place: map<nat, Path>
    ghost var keyAt: map<Path, nat>
    ghost var nodes: set<Node<D>>

    /** The pointers and lists are those of the model. */
    ghost predicate Tied()
      reads `model, `place, `keyAt, `nodes, bucket, nodes
    {
      && Keyed(model, nodes) && Lists(model, nodes)
      && TrieOk(model, place, keyAt, BranchMap(nodes), bucket[..])
    }

    ghost predicate Valid()
      reads this, bucket, nodes
    {
      Tied() && count == |nodes|
    }

    constructor ()
      ensures Valid() && fresh(bucket) && model == map[] && nodes == {}
    {
      bucket := new Node?<D>[BUCKET_MAX](_ => null);
      count := 0;
      model := map[];
      place := map[];
      keyAt := map[];
      nodes := {};
    }

    /** The bucket and the first level index the table with bits that fit. */
    lemma Indexes(key: nat, n: nat)
      requires key < Pow2(KEY_BIT) && n <= INPLACE.depth
      ensures Fits(INPLACE) && BucketOf(INPLACE, key) < BUCKET_MAX && Digit(INPLACE, key, n) < TREE_MAX
    {
      assert Pow2(6) == 64 && Pow2(2) == 4;
      BucketBound(INPLACE, key);
    }

    /** `let_ptr` is the slot of the path after n digits. */
    ghost predicate At(key: nat, n: nat, owner: Node?<D>, index: nat)
      reads this
    {
      && Fits(INPLACE) && n <= INPLACE.depth + 1
      && if n == 0 then owner == null && index == BucketOf(INPLACE, key) < BUCKET_MAX
         else owner != null && index == Digit(INPLACE, key, n - 1) < TREE_MAX
              && PathOf(INPLACE, key, n - 1) in keyAt && owner == Head(model, keyAt, PathOf(INPLACE, key, n - 1))
    }

    /** The node at the slot after n digits, with the key possibly further down. */
    ghost predicate Walked(key: nat, n: nat, owner: Node?<D>, index: nat, node: Node?<D>)
      reads this
    {
      && At(key, n, owner, index)
      && node == Head(model, keyAt, PathOf(INPLACE, key, n))
      && (key in place ==> n < |place[key]|)
    }

    lemma WalkStart(key: nat)
      requires Tied() && key < Pow2(KEY_BIT)
      ensures var index := BucketOf(INPLACE, key);
              index < bucket.Length && Walked(key, 0, null, index, bucket[index])
    {
      hide Shape, Keyed, Lists, BranchesOk;
      Indexes(key, 0);
      if key in place {
        PlaceLength(key);
      }
    }

    lemma PlaceLength(key: nat)
      requires Fits(INPLACE) && Shape(INPLACE, place, keyAt) && key in place
      ensures |place[key]| > 0 && place[key] in keyAt && keyAt[place[key]] == key
      ensures place[key] == PathOf(INPLACE, key, |place[key]| - 1)
    {
      assert OnPath(INPLACE, key, place[key]);
    }

    /** A foreign node: there is a digit left, and the branch it selects is the next slot. */
    lemma WalkStep(key: nat, n: nat, owner: Node?<D>, index: nat, node: Node<D>)
      requires Tied() && key < Pow2(KEY_BIT) && Walked(key, n, owner, index, node) && node.key != key
      ensures n <= INPLACE.depth
      ensures var d := Digit(INPLACE, key, n);
              d < |node.branch| && Walked(key, n + 1, node, d, node.branch[d])
    {
      hide Lists, RootsOk, IsList, Pow2, And, Shape, PathOf, Digit, Fits;
      Indexes(key, 0);
      var p: Path := PathOf(INPLACE, key, n);
      assert keyAt[p] == node.key;
      Separates(INPLACE, place, keyAt, key, n);
      Indexes(key, n);
      PathNext(INPLACE, key, n);
      assert BranchOk(model, keyAt, BranchMap(nodes), p);
      if key in place && |place[key]| == n + 1 {
        PlaceLength(key);
      }
    }

    lemma WalkEnd(key: nat, n: nat, owner: Node?<D>, index: nat, node: Node?<D>)
      requires Tied() && key < Pow2(KEY_BIT) && Walked(key, n, owner, index, node)
      ensures node == null ==> key !in model && PathOf(INPLACE, key, n) !in keyAt
      ensures node != null ==> node in nodes
      ensures node != null && node.key == key ==>
                key in model && key in place && place[key] == PathOf(INPLACE, key, n) && node == model[key][0]
    {
      hide Lists, RootsOk, BranchesOk, IsList, Pow2, And;
      var p: Path := PathOf(INPLACE, key, n);
      if p in keyAt {
        assert keyAt[p] in model && node == model[keyAt[p]][0];
      } else if key in place {
        WayOccupied(INPLACE, place, keyAt, key, n);
      }
    }

    /** The common walk: follows the digits of the key to its own node or to the first empty slot. */
    method Walk(key: nat) returns (owner: Node?<D>, index: nat, node: Node?<D>, ghost n: nat)
      requires Tied() && key < Pow2(KEY_BIT)
      ensures Walked(key, n, owner, index, node)
      ensures node == null ==> key !in model && PathOf(INPLACE, key, n) !in keyAt
      ensures node != null ==>
                key in model && key in place && place[key] == PathOf(INPLACE, key, n) && node == model[key][0]
    {
      hide Tied, Pow2, Walked;
      WalkStart(key);
      owner, index := null, ShiftRight(key, INPLACE.shift);
      node := bucket[index];
      n := 0;
      var shift: int := INPLACE.shift;
      while node != null && node.key != key
        invariant Walked(key, n, owner, index, node)
        invariant n <= INPLACE.depth + 1 && shift == INPLACE.shift - INPLACE.bit * n
        decreases INPLACE.depth + 1 - n
      {
        WalkStep(key, n, owner, index, node);
        MaskIs(key, n);
        owner, index := node, And(ShiftRight(key, shift), TREE_MAX - 1);
        node := node.branch[index];
        shift := shift - INPLACE.bit;
        n := n + 1;
      }
      WalkEnd(key, n, owner, index, node);
    }

    lemma MaskIs(key: nat, n: nat)
      requires n <= INPLACE.depth
      ensures Fits(INPLACE) && And(ShiftRight(key, INPLACE.shift - INPLACE.bit * n), TREE_MAX - 1) == Digit(INPLACE, key, n)
    {
      assert Pow2(2) == 4;
    }

    /** tommy_trie_inplace_bucket: the list of all and only the nodes with the key. */
    method Bucket(key: nat) returns (head: Node?<D>)
      requires Valid() && key < Pow2(KEY_BIT)
      ensures if key in model then head == model[key][0] && IsList(head, model[key]) else head == null
      ensures forall x | x in nodes :: x.key == key <==> key in model && x in model[key]
    {
      hide IsList, TrieOk;
      var _, _, node, _ := Walk(key);
      head := node;
      forall x | x in nodes ensures x.key == key <==> key in model && x in model[key] {
        if key in model && x in model[key] {
          OwnKey(model, nodes, key, x);
        }
      }
    }

    /** `*let_ptr = value`. */
    method SetSlot(owner: Node?<D>, index: nat, value: Node?<D>, ghost all: set<Node<D>>)
      requires if owner == null then index < bucket.Length else owner in all && index < |owner.branch|
      modifies bucket, (if owner == null then {} else {owner})`branch
      ensures bucket[..] == SetRoot(old(bucket[..]), owner, index, value)
      ensures BranchMap(all) == SetBranch(old(BranchMap(all)), owner, index, value)
    {
      if owner == null {
        bucket[index] := value;
      } else {
        owner.branch := owner.branch[index := value];
      }
    }

    /** The loop that copies the child pointers. */
    method CopyBranches(to: Node<D>, from: Node<D>, ghost all: set<Node<D>>)
      requires to in all && from in all
      modifies to`branch
      ensures BranchMap(all) == old(BranchMap(all))[to := old(BranchMap(all))[from]]
    {
      to.branch := from.branch;
    }

    lemma AtPointsTo(key: nat, n: nat, owner: Node?<D>, index: nat)
      requires At(key, n, owner, index)
      ensures Fits(INPLACE) && n <= INPLACE.depth + 1
      ensures PointsTo(model, keyAt, PathOf(INPLACE, key, n), owner, index)
      ensures n > 0 ==> PathOf(INPLACE, key, n - 1) in keyAt
    {
      if n > 0 {
        PathNext(INPLACE, key, n - 1);
        assert Parent(PathOf(INPLACE, key, n)) == PathOf(INPLACE, key, n - 1);
      }
    }

    lemma Parts()
      requires Tied()
      ensures Keyed(model, nodes) && Lists(model, nodes)
      ensures TrieOk(model, place, keyAt, BranchMap(nodes), bucket[..])
    {
    }

    ghost method Adopt(model': map<nat, seq<Node<D>>>, place': map<nat, Path>, keyAt': map<Path, nat>, nodes': set<Node<D>>)
      requires Keyed(model', nodes') && Lists(model', nodes')
      requires TrieOk(model', place', keyAt', BranchMap(nodes'), bucket[..])
      modifies `model, `place, `keyAt, `nodes
      ensures Tied() && model == model' && nodes == nodes'
    {
      hide *;
      model, place, keyAt, nodes := model', place', keyAt', nodes';
      Whole();
    }

    lemma Whole()
      requires Keyed(model, nodes) && Lists(model, nodes)
      requires TrieOk(model, place, keyAt, BranchMap(nodes), bucket[..])
      ensures Tied()
    {
    }

    lemma FreshFacts(owner: Node?<D>, index: nat, insert: Node<D>, key: nat, n: nat)
      requires Tied() && key < Pow2(KEY_BIT) && insert !in nodes && insert.key == key && key !in model
      requires insert.branch == [null, null, null, null]
      requires At(key, n, owner, index) && PathOf(INPLACE, key, n) !in keyAt
      ensures Keyed(model[key := [insert]], nodes + {insert}) && Lists(model, nodes)
      ensures if owner == null then index < bucket.Length else owner in nodes && index < |owner.branch|
      ensures TrieOk(model[key := [insert]], place[key := PathOf(INPLACE, key, n)], keyAt[PathOf(INPLACE, key, n) := key],
                     SetBranch(BranchMap(nodes + {insert}), owner, index, insert), SetRoot(bucket[..], owner, index, insert))
    {
      hide *;
      Parts();
      AtPointsTo(key, n, owner, index);
      KeyedInsert(model, nodes, insert);
      FreshLists(model, nodes, key, insert);
      BranchValues(nodes);
      BranchInsert(nodes, insert);
      FreshOk(model, place, keyAt, BranchMap(nodes), bucket[..], key, n, owner, index, insert);
    }

    /** A fresh key: the node becomes a list of one, and a leaf of the trie. */
    method PutFresh(owner: Node?<D>, index: nat, insert: Node<D>, key: nat, ghost n: nat)
      requires Tied() && key < Pow2(KEY_BIT) && insert !in nodes && insert.key == key && key !in model
      requires insert.branch == [null, null, null, null]
      requires At(key, n, owner, index) && PathOf(INPLACE, key, n) !in keyAt
      modifies `model, `place, `keyAt, `nodes, bucket, nodes`branch, insert`next, insert`prev
      ensures Tied() && model == old(model)[key := [insert]] && nodes == old(nodes) + {insert}
    {
      hide *;
      AtPointsTo(key, n, owner, index);
      FreshFacts(owner, index, insert, key, n);
      ghost var p: Path := PathOf(INPLACE, key, n);
      var first := InsertFirst(insert);
      FreshLists(model, nodes, key, insert);
      SetSlot(owner, index, first, nodes + {insert});
      Adopt(model[key := [insert]], place[key := p], keyAt[p := key], nodes + {insert});
    }

    lemma SameFacts(insert: Node<D>, key: nat)
      requires Tied() && key in model && insert !in nodes && insert.key == key && key < Pow2(KEY_BIT)
      ensures Keyed(model, nodes) && Lists(model, nodes)
      ensures TrieOk(model[key := model[key] + [insert]], place, keyAt, BranchMap(nodes + {insert}), bucket[..])
    {
      hide IsList, Pow2, BranchOk, Shape, RootsOk, HeadsApart, BranchesOk;
      AppendFacts(model, nodes, insert, key);
      var model' := model[key := model[key] + [insert]];
      SameHeadsOk(model, place, keyAt, BranchMap(nodes), bucket[..], key, model'[key]);
      OtherBranchesOk(model', place, keyAt, BranchMap(nodes), BranchMap(nodes + {insert}), bucket[..]);
    }

    /** A key that is stored: the node joins the end of its list. */
    method AppendSame(head: Node<D>, insert: Node<D>, key: nat)
      requires Tied() && key in model && head == model[key][0] && insert !in nodes && insert.key == key
      requires key < Pow2(KEY_BIT)
      modifies `model, `place, `keyAt, `nodes, nodes`next, nodes`prev, insert`next, insert`prev
      ensures Tied() && model == old(model)[key := old(model)[key] + [insert]] && nodes == old(nodes) + {insert}
    {
      hide *;
      SameFacts(insert, key);
      AppendFacts(model, nodes, insert, key);
      ghost var s := model[key];
      InsertTailNotEmpty(head, insert, s);
      ElemsAppend(s, insert, nodes);
      ListsJoin(model, nodes - Elems(s), key, s + [insert], nodes + {insert});
      Adopt(model[key := s + [insert]], place, keyAt, nodes + {insert});
    }

    /** tommy_trie_inplace_insert. */
    method Insert(insert: Node<D>, data: D, key: nat)
      requires Valid() && key < Pow2(KEY_BIT) && insert !in nodes
      modifies this, bucket, insert, nodes`branch, nodes`next, nodes`prev
      ensures Valid() && insert.data == data && insert.key == key
      ensures model == old(model)[key := Listed(old(model), key) + [insert]]
      ensures nodes == old(nodes) + {insert}
    {
      hide Tied, IsList, Pow2, At, PathOf, Head;
      insert.data := data;
      insert.key := key;
      insert.branch := [null, null, null, null];
      var owner, index, node, n := Walk(key);
      if node == null {
        PutFresh(owner, index, insert, key, n);
        assert [] + [insert] == [insert];
      } else {
        AppendSame(node, insert, key);
      }
      count := count + 1;
    }

    /** Follows branches, the last one first, down to a node without any. */
    method FindLeaf(remove: Node<D>, ghost p: Path, ghost owner: Node?<D>, ghost index: nat,
                    ghost br: Branches<D>, ghost roots: seq<Node?<D>>)
      returns (leaf: Node<D>, leafOwner: Node?<D>, leafIndex: nat, ghost q: Path)
      requires TrieOk(model, place, keyAt, br, roots) && p in keyAt && PointsTo(model, keyAt, p, owner, index)
      requires remove == Head(model, keyAt, p)
      requires forall x {:trigger x.branch} | x in br && x != owner :: x.branch == br[x]
      ensures q in keyAt && Under(p, q) && leaf == Head(model, keyAt, q) && leaf in br && Childless(keyAt, q)
      ensures if leafOwner == null then q == p
              else q != p && leafOwner != owner && PointsTo(model, keyAt, q, leafOwner, leafIndex)
    {
      hide TrieOk, PointsTo, Head, Childless;
      leafOwner, leafIndex, leaf, q := null, 0, remove, p;
      SlotLength(model, keyAt, p, owner, index);
      LeafStep(model, place, keyAt, br, roots, p, owner, index, q);
      var i := TREE_MAX - 1;
      while i >= 0
        invariant -1 <= i < TREE_MAX
        invariant q in keyAt && Under(p, q) && leaf == Head(model, keyAt, q) && leaf != owner
        invariant |q| <= INPLACE.depth + 2 && leaf in br && |br[leaf]| == TREE_MAX
        invariant if leafOwner == null then q == p
                  else q != p && leafOwner != owner && PointsTo(model, keyAt, q, leafOwner, leafIndex)
        invariant forall d | i < d < TREE_MAX :: br[leaf][d] == null
        decreases INPLACE.depth + 2 - |q|, i
      {
        LeafStep(model, place, keyAt, br, roots, p, owner, index, q);
        assert leaf.branch == br[leaf];
        var child := leaf.branch[i];
        if child != null {
          assert br[leaf][i] == child;
          leafOwner, leafIndex := leaf, i;
          leaf := child;
          q := q + [i];
          LeafStep(model, place, keyAt, br, roots, p, owner, index, q);
          i := TREE_MAX - 1;
        } else {
          i := i - 1;
        }
      }
      LeafStep(model, place, keyAt, br, roots, p, owner, index, q);
      forall d | 0 <= d < TREE_MAX ensures Head(model, keyAt, q + [d]) == null {
        assert br[leaf][d] == null;
      }
      LeafIsChildless(model, place, keyAt, br, roots, q);
    }

    lemma VacateFacts(br: Branches<D>, roots: seq<Node?<D>>, remove: Node<D>, owner: Node?<D>, index: nat, key: nat)
      requires TrieOk(model, place, keyAt, br, roots)
      requires key in model && PointsTo(model, keyAt, place[key], owner, index) && remove == model[key][0]
      ensures place[key] in keyAt && keyAt[place[key]] == key && remove == Head(model, keyAt, place[key])
      ensures |roots| == BUCKET_MAX && if owner == null then index < |roots| else owner in br && index < |br[owner]|
    {
      hide Shape, BranchesOk;
      HeadAt(model, place, keyAt, key);
      if owner != null {
        ParentIn(place, keyAt, place[key]);
        assert BranchesOk(model, keyAt, br);
        OwnerBranches(model, keyAt, br, Parent(place[key]));
      }
    }

    /** The leaf leaves its slot, takes the branches of the removed node, and then its slot. */
    method SwapIn(remove: Node<D>, owner: Node?<D>, index: nat, leaf: Node<D>, leafOwner: Node<D>, leafIndex: nat,
                  ghost br: Branches<D>, ghost roots: seq<Node?<D>>)
      requires br.Keys == nodes && |roots| == bucket.Length && remove in br && leaf in br && leafOwner in br
      requires leafIndex < |br[leafOwner]|
      requires if owner == null then index < |roots| else owner in br && index < |br[owner]|
      requires owner != leaf && owner != leafOwner && owner != remove && leaf != leafOwner
      requires BranchMap(nodes) == SetBranch(br, owner, index, null) && bucket[..] == SetRoot(roots, owner, index, null)
      modifies bucket, nodes`branch
      ensures BranchMap(nodes) == PromotedBranches(br, owner, index, leafOwner, leafIndex, remove, leaf)
      ensures bucket[..] == SetRoot(roots, owner, index, leaf)
    {
      hide SetBranch, PromotedBranches, BranchMap;
      ghost var b0 := BranchMap(nodes);
      SetBranchLengths(br, owner, index, null);
      BranchValues(nodes);
      SetSlot(leafOwner, leafIndex, null, nodes);
      ghost var b1 := BranchMap(nodes);
      SetBranchLengths(b0, leafOwner, leafIndex, null);
      CopyBranches(leaf, remove, nodes);
      ghost var b2 := BranchMap(nodes);
      if owner != null {
        assert |b2[owner]| == |br[owner]|;
        BranchValues(nodes);
      }
      SetSlot(owner, index, leaf, nodes);
      assert bucket[..] == SetRoot(roots, owner, index, leaf);
      SwappedBranches(br, owner, index, leafOwner, leafIndex, remove, leaf);
    }

    /** The last node of a key goes: its slot is given up, or a leaf from below takes it over. */
    method Vacate(remove: Node<D>, owner: Node?<D>, index: nat, key: nat)
      returns (ghost place': map<nat, Path>, ghost keyAt': map<Path, nat>)
      requires TrieOk(model, place, keyAt, BranchMap(nodes), bucket[..])
      requires key in model && key in place && PointsTo(model, keyAt, place[key], owner, index) && remove == model[key][0]
      modifies bucket, nodes`branch
      ensures TrieOk(model - {key}, place', keyAt', BranchMap(nodes), bucket[..])
    {
      hide TrieOk, PointsTo, Head, Childless, BranchMap, SetBranch, SetRoot;
      ghost var br, roots, p := BranchMap(nodes), bucket[..], place[key];
      VacateFacts(br, roots, remove, owner, index, key);
      BranchValues(nodes);
      SetSlot(owner, index, null, nodes);
      SetBranchElsewhere(br, owner, index, null);
      BranchValues(nodes);
      var leaf, leafOwner, leafIndex, q := FindLeaf(remove, p, owner, index, br, roots);
      if leafOwner == null {
        DeleteOk(model, place, keyAt, br, roots, p, owner, index);
        place', keyAt' := place - {key}, keyAt - {p};
      } else {
        PromoteOk(model, place, keyAt, br, roots, p, owner, index, q, leafOwner, leafIndex);
        place', keyAt' := Lifted(place, keyAt, p, q).0, Lifted(place, keyAt, p, q).1;
        SwapIn(remove, owner, index, leaf, leafOwner, leafIndex, br, roots);
      }
    }

    lemma RelinkFacts(remove: Node<D>, first: Node?<D>, key: nat)
      requires Keyed(model, nodes) && key in model && DistinctNodes(model[key]) && remove in model[key]
      requires TrieOk(model, place, keyAt, BranchMap(nodes), bucket[..])
      requires var s := Without(model[key], remove); first == if s == [] then null else s[0]
      ensures model[key] != [] && bucket.Length == BUCKET_MAX && remove in nodes
      ensures var s := Without(model[key], remove);
              && Dropped(model, key, remove) == (if s == [] then model - {key} else model[key := s])
              && (first == null <==> s == []) && (first != null ==> s[0] == first && first in nodes)
              && (first == model[key][0] <==> remove != model[key][0])
              && (first != null && remove == model[key][0] ==> forall k | k in model :: model[k][0] != first)
    {
      hide TrieOk, Pow2, Without;
      var s := Without(model[key], remove);
      OwnKey(model, nodes, key, remove);
      WithoutDistinct(model[key], remove);
      WithoutFirst(model[key], remove);
      if first != null {
        assert first in s;
        OwnKey(model, nodes, key, first);
      }
      TableLength();
    }

    lemma TableLength()
      requires TrieOk(model, place, keyAt, BranchMap(nodes), bucket[..])
      ensures bucket.Length == BUCKET_MAX
    {
    }

    /** The pointer to the list and the branches of its first node, after `remove` left the list. */
    method Relink(remove: Node<D>, node: Node<D>, first: Node?<D>, owner: Node?<D>, index: nat, key: nat)
      returns (ghost place': map<nat, Path>, ghost keyAt': map<Path, nat>)
      requires Keyed(model, nodes) && key in model && DistinctNodes(model[key]) && remove in model[key]
      requires TrieOk(model, place, keyAt, BranchMap(nodes), bucket[..]) && model[key] != [] && node == model[key][0]
      requires key in place && PointsTo(model, keyAt, place[key], owner, index)
      requires var s := Without(model[key], remove); first == if s == [] then null else s[0]
      modifies bucket, nodes`branch
      ensures TrieOk(Dropped(model, key, remove), place', keyAt', BranchMap(nodes), bucket[..])
    {
      hide *;
      place', keyAt' := place, keyAt;
      ghost var s := Without(model[key], remove);
      RelinkFacts(remove, first, key);
      if first == node {
        SameHeadsOk(model, place, keyAt, BranchMap(nodes), bucket[..], key, s);
      } else if first != null {
        ghost var br := BranchMap(nodes);
        SubstituteOk(model, place, keyAt, br, bucket[..], key, owner, index, s);
        BranchValues(nodes);
        SetSlot(owner, index, first, nodes);
        SetBranchElsewhere(br, owner, index, first);
        CopyBranches(first, remove, nodes);
      } else {
        place', keyAt' := Vacate(remove, owner, index, key);
      }
    }

    /** The steps after the walk: the node leaves its list, and the pointers follow. */
    method TakeOut(remove: Node<D>, node: Node<D>, owner: Node?<D>, index: nat, key: nat)
      requires Tied() && remove in nodes && remove.key == key && key in model && model[key] != [] && node == model[key][0]
      requires key in place && PointsTo(model, keyAt, place[key], owner, index)
      modifies `model, `place, `keyAt, `nodes, bucket, nodes`branch, nodes`next, nodes`prev
      ensures Tied() && nodes == old(nodes) - {remove} && model == Dropped(old(model), key, remove)
    {
      hide *;
      Parts();
      UnlinkFacts(model, nodes, remove, key);
      var first := Unlink(node, remove, model[key]);
      ListsDrop(model, nodes, key, remove, first);
      ghost var place', keyAt' := Relink(remove, node, first, owner, index, key);
      LeftOut(Dropped(model, key, remove), place', keyAt', nodes, bucket[..], remove);
      Adopt(Dropped(model, key, remove), place', keyAt', nodes - {remove});
    }

    /** trie_inplace_bucket_remove: takes out the given node, or the first one of the key. */
    method BucketRemove(which: Node?<D>, key: nat) returns (remove: Node?<D>)
      requires Tied() && key < Pow2(KEY_BIT) && (which != null ==> which in nodes && which.key == key)
      modifies `model, `place, `keyAt, `nodes, bucket, nodes`branch, nodes`next, nodes`prev
      ensures Tied()
      ensures remove == null <==> key !in old(model)
      ensures remove == null ==> which == null && model == old(model) && nodes == old(nodes)
      ensures remove != null ==>
                && remove in old(nodes) && nodes == old(nodes) - {remove}
                && old(model)[key] != [] && remove == (if which != null then which else old(model)[key][0])
                && model == Dropped(old(model), key, remove)
    {
      hide *;
      var owner, index, node, n := Walk(key);
      RemoveTarget(which, node, key);
      if node == null {
        return null;
      }
      remove := if which == null then node else which;
      WalkedSlot(key, n, owner, index, node);
      TakeOut(remove, node, owner, index, key);
    }

    lemma RemoveTarget(which: Node?<D>, node: Node?<D>, key: nat)
      requires Tied() && (which != null ==> which in nodes && which.key == key)
      requires if node == null then key !in model else key in model && node == model[key][0]
      ensures node == null ==> which == null
      ensures node != null ==> model[key] != [] && node in nodes && node.key == key
    {
      hide TrieOk, Pow2;
    }

    lemma WalkedSlot(key: nat, n: nat, owner: Node?<D>, index: nat, node: Node?<D>)
      requires Walked(key, n, owner, index, node) && key in place && place[key] == PathOf(INPLACE, key, n)
      ensures PointsTo(model, keyAt, place[key], owner, index)
    {
      AtPointsTo(key, n, owner, index);
    }

    /** tommy_trie_inplace_remove: the first node of the key leaves. */
    method Remove(key: nat) returns (removed: Node?<D>)
      requires Valid() && key < Pow2(KEY_BIT)
      modifies this, bucket, nodes`branch, nodes`next, nodes`prev
      ensures Valid()
      ensures if key in old(model)
              then old(model)[key] != [] && removed == old(model)[key][0]
                   && nodes == old(nodes) - {removed} && model == Dropped(old(model), key, removed)
              else removed == null && model == old(model) && nodes == old(nodes)
    {
      hide Tied, Pow2, Dropped;
      removed := BucketRemove(null, key);
      if removed != null {
        count := count - 1;
      }
    }

    lemma StoredKey(node: Node<D>)
      requires Tied() && node in nodes
      ensures node.key in model && node.key < Pow2(KEY_BIT)
    {
      hide Pow2, TrieOk, IsList;
    }

    /** tommy_trie_inplace_remove_existing: the given node leaves, wherever it is in its list. */
    method RemoveExisting(node: Node<D>) returns (data: D)
      requires Valid() && node in nodes
      modifies this, bucket, nodes`branch, nodes`next, nodes`prev
      ensures Valid() && data == node.data
      ensures node.key in old(model) && nodes == old(nodes) - {node} && model == Dropped(old(model), node.key, node)
    {
      hide Tied, Pow2, Dropped;
      StoredKey(node);
      var removed := BucketRemove(node, node.key);
      assert removed == node;
      count := count - 1;
      data := removed.data;
    }
  }
}
