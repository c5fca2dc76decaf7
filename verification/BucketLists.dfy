/**
 * The live buckets of a hashlin: each cell of the bucket table below |lists| heads the
 * half-circular list of one bucket.  The operations are the list manipulations that
 * tommyhashlin.c performs on buckets.
 */
module BucketLists {
  import opened Bits
  import opened TommyList
  import opened NodeSeqs
  import opened BucketTable

  class BucketLists<D> {
    const table: BucketTable<Node?<D>>
    ghost var lists: seq<seq<Node<D>>>
    /** The bucket of every stored node. */
    ghost var owner: map<Node<D>, nat>

    ghost predicate Owns(p: nat)
      reads this
      requires p < |lists|
    {
      forall i | 0 <= i < |lists[p]| :: lists[p][i] in owner && owner[lists[p][i]] == p
    }

    ghost predicate Chained(p: nat)
      reads this, table, owner.Keys`next, owner.Keys`prev
      requires p < |lists| && p < |table.cells| && Owns(p)
    {
      IsList(table.cells[p], lists[p])
    }

    /** Everything is in order, except for what bucket `hole` holds. */
    ghost predicate ValidBut(hole: nat)
      reads this, table, table.Repr, owner.Keys`next, owner.Keys`prev
    {
      && this !in table.Repr
      && table.Valid()
      && |lists| <= |table.cells|
      && (forall x | x in owner.Keys :: x !in table.Repr)
      && (forall p | 0 <= p < |lists| && p != hole :: Owns(p))
      && (forall p | 0 <= p < |lists| && p != hole :: Chained(p))
    }

    ghost predicate Valid()
      reads this, table, table.Repr, owner.Keys`next, owner.Keys`prev
    {
      ValidBut(|lists|)
    }

    constructor ()
      ensures Valid() && fresh(this) && fresh(table) && fresh(table.Repr)
      ensures table.bucketBit == MIN_BIT && owner == map[]
      ensures lists == seq(Pow2(MIN_BIT), _ => [])
    {
      table := new BucketTable(null);
      owner := map[];
      lists := seq(Pow2(MIN_BIT), _ => []);
    }

    /** Stores the head of a list whose nodes all belong to bucket p. */
    method SetHead(p: nat, head: Node?<D>, ghost list: seq<Node<D>>)
      requires ValidBut(p) && p < |lists|
      requires IsList(head, list)
      requires forall i | 0 <= i < |list| :: list[i] in owner && owner[list[i]] == p
      modifies this`lists, table.Repr
      ensures Valid() && table.Repr == old(table.Repr) && table.bucketBit == old(table.bucketBit)
      ensures lists == old(lists)[p := list] && |table.cells| == |old(table.cells)|
    {
      table.Store(p, head);
      lists := lists[p := list];
      forall q | 0 <= q < |lists| ensures Owns(q) && Chained(q) {
        if q != p {
          assert old(Owns(q)) && old(Chained(q));
        }
      }
    }

    /** Appends a detached node to bucket p, in front of an empty one or behind its tail. */
    method Push(p: nat, node: Node<D>)
      requires Valid() && p < |lists| && node !in owner && node !in table.Repr
      modifies this, table.Repr, owner.Keys`next, owner.Keys`prev, node`next, node`prev
      ensures Valid() && table.Repr == old(table.Repr) && table.bucketBit == old(table.bucketBit)
      ensures lists == old(lists)[p := old(lists)[p] + [node]] && owner == old(owner)[node := p]
      ensures |table.cells| == |old(table.cells)|
    {
      hide IsList, BucketTable.Valid;
      assert Owns(p) && Chained(p);
      ghost var list := lists[p];
      var head := table.Load(p);
      owner := owner[node := p];
      head := Append(head, node, list);
      forall q | 0 <= q < |lists| && q != p ensures Owns(q) && Chained(q) {
        assert old(Owns(q)) && old(Chained(q));
      }
      SetHead(p, head, list + [node]);
    }

    /** tommy_list_remove_existing on bucket p. */
    method Remove(p: nat, node: Node<D>, ghost k: nat)
      requires Valid() && p < |lists| && k < |lists[p]| && lists[p][k] == node
      modifies this, table.Repr, owner.Keys`next, owner.Keys`prev
      ensures Valid() && table.Repr == old(table.Repr) && table.bucketBit == old(table.bucketBit)
      ensures lists == old(lists)[p := old(lists)[p][..k] + old(lists)[p][k + 1..]]
      ensures owner == old(owner) - {node} && |table.cells| == |old(table.cells)|
    {
      hide BucketTable.Valid;
      assert Owns(p) && Chained(p);
      ghost var list := lists[p];
      var head := table.Load(p);
      owner := owner - {node};
      var data;
      head, data := RemoveExisting(head, node, list, k);
      forall q | 0 <= q < |lists| && q != p ensures Owns(q) && Chained(q) {
        assert old(Owns(q)) && old(Chained(q));
      }
      SetHead(p, head, list[..k] + list[k + 1..]);
    }

    /** Concatenates the last live bucket to bucket `low`; its own cell is left as it is. */
    method Merge(low: nat, high: nat)
      requires Valid() && low < high == |lists| - 1
      modifies this, table.Repr, owner.Keys`next, owner.Keys`prev
      ensures Valid() && table.Repr == old(table.Repr) && table.bucketBit == old(table.bucketBit)
      ensures lists == old(lists)[..high][low := old(lists)[low] + old(lists)[high]]
      ensures owner.Keys == old(owner).Keys && |table.cells| == |old(table.cells)|
    {
      hide IsList, BucketTable.Valid;
      assert Owns(low) && Chained(low) && Owns(high) && Chained(high);
      ghost var lo, hi := lists[low], lists[high];
      var first := table.Load(low);
      var second := table.Load(high);
      lists := lists[..high];
      owner := map x | x in owner :: if owner[x] == high then low else owner[x];
      first := Concat(first, second, lo, hi);
      forall q | 0 <= q < |lists| && q != low ensures Owns(q) && Chained(q) {
        assert old(Owns(q)) && old(Chained(q));
      }
      SetHead(low, first, lo + hi);
    }

    /** The high cell becomes live: reset both cells and detach the chain of the low one. */
    method Detach(low: nat, high: nat) returns (chain: Node?<D>)
      requires Valid() && low < high == |lists| < |table.cells|
      modifies this, table.Repr
      ensures Valid() && table.Repr == old(table.Repr) && table.bucketBit == old(table.bucketBit)
      ensures lists == old(lists)[low := []] + [[]] && |table.cells| == |old(table.cells)|
      ensures owner == old(owner) - (set x | x in old(lists)[low])
      ensures IsList(chain, old(lists)[low])
    {
      hide BucketTable.Valid;
      assert Owns(low) && Chained(low);
      chain := table.Load(low);
      ghost var list := lists[low];
      owner := owner - (set x | x in list);
      forall q | 0 <= q < |lists| && q != low ensures Owns(q) && Chained(q) {
        assert old(Owns(q)) && old(Chained(q));
      }
      SetHead(low, null, []);
      label Reset:
      lists := lists + [[]];
      forall q | 0 <= q < |lists| - 1 ensures Owns(q) && Chained(q) {
        assert old@Reset(Owns(q)) && old@Reset(Chained(q));
      }
      SetHead(high, null, []);
    }

    /** Nodes chain[..k] are distributed over the two buckets, chain[k..] is still to be flushed. */
    ghost predicate Flushing(before: seq<seq<Node<D>>>, low: nat, mask: nat, chain: seq<Node<D>>, k: nat)
      reads this, table, table.Repr, owner.Keys`next, owner.Keys`prev, chain`next, chain`key
      requires low < |before| && mask > 0 && k <= |chain|
    {
      && Valid() && |lists| <= |table.cells|
      && |lists| == |before| + 1
      && lists[low] == Select(chain[..k], HasBit(mask, false))
      && lists[|before|] == Select(chain[..k], HasBit(mask, true))
      && (forall q | 0 <= q < |before| && q != low :: lists[q] == before[q])
      && (forall i | 0 <= i < |chain| :: chain[i] !in table.Repr)
      && (forall i | k <= i < |chain| :: chain[i] !in owner)
      && (forall i {:trigger chain[i].next} | k <= i < |chain| ::
            chain[i].next == if i + 1 < |chain| then chain[i + 1] else null)
    }

    /** Moves one node of the old chain. */
    method FlushNode(low: nat, high: nat, mask: nat, ghost bit: nat, j: Node<D>,
                     ghost before: seq<seq<Node<D>>>, ghost chain: seq<Node<D>>, ghost k: nat)
      requires mask == Pow2(bit) && low < high == |before| && k < |chain| && chain[k] == j && DistinctNodes(chain)
      requires Flushing(before, low, mask, chain, k)
      modifies this, table.Repr, owner.Keys`next, owner.Keys`prev, j`next, j`prev
      ensures Flushing(before, low, mask, chain, k + 1)
      ensures owner.Keys == old(owner).Keys + {j}
      ensures table.Repr == old(table.Repr) && table.bucketBit == old(table.bucketBit)
      ensures |table.cells| == |old(table.cells)|
    {
      var up := And(j.key, mask) != 0;
      ghost var lo, hi := Select(chain[..k + 1], HasBit(mask, false)), Select(chain[..k + 1], HasBit(mask, true));
      assert lo == (if up then lists[low] else lists[low] + [j]) && hi == (if up then lists[high] + [j] else lists[high]) by {
        AndOneBit(j.key, bit);
        assert chain[..k + 1] == chain[..k] + [j];
        SelectAppend(chain[..k], j, HasBit(mask, false));
        SelectAppend(chain[..k], j, HasBit(mask, true));
      }
      Push(if up then high else low, j);
    }

    /** One split: the nodes with the `mask` bit move to bucket `high`, the others stay; both keep order. */
    method Split(low: nat, high: nat, mask: nat, ghost bit: nat)
      requires Valid() && low < high == |lists| < |table.cells| && mask == Pow2(bit)
      modifies this, table.Repr, owner.Keys`next, owner.Keys`prev
      ensures Valid() && table.Repr == old(table.Repr) && table.bucketBit == old(table.bucketBit)
      ensures lists == old(SplitLists(lists, mask, low))
      ensures owner.Keys <= old(owner).Keys && |table.cells| == |old(table.cells)|
    {
      ghost var before, chain := lists, lists[low];
      ghost var after := SplitLists(lists, mask, low);
      assert Owns(low) && Chained(low);
      assert chain[..0] == [];
      var j := Detach(low, high);
      ghost var k := 0;
      while j != null
        invariant k <= |chain| && j == (if k < |chain| then chain[k] else null)
        invariant Flushing(before, low, mask, chain, k)
        invariant owner.Keys <= old(owner).Keys
        invariant table.Repr == old(table.Repr) && table.bucketBit == old(table.bucketBit)
        invariant |table.cells| == |old(table.cells)|
        decreases |chain| - k
      {
        var next := j.next;
        FlushNode(low, high, mask, bit, j, before, chain, k);
        j := next;
        k := k + 1;
      }
      assert chain[..k] == chain;
      assert lists == after;
    }

    /** Allocates the next segment; no live bucket moves. */
    method Grow()
      requires Valid() && table.bucketBit < MAX_BIT
      modifies table.Repr
      ensures Valid() && fresh(table.Repr - old(table.Repr)) && old(table.Repr) <= table.Repr
      ensures table.bucketBit == old(table.bucketBit) + 1 && |table.cells| == 2 * |old(table.cells)|
    {
      table.GrowSegment();
      forall q | 0 <= q < |lists| ensures Owns(q) && Chained(q) {
        assert old(Owns(q)) && old(Chained(q));
        assert table.cells[q] == table.cells[..|old(table.cells)|][q];
      }
    }

    /** Frees the top segment once no live bucket is in it. */
    method FreeTop()
      requires Valid() && table.bucketBit > MIN_BIT && 2 * |lists| <= |table.cells|
      modifies table.Repr
      ensures Valid() && table.Repr == old(table.Repr) && table.bucketBit == old(table.bucketBit) - 1
      ensures |old(table.cells)| == 2 * |table.cells|
    {
      table.FreeTopSegment();
      forall q | 0 <= q < |lists| ensures Owns(q) && Chained(q) {
        assert old(Owns(q)) && old(Chained(q));
      }
    }
  }

  /** Whether the hash bit with weight `mask` has the given value. */
  function HasBit(mask: nat, bit: bool): nat -> bool
    requires mask > 0
  {
    key => (key / mask % 2 == 1) == bit
  }

  /** Bucket `split` divided by the mask bit: one half stays, the other is appended as a new bucket. */
  ghost function SplitLists<D>(lists: seq<seq<Node<D>>>, lowMax: nat, split: nat): seq<seq<Node<D>>>
    reads if split < |lists| then lists[split] else []
    requires lowMax > 0 && split < |lists|
  {
    lists[split := Select(lists[split], HasBit(lowMax, false))] + [Select(lists[split], HasBit(lowMax, true))]
  }
}
