/**
 * tommy_hashlin: linear hashing that splits or merges buckets as nodes come and go.
 * Every operation is proved against `log`, the stored nodes in insertion order.
 */
module Hashlin {
  import opened Wrappers
  import opened Bits
  import opened TommyList
  import opened NodeSeqs
  import opened BucketTable
  import opened BucketLists
  import opened HashlinSpec
  import opened HashlinSizes

  /** `8 * count` is a 32-bit product. */
  const MAX_COUNT: nat := 0x2000_0000

  lemma TablePowers(bit: nat)
    requires bit >= MIN_BIT
    ensures Pow2(bit) >= 64 && Pow2(bit) % 8 == 0 && (bit > MIN_BIT ==> Pow2(bit) % 16 == 0 && Pow2(bit) >= 128)
    ensures Pow2(bit) == 64 <==> bit == MIN_BIT
  {
    assert Pow2(3) == 8 && Pow2(4) == 16 && Pow2(6) == 64 && Pow2(7) == 128;
    Pow2Add(3, bit - 3);
    Pow2Add(4, bit - 4);
    Pow2Monotone(6, bit);
    if bit > MIN_BIT {
      Pow2Monotone(7, bit);
    }
  }

  class Hashlin<D> {
    const buckets: BucketLists<D>
    var bucketMax: nat
    var bucketMask: nat
    var lowMax: nat
    var lowMask: nat
    var split: nat
    var count: nat
    var state: State
    ghost var log: seq<Node<D>>

    /** The numbers fit together, possibly in the middle of a resize. */
    ghost predicate Layout()
      reads this, buckets, buckets.table
    {
      && MIN_BIT <= buckets.table.bucketBit <= 30
      && bucketMax == Pow2(buckets.table.bucketBit) == |buckets.table.cells| && bucketMask == bucketMax - 1
      && lowMax > 0 && lowMask == lowMax - 1
      && if state == Stable then lowMax == bucketMax && split == 0
         else bucketMax == 2 * lowMax && split <= lowMax && buckets.table.bucketBit > MIN_BIT
    }

    ghost function Size(): Sizes
      reads `state, `bucketMax, `lowMax, `split
    {
      Sizes(state, bucketMax, lowMax, split)
    }

    /** The same, without the table: the half, the minimum, and divisibility by eight. */
    ghost predicate Numbers()
      reads this
    {
      && 64 <= lowMax <= bucketMax && bucketMax % 8 == 0 && (bucketMax > 64 ==> bucketMax % 16 == 0)
      && if state == Stable then lowMax == bucketMax && split == 0
         else bucketMax == 2 * lowMax && split <= lowMax
    }

    lemma LayoutNumbers()
      requires Layout()
      ensures Numbers()
      ensures bucketMax == 64 <==> buckets.table.bucketBit == MIN_BIT
    {
      TablePowers(buckets.table.bucketBit);
      hide Pow2;
    }

    lemma ConsistentNumbers()
      requires Consistent()
      ensures Numbers() && buckets.table.bucketBit >= MIN_BIT
      ensures bucketMax == 64 <==> buckets.table.bucketBit == MIN_BIT
    {
      hide Refines, BucketLists.Valid, Members, DistinctNodes;
      LayoutNumbers();
    }

    ghost predicate Consistent()
      reads this, buckets, buckets.table, buckets.table.Repr, log
    {
      && this !in buckets.table.Repr
      && (forall x | x in log :: x !in buckets.table.Repr)
      && (forall x | x in buckets.owner.Keys :: x in log)
      && buckets.Valid()
      && Layout()
      && DistinctNodes(log)
      && count == |log| < MAX_COUNT
      && |buckets.lists| == lowMax + split
      && Members(buckets.lists, log)
      && Refines(buckets.lists, log, lowMax, split)
    }

    constructor ()
      ensures Valid() && Consistent() && log == [] && Size() == INITIAL
      ensures fresh(buckets) && fresh(buckets.table) && fresh(buckets.table.Repr)
    {
      buckets := new BucketLists();
      bucketMax, bucketMask := 64, 63;
      lowMax, lowMask, split := 64, 63, 0;
      state := Stable;
      count := 0;
      log := [];
      new;
      assert Pow2(MIN_BIT) == 64;
    }

    /** The masks of the current state address the live bucket. */
    lemma MasksAddress(hash: nat)
      requires Layout()
      ensures var pos := And(hash, lowMask);
              Position(lowMax, split, hash) == if pos < split then And(hash, bucketMask) else pos
    {
      hide And, Position;
      if state == Stable {
        PositionByMask(hash, buckets.table.bucketBit, 0);
      } else {
        PositionByMask(hash, buckets.table.bucketBit - 1, split);
      }
    }

    /** tommy_hashlin_bucket_ref: the position of the bucket of a hash. */
    method BucketRef(hash: nat) returns (pos: nat)
      requires Layout()
      ensures pos == Position(lowMax, split, hash)
    {
      hide And, Position, Pow2;
      MasksAddress(hash);
      pos := And(hash, lowMask);
      var highPos := And(hash, bucketMask);
      if pos < split {
        pos := highPos;
      }
    }

    /** tommy_hashlin_stable, called when no split or every split is done. */
    method SetStable()
      requires Consistent() && (state != Stable ==> split == lowMax)
      modifies this`state, this`lowMax, this`lowMask, this`split
      ensures Consistent() && state == Stable && lowMax == bucketMax && split == 0
    {
      if state != Stable {
        RefinesDoubled(buckets.lists, log, lowMax);
      }
      hide Refines;
      state := Stable;
      lowMax := bucketMax;
      lowMask := bucketMask;
      split := 0;
    }

    /** The body of the split loop, up to the test for completion. */
    method SplitOne()
      requires Consistent() && state == Grow && split < lowMax
      modifies this`split, buckets, buckets.table.Repr, log`next, log`prev
      ensures Consistent() && split == old(split) + 1
      ensures log == old(log) && count == old(count) && state == old(state)
      ensures lowMax == old(lowMax) && bucketMax == old(bucketMax)
      ensures buckets.table.Repr == old(buckets.table.Repr)
    {
      hide Refines;
      assert buckets.table.bucketBit > 6 && lowMax == Pow2(buckets.table.bucketBit - 1);
      assert split + lowMax == |buckets.lists| < |buckets.table.cells|;
      RefinesSplit(buckets.lists, log, lowMax, split);
      hide *;
      buckets.Split(split, split + lowMax, lowMax, buckets.table.bucketBit - 1);
      split := split + 1;
    }

    /** The body of the merge loop, up to the test for completion. */
    method MergeOne()
      requires Consistent() && state == Shrink && 0 < split <= lowMax
      modifies this`split, buckets, buckets.table.Repr, log`next, log`prev
      ensures Consistent() && split == old(split) - 1
      ensures log == old(log) && count == old(count) && state == old(state)
      ensures lowMax == old(lowMax) && bucketMax == old(bucketMax)
      ensures buckets.table.Repr == old(buckets.table.Repr)
    {
      hide Refines, BucketLists.Valid;
      ghost var low := split - 1;
      RefinesMerge(buckets.lists, log, lowMax, low);
      ghost var lists := buckets.lists[..lowMax + low][low := buckets.lists[low] + buckets.lists[lowMax + low]];
      split := split - 1;
      buckets.Merge(split, split + lowMax);
      assert buckets.lists == lists;
    }

    /** Leaves the stable state to grow: the new segment is not initialised. */
    method StartGrow()
      requires Consistent() && state == Stable && count > bucketMax / 2
      modifies this, buckets.table.Repr
      ensures Consistent() && state == Grow && split == 0 && lowMax == old(bucketMax) && bucketMax == 2 * lowMax
      ensures log == old(log) && count == old(count)
      ensures fresh(buckets.table.Repr - old(buckets.table.Repr))
    {
      assert buckets.table.bucketBit < 30 by {
        Pow2Values();
        Pow2Less(buckets.table.bucketBit, 30);
      }
      hide Refines, BucketLists.Valid;
      lowMax := bucketMax;
      lowMask := bucketMask;
      buckets.Grow();
      bucketMax := Pow2(buckets.table.bucketBit);
      bucketMask := bucketMax - 1;
      split := 0;
      state := Grow;
    }

    /** Leaves the stable state to shrink, from the half going backward. */
    method StartShrink()
      requires Consistent() && state == Stable && buckets.table.bucketBit > MIN_BIT
      modifies this`lowMax, this`lowMask, this`split, this`state
      ensures Consistent() && Numbers() && state == Shrink && split == lowMax == bucketMax / 2
    {
      assert bucketMax == 2 * (bucketMax / 2);
      RefinesDoubled(buckets.lists, log, bucketMax / 2);
      hide Refines;
      lowMax := bucketMax / 2;
      lowMask := bucketMask / 2;
      split := lowMax;
      state := Shrink;
      LayoutNumbers();
    }

    /** Continues a resize in the other direction from where it stands. */
    method TurnAround(direction: State)
      requires Consistent() && state != Stable && direction != Stable
      modifies this`state
      ensures Consistent() && state == direction
    {
      hide Refines, BucketLists.Valid;
      state := direction;
    }

    /** Every pair is merged: drop the top segment and go stable. */
    method FinishShrink()
      requires Consistent() && state == Shrink && split == 0
      modifies this, buckets.table.Repr
      ensures Consistent() && Numbers() && state == Stable && split == 0 && lowMax == bucketMax == old(lowMax)
      ensures log == old(log) && count == old(count) && buckets.table.Repr == old(buckets.table.Repr)
    {
      hide Refines;
      buckets.FreeTop();
      bucketMax := Pow2(buckets.table.bucketBit);
      bucketMask := bucketMax - 1;
      state := Stable;
      lowMax := bucketMax;
      lowMask := bucketMask;
      split := 0;
      LayoutNumbers();
    }

    /**
     * What holds between operations when n nodes are stored.  Growing keeps at least two live
     * buckets per node, shrinking at most eight.
     */
    ghost predicate SettledAt(n: int)
      reads this
    {
      match state
      case Stable => 2 * n <= bucketMax + 2 && (bucketMax == 64 || bucketMax <= 8 * n)
      case Grow => 0 < split < lowMax && 2 * n <= lowMax + split && bucketMax <= 8 * n
      case Shrink => 0 < split < lowMax && lowMax + split <= 8 * n && 2 * n <= bucketMax
    }

    ghost predicate Valid()
      reads this, buckets, buckets.table, buckets.table.Repr, log
    {
      Consistent() && SettledAt(count)
    }

    /** The states between operations, and the load of the live buckets in each. */
    lemma StateMachine()
      requires Valid()
      ensures bucketMax == Pow2(buckets.table.bucketBit) >= 64
      ensures if state == Stable then lowMax == bucketMax && split == 0
              else bucketMax == 2 * lowMax && 1 <= split < lowMax
      ensures count == |log| <= lowMax + split
      ensures state != Shrink ==> count <= (lowMax + split) / 2 + 1
      ensures lowMax + split == 64 || lowMax + split <= 8 * count
    {
      hide Refines, BucketLists.Valid, Members, DistinctNodes, Pow2;
      ConsistentNumbers();
    }

    lemma Counted()
      requires Valid()
      ensures count == |log| && DistinctNodes(log) && |log| < MAX_COUNT
      ensures this !in buckets.table.Repr && forall x | x in log :: x !in buckets.table.Repr
    {
      hide Refines, BucketLists.Valid;
    }

    /** The split loop: live buckets are added one by one up to the target, or to the end of the segment. */
    method SplitUntil(target: nat) returns (ghost splits: nat)
      requires Consistent() && Numbers() && state == Grow && split < lowMax
      modifies this`state, this`lowMax, this`lowMask, this`split, buckets, buckets.table.Repr, log`next, log`prev
      ensures Consistent() && Numbers() && log == old(log) && count == old(count) && bucketMax == old(bucketMax)
      ensures state == (if split == 0 < splits then Stable else Grow) && (state == Grow ==> split < lowMax)
      ensures lowMax + split == old(lowMax + split) + splits
      ensures lowMax + split == Max(old(lowMax + split), Min(target, bucketMax))
      ensures buckets.table.Repr == old(buckets.table.Repr)
    {
      hide Consistent;
      splits := 0;
      while split + lowMax < target
        invariant Consistent() && Numbers() && log == old(log) && count == old(count) && bucketMax == old(bucketMax)
        invariant state == Grow && split < lowMax == old(lowMax) && split == old(split) + splits
        invariant splits == 0 || split + lowMax <= target
        invariant buckets.table.Repr == old(buckets.table.Repr)
        decreases lowMax - split
      {
        SplitOne();
        splits := splits + 1;
        if split == lowMax {
          SetStable();
          break;
        }
      }
    }

    /** The first half of hashlin_grow_step: start growing, or turn a shrinking around, above 50%. */
    method DecideGrow()
      requires Consistent() && SettledAt(count - 1)
      modifies this, buckets.table.Repr
      ensures Consistent() && Numbers() && log == old(log) && count == old(count)
      ensures fresh(buckets.table.Repr - old(buckets.table.Repr))
      ensures if state != Grow then SettledAt(count)
              else split < lowMax && 2 * count <= bucketMax + 2 && bucketMax <= 8 * count && (split == 0 ==> lowMax < 2 * count)
      ensures old(state) != Shrink && state == Grow ==> 2 * count <= lowMax + split + 4
      ensures Size() == GrowDecision(old(Size()), count)
    {
      hide Consistent;
      ConsistentNumbers();
      if state != Grow && count > bucketMax / 2 {
        if state == Stable {
          StartGrow();
        } else {
          TurnAround(Grow);
        }
        ConsistentNumbers();
      }
    }

    /** hashlin_grow_step, right after one node was added. */
    method GrowStep() returns (ghost splits: nat)
      requires Consistent() && SettledAt(count - 1)
      modifies this, buckets, buckets.table.Repr, log`next, log`prev
      ensures Valid() && log == old(log) && count == old(count)
      ensures fresh(buckets.table.Repr - old(buckets.table.Repr))
      ensures Size() == Grown(old(Size()), count) && splits == Splits(old(Size()), count)
      ensures old(state) != Shrink ==> splits <= 4
      ensures old(state) == Shrink ==> splits == if count > old(bucketMax) / 2 then old(lowMax - split) else 0
    {
      hide Consistent;
      splits := 0;
      DecideGrow();
      if state == Grow {
        splits := SplitUntil(2 * count);
      }
    }

    /** The merge loop: live buckets are folded one by one down to the target, or to the lower half. */
    method MergeUntil(target: nat) returns (ghost merges: nat)
      requires Consistent() && Numbers() && state == Shrink && 0 < split
      modifies this, buckets, buckets.table.Repr, log`next, log`prev
      ensures Consistent() && Numbers() && log == old(log) && count == old(count) && lowMax == old(lowMax)
      ensures state == (if split == 0 then Stable else Shrink)
      ensures lowMax + split + merges == old(lowMax + split)
      ensures lowMax + split == Min(old(lowMax + split), Max(target, lowMax))
      ensures buckets.table.Repr == old(buckets.table.Repr)
    {
      hide Consistent;
      merges := 0;
      while split + lowMax > target
        invariant Consistent() && Numbers() && log == old(log) && count == old(count) && lowMax == old(lowMax)
        invariant state == Shrink && 0 < split && split + merges == old(split)
        invariant merges == 0 || split + lowMax >= target
        invariant buckets.table.Repr == old(buckets.table.Repr)
        decreases split
      {
        MergeOne();
        merges := merges + 1;
        if split == 0 {
          FinishShrink();
          break;
        }
      }
    }

    /** The first half of hashlin_shrink_step: start shrinking, or turn a growth around, below 12.5%. */
    method DecideShrink()
      requires Consistent() && SettledAt(count + 1)
      modifies this`lowMax, this`lowMask, this`split, this`state
      ensures Consistent() && Numbers()
      ensures if state != Shrink then SettledAt(count)
              else 0 < split && lowMax + split <= 8 * count + 8 && 2 * count <= bucketMax
                   && (split == lowMax ==> 8 * count < bucketMax)
      ensures Size() == ShrinkDecision(old(Size()), count)
    {
      hide Consistent;
      ConsistentNumbers();
      if state != Shrink && count < bucketMax / 8 {
        if buckets.table.bucketBit > MIN_BIT {
          if state == Stable {
            StartShrink();
          } else {
            TurnAround(Shrink);
          }
        }
      }
    }

    /** hashlin_shrink_step, right after one node was removed. */
    method ShrinkStep() returns (ghost merges: nat)
      requires Consistent() && SettledAt(count + 1)
      modifies this, buckets, buckets.table.Repr, log`next, log`prev
      ensures Valid() && log == old(log) && count == old(count)
      ensures buckets.table.Repr == old(buckets.table.Repr)
      ensures Size() == Shrunk(old(Size()), count) && merges == Merges(old(Size()), count) <= 8
    {
      hide Consistent;
      merges := 0;
      DecideShrink();
      if state == Shrink {
        merges := MergeUntil(8 * count);
      }
    }

    /**
     * tommy_hashlin_insert.  At most four buckets are split, unless the node turns a shrinking table around
     * that has merged more than four pairs: then all of these are split again at once.
     */
    method Insert(node: Node<D>, data: D, hash: nat) returns (ghost splits: nat)
      requires Valid() && |log| + 1 < MAX_COUNT
      requires node !in log && node !in buckets.table.Repr
      modifies this, buckets, buckets.table.Repr, log`next, log`prev, node
      ensures Valid() && log == old(log) + [node] && node.key == hash && node.data == data
      ensures fresh(buckets.table.Repr - old(buckets.table.Repr))
      ensures Size() == Grown(old(Size()), count) && splits == Splits(old(Size()), count)
      ensures splits <= 4 <==> !(old(state) == Shrink && old(count) + 1 > old(bucketMax) / 2 && old(lowMax - split) > 4)
      ensures splits > 4 ==> splits == old(lowMax - split)
    {
      LinkNode(node, data, hash);
      splits := GrowStep();
    }

    /** Appends a node to its bucket. */
    method LinkNode(node: Node<D>, data: D, hash: nat)
      requires Consistent() && |log| + 1 < MAX_COUNT
      requires node !in log && node !in buckets.table.Repr
      modifies this`log, this`count, buckets, buckets.table.Repr, log`next, log`prev, node
      ensures Consistent() && log == old(log) + [node] && node.key == hash && node.data == data
      ensures count == old(count) + 1 && buckets.table.Repr == old(buckets.table.Repr)
    {
      hide Refines, BucketLists.Valid, Position;
      var pos := BucketRef(hash);
      node.data := data;
      node.key := hash;
      RefinesInsert(buckets.lists, log, lowMax, split, node);
      assert node !in buckets.owner && pos < |buckets.lists|;
      buckets.Push(pos, node);
      count := count + 1;
      log := log + [node];
    }

    /** Takes the node at index k of bucket `pos` out. */
    method UnlinkNode(pos: nat, node: Node<D>, ghost k: nat)
      requires Consistent() && pos == Position(lowMax, split, node.key)
      requires k < |buckets.lists[pos]| && buckets.lists[pos][k] == node
      modifies this`log, this`count, buckets, buckets.table.Repr, log`next, log`prev
      ensures Consistent() && log == old(Without(log, node)) && count == old(count) - 1
      ensures forall i | 0 <= i < |log| :: log[i] in old(log)
      ensures buckets.table.Repr == old(buckets.table.Repr)
    {
      hide Refines, BucketLists.Valid, Position, Without;
      ghost var lists := buckets.lists;
      DistinctLists();
      RefinesRemove(lists, log, lowMax, split, node, k);
      ghost var after, lists' := Without(log, node), lists[pos := lists[pos][..k] + lists[pos][k + 1..]];
      WithoutDistinct(log, node);
      assert forall x | x in after :: x in log;
      count := count - 1;
      log := after;
      buckets.Remove(pos, node, k);
      assert buckets.lists == lists';
    }

    lemma DistinctLists()
      requires Consistent()
      ensures forall p | 0 <= p < |buckets.lists| :: DistinctNodes(buckets.lists[p])
    {
      forall p | 0 <= p < |buckets.lists| ensures DistinctNodes(buckets.lists[p]) {
        assert buckets.Owns(p) && buckets.Chained(p);
      }
    }

    lemma Separate()
      requires Consistent() || Valid()
      ensures this !in buckets.table.Repr && forall x | x in log :: x !in buckets.table.Repr
    {
    }

    /** A stored node is in the bucket of its own key. */
    lemma Locate(node: Node<D>) returns (k: nat)
      requires Consistent() && node in log
      ensures Layout()
      ensures var pos := Position(lowMax, split, node.key);
              pos < |buckets.lists| && k < |buckets.lists[pos]| && buckets.lists[pos][k] == node
    {
      RefinesMember(buckets.lists, log, lowMax, split, node);
      k :| 0 <= k < |buckets.lists[Position(lowMax, split, node.key)]|
           && buckets.lists[Position(lowMax, split, node.key)][k] == node;
    }

    /** tommy_hashlin_remove_existing. */
    method RemoveExisting(node: Node<D>) returns (data: D, ghost merges: nat)
      requires Valid() && node in log
      modifies this, buckets, buckets.table.Repr, log`next, log`prev
      ensures Valid() && log == old(Without(log, node)) && data == node.data
      ensures buckets.table.Repr == old(buckets.table.Repr)
      ensures Size() == Shrunk(old(Size()), count) && merges == Merges(old(Size()), count) <= 8
    {
      hide Consistent, Without, Position;
      Separate();
      ghost var k := Locate(node);
      var pos := BucketRef(node.key);
      UnlinkNode(pos, node, k);
      merges := ShrinkStep();
      data := node.data;
    }

    /** Walks the bucket of a hash to the first node that compares equal. */
    method Find(hash: nat, eq: D -> bool) returns (pos: nat, node: Node?<D>, ghost k: nat)
      requires Consistent()
      ensures pos == Position(lowMax, split, hash) < |buckets.lists|
      ensures node == FirstMatch(log, hash, eq)
      ensures node != null ==> k < |buckets.lists[pos]| && buckets.lists[pos][k] == node && node.key == hash
    {
      pos := BucketRef(hash);
      ghost var list := buckets.lists[pos];
      RefinesFirstMatch(buckets.lists, log, lowMax, split, hash, eq);
      assert buckets.Owns(pos) && buckets.Chained(pos);
      node := buckets.table.Load(pos);
      k := 0;
      hide Refines, BucketLists.Valid, Position;
      assert list[..0] == [];
      while node != null
        invariant k <= |list| && node == if k < |list| then list[k] else null
        invariant FirstMatch(list[..k], hash, eq) == null
        decreases |list| - k
      {
        FirstMatchAt(list, k, hash, eq);
        if node.key == hash && eq(node.data) {
          return;
        }
        node := node.next;
        k := k + 1;
      }
      assert list[..k] == list;
    }

    /** tommy_hashlin_search: the earliest inserted match, if there is one. */
    method Search(hash: nat, eq: D -> bool) returns (found: Option<D>)
      requires Valid()
      ensures var first := FirstMatch(log, hash, eq);
              found == if first == null then None else Some(first.data)
    {
      var _, node, _ := Find(hash, eq);
      found := if node == null then None else Some(node.data);
    }

    /** tommy_hashlin_remove: takes out the earliest inserted match, or changes nothing. */
    method Remove(hash: nat, eq: D -> bool) returns (removed: Option<D>, ghost merges: nat)
      requires Valid()
      modifies this, buckets, buckets.table.Repr, log`next, log`prev
      ensures Valid() && merges <= 8
      ensures buckets.table.Repr == old(buckets.table.Repr)
      ensures var first := old(FirstMatch(log, hash, eq));
              if first == null then removed == None && log == old(log) && Size() == old(Size())
              else removed == Some(first.data) && log == old(Without(log, first)) && Size() == Shrunk(old(Size()), count)
    {
      hide Consistent, FirstMatch, Without, Position;
      Separate();
      merges := 0;
      var pos, node, k := Find(hash, eq);
      if node != null {
        UnlinkNode(pos, node, k);
        merges := ShrinkStep();
        return Some(node.data), merges;
      }
      return None, 0;
    }

    lemma NoDatas()
      ensures Datas<D>([]) == []
    {
    }

    /** The loops of tommy_hashlin_foreach, with the nodes behind the calls. */
    method Visit() returns (visited: seq<D>, ghost nodes: seq<Node<D>>)
      requires Valid()
      ensures visited == Datas(nodes)
      ensures DistinctNodes(nodes) && (forall x | x in nodes :: x in log) && forall x | x in log :: x in nodes
    {
      hide Datas;
      visited, nodes := [], [];
      NoDatas();
      var live := lowMax + split;
      for pos := 0 to live
        invariant visited == Datas(nodes) && DistinctNodes(nodes)
        invariant forall i | 0 <= i < |nodes| :: nodes[i] in log && Position(lowMax, split, nodes[i].key) < pos
        invariant forall p, i | 0 <= p < pos && 0 <= i < |buckets.lists[p]| :: buckets.lists[p][i] in nodes
      {
        assert buckets.Owns(pos) && buckets.Chained(pos);
        ghost var list, before := buckets.lists[pos], nodes;
        var node := buckets.table.Load(pos);
        ghost var k := 0;
        while node != null
          invariant k <= |list| && node == if k < |list| then list[k] else null
          invariant nodes == before + list[..k] && visited == Datas(nodes)
          decreases |list| - k
        {
          var data := node.data;
          DatasAppend(nodes, node);
          nodes := nodes + [node];
          node := node.next;
          visited := visited + [data];
          k := k + 1;
        }
        assert nodes == before + list;
      }
      forall x | x in log ensures x in nodes {
        RefinesMember(buckets.lists, log, lowMax, split, x);
      }
    }

    lemma DistinctLog()
      requires Consistent()
      ensures DistinctNodes(log)
    {
    }

    /** tommy_hashlin_foreach: `func` is called exactly once for the data of every stored node. */
    method Foreach() returns (visited: seq<D>)
      requires Valid()
      ensures multiset(visited) == multiset(Datas(log))
    {
      hide Consistent, Datas;
      ghost var nodes;
      visited, nodes := Visit();
      DistinctLog();
      DatasPermuted(nodes, log);
    }
  }
}
