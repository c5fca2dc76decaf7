/**
 * tommy_chain_mergesort: a binary counter of sorted runs.  Bit i of the counter is set exactly
 * when bucket i holds 2^i consecutive nodes, and higher buckets hold earlier nodes.
 */
module MergeSort {
  import opened Bits
  import opened TommyList
  import opened SortSpec
  import opened Chain

  const CHAIN_BIT_MAX: nat := 32

  /** runs[i..] are the runs the binary digits of `mask` stand for. */
  ghost predicate RunsFor<D>(mask: nat, i: nat, runs: seq<seq<Node<D>>>)
    requires i <= |runs|
    decreases |runs| - i
  {
    if i == |runs| then mask == 0
    else |runs[i]| == (if mask % 2 == 1 then Pow2(i) else 0) && RunsFor(mask / 2, i + 1, runs)
  }

  /** The nodes of runs[i..], higher runs first. */
  ghost function Cat<D>(i: nat, runs: seq<seq<Node<D>>>): seq<Node<D>>
    requires i <= |runs|
    decreases |runs| - i
  {
    if i == |runs| then [] else Cat(i + 1, runs) + runs[i]
  }

  lemma {:induction false} UpdateBelow<D>(mask: nat, i: nat, runs: seq<seq<Node<D>>>, k: nat, run: seq<Node<D>>)
    requires k < i <= |runs|
    ensures RunsFor(mask, i, runs[k := run]) <==> RunsFor(mask, i, runs)
    ensures Cat(i, runs[k := run]) == Cat(i, runs)
    decreases |runs| - i
  {
    if i < |runs| {
      UpdateBelow(mask / 2, i + 1, runs, k, run);
    }
  }

  lemma {:induction false} CatMember<D>(i: nat, runs: seq<seq<Node<D>>>, k: nat, x: Node<D>)
    requires i <= k < |runs| && x in runs[k]
    ensures x in Cat(i, runs)
    decreases k - i
  {
    if i < k {
      CatMember(i + 1, runs, k, x);
    }
  }

  lemma ApartParts<D>(s: seq<Node<D>>, t: seq<Node<D>>)
    requires DistinctNodes(s + t)
    ensures Apart(s, t) && DistinctNodes(s) && DistinctNodes(t)
  {
    assert forall i | 0 <= i < |s| :: (s + t)[i] == s[i];
    assert forall j | 0 <= j < |t| :: (s + t)[|s| + j] == t[j];
  }

  /** Different runs share no node. */
  lemma {:induction false} RunsApart<D>(i: nat, runs: seq<seq<Node<D>>>, k: nat, l: nat)
    requires i <= k < l < |runs| && DistinctNodes(Cat(i, runs))
    ensures Apart(runs[k], runs[l])
    decreases k - i
  {
    ApartParts(Cat(i + 1, runs), runs[i]);
    if i < k {
      RunsApart(i + 1, runs, k, l);
    } else {
      forall a, b | 0 <= a < |runs[k]| && 0 <= b < |runs[l]| ensures runs[k][a] != runs[l][b] {
        CatMember(i + 1, runs, l, runs[l][b]);
      }
    }
  }

  /** Moving a digit past empty low runs. */
  lemma {:induction false} RunsShift<D>(mask: nat, i: nat, runs: seq<seq<Node<D>>>)
    requires i <= |runs| && RunsFor(mask, i, runs)
    requires forall k | 0 <= k < i :: runs[k] == []
    ensures RunsFor(mask * Pow2(i), 0, runs)
    ensures Cat(0, runs) == Cat(i, runs)
    decreases i
  {
    if i > 0 {
      assert 2 * mask % 2 == 0 && 2 * mask / 2 == mask;
      RunsShift(2 * mask, i - 1, runs);
      assert Cat(i - 1, runs) == Cat(i, runs);
      assert 2 * mask * Pow2(i - 1) == mask * Pow2(i) by {
        MulAssoc(mask, 2, Pow2(i - 1));
      }
    }
  }

  /** The chain holds the nodes of `run`, sorted. */
  ghost predicate RunChain<D>(c: Chain<D>, run: seq<Node<D>>, cmp: (D, D) -> int)
    reads run
  {
    IsChain(c, InsertionSort(run, cmp))
  }

  /** One merge of two runs that lie side by side in the input. */
  method MergeRuns<D(!new)>(first: Chain<D>, second: Chain<D>, cmp: (D, D) -> int, ghost r1: seq<Node<D>>, ghost r2: seq<Node<D>>)
    returns (merged: Chain<D>)
    requires TotalPreorder(cmp) && Apart(r1, r2)
    requires RunChain(first, r1, cmp) && RunChain(second, r2, cmp)
    modifies r1`next, r1`prev, r2`next, r2`prev
    ensures RunChain(merged, r1 + r2, cmp)
  {
    hide IsChain, Merged, Sorted, TotalPreorder, InsertionSort;
    MergedSorts(r1, r2, cmp);
    InsertionSortSorts(r1, cmp);
    InsertionSortSorts(r2, cmp);
    ghost var goal := InsertionSort(r1 + r2, cmp);
    ghost var a, b := InsertionSort(r1, cmp), InsertionSort(r2, cmp);
    assert Apart(a, b) by {
      forall i, j | 0 <= i < |a| && 0 <= j < |b| ensures a[i] != b[j] {
        assert a[i] in r1 && b[j] in r2;
      }
    }
    merged := MergeDegenerated(first, second, cmp, a, b, goal);
  }

  ghost predicate Within<D>(runs: seq<seq<Node<D>>>, s: seq<Node<D>>) {
    forall k, j | 0 <= k < |runs| && 0 <= j < |runs[k]| :: runs[k][j] in s
  }

  /** Every run that is present is a sorted chain in its bucket. */
  ghost predicate Held<D>(bit: array<Chain<D>>, runs: seq<seq<Node<D>>>, from: nat, s: seq<Node<D>>, cmp: (D, D) -> int)
    reads bit, s
    requires |runs| < bit.Length && Within(runs, s)
  {
    forall k | from <= k < |runs| :: runs[k] != [] ==> RunChain(bit[k], runs[k], cmp)
  }

  /** The carry step: bucket i, which is older, absorbs the carry. */
  method Carry<D(!new)>(bit: array<Chain<D>>, i: nat, last: nat, cmp: (D, D) -> int,
                        ghost runs: seq<seq<Node<D>>>, ghost c: seq<Node<D>>, ghost s: seq<Node<D>>)
    requires TotalPreorder(cmp) && i < |runs| == CHAIN_BIT_MAX < bit.Length && last < bit.Length
    requires (last < i || last >= |runs|)
    requires Within(runs, s) && (forall j | 0 <= j < |c| :: c[j] in s)
    requires runs[i] != [] && Held(bit, runs, i, s, cmp) && RunChain(bit[last], c, cmp)
    requires DistinctNodes(Cat(i, runs) + c)
    modifies bit, runs[i]`next, runs[i]`prev, c`next, c`prev
    ensures forall k | 0 <= k < bit.Length && k != i :: bit[k] == old(bit[k])
    ensures Within(runs[i := []], s) && (forall j | 0 <= j < |runs[i] + c| :: (runs[i] + c)[j] in s)
    ensures Held(bit, runs[i := []], i + 1, s, cmp) && RunChain(bit[i], runs[i] + c, cmp)
  {
    hide RunChain, IsChain, InsertionSort, TotalPreorder, RunsFor;
    ApartParts(Cat(i, runs), c);
    forall a, b | 0 <= a < |runs[i]| && 0 <= b < |c| ensures runs[i][a] != c[b] {
      CatMember(i, runs, i, runs[i][a]);
    }
    assert RunChain(bit[i], runs[i], cmp);
    var merged := MergeRuns(bit[i], bit[last], cmp, runs[i], c);
    bit[i] := merged;
    forall k | i + 1 <= k < |runs| && runs[k] != [] ensures RunChain(bit[k], runs[k], cmp) {
      RunsApart(i, runs, i, k);
      forall a, b | 0 <= a < |runs[k]| && 0 <= b < |c| ensures runs[k][a] != c[b] {
        CatMember(i, runs, k, runs[k][a]);
      }
      assert old(RunChain(bit[k], runs[k], cmp));
    }
  }

  /** The state of the outer loop after `done` nodes: the counter's digits, and their runs. */
  ghost predicate Counting<D>(bit: array<Chain<D>>, runs: seq<seq<Node<D>>>, counter: nat, s: seq<Node<D>>,
                              done: nat, cmp: (D, D) -> int)
    reads bit, s
  {
    && bit.Length == CHAIN_BIT_MAX + 1 && |runs| == CHAIN_BIT_MAX && done <= |s|
    && Within(runs, s)
    && counter == done
    && RunsFor(counter, 0, runs)
    && Cat(0, runs) == s[..done]
    && Held(bit, runs, 0, s, cmp)
  }

  /** The state of the carry loop: the runs below i are spent, `c` is the carry in bucket `last`. */
  ghost predicate Carrying<D>(bit: array<Chain<D>>, runs: seq<seq<Node<D>>>, i: nat, mask: nat, last: nat, c: seq<Node<D>>,
                              s: seq<Node<D>>, done: nat, cmp: (D, D) -> int)
    reads bit, s
  {
    && bit.Length == CHAIN_BIT_MAX + 1 && |runs| == CHAIN_BIT_MAX && done < |s|
    && i <= |runs| && last < bit.Length && (last < i || last == CHAIN_BIT_MAX)
    && Within(runs, s) && (forall j | 0 <= j < |c| :: c[j] in s)
    && done + 1 == (mask + 1) * Pow2(i)
    && |c| == Pow2(i)
    && RunsFor(mask, i, runs)
    && (forall k | 0 <= k < i :: runs[k] == [])
    && Cat(i, runs) + c == s[..done + 1]
    && Held(bit, runs, i, s, cmp)
    && RunChain(bit[last], c, cmp)
  }

  method CarryOne<D(!new)>(bit: array<Chain<D>>, i: nat, mask: nat, last: nat, cmp: (D, D) -> int,
                           ghost runs: seq<seq<Node<D>>>, ghost c: seq<Node<D>>, ghost s: seq<Node<D>>, ghost done: nat)
    returns (ghost runs': seq<seq<Node<D>>>, ghost c': seq<Node<D>>)
    requires TotalPreorder(cmp) && DistinctNodes(s) && mask % 2 == 1
    requires Carrying(bit, runs, i, mask, last, c, s, done, cmp)
    modifies bit, s[..done + 1]`next, s[..done + 1]`prev
    ensures i < CHAIN_BIT_MAX && Carrying(bit, runs', i + 1, mask / 2, i, c', s, done, cmp)
  {
    hide RunChain, TotalPreorder;
    runs', c' := runs[i := []], runs[i] + c;
    UpdateBelow(mask / 2, i + 1, runs, i, []);
    assert Cat(i, runs) + c == Cat(i + 1, runs) + c';
    assert (mask / 2 + 1) * Pow2(i + 1) == (mask + 1) * Pow2(i) by {
      MulAssoc(mask / 2 + 1, 2, Pow2(i));
    }
    assert DistinctNodes(s[..done + 1]);
    forall j | 0 <= j < |runs[i]| ensures runs[i][j] in s[..done + 1] {
      CatMember(i, runs, i, runs[i][j]);
    }
    assert forall j | 0 <= j < |c| :: (Cat(i, runs) + c)[|Cat(i, runs)| + j] == c[j];
    Carry(bit, i, last, cmp, runs, c, s);
  }

  lemma StartCarry<D>(bit: array<Chain<D>>, runs: seq<seq<Node<D>>>, done: nat, s: seq<Node<D>>, cmp: (D, D) -> int,
                      node: Node<D>)
    requires bit.Length == CHAIN_BIT_MAX + 1 && |runs| == CHAIN_BIT_MAX && done < |s| && s[done] == node
    requires Within(runs, s) && RunsFor(done, 0, runs) && Cat(0, runs) == s[..done] && Held(bit, runs, 0, s, cmp)
    requires bit[CHAIN_BIT_MAX] == Chain(node, node)
    ensures Carrying(bit, runs, 0, done, CHAIN_BIT_MAX, [node], s, done, cmp)
  {
    hide Cat, RunsFor;
    assert RunChain(bit[CHAIN_BIT_MAX], [node], cmp) by {
      assert InsertionSort([node], cmp) == [node];
    }
    hide RunChain;
    assert s[..done + 1] == s[..done] + [node];
  }

  lemma WithinUpdate<D>(runs: seq<seq<Node<D>>>, i: nat, c: seq<Node<D>>, s: seq<Node<D>>)
    requires i < |runs| && Within(runs, s) && forall j | 0 <= j < |c| :: c[j] in s
    ensures Within(runs[i := c], s)
  {
  }

  lemma CarryEnds<D>(bit: array<Chain<D>>, runs: seq<seq<Node<D>>>, i: nat, mask: nat, last: nat, c: seq<Node<D>>,
                     s: seq<Node<D>>, done: nat, cmp: (D, D) -> int)
    requires Carrying(bit, runs, i, mask, last, c, s, done, cmp) && mask % 2 == 0 && |s| < Pow2(CHAIN_BIT_MAX)
    ensures i < CHAIN_BIT_MAX && runs[i] == []
  {
    hide RunChain, Held, Within, Pow2;
    assert |s[..done + 1]| >= |c|;
  }

  /** The carry never leaves the counter, and the bucket it stops at is empty. */
  lemma CarryFits<D>(bit: array<Chain<D>>, runs: seq<seq<Node<D>>>, i: nat, mask: nat, last: nat, c: seq<Node<D>>,
                     s: seq<Node<D>>, done: nat, cmp: (D, D) -> int)
    requires Carrying(bit, runs, i, mask, last, c, s, done, cmp) && mask % 2 == 0 && |s| < Pow2(CHAIN_BIT_MAX)
    ensures i < CHAIN_BIT_MAX && runs[i] == []
    ensures var runs' := runs[i := c];
            RunsFor(done + 1, 0, runs') && Cat(0, runs') == s[..done + 1] && Within(runs', s)
  {
    hide RunChain, Held;
    CarryEnds(bit, runs, i, mask, last, c, s, done, cmp);
    WithinUpdate(runs, i, c, s);
    hide Pow2, Within;
    var runs' := runs[i := c];
    UpdateBelow(mask / 2, i + 1, runs, i, c);
    assert (mask + 1) / 2 == mask / 2;
    assert Cat(i, runs) == Cat(i + 1, runs) + runs[i];
    assert Cat(i, runs') == Cat(i, runs) + c;
    RunsShift(mask + 1, i, runs');
  }

  /** One round of the outer loop: adds a node to the counter. */
  method AddNode<D(!new)>(bit: array<Chain<D>>, node: Node<D>, counter: nat, cmp: (D, D) -> int,
                          ghost runs: seq<seq<Node<D>>>, ghost s: seq<Node<D>>)
    returns (ghost runs': seq<seq<Node<D>>>)
    requires TotalPreorder(cmp) && DistinctNodes(s) && |s| < Pow2(CHAIN_BIT_MAX)
    requires Counting(bit, runs, counter, s, counter, cmp) && counter < |s| && s[counter] == node
    modifies bit, s[..counter + 1]`next, s[..counter + 1]`prev
    ensures Counting(bit, runs', counter + 1, s, counter + 1, cmp)
  {
    hide RunChain, RunsFor, Cat, TotalPreorder, DistinctNodes;
    var last: nat := CHAIN_BIT_MAX;
    bit[CHAIN_BIT_MAX] := Chain(node, node);
    var i: nat := 0;
    var mask: nat := counter;
    ghost var c: seq<Node<D>>;
    runs', c := runs, [node];
    StartCarry(bit, runs, counter, s, cmp, node);
    while mask % 2 != 0
      invariant Carrying(bit, runs', i, mask, last, c, s, counter, cmp)
      decreases CHAIN_BIT_MAX - i
    {
      runs', c := CarryOne(bit, i, mask, last, cmp, runs', c, s, counter);
      mask := mask / 2;
      last := i;
      i := i + 1;
    }
    CarryFits(bit, runs', i, mask, last, c, s, counter, cmp);
    bit[i] := bit[last];
    runs' := runs'[i := c];
  }

  /** tommy_ctz_u32. */
  function Ctz(v: nat): (r: nat)
    requires v > 0
  {
    if v % 2 == 1 then 0 else 1 + Ctz(v / 2)
  }

  /** The lowest set digit of the counter is the first bucket in use. */
  lemma {:induction false} LowestRun<D>(mask: nat, i: nat, runs: seq<seq<Node<D>>>)
    requires i <= |runs| && RunsFor(mask, i, runs) && mask > 0
    ensures var z := Ctz(mask);
            && i + z < |runs|
            && ShiftRight(mask, z) % 2 == 1
            && RunsFor(ShiftRight(mask, z), i + z, runs)
            && Cat(i, runs) == Cat(i + z, runs)
    decreases |runs| - i
  {
    if mask % 2 == 0 {
      LowestRun(mask / 2, i + 1, runs);
      assert Cat(i, runs) == Cat(i + 1, runs);
    }
  }

  /** The state of the final loop: bucket i holds the latest nodes, the higher buckets the rest. */
  ghost predicate Collecting<D>(bit: array<Chain<D>>, runs: seq<seq<Node<D>>>, i: nat, mask: nat, c: seq<Node<D>>,
                                s: seq<Node<D>>, cmp: (D, D) -> int)
    reads bit, s
  {
    && bit.Length == CHAIN_BIT_MAX + 1 && |runs| == CHAIN_BIT_MAX
    && i < |runs| && mask > 0
    && Within(runs, s) && (forall j | 0 <= j < |c| :: c[j] in s)
    && RunsFor(mask / 2, i + 1, runs)
    && Cat(i + 1, runs) + c == s
    && Held(bit, runs, i + 1, s, cmp)
    && RunChain(bit[i], c, cmp)
  }

  method CollectOne<D(!new)>(bit: array<Chain<D>>, i: nat, mask: nat, cmp: (D, D) -> int,
                             ghost runs: seq<seq<Node<D>>>, ghost c: seq<Node<D>>, ghost s: seq<Node<D>>)
    returns (ghost runs': seq<seq<Node<D>>>, ghost c': seq<Node<D>>)
    requires TotalPreorder(cmp) && DistinctNodes(s) && mask > 1
    requires Collecting(bit, runs, i, mask, c, s, cmp)
    modifies bit, s`next, s`prev
    ensures Collecting(bit, runs', i + 1, mask / 2, c', s, cmp)
  {
    hide RunChain, TotalPreorder;
    assert i + 1 < CHAIN_BIT_MAX && Cat(i + 1, runs) == Cat(i + 2, runs) + runs[i + 1];
    if mask / 2 % 2 == 1 {
      runs', c' := runs[i + 1 := []], runs[i + 1] + c;
      UpdateBelow(mask / 2 / 2, i + 2, runs, i + 1, []);
      Carry(bit, i + 1, i, cmp, runs, c, s);
    } else {
      runs', c' := runs, c;
      bit[i + 1] := bit[i];
    }
  }

  lemma {:induction false} NoRuns<D>(i: nat, runs: seq<seq<Node<D>>>)
    requires i <= |runs| && forall k | 0 <= k < |runs| :: runs[k] == []
    ensures RunsFor(0, i, runs) && Cat(i, runs) == []
    decreases |runs| - i
  {
    if i < |runs| {
      NoRuns(i + 1, runs);
    }
  }

  /** The first half of tommy_chain_mergesort: every node goes through the binary counter. */
  method Count<D(!new)>(chain: Chain<D>, bit: array<Chain<D>>, cmp: (D, D) -> int, ghost s: seq<Node<D>>)
    returns (counter: nat, ghost runs: seq<seq<Node<D>>>)
    requires TotalPreorder(cmp) && IsChain(chain, s) && |s| < Pow2(CHAIN_BIT_MAX) && bit.Length == CHAIN_BIT_MAX + 1
    modifies bit, s`next, s`prev
    ensures counter == |s| && Counting(bit, runs, counter, s, counter, cmp)
  {
    hide TotalPreorder, RunsFor, Cat, RunChain, Pow2;
    var node: Node<D>, tail := chain.head, chain.tail;
    counter := 0;
    runs := seq(CHAIN_BIT_MAX, _ => []);
    NoRuns(0, runs);
    assert s[..0] == [];
    while true
      invariant Counting(bit, runs, counter, s, counter, cmp)
      invariant counter < |s| && node == s[counter]
      invariant forall i {:trigger s[i].next} | counter <= i < |s| - 1 :: s[i].next == s[i + 1]
      decreases |s| - counter
    {
      var next := node.next;
      runs := AddNode(bit, node, counter, cmp, runs, s);
      counter := counter + 1;
      if node == tail {
        break;
      }
      node := next;
    }
  }

  lemma StartCollect<D>(bit: array<Chain<D>>, runs: seq<seq<Node<D>>>, counter: nat, s: seq<Node<D>>, cmp: (D, D) -> int)
    requires counter > 0 && counter == |s| && Counting(bit, runs, counter, s, counter, cmp)
    ensures var i := Ctz(counter);
            i < CHAIN_BIT_MAX && |runs| == CHAIN_BIT_MAX && Collecting(bit, runs, i, ShiftRight(counter, i), runs[i], s, cmp)
  {
    hide RunChain;
    LowestRun(counter, 0, runs);
  }

  /** tommy_chain_mergesort delivers the chain of the reference sort, for fewer than 2^32 nodes. */
  method Sort<D(!new)>(chain: Chain<D>, cmp: (D, D) -> int, ghost s: seq<Node<D>>) returns (sorted: Chain<D>)
    requires TotalPreorder(cmp) && IsChain(chain, s) && |s| < Pow2(CHAIN_BIT_MAX)
    modifies s`next, s`prev
    ensures IsChain(sorted, InsertionSort(s, cmp))
  {
    hide Counting, TotalPreorder, RunsFor, Cat, Pow2;
    var bit := new Chain<D>[CHAIN_BIT_MAX + 1](_ => chain);
    var counter, runs := Count(chain, bit, cmp, s);
    StartCollect(bit, runs, counter, s, cmp);
    var i := Ctz(counter);
    var mask: nat := ShiftRight(counter, i);
    ghost var c := runs[i];
    while mask != 1
      invariant Collecting(bit, runs, i, mask, c, s, cmp)
      decreases mask
    {
      runs, c := CollectOne(bit, i, mask, cmp, runs, c, s);
      mask := mask / 2;
      i := i + 1;
    }
    EndCollect(bit, runs, i, c, s, cmp);
    sorted := bit[i];
  }

  lemma EndCollect<D>(bit: array<Chain<D>>, runs: seq<seq<Node<D>>>, i: nat, c: seq<Node<D>>, s: seq<Node<D>>,
                      cmp: (D, D) -> int)
    requires Collecting(bit, runs, i, 1, c, s, cmp)
    ensures i < bit.Length && IsChain(bit[i], InsertionSort(s, cmp))
  {
    NoDigits(i + 1, runs);
    assert c == s;
  }

  lemma {:induction false} NoDigits<D>(i: nat, runs: seq<seq<Node<D>>>)
    requires i <= |runs| && RunsFor(0, i, runs)
    ensures Cat(i, runs) == []
    decreases |runs| - i
  {
    if i < |runs| {
      NoDigits(i + 1, runs);
    }
  }

  /** tommy_list_set: closes a chain to a list. */
  method ListSet<D>(head: Node<D>, tail: Node<D>, ghost s: seq<Node<D>>)
    requires IsChain(Chain(head, tail), s)
    modifies head`prev, tail`next
    ensures IsList(head, s)
  {
    head.prev := tail;
    tail.next := null;
  }

  /** tommy_list_sort. */
  method ListSort<D(!new)>(list: Node?<D>, cmp: (D, D) -> int, ghost s: seq<Node<D>>) returns (list': Node?<D>)
    requires TotalPreorder(cmp) && IsList(list, s) && |s| < Pow2(CHAIN_BIT_MAX)
    modifies s`next, s`prev
    ensures IsList(list', InsertionSort(s, cmp))
  {
    hide InsertionSort, TotalPreorder, Pow2;
    if list == null {
      assert InsertionSort(s, cmp) == [] by {
        EmptySort(s, cmp);
      }
      return null;
    }
    var head: Node<D> := list;
    assert head.prev == s[|s| - 1];
    var chain := Sort(Chain(head, head.prev), cmp, s);
    ghost var t := InsertionSort(s, cmp);
    ListSet(chain.head, chain.tail, t);
    list' := chain.head;
    assert t == InsertionSort(s, cmp);
  }

  lemma EmptySort<D>(s: seq<Node<D>>, cmp: (D, D) -> int)
    requires s == []
    ensures InsertionSort(s, cmp) == []
  {
  }
}
