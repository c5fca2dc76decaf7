/**
 * tommychain.h and tommy_list_sort: an in-place bottom-up merge sort of doubly linked chains.
 */
module Chain {
  import opened TommyList
  import opened SortSpec

  datatype Chain<D> = Chain(head: Node<D>, tail: Node<D>)

  /** Inner links are set; the head's `prev` and the tail's `next` are not defined. */
  ghost predicate Linked<D>(s: seq<Node<D>>)
    reads s`next, s`prev
  {
    && (forall i {:trigger s[i].next} | 0 <= i < |s| - 1 :: s[i].next == s[i + 1])
    && (forall i {:trigger s[i].prev} | 0 < i < |s| :: s[i].prev == s[i - 1])
  }

  ghost predicate IsChain<D>(c: Chain<D>, s: seq<Node<D>>)
    reads s`next, s`prev
  {
    && s != [] && c.head == s[0] && c.tail == s[|s| - 1]
    && DistinctNodes(s)
    && Linked(s)
  }

  method Splice<D>(firstBefore: Node<D>, firstAfter: Node<D>, secondHead: Node<D>, secondTail: Node<D>)
    requires firstAfter != secondHead && firstBefore != secondTail
    modifies firstAfter`prev, secondHead`prev, firstBefore`next, secondTail`next
    ensures firstAfter.prev == secondTail && secondHead.prev == firstBefore
    ensures firstBefore.next == secondHead && secondTail.next == firstAfter
  {
    firstAfter.prev := secondTail;
    secondHead.prev := firstBefore;
    firstBefore.next := secondHead;
    secondTail.next := firstAfter;
  }

  method Concat<D>(firstTail: Node<D>, secondHead: Node<D>)
    modifies firstTail`next, secondHead`prev
    ensures firstTail.next == secondHead && secondHead.prev == firstTail
  {
    secondHead.prev := firstTail;
    firstTail.next := secondHead;
  }

  /** Two chains end to end. */
  method Join<D>(first: Chain<D>, second: Chain<D>, ghost a: seq<Node<D>>, ghost b: seq<Node<D>>) returns (joined: Chain<D>)
    requires IsChain(first, a) && IsChain(second, b) && Apart(a, b)
    modifies first.tail`next, second.head`prev
    ensures IsChain(joined, a + b)
  {
    Concat(first.tail, second.head);
    joined := Chain(first.head, second.tail);
  }

  /** The merge step that moves the next node of the second chain in front of node m of the first. */
  method TakeSecond<D>(first: Chain<D>, firstI: Node<D>, secondI: Node<D>, ghost x: seq<Node<D>>, ghost m: nat)
    returns (first': Chain<D>)
    requires IsChain(first, x) && m < |x| && x[m] == firstI && secondI !in x
    modifies x`next, x`prev, secondI`next, secondI`prev
    ensures IsChain(first', x[..m] + [secondI] + x[m..])
  {
    if firstI == first.head {
      assert m == 0;
      Concat(secondI, firstI);
      first' := first.(head := secondI);
    } else {
      assert m > 0 && firstI.prev == x[m - 1];
      Splice(firstI.prev, firstI, secondI, secondI);
      first' := first;
    }
  }

  lemma ChainAt<D>(c: Chain<D>, s: seq<Node<D>>, i: nat)
    requires IsChain(c, s) && i < |s|
    ensures c.head == s[0] && c.tail == s[|s| - 1]
    ensures s[i] == c.tail <==> i == |s| - 1
    ensures i + 1 < |s| ==> s[i].next == s[i + 1]
  {
  }

  lemma NotEmpty<D>(c: Chain<D>, s: seq<Node<D>>)
    requires IsChain(c, s)
    ensures s != [] && c.head == s[0]
  {
  }

  /** What the merge will deliver when x[..m] is done and r is left of the second chain. */
  ghost function Outcome<D>(x: seq<Node<D>>, m: nat, r: seq<Node<D>>, cmp: (D, D) -> int): seq<Node<D>>
    reads x`data, r`data
    requires m <= |x|
  {
    x[..m] + Merged(x[m..], r, cmp)
  }

  lemma OutcomeStart<D>(a: seq<Node<D>>, b: seq<Node<D>>, cmp: (D, D) -> int)
    ensures Outcome(a, 0, b, cmp) == Merged(a, b, cmp)
  {
    assert a[..0] == [] && a[0..] == a;
  }

  lemma OutcomeSecond<D>(x: seq<Node<D>>, m: nat, r: seq<Node<D>>, cmp: (D, D) -> int)
    requires m < |x| && r != [] && cmp(x[m].data, r[0].data) > 0
    ensures Outcome(x[..m] + [r[0]] + x[m..], m + 1, r[1..], cmp) == Outcome(x, m, r, cmp)
    ensures |r| == 1 ==> Outcome(x, m, r, cmp) == x[..m] + [r[0]] + x[m..]
  {
    var x' := x[..m] + [r[0]] + x[m..];
    assert x'[..m + 1] == x[..m] + [r[0]] && x'[m + 1..] == x[m..];
  }

  lemma OutcomeFirst<D>(x: seq<Node<D>>, m: nat, r: seq<Node<D>>, cmp: (D, D) -> int)
    requires m < |x| && r != [] && cmp(x[m].data, r[0].data) <= 0
    ensures Outcome(x, m + 1, r, cmp) == Outcome(x, m, r, cmp)
    ensures m == |x| - 1 ==> Outcome(x, m, r, cmp) == x + r
  {
    assert x[m..][1..] == x[m + 1..] && x[..m + 1] == x[..m] + [x[m]];
    if m == |x| - 1 {
      assert x == x[..m] + [x[m]];
    }
  }

  /** tommy_chain_merge. */
  method Merge<D>(first: Chain<D>, second: Chain<D>, cmp: (D, D) -> int,
                  ghost a: seq<Node<D>>, ghost b: seq<Node<D>>, ghost goal: seq<Node<D>>)
    returns (merged: Chain<D>)
    requires IsChain(first, a) && IsChain(second, b) && Apart(a, b) && goal == Merged(a, b, cmp)
    modifies a`next, a`prev, b`next, b`prev
    ensures IsChain(merged, goal)
  {
    hide Merged, Outcome, IsChain, Apart;
    merged := first;
    NotEmpty(first, a);
    var firstI: Node<D>, secondI: Node<D> := first.head, second.head;
    ghost var x: seq<Node<D>>, m: nat, r: seq<Node<D>> := a, 0, b;
    OutcomeStart(a, b, cmp);
    while true
      invariant IsChain(merged, x) && m < |x| && x[m] == firstI
      invariant IsChain(Chain(secondI, second.tail), r) && Apart(x, r)
      invariant forall i | 0 <= i < |x| :: x[i] in a || x[i] in b
      invariant forall i | 0 <= i < |r| :: r[i] in b
      invariant Outcome(x, m, r, cmp) == goal
      decreases |r|, |x| - m
    {
      NotEmpty(Chain(secondI, second.tail), r);
      ChainAt(merged, x, m);
      if cmp(firstI.data, secondI.data) > 0 {
        OutcomeSecond(x, m, r, cmp);
        var last := secondI == second.tail;
        merged, secondI := StepSecond(merged, Chain(secondI, second.tail), firstI, x, m, r);
        x := x[..m] + [r[0]] + x[m..];
        m := m + 1;
        if last {
          break;
        }
        r := r[1..];
      } else {
        OutcomeFirst(x, m, r, cmp);
        if firstI == merged.tail {
          merged := Join(merged, Chain(secondI, second.tail), x, r);
          x := x + r;
          break;
        }
        firstI := firstI.next;
        m := m + 1;
      }
    }
    assert x == goal;
  }

  /** Moves secondI and advances it, unless it was the tail. */
  method StepSecond<D>(first: Chain<D>, second: Chain<D>, firstI: Node<D>, ghost x: seq<Node<D>>, ghost m: nat,
                       ghost r: seq<Node<D>>)
    returns (first': Chain<D>, next: Node<D>)
    requires IsChain(first, x) && IsChain(second, r) && Apart(x, r)
    requires m < |x| && x[m] == firstI
    modifies x`next, x`prev, second.head`next, second.head`prev
    ensures var x' := x[..m] + [r[0]] + x[m..];
            && IsChain(first', x')
            && (second.head != second.tail ==> IsChain(Chain(next, second.tail), r[1..]) && Apart(x', r[1..]))
    ensures second.head == second.tail <==> |r| == 1
  {
    var after := second.head.next;
    next := if second.head == second.tail then second.head else after;
    assert Apart(x, r);
    first' := TakeSecond(first, firstI, second.head, x, m);
  }

  /** tommy_chain_merge_degenerated: on sorted chains the shortcuts give what merging would. */
  method MergeDegenerated<D(!new)>(first: Chain<D>, second: Chain<D>, cmp: (D, D) -> int,
                                   ghost a: seq<Node<D>>, ghost b: seq<Node<D>>, ghost goal: seq<Node<D>>)
    returns (merged: Chain<D>)
    requires IsChain(first, a) && IsChain(second, b) && Apart(a, b) && goal == Merged(a, b, cmp)
    requires TotalPreorder(cmp) && Sorted(a, cmp) && Sorted(b, cmp)
    modifies a`next, a`prev, b`next, b`prev
    ensures IsChain(merged, goal)
  {
    hide Merged, Sorted, TotalPreorder;
    if cmp(first.tail.data, second.head.data) <= 0 {
      MergedInOrder(a, b, cmp);
      merged := Join(first, second, a, b);
      return;
    }
    if cmp(second.tail.data, first.head.data) < 0 {
      MergedReversed(a, b, cmp);
      merged := Join(second, first, b, a);
      return;
    }
    merged := Merge(first, second, cmp, a, b, goal);
  }
}
