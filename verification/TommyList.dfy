/**
 * The half-circular list of tommylist.h: `next` ends in null, `prev` is a ring, so the
 * head's `prev` is the tail.  A list is described by the sequence of its nodes.
 */
module TommyList {

  class Node<D> {
    var next: Node?<D>
    var prev: Node?<D>
    var data: D
    var key: nat
    /** The child pointers that only the nodes of the in-place trie have. */
    var branch: seq<Node?<D>>

    constructor (data: D)
      ensures this.data == data
    {
      this.data := data;
      this.key := 0;
      this.branch := [];
    }
  }

  ghost predicate DistinctNodes<D>(s: seq<Node<D>>) {
    forall i, j | 0 <= i < j < |s| :: s[i] != s[j]
  }

  ghost predicate Apart<D>(s: seq<Node<D>>, t: seq<Node<D>>) {
    forall i, j | 0 <= i < |s| && 0 <= j < |t| :: s[i] != t[j]
  }

  /** The nodes of `s` are chained by `next` and the last one ends in null. */
  ghost predicate Forward<D>(s: seq<Node<D>>)
    reads s`next
  {
    forall i {:trigger s[i].next} | 0 <= i < |s| :: s[i].next == if i + 1 < |s| then s[i + 1] else null
  }

  ghost predicate Backward<D>(s: seq<Node<D>>)
    reads s`prev
  {
    forall i {:trigger s[i].prev} | 0 <= i < |s| :: s[i].prev == if i > 0 then s[i - 1] else s[|s| - 1]
  }

  ghost predicate IsList<D>(head: Node?<D>, s: seq<Node<D>>)
    reads s`next, s`prev
  {
    && head == (if s == [] then null else s[0])
    && DistinctNodes(s)
    && Forward(s)
    && Backward(s)
  }

  method InsertFirst<D>(node: Node<D>) returns (head: Node<D>)
    modifies node`next, node`prev
    ensures head == node && IsList(head, [node])
  {
    node.prev := node;
    node.next := null;
    head := node;
  }

  method InsertTailNotEmpty<D>(head: Node<D>, node: Node<D>, ghost s: seq<Node<D>>)
    requires s != [] && IsList(head, s) && node !in s
    modifies s`next, s`prev, node`next, node`prev
    ensures IsList(head, s + [node])
  {
    assert head.prev == s[|s| - 1];
    node.prev := head.prev;
    head.prev := node;
    node.next := null;
    node.prev.next := node;
  }

  /** The branch every caller takes: behind the tail, or as the first node. */
  method Append<D>(list: Node?<D>, node: Node<D>, ghost s: seq<Node<D>>) returns (list': Node<D>)
    requires IsList(list, s) && node !in s
    modifies s`next, s`prev, node`next, node`prev
    ensures IsList(list', s + [node])
  {
    if list != null {
      InsertTailNotEmpty(list, node, s);
      list' := list;
    } else {
      list' := InsertFirst(node);
      assert s + [node] == [node];
    }
  }

  /** The list without its node at index k. */
  ghost function Gap<D>(s: seq<Node<D>>, k: nat): (t: seq<Node<D>>)
    requires k < |s|
  {
    s[..k] + s[k + 1..]
  }

  lemma GapAt<D>(s: seq<Node<D>>, k: nat)
    requires DistinctNodes(s) && k < |s|
    ensures |Gap(s, k)| == |s| - 1 && DistinctNodes(Gap(s, k))
    ensures forall i {:trigger Gap(s, k)[i]} | 0 <= i < |s| - 1 :: Gap(s, k)[i] == s[if i < k then i else i + 1]
  {
  }

  /** Takes a node out of the circular `prev` list. */
  method UnlinkPrev<D>(list: Node<D>, node: Node<D>, ghost s: seq<Node<D>>, ghost k: nat)
    requires IsList(list, s) && k < |s| && s[k] == node
    modifies s`prev
    ensures Backward(Gap(s, k)) && node.prev == old(node.prev)
  {
    GapAt(s, k);
    hide Gap;
    if node.next != null {
      node.next.prev := node.prev;
    } else {
      list.prev := node.prev;
    }
  }

  /** Takes a node out of the null terminated `next` list. */
  method UnlinkNext<D>(list: Node<D>, node: Node<D>, ghost s: seq<Node<D>>, ghost k: nat) returns (list': Node?<D>)
    requires DistinctNodes(s) && Forward(s) && k < |s| && s[k] == node && list == s[0]
    requires k > 0 ==> node.prev == s[k - 1]
    modifies s`next
    ensures Forward(Gap(s, k)) && list' == (if Gap(s, k) == [] then null else Gap(s, k)[0])
    ensures node.next == old(node.next)
  {
    GapAt(s, k);
    hide Gap;
    if list == node {
      list' := node.next;
    } else {
      node.prev.next := node.next;
      list' := list;
    }
  }

  method RemoveExisting<D>(list: Node<D>, node: Node<D>, ghost s: seq<Node<D>>, ghost k: nat)
    returns (list': Node?<D>, data: D)
    requires IsList(list, s) && k < |s| && s[k] == node
    modifies s`next, s`prev
    ensures IsList(list', Gap(s, k)) && data == node.data
    ensures node.next == old(node.next) && node.prev == old(node.prev)
  {
    GapAt(s, k);
    hide Gap;
    UnlinkPrev(list, node, s, k);
    list' := UnlinkNext(list, node, s, k);
    data := node.data;
  }

  method Concat<D>(first: Node?<D>, second: Node?<D>, ghost s: seq<Node<D>>, ghost t: seq<Node<D>>)
    returns (first': Node?<D>)
    requires IsList(first, s) && IsList(second, t)
    requires Apart(s, t)
    modifies s`next, s`prev, t`next, t`prev
    ensures IsList(first', s + t)
  {
    if second == null {
      assert s + t == s;
      return first;
    }
    if first == null {
      assert s + t == t;
      return second;
    }
    assert first.prev == s[|s| - 1] && second.prev == t[|t| - 1];
    var firstTail := first.prev;
    first.prev := second.prev;
    second.prev := firstTail;
    firstTail.next := second;
    first' := first;
  }
}
