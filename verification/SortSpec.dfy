/** Stable sorting of node sequences: a reference insertion sort, and merging as an algebra on it. */
module SortSpec {
  import opened TommyList

  /** What tommy_compare_func promises. */
  ghost predicate TotalPreorder<D(!new)>(cmp: (D, D) -> int) {
    && (forall a, b {:trigger cmp(a, b), cmp(b, a)} :: cmp(a, b) < 0 <==> cmp(b, a) > 0)
    && (forall a, b, c {:trigger cmp(a, b), cmp(b, c), cmp(a, c)} :: cmp(a, b) <= 0 && cmp(b, c) <= 0 ==> cmp(a, c) <= 0)
  }

  lemma Chained<D(!new)>(a: D, b: D, c: D, cmp: (D, D) -> int)
    requires TotalPreorder(cmp)
    ensures cmp(a, b) <= 0 && cmp(b, c) <= 0 ==> cmp(a, c) <= 0
    ensures cmp(a, b) < 0 <==> cmp(b, a) > 0
    ensures cmp(b, a) < 0 <==> cmp(a, b) > 0
    ensures cmp(b, c) < 0 <==> cmp(c, b) > 0
    ensures cmp(c, b) < 0 <==> cmp(b, c) > 0
  {
  }

  ghost predicate Sorted<D>(s: seq<Node<D>>, cmp: (D, D) -> int)
    reads s`data
  {
    forall i, j | 0 <= i < j < |s| :: cmp(s[i].data, s[j].data) <= 0
  }

  /** Puts x in front of the first node that is not smaller. */
  ghost function Insert<D>(x: Node<D>, s: seq<Node<D>>, cmp: (D, D) -> int): seq<Node<D>>
    reads x`data, s`data
  {
    if s == [] || cmp(x.data, s[0].data) <= 0 then [x] + s
    else [s[0]] + Insert(x, s[1..], cmp)
  }

  /** The reference: insert from the back, so that equal nodes keep their order. */
  ghost function InsertionSort<D>(s: seq<Node<D>>, cmp: (D, D) -> int): seq<Node<D>>
    reads s`data
    ensures forall i | 0 <= i < |InsertionSort(s, cmp)| :: InsertionSort(s, cmp)[i] in s
  {
    if s == [] then []
    else
      var t := InsertionSort(s[1..], cmp);
      InsertMultiset(s[0], t, cmp);
      Insert(s[0], t, cmp)
  }

  /** Merging that prefers the first sequence on ties. */
  ghost function Merged<D>(a: seq<Node<D>>, b: seq<Node<D>>, cmp: (D, D) -> int): seq<Node<D>>
    reads a`data, b`data
  {
    if a == [] then b
    else if b == [] then a
    else if cmp(a[0].data, b[0].data) > 0 then [b[0]] + Merged(a, b[1..], cmp)
    else [a[0]] + Merged(a[1..], b, cmp)
  }

  lemma SortedTail<D>(s: seq<Node<D>>, cmp: (D, D) -> int)
    requires Sorted(s, cmp)
    ensures s != [] ==> Sorted(s[1..], cmp)
  {
  }

  lemma {:induction false} InsertMultiset<D>(x: Node<D>, s: seq<Node<D>>, cmp: (D, D) -> int)
    ensures multiset(Insert(x, s, cmp)) == multiset(s) + multiset{x}
    ensures forall i | 0 <= i < |Insert(x, s, cmp)| :: Insert(x, s, cmp)[i] == x || Insert(x, s, cmp)[i] in s
  {
    if !(s == [] || cmp(x.data, s[0].data) <= 0) {
      InsertMultiset(x, s[1..], cmp);
      assert s == [s[0]] + s[1..];
    }
  }

  lemma {:induction false} InsertSorted<D(!new)>(x: Node<D>, s: seq<Node<D>>, cmp: (D, D) -> int)
    requires TotalPreorder(cmp) && Sorted(s, cmp)
    ensures Sorted(Insert(x, s, cmp), cmp)
  {
    if !(s == [] || cmp(x.data, s[0].data) <= 0) {
      InsertSorted(x, s[1..], cmp);
      InsertMultiset(x, s[1..], cmp);
      var t := Insert(x, s[1..], cmp);
      forall j | 0 <= j < |t| ensures cmp(s[0].data, t[j].data) <= 0 {
        assert t[j] in t;
      }
    }
  }

  lemma NoneSorted<D>(s: seq<Node<D>>, cmp: (D, D) -> int)
    ensures s == [] ==> Sorted(s, cmp)
  {
  }

  /** The reference sorts, and permutes. */
  lemma {:induction false} InsertionSortSorts<D(!new)>(s: seq<Node<D>>, cmp: (D, D) -> int)
    requires TotalPreorder(cmp)
    ensures Sorted(InsertionSort(s, cmp), cmp)
    ensures multiset(InsertionSort(s, cmp)) == multiset(s)
  {
    hide TotalPreorder, Sorted, Insert;
    if s == [] {
      NoneSorted(s, cmp);
    } else {
      InsertionSortSorts(s[1..], cmp);
      InsertSorted(s[0], InsertionSort(s[1..], cmp), cmp);
      InsertMultiset(s[0], InsertionSort(s[1..], cmp), cmp);
      assert s == [s[0]] + s[1..];
    }
  }

  /** The nodes comparing equal to `d`, in order. */
  ghost function Ties<D>(s: seq<Node<D>>, d: D, cmp: (D, D) -> int): seq<Node<D>>
    reads s`data
  {
    if s == [] then []
    else if cmp(s[0].data, d) == 0 then [s[0]] + Ties(s[1..], d, cmp)
    else Ties(s[1..], d, cmp)
  }

  lemma {:induction false} InsertTies<D(!new)>(x: Node<D>, s: seq<Node<D>>, d: D, cmp: (D, D) -> int)
    requires TotalPreorder(cmp) && Sorted(s, cmp)
    ensures Ties(Insert(x, s, cmp), d, cmp) == if cmp(x.data, d) == 0 then [x] + Ties(s, d, cmp) else Ties(s, d, cmp)
  {
    if s == [] || cmp(x.data, s[0].data) <= 0 {
      assert ([x] + s)[1..] == s;
    } else {
      InsertTies(x, s[1..], d, cmp);
      var t := Insert(x, s[1..], cmp);
      assert ([s[0]] + t)[1..] == t;
      Chained(x.data, d, s[0].data, cmp);
    }
  }

  /** The reference is stable: equal nodes appear in their original order. */
  lemma {:induction false} InsertionSortStable<D(!new)>(s: seq<Node<D>>, d: D, cmp: (D, D) -> int)
    requires TotalPreorder(cmp)
    ensures Ties(InsertionSort(s, cmp), d, cmp) == Ties(s, d, cmp)
  {
    if s != [] {
      InsertionSortStable(s[1..], d, cmp);
      InsertionSortSorts(s[1..], cmp);
      InsertTies(s[0], InsertionSort(s[1..], cmp), d, cmp);
    }
  }

  lemma MergedHeads<D(!new)>(a: seq<Node<D>>, b: seq<Node<D>>, x: Node<D>, cmp: (D, D) -> int)
    requires TotalPreorder(cmp)
    requires a != [] ==> cmp(x.data, a[0].data) <= 0
    requires b != [] ==> cmp(x.data, b[0].data) <= 0
    ensures Insert(x, Merged(a, b, cmp), cmp) == [x] + Merged(a, b, cmp)
  {
  }

  lemma {:induction false} MergedInsert<D(!new)>(x: Node<D>, a: seq<Node<D>>, b: seq<Node<D>>, cmp: (D, D) -> int)
    requires TotalPreorder(cmp) && Sorted(a, cmp) && Sorted(b, cmp)
    ensures Merged(Insert(x, a, cmp), b, cmp) == Insert(x, Merged(a, b, cmp), cmp)
    decreases |a| + |b|
  {
    hide TotalPreorder, Sorted;
    SortedTail(a, cmp);
    SortedTail(b, cmp);
    var ins := Insert(x, a, cmp);
    if a != [] && b != [] {
      Chained(b[0].data, x.data, a[0].data, cmp);
      Chained(x.data, a[0].data, b[0].data, cmp);
    }
    if b == [] {
    } else if a == [] || cmp(x.data, a[0].data) <= 0 {
      assert ins == [x] + a && ins[1..] == a;
      if cmp(x.data, b[0].data) > 0 {
        MergedInsert(x, a, b[1..], cmp);
        var m := Merged(a, b[1..], cmp);
        assert Merged(a, b, cmp) == [b[0]] + m && ([b[0]] + m)[1..] == m;
      } else {
        MergedHeads(a, b, x, cmp);
      }
    } else {
      Chained(x.data, b[0].data, a[0].data, cmp);
      assert ins == [a[0]] + Insert(x, a[1..], cmp) && ins[1..] == Insert(x, a[1..], cmp);
      if cmp(a[0].data, b[0].data) > 0 {
        MergedInsert(x, a, b[1..], cmp);
        var m := Merged(a, b[1..], cmp);
        assert Merged(a, b, cmp) == [b[0]] + m && ([b[0]] + m)[1..] == m;
      } else {
        MergedInsert(x, a[1..], b, cmp);
        var m := Merged(a[1..], b, cmp);
        assert Merged(a, b, cmp) == [a[0]] + m && ([a[0]] + m)[1..] == m;
      }
    }
  }

  lemma SortStep<D>(s: seq<Node<D>>, cmp: (D, D) -> int)
    ensures InsertionSort(s, cmp) == if s == [] then [] else Insert(s[0], InsertionSort(s[1..], cmp), cmp)
    ensures Merged([], InsertionSort(s, cmp), cmp) == InsertionSort(s, cmp)
  {
  }

  /** Merging two sorted runs gives the sort of the runs side by side. */
  lemma {:induction false} MergedSorts<D(!new)>(s: seq<Node<D>>, t: seq<Node<D>>, cmp: (D, D) -> int)
    requires TotalPreorder(cmp)
    ensures Merged(InsertionSort(s, cmp), InsertionSort(t, cmp), cmp) == InsertionSort(s + t, cmp)
  {
    hide *;
    InsertionSortSorts(t, cmp);
    SortStep(s, cmp);
    SortStep(t, cmp);
    if s == [] {
      assert s + t == t;
    } else {
      InsertionSortSorts(s[1..], cmp);
      MergedSorts(s[1..], t, cmp);
      MergedInsert(s[0], InsertionSort(s[1..], cmp), InsertionSort(t, cmp), cmp);
      SortStep(s + t, cmp);
      assert (s + t)[1..] == s[1..] + t;
    }
  }

  /** The first shortcut of tommy_chain_merge_degenerated. */
  lemma {:induction false} MergedInOrder<D(!new)>(a: seq<Node<D>>, b: seq<Node<D>>, cmp: (D, D) -> int)
    requires TotalPreorder(cmp) && Sorted(a, cmp) && Sorted(b, cmp) && a != [] && b != []
    requires cmp(a[|a| - 1].data, b[0].data) <= 0
    ensures Merged(a, b, cmp) == a + b
  {
    if |a| > 1 {
      MergedInOrder(a[1..], b, cmp);
    }
    assert a == [a[0]] + a[1..];
  }

  /** The second shortcut: it must be strict, or equal nodes would change places. */
  lemma {:induction false} MergedReversed<D(!new)>(a: seq<Node<D>>, b: seq<Node<D>>, cmp: (D, D) -> int)
    requires TotalPreorder(cmp) && Sorted(a, cmp) && Sorted(b, cmp) && a != [] && b != []
    requires cmp(b[|b| - 1].data, a[0].data) < 0
    ensures Merged(a, b, cmp) == b + a
  {
    if |b| > 1 {
      MergedReversed(a, b[1..], cmp);
    }
    assert b == [b[0]] + b[1..];
  }

  /** A sequence is determined by being sorted and by the order within each class of equal nodes. */
  lemma {:induction false} SortedTiesUnique<D(!new)>(s: seq<Node<D>>, t: seq<Node<D>>, cmp: (D, D) -> int)
    requires TotalPreorder(cmp) && Sorted(s, cmp) && Sorted(t, cmp)
    requires forall d :: Ties(s, d, cmp) == Ties(t, d, cmp)
    ensures s == t
  {
    SameEmptiness(s, t, cmp);
    SameEmptiness(t, s, cmp);
    if s != [] {
      TiesHead(s, t, cmp);
      forall d ensures Ties(s[1..], d, cmp) == Ties(t[1..], d, cmp) {
        assert Ties(s, d, cmp) == Ties(t, d, cmp);
        if cmp(s[0].data, d) == 0 {
          assert Ties(s, d, cmp)[1..] == Ties(s[1..], d, cmp) && Ties(t, d, cmp)[1..] == Ties(t[1..], d, cmp);
        }
      }
      SortedTiesUnique(s[1..], t[1..], cmp);
      assert s == [s[0]] + s[1..] && t == [t[0]] + t[1..];
    }
  }

  lemma SameEmptiness<D(!new)>(s: seq<Node<D>>, t: seq<Node<D>>, cmp: (D, D) -> int)
    requires TotalPreorder(cmp) && forall d :: Ties(s, d, cmp) == Ties(t, d, cmp)
    ensures s != [] ==> t != []
  {
    if s != [] {
      assert Ties(s, s[0].data, cmp) == Ties(t, s[0].data, cmp);
      TiesMember(s, s[0].data, cmp, s[0]);
      TiesMember(t, s[0].data, cmp, s[0]);
      assert s[0] in t;
    }
  }

  lemma {:induction false} TiesMember<D>(s: seq<Node<D>>, d: D, cmp: (D, D) -> int, x: Node<D>)
    ensures x in Ties(s, d, cmp) <==> x in s && cmp(x.data, d) == 0
  {
    if s != [] {
      TiesMember(s[1..], d, cmp, x);
      assert s == [s[0]] + s[1..];
    }
  }

  lemma TiesHead<D(!new)>(s: seq<Node<D>>, t: seq<Node<D>>, cmp: (D, D) -> int)
    requires TotalPreorder(cmp) && Sorted(s, cmp) && Sorted(t, cmp) && s != [] && t != []
    requires forall d :: Ties(s, d, cmp) == Ties(t, d, cmp)
    ensures s[0] == t[0]
  {
    assert Ties(s, s[0].data, cmp) == Ties(t, s[0].data, cmp);
    assert Ties(s, t[0].data, cmp) == Ties(t, t[0].data, cmp);
    TiesMember(t, s[0].data, cmp, s[0]);
    TiesMember(s, t[0].data, cmp, t[0]);
    assert s[0] in Ties(s, s[0].data, cmp);
    assert t[0] in Ties(t, t[0].data, cmp);
    assert cmp(s[0].data, t[0].data) <= 0 && cmp(t[0].data, s[0].data) <= 0;
    assert Ties(s, s[0].data, cmp)[0] == s[0] && Ties(t, s[0].data, cmp)[0] == t[0];
  }
}
