/** Sequences of list nodes, filtered by the key stored in each node. */
module NodeSeqs {
  import opened TommyList

  /** The nodes of `s` whose key satisfies `p`, in their order. */
  ghost function Select<D>(s: seq<Node<D>>, p: nat -> bool): seq<Node<D>>
    reads s`key
  {
    if s == [] then []
    else
      var n := |s| - 1;
      Select(s[..n], p) + if p(s[n].key) then [s[n]] else []
  }

  function HasKey(hash: nat): nat -> bool {
    k => k == hash
  }

  /** `s` with node `x` taken out. */
  ghost function Without<D>(s: seq<Node<D>>, x: Node<D>): seq<Node<D>> {
    if s == [] then []
    else
      var n := |s| - 1;
      Without(s[..n], x) + if s[n] == x then [] else [s[n]]
  }

  lemma {:induction false} SelectConcat<D>(s: seq<Node<D>>, t: seq<Node<D>>, p: nat -> bool)
    ensures Select(s + t, p) == Select(s, p) + Select(t, p)
  {
    if t == [] {
      assert s + t == s;
    } else {
      var n := |t| - 1;
      SelectConcat(s, t[..n], p);
      assert (s + t)[..|s + t| - 1] == s + t[..n];
    }
  }

  lemma SelectAppend<D>(s: seq<Node<D>>, x: Node<D>, p: nat -> bool)
    ensures Select(s + [x], p) == if p(x.key) then Select(s, p) + [x] else Select(s, p)
  {
    assert (s + [x])[..|s + [x]| - 1] == s;
    assert Select(s, p) + [] == Select(s, p);
  }

  lemma {:induction false} SelectMember<D>(s: seq<Node<D>>, p: nat -> bool, x: Node<D>)
    ensures x in Select(s, p) <==> x in s && p(x.key)
  {
    if s != [] {
      var n := |s| - 1;
      SelectMember(s[..n], p, x);
      assert s == s[..n] + [s[n]];
    }
  }

  lemma {:induction false} SelectNone<D>(s: seq<Node<D>>, p: nat -> bool)
    requires forall x | x in s :: !p(x.key)
    ensures Select(s, p) == []
  {
    if s != [] {
      SelectNone(s[..|s| - 1], p);
    }
  }

  /** Filtering a filtered list by one key: the outer filter decides alone, or nothing is left. */
  lemma {:induction false} SelectTwice<D>(s: seq<Node<D>>, p: nat -> bool, hash: nat)
    ensures Select(Select(s, p), HasKey(hash)) == if p(hash) then Select(s, HasKey(hash)) else []
  {
    if s != [] {
      var n := |s| - 1;
      SelectTwice(s[..n], p, hash);
      if p(s[n].key) {
        SelectAppend(Select(s[..n], p), s[n], HasKey(hash));
      } else {
        assert Select(s, p) == Select(s[..n], p);
      }
    }
  }

  lemma {:induction false} WithoutConcat<D>(s: seq<Node<D>>, t: seq<Node<D>>, x: Node<D>)
    ensures Without(s + t, x) == Without(s, x) + Without(t, x)
  {
    if t == [] {
      assert s + t == s;
    } else {
      var n := |t| - 1;
      WithoutConcat(s, t[..n], x);
      assert (s + t)[..|s + t| - 1] == s + t[..n];
    }
  }

  lemma {:induction false} WithoutAbsent<D>(s: seq<Node<D>>, x: Node<D>)
    requires x !in s
    ensures Without(s, x) == s
  {
    if s != [] {
      var n := |s| - 1;
      var t := s[..n];
      assert s == t + [s[n]];
      WithoutAbsent(t, x);
    }
  }

  lemma WithoutSelf<D>(x: Node<D>)
    ensures Without([x], x) == []
  {
    assert [x][..0] == [];
  }

  lemma WithoutOne<D>(before: seq<Node<D>>, x: Node<D>, after: seq<Node<D>>)
    requires x !in before && x !in after
    ensures Without(before + [x] + after, x) == before + after
  {
    hide Without;
    WithoutConcat(before + [x], after, x);
    WithoutConcat(before, [x], x);
    WithoutSelf(x);
    WithoutAbsent(before, x);
    WithoutAbsent(after, x);
    assert before + [] == before;
  }

  /** Taking out the node at index k. */
  lemma WithoutAt<D>(s: seq<Node<D>>, k: nat)
    requires DistinctNodes(s) && k < |s|
    ensures Without(s, s[k]) == s[..k] + s[k + 1..]
    ensures DistinctNodes(Without(s, s[k])) && s[k] !in Without(s, s[k])
  {
    hide Without, DistinctNodes;
    OnceOnly(s, k);
    WithoutOne(s[..k], s[k], s[k + 1..]);
    SplitAt(s, k);
  }

  lemma OnceOnly<D>(s: seq<Node<D>>, k: nat)
    requires DistinctNodes(s) && k < |s|
    ensures s[k] !in s[..k] && s[k] !in s[k + 1..] && s[k] !in s[..k] + s[k + 1..]
    ensures DistinctNodes(s[..k] + s[k + 1..])
  {
    var t := s[..k] + s[k + 1..];
    forall i | 0 <= i < |t| ensures t[i] == s[if i < k then i else i + 1] {
    }
  }

  lemma SplitAt<D>(s: seq<Node<D>>, k: nat)
    requires k < |s|
    ensures s == s[..k] + [s[k]] + s[k + 1..]
  {
  }

  lemma WithoutDistinct<D>(s: seq<Node<D>>, x: Node<D>)
    requires DistinctNodes(s) && x in s
    ensures DistinctNodes(Without(s, x)) && |Without(s, x)| == |s| - 1
    ensures forall y | y in Without(s, x) :: y in s && y != x
    ensures forall y | y in s && y != x :: y in Without(s, x)
  {
    var i :| 0 <= i < |s| && s[i] == x;
    WithoutAt(s, i);
    forall y | y in s && y != x ensures y in Without(s, x) {
      WithoutMember(s, x, y);
    }
  }

  lemma {:induction false} WithoutMember<D>(s: seq<Node<D>>, x: Node<D>, y: Node<D>)
    ensures y in Without(s, x) <==> y in s && y != x
  {
    if s != [] {
      var n := |s| - 1;
      WithoutMember(s[..n], x, y);
      assert s == s[..n] + [s[n]];
    }
  }

  lemma {:induction false} SelectWithout<D>(s: seq<Node<D>>, x: Node<D>, p: nat -> bool)
    ensures Select(Without(s, x), p) == Without(Select(s, p), x)
  {
    if s != [] {
      var n := |s| - 1;
      SelectWithout(s[..n], x, p);
      WithoutConcat(Select(s[..n], p), if p(s[n].key) then [s[n]] else [], x);
      assert [s[n]][..0] == [];
      if s[n] != x {
        SelectAppend(Without(s[..n], x), s[n], p);
      } else {
        assert Without(s, x) == Without(s[..n], x);
      }
    }
  }

  ghost predicate Matches<D>(x: Node<D>, hash: nat, eq: D -> bool)
    reads x`key, x`data
  {
    x.key == hash && eq(x.data)
  }

  /** The first node of `s` that has the hash and compares equal, or null. */
  ghost function FirstMatch<D>(s: seq<Node<D>>, hash: nat, eq: D -> bool): Node?<D>
    reads s`key, s`data
  {
    if s == [] then null
    else
      var n := |s| - 1;
      var found := FirstMatch(s[..n], hash, eq);
      if found == null && Matches(s[n], hash, eq) then s[n] else found
  }

  lemma {:induction false} FirstMatchMeaning<D>(s: seq<Node<D>>, hash: nat, eq: D -> bool)
    ensures var found := FirstMatch(s, hash, eq);
            if found == null then forall i | 0 <= i < |s| :: !Matches(s[i], hash, eq)
            else exists k | 0 <= k < |s| ::
                   && s[k] == found && Matches(found, hash, eq)
                   && forall i | 0 <= i < k :: !Matches(s[i], hash, eq)
  {
    if s != [] {
      var n := |s| - 1;
      FirstMatchMeaning(s[..n], hash, eq);
      var found := FirstMatch(s[..n], hash, eq);
      if found != null {
        var k :| 0 <= k < n && s[..n][k] == found && Matches(found, hash, eq)
                 && forall i | 0 <= i < k :: !Matches(s[..n][i], hash, eq);
        forall i | 0 <= i < k ensures !Matches(s[i], hash, eq) {
          assert s[..n][i] == s[i];
        }
        assert s[k] == found;
      } else {
        forall i | 0 <= i < n ensures !Matches(s[i], hash, eq) {
          assert s[..n][i] == s[i];
        }
      }
    }
  }

  /** Nodes with other hashes do not influence the first match. */
  lemma {:induction false} FirstMatchSelect<D>(s: seq<Node<D>>, hash: nat, eq: D -> bool)
    ensures FirstMatch(Select(s, HasKey(hash)), hash, eq) == FirstMatch(s, hash, eq)
  {
    if s != [] {
      var n := |s| - 1;
      FirstMatchSelect(s[..n], hash, eq);
      var t := Select(s[..n], HasKey(hash));
      if s[n].key == hash {
        assert (t + [s[n]])[..|t|] == t;
      } else {
        assert Select(s, HasKey(hash)) == t;
      }
    }
  }

  lemma {:induction false} FirstMatchConcat<D>(s: seq<Node<D>>, t: seq<Node<D>>, hash: nat, eq: D -> bool)
    ensures FirstMatch(s + t, hash, eq) ==
            if FirstMatch(s, hash, eq) != null then FirstMatch(s, hash, eq) else FirstMatch(t, hash, eq)
  {
    if t == [] {
      assert s + t == s;
    } else {
      var n := |t| - 1;
      FirstMatchConcat(s, t[..n], hash, eq);
      assert (s + t)[..|s + t| - 1] == s + t[..n];
    }
  }

  lemma FirstMatchAppend<D>(s: seq<Node<D>>, x: Node<D>, hash: nat, eq: D -> bool)
    ensures FirstMatch(s + [x], hash, eq) ==
            if FirstMatch(s, hash, eq) == null && Matches(x, hash, eq) then x else FirstMatch(s, hash, eq)
  {
    assert (s + [x])[..|s|] == s;
  }

  lemma FirstMatchAt<D>(s: seq<Node<D>>, k: nat, hash: nat, eq: D -> bool)
    requires k < |s| && FirstMatch(s[..k], hash, eq) == null
    ensures Matches(s[k], hash, eq) ==> FirstMatch(s, hash, eq) == s[k]
    ensures !Matches(s[k], hash, eq) ==> FirstMatch(s[..k + 1], hash, eq) == null
  {
    assert s[..k + 1][..k] == s[..k];
    FirstMatchConcat(s[..k + 1], s[k + 1..], hash, eq);
    assert s == s[..k + 1] + s[k + 1..];
  }

  /** The data of the nodes, in order. */
  ghost function Datas<D>(s: seq<Node<D>>): seq<D>
    reads s`data
  {
    if s == [] then [] else Datas(s[..|s| - 1]) + [s[|s| - 1].data]
  }

  lemma {:induction false} DatasAt<D>(s: seq<Node<D>>)
    ensures |Datas(s)| == |s| && forall i | 0 <= i < |s| :: Datas(s)[i] == s[i].data
  {
    if s != [] {
      DatasAt(s[..|s| - 1]);
    }
  }

  lemma DatasAppend<D>(s: seq<Node<D>>, x: Node<D>)
    ensures Datas(s + [x]) == Datas(s) + [x.data]
  {
    assert (s + [x])[..|s|] == s;
  }

  lemma WithoutAppend<D>(t: seq<Node<D>>, y: Node<D>, x: Node<D>)
    ensures Without(t + [y], x) == if y == x then Without(t, x) else Without(t, x) + [y]
  {
    assert (t + [y])[..|t|] == t;
    assert Without(t, x) + [] == Without(t, x);
  }

  lemma InitDistinct<D>(s: seq<Node<D>>)
    requires DistinctNodes(s) && s != []
    ensures DistinctNodes(s[..|s| - 1]) && s[|s| - 1] !in s[..|s| - 1] && s == s[..|s| - 1] + [s[|s| - 1]]
    ensures forall x | x in s :: x == s[|s| - 1] || x in s[..|s| - 1]
  {
  }

  /** Taking out a node takes out its data, once. */
  lemma {:induction false} DatasWithout<D>(s: seq<Node<D>>, x: Node<D>)
    requires DistinctNodes(s) && x in s
    ensures multiset(Datas(s)) == multiset(Datas(Without(s, x))) + multiset{x.data}
  {
    hide Datas, Without, DistinctNodes;
    InitDistinct(s);
    var t, y := s[..|s| - 1], s[|s| - 1];
    DatasAppend(t, y);
    WithoutAppend(t, y, x);
    if y == x {
      WithoutAbsent(t, x);
    } else {
      DatasWithout(t, x);
      DatasAppend(Without(t, x), y);
    }
  }

  lemma NoneMissing<D>(s: seq<Node<D>>, t: seq<Node<D>>)
    requires forall x | x in t :: x in s
    ensures s == [] ==> t == []
  {
    if t != [] {
      assert t[0] in s;
    }
  }

  /** Two listings of the same distinct nodes hold the same data, each the same number of times. */
  lemma {:induction false} DatasPermuted<D>(s: seq<Node<D>>, t: seq<Node<D>>)
    requires DistinctNodes(s) && DistinctNodes(t)
    requires (forall x | x in s :: x in t) && (forall x | x in t :: x in s)
    ensures multiset(Datas(s)) == multiset(Datas(t))
    decreases |s|
  {
    hide Datas, Without;
    NoneMissing(s, t);
    if s != [] {
      var x := s[0];
      WithoutDistinct(s, x);
      WithoutDistinct(t, x);
      DatasWithout(s, x);
      DatasWithout(t, x);
      DatasPermuted(Without(s, x), Without(t, x));
    }
  }
}
