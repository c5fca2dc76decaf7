/**
 * The hot-key round of controller.py.  Keys are numbers ordered like their strings; the heap is
 * kept as the map from its keys to their popularity, and heap[0] is its least (popularity, key).
 */
module Controller {
  import opened Wrappers

  const NUM_HOTKEY: nat := 128
  const MAX_HOTKEY: nat := 1024

  predicate Before(p: nat, a: nat, q: nat, b: nat) {
    p < q || (p == q && a < b)
  }

  ghost predicate IsTop(hot: map<nat, nat>, key: nat) {
    key in hot && forall k | k in hot && k != key :: Before(hot[key], key, hot[k], k)
  }

  /** heap[0]. */
  method HeapTop(hot: map<nat, nat>) returns (top: nat)
    requires hot != map[]
    ensures IsTop(hot, top)
    ensures top in hot && forall k | k in hot && k != top :: hot[top] < hot[k] || (hot[top] == hot[k] && top < k)
  {
    var rest := hot.Keys;
    top :| top in rest;
    rest := rest - {top};
    while rest != {}
      invariant top in hot && rest <= hot.Keys && top !in rest
      invariant forall k | k in hot && k !in rest && k != top :: Before(hot[top], top, hot[k], k)
      decreases |rest|
    {
      var k :| k in rest;
      rest := rest - {k};
      if Before(hot[k], k, hot[top], top) {
        top := k;
      }
    }
  }

  function Elems(s: seq<nat>): set<nat> {
    set k | k in s
  }

  ghost predicate NoRepeats(s: seq<nat>) {
    forall i, j | 0 <= i < j < |s| :: s[i] != s[j]
  }

  /** The hot keys, in some order. */
  method Listing(hot: map<nat, nat>) returns (s: seq<nat>)
    ensures Elems(s) == hot.Keys && NoRepeats(s)
  {
    s := [];
    var rest := hot.Keys;
    while rest != {}
      invariant Elems(s) + rest == hot.Keys && Elems(s) !! rest && NoRepeats(s)
      decreases |rest|
    {
      var k :| k in rest;
      rest := rest - {k};
      assert k !in Elems(s);
      s := s + [k];
    }
  }

  /** Every candidate that is not hot is at most as popular as every hot key, and a place is free only if all are hot. */
  ghost predicate TopK(hot: map<nat, nat>, score: map<nat, nat>) {
    && hot.Keys <= score.Keys && (forall k | k in hot :: hot[k] == score[k])
    && |hot.Keys| <= NUM_HOTKEY
    && (hot.Keys == score.Keys || |hot.Keys| == NUM_HOTKEY)
    && (forall c, k | c in score && c !in hot && k in hot :: score[c] <= hot[k])
  }

  /** A free place is taken by the next candidate. */
  lemma TopKAdd(hot: map<nat, nat>, score: map<nat, nat>, key: nat, popularity: nat)
    requires TopK(hot, score) && |hot.Keys| < NUM_HOTKEY && key !in score
    ensures TopK(hot[key := popularity], score[key := popularity])
  {
    assert hot[key := popularity].Keys == hot.Keys + {key};
  }

  lemma TopKRefuse(hot: map<nat, nat>, score: map<nat, nat>, key: nat, popularity: nat, top: nat)
    requires TopK(hot, score) && |hot.Keys| == NUM_HOTKEY && key !in score
    requires IsTop(hot, top) && popularity <= hot[top]
    ensures TopK(hot, score[key := popularity])
  {
  }

  lemma TopKReplace(hot: map<nat, nat>, score: map<nat, nat>, key: nat, popularity: nat, top: nat)
    requires TopK(hot, score) && |hot.Keys| == NUM_HOTKEY && key !in score
    requires IsTop(hot, top) && popularity > hot[top]
    ensures TopK((hot - {top})[key := popularity], score[key := popularity])
  {
    var hot' := (hot - {top})[key := popularity];
    assert hot'.Keys == hot.Keys - {top} + {key};
    assert |hot.Keys - {top}| == |hot.Keys| - 1;
  }

  lemma Exchanged(hot: map<nat, nat>, top: nat, key: nat, popularity: nat)
    requires top in hot && key !in hot
    ensures ((hot - {top})[key := popularity]).Keys == hot.Keys - {top} + {key}
    ensures |((hot - {top})[key := popularity]).Keys| == |hot.Keys|
  {
    assert ((hot - {top})[key := popularity]).Keys == hot.Keys - {top} + {key};
    assert |hot.Keys - {top}| == |hot.Keys| - 1;
  }

  /** The free indexes are exactly those no hot key uses. */
  ghost predicate AllFree(available: set<nat>, lookup: map<nat, nat>) {
    forall i: nat :: i in available <==> i < MAX_HOTKEY && i !in lookup.Values
  }

  class Controller {
    var available: set<nat>
    var cacheIdx: map<nat, nat>
    /** The switch's cacheLookup_table. */
    var lookup: map<nat, nat>
    var previous: seq<nat>

    /** Every hot key has its own index in the table; while places are free the free set is exact. */
    ghost predicate Indexed(hot: set<nat>)
      reads this`available, this`cacheIdx, this`lookup
    {
      && |hot| <= NUM_HOTKEY
      && lookup.Keys == hot
      && (forall k | k in hot :: k in cacheIdx && cacheIdx[k] == lookup[k] < MAX_HOTKEY)
      && (forall a, b | a in hot && b in hot && lookup[a] == lookup[b] :: a == b)
      && (|hot| < NUM_HOTKEY ==> AllFree(available, lookup))
    }

    ghost predicate Valid()
      reads this
    {
      Indexed(Elems(previous)) && NoRepeats(previous)
    }

    constructor ()
      ensures Valid() && previous == []
    {
      var indexes: set<nat> := {};
      for i := 0 to MAX_HOTKEY
        invariant forall j: nat :: j in indexes <==> j < i
      {
        indexes := indexes + {i};
      }
      available := indexes;
      cacheIdx := map[];
      lookup := map[];
      previous := [];
    }

    /** get_next_index: the least free index, or the exception. */
    method GetNextIndex() returns (index: Option<nat>)
      modifies this`available
      ensures index == None <==> old(available) == {}
      ensures index.Some? ==> index.value in old(available) && available == old(available) - {index.value}
      ensures index.Some? ==> forall i | i in old(available) :: index.value <= i
      ensures index == None ==> available == old(available)
    {
      if available == {} {
        return None;
      }
      var next :| next in available;
      var rest := available - {next};
      while rest != {}
        invariant next in available && rest <= available
        invariant forall i | i in available && i !in rest :: next <= i
        decreases |rest|
      {
        var i :| i in rest;
        rest := rest - {i};
        if i < next {
          next := i;
        }
      }
      available := available - {next};
      index := Some(next);
    }

    /** release_index; an index out of range raises. */
    method ReleaseIndex(index: nat) returns (ok: bool)
      modifies this`available
      ensures ok == (index < MAX_HOTKEY)
      ensures available == if ok then old(available) + {index} else old(available)
    {
      ok := index < MAX_HOTKEY;
      if ok {
        available := available + {index};
      }
    }

    /** A free place: the key takes a fresh index. */
    method AddHot(key: nat, ghost hot: set<nat>)
      requires Indexed(hot) && |hot| < NUM_HOTKEY && key !in hot
      modifies this`available, this`cacheIdx, this`lookup
      ensures Indexed(hot + {key})
      ensures key in lookup && lookup == old(lookup)[key := lookup[key]]
      ensures lookup[key] in old(available) && forall i | i in old(available) :: lookup[key] <= i
    {
      hide AllFree;
      FreeIndex(available, lookup);
      var index := GetNextIndex();
      TakeFree(old(available), lookup, key, index.value);
      cacheIdx := cacheIdx[key := index.value];
      lookup := lookup[key := cacheIdx[key]];
    }

    /** No free place: the key takes over the index of the evicted one, which is also put back. */
    method Replace(evicted: nat, key: nat, ghost hot: set<nat>)
      requires Indexed(hot) && |hot| == NUM_HOTKEY && evicted in hot && key !in hot
      modifies this`available, this`cacheIdx, this`lookup
      ensures Indexed(hot - {evicted} + {key})
      ensures lookup == (old(lookup) - {evicted})[key := old(lookup)[evicted]]
      ensures available == old(available) + {old(lookup[evicted])}
    {
      var index := cacheIdx[evicted];
      var _ := ReleaseIndex(index);
      lookup := lookup - {evicted};
      cacheIdx := cacheIdx[key := index];
      lookup := lookup[key := index];
    }

    lemma IndexedKeys()
      requires Valid()
      ensures lookup.Keys == Elems(previous) && |Elems(previous)| <= NUM_HOTKEY
    {
    }

    /** The popularity counters of the cached keys, read one by one. */
    method ReadCounters(counter: nat -> nat) returns (cached: map<nat, nat>)
      requires Valid()
      ensures cached == CachedScores(previous, lookup, counter)
    {
      assert previous[..|previous|] == previous && previous[..0] == [];
      EmptyElems();
      cached := map[];
      for i := 0 to |previous|
        invariant cached.Keys == Elems(previous[..i])
        invariant forall k | k in cached :: k in lookup && cached[k] == counter(lookup[k])
      {
        hide Elems;
        ElemsPrefix(previous, i);
        cached := cached[previous[i] := counter(cacheIdx[previous[i]])];
      }
    }

    /** The heap of the cached keys: there is always room for all of them. */
    method PushCached(cached: map<nat, nat>) returns (hot: map<nat, nat>)
      requires NoRepeats(previous) && cached.Keys == Elems(previous) && |previous| <= NUM_HOTKEY
      ensures hot == cached
    {
      hide Elems, NoRepeats;
      PrefixCards(previous);
      assert previous[..|previous|] == previous && previous[..0] == [];
      EmptyElems();
      hot := map[];
      for i := 0 to |previous|
        invariant hot.Keys == Elems(previous[..i])
        invariant forall k | k in hot :: k in cached && hot[k] == cached[k]
      {
        ElemsPrefix(previous, i);
        var key := previous[i];
        if |hot.Keys| < NUM_HOTKEY {
          hot := hot[key := cached[key]];
        }
      }
    }

    /** No free place: the key evicts heap[0], or is refused. */
    method Compete(key: nat, popularity: nat, hot: map<nat, nat>, ghost score: map<nat, nat>) returns (hot': map<nat, nat>)
      requires Indexed(hot.Keys) && TopK(hot, score) && key !in score && |hot.Keys| == NUM_HOTKEY
      modifies this`available, this`cacheIdx, this`lookup
      ensures Indexed(hot'.Keys) && TopK(hot', score[key := popularity]) && |hot'.Keys| >= |hot.Keys|
      ensures hot'.Keys <= hot.Keys + {key} && (hot' == hot || key in hot')
      ensures forall k | k in hot && k in hot' :: k in lookup && k in old(lookup) && lookup[k] == old(lookup)[k]
    {
      hide TopK, Indexed, IsTop;
      TopKKeys(hot, score);
      HotIndexed(hot.Keys);
      hot' := hot;
      var top := HeapTop(hot);
      if popularity > hot[top] {
        TopKReplace(hot, score, key, popularity, top);
        Replace(top, key, hot.Keys);
        hot' := (hot - {top})[key := popularity];
        Exchanged(hot, top, key, popularity);
      } else {
        TopKRefuse(hot, score, key, popularity, top);
      }
    }

    lemma HotIndexed(hot: set<nat>)
      requires Indexed(hot)
      ensures lookup.Keys == hot
    {
    }

    /** One reported key that is not cached: takes a free place, or evicts heap[0], or is refused. */
    method Consider(key: nat, popularity: nat, hot: map<nat, nat>, ghost score: map<nat, nat>) returns (hot': map<nat, nat>)
      requires Indexed(hot.Keys) && TopK(hot, score) && key !in score
      modifies this`available, this`cacheIdx, this`lookup
      ensures Indexed(hot'.Keys) && TopK(hot', score[key := popularity]) && |hot'.Keys| >= |hot.Keys|
      ensures hot'.Keys <= hot.Keys + {key} && (hot' == hot || key in hot')
      ensures forall k | k in hot && k in hot' :: k in lookup && k in old(lookup) && lookup[k] == old(lookup)[k]
    {
      hide TopK, Indexed;
      TopKKeys(hot, score);
      HotIndexed(hot.Keys);
      if |hot.Keys| < NUM_HOTKEY {
        TopKAdd(hot, score, key, popularity);
        AddHot(key, hot.Keys);
        hot' := hot[key := popularity];
        assert hot'.Keys == hot.Keys + {key};
      } else {
        hot' := Compete(key, popularity, hot, score);
      }
    }

    /**
     * A full round: the hot list becomes the top of the cached and the reported keys, no two hot keys share an
     * index, and a key that stays hot keeps its own.
     */
    method Round(counter: nat -> nat, reported: seq<(nat, nat)>) returns (hot: map<nat, nat>)
      requires Valid()
      requires forall i, j | 0 <= i < j < |reported| :: reported[i].0 != reported[j].0
      modifies this
      ensures Valid() && (forall k :: k in hot <==> k in previous) && lookup.Keys == hot.Keys
      ensures |old(previous)| <= |previous| == |hot| <= NUM_HOTKEY
      ensures forall k | k in hot :: k in old(previous) || exists i | 0 <= i < |reported| :: reported[i].0 == k
      ensures forall k | k in old(previous) :: k in old(lookup)
      ensures forall k | k in hot && k in old(previous) :: hot[k] == counter(old(lookup)[k]) && lookup[k] == old(lookup)[k]
      ensures forall i | 0 <= i < |reported| && reported[i].0 in hot && reported[i].0 !in old(previous) ::
                hot[reported[i].0] == reported[i].1
      ensures forall c | c in old(previous) && c !in hot ::
                |hot| == NUM_HOTKEY && forall k | k in hot :: counter(old(lookup)[c]) <= hot[k]
      ensures forall i | 0 <= i < |reported| && reported[i].0 !in old(previous) && reported[i].0 !in hot ::
                |hot| == NUM_HOTKEY && forall k | k in hot :: reported[i].1 <= hot[k]
    {
      hide *;
      IndexedKeys();
      ListedKeys(previous);
      ghost var scores := Scores(previous, lookup, counter, reported);
      ScoresMeaning(previous, lookup, counter, reported);
      hot := Rank(counter, reported);
      RankMeaning(hot, scores);
      ListedKeys(previous);
      IndexedKeys();
      PrefixCards(previous);
    }

    /** The round itself, against the scores of all candidates. */
    method Rank(counter: nat -> nat, reported: seq<(nat, nat)>) returns (hot: map<nat, nat>)
      requires Valid()
      requires forall i, j | 0 <= i < j < |reported| :: reported[i].0 != reported[j].0
      modifies this
      ensures Valid() && NoRepeats(previous) && hot.Keys == Elems(previous)
      ensures TopK(hot, old(Scores(previous, lookup, counter, reported)))
      ensures |previous| >= |old(previous)|
      ensures forall k | k in hot && k in Elems(old(previous)) ::
                k in lookup && k in old(lookup) && lookup[k] == old(lookup)[k]
    {
      hide Elems, TopK, ScoresFrom, NoRepeats, Indexed;
      IndexedKeys();
      PrefixCards(previous);
      var cached := ReadCounters(counter);
      hot := PushCached(cached);
      ghost var before := cached;
      ghost var goal := ScoresFrom(before, previous, reported);
      assert goal == Scores(previous, lookup, counter, reported);
      StartTopK(before);
      assert reported[..0] == [] && reported[..|reported|] == reported;
      ScoresEmpty(before, previous);
      for i := 0 to |reported|
        invariant Indexed(hot.Keys) && |hot.Keys| >= |old(previous)| && previous == old(previous)
        invariant TopK(hot, ScoresFrom(before, previous, reported[..i]))
        invariant forall k | k in hot && k in Elems(previous) ::
                    k in lookup && k in old(lookup) && lookup[k] == old(lookup)[k]
      {
        var (key, popularity) := reported[i];
        ScoresStep(before, previous, reported, i);
        if key !in previous {
          ListedKeys(previous);
          hot := Consider(key, popularity, hot, ScoresFrom(before, previous, reported[..i]));
        }
      }
      previous := Listing(hot);
      PrefixCards(previous);
    }
  }

  lemma ListedKeys(s: seq<nat>)
    ensures forall k :: k in s <==> k in Elems(s)
  {
  }

  /** What the candidates are, and their popularity: the counters of the cached keys, and the reports of the others. */
  lemma ScoresMeaning(previous: seq<nat>, lookup: map<nat, nat>, counter: nat -> nat, reported: seq<(nat, nat)>)
    requires Elems(previous) <= lookup.Keys
    requires forall i, j | 0 <= i < j < |reported| :: reported[i].0 != reported[j].0
    ensures var score := Scores(previous, lookup, counter, reported);
            && (forall k | k in score :: k in previous || exists i | 0 <= i < |reported| :: reported[i].0 == k)
            && (forall k | k in previous :: k in lookup && k in score && score[k] == counter(lookup[k]))
            && (forall i | 0 <= i < |reported| && reported[i].0 !in previous ::
                  reported[i].0 in score && score[reported[i].0] == reported[i].1)
  {
    ScoresHold(CachedScores(previous, lookup, counter), previous, reported);
  }

  lemma {:induction false} ScoresHold(cached: map<nat, nat>, previous: seq<nat>, reported: seq<(nat, nat)>)
    requires forall i, j | 0 <= i < j < |reported| :: reported[i].0 != reported[j].0
    ensures var score := ScoresFrom(cached, previous, reported);
            && (forall k | k in score :: k in cached || exists i | 0 <= i < |reported| :: reported[i].0 == k)
            && (forall k | k in cached && k in previous :: k in score && score[k] == cached[k])
            && (forall i | 0 <= i < |reported| && reported[i].0 !in previous ::
                  reported[i].0 in score && score[reported[i].0] == reported[i].1)
  {
    if reported != [] {
      var n := |reported| - 1;
      ScoresHold(cached, previous, reported[..n]);
      forall i | 0 <= i < n ensures reported[..n][i] == reported[i] {
      }
    }
  }

  lemma RankMeaning(hot: map<nat, nat>, score: map<nat, nat>)
    requires TopK(hot, score)
    ensures |hot| == |hot.Keys| <= NUM_HOTKEY
    ensures forall k | k in hot :: k in score && hot[k] == score[k]
    ensures forall c | c in score && c !in hot :: |hot| == NUM_HOTKEY && forall k | k in hot :: score[c] <= hot[k]
  {
  }

  /** The popularity of the cached keys. */
  ghost function CachedScores(previous: seq<nat>, lookup: map<nat, nat>, counter: nat -> nat): map<nat, nat>
    requires Elems(previous) <= lookup.Keys
    ensures CachedScores(previous, lookup, counter).Keys == Elems(previous)
  {
    map k | k in Elems(previous) :: counter(lookup[k])
  }

  /** The popularity of every candidate: the counters for cached keys, the reports for the others. */
  ghost function ScoresFrom(cached: map<nat, nat>, previous: seq<nat>, reported: seq<(nat, nat)>): map<nat, nat> {
    if reported == [] then cached
    else
      var n := |reported| - 1;
      var score := ScoresFrom(cached, previous, reported[..n]);
      if reported[n].0 in previous then score else score[reported[n].0 := reported[n].1]
  }

  ghost function Scores(previous: seq<nat>, lookup: map<nat, nat>, counter: nat -> nat,
                        reported: seq<(nat, nat)>): map<nat, nat>
    requires Elems(previous) <= lookup.Keys
  {
    ScoresFrom(CachedScores(previous, lookup, counter), previous, reported)
  }

  lemma {:induction false} ScoresFresh(cached: map<nat, nat>, previous: seq<nat>, reported: seq<(nat, nat)>, key: nat)
    requires key !in cached && forall j | 0 <= j < |reported| :: reported[j].0 != key
    ensures key !in ScoresFrom(cached, previous, reported)
  {
    if reported != [] {
      ScoresFresh(cached, previous, reported[..|reported| - 1], key);
    }
  }

  lemma ScoresStep(cached: map<nat, nat>, previous: seq<nat>, reported: seq<(nat, nat)>, i: nat)
    requires i < |reported| && cached.Keys == Elems(previous)
    requires forall a, b | 0 <= a < b < |reported| :: reported[a].0 != reported[b].0
    ensures var score := ScoresFrom(cached, previous, reported[..i]);
            var (key, popularity) := reported[i];
            ScoresFrom(cached, previous, reported[..i + 1]) ==
              if key in previous then score else score[key := popularity]
    ensures reported[i].0 !in previous ==> reported[i].0 !in ScoresFrom(cached, previous, reported[..i])
  {
    assert reported[..i + 1][..i] == reported[..i];
    var key := reported[i].0;
    if key !in previous {
      ScoresFresh(cached, previous, reported[..i], key);
    }
  }

  lemma ScoresEmpty(cached: map<nat, nat>, previous: seq<nat>)
    ensures ScoresFrom(cached, previous, []) == cached
  {
  }

  lemma StartTopK(hot: map<nat, nat>)
    requires |hot.Keys| <= NUM_HOTKEY
    ensures TopK(hot, hot)
  {
  }

  lemma TopKKeys(hot: map<nat, nat>, score: map<nat, nat>)
    requires TopK(hot, score)
    ensures |hot.Keys| <= NUM_HOTKEY && hot.Keys <= score.Keys
  {
  }

  lemma EmptyElems()
    ensures Elems([]) == {}
  {
  }

  lemma ElemsPrefix(s: seq<nat>, i: nat)
    requires i < |s|
    ensures Elems(s[..i + 1]) == Elems(s[..i]) + {s[i]} && s[i] in Elems(s)
  {
    assert s[..i + 1] == s[..i] + [s[i]];
  }

  lemma {:induction false} PrefixCard(s: seq<nat>, n: nat)
    requires n <= |s| && NoRepeats(s)
    ensures |Elems(s[..n])| == n
  {
    if n > 0 {
      PrefixCard(s, n - 1);
      ElemsPrefix(s, n - 1);
      assert s[n - 1] !in Elems(s[..n - 1]);
    } else {
      assert Elems(s[..0]) == {};
    }
  }

  /** A list without repetitions has as many keys as places, and so has each of its prefixes. */
  lemma PrefixCards(s: seq<nat>)
    requires NoRepeats(s)
    ensures |Elems(s)| == |s|
    ensures forall n | 0 <= n <= |s| :: |Elems(s[..n])| == n
  {
    forall n | 0 <= n <= |s| ensures |Elems(s[..n])| == n {
      PrefixCard(s, n);
    }
    assert s[..|s|] == s;
  }

  lemma ValuesAdded(m: map<nat, nat>, key: nat, v: nat)
    requires key !in m
    ensures m[key := v].Values == m.Values + {v}
  {
    var m' := m[key := v];
    assert m'[key] == v;
    forall x | x in m.Values ensures x in m'.Values {
      var k :| k in m && m[k] == x;
      assert m'[k] == x;
    }
  }

  lemma {:induction false} ValuesCard(m: map<nat, nat>)
    ensures |m.Values| <= |m.Keys|
  {
    if m != map[] {
      var k :| k in m;
      var rest := m - {k};
      ValuesCard(rest);
      assert rest.Keys == m.Keys - {k};
      assert m == rest[k := m[k]];
      ValuesAdded(rest, k, m[k]);
    }
  }

  lemma {:induction false} Pigeonhole(taken: set<nat>, n: nat) returns (i: nat)
    requires |taken| < n
    ensures i < n && i !in taken
  {
    i := n - 1;
    if i in taken {
      i := Pigeonhole(taken - {i}, n - 1);
    }
  }

  /** get_next_index cannot raise while a place is free. */
  lemma FreeIndex(available: set<nat>, lookup: map<nat, nat>)
    requires |lookup.Keys| < NUM_HOTKEY && AllFree(available, lookup)
    ensures available != {}
  {
    ValuesCard(lookup);
    var i := Pigeonhole(lookup.Values, MAX_HOTKEY);
    assert i in available;
  }

  lemma TakeFree(available: set<nat>, lookup: map<nat, nat>, key: nat, index: nat)
    requires AllFree(available, lookup) && index in available && key !in lookup
    ensures index < MAX_HOTKEY && AllFree(available - {index}, lookup[key := index])
    ensures forall k | k in lookup :: lookup[k] != index
  {
    ValuesAdded(lookup, key, index);
    assert forall k | k in lookup :: lookup[k] in lookup.Values;
  }
}
