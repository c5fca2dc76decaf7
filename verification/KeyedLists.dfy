/**
 * What both tries share: a set of nodes arranged in one list for each key, in insertion order.
 */
module KeyedLists {
  import opened Bits
  import opened TommyList
  import opened NodeSeqs
  import opened TriePaths

  ghost function Elems<D>(s: seq<Node<D>>): set<Node<D>> {
    set x | x in s
  }

  /** The stored nodes are those of the model, each under its key. */
  ghost predicate Keyed<D>(model: map<nat, seq<Node<D>>>, nodes: set<Node<D>>)
    reads nodes`key
  {
    && (forall k, i | k in model && 0 <= i < |model[k]| :: model[k][i] in nodes && model[k][i].key == k)
    && (forall x | x in nodes :: x.key in model && x in model[x.key])
    && (forall k | k in model :: model[k] != [] && k < Pow2(KEY_BIT))
  }

  ghost predicate Lists<D>(model: map<nat, seq<Node<D>>>, nodes: set<Node<D>>)
    reads nodes`next, nodes`prev
  {
    forall k | k in model :: model[k] != [] && Elems(model[k]) <= nodes && IsList(model[k][0], model[k])
  }

  ghost function Listed<D>(model: map<nat, seq<Node<D>>>, key: nat): seq<Node<D>> {
    if key in model then model[key] else []
  }

  lemma OwnKey<D>(model: map<nat, seq<Node<D>>>, nodes: set<Node<D>>, key: nat, x: Node<D>)
    requires Keyed(model, nodes) && key in model && x in model[key]
    ensures x in nodes && x.key == key
  {
    hide Pow2;
    var i :| 0 <= i < |model[key]| && model[key][i] == x;
  }

  lemma ListHead<D>(list: Node?<D>, s: seq<Node<D>>)
    requires IsList(list, s)
    ensures DistinctNodes(s) && (list == null <==> s == []) && (s != [] ==> list == s[0])
  {
  }

  lemma InNodes<D>(s: seq<Node<D>>, nodes: set<Node<D>>)
    requires Elems(s) <= nodes
    ensures forall x | x in s :: x in nodes
  {
    forall x | x in s ensures x in nodes {
      assert x in Elems(s);
    }
  }

  lemma ElemsAppend<D>(s: seq<Node<D>>, x: Node<D>, nodes: set<Node<D>>)
    requires Elems(s) <= nodes
    ensures Elems(s + [x]) <= nodes + {x}
  {
    InNodes(s, nodes);
  }

  /** The list of one key, apart from all others. */
  lemma ListsSplit<D>(model: map<nat, seq<Node<D>>>, nodes: set<Node<D>>, key: nat)
    requires Keyed(model, nodes) && Lists(model, nodes) && key in model
    ensures model[key] != [] && Elems(model[key]) <= nodes && IsList(model[key][0], model[key])
    ensures Lists(model - {key}, nodes - Elems(model[key]))
  {
    hide IsList;
    forall k | k in model && k != key ensures Elems(model[k]) <= nodes - Elems(model[key]) {
      forall x | x in model[k] ensures x in nodes && x !in model[key] {
        OwnKey(model, nodes, k, x);
        if x in model[key] {
          OwnKey(model, nodes, key, x);
        }
      }
    }
  }

  lemma ListsJoin<D>(model: map<nat, seq<Node<D>>>, nodes: set<Node<D>>, key: nat, s: seq<Node<D>>, nodes': set<Node<D>>)
    requires Lists(model - {key}, nodes) && s != [] && IsList(s[0], s) && nodes <= nodes' && Elems(s) <= nodes'
    ensures Lists(model[key := s], nodes')
  {
    hide IsList;
    forall k | k in model && k != key ensures model[k] != [] && Elems(model[k]) <= nodes' && IsList(model[k][0], model[k]) {
      assert (model - {key})[k] == model[k];
    }
  }

  lemma ListsWider<D>(model: map<nat, seq<Node<D>>>, nodes: set<Node<D>>, nodes': set<Node<D>>)
    requires Lists(model, nodes) && nodes <= nodes'
    ensures Lists(model, nodes')
  {
    hide IsList;
  }

  lemma FreshLists<D>(model: map<nat, seq<Node<D>>>, nodes: set<Node<D>>, key: nat, insert: Node<D>)
    requires Lists(model, nodes) && key !in model
    ensures Listed(model, key) + [insert] == [insert]
    ensures IsList(insert, [insert]) ==> Lists(model[key := [insert]], nodes + {insert})
  {
    hide IsList;
    assert model - {key} == model;
    if IsList(insert, [insert]) {
      ListsJoin(model, nodes, key, [insert], nodes + {insert});
    }
  }

  lemma ListedAppend<D>(model: map<nat, seq<Node<D>>>, key: nat, x: Node<D>)
    ensures Listed(model, key) + [x] == if key in model then model[key] + [x] else [x]
  {
  }

  lemma KeyedInsert<D>(model: map<nat, seq<Node<D>>>, nodes: set<Node<D>>, x: Node<D>)
    requires Keyed(model, nodes) && x.key < Pow2(KEY_BIT)
    ensures Keyed(model[x.key := Listed(model, x.key) + [x]], nodes + {x})
    ensures x !in nodes ==> x !in Listed(model, x.key) && forall k | k in model :: model[k][0] != x
  {
    hide Pow2;
  }

  /** The model without one node; a key without nodes is no longer stored. */
  ghost function Dropped<D>(model: map<nat, seq<Node<D>>>, key: nat, x: Node<D>): map<nat, seq<Node<D>>>
    requires key in model
  {
    var s := Without(model[key], x);
    if s == [] then model - {key} else model[key := s]
  }

  /** Taking out what was put in under a fresh key restores the model. */
  lemma InsertThenDrop<D>(model: map<nat, seq<Node<D>>>, key: nat, x: Node<D>)
    requires key !in model
    ensures Dropped(model[key := Listed(model, key) + [x]], key, x) == model
  {
    WithoutSelf(x);
    assert [] + [x] == [x];
  }

  lemma KeyedDrop<D>(model: map<nat, seq<Node<D>>>, nodes: set<Node<D>>, x: Node<D>)
    requires Keyed(model, nodes) && x in nodes && DistinctNodes(model[x.key])
    ensures x.key in model && Keyed(Dropped(model, x.key, x), nodes - {x})
  {
    hide Pow2, Without;
    var s := model[x.key];
    WithoutDistinct(s, x);
    var s', model' := Without(s, x), Dropped(model, x.key, x);
    forall k, i | k in model' && 0 <= i < |model'[k]| ensures model'[k][i] in nodes - {x} && model'[k][i].key == k {
      if k == x.key {
        assert s'[i] in s;
      }
    }
    forall y | y in nodes - {x} ensures y.key in model' && y in model'[y.key] {
      if y.key == x.key {
        assert y in s';
      }
    }
  }

  /** The list of a key loses a node. */
  lemma ListsDrop<D>(model: map<nat, seq<Node<D>>>, nodes: set<Node<D>>, key: nat, x: Node<D>, list: Node?<D>)
    requires key in model && x in model[key] && DistinctNodes(model[key]) && Elems(model[key]) <= nodes
    requires Lists(model - {key}, nodes - Elems(model[key])) && IsList(list, Without(model[key], x))
    ensures Lists(Dropped(model, key, x), nodes - {x})
  {
    var s, rest := model[key], nodes - Elems(model[key]);
    WithoutDistinct(s, x);
    hide IsList, Without, Lists;
    if Without(s, x) == [] {
      ListsWider(model - {key}, rest, nodes - {x});
    } else {
      ListHead(list, Without(s, x));
      ListsJoin(model, rest, key, Without(s, x), nodes - {x});
    }
  }

  lemma WithoutFirst<D>(s: seq<Node<D>>, x: Node<D>)
    requires DistinctNodes(s) && x in s
    ensures var t := Without(s, x);
            if x == s[0] then t == s[1..] else t != [] && t[0] == s[0]
  {
    var k :| 0 <= k < |s| && s[k] == x;
    WithoutAt(s, k);
    assert s[..0] + s[1..] == s[1..];
  }

  /** What appending to the list of a stored key needs and gives. */
  lemma AppendFacts<D>(model: map<nat, seq<Node<D>>>, nodes: set<Node<D>>, insert: Node<D>, key: nat)
    requires Keyed(model, nodes) && Lists(model, nodes)
    requires key in model && insert !in nodes && insert.key == key && key < Pow2(KEY_BIT)
    ensures model[key] != [] && IsList(model[key][0], model[key]) && insert !in model[key] && Elems(model[key]) <= nodes
    ensures Keyed(model[key := model[key] + [insert]], nodes + {insert})
    ensures Lists(model - {key}, nodes - Elems(model[key]))
    ensures forall x | x in model[key] :: x in nodes && x !in nodes - Elems(model[key])
  {
    hide IsList, Pow2;
    ListsSplit(model, nodes, key);
    KeyedInsert(model, nodes, insert);
  }

  /** What taking a stored node out of its list needs and gives. */
  lemma UnlinkFacts<D>(model: map<nat, seq<Node<D>>>, nodes: set<Node<D>>, remove: Node<D>, key: nat)
    requires Keyed(model, nodes) && Lists(model, nodes) && remove in nodes && remove.key == key
    ensures key in model && model[key] != [] && remove in model[key]
    ensures DistinctNodes(model[key]) && Elems(model[key]) <= nodes && IsList(model[key][0], model[key])
    ensures Lists(model - {key}, nodes - Elems(model[key]))
    ensures forall x | x in model[key] :: x in nodes && x !in nodes - Elems(model[key])
    ensures Keyed(Dropped(model, key, remove), nodes - {remove})
  {
    hide Pow2, Dropped;
    ListsSplit(model, nodes, key);
    ListHead(model[key][0], model[key]);
    KeyedDrop(model, nodes, remove);
  }

  /** The list without `remove` has the node at its head that `Without` starts with. */
  method Unlink<D>(node: Node<D>, remove: Node<D>, ghost s: seq<Node<D>>) returns (first: Node?<D>)
    requires IsList(node, s) && remove in s
    modifies s`next, s`prev
    ensures IsList(first, Without(s, remove))
    ensures first == if Without(s, remove) == [] then null else Without(s, remove)[0]
  {
    ghost var k :| 0 <= k < |s| && s[k] == remove;
    WithoutAt(s, k);
    hide DistinctNodes, Forward, Backward, Without;
    var list, _ := RemoveExisting(node, remove, s, k);
    first := list;
  }
}
