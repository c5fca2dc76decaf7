/**
 * What the buckets of a hashlin mean: `log` is every stored node in insertion order, and
 * for each hash the bucket it addresses holds exactly the log's nodes of that hash, in order.
 */
module HashlinSpec {
  import opened Bits
  import opened TommyList
  import opened NodeSeqs
  import opened BucketLists

  /** The live bucket of a hash: the low bits, and one more bit below the split position. */
  ghost function Position(lowMax: nat, split: nat, hash: nat): (pos: nat)
    requires lowMax > 0
    ensures pos < lowMax + split
  {
    hash % lowMax + if hash % lowMax < split && HasBit(lowMax, true)(hash) then lowMax else 0
  }

  /** The two masks of tommy_hashlin_bucket_ref select the live bucket. */
  lemma PositionByMask(hash: nat, bit: nat, split: nat)
    ensures var pos := And(hash, Pow2(bit) - 1);
            Position(Pow2(bit), split, hash) == if pos < split then And(hash, Pow2(bit + 1) - 1) else pos
  {
    AndLowMask(hash, bit);
    AndLowMask(hash, bit + 1);
    ModDouble(hash, Pow2(bit));
  }

  ghost predicate Members<D>(lists: seq<seq<Node<D>>>, log: seq<Node<D>>) {
    forall p, i | 0 <= p < |lists| && 0 <= i < |lists[p]| :: lists[p][i] in log
  }

  ghost predicate Refines<D>(lists: seq<seq<Node<D>>>, log: seq<Node<D>>, lowMax: nat, split: nat)
    reads log`key
    requires lowMax > 0 && |lists| == lowMax + split && Members(lists, log)
  {
    && (forall p, i | 0 <= p < |lists| && 0 <= i < |lists[p]| :: Position(lowMax, split, lists[p][i].key) == p)
    && (forall hash: nat {:trigger HasKey(hash)} ::
          Select(lists[Position(lowMax, split, hash)], HasKey(hash)) == Select(log, HasKey(hash)))
  }

  /** With every bucket split the table is the one of twice the size with none split. */
  lemma RefinesDoubled<D>(lists: seq<seq<Node<D>>>, log: seq<Node<D>>, lowMax: nat)
    requires lowMax > 0 && |lists| == 2 * lowMax && Members(lists, log)
    ensures Refines(lists, log, lowMax, lowMax) <==> Refines(lists, log, 2 * lowMax, 0)
  {
    forall hash: nat ensures Position(2 * lowMax, 0, hash) == Position(lowMax, lowMax, hash) {
      ModDouble(hash, lowMax);
    }
  }

  /** Splitting bucket `split` moves only its own hashes, by their high bit. */
  lemma PositionSplit(lowMax: nat, split: nat, hash: nat)
    requires split < lowMax
    ensures Position(lowMax, split + 1, hash) ==
            if Position(lowMax, split, hash) != split then Position(lowMax, split, hash)
            else if HasBit(lowMax, true)(hash) then split + lowMax else split
    ensures HasBit(lowMax, true)(hash) <==> !HasBit(lowMax, false)(hash)
  {
  }

  lemma RefinesSplit<D>(lists: seq<seq<Node<D>>>, log: seq<Node<D>>, lowMax: nat, split: nat)
    requires split < lowMax && |lists| == lowMax + split && Members(lists, log) && Refines(lists, log, lowMax, split)
    ensures Members(SplitLists(lists, lowMax, split), log)
    ensures Refines(SplitLists(lists, lowMax, split), log, lowMax, split + 1)
  {
    var lists' := SplitLists(lists, lowMax, split);
    var chain := lists[split];
    forall p, i | 0 <= p < |lists'| && 0 <= i < |lists'[p]|
      ensures lists'[p][i] in log && Position(lowMax, split + 1, lists'[p][i].key) == p
    {
      var x := lists'[p][i];
      PositionSplit(lowMax, split, x.key);
      SelectMember(chain, HasBit(lowMax, false), x);
      SelectMember(chain, HasBit(lowMax, true), x);
      if p == split || p == |lists| {
        assert x in chain;
      }
    }
    forall hash: nat
      ensures Select(lists'[Position(lowMax, split + 1, hash)], HasKey(hash)) == Select(log, HasKey(hash))
    {
      PositionSplit(lowMax, split, hash);
      SelectTwice(chain, HasBit(lowMax, false), hash);
      SelectTwice(chain, HasBit(lowMax, true), hash);
    }
  }

  lemma RefinesMerge<D>(lists: seq<seq<Node<D>>>, log: seq<Node<D>>, lowMax: nat, split: nat)
    requires split < lowMax && |lists| == lowMax + split + 1
    requires Members(lists, log) && Refines(lists, log, lowMax, split + 1)
    ensures var lists' := lists[..lowMax + split][split := lists[split] + lists[lowMax + split]];
            Members(lists', log) && Refines(lists', log, lowMax, split)
  {
    var high := lowMax + split;
    var lists' := lists[..high][split := lists[split] + lists[high]];
    forall p, i | 0 <= p < |lists'| && 0 <= i < |lists'[p]|
      ensures lists'[p][i] in log && Position(lowMax, split, lists'[p][i].key) == p
    {
      var x := lists'[p][i];
      PositionSplit(lowMax, split, x.key);
      if p == split && i >= |lists[split]| {
        assert x == lists[high][i - |lists[split]|];
      }
    }
    forall hash: nat
      ensures Select(lists'[Position(lowMax, split, hash)], HasKey(hash)) == Select(log, HasKey(hash))
    {
      PositionSplit(lowMax, split, hash);
      var p := Position(lowMax, split, hash);
      if p == split {
        SelectConcat(lists[split], lists[high], HasKey(hash));
        var other := if HasBit(lowMax, true)(hash) then split else high;
        forall x | x in lists[other] ensures !HasKey(hash)(x.key) {
          assert Position(lowMax, split + 1, x.key) == other;
        }
        SelectNone(lists[other], HasKey(hash));
      }
    }
  }

  lemma RefinesInsert<D>(lists: seq<seq<Node<D>>>, log: seq<Node<D>>, lowMax: nat, split: nat, node: Node<D>)
    requires lowMax > 0 && |lists| == lowMax + split && Members(lists, log) && Refines(lists, log, lowMax, split)
    ensures var p := Position(lowMax, split, node.key);
            var lists' := lists[p := lists[p] + [node]];
            Members(lists', log + [node]) && Refines(lists', log + [node], lowMax, split)
  {
    var p := Position(lowMax, split, node.key);
    var lists' := lists[p := lists[p] + [node]];
    forall hash: nat
      ensures Select(lists'[Position(lowMax, split, hash)], HasKey(hash)) == Select(log + [node], HasKey(hash))
    {
      SelectAppend(log, node, HasKey(hash));
      SelectAppend(lists[p], node, HasKey(hash));
    }
  }

  lemma RefinesRemove<D>(lists: seq<seq<Node<D>>>, log: seq<Node<D>>, lowMax: nat, split: nat, node: Node<D>, k: nat)
    requires lowMax > 0 && |lists| == lowMax + split && Members(lists, log) && Refines(lists, log, lowMax, split)
    requires forall p | 0 <= p < |lists| :: DistinctNodes(lists[p])
    requires var p := Position(lowMax, split, node.key); k < |lists[p]| && lists[p][k] == node
    ensures var p := Position(lowMax, split, node.key);
            var lists' := lists[p := lists[p][..k] + lists[p][k + 1..]];
            Members(lists', Without(log, node)) && Refines(lists', Without(log, node), lowMax, split)
  {
    var p := Position(lowMax, split, node.key);
    var lists' := lists[p := lists[p][..k] + lists[p][k + 1..]];
    WithoutAt(lists[p], k);
    forall q, i | 0 <= q < |lists'| && 0 <= i < |lists'[q]|
      ensures lists'[q][i] in Without(log, node)
      ensures Position(lowMax, split, lists'[q][i].key) == q
    {
      var x := lists'[q][i];
      WithoutMember(log, node, x);
      WithoutMember(lists[p], node, x);
      assert x in lists[q];
      if q != p {
        assert Position(lowMax, split, x.key) == q;
      }
    }
    forall hash: nat
      ensures Select(lists'[Position(lowMax, split, hash)], HasKey(hash)) == Select(Without(log, node), HasKey(hash))
    {
      SelectWithout(log, node, HasKey(hash));
      SelectWithout(lists[p], node, HasKey(hash));
      var q := Position(lowMax, split, hash);
      if q != p {
        SelectMember(log, HasKey(hash), node);
        WithoutAbsent(Select(log, HasKey(hash)), node);
      }
    }
  }

  /** Under the refinement the node of a log entry is found in the bucket of its key, and conversely. */
  lemma RefinesMember<D>(lists: seq<seq<Node<D>>>, log: seq<Node<D>>, lowMax: nat, split: nat, x: Node<D>)
    requires lowMax > 0 && |lists| == lowMax + split && Members(lists, log) && Refines(lists, log, lowMax, split)
    ensures x in log <==> x in lists[Position(lowMax, split, x.key)]
  {
    SelectMember(log, HasKey(x.key), x);
    SelectMember(lists[Position(lowMax, split, x.key)], HasKey(x.key), x);
  }

  /** Searching the bucket of a hash finds what searching the whole log would. */
  lemma RefinesFirstMatch<D>(lists: seq<seq<Node<D>>>, log: seq<Node<D>>, lowMax: nat, split: nat, hash: nat, eq: D -> bool)
    requires lowMax > 0 && |lists| == lowMax + split && Members(lists, log) && Refines(lists, log, lowMax, split)
    ensures FirstMatch(lists[Position(lowMax, split, hash)], hash, eq) == FirstMatch(log, hash, eq)
  {
    FirstMatchSelect(log, hash, eq);
    FirstMatchSelect(lists[Position(lowMax, split, hash)], hash, eq);
    assert Select(lists[Position(lowMax, split, hash)], HasKey(hash)) == Select(log, HasKey(hash));
  }
}
