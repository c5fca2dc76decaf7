/** The insertion of tommy_hashlin that does not take the same time as the others. */
module HashlinCost {
  import opened Bits
  import opened TommyList
  import opened NodeSeqs
  import opened HashlinSizes
  import opened Hashlin

  ghost predicate SameKey<D>(table: Hashlin<D>)
    reads table`log, table.log`key
  {
    forall x | x in table.log :: x.key == 0
  }

  /** k insertions. */
  method Fill<D>(table: Hashlin<D>, data: D, k: nat)
    requires table.Valid() && SameKey(table) && |table.log| + k < MAX_COUNT
    modifies table, table.buckets, table.buckets.table.Repr, table.log`next, table.log`prev
    ensures table.Valid() && SameKey(table) && |table.log| == old(|table.log|) + k
    ensures table.Size() == AfterInserts(old(table.Size()), old(|table.log|), k)
    ensures fresh(table.buckets.table.Repr - old(table.buckets.table.Repr))
    ensures forall i | 0 <= i < |table.log| :: table.log[i] in old(table.log) || fresh(table.log[i])
  {
    hide Hashlin.Valid, Grown;
    for n := 0 to k
      invariant table.Valid() && SameKey(table) && |table.log| == old(|table.log|) + n
      invariant table.Size() == AfterInserts(old(table.Size()), old(|table.log|), n)
      invariant fresh(table.buckets.table.Repr - old(table.buckets.table.Repr))
      invariant forall i | 0 <= i < |table.log| :: table.log[i] in old(table.log) || fresh(table.log[i])
    {
      table.Counted();
      var node := new Node(data);
      var _ := table.Insert(node, data, 0);
      table.Counted();
    }
  }

  /** k removals. */
  method Drain<D>(table: Hashlin<D>, k: nat)
    requires table.Valid() && SameKey(table) && k <= |table.log|
    modifies table, table.buckets, table.buckets.table.Repr, table.log`next, table.log`prev
    ensures table.Valid() && SameKey(table) && |table.log| == old(|table.log|) - k
    ensures table.Size() == AfterRemovals(old(table.Size()), old(|table.log|), k)
    ensures table.buckets.table.Repr == old(table.buckets.table.Repr)
    ensures forall i | 0 <= i < |table.log| :: table.log[i] in old(table.log)
  {
    hide Hashlin.Valid, Shrunk, Without, FirstMatch;
    for n := 0 to k
      invariant table.Valid() && SameKey(table) && |table.log| == old(|table.log|) - n
      invariant table.Size() == AfterRemovals(old(table.Size()), old(|table.log|), n)
      invariant table.buckets.table.Repr == old(table.buckets.table.Repr)
      invariant forall i | 0 <= i < |table.log| :: table.log[i] in old(table.log)
    {
      ghost var first := FirstMatch(table.log, 0, _ => true);
      table.Counted();
      FirstMatchMeaning(table.log, 0, _ => true);
      assert Matches(table.log[0], 0, _ => true);
      WithoutDistinct(table.log, first);
      ghost var before := table.log;
      var _, _ := table.Remove(0, _ => true);
      table.Counted();
      assert forall i | 0 <= i < |table.log| :: table.log[i] in before;
    }
  }

  lemma RoomFor(bit: nat)
    requires bit <= 29
    ensures Pow2(bit) / 2 + 1 < MAX_COUNT
  {
    Pow2Values();
    Pow2Monotone(bit, 29);
    assert Pow2(30) == 2 * Pow2(29);
  }

  /** Fills a table to one half, thins it out to a sixteenth, and fills it to one half again. */
  method Prepare<D>(data: D, bit: nat) returns (table: Hashlin<D>)
    requires 7 <= bit <= 29
    ensures fresh(table) && fresh(table.buckets) && fresh(table.buckets.table) && fresh(table.buckets.table.Repr)
    ensures forall i | 0 <= i < |table.log| :: fresh(table.log[i])
    ensures table.Valid() && |table.log| == Pow2(bit) / 2 && table.Size() == TurnAround(bit)
  {
    hide Pow2, Hashlin.Valid, AfterInserts, AfterRemovals;
    table := new Hashlin();
    table.Counted();
    RoomFor(bit);
    TableSize(bit);
    var max := Pow2(bit);
    var rest := Remainder(max);
    Fill(table, data, max / 2);
    Drain(table, max / 2 - rest);
    Fill(table, data, max / 2 - rest);
  }

  /**
   * The documentation promises insertions that always take the same time.  For every table size from
   * 128 buckets on, this insertion splits all pairs but eight of the table at once.
   */
  method CostlyInsert<D>(data: D, bit: nat) returns (table: Hashlin<D>, ghost splits: nat)
    requires 7 <= bit <= 29
    ensures fresh(table) && table.Valid() && table.bucketMax == Pow2(bit)
    ensures splits == Pow2(bit) / 2 - 8
  {
    hide Pow2, Hashlin.Valid, Splits, Grown, TurnAround;
    RoomFor(bit);
    TurnAroundCost(bit);
    table := Prepare(data, bit);
    table.Counted();
    var node := new Node(data);
    splits := table.Insert(node, data, 0);
    table.Counted();
    assert table.Size().bucketMax == table.bucketMax;
  }
}
