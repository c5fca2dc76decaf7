/**
 * The numbers of a hashlin table, and what an operation does to them: how far a resize goes, and
 * what it costs.
 */
module HashlinSizes {
  import opened Bits

  datatype State = Stable | Grow | Shrink

  datatype Sizes = Sizes(state: State, bucketMax: nat, lowMax: nat, split: nat)

  const INITIAL: Sizes := Sizes(Stable, 64, 64, 0)

  function Max(a: nat, b: nat): nat {
    if a < b then b else a
  }

  function Min(a: nat, b: nat): nat {
    if a < b then a else b
  }

  /** The buckets in use. */
  function Live(z: Sizes): nat {
    z.lowMax + z.split
  }

  /** Above 50%: a stable table starts to grow, a shrinking one turns around. */
  function GrowDecision(z: Sizes, n: nat): Sizes {
    if z.state == Grow || n <= z.bucketMax / 2 then z
    else if z.state == Stable then Sizes(Grow, 2 * z.bucketMax, z.bucketMax, 0)
    else z.(state := Grow)
  }

  /** The buckets in use once a growing table holds n nodes. */
  function GrowLive(z: Sizes, n: nat): nat {
    Max(Live(z), Min(2 * n, z.bucketMax))
  }

  /** How many buckets are split when a table comes to hold n nodes. */
  function Splits(z: Sizes, n: nat): nat {
    var d := GrowDecision(z, n);
    if d.state == Grow then GrowLive(d, n) - Live(d) else 0
  }

  function Grown(z: Sizes, n: nat): Sizes {
    var d := GrowDecision(z, n);
    if Splits(z, n) == 0 then d
    else if GrowLive(d, n) == d.bucketMax then Sizes(Stable, d.bucketMax, d.bucketMax, 0)
    else d.(split := d.split + Splits(z, n))
  }

  /** Below 12.5%: a stable table starts to shrink, a growing one turns around; 64 buckets always stay. */
  function ShrinkDecision(z: Sizes, n: nat): Sizes {
    if z.state == Shrink || n >= z.bucketMax / 8 || z.bucketMax <= 64 then z
    else if z.state == Stable then Sizes(Shrink, z.bucketMax, z.bucketMax / 2, z.bucketMax / 2)
    else z.(state := Shrink)
  }

  function ShrinkLive(z: Sizes, n: nat): nat {
    Min(Live(z), Max(8 * n, z.lowMax))
  }

  /** How many pairs are merged when a table is left with n nodes. */
  function Merges(z: Sizes, n: nat): nat {
    var d := ShrinkDecision(z, n);
    if d.state == Shrink then Live(d) - ShrinkLive(d, n) else 0
  }

  function Shrunk(z: Sizes, n: nat): Sizes {
    var d := ShrinkDecision(z, n);
    if Merges(z, n) == 0 then d
    else if ShrinkLive(d, n) == d.lowMax then Sizes(Stable, d.lowMax, d.lowMax, 0)
    else d.(split := ShrinkLive(d, n) - d.lowMax)
  }

  /** k insertions into a table of n nodes. */
  function AfterInserts(z: Sizes, n: nat, k: nat): Sizes {
    if k == 0 then z else Grown(AfterInserts(z, n, k - 1), n + k)
  }

  /** k removals from a table of n nodes. */
  function AfterRemovals(z: Sizes, n: nat, k: nat): Sizes
    requires k <= n
  {
    if k == 0 then z else Shrunk(AfterRemovals(z, n, k - 1), n - k)
  }

  /** A table that has only grown holds two live buckets for every node. */
  ghost predicate Filling(z: Sizes, k: nat) {
    && Live(z) == Max(64, 2 * k) && z.lowMax >= 64
    && if z.state == Stable then z.lowMax == z.bucketMax && z.split == 0
       else z.state == Grow && z.bucketMax == 2 * z.lowMax && 0 < z.split < z.lowMax
  }

  lemma FillStable(z: Sizes, k: nat)
    requires Filling(z, k) && z.state == Stable
    ensures Grown(z, k + 1) == if k < 32 then z else Sizes(Grow, 4 * k, 2 * k, 2)
  {
    var d := GrowDecision(z, k + 1);
    if k < 32 {
      assert z.bucketMax == 64 && d == z;
    } else {
      assert z.bucketMax == 2 * k && d == Sizes(Grow, 4 * k, 2 * k, 0);
    }
  }

  lemma FillGrowing(z: Sizes, k: nat)
    requires Filling(z, k) && z.state == Grow
    ensures Grown(z, k + 1) ==
            if 2 * k + 2 == z.bucketMax then Sizes(Stable, z.bucketMax, z.bucketMax, 0) else z.(split := z.split + 2)
  {
    assert GrowDecision(z, k + 1) == z && Live(z) == 2 * k;
  }

  lemma FillStep(z: Sizes, k: nat)
    requires Filling(z, k)
    ensures Filling(Grown(z, k + 1), k + 1)
    ensures Grown(z, k + 1).bucketMax == z.bucketMax || Grown(z, k + 1).bucketMax == 2 * z.bucketMax
  {
    hide Grown;
    if z.state == Stable {
      FillStable(z, k);
    } else {
      FillGrowing(z, k);
    }
  }

  lemma FillStart()
    ensures Filling(INITIAL, 0) && INITIAL.bucketMax == Pow2(6)
  {
    assert Pow2(6) == 64;
  }

  lemma Pow2Next(bit: nat)
    ensures Pow2(bit + 1) == 2 * Pow2(bit)
  {
  }

  /** Insertions alone never shrink a table. */
  lemma {:induction false} InsertsOnly(k: nat) returns (bit: nat)
    ensures var z := AfterInserts(INITIAL, 0, k);
            bit >= 6 && z.bucketMax == Pow2(bit) && Filling(z, k)
  {
    hide Pow2, Filling, Grown;
    if k == 0 {
      bit := 6;
      FillStart();
    } else {
      bit := InsertsOnly(k - 1);
      var z := AfterInserts(INITIAL, 0, k - 1);
      FillStep(z, k - 1);
      Pow2Next(bit);
      if Grown(z, k).bucketMax != z.bucketMax {
        bit := bit + 1;
      }
    }
  }

  lemma PowersApart(bit: nat, j: nat)
    requires bit >= 7 && j >= 6 && Pow2(j) <= 2 * Pow2(bit) && Pow2(bit) <= Pow2(j)
    ensures j == bit || j == bit + 1
    ensures Pow2(j) == Pow2(bit) || Pow2(j) == 2 * Pow2(bit)
  {
    assert Pow2(bit + 1) == 2 * Pow2(bit);
    if j > bit + 1 {
      Pow2Monotone(bit + 1, j);
    } else if j < bit {
      Pow2Monotone(j, bit);
    }
  }

  lemma TableSize(bit: nat)
    requires bit >= 7
    ensures Pow2(bit) >= 128 && Pow2(bit) % 16 == 0
  {
    Pow2Monotone(7, bit);
    assert Pow2(7) == 128 && Pow2(4) == 16;
    Pow2Add(4, bit - 4);
  }

  /** Half full, the table holds as many live buckets as it can. */
  lemma HalfFull(z: Sizes, half: nat)
    requires Filling(z, half) && half >= 64
    ensures 2 * half <= z.bucketMax <= 4 * half
    ensures z.bucketMax == 2 * half || z.bucketMax == 4 * half ==> z == Sizes(Stable, 2 * half, 2 * half, 0)
  {
  }

  lemma FilledUp(bit: nat)
    requires bit >= 7
    ensures AfterInserts(INITIAL, 0, Pow2(bit) / 2) == Sizes(Stable, Pow2(bit), Pow2(bit), 0)
  {
    hide *;
    TableSize(bit);
    var half := Pow2(bit) / 2;
    var j := InsertsOnly(half);
    HalfFull(AfterInserts(INITIAL, 0, half), half);
    PowersApart(bit, j);
  }

  lemma {:induction false} ThinnedOut(max: nat, k: nat)
    requires max >= 128 && max % 16 == 0 && k <= max / 2 && max / 2 - k > max / 16
    ensures var z, r := Sizes(Stable, max, max, 0), max / 2 - k;
            AfterRemovals(z, max / 2, k) == if r >= max / 8 then z else Sizes(Shrink, max, max / 2, 8 * r - max / 2)
  {
    if k > 0 {
      ThinnedOut(max, k - 1);
    }
  }

  lemma {:induction false} RefilledHalf(max: nat, n: nat, k: nat)
    requires n + k <= max / 2
    ensures AfterInserts(Sizes(Shrink, max, max / 2, 8), n, k) == Sizes(Shrink, max, max / 2, 8)
  {
    if k > 0 {
      RefilledHalf(max, n, k - 1);
    }
  }

  /** How many nodes are left when a shrinking table of `max` buckets has merged all but eight pairs. */
  function Remainder(max: nat): nat {
    max / 16 + 1
  }

  /** Fill a table to one half, remove down to a sixteenth, and fill it to one half again. */
  function TurnAround(bit: nat): Sizes {
    var max := Pow2(bit);
    var r := Remainder(max);
    if r <= max / 2 then AfterInserts(AfterRemovals(AfterInserts(INITIAL, 0, max / 2), max / 2, max / 2 - r), r, max / 2 - r)
    else INITIAL
  }

  /** Then one insertion splits all pairs but eight: the work of an insertion is not bounded. */
  lemma TurnAroundCost(bit: nat)
    requires bit >= 7
    ensures var max, z := Pow2(bit), TurnAround(bit);
            && z == Sizes(Shrink, max, max / 2, 8)
            && Splits(z, max / 2 + 1) == max / 2 - 8 && Grown(z, max / 2 + 1) == Sizes(Stable, max, max, 0)
  {
    hide Pow2, AfterInserts, AfterRemovals;
    TableSize(bit);
    var max := Pow2(bit);
    FilledUp(bit);
    ThinnedOut(max, max / 2 - Remainder(max));
    RefilledHalf(max, Remainder(max), max / 2 - Remainder(max));
  }
}
