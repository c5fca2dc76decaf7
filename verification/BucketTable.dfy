/**
 * The segmented bucket vector of tommy_hashlin: segment i holds positions 2^i .. 2^(i+1)-1
 * behind a base pointer moved back by 2^i cells; segments 0..5 are one array of 64 cells.
 */
module BucketTable {
  import opened Bits

  const MIN_BIT: nat := 6
  const MAX_BIT: nat := 32

  /** `&base[-offset]`: indexing it with a position reads base[position - offset]. */
  datatype Segment<T> = Segment(base: array?<T>, offset: nat)

  /** The segment tommy_hashlin_pos selects for a position. */
  function SegmentOf(pos: nat): nat {
    Ilog2(SetLowBit(pos))
  }

  /** Below 2^bit a position selects a segment below `bit`, and fits in it. */
  lemma SegmentBounds(pos: nat, bit: nat)
    requires bit >= MIN_BIT && pos < Pow2(bit)
    ensures SegmentOf(pos) < bit
    ensures SegmentOf(pos) < MIN_BIT ==> pos < Pow2(MIN_BIT)
    ensures SegmentOf(pos) >= MIN_BIT ==> Pow2(SegmentOf(pos)) <= pos < 2 * Pow2(SegmentOf(pos))
  {
    var b := SegmentOf(pos);
    if pos == 0 {
      assert SetLowBit(pos) == 1 && b == 0;
    } else if b < MIN_BIT {
      Pow2Monotone(b + 1, MIN_BIT);
    }
    if pos > 0 && bit <= b {
      Pow2Monotone(bit, b);
    }
  }

  /** The positions of segment `bit` are exactly those from 2^bit up. */
  lemma SegmentOfTop(pos: nat, bit: nat)
    requires bit >= MIN_BIT && Pow2(bit) <= pos < 2 * Pow2(bit)
    ensures SegmentOf(pos) == bit
  {
    Ilog2Unique(pos, bit);
  }

  /** A position of one segment lies outside the cells of every other segment. */
  lemma OutsideSegment(i: nat, bsr: nat, pos: nat)
    requires bsr == SegmentOf(pos)
    ensures i >= MIN_BIT && i != bsr ==> !(Pow2(i) <= pos < 2 * Pow2(i))
    ensures i < MIN_BIT <= bsr ==> Pow2(MIN_BIT) <= pos
  {
    if i >= MIN_BIT && Pow2(i) <= pos < 2 * Pow2(i) {
      SegmentOfTop(pos, i);
    }
    if i < MIN_BIT <= bsr {
      SegmentBounds(pos, bsr + 1);
      Pow2Monotone(MIN_BIT, bsr);
    }
  }

  class BucketTable<T(0)> {
    var bucket: array<Segment<T>>
    var bucketBit: nat
    ghost var cells: seq<T>
    ghost var Repr: set<object>

    /** Segment i is a separate array whose contents are cells 2^i .. 2^(i+1)-1. */
    ghost predicate Owns(i: nat)
      reads this, bucket, Repr
    {
      && i < bucket.Length
      && var segment := bucket[i];
      && segment.base != null
      && segment.base in Repr
      && segment.base as object != bucket
      && segment.offset == (if i < MIN_BIT then 0 else Pow2(i))
      && segment.base.Length == (if i < MIN_BIT then Pow2(MIN_BIT) else Pow2(i))
      && segment.offset + segment.base.Length <= |cells|
      && (forall o | 0 <= o < segment.base.Length :: segment.base[o] == cells[segment.offset + o])
    }

    ghost predicate Valid()
      reads this, Repr
    {
      && this in Repr
      && bucket in Repr
      && bucket.Length == MAX_BIT
      && MIN_BIT <= bucketBit <= MAX_BIT
      && |cells| == Pow2(bucketBit)
      && (forall i | 0 <= i < bucketBit :: Owns(i))
      && (forall i | 0 <= i < MIN_BIT :: bucket[i].base == bucket[MIN_BIT - 1].base)
      && (forall i, j | MIN_BIT - 1 <= i < j < bucketBit :: bucket[i].base != bucket[j].base)
    }

    constructor (zero: T)
      ensures Valid() && fresh(Repr)
      ensures bucketBit == MIN_BIT && cells == seq(Pow2(MIN_BIT), _ => zero)
    {
      var first := new T[64](_ => zero);
      var table := new Segment<T>[MAX_BIT](_ => Segment(first, 0));
      bucket := table;
      bucketBit := MIN_BIT;
      cells := seq(Pow2(MIN_BIT), _ => zero);
      Repr := {this, table, first};
      new;
      assert Pow2(MIN_BIT) == 64;
    }

    /** tommy_hashlin_pos, read through. */
    method Load(pos: nat) returns (value: T)
      requires Valid() && pos < |cells|
      ensures value == cells[pos]
    {
      var bsr := SegmentIndex(pos);
      var segment := bucket[bsr];
      value := segment.base[pos - segment.offset];
    }

    /** tommy_hashlin_pos, written through: every other position is unmoved and unchanged. */
    method Store(pos: nat, value: T)
      requires Valid() && pos < |cells|
      modifies Repr
      ensures Valid() && Repr == old(Repr) && bucketBit == old(bucketBit)
      ensures cells == old(cells)[pos := value]
    {
      ghost var bit := bucketBit;
      var bsr := SegmentIndex(pos);
      var segment := bucket[bsr];
      segment.base[pos - segment.offset] := value;
      cells := cells[pos := value];
      forall i | 0 <= i < bit ensures Owns(i) {
        assert old(Owns(i));
      }
    }

    /** `tommy_ilog2_u32(pos | 1)`: the one segment holding `pos`. */
    method SegmentIndex(pos: nat) returns (bsr: nat)
      requires Valid() && pos < |cells|
      ensures bsr < bucketBit && Owns(bsr)
      ensures bucket[bsr].offset <= pos < bucket[bsr].offset + bucket[bsr].base.Length
      ensures forall i | 0 <= i < bucketBit ::
                && Owns(i)
                && if bucket[i].base == bucket[bsr].base then bucket[i].offset == bucket[bsr].offset
                   else pos < bucket[i].offset || bucket[i].offset + bucket[i].base.Length <= pos
    {
      SegmentBounds(pos, bucketBit);
      bsr := Ilog2(SetLowBit(pos));
      assert Owns(bsr);
      forall i | 0 <= i < bucketBit
        ensures Owns(i)
        ensures bucket[i].base != bucket[bsr].base ==>
                  pos < bucket[i].offset || bucket[i].offset + bucket[i].base.Length <= pos
      {
        OutsideSegment(i, bsr, pos);
      }
    }

    /** Allocates the next segment with malloc: its cells hold unknown values. */
    method GrowSegment()
      requires Valid() && bucketBit < MAX_BIT
      modifies Repr
      ensures Valid() && fresh(Repr - old(Repr)) && old(Repr) <= Repr
      ensures bucketBit == old(bucketBit) + 1
      ensures bucket == old(bucket) && bucket[..old(bucketBit)] == old(bucket[..bucketBit])
      ensures |cells| == 2 * |old(cells)| && cells[..|old(cells)|] == old(cells)
    {
      var lowMax := Pow2(bucketBit);
      var base := new T[lowMax];
      bucket[bucketBit] := Segment(base, lowMax);
      bucketBit := bucketBit + 1;
      Repr := Repr + {base};
      cells := cells + base[..];
      forall i | 0 <= i < bucketBit ensures Owns(i) {
        if i < bucketBit - 1 {
          assert old(Owns(i));
          assert bucket[i] == old(bucket[i]);
          assert bucket[i].base[..] == old(bucket[i].base[..]);
        }
      }
    }

    /** Frees the top segment. */
    method FreeTopSegment()
      requires Valid() && bucketBit > MIN_BIT
      modifies Repr
      ensures Valid() && Repr == old(Repr) && bucketBit == old(bucketBit) - 1
      ensures bucket == old(bucket) && bucket[..] == old(bucket[..])
      ensures |old(cells)| == 2 * |cells| && cells == old(cells)[..|cells|]
    {
      bucketBit := bucketBit - 1;
      cells := cells[..Pow2(bucketBit)];
      forall i | 0 <= i < bucketBit ensures Owns(i) {
        assert old(Owns(i));
        Pow2Monotone(MIN_BIT, bucketBit);
        Pow2Monotone(i, bucketBit);
      }
    }
  }
}
