/**
 * The way of a key through a trie: the bucket its top bits select, then one digit per level.
 * The first digit repeats bits the bucket already used, as the code does.
 */
module TriePaths {
  import opened Bits

  /** Bits below the bucket index, and bits per level; shifts step down to exactly zero. */
  datatype Geometry = Geometry(shift: nat, bit: nat, depth: nat)

  const KEY_BIT: nat := 32
  const INPLACE: Geometry := Geometry(26, 2, 13)
  const TRIE: Geometry := Geometry(27, 3, 9)

  predicate Fits(g: Geometry) {
    g.bit > 0 && g.shift == g.bit * g.depth && g.shift < KEY_BIT
  }

  function BucketOf(g: Geometry, key: nat): nat {
    ShiftRight(key, g.shift)
  }

  function ShiftAt(g: Geometry, i: nat): nat
    requires Fits(g) && i <= g.depth
    ensures ShiftAt(g, i) == g.shift - g.bit * i
  {
    if i == 0 then g.shift else ShiftAt(g, i - 1) - g.bit
  }

  /** `(key >> shift) & mask` at level i. */
  function Digit(g: Geometry, key: nat, i: nat): (d: nat)
    requires Fits(g) && i <= g.depth
    ensures d < Pow2(g.bit)
  {
    And(ShiftRight(key, ShiftAt(g, i)), Pow2(g.bit) - 1)
  }

  /** The slot reached after n digits. */
  function PathOf(g: Geometry, key: nat, n: nat): (path: seq<nat>)
    requires Fits(g) && n <= g.depth + 1
    ensures |path| == n + 1
  {
    if n == 0 then [BucketOf(g, key)] else PathOf(g, key, n - 1) + [Digit(g, key, n - 1)]
  }

  lemma PathNext(g: Geometry, key: nat, n: nat)
    requires Fits(g) && n <= g.depth
    ensures PathOf(g, key, n + 1) == PathOf(g, key, n) + [Digit(g, key, n)]
  {
  }

  lemma {:induction false} PathPrefix(g: Geometry, key: nat, m: nat, n: nat)
    requires Fits(g) && m <= n <= g.depth + 1
    ensures PathOf(g, key, n)[..m + 1] == PathOf(g, key, m)
  {
    if m < n {
      PathPrefix(g, key, m, n - 1);
      assert PathOf(g, key, n)[..m + 1] == PathOf(g, key, n - 1)[..m + 1];
    }
  }

  /** Splitting a shift in two. */
  lemma {:induction false} ShiftTwice(v: nat, a: nat, b: nat)
    ensures ShiftRight(v, a + b) == ShiftRight(ShiftRight(v, a), b)
  {
    if a > 0 {
      ShiftTwice(v / 2, a - 1, b);
    }
  }

  lemma {:induction false} ShiftDivides(v: nat, n: nat)
    ensures ShiftRight(v, n) == v / Pow2(n)
  {
    if n > 0 {
      ShiftDivides(v / 2, n - 1);
      DivTwice(v, 2, Pow2(n - 1));
    }
  }

  lemma MaskSplits(v: nat, n: nat)
    ensures v == ShiftRight(v, n) * Pow2(n) + And(v, Pow2(n) - 1)
  {
    hide Pow2, And, ShiftRight;
    ShiftDivides(v, n);
    AndLowMask(v, n);
    DivIdentity(v, Pow2(n));
  }

  /** The bits kept at level i are the digit and the bits kept one level up. */
  lemma DigitSplits(g: Geometry, key: nat, i: nat)
    requires Fits(g) && 0 < i <= g.depth
    ensures ShiftRight(key, ShiftAt(g, i)) ==
            ShiftRight(key, ShiftAt(g, i - 1)) * Pow2(g.bit) + Digit(g, key, i)
  {
    hide Pow2, And, ShiftRight;
    ShiftTwice(key, ShiftAt(g, i), g.bit);
    MaskSplits(ShiftRight(key, ShiftAt(g, i)), g.bit);
    assert ShiftAt(g, i) + g.bit == ShiftAt(g, i - 1);
  }

  /** Equal paths mean equal bits. */
  lemma {:induction false} PathBits(g: Geometry, a: nat, b: nat, n: nat)
    requires Fits(g) && 0 < n <= g.depth + 1 && PathOf(g, a, n) == PathOf(g, b, n)
    ensures ShiftRight(a, ShiftAt(g, n - 1)) == ShiftRight(b, ShiftAt(g, n - 1))
  {
    assert PathOf(g, a, n)[..n] == PathOf(g, a, n - 1) && PathOf(g, b, n)[..n] == PathOf(g, b, n - 1);
    assert PathOf(g, a, n)[n] == Digit(g, a, n - 1) && PathOf(g, b, n)[n] == Digit(g, b, n - 1);
    if n == 1 {
      assert PathOf(g, a, 0)[0] == PathOf(g, b, 0)[0];
    } else {
      PathBits(g, a, b, n - 1);
      DigitSplits(g, a, n - 1);
      DigitSplits(g, b, n - 1);
    }
  }

  /** After all digits, the path is the whole key: distinct keys have separated. */
  lemma FullPath(g: Geometry, a: nat, b: nat)
    requires Fits(g) && PathOf(g, a, g.depth + 1) == PathOf(g, b, g.depth + 1)
    ensures a == b
  {
    PathBits(g, a, b, g.depth + 1);
    assert ShiftAt(g, g.depth) == 0;
  }

  lemma BucketBound(g: Geometry, key: nat)
    requires Fits(g) && key < Pow2(KEY_BIT)
    ensures BucketOf(g, key) < Pow2(KEY_BIT - g.shift)
  {
    ShiftDivides(key, g.shift);
    Pow2Add(g.shift, KEY_BIT - g.shift);
    DivBound(key, Pow2(g.shift), Pow2(KEY_BIT - g.shift));
  }

  lemma DivBound(n: nat, d: nat, q: nat)
    requires d > 0 && n < d * q
    ensures n / d < q
  {
    if q <= n / d {
      MulMonotone(d, q, n / d);
    }
  }
}
