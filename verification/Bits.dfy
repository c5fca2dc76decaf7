/** Powers of two and the bit operations of tommytypes.h, written on natural numbers. */
module Bits {

  function Pow2(k: nat): (p: nat)
    ensures p >= 1
  {
    if k == 0 then 1 else 2 * Pow2(k - 1)
  }

  /** Bitwise and, digit by digit. */
  function And(a: nat, b: nat): (r: nat)
    ensures r <= b
    decreases b
  {
    if b == 0 then 0
    else (if a % 2 == 1 && b % 2 == 1 then 1 else 0) + 2 * And(a / 2, b / 2)
  }

  /** `v >> n`. */
  function ShiftRight(v: nat, n: nat): nat {
    if n == 0 then v else ShiftRight(v / 2, n - 1)
  }

  /** Index of the highest set bit. */
  function Ilog2(v: nat): (r: nat)
    requires v > 0
    ensures Pow2(r) <= v < Pow2(r + 1)
  {
    if v == 1 then 0 else 1 + Ilog2(v / 2)
  }

  /** `v | 1`. */
  function SetLowBit(v: nat): (r: nat)
    ensures r > 0 && v <= r <= v + 1
    ensures v > 0 ==> Ilog2(r) == Ilog2(v)
  {
    if v % 2 == 0 then v + 1 else v
  }

  lemma {:induction false} Pow2Monotone(a: nat, b: nat)
    requires a <= b
    ensures Pow2(a) <= Pow2(b)
    ensures a < b ==> 2 * Pow2(a) <= Pow2(b)
    decreases b
  {
    if a < b {
      Pow2Monotone(a, b - 1);
    }
  }

  lemma Pow2Less(a: nat, b: nat)
    ensures Pow2(a) < Pow2(b) <==> a < b
  {
    if a < b {
      Pow2Monotone(a, b);
    } else {
      Pow2Monotone(b, a);
    }
  }

  lemma {:induction false} Pow2Add(a: nat, b: nat)
    ensures Pow2(a + b) == Pow2(a) * Pow2(b)
  {
    if a > 0 {
      Pow2Add(a - 1, b);
      assert Pow2(a + b) == 2 * Pow2(a - 1 + b);
      MulAssoc(2, Pow2(a - 1), Pow2(b));
    }
  }

  lemma Pow2Values()
    ensures Pow2(6) == 64 && Pow2(7) == 128 && Pow2(30) == 0x4000_0000 && Pow2(32) == 0x1_0000_0000
  {
    assert Pow2(10) == 1024;
    Pow2Add(10, 10);
    Pow2Add(10, 20);
    assert Pow2(31) == 2 * Pow2(30);
  }

  lemma MulAssoc(a: int, b: int, c: int)
    ensures a * b * c == a * (b * c)
  {
  }

  lemma {:induction false} Ilog2Unique(v: nat, k: nat)
    requires Pow2(k) <= v < Pow2(k + 1)
    ensures v > 0 && Ilog2(v) == k
  {
    var r := Ilog2(v);
    if r < k {
      Pow2Monotone(r + 1, k);
    } else if k < r {
      Pow2Monotone(k + 1, r);
    }
  }

  lemma DivMod(n: nat, d: nat, q: nat, r: nat)
    requires r < d && n == d * q + r
    ensures n / d == q && n % d == r
  {
    if q < n / d {
      assert d * (n / d) >= d * (q + 1) by { MulMonotone(d, q + 1, n / d); }
    } else if n / d < q {
      assert d * q >= d * (n / d + 1) by { MulMonotone(d, n / d + 1, q); }
    }
  }

  lemma MulMonotone(d: nat, a: int, b: int)
    requires a <= b
    ensures d * a <= d * b
  {
  }

  /** Splitting off the lowest binary digit commutes with the remainder. */
  lemma ModHalf(h: nat, p: nat)
    requires p > 0
    ensures h % (2 * p) == 2 * (h / 2 % p) + h % 2
  {
    var q, r := h / 2 / p, h / 2 % p;
    MulAssoc(2, p, q);
    DivMod(h, 2 * p, q, 2 * r + h % 2);
  }

  /** Masking with 2^k - 1 is the remainder modulo 2^k. */
  lemma {:induction false} AndLowMask(h: nat, k: nat)
    ensures And(h, Pow2(k) - 1) == h % Pow2(k)
  {
    if k == 0 {
      assert Pow2(0) == 1;
    } else {
      AndLowMask(h / 2, k - 1);
      AndLowStep(h, Pow2(k - 1), Pow2(k));
    }
  }

  lemma AndLowStep(h: nat, p: nat, double: nat)
    requires p > 0 && double == 2 * p && And(h / 2, p - 1) == h / 2 % p
    ensures And(h, double - 1) == h % double
  {
    hide And;
    AndOddMask(h, p);
    ModHalf(h, p);
  }

  lemma AndOddMask(h: nat, p: nat)
    requires p > 0
    ensures And(h, 2 * p - 1) == 2 * And(h / 2, p - 1) + h % 2
  {
    assert (2 * p - 1) % 2 == 1 && (2 * p - 1) / 2 == p - 1;
  }

  /** Masking with a single bit tests that binary digit. */
  lemma {:induction false} AndOneBit(h: nat, k: nat)
    ensures And(h, Pow2(k)) != 0 <==> h / Pow2(k) % 2 == 1
  {
    if k == 0 {
      assert And(h / 2, 0) == 0;
    } else {
      var p := Pow2(k - 1);
      AndOneBit(h / 2, k - 1);
      assert (2 * p) / 2 == p;
      DivTwice(h, 2, p);
    }
  }

  lemma DivTwice(n: nat, a: nat, b: nat)
    requires a > 0 && b > 0
    ensures a * b > 0 && n / (a * b) == n / a / b
  {
    DivIdentity(n, a);
    DivIdentity(n / a, b);
    Nested(n, a, b, n / a, n % a, n / a / b, n / a % b);
  }

  lemma DivIdentity(n: nat, d: nat)
    requires d > 0
    ensures n == d * (n / d) + n % d && n % d < d
  {
  }

  lemma Nested(n: nat, a: nat, b: nat, m: nat, s: nat, q: nat, r: nat)
    requires n == a * m + s && s < a && m == b * q + r && r < b
    ensures a * b > 0 && n / (a * b) == q
  {
    MulPositive(a, b);
    MulDistribute(a, b * q, r);
    MulAssoc(a, b, q);
    MulDistribute(a, r, 1);
    MulMonotone(a, r + 1, b);
    DivMod(n, a * b, q, a * r + s);
  }

  lemma MulDistribute(a: int, b: int, c: int)
    ensures a * (b + c) == a * b + a * c
  {
  }

  lemma MulPositive(a: nat, b: nat)
    requires a > 0 && b > 0
    ensures a * b > 0
  {
  }

  /** The low half of a doubled modulus: only the bit at weight m is new. */
  lemma ModDouble(h: nat, m: nat)
    requires m > 0
    ensures h % (2 * m) == h % m + (if h / m % 2 == 1 then m else 0)
  {
    var q, r := h / m, h % m;
    assert h == m * q + r;
    var b := q % 2;
    assert m * q == 2 * m * (q / 2) + m * b by {
      assert q == 2 * (q / 2) + b;
      assert m * (2 * (q / 2) + b) == m * (2 * (q / 2)) + m * b;
      assert m * (2 * (q / 2)) == 2 * m * (q / 2) by { MulAssoc(m, 2, q / 2); }
    }
    assert m * b == (if b == 1 then m else 0);
    DivMod(h, 2 * m, q / 2, m * b + r);
  }
}
