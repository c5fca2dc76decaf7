/** complex_transform and tostring_key of header.h, with the decoder that shows they lose nothing. */
module KeyCodec {

  const WORD: nat := 0x1_0000_0000_0000_0000
  const KEY_SIZE: nat := 16
  const CHARSET_SIZE: nat := 62
  const UPPER: string := "ABCDEFGHIJKLMNOPQRSTUVWXYZ"
  const LOWER: string := "abcdefghijklmnopqrstuvwxyz"
  const FIGURES: string := "0123456789"
  const CHARSET: string := UPPER + LOWER + FIGURES

  /** One round in 64-bit arithmetic: a shift by three, a subtraction and an addition, all wrapping. */
  function Round(x: nat): (y: nat)
    ensures y < WORD
  {
    ((x * 8) % WORD - x + 7) % WORD
  }

  /** The inverse of a round: WORD is 2 modulo 7, so the lost multiple of WORD is 3y modulo 7. */
  function Unround(y: nat): (x: nat)
    ensures x < WORD
  {
    ((y + WORD * (3 * y % 7)) / 7 + WORD - 1) % WORD
  }

  lemma RoundIsAffine(x: nat)
    requires x < WORD
    ensures Round(x) == (7 * x + 7) % WORD
  {
  }

  lemma UnroundRound(x: nat)
    requires x < WORD
    ensures Unround(Round(x)) == x
  {
    RoundIsAffine(x);
    var q := (7 * x + 7) / WORD;
    assert q == 0 || q == 1 || q == 2 || q == 3 || q == 4 || q == 5 || q == 6 || q == 7;
    LostMultiple(x, q);
  }

  lemma LostMultiple(x: nat, q: nat)
    requires q <= 7 && q * WORD <= 7 * x + 7
    ensures 3 * (7 * x + 7 - q * WORD) % 7 == q % 7
  {
    var k := 3 * x + 3 - q * ((3 * WORD + 1) / 7);
    assert 3 * WORD + 1 == 7 * ((3 * WORD + 1) / 7);
    assert 3 * (7 * x + 7 - q * WORD) == 7 * k + q;
  }

  lemma RoundUnround(y: nat)
    requires y < WORD
    ensures Round(Unround(y)) == y
  {
    var t := 3 * y % 7;
    assert t == 0 || t == 1 || t == 2 || t == 3 || t == 4 || t == 5 || t == 6;
    SevenDivides(y, t);
    var q := (y + WORD * t) / 7;
    RoundIsAffine(Unround(y));
    if q == 0 {
      WrapOnce(7 * (WORD - 1) + 7, y, 7);
    } else {
      assert Unround(y) == q - 1;
      WrapOnce(7 * (q - 1) + 7, y, t);
    }
  }

  lemma WrapOnce(n: nat, y: nat, t: nat)
    requires y < WORD && n == y + WORD * t && t <= 7
    ensures n % WORD == y
  {
  }

  lemma SevenDivides(y: nat, t: nat)
    requires t == 3 * y % 7
    ensures (y + WORD * t) % 7 == 0
  {
    assert WORD % 7 == 2;
    var k := 3 * y / 7;
    assert WORD * t == 3 * WORD * y - 7 * (WORD * k);
    assert y + WORD * t == 7 * (((3 * WORD + 1) / 7) * y - WORD * k);
  }

  function Rounds(x: nat, n: nat): nat {
    if n == 0 then x else Round(Rounds(x, n - 1))
  }

  function Unrounds(y: nat, n: nat): nat
    decreases n
  {
    if n == 0 then y else Unrounds(Unround(y), n - 1)
  }

  /** The rounds are a bijection of the 64-bit words. */
  lemma {:induction false} RoundsBijective(x: nat, n: nat)
    requires x < WORD
    ensures Rounds(x, n) < WORD && Unrounds(Rounds(x, n), n) == x
    ensures Unrounds(x, n) < WORD && Rounds(Unrounds(x, n), n) == x
    decreases n
  {
    hide Round, Unround;
    if n > 0 {
      RoundsBijective(x, n - 1);
      UnroundRound(Rounds(x, n - 1));
      RoundsBijective(Unround(x), n - 1);
      RoundUnround(x);
    }
  }

  /** A round keeps a word affine in the number it came from. */
  lemma AffineStep(a: nat, b: nat, x: nat, y: nat)
    requires y == (a * x + b) % WORD
    ensures Round(y) == (7 * a * x + (7 * b + 7)) % WORD
  {
    RoundIsAffine(y);
    var m := a * x + b;
    var q := m / WORD;
    assert 7 * a * x == 7 * (a * x);
    assert 7 * y + 7 == 7 * m + 7 - WORD * (7 * q);
    SameRemainder(7 * y + 7, 7 * q);
  }

  lemma SameRemainder(n: nat, k: nat)
    ensures (n + WORD * k) % WORD == n % WORD
  {
    var r := n % WORD;
    var q := n / WORD;
    assert n + WORD * k == WORD * (q + k) + r;
  }

  /** The rounds in closed form: 16807 is the fifth power of 7, 19607 the sum of its first five powers. */
  lemma FiveRounds(x: nat)
    requires x < WORD
    ensures Rounds(x, 5) == (16807 * x + 19607) % WORD
  {
    hide Round, Rounds;
    NoRounds(x);
    AffineStep(1, 0, x, x);
    NextRound(x, 0);
    AffineStep(7, 7, x, Rounds(x, 1));
    NextRound(x, 1);
    AffineStep(49, 56, x, Rounds(x, 2));
    NextRound(x, 2);
    AffineStep(343, 399, x, Rounds(x, 3));
    NextRound(x, 3);
    AffineStep(2401, 2800, x, Rounds(x, 4));
    NextRound(x, 4);
  }

  lemma NoRounds(x: nat)
    ensures Rounds(x, 0) == x
  {
  }

  lemma NextRound(x: nat, n: nat)
    ensures Rounds(x, n + 1) == Round(Rounds(x, n))
  {
  }

  method ComplexTransform(number: nat) returns (transformed: nat)
    requires number < WORD
    ensures transformed == (16807 * number + 19607) % WORD
    ensures transformed == Rounds(number, 5) < WORD
  {
    FiveRounds(number);
    transformed := number;
    for i := 0 to 5
      invariant transformed == Rounds(number, i) < WORD
    {
      transformed := ((transformed * 8) % WORD - transformed + 7) % WORD;
    }
  }

  /** The last n base-62 digits of t, most significant first. */
  function Digits(t: nat, n: nat): (s: string)
    ensures |s| == n
  {
    if n == 0 then []
    else Digits(t / CHARSET_SIZE, n - 1) + [CHARSET[t % CHARSET_SIZE]]
  }

  /** The key of a number: its transform in fifteen digits. */
  function KeyOf(number: nat): (key: string)
    ensures |key| == KEY_SIZE - 1
  {
    Digits(Rounds(number, 5), KEY_SIZE - 1)
  }

  function DigitValue(c: char): nat {
    if 'A' <= c <= 'Z' then (c - 'A') as nat
    else if 'a' <= c <= 'z' then 26 + (c - 'a') as nat
    else if '0' <= c <= '9' then 52 + (c - '0') as nat
    else CHARSET_SIZE
  }

  function Value(s: string): nat {
    if s == [] then 0 else Value(s[..|s| - 1]) * CHARSET_SIZE + DigitValue(s[|s| - 1])
  }

  function Decode(key: string): nat {
    Unrounds(Value(key), 5)
  }

  function Pow62(n: nat): nat {
    if n == 0 then 1 else CHARSET_SIZE * Pow62(n - 1)
  }

  lemma UpperAt(d: nat)
    requires d < 26
    ensures |UPPER| == 26 && UPPER[d] == 'A' + d as char
  {
  }

  lemma LowerAt(d: nat)
    requires d < 26
    ensures |LOWER| == 26 && LOWER[d] == 'a' + d as char
  {
  }

  lemma CharsetDigits(d: nat)
    requires d < CHARSET_SIZE
    ensures |CHARSET| == CHARSET_SIZE && DigitValue(CHARSET[d]) == d
  {
    if d < 26 {
      UpperAt(d);
    } else if d < 52 {
      LowerAt(d - 26);
    } else {
      assert CHARSET[d] == FIGURES[d - 52];
    }
  }

  lemma {:induction false} DigitsValue(t: nat, n: nat)
    requires t < Pow62(n)
    ensures Value(Digits(t, n)) == t
  {
    if n > 0 {
      DigitsValue(t / CHARSET_SIZE, n - 1);
      CharsetDigits(t % CHARSET_SIZE);
      var s := Digits(t, n);
      assert s[..n - 1] == Digits(t / CHARSET_SIZE, n - 1);
    }
  }

  /** Every 64-bit number is recovered from its key. */
  lemma DecodeKey(number: nat)
    requires number < WORD
    ensures Decode(KeyOf(number)) == number
  {
    RoundsBijective(number, 5);
    assert Pow62(11) > WORD && Pow62(15) > Pow62(11);
    DigitsValue(Rounds(number, 5), KEY_SIZE - 1);
  }

  /** Distinct numbers have distinct keys. */
  lemma KeysDistinct(a: nat, b: nat)
    requires a < WORD && b < WORD && KeyOf(a) == KeyOf(b)
    ensures a == b
  {
    DecodeKey(a);
    DecodeKey(b);
  }

  lemma DigitsStep(t: nat, n: nat, rest: string)
    requires n > 0
    ensures Digits(t, n) + rest == Digits(t / CHARSET_SIZE, n - 1) + ([CHARSET[t % CHARSET_SIZE]] + rest)
  {
  }

  lemma DivTwice(t: nat, p: nat)
    requires p > 0
    ensures t / CHARSET_SIZE / p == t / (CHARSET_SIZE * p)
  {
    var q := t / CHARSET_SIZE;
    var u := q / p;
    var r := (q % p) * CHARSET_SIZE + t % CHARSET_SIZE;
    assert q == p * u + q % p;
    assert CHARSET_SIZE * (p * u) == CHARSET_SIZE * p * u;
    assert t == CHARSET_SIZE * p * u + r;
    assert r < CHARSET_SIZE * p;
    UniqueQuotient(t, CHARSET_SIZE * p, u, r);
  }

  lemma UniqueQuotient(t: nat, d: nat, u: nat, r: nat)
    requires t == d * u + r && r < d
    ensures t / d == u
  {
    var v := t / d;
    assert t == d * v + t % d;
    if v > u {
      MultiplesApart(d, u, v);
    } else if v < u {
      MultiplesApart(d, v, u);
    }
  }

  lemma MultiplesApart(d: nat, u: nat, v: nat)
    requires u < v
    ensures d * v >= d * u + d
  {
    assert d * v == d * u + d + d * (v - u - 1);
  }

  lemma {:induction false} Pow62Positive(n: nat)
    ensures Pow62(n) > 0
  {
    if n > 0 {
      Pow62Positive(n - 1);
    }
  }

  /** The character k places from the right is the digit of weight 62 to the k. */
  lemma {:induction false} DigitAt(t: nat, n: nat, k: nat)
    requires k < n
    ensures Pow62(k) > 0
    ensures Digits(t, n)[n - 1 - k] == CHARSET[t / Pow62(k) % CHARSET_SIZE]
    decreases k
  {
    Pow62Positive(k);
    if k > 0 {
      DigitAt(t / CHARSET_SIZE, n - 1, k - 1);
      DivTwice(t, Pow62(k - 1));
    }
  }

  /** The characters of a key are the fifteen base-62 digits of the transformed number. */
  lemma KeySpelled(number: nat)
    requires number < WORD
    ensures Value(KeyOf(number)) == (16807 * number + 19607) % WORD
    ensures forall k | 0 <= k < KEY_SIZE - 1 ::
              Pow62(k) > 0 && KeyOf(number)[KEY_SIZE - 2 - k] ==
                CHARSET[(16807 * number + 19607) % WORD / Pow62(k) % CHARSET_SIZE]
  {
    hide Digits, Rounds, Value;
    FiveRounds(number);
    assert Pow62(11) > WORD && Pow62(15) > Pow62(11);
    DigitsValue(Rounds(number, 5), KEY_SIZE - 1);
    forall k | 0 <= k < KEY_SIZE - 1
      ensures Pow62(k) > 0
      ensures KeyOf(number)[KEY_SIZE - 2 - k] ==
        CHARSET[(16807 * number + 19607) % WORD / Pow62(k) % CHARSET_SIZE]
    {
      DigitAt(Rounds(number, 5), KEY_SIZE - 1, k);
    }
  }

  method ToStringKey(number: nat, key: array<char>)
    requires number < WORD && key.Length == KEY_SIZE
    modifies key
    ensures key[KEY_SIZE - 1] == '\0'
    ensures Value(key[..KEY_SIZE - 1]) == (16807 * number + 19607) % WORD
    ensures forall k | 0 <= k < KEY_SIZE - 1 ::
              Pow62(k) > 0 && key[KEY_SIZE - 2 - k] ==
                CHARSET[(16807 * number + 19607) % WORD / Pow62(k) % CHARSET_SIZE]
    ensures key[..] == KeyOf(number) + ['\0']
  {
    hide Digits, Rounds, Value, Pow62;
    KeySpelled(number);
    var transformed: nat := ComplexTransform(number);
    key[KEY_SIZE - 1] := '\0';
    var i: int := KEY_SIZE - 2;
    while i >= 0
      invariant -1 <= i <= KEY_SIZE - 2
      invariant KeyOf(number) + ['\0'] == Digits(transformed, (i + 1) as nat) + key[i + 1..]
    {
      DigitsStep(transformed, (i + 1) as nat, key[i + 1..]);
      var index := transformed % CHARSET_SIZE;
      key[i] := CHARSET[index];
      assert key[i..] == [CHARSET[index]] + key[i + 1..];
      transformed := transformed / CHARSET_SIZE;
      i := i - 1;
    }
    NoDigits(transformed);
    assert key[..] == key[0..] == KeyOf(number) + ['\0'];
    assert key[..KEY_SIZE - 1] == key[..][..KEY_SIZE - 1] == KeyOf(number);
    assert key[KEY_SIZE - 1] == key[..][KEY_SIZE - 1];
  }

  lemma NoDigits(t: nat)
    ensures Digits(t, 0) == []
  {
  }
}
