/**
 Positional numerals: the value of a digit string in a base, the digit string of a
 number, and the facts that let both be computed several digits at a time.
 */
module Numerals {
  import opened Arith

  type Base = b: int | 2 <= b <= 36 witness 10

  /** -1 for a character that is no digit in any base. */
  function DigitValue(c: char): (d: int)
    ensures -1 <= d < 36
  {
    if '0' <= c <= '9' then c as int - '0' as int
    else if 'a' <= c <= 'z' then c as int - 'a' as int + 10
    else if 'A' <= c <= 'Z' then c as int - 'A' as int + 10
    else -1
  }

  /** The lower-case digit characters. */
  function DigitChar(d: int): (c: char)
    requires 0 <= d < 36
    ensures DigitValue(c) == d
  {
    if d < 10 then ('0' as int + d) as char else ('a' as int + d - 10) as char
  }

  /** The digits are those of ASCII: 0 is 48, a is 97 and, read only, A is 65. */
  lemma DigitsAreAscii(d: int)
    requires 0 <= d < 36
    ensures DigitChar(d) as int == if d < 10 then 48 + d else 97 + (d - 10)
    ensures DigitValue((if d < 10 then 48 + d else 97 + (d - 10)) as char) == d
    ensures d >= 10 ==> DigitValue((65 + (d - 10)) as char) == d
  {
  }

  predicate IsDigit(c: char, base: Base) {
    0 <= DigitValue(c) < base
  }

  predicate AllDigits(s: string, base: Base) {
    forall i :: 0 <= i < |s| ==> IsDigit(s[i], base)
  }

  /** The value of a digit string, most significant digit first. */
  function Positional(s: string, base: Base): (v: nat)
    requires AllDigits(s, base)
  {
    if |s| == 0 then 0 else Positional(s[..|s| - 1], base) * base + DigitValue(s[|s| - 1])
  }

  lemma {:induction false} PositionalConcat(a: string, b: string, base: Base)
    requires AllDigits(a, base) && AllDigits(b, base)
    ensures AllDigits(a + b, base)
    ensures Positional(a + b, base) == Positional(a, base) * Power(base, |b|) + Positional(b, base)
  {
    if |b| == 0 {
      assert a + b == a;
    } else {
      var b' := b[..|b| - 1];
      assert (a + b)[..|a + b| - 1] == a + b';
      PositionalConcat(a, b', base);
      hide IsDigit, DigitValue;
      PositionalRegroup(Positional(a, base), Power(base, |b'|), Positional(b', base), base);
    }
  }

  lemma PositionalRegroup(x: int, p: int, y: int, base: int)
    ensures (x * p + y) * base == x * (base * p) + y * base
  {
  }

  lemma {:induction false} PositionalBound(s: string, base: Base)
    requires AllDigits(s, base)
    ensures Positional(s, base) < Power(base, |s|)
  {
    if |s| > 0 {
      var rest := s[..|s| - 1];
      PositionalBound(rest, base);
      AppendedDigitBound(Positional(rest, base), DigitValue(s[|s| - 1]), Power(base, |rest|), base);
    }
  }

  lemma AppendedDigitBound(x: int, d: int, p: int, base: int)
    requires x < p && d < base && 0 < base
    ensures x * base + d < base * p
  {
    MulMonotone(x + 1, p, base);
    Distribute(x, 1, base);
  }

  /** The digits of `n`, without leading zeros; zero is the single digit 0. */
  function Digits(n: nat, base: Base): (s: string)
    ensures |s| >= 1 && AllDigits(s, base)
    ensures n > 0 ==> s[0] != '0'
  {
    if n < base then [DigitChar(n)]
    else
      QuotientSmaller(n, base);
      Digits(n / base, base) + [DigitChar(n % base)]
  }

  lemma QuotientSmaller(n: nat, base: Base)
    requires n >= base
    ensures 1 <= n / base < n
  {
    var q := n / base;
    assert n == q * base + n % base;
    if q >= n {
      MulMonotone(n, q, base);
      MulMonotone(2, base, n);
    }
    if q <= 0 {
      MulMonotone(q, 0, base);
    }
  }

  /** Reading back the digits of a number gives the number. */
  lemma {:induction false} DigitsRoundTrip(n: nat, base: Base)
    ensures Positional(Digits(n, base), base) == n
  {
    var s := Digits(n, base);
    if n < base {
      assert s[..0] == "";
    } else {
      var q, d := n / base, n % base;
      assert n == q * base + d;
      QuotientSmaller(n, base);
      DigitsRoundTrip(q, base);
      PositionalSnoc(Digits(q, base), DigitChar(d), base);
    }
  }

  lemma PositionalSnoc(s: string, c: char, base: Base)
    requires AllDigits(s, base) && IsDigit(c, base)
    ensures AllDigits(s + [c], base)
    ensures Positional(s + [c], base) == Positional(s, base) * base + DigitValue(c)
  {
    assert (s + [c])[..|s|] == s;
  }

  /** Exactly `k` digits, zeros first. */
  function FixedDigits(n: nat, base: Base, k: nat): (s: string)
    ensures |s| == k
  {
    if k == 0 then "" else FixedDigits(n / base, base, k - 1) + [DigitChar(n % base)]
  }

  lemma SplitQuotient(high: nat, low: nat, p: nat, base: Base)
    requires p > 0
    ensures high * (base * p) + low == (high * p + low / base) * base + low % base
    ensures (high * (base * p) + low) / base == high * p + low / base
    ensures (high * (base * p) + low) % base == low % base
  {
    var x := high * (base * p) + low;
    var q := high * p + low / base;
    assert x == q * base + low % base by {
      assert high * (base * p) == (high * p) * base;
      Distribute(high * p, low / base, base);
    }
    QuotientUnique(x, base, q, low % base);
  }

  /** Printing in two parts: the high digits, then exactly `k` low ones. */
  lemma {:induction false} DigitsInParts(n: nat, high: nat, low: nat, base: Base, k: nat)
    requires high > 0 && low < Power(base, k) && n == high * Power(base, k) + low
    ensures Digits(n, base) == Digits(high, base) + FixedDigits(low, base, k)
    decreases k
  {
    hide *;
    if k == 0 {
      NoLowDigits(n, high, low, base);
    } else {
      var n', low', last := DropLastDigit(n, high, low, base, k);
      DigitsInParts(n', high, low', base, k - 1);
      assert Digits(high, base) + (FixedDigits(low', base, k - 1) + [last])
          == (Digits(high, base) + FixedDigits(low', base, k - 1)) + [last];
    }
  }

  lemma NoLowDigits(n: nat, high: nat, low: nat, base: Base)
    requires low < Power(base, 0) && n == high * Power(base, 0) + low
    ensures Digits(n, base) == Digits(high, base) + FixedDigits(low, base, 0)
  {
    assert Power(base, 0) == 1;
    assert Digits(high, base) + "" == Digits(high, base);
  }

  lemma DropLastDigit(n: nat, high: nat, low: nat, base: Base, k: nat) returns (n': nat, low': nat, last: char)
    requires k > 0 && high > 0 && low < Power(base, k) && n == high * Power(base, k) + low
    ensures Digits(n, base) == Digits(n', base) + [last]
    ensures FixedDigits(low, base, k) == FixedDigits(low', base, k - 1) + [last]
    ensures n' == high * Power(base, k - 1) + low' && low' < Power(base, k - 1)
  {
    n', low' := SplitLow(n, high, low, Power(base, k - 1), base);
    last := DigitChar(low % base);
  }

  lemma SplitLow(n: nat, high: nat, low: nat, p: nat, base: Base) returns (n': nat, low': nat)
    requires p > 0 && high > 0 && low < base * p && n == high * (base * p) + low
    ensures n >= base && n' == n / base && low' == low / base && n % base == low % base
    ensures n' == high * p + low' && low' < p
  {
    SplitQuotient(high, low, p, base);
    QuotientBelow(low, p, base);
    AtLeastBase(high, p, base);
    n', low' := n / base, low / base;
  }

  lemma AtLeastBase(high: nat, p: nat, base: Base)
    requires high > 0 && p > 0
    ensures high * (base * p) >= base
  {
    MulMonotone(1, p, base);
    MulMonotone(1, high, base * p);
  }

  lemma QuotientBelow(low: nat, p: int, base: Base)
    requires low < base * p
    ensures low / base < p
  {
    if low / base >= p {
      MulMonotone(p, low / base, base);
    }
  }

  function Zeros(k: nat): (s: string)
    ensures |s| == k && forall i :: 0 <= i < k ==> s[i] == '0'
  {
    if k == 0 then "" else Zeros(k - 1) + "0"
  }

  /** Padding with zeros on the left gives the fixed-width form. */
  lemma {:induction false} PaddedDigits(n: nat, base: Base, k: nat)
    requires k >= 1 && n < Power(base, k)
    ensures |Digits(n, base)| <= k
    ensures Zeros(k - |Digits(n, base)|) + Digits(n, base) == FixedDigits(n, base, k)
  {
    if n < base {
      FixedOfSmall(n, base, k);
    } else {
      assert Power(base, 1) == base * Power(base, 0);
      QuotientSmaller(n, base);
      QuotientBelow(n, Power(base, k - 1), base);
      PaddedDigits(n / base, base, k - 1);
      var d := Digits(n / base, base);
      assert Zeros(k - 1 - |d|) + (d + [DigitChar(n % base)]) == (Zeros(k - 1 - |d|) + d) + [DigitChar(n % base)];
    }
  }

  lemma {:induction false} FixedOfSmall(n: nat, base: Base, k: nat)
    requires k >= 1 && n < base
    ensures Zeros(k - 1) + [DigitChar(n)] == FixedDigits(n, base, k)
  {
    QuotientUnique(n, base, 0, n);
    if k > 1 {
      QuotientUnique(0, base, 0, 0);
      FixedOfSmall(0, base, k - 1);
    }
  }
}
