/**
 Powers and square roots modulo a number: square-and-multiply, Fermat's little theorem,
 Euler's criterion as the original uses it, and the square root for primes that are 3 modulo 4.
 */
module FieldPowers {
  import opened Arith
  import opened Floored
  import opened Modular
  import opened Numerals
  import opened LimbText

  // ---------- Modular exponentiation ----------

  /** What modular exponentiation computes; a zero exponent gives 1 unreduced. */
  function ModPow(base: int, exp: int, m: int): int
    requires m > 0
  {
    if exp == 0 then 1 else Power(base, Abs(exp)) % m
  }

  lemma {:induction false} PowerOfProduct(x: int, y: int, e: nat)
    ensures Power(x * y, e) == Power(x, e) * Power(y, e)
  {
    if e > 0 {
      PowerOfProduct(x, y, e - 1);
      InterchangeFactors(x, y, Power(x, e - 1), Power(y, e - 1));
    }
  }

  lemma InterchangeFactors(x: int, y: int, u: int, v: int)
    ensures (x * y) * (u * v) == (x * u) * (y * v)
  {
  }

  lemma PowerOfSquare(x: int, e: nat)
    ensures Power(x * x, e) == Power(x, 2 * e)
  {
    PowerOfProduct(x, x, e);
    PowerAdds(x, e, e);
  }

  lemma {:induction false} PowerCongruent(x: int, y: int, e: nat, m: int)
    requires m > 0 && x % m == y % m
    ensures Power(x, e) % m == Power(y, e) % m
  {
    if e > 0 {
      PowerCongruent(x, y, e - 1, m);
      ProductCongruent(x, y, Power(x, e - 1), Power(y, e - 1), m);
    }
  }

  lemma ProductCongruent(x: int, x': int, y: int, y': int, m: int)
    requires m > 0 && x % m == x' % m && y % m == y' % m
    ensures (x * y) % m == (x' * y') % m
  {
    ModMul(x, x', y, m);
    ModMul(y, y', x', m);
  }

  /** The first `j` characters are the sign and the bits of `high`; or, once `high` is spent, some of the sign. */
  ghost predicate HighBits(binary: string, sign: string, j: nat, high: nat) {
    && j <= |binary| && (sign == "" || sign == "-") && |sign| <= |binary| && binary[..|sign|] == sign
    && if high > 0 then binary[..j] == sign + Digits(high, 2) else j <= |sign|
  }

  lemma LowBit(binary: string, sign: string, j: nat, high: nat)
    requires HighBits(binary, sign, j, high) && j > 0
    ensures binary[j - 1] == '1' <==> high % 2 == 1
    ensures HighBits(binary, sign, j - 1, high / 2)
    ensures j == 1 ==> high <= 1
  {
    if high >= 2 {
      SignedSnoc(binary, sign + Digits(high / 2, 2), DigitChar(high % 2), j);
      assert sign + Digits(high, 2) == (sign + Digits(high / 2, 2)) + [DigitChar(high % 2)];
    } else if high == 1 {
      SignedSnoc(binary, sign, '1', j);
    } else {
      assert binary[..|sign|][0] == binary[0];
    }
  }

  lemma SignedSnoc(binary: string, prefix: string, last: char, j: nat)
    requires j <= |binary| && binary[..j] == prefix + [last]
    ensures j == |prefix| + 1 && binary[j - 1] == last && binary[..j - 1] == prefix
  {
    assert binary[..j][j - 1] == binary[j - 1];
    assert binary[..j][..j - 1] == binary[..j - 1];
  }

  lemma PowerHalf(b: int, high: nat)
    ensures Power(b, high) == Power(b * b, high / 2) * (if high % 2 == 1 then b else 1)
  {
    PowerOfSquare(b, high / 2);
    assert high % 2 == 1 ==> high == 2 * (high / 2) + 1;
  }

  lemma PowerStep(result: int, result': int, b: int, b': int, high: nat, m: int)
    requires m > 0 && result' == if high % 2 == 1 then (result * b) % m else result
    requires high / 2 == 0 || b' == (b * b) % m
    ensures (result' * Power(b', high / 2)) % m == (result * Power(b, high)) % m
  {
    var h, x := high / 2, if high % 2 == 1 then b else 1;
    PowerHalf(b, high);
    if h > 0 {
      ModMod(b * b, m);
      PowerCongruent(b', b * b, h, m);
    }
    PowerStepArithmetic(result, result', x, Power(b', h), Power(b * b, h), m);
  }

  lemma PowerStepArithmetic(result: int, result': int, x: int, p': int, p: int, m: int)
    requires m > 0 && p' % m == p % m && (result' == (result * x) % m || result' == result * x)
    ensures (result' * p') % m == (result * (p * x)) % m
  {
    ModMod(result * x, m);
    ModMul(result', result * x, p', m);
    ModMul(p', p, result * x, m);
    Reassociate(result, x, p);
  }

  lemma Reassociate(r: int, x: int, p: int)
    ensures (r * x) * p == r * (p * x)
  {
  }

  /**
   The right-to-left loop over the binary text of the exponent. A minus sign is not a
   '1', so a negative exponent acts as its absolute value.
   */
  method ModPowLoop(base: int, exp: int, m: int) returns (result: int)
    requires m > 0
    ensures result == ModPow(base, exp, m)
  {
    if exp == 0 {
      return 1;
    }
    hide HighBits, Power;
    var binary := Text(exp, 2);
    ghost var sign := if exp < 0 then "-" else "";
    ghost var high: nat := Abs(exp);
    result := 1;
    var b := base % m;
    var i := |binary| - 1;
    StartPower(binary, sign, base, exp, m);
    while i >= 0
      invariant -1 <= i < |binary| && HighBits(binary, sign, i + 1, high)
      invariant (result * Power(b, high)) % m == Power(base, Abs(exp)) % m
      invariant high == 0 ==> 0 <= result < m
    {
      ghost var before, base' := result, b;
      LowBit(binary, sign, i + 1, high);
      if binary[i] == '1' {
        result := (result * b) % m;
      }
      if i > 0 {
        b := (b * b) % m;
      }
      PowerStep(before, result, base', b, high, m);
      high := high / 2;
      i := i - 1;
    }
    FinishPower(binary, sign, high, result, b, m);
  }

  lemma StartPower(binary: string, sign: string, base: int, exp: int, m: int)
    requires m > 0 && exp != 0 && binary == Text(exp, 2) && sign == if exp < 0 then "-" else ""
    ensures HighBits(binary, sign, |binary|, Abs(exp))
    ensures (1 * Power(base % m, Abs(exp))) % m == Power(base, Abs(exp)) % m
  {
    assert binary[..|binary|] == binary && binary == sign + Digits(Abs(exp), 2);
    ModMod(base, m);
    PowerCongruent(base % m, base, Abs(exp), m);
  }

  lemma FinishPower(binary: string, sign: string, high: nat, result: int, b: int, m: int)
    requires m > 0 && HighBits(binary, sign, 0, high) && (high == 0 ==> 0 <= result < m)
    ensures (result * Power(b, high)) % m == result
  {
    assert binary[..0] == "";
    assert |Digits(high, 2)| > 0;
    SmallMod(result, m);
  }

  // ---------- Fermat's little theorem ----------

  /** The product of the members of `s` between 1 and `n`. */
  ghost function Product(s: set<int>, n: nat): int {
    if n == 0 then 1 else (if n in s then n else 1) * Product(s, n - 1)
  }

  lemma {:induction false} ProductAdd(s: set<int>, x: int, n: nat)
    requires x !in s && x >= 1
    ensures Product(s + {x}, n) == if x <= n then x * Product(s, n) else Product(s, n)
  {
    if n > 0 {
      ProductAdd(s, x, n - 1);
      SwapFactors(x, if n in s then n else 1, Product(s, n - 1));
    }
  }

  lemma SwapFactors(x: int, y: int, p: int)
    ensures y * (x * p) == x * (y * p)
  {
  }

  ghost function UpTo(n: nat): (s: set<int>)
    ensures forall i :: i in s <==> 1 <= i <= n
    ensures |s| == n
  {
    if n == 0 then {} else UpTo(n - 1) + {n}
  }

  /** The residues of `a`, `2a`, ..., `na`. */
  ghost function Multiples(a: int, n: nat, p: int): set<int>
    requires p > 0
  {
    if n == 0 then {} else Multiples(a, n - 1, p) + {(a * n) % p}
  }

  lemma DistinctMultiples(a: int, i: int, j: int, p: int)
    requires Prime(p) && a % p != 0 && 1 <= i < j < p
    ensures (a * i) % p != (a * j) % p
  {
    if (a * i) % p == (a * j) % p {
      var k := ModDifference(a * j, a * i, p);
      FactorDifference(a, i, j);
      QuotientUnique(a * (j - i), p, k, 0);
      EuclidsLemma(a, j - i, p);
      SmallMod(j - i, p);
    }
  }

  lemma FactorDifference(a: int, i: int, j: int)
    ensures a * j - a * i == a * (j - i)
  {
  }

  lemma NonZeroResidue(a: int, i: int, p: int)
    requires Prime(p) && a % p != 0 && 1 <= i < p
    ensures 1 <= (a * i) % p <= p - 1
  {
    SmallMod(i, p);
    if (a * i) % p == 0 {
      EuclidsLemma(a, i, p);
    }
  }

  /** The multiples are distinct non-zero residues, and a later one is not among them. */
  lemma {:induction false} FreshMultiple(a: int, n: nat, later: int, p: int)
    requires Prime(p) && a % p != 0 && n < later <= p
    ensures Multiples(a, n, p) <= UpTo(p - 1) && |Multiples(a, n, p)| == n
    ensures later < p ==> (a * later) % p !in Multiples(a, n, p)
  {
    if n > 0 {
      FreshMultiple(a, n - 1, n, p);
      FreshMultiple(a, n - 1, later, p);
      NonZeroResidue(a, n, p);
      if later < p {
        DistinctMultiples(a, n, later, p);
      }
    }
  }

  lemma {:induction false} ProductOfMultiples(a: int, n: nat, p: int)
    requires p > 0 && Prime(p) && a % p != 0 && n < p
    ensures Product(Multiples(a, n, p), p - 1) % p == (Power(a, n) * Product(UpTo(n), n)) % p
  {
    hide *;
    if n == 0 {
      NoMultiples(a, p);
    } else {
      ProductOfMultiples(a, n - 1, p);
      OneMoreMultiple(a, n, p);
      FactorialStep(a, n);
      MultiplesProductStep(a, n, p, Product(Multiples(a, n - 1, p), p - 1), Power(a, n - 1), Product(UpTo(n - 1), n - 1));
    }
  }

  lemma NoMultiples(a: int, p: int)
    requires p > 0
    ensures Product(Multiples(a, 0, p), p - 1) % p == (Power(a, 0) * Product(UpTo(0), 0)) % p
  {
    ProductOfNone(p - 1);
  }

  lemma OneMoreMultiple(a: int, n: nat, p: int)
    requires Prime(p) && a % p != 0 && 1 <= n < p
    ensures Product(Multiples(a, n, p), p - 1) == ((a * n) % p) * Product(Multiples(a, n - 1, p), p - 1)
  {
    FreshMultiple(a, n - 1, n, p);
    NonZeroResidue(a, n, p);
    ProductAdd(Multiples(a, n - 1, p), (a * n) % p, p - 1);
  }

  lemma FactorialStep(a: int, n: nat)
    requires n > 0
    ensures Power(a, n) == a * Power(a, n - 1)
    ensures Product(UpTo(n), n) == n * Product(UpTo(n - 1), n - 1)
  {
    ProductAdd(UpTo(n - 1), n, n - 1);
  }

  lemma {:induction false} ProductOfNone(n: nat)
    ensures Product({}, n) == 1
  {
    if n > 0 {
      ProductOfNone(n - 1);
    }
  }

  lemma MultiplesProductStep(a: int, n: int, p: int, t: int, x: int, f: int)
    requires p > 0 && t % p == (x * f) % p
    ensures (((a * n) % p) * t) % p == ((a * x) * (n * f)) % p
  {
    ModMod(a * n, p);
    ModMul((a * n) % p, a * n, t, p);
    ModMul(t, x * f, a * n, p);
    InterchangeFactors(a, n, x, f);
  }

  lemma {:induction false} ProductUpToCoprime(n: nat, p: int)
    requires Prime(p) && n < p
    ensures Product(UpTo(n), n) % p != 0
  {
    SmallMod(1, p);
    if n > 0 {
      var f := Product(UpTo(n - 1), n - 1);
      FactorialStep(p, n);
      ProductUpToCoprime(n - 1, p);
      SmallMod(n, p);
      if (n * f) % p == 0 {
        EuclidsLemma(n, f, p);
      }
    }
  }

  lemma SubsetOfSameSize(s: set<int>, t: set<int>)
    requires s <= t && |s| == |t|
    ensures s == t
  {
    assert t == s + (t - s);
    assert |t| == |s| + |t - s|;
  }

  /** Multiplying by `a` permutes the non-zero residues. */
  lemma MultiplesPermute(a: int, p: int)
    requires Prime(p) && a % p != 0
    ensures Multiples(a, p - 1, p) == UpTo(p - 1)
  {
    FreshMultiple(a, p - 1, p, p);
    SubsetOfSameSize(Multiples(a, p - 1, p), UpTo(p - 1));
  }

  /** Fermat's little theorem. */
  lemma Fermat(a: int, p: int)
    requires Prime(p) && a % p != 0
    ensures Power(a, p - 1) % p == 1
  {
    var f := Product(UpTo(p - 1), p - 1);
    var x := Power(a, p - 1);
    MultiplesPermute(a, p);
    ProductOfMultiples(a, p - 1, p);
    ModAdd(x * f, f, -f, -f, p);
    Distribute(x, 1, f);
    SmallMod(0, p);
    EuclidsLemma(x - 1, f, p);
    ProductUpToCoprime(p - 1, p);
    ModAdd(x - 1, 0, 1, 1, p);
    SmallMod(1, p);
  }

  // ---------- Square roots ----------

  /** The original's square root: zero if there is none, by Euler's criterion. */
  function ModSqrt(n: int, p: int): int
    requires p > 0
  {
    if n == 0 then 0
    else if ModPow(n, FloorDiv(p - 1, 2), p) != 1 then 0
    else ModPow(n, FloorDiv(p + 1, 4), p)
  }

  /** A non-zero root squares to `n`: the exponents add to one more than Euler's. No primality is needed. */
  lemma SqrtSquares(n: int, p: int)
    requires p > 1 && p % 4 == 3 && ModSqrt(n, p) != 0
    ensures (ModSqrt(n, p) * ModSqrt(n, p)) % p == n % p
    ensures 0 < ModSqrt(n, p) < p
  {
    hide ModSqrt, Power;
    var h, e := (p - 1) / 2, (p + 1) / 4;
    RootParts(n, h, e, p);
    PowerAdds(n, e, e);
    RootSquare(n, Power(n, e), Power(n, h), ModSqrt(n, p), p);
  }

  lemma RootSquare(n: int, x: int, g: int, r: int, p: int)
    requires p > 1 && x * x == n * g && g % p == 1 && r == x % p
    ensures (r * r) % p == n % p
  {
    ModMod(x, p);
    ProductCongruent(r, x, r, x, p);
    SmallMod(1, p);
    ModMul(g, 1, n, p);
  }

  lemma RootParts(n: int, h: nat, e: nat, p: int)
    requires p > 1 && p % 4 == 3 && ModSqrt(n, p) != 0 && h == (p - 1) / 2 && e == (p + 1) / 4
    ensures 2 * e == h + 1 && Power(n, h + 1) == n * Power(n, h)
    ensures Power(n, h) % p == 1 && ModSqrt(n, p) == Power(n, e) % p
  {
  }

  /** Euler's criterion, one way: a square passes it. */
  lemma SquaresPass(y: int, n: int, p: int)
    requires Prime(p) && p % 2 == 1 && n % p != 0 && (y * y) % p == n % p
    ensures Power(n, (p - 1) / 2) % p == 1
  {
    var h := (p - 1) / 2;
    PowerCongruent(y * y, n, h, p);
    PowerOfSquare(y, h);
    if y % p == 0 {
      ModMul(y, 0, y, p);
    }
    Fermat(y, p);
  }

  /** For a prime that is 3 modulo 4, a root comes back exactly when there is one. */
  lemma SqrtComplete(n: int, p: int)
    requires Prime(p) && p % 4 == 3 && 0 < n < p
    ensures ModSqrt(n, p) != 0 <==> exists y :: IsRoot(y, n, p)
  {
    SmallMod(n, p);
    if ModSqrt(n, p) != 0 {
      SqrtSquares(n, p);
      assert IsRoot(ModSqrt(n, p), n, p);
    }
    if exists y :: IsRoot(y, n, p) {
      var y :| IsRoot(y, n, p);
      SquaresPass(y, n, p);
      PowerNotZero(n, (p + 1) / 4, p);
    }
  }

  ghost predicate IsRoot(y: int, n: int, p: int)
    requires p > 0
  {
    (y * y) % p == n % p
  }

  lemma {:induction false} PowerNotZero(n: int, e: nat, p: int)
    requires Prime(p) && n % p != 0
    ensures Power(n, e) % p != 0
  {
    if e == 0 {
      SmallMod(1, p);
    } else {
      PowerNotZero(n, e - 1, p);
      if Power(n, e) % p == 0 {
        EuclidsLemma(n, Power(n, e - 1), p);
      }
    }
  }

  /** A non-zero residue has at most the two roots `y` and `p - y`. */
  lemma TwoRoots(y: int, z: int, p: int)
    requires Prime(p) && (y * y) % p == (z * z) % p
    ensures y % p == z % p || y % p == (-z) % p
  {
    ModAdd(y * y, z * z, -(z * z), -(z * z), p);
    SmallMod(0, p);
    assert (y - z) * (y + z) == y * y - z * z;
    EuclidsLemma(y - z, y + z, p);
    if (y - z) % p == 0 {
      ModAdd(y - z, 0, z, z, p);
    } else {
      ModAdd(y + z, 0, -z, -z, p);
    }
  }
}
