/**
 Arithmetic modulo a positive number, and the extended Euclidean algorithm as a function
 of integers: its correctness, the bound on its cofactors, and the bound on its steps.
 */
module Modular {
  import opened Arith
  import opened Floored
  import opened Words

  ghost predicate Divides(d: int, x: int)
    requires d > 0
  {
    x % d == 0
  }

  ghost predicate Coprime(a: int, b: int) {
    forall d :: d > 1 && Divides(d, a) ==> !Divides(d, b)
  }

  ghost predicate Prime(p: int) {
    p > 1 && forall d :: 1 < d < p ==> !Divides(d, p)
  }

  // ---------- Congruences ----------

  lemma ModShift(x: int, k: int, m: int)
    requires m > 0
    ensures (x + k * m) % m == x % m
  {
    Distribute(x / m, k, m);
    QuotientUnique(x + k * m, m, x / m + k, x % m);
  }

  /** Equal remainders differ by a multiple. */
  lemma ModDifference(x: int, y: int, m: int) returns (k: int)
    requires m > 0 && x % m == y % m
    ensures x == y + k * m
  {
    k := x / m - y / m;
    Distribute(x / m, y / m, m);
  }

  lemma ModAdd(x: int, x': int, y: int, y': int, m: int)
    requires m > 0 && x % m == x' % m && y % m == y' % m
    ensures (x + y) % m == (x' + y') % m && (x - y) % m == (x' - y') % m
  {
    var j := ModDifference(x, x', m);
    var k := ModDifference(y, y', m);
    Distribute(j, k, m);
    ModShift(x' + y', j + k, m);
    ModShift(x' - y', j - k, m);
  }

  lemma ModMul(x: int, x': int, y: int, m: int)
    requires m > 0 && x % m == x' % m
    ensures (x * y) % m == (x' * y) % m
  {
    var k := ModDifference(x, x', m);
    MulShift(x', k, m, y);
    ModShift(x' * y, k * y, m);
  }

  lemma MulShift(x: int, k: int, m: int, y: int)
    ensures (x + k * m) * y == x * y + (k * y) * m
  {
  }

  lemma ModMod(x: int, m: int)
    requires m > 0
    ensures (x % m) % m == x % m
  {
    QuotientUnique(x % m, m, 0, x % m);
  }

  lemma SmallMod(x: int, m: int)
    requires 0 <= x < m
    ensures x % m == x
  {
    QuotientUnique(x, m, 0, x);
  }

  lemma DividesCombination(d: int, x: int, y: int, k: int)
    requires d > 0 && Divides(d, x) && Divides(d, y)
    ensures Divides(d, y + k * x) && Divides(d, k * x)
  {
    ModMul(x, 0, k, d);
    ModAdd(y, 0, k * x, 0, d);
  }

  // ---------- The extended Euclidean algorithm ----------

  /** The loop of the modular inverse; the result is the cofactor, not yet reduced. */
  function EuclidLoop(tempMod: int, tempA: int, yPrev: int, y: int): int
    decreases tempA
  {
    if tempA <= 1 then y
    else EuclidLoop(tempA, tempMod % tempA, y, yPrev - (tempMod / tempA) * y)
  }

  function EuclidSteps(tempMod: int, tempA: int): nat
    decreases tempA
  {
    if tempA <= 1 then 0 else 1 + EuclidSteps(tempA, tempMod % tempA)
  }

  function Inverse(a: int, m: int): int
    requires m != 0
  {
    FloorMod(EuclidLoop(m, FloorMod(a, m), 0, 1), m)
  }

  /** The cofactors always rebuild the current pair from `a`, modulo `m`. */
  ghost predicate Cofactors(tempMod: int, tempA: int, yPrev: int, y: int, a: int, m: int)
    requires m > 0
  {
    (y * a) % m == tempA % m && (yPrev * a) % m == tempMod % m
  }

  lemma CofactorsStep(tempMod: int, tempA: int, yPrev: int, y: int, a: int, m: int)
    requires m > 0 && tempA > 0 && Cofactors(tempMod, tempA, yPrev, y, a, m)
    ensures Cofactors(tempA, tempMod % tempA, y, yPrev - (tempMod / tempA) * y, a, m)
  {
    var q := tempMod / tempA;
    assert tempMod % tempA == tempMod - q * tempA;
    Distribute(yPrev, q * y, a);
    Associate(q, y, a);
    ModMul(y * a, tempA, q, m);
    ModAdd(yPrev * a, tempMod, q * (y * a), q * tempA, m);
  }

  lemma CoprimeStep(tempMod: int, tempA: int)
    requires tempA > 0 && Coprime(tempMod, tempA)
    ensures Coprime(tempA, tempMod % tempA)
  {
    var q, r := tempMod / tempA, tempMod % tempA;
    assert tempMod == r + q * tempA;
    forall d | d > 1 && Divides(d, tempA)
      ensures !Divides(d, r)
    {
      if Divides(d, r) {
        DividesCombination(d, tempA, r, q);
      }
    }
  }

  lemma {:induction false} EuclidCorrect(tempMod: int, tempA: int, yPrev: int, y: int, a: int, m: int)
    requires m > 1 && tempMod > 1 && 0 <= tempA < tempMod
    requires Coprime(tempMod, tempA) && Cofactors(tempMod, tempA, yPrev, y, a, m)
    ensures (EuclidLoop(tempMod, tempA, yPrev, y) * a) % m == 1
    decreases tempA
  {
    if tempA == 0 {
      assert Divides(tempMod, tempMod) && Divides(tempMod, tempA);
    } else if tempA == 1 {
      SmallMod(1, m);
    } else {
      CofactorsStep(tempMod, tempA, yPrev, y, a, m);
      CoprimeStep(tempMod, tempA);
      EuclidCorrect(tempA, tempMod % tempA, y, yPrev - (tempMod / tempA) * y, a, m);
    }
  }

  function Abs(x: int): nat {
    if x < 0 then -x else x
  }

  /** The cofactors alternate in sign, and weighted by the current pair they make up the modulus. */
  ghost predicate Balanced(tempMod: int, tempA: int, yPrev: int, y: int, m: int) {
    && ((yPrev <= 0 <= y) || (y <= 0 <= yPrev))
    && Abs(y) * tempMod + Abs(yPrev) * tempA == m
  }

  lemma BalancedStep(tempMod: int, tempA: int, yPrev: int, y: int, m: int)
    requires tempMod >= 0 && tempA > 0 && Balanced(tempMod, tempA, yPrev, y, m)
    ensures Balanced(tempA, tempMod % tempA, y, yPrev - (tempMod / tempA) * y, m)
  {
    var q, r := tempMod / tempA, tempMod % tempA;
    assert tempMod == q * tempA + r;
    if q < 0 {
      MulMonotone(q, -1, tempA);
    }
    CofactorGrows(yPrev, q, y);
    BalanceArithmetic(Abs(yPrev), q, Abs(y), tempA, r);
  }

  lemma CofactorGrows(yPrev: int, q: int, y: int)
    requires q >= 0 && ((yPrev <= 0 <= y) || (y <= 0 <= yPrev))
    ensures Abs(yPrev - q * y) == Abs(yPrev) + q * Abs(y)
    ensures if yPrev <= 0 <= y then yPrev - q * y <= 0 else 0 <= yPrev - q * y
  {
    if y >= 0 {
      MulMonotone(0, y, q);
    } else {
      MulMonotone(y, 0, q);
    }
  }

  lemma BalanceArithmetic(yPrev: int, q: int, y: int, tempA: int, r: int)
    ensures (yPrev + q * y) * tempA + y * r == y * (q * tempA + r) + yPrev * tempA
  {
  }

  /** No cofactor outgrows the modulus. */
  lemma BalancedBound(tempMod: int, tempA: int, yPrev: int, y: int, m: int)
    requires tempMod >= 1 && tempA >= 0 && Balanced(tempMod, tempA, yPrev, y, m)
    ensures Abs(y) <= m
  {
    MulMonotone(1, tempMod, Abs(y));
    MulMonotone(0, tempA, Abs(yPrev));
  }

  lemma {:induction false} EuclidCofactorBound(tempMod: int, tempA: int, yPrev: int, y: int, m: int)
    requires 0 <= tempA < tempMod && Balanced(tempMod, tempA, yPrev, y, m)
    ensures Abs(EuclidLoop(tempMod, tempA, yPrev, y)) <= m
    decreases tempA
  {
    if tempA <= 1 {
      BalancedBound(tempMod, tempA, yPrev, y, m);
    } else {
      BalancedStep(tempMod, tempA, yPrev, y, m);
      EuclidCofactorBound(tempA, tempMod % tempA, y, yPrev - (tempMod / tempA) * y, m);
    }
  }

  /** Every step at least halves the product of the pair. */
  lemma {:induction false} EuclidStepBound(tempMod: int, tempA: int, k: nat)
    requires 0 <= tempA < tempMod && tempMod * tempA < Pow2(k)
    ensures EuclidSteps(tempMod, tempA) <= k
    decreases tempA
  {
    if tempA > 1 {
      var r := tempMod % tempA;
      HalvedProduct(tempMod, tempA);
      if k == 0 {
        MulMonotone(1, tempMod, tempA);
        assert false;
      }
      EuclidStepBound(tempA, r, k - 1);
    }
  }

  lemma HalvedProduct(tempMod: int, tempA: int)
    requires 0 < tempA < tempMod
    ensures 2 * (tempA * (tempMod % tempA)) <= tempMod * tempA
  {
    var q, r := tempMod / tempA, tempMod % tempA;
    assert tempMod == q * tempA + r;
    if q <= 0 {
      MulMonotone(q, 0, tempA);
    }
    MulMonotone(1, q, tempA);
    MulMonotone(2 * r, tempMod, tempA);
  }

  /** At most twice the bit length of the modulus. */
  lemma InverseSteps(a: int, m: int, bits: nat)
    requires 0 < m < Pow2(bits)
    ensures EuclidSteps(m, FloorMod(a, m)) <= 2 * bits
  {
    FlooredDivision(a, m);
    var r := FloorMod(a, m);
    MulMonotone(r, m, m);
    MulMonotone(m, Pow2(bits), m);
    MulMonotone(m, Pow2(bits), Pow2(bits));
    Pow2Adds(bits, bits);
    if m * m >= Pow2(bits) * Pow2(bits) {
      MulMonotone(m, Pow2(bits) - 1, m);
      MulMonotone(m, Pow2(bits), Pow2(bits) - 1);
    }
    EuclidStepBound(m, r, 2 * bits);
  }

  /**
   The modular inverse is an inverse exactly for coprime arguments. For the others, zero
   included, the result is in range and meaningless.
   */
  lemma InverseCorrect(a: int, m: int)
    requires m > 1
    ensures 0 <= Inverse(a, m) < m
    ensures (a * Inverse(a, m)) % m == 1 <==> Coprime(a, m)
  {
    FlooredDivision(EuclidLoop(m, FloorMod(a, m), 0, 1), m);
    if Coprime(a, m) {
      CoprimeInverse(a, m);
    }
    if (a * Inverse(a, m)) % m == 1 {
      OnlyCoprimeInvertible(a, Inverse(a, m), m);
    }
  }

  lemma CoprimeInverse(a: int, m: int)
    requires m > 1 && Coprime(a, m)
    ensures (a * Inverse(a, m)) % m == 1
  {
    var start := FloorMod(a, m);
    assert start == a % m;
    var y := EuclidLoop(m, start, 0, 1);
    ReducedCoprime(a, m);
    ModMod(a, m);
    ModMul(start, a, 1, m);
    EuclidCorrect(m, start, 0, 1, a, m);
    assert Inverse(a, m) == y % m;
    ModMod(y, m);
    ModMul(y % m, y, a, m);
  }

  lemma ReducedCoprime(a: int, m: int)
    requires m > 0 && Coprime(a, m)
    ensures Coprime(m, FloorMod(a, m))
  {
    var q, r := FloorDiv(a, m), FloorMod(a, m);
    assert a == r + q * m;
    forall d | d > 1 && Divides(d, m)
      ensures !Divides(d, r)
    {
      if Divides(d, r) {
        DividesCombination(d, m, r, q);
      }
    }
  }

  lemma OnlyCoprimeInvertible(a: int, r: int, m: int)
    requires m > 1 && (a * r) % m == 1
    ensures Coprime(a, m)
  {
    SmallMod(1, m);
    var k := ModDifference(a * r, 1, m);
    forall d | d > 1 && Divides(d, a)
      ensures !Divides(d, m)
    {
      if Divides(d, m) {
        DividesCombination(d, a, 0, r);
        DividesCombination(d, m, a * r, -k);
        assert a * r + -k * m == 1;
        SmallMod(1, d);
      }
    }
  }

  // ---------- Primes ----------

  lemma PrimeCoprime(a: int, p: int)
    requires Prime(p) && a % p != 0
    ensures Coprime(a, p)
  {
    forall d | d > 1 && Divides(d, a)
      ensures !Divides(d, p)
    {
      if Divides(d, p) && d > p {
        SmallMod(p, d);
      }
    }
  }

  /** A prime dividing a product divides a factor. */
  lemma EuclidsLemma(u: int, v: int, p: int)
    requires Prime(p) && (u * v) % p == 0
    ensures u % p == 0 || v % p == 0
  {
    if u % p != 0 {
      PrimeCoprime(u, p);
      InverseCorrect(u, p);
      var i := Inverse(u, p);
      SmallMod(1, p);
      ModMul(u * i, 1, v, p);
      ModMul(u * v, 0, i, p);
      assert (u * v) * i == (u * i) * v;
    }
  }
}
