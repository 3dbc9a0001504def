/** Division of integers that rounds toward negative infinity. */
module Floored {
  import opened Arith

  /** Rounds toward negative infinity. */
  function FloorDiv(a: int, b: int): int
    requires b != 0
  {
    if b > 0 then a / b else (-a) / (-b)
  }

  /** Carries the divisor's sign. */
  function FloorMod(a: int, b: int): int
    requires b != 0
  {
    a - FloorDiv(a, b) * b
  }

  /** Floored quotient and remainder are the only pair with the divisor's sign on the remainder. */
  lemma FlooredUnique(a: int, b: int, q: int, r: int)
    requires b != 0 && a == q * b + r
    requires if b > 0 then 0 <= r < b else b < r <= 0
    ensures FloorDiv(a, b) == q && FloorMod(a, b) == r
  {
    if b > 0 {
      QuotientUnique(a, b, q, r);
    } else {
      QuotientUnique(-a, -b, q, -r);
    }
  }

  lemma FlooredDivision(a: int, b: int)
    requires b != 0
    ensures a == FloorDiv(a, b) * b + FloorMod(a, b)
    ensures if b > 0 then 0 <= FloorMod(a, b) < b else b < FloorMod(a, b) <= 0
  {
  }
}
