/**
 The machine integers of the big-integer class, and powers of the limb base.

 Every intermediate of the original's 128-bit arithmetic is stored in a variable of
 type `u128` or `i128`, so that the verifier rejects a sum or product that does not fit.
 */
module Words {
  import opened Arith

  const BASE: int := 0x1_0000_0000_0000_0000

  type limb = x: int | 0 <= x < 0x1_0000_0000_0000_0000
  type u128 = x: int | 0 <= x < 0x1_0000_0000_0000_0000_0000_0000_0000_0000
  type i128 = x: int | -0x8000_0000_0000_0000_0000_0000_0000_0000 <= x < 0x8000_0000_0000_0000_0000_0000_0000_0000

  /** The weight of limb `i`. */
  ghost function P(i: nat): (p: int)
    ensures p >= 1
    ensures i > 0 ==> p >= BASE
  {
    if i == 0 then 1 else BASE * P(i - 1)
  }

  lemma {:induction false} WeightsMultiply(i: nat, j: nat)
    ensures P(i + j) == P(i) * P(j)
  {
    if j > 0 {
      calc {
        P(i + j);
        BASE * P(i + (j - 1));
        { WeightsMultiply(i, j - 1); }
        BASE * (P(i) * P(j - 1));
        { Associate(BASE, P(i), P(j - 1)); Associate(P(i), BASE, P(j - 1)); }
        P(i) * (BASE * P(j - 1));
        P(i) * P(j);
      }
    }
  }

  lemma {:induction false} WeightsGrow(i: nat, j: nat)
    requires i <= j
    ensures P(i) <= P(j)
  {
    if i < j {
      WeightsGrow(i, j - 1);
    }
  }

  function Pow2(k: nat): (p: int)
    ensures p >= 1
  {
    if k == 0 then 1 else 2 * Pow2(k - 1)
  }

  lemma {:induction false} Pow2Adds(i: nat, j: nat)
    ensures Pow2(i + j) == Pow2(i) * Pow2(j)
  {
    if j > 0 {
      Pow2Adds(i, j - 1);
      Associate(2, Pow2(j - 1), Pow2(i));
    }
  }

  lemma Pow2Of64()
    ensures Pow2(64) == BASE
  {
    assert Pow2(8) == 256;
    Pow2Adds(8, 8);
    Pow2Adds(16, 16);
    Pow2Adds(32, 32);
  }

  /** Count of leading zero bits of a non-zero 64-bit word. */
  function CountLeadingZeros(x: limb): (s: nat)
    requires x > 0
    ensures s <= 63
    ensures BASE <= 2 * (x * Pow2(s)) && x * Pow2(s) < BASE
  {
    LeadingZerosFrom(x, 0)
  }

  /** Counts upward from `s`, for a word that stays below the base when shifted by `s`. */
  function LeadingZerosFrom(x: limb, s: nat): (r: nat)
    requires x > 0 && s <= 63 && x * Pow2(s) < BASE
    ensures s <= r <= 63
    ensures BASE <= 2 * (x * Pow2(r)) && x * Pow2(r) < BASE
    decreases 64 - s
  {
    if BASE <= 2 * (x * Pow2(s)) then s
    else
      ShiftFits(x, s);
      LeadingZerosFrom(x, s + 1)
  }

  lemma ShiftFits(x: limb, s: nat)
    requires x > 0 && s <= 63 && 2 * (x * Pow2(s)) < BASE
    ensures s < 63 && x * Pow2(s + 1) < BASE
  {
    Associate(2, Pow2(s), x);
    MulMonotone(1, x, Pow2(s));
    if s == 63 {
      Pow2Of64();
      assert false;
    }
  }
}
