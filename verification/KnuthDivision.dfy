/**
 Division of magnitudes: Algorithm D of The Art of Computer Programming, volume 2,
 section 4.3.1, over 64-bit limbs and in place, as the original performs it.
 A left shift of a limb is multiplication modulo the base, a right shift is division by a
 power of two, and an `or` of words with disjoint bits is their sum.
 */
module KnuthDivision {
  import opened Arith
  import opened Words
  import opened Limbs
  import opened Magnitude

  /** Quotient and remainder of `u` by `v`. */
  ghost predicate DivMod(u: int, v: int, q: int, r: int) {
    u == q * v + r && 0 <= r < v
  }

  predicate TopBitSet(x: int) {
    BASE <= 2 * x
  }

  // ---------- The trial digit ----------

  /**
   The digit that the two leading divisor limbs allow, capped at the largest limb.
   The correction loop runs at most twice, and no 128-bit intermediate overflows.
   */
  method TrialDigit(u2: limb, u1: limb, u0: limb, v1: limb, v0: limb)
    returns (qhat: u128, ghost corrections: nat)
    requires TopBitSet(v1) && u2 <= v1
    ensures qhat < BASE
    ensures qhat * (v1 * BASE + v0) <= (u2 * BASE + u1) * BASE + u0
    ensures qhat == BASE - 1 || (u2 * BASE + u1) * BASE + u0 < (qhat + 1) * (v1 * BASE + v0)
    ensures corrections <= 2
  {
    var numerator: u128 := u2 * BASE + u1;
    qhat := numerator / v1;
    var rhat: u128 := numerator % v1;
    corrections := 0;
    FirstTrial(numerator, u0, v1, v0, qhat, rhat);
    while qhat >= BASE || qhat * v0 > rhat * BASE + u0
      invariant qhat * v1 + rhat == numerator
      invariant rhat < BASE && corrections <= 1 && (corrections == 1 ==> rhat >= v1)
      invariant TooLarge(qhat + 1, numerator * BASE + u0, v1, v0)
      invariant qhat < BASE ==> 0 <= qhat * v0 < BASE * BASE
      decreases qhat
    {
      Correction(numerator, u0, v1, v0, qhat, rhat);
      corrections := corrections + 1;
      qhat := qhat - 1;
      rhat := rhat + v1;
      if rhat >= BASE {
        EarlyExit(u2, numerator, u1, u0, v1, v0, qhat, rhat);
        return;
      }
      ProductBelow(qhat, v0);
    }
    AcceptedTrial(numerator, u0, v1, v0, qhat, rhat);
  }

  /** `q` cannot be a digit: it is no limb, or it overshoots the three leading limbs `n`. */
  ghost predicate TooLarge(q: int, n: int, v1: int, v0: int) {
    q >= BASE || n < q * (v1 * BASE + v0)
  }

  lemma ProductBelow(q: int, v: limb)
    requires 0 <= q
    ensures q < BASE ==> 0 <= q * v < BASE * BASE
  {
    if q < BASE {
      MulMonotone(0, q, v);
      MulMonotone(q, BASE, v);
    }
  }

  lemma FirstTrial(numerator: int, u0: limb, v1: limb, v0: limb, qhat: int, rhat: int)
    requires 0 < v1 && 0 <= numerator && qhat == numerator / v1 && rhat == numerator % v1
    ensures qhat * v1 + rhat == numerator
    ensures TooLarge(qhat + 1, numerator * BASE + u0, v1, v0)
    ensures qhat < BASE ==> 0 <= qhat * v0 < BASE * BASE
  {
    assert 0 <= qhat;
    ProductBelow(qhat, v0);
    Distribute(v1 * BASE, v0, qhat + 1);
    Associate(v1, BASE, qhat + 1);
    Distribute(qhat, 1, v1);
    MulMonotone(0, qhat + 1, v0);
  }

  lemma Correction(numerator: int, u0: limb, v1: limb, v0: limb, qhat: int, rhat: int)
    requires qhat * v1 + rhat == numerator && 0 <= qhat && 0 <= rhat
    requires qhat >= BASE || qhat * v0 > rhat * BASE + u0
    ensures qhat > 0
    ensures (qhat - 1) * v1 + (rhat + v1) == numerator
    ensures TooLarge(qhat, numerator * BASE + u0, v1, v0)
  {
    Distribute(v1 * BASE, v0, qhat);
    Associate(v1, BASE, qhat);
    Distribute(qhat, 1, v1);
  }

  /** Leaving the loop because the partial remainder outgrew a limb is leaving it with a valid digit. */
  lemma EarlyExit(u2: limb, numerator: int, u1: limb, u0: limb, v1: limb, v0: limb, qhat: int, rhat: int)
    requires numerator == u2 * BASE + u1 && u2 <= v1
    requires qhat * v1 + rhat == numerator && 0 <= qhat && BASE <= rhat
    ensures qhat < BASE && qhat * (v1 * BASE + v0) <= numerator * BASE + u0
  {
    if qhat >= BASE {
      MulMonotone(BASE, qhat, v1);
      assert false;
    }
    ProductBelow(qhat, v0);
    AcceptedTrial(numerator, u0, v1, v0, qhat, rhat);
  }

  lemma AcceptedTrial(numerator: int, u0: limb, v1: limb, v0: limb, qhat: int, rhat: int)
    requires qhat * v1 + rhat == numerator && qhat * v0 <= rhat * BASE + u0
    ensures qhat * (v1 * BASE + v0) <= numerator * BASE + u0
  {
    Distribute(v1 * BASE, v0, qhat);
    Associate(v1, BASE, qhat);
  }

  /** The three leading limbs of `u` and two of `v`, as weights over the limbs below them. */
  lemma LeadingLimbs(u: seq<limb>, n: nat)
    requires |u| >= n >= 0
    ensures Val(u[n..]) * P(n) <= Val(u) < (Val(u[n..]) + 1) * P(n)
  {
    assert u == u[..n] + u[n..];
    ValConcat(u[..n], u[n..]);
    ValBound(u[..n]);
    Distribute(Val(u[n..]), 1, P(n));
  }

  lemma ValOfTwo(s: seq<limb>)
    requires |s| == 2
    ensures Val(s) == s[1] * BASE + s[0]
  {
    assert s == [s[0]] + s[1..] && s[1..] == [s[1]] + [];
    ValCons(s[0], s[1..]);
    ValCons(s[1], []);
  }

  lemma ValOfThree(s: seq<limb>)
    requires |s| == 3
    ensures Val(s) == (s[2] * BASE + s[1]) * BASE + s[0]
  {
    assert s == [s[0]] + s[1..];
    ValCons(s[0], s[1..]);
    ValOfTwo(s[1..]);
  }

  lemma ValAtLeastTopWeight(v: seq<limb>)
    requires |v| >= 2 && v[|v| - 1] > 0
    ensures BASE * P(|v| - 2) <= Val(v)
  {
    ValTop(v);
    MulMonotone(1, v[|v| - 1], P(|v| - 1));
  }

  /** `qhat` is the quotient of `u` by `v`, or one more. */
  ghost predicate TrueOrOneMore(qhat: int, u: int, v: int) {
    qhat * v - v < u < qhat * v + v
  }

  /**
   The trial digit is the true quotient digit or one more: `qhat * v` overshoots `u` by at
   most `v`, and `(qhat + 1) * v` overshoots it.
   */
  lemma TrialDigitBound(u: seq<limb>, v: seq<limb>, qhat: int)
    requires |v| >= 2 && |u| == |v| + 1
    requires TopBitSet(v[|v| - 1]) && Val(u) < BASE * Val(v)
    requires 0 <= qhat < BASE
    requires qhat * Val(v[|v| - 2..]) <= Val(u[|v| - 2..])
    requires qhat == BASE - 1 || Val(u[|v| - 2..]) < (qhat + 1) * Val(v[|v| - 2..])
    ensures TrueOrOneMore(qhat, Val(u), Val(v))
  {
    hide TrueOrOneMore, Val, P;
    var n := |v| - 2;
    LeadingLimbs(u, n);
    LeadingLimbs(v, n);
    ValAtLeastTopWeight(v);
    TrialDigitArithmetic(Val(u), Val(v), Val(u[n..]), Val(v[n..]), P(n), qhat);
  }

  lemma TrialDigitArithmetic(u: int, v: int, uTop: int, vTop: int, p: int, qhat: int)
    requires 0 < p && 0 <= vTop && uTop * p <= u < (uTop + 1) * p && vTop * p <= v < (vTop + 1) * p
    requires BASE * p <= v && u < BASE * v
    requires 0 <= qhat < BASE && qhat * vTop <= uTop
    requires qhat == BASE - 1 || uTop < (qhat + 1) * vTop
    ensures TrueOrOneMore(qhat, u, v)
  {
    // Not too large: the limbs of v below the top two add less than BASE * p to the product.
    MulMonotone(v, p * vTop + p, qhat);
    MulMonotone(qhat * vTop, uTop, p);
    MulMonotone(qhat, BASE - 1, p);
    assert (p * vTop + p) * qhat == (qhat * vTop) * p + qhat * p;
    // Not too small.
    if qhat < BASE - 1 {
      MulMonotone(uTop + 1, (qhat + 1) * vTop, p);
      MulMonotone(p * vTop, v, qhat + 1);
      assert ((qhat + 1) * vTop) * p == (p * vTop) * (qhat + 1);
    }
  }

  // ---------- Multiply, subtract, and add back ----------

  ghost predicate SameOutside(s: seq<limb>, t: seq<limb>, lo: nat, hi: nat) {
    |s| == |t| && forall k :: 0 <= k < |s| && !(lo <= k < hi) ==> s[k] == t[k]
  }

  /** The window `u`, less `qhat * v`, up to limb `|w|`, with `owed` still to take from the limbs above. */
  ghost predicate Reduced(u: seq<limb>, v: seq<limb>, qhat: int, w: seq<limb>, owed: int)
    requires |w| <= |v| <= |u|
  {
    Val(w) == Val(u[..|w|]) - qhat * Val(v[..|w|]) + owed * P(|w|)
  }

  lemma ReduceStep(u: seq<limb>, v: seq<limb>, qhat: int, w: seq<limb>, mulCarry: int, borrow: int,
                   product: int, digit: limb, next: int)
    requires |w| < |v| <= |u| && Reduced(u, v, qhat, w, mulCarry + borrow)
    requires product == qhat * v[|w|] + mulCarry
    requires digit - next * BASE == u[|w|] - product % BASE - borrow
    ensures Reduced(u, v, qhat, w + [digit], product / BASE + next)
  {
    var i := |w|;
    ValPrefix(u, i);
    ValPrefix(v, i);
    ValSnoc(w, digit);
    ReduceDigit(u[i], v[i], qhat, mulCarry, borrow, product, digit, next, P(i));
    ReduceProduct(qhat, Val(v[..i]), v[i], P(i));
  }

  lemma ReduceProduct(qhat: int, low: int, x: int, p: int)
    ensures qhat * (low + x * p) == qhat * low + (qhat * x) * p
  {
  }

  lemma ReduceDigit(x: int, y: int, qhat: int, mulCarry: int, borrow: int, product: int, digit: int, next: int, p: int)
    requires product == qhat * y + mulCarry
    requires digit - next * BASE == x - product % BASE - borrow
    ensures digit * p == x * p - (qhat * y) * p - (mulCarry + borrow) * p + (product / BASE + next) * (BASE * p)
  {
    var qy, high := qhat * y, product / BASE;
    assert digit == x - qy - (mulCarry + borrow) + (high + next) * BASE;
    Associate(high + next, BASE, p);
    Distribute(x, qy, p);
    Distribute(x - qy, mulCarry + borrow, p);
    Distribute(x - qy - (mulCarry + borrow), -((high + next) * BASE), p);
    Distribute(0, (high + next) * BASE, p);
  }

  /**
   Subtracts `qhat * v` from the window of `|v| + 1` limbs at `j`, wrapping modulo the base;
   `top` is what the top limb would be without wrapping.
   */
  method SubtractProduct(un: array<limb>, j: nat, v: seq<limb>, qhat: u128) returns (top: i128)
    requires j + |v| < un.Length && qhat < BASE
    modifies un
    ensures SameOutside(un[..], old(un[..]), j, j + |v| + 1)
    ensures -BASE <= top < BASE && un[j + |v|] == top % BASE
    ensures Wrapped(Val(un[j..j + |v|]), top, P(|v|), old(Val(un[j..j + |v| + 1])), qhat, Val(v))
  {
    ghost var before := un[..];
    hide Reduced, P;
    ghost var u := un[j..j + |v| + 1];
    ghost var w: seq<limb> := [];
    var mulCarry: u128 := 0;
    var borrow: i128 := 0;
    var i := 0;
    while i < |v|
      invariant 0 <= i <= |v| && |w| == i
      invariant mulCarry < BASE && 0 <= borrow <= 1
      invariant SameOutside(un[..], before, j, j + i)
      invariant un[j..j + i] == w
      invariant Reduced(u, v, qhat, w, mulCarry + borrow)
    {
      ProductFits(qhat, v[i], 0, mulCarry);
      var product: u128 := qhat * v[i] + mulCarry;
      var diff: i128 := un[i + j] - product % BASE - borrow;
      var digit: limb := diff % BASE;
      ghost var next := if diff < 0 then 1 else 0;
      ReduceStep(u, v, qhat, w, mulCarry, borrow, product, digit, next);
      mulCarry := product / BASE;
      borrow := if diff < 0 then 1 else 0;
      un[i + j] := digit;
      w := w + [digit];
      i := i + 1;
    }
    top := un[j + |v|] - mulCarry - borrow;
    un[j + |v|] := top % BASE;
    assert un[j..j + |v|] == w;
    assert v[..|v|] == v;
    ReducedTop(u, v, qhat, w, mulCarry + borrow);
  }

  /** `w`, with `top` in the limb above it, is `u - qhat * v`. */
  ghost predicate Wrapped(w: int, top: int, p: int, u: int, qhat: int, v: int) {
    w + top * p == u - qhat * v
  }

  lemma ReducedTop(u: seq<limb>, v: seq<limb>, qhat: int, w: seq<limb>, owed: int)
    requires |w| == |v| && |u| == |v| + 1 && Reduced(u, v, qhat, w, owed)
    ensures Wrapped(Val(w), u[|v|] - owed, P(|v|), Val(u), qhat, Val(v))
  {
    assert v[..|v|] == v && u[..|v| + 1] == u;
    ValPrefix(u, |v|);
    Distribute(u[|v|], owed, P(|v|));
  }

  ghost predicate AddedBack(u: seq<limb>, v: seq<limb>, w: seq<limb>, carry: int)
    requires |w| <= |v| <= |u|
  {
    Val(w) + carry * P(|w|) == Val(u[..|w|]) + Val(v[..|w|])
  }

  lemma AddBackStep(u: seq<limb>, v: seq<limb>, w: seq<limb>, carry: int, sum: int)
    requires |w| < |v| <= |u| && AddedBack(u, v, w, carry)
    requires sum == carry + u[|w|] + v[|w|]
    ensures AddedBack(u, v, w + [sum % BASE], sum / BASE)
  {
    var i := |w|;
    ValPrefix(u, i);
    ValPrefix(v, i);
    ValSnoc(w, sum % BASE);
    AddDigit(u[i], v[i], carry, sum, P(i));
  }

  /** Adds the divisor back into the window at `j`, discarding the carry out of the top limb. */
  method AddBack(un: array<limb>, j: nat, v: seq<limb>) returns (ghost carry: int)
    requires j + |v| < un.Length
    modifies un
    ensures SameOutside(un[..], old(un[..]), j, j + |v| + 1)
    ensures 0 <= carry <= 1 && un[j + |v|] == (old(un[j + |v|]) + carry) % BASE
    ensures Wrapped(Val(un[j..j + |v|]), carry, P(|v|), old(Val(un[j..j + |v|])), -1, Val(v))
  {
    ghost var before := un[..];
    hide P;
    ghost var u := un[j..j + |v|];
    ghost var w: seq<limb> := [];
    var c: u128 := 0;
    var i := 0;
    while i < |v|
      invariant 0 <= i <= |v| && |w| == i && c <= 1
      invariant SameOutside(un[..], before, j, j + i)
      invariant un[j..j + i] == w
      invariant AddedBack(u, v, w, c)
    {
      var sum: u128 := un[i + j] + v[i] + c;
      AddBackStep(u, v, w, c, sum);
      var digit: limb := sum % BASE;
      un[i + j] := digit;
      w := w + [digit];
      c := sum / BASE;
      i := i + 1;
    }
    un[j + |v|] := (un[j + |v|] + c) % BASE;
    assert un[j..j + |v|] == w;
    assert v[..|v|] == v && u[..|v|] == u;
    carry := c;
  }

  // ---------- One quotient digit ----------

  lemma TopLimbNotAbove(s: seq<limb>, v: seq<limb>)
    requires |s| == |v| > 0 && Val(s) < Val(v)
    ensures s[|s| - 1] <= v[|v| - 1]
  {
    if s[|s| - 1] > v[|v| - 1] {
      HighestDifferenceDecides(v, s, |s| - 1);
    }
  }

  lemma SingleWrap(w: int, t: int, p: int, r: int)
    requires 0 <= w < p && 0 <= r < p && w + t * p == r
    ensures t == 0 && w == r
  {
    if t >= 1 {
      MulMonotone(1, t, p);
    } else if t <= -1 {
      MulMonotone(t, -1, p);
    }
  }

  /** The trial digit for the window at `j`. */
  method EstimateDigit(un: array<limb>, j: nat, v: seq<limb>) returns (qhat: u128)
    requires |v| >= 2 && j + |v| < un.Length
    requires TopBitSet(v[|v| - 1]) && Val(un[j + 1..j + |v| + 1]) < Val(v)
    ensures qhat < BASE && TrueOrOneMore(qhat, Val(un[j..j + |v| + 1]), Val(v))
  {
    var n := |v|;
    ghost var u := un[j..j + n + 1];
    assert u[1..] == un[j + 1..j + n + 1];
    WindowBelow(u, v);
    ghost var corrections;
    qhat, corrections := TrialDigit(un[j + n], un[j + n - 1], un[j + n - 2], v[n - 1], v[n - 2]);
    TrialDigitInWindow(u, v, qhat);
  }

  /**
   Reduces the window of `|v| + 1` limbs at `j` modulo the divisor and returns the quotient
   digit. The divisor is added back exactly when the trial digit was one too large, and the
   window's top limb ends at zero either way.
   */
  method DivideStep(un: array<limb>, j: nat, v: seq<limb>) returns (q: limb, ghost qhat: int, ghost addedBack: bool)
    requires |v| >= 2 && j + |v| < un.Length
    requires TopBitSet(v[|v| - 1]) && Val(un[j + 1..j + |v| + 1]) < Val(v)
    modifies un
    ensures SameOutside(un[..], old(un[..]), j, j + |v| + 1)
    ensures un[j + |v|] == 0
    ensures DivMod(old(Val(un[j..j + |v| + 1])), Val(v), q, Val(un[j..j + |v|]))
    ensures qhat == q || qhat == q + 1
    ensures addedBack <==> qhat == q + 1
  {
    hide TrueOrOneMore, Wrapped, DivMod, P, Val, SameOutside;
    var n := |v|;
    ghost var start, u := un[..], un[j..j + n + 1];
    var trial := EstimateDigit(un, j, v);
    qhat := trial;
    var top := SubtractProduct(un, j, v, trial);
    ghost var middle := un[..];
    ghost var w := Val(un[j..j + n]);
    ValBound(un[j..j + n]);
    ValBound(v);
    addedBack := top < 0;
    if top < 0 {
      ghost var carry := AddBack(un, j, v);
      ValBound(un[j..j + n]);
      TrialTooLarge(w, Val(un[j..j + n]), top, carry, P(n), Val(u), Val(v), trial);
      SameOutsideTwice(un[..], middle, start, j, j + n + 1);
      TopCleared(top, carry);
      q := trial - 1;
    } else {
      TrialRight(w, top, P(n), Val(u), Val(v), trial);
      q := trial;
    }
  }

  lemma SameOutsideTwice(s: seq<limb>, t: seq<limb>, u: seq<limb>, lo: nat, hi: nat)
    requires SameOutside(s, t, lo, hi) && SameOutside(t, u, lo, hi)
    ensures SameOutside(s, u, lo, hi)
  {
  }

  lemma TopCleared(top: int, carry: int)
    requires top + carry == 0
    ensures (top % BASE + carry) % BASE == 0
  {
  }

  lemma TrialRight(w: int, top: int, p: int, u: int, v: int, trial: int)
    requires 0 <= w < p && 0 <= top && v < p
    requires Wrapped(w, top, p, u, trial, v) && TrueOrOneMore(trial, u, v)
    ensures top == 0 && DivMod(u, v, trial, w)
  {
    MulMonotone(0, top, p);
    SingleWrap(w, top, p, u - trial * v);
  }

  lemma TrialTooLarge(w: int, restored: int, top: int, carry: int, p: int, u: int, v: int, trial: int)
    requires 0 <= w < p && 0 <= restored < p && top < 0 && 0 <= v < p && 0 <= u && 0 <= trial
    requires Wrapped(w, top, p, u, trial, v) && TrueOrOneMore(trial, u, v)
    requires Wrapped(restored, carry, p, w, -1, v)
    ensures trial >= 1 && top + carry == 0
    ensures DivMod(u, v, trial - 1, restored)
  {
    MulMonotone(top, -1, p);
    Distribute(trial, 1, v);
    Distribute(top, carry, p);
    SingleWrap(restored, top + carry, p, u - (trial - 1) * v);
  }

  /** `TrialDigitBound`, from what the trial loop says about the leading limbs. */
  lemma TrialDigitInWindow(u: seq<limb>, v: seq<limb>, qhat: int)
    requires |v| >= 2 && |u| == |v| + 1
    requires TopBitSet(v[|v| - 1]) && Val(u) < BASE * Val(v)
    requires 0 <= qhat < BASE
    requires var n := |v|; qhat * (v[n - 1] * BASE + v[n - 2]) <= (u[n] * BASE + u[n - 1]) * BASE + u[n - 2]
    requires var n := |v|; (qhat == BASE - 1 || (u[n] * BASE + u[n - 1]) * BASE + u[n - 2] < (qhat + 1) * (v[n - 1] * BASE + v[n - 2]))
    ensures TrueOrOneMore(qhat, Val(u), Val(v))
  {
    ValOfThree(u[|v| - 2..]);
    ValOfTwo(v[|v| - 2..]);
    TrialDigitBound(u, v, qhat);
  }

  lemma WindowBelow(u: seq<limb>, v: seq<limb>)
    requires |u| == |v| + 1 && |v| >= 1 && Val(u[1..]) < Val(v)
    ensures Val(u) < BASE * Val(v) && u[|v|] <= v[|v| - 1]
  {
    assert u == [u[0]] + u[1..];
    ValCons(u[0], u[1..]);
    TopLimbNotAbove(u[1..], v);
  }

  // ---------- Normalizing and denormalizing ----------

  function LimbAtOrZero(b: seq<limb>, i: int): limb {
    if 0 <= i < |b| then b[i] else 0
  }

  /** Limb `i` of `b << shift`. */
  function ShiftedLimb(b: seq<limb>, i: nat, shift: nat): (r: limb)
    requires i < |b| && shift <= 64
  {
    DisjointBits(b[i], LimbAtOrZero(b, i - 1), shift);
    (b[i] * Pow2(shift)) % BASE + LimbAtOrZero(b, i - 1) / Pow2(64 - shift)
  }

  /** Limb `i` of `u >> shift`. */
  function UnshiftedLimb(u: seq<limb>, i: nat, shift: nat): (r: limb)
    requires i + 1 < |u| && shift <= 64
  {
    DisjointBits(u[i + 1], u[i], 64 - shift);
    u[i] / Pow2(shift) + (u[i + 1] * Pow2(64 - shift)) % BASE
  }

  /** Shifting splits a limb into the bits that stay and the bits that carry. */
  lemma ShiftSplits(x: limb, t: int, s: int)
    requires 0 < t && 0 < s && t * s == BASE
    ensures (x * t) % BASE == (x % s) * t && (x * t) / BASE == x / s
    ensures (x * t) % BASE <= BASE - t && x / s < t
  {
    var q, r := x / s, x % s;
    assert x == q * s + r;
    Distribute(q * s, r, t);
    Associate(q, s, t);
    MulMonotone(0, r, t);
    MulMonotone(r + 1, s, t);
    Distribute(r, 1, t);
    if q >= t {
      MulMonotone(t, q, s);
    }
    QuotientUnique(x * t, BASE, q, r * t);
  }

  lemma ShiftFactors(shift: nat)
    requires shift <= 64
    ensures Pow2(shift) * Pow2(64 - shift) == BASE
  {
    Pow2Adds(shift, 64 - shift);
    Pow2Of64();
  }

  /** The two parts of a shifted limb share no bit, so the `or` is a sum. */
  lemma DisjointBits(x: limb, y: limb, shift: nat)
    requires shift <= 64
    ensures 0 <= (x * Pow2(shift)) % BASE && (x * Pow2(shift)) % BASE + y / Pow2(64 - shift) < BASE
    ensures (x * Pow2(shift)) % BASE % Pow2(shift) == 0 && 0 <= y / Pow2(64 - shift) < Pow2(shift)
  {
    hide Pow2;
    var t, s := Pow2(shift), Pow2(64 - shift);
    ShiftFactors(shift);
    ShiftSplits(x, t, s);
    ShiftSplits(y, t, s);
    QuotientUnique((x % s) * t, t, x % s, 0);
  }

  /** Shifting left multiplies the value, up to the bits shifted out of the last limb. */
  lemma {:induction false} ShiftedValue(b: seq<limb>, v: seq<limb>, shift: nat, k: nat)
    requires k <= |b| <= |v| && shift <= 64
    requires forall i :: 0 <= i < |b| ==> v[i] == ShiftedLimb(b, i, shift)
    ensures Val(v[..k]) + (LimbAtOrZero(b, k - 1) / Pow2(64 - shift)) * P(k) == Val(b[..k]) * Pow2(shift)
  {
    hide Pow2;
    if k > 0 {
      var i := k - 1;
      ShiftedValue(b, v, shift, i);
      ValPrefix(v, i);
      ValPrefix(b, i);
      ShiftFactors(shift);
      ShiftSplits(b[i], Pow2(shift), Pow2(64 - shift));
      ShiftedDigit(Val(b[..i]), b[i], Pow2(shift), LimbAtOrZero(b, i - 1) / Pow2(64 - shift), P(i));
    }
  }

  lemma ShiftedDigit(low: int, x: int, t: int, carry: int, p: int)
    ensures low * t - carry * p + ((x * t) % BASE + carry) * p + ((x * t) / BASE) * (BASE * p) == (low + x * p) * t
  {
    SplitDigit(x * t, p);
    Distribute((x * t) % BASE, carry, p);
    Distribute(low, x * p, t);
    assert (x * t) * p == (x * p) * t;
  }

  /** Shifting right divides the value, up to the bits shifted out at the bottom. */
  lemma {:induction false} UnshiftedValue(u: seq<limb>, r: seq<limb>, shift: nat, k: nat)
    requires k <= |r| < |u| && shift <= 64
    requires forall i :: 0 <= i < |r| ==> r[i] == UnshiftedLimb(u, i, shift)
    ensures Val(r[..k]) * Pow2(shift) + u[0] % Pow2(shift) == Val(u[..k]) + (u[k] % Pow2(shift)) * P(k)
  {
    hide Pow2;
    if k > 0 {
      var i := k - 1;
      UnshiftedValue(u, r, shift, i);
      ValPrefix(u, i);
      ValPrefix(r, i);
      ShiftFactors(shift);
      ShiftSplits(u[k], Pow2(64 - shift), Pow2(shift));
      UnshiftedDigit(Val(r[..i]), u[i], u[k] % Pow2(shift), Pow2(shift), Pow2(64 - shift), P(i));
    }
  }

  lemma UnshiftedDigit(low: int, x: int, carry: int, t: int, s: int, p: int)
    requires t > 0 && t * s == BASE
    ensures (low + (x / t + carry * s) * p) * t == low * t + x * p - (x % t) * p + carry * (BASE * p)
  {
    var q := x / t;
    assert x == q * t + x % t;
    assert (q * p) * t == (q * t) * p;
    Distribute(q * t, x % t, p);
    assert (carry * s * p) * t == carry * ((t * s) * p);
    assert (low + (q + carry * s) * p) * t == low * t + (q * p) * t + (carry * s * p) * t;
  }

  // ---------- The whole division ----------

  /** A change inside a window moves the whole value by the window's change at its weight. */
  lemma WindowChange(s: seq<limb>, t: seq<limb>, lo: nat, hi: nat)
    requires lo <= hi <= |s| == |t| && SameOutside(s, t, lo, hi)
    ensures Val(s) - Val(t) == (Val(s[lo..hi]) - Val(t[lo..hi])) * P(lo)
  {
    hide P, Val, SameOutside;
    ValInWindow(s, lo, hi);
    ValInWindow(t, lo, hi);
    SameEnds(s, t, lo, hi);
    var high := Val(s[hi..]) * P(hi - lo);
    WindowArithmetic(Val(s[lo..hi]), Val(t[lo..hi]), high, P(lo));
  }

  lemma SameEnds(s: seq<limb>, t: seq<limb>, lo: nat, hi: nat)
    requires lo <= hi <= |s| && SameOutside(s, t, lo, hi)
    ensures |s| == |t| && s[..lo] == t[..lo] && s[hi..] == t[hi..]
  {
  }

  lemma WindowArithmetic(x: int, y: int, high: int, p: int)
    ensures (x + high) * p - (y + high) * p == (x - y) * p
  {
  }

  lemma ValInWindow(s: seq<limb>, lo: nat, hi: nat)
    requires lo <= hi <= |s|
    ensures Val(s) == Val(s[..lo]) + (Val(s[lo..hi]) + Val(s[hi..]) * P(hi - lo)) * P(lo)
  {
    hide P, Val;
    assert s == s[..lo] + (s[lo..hi] + s[hi..]);
    ValConcat(s[..lo], s[lo..hi] + s[hi..]);
    ValConcat(s[lo..hi], s[hi..]);
  }

  lemma ValDropZeros(s: seq<limb>, n: nat)
    requires n <= |s| && forall k :: n <= k < |s| ==> s[k] == 0
    ensures Val(s) == Val(s[..n])
  {
    assert s == s[..n] + s[n..];
    ValConcat(s[..n], s[n..]);
    ValZeros(s[n..]);
  }

  /** With the digits from `j` up in `q`, what is left in `u` completes the dividend. */
  ghost predicate Dividing(u: int, q: int, p: int, v: int, total: int) {
    u + q * p * v == total
  }

  lemma DividingStep(u: int, u': int, high: int, digit: int, p: int, v: int, total: int)
    requires Dividing(u, high, BASE * p, v, total) && u' - u == -(digit * v) * p
    ensures Dividing(u', digit + BASE * high, p, v, total)
  {
    assert (digit + BASE * high) * p * v == (digit * v) * p + high * (BASE * p) * v;
  }

  /** Shifts `b` left into a fresh array with `extra` zero limbs above it. */
  method ShiftLeft(b: seq<limb>, shift: nat, extra: nat) returns (v: array<limb>)
    requires shift <= 63
    ensures fresh(v) && v.Length == |b| + extra
    ensures forall i :: 0 <= i < |b| ==> v[i] == ShiftedLimb(b, i, shift)
    ensures forall i :: |b| <= i < v.Length ==> v[i] == 0
  {
    v := new limb[|b| + extra](_ => 0);
    var i := |b|;
    while i > 0
      invariant 0 <= i <= |b|
      invariant forall k :: i <= k < |b| ==> v[k] == ShiftedLimb(b, k, shift)
      invariant forall k :: |b| <= k < v.Length ==> v[k] == 0
    {
      i := i - 1;
      DisjointBits(b[i], LimbAtOrZero(b, i - 1), shift);
      var word := (b[i] * Pow2(shift)) % BASE;
      if shift != 0 && i > 0 {
        word := word + b[i - 1] / Pow2(64 - shift);
      } else {
        NothingShiftedIn(LimbAtOrZero(b, i - 1), shift);
      }
      v[i] := word;
    }
  }

  lemma NothingShiftedIn(x: limb, shift: nat)
    requires shift <= 64 && (shift == 0 || x == 0)
    ensures x / Pow2(64 - shift) == 0
  {
    Pow2Of64();
  }

  /** The remainder limbs: `u >> shift`, over the low `n` limbs. */
  method ShiftRight(u: array<limb>, n: nat, shift: nat) returns (r: seq<limb>)
    requires n < u.Length && shift <= 63
    ensures |r| == n && forall i :: 0 <= i < n ==> r[i] == UnshiftedLimb(u[..], i, shift)
  {
    var out := new limb[n](_ => 0);
    var i := 0;
    while i < n
      invariant 0 <= i <= n
      invariant forall k :: 0 <= k < i ==> out[k] == UnshiftedLimb(u[..], k, shift)
    {
      DisjointBits(u[i + 1], u[i], 64 - shift);
      var word := u[i] / Pow2(shift);
      if shift != 0 {
        word := word + (u[i + 1] * Pow2(64 - shift)) % BASE;
      } else {
        Pow2Of64();
      }
      out[i] := word;
      i := i + 1;
    }
    r := out[..];
  }

  /** The loop over quotient digits: divides the array in place, leaving the remainder low. */
  method DivideDigits(un: array<limb>, v: seq<limb>, m: nat) returns (quotient: seq<limb>)
    requires |v| >= 2 && un.Length == m + |v| + 1 && TopBitSet(v[|v| - 1])
    requires Val(un[m + 1..]) < Val(v)
    modifies un
    ensures |quotient| == m + 1
    ensures DivMod(old(Val(un[..])), Val(v), Val(quotient), Val(un[..|v|])) && un[|v|] == 0
  {
    hide P, Val, DivMod, Dividing;
    var n := |v|;
    ghost var total := Val(un[..]);
    var q := new limb[m + 1](_ => 0);
    var j := m + 1;
    NoDigitsYet(un[..], q[m + 1..], v, j);
    assert un[m + 1..] == un[j..j + n];
    while j > 0
      invariant 0 <= j <= m + 1
      invariant Dividing(Val(un[..]), Val(q[j..]), P(j), Val(v), total)
      invariant Val(un[j..j + n]) < Val(v)
      invariant forall k :: j + n <= k < un.Length ==> un[k] == 0
    {
      j := j - 1;
      ghost var before, high := un[..], q[j + 1..];
      ghost var qhat, addedBack;
      q[j], qhat, addedBack := DivideStep(un, j, v);
      assert q[j..] == [q[j]] + high;
      StepTotal(before, un[..], j, v, q[j], high, total);
      RemainderBelow(Val(before[j..j + n + 1]), Val(v), q[j], Val(un[j..j + n]));
    }
    quotient := q[..];
    assert quotient == q[0..] && un[..n] == un[0..0 + n];
    ValDropZeros(un[..], n);
    DivisionDone(Val(un[..]), Val(quotient), Val(v), total);
    assert un[..][..n] == un[..n];
  }

  lemma NoDigitsYet(u: seq<limb>, q: seq<limb>, v: seq<limb>, j: nat)
    requires q == []
    ensures Dividing(Val(u), Val(q), P(j), Val(v), Val(u))
  {
  }

  lemma RemainderBelow(u: int, v: int, q: int, r: int)
    requires DivMod(u, v, q, r)
    ensures r < v
  {
  }

  lemma DivisionDone(u: int, q: int, v: int, total: int)
    requires Dividing(u, q, P(0), v, total) && 0 <= u < v
    ensures DivMod(total, v, q, u)
  {
  }

  lemma StepTotal(before: seq<limb>, after: seq<limb>, j: nat, v: seq<limb>, digit: limb, high: seq<limb>, total: int)
    requires j + |v| < |before| && SameOutside(after, before, j, j + |v| + 1) && after[j + |v|] == 0
    requires DivMod(Val(before[j..j + |v| + 1]), Val(v), digit, Val(after[j..j + |v|]))
    requires Dividing(Val(before), Val(high), P(j + 1), Val(v), total)
    ensures Dividing(Val(after), Val([digit] + high), P(j), Val(v), total)
  {
    hide Dividing, Val;
    var n := |v|;
    WindowChange(after, before, j, j + n + 1);
    ValDropZeros(after[j..j + n + 1], n);
    assert after[j..j + n + 1][..n] == after[j..j + n];
    ValCons(digit, high);
    DividingStep(Val(before), Val(after), Val(high), digit, P(j), Val(v), total);
  }

  /** Division by two or more limbs. */
  method DivModLong(a: seq<limb>, b: seq<limb>) returns (quotient: seq<limb>, remainder: seq<limb>)
    requires Canonical(b) && |a| >= |b| >= 2
    ensures DivMod(Val(a), Val(b), Val(quotient), Val(remainder))
  {
    hide P, Val, DivMod, Pow2;
    var n := |b|;
    var m := |a| - n;
    var shift := CountLeadingZeros(b[n - 1]);
    var vn := ShiftLeft(b, shift, 0);
    var un := ShiftLeft(a, shift, 1);
    // The bits shifted out of the top limb; for a zero shift there are none.
    if shift != 0 {
      un[|a|] := a[|a| - 1] / Pow2(64 - shift);
    } else {
      NothingShiftedIn(a[|a| - 1], shift);
    }
    var v := vn[..];
    NormalizedDivisor(b, v, shift);
    NormalizedDividend(a, un[..], v, shift);
    ghost var shiftedA := Val(un[..]);
    quotient := DivideDigits(un, v, m);
    remainder := ShiftRight(un, n, shift);
    assert un[..][..n] == un[..n];
    Denormalized(un[..], remainder, shift, n);
    Unscale(Val(a), Val(b), Val(quotient), Val(un[..n]), Val(remainder), un[0] % Pow2(shift), Pow2(shift));
  }

  lemma NormalizedDivisor(b: seq<limb>, v: seq<limb>, shift: nat)
    requires |b| >= 2 && |v| == |b| && shift <= 63
    requires BASE <= 2 * (b[|b| - 1] * Pow2(shift)) && b[|b| - 1] * Pow2(shift) < BASE
    requires forall i :: 0 <= i < |b| ==> v[i] == ShiftedLimb(b, i, shift)
    ensures Val(v) == Val(b) * Pow2(shift) && TopBitSet(v[|v| - 1])
  {
    hide Pow2, Val, P;
    var top := b[|b| - 1];
    ShiftedValue(b, v, shift, |b|);
    assert v[..|b|] == v && b[..|b|] == b;
    ShiftFactors(shift);
    NothingShiftedOut(top, Pow2(shift), Pow2(64 - shift));
    assert (top / Pow2(64 - shift)) * P(|b|) == 0;
    DisjointBits(top, b[|b| - 2], shift);
  }

  lemma NothingShiftedOut(x: limb, t: int, s: int)
    requires 0 < t && 0 < s && t * s == BASE && x * t < BASE
    ensures (x * t) % BASE == x * t && x / s == 0
  {
    ShiftSplits(x, t, s);
    MulMonotone(0, x, t);
    QuotientUnique(x * t, BASE, 0, x * t);
  }

  lemma NormalizedDividend(a: seq<limb>, u: seq<limb>, v: seq<limb>, shift: nat)
    requires |a| >= |v| >= 2 && |u| == |a| + 1 && shift <= 63
    requires forall i :: 0 <= i < |a| ==> u[i] == ShiftedLimb(a, i, shift)
    requires u[|a|] == a[|a| - 1] / Pow2(64 - shift)
    requires TopBitSet(v[|v| - 1])
    ensures Val(u) == Val(a) * Pow2(shift)
    ensures Val(u[|a| - |v| + 1..]) < Val(v)
  {
    hide Pow2;
    ShiftedValue(a, u, shift, |a|);
    ValPrefix(u, |a|);
    assert u[..|a| + 1] == u && a[..|a|] == a;
    ShiftFactors(shift);
    ShiftSplits(a[|a| - 1], Pow2(shift), Pow2(64 - shift));
    HalfBase(shift);
    var w := u[|a| - |v| + 1..];
    HighestDifferenceDecides(w, v, |v| - 1);
  }

  lemma HalfBase(shift: nat)
    requires shift <= 63
    ensures 2 * Pow2(shift) <= BASE
  {
    ShiftFactors(shift);
    assert Pow2(64 - shift) == 2 * Pow2(63 - shift);
    MulMonotone(2, Pow2(64 - shift), Pow2(shift));
  }

  lemma Denormalized(u: seq<limb>, r: seq<limb>, shift: nat, n: nat)
    requires n < |u| && |r| == n && shift <= 64 && u[n] == 0
    requires forall i :: 0 <= i < n ==> r[i] == UnshiftedLimb(u, i, shift)
    ensures Val(r) * Pow2(shift) + u[0] % Pow2(shift) == Val(u[..n])
  {
    hide Val, Pow2, P;
    UnshiftedValue(u, r, shift, n);
    assert r[..n] == r;
    NothingOnTop(u[n], Pow2(shift), P(n));
  }

  lemma NothingOnTop(x: int, t: int, p: int)
    requires x == 0 && t > 0
    ensures (x % t) * p == 0
  {
  }

  /** Dividing the scaled operands and unscaling the remainder divides the originals. */
  lemma Unscale(a: int, b: int, q: int, scaled: int, r: int, lost: int, t: int)
    requires t > 0 && 0 <= lost < t && 0 <= r
    requires DivMod(a * t, b * t, q, scaled) && r * t + lost == scaled
    ensures DivMod(a, b, q, r)
  {
    Associate(q, b, t);
    Distribute(q * b, r, t);
    Distribute(a, q * b + r, t);
    SingleWrap(lost, -(a - (q * b + r)), t, 0);
    if r >= b {
      MulMonotone(b, r, t);
    }
  }

  /** Magnitude division: quotient and remainder, both canonical. */
  method DivModMagnitude(a: seq<limb>, b: seq<limb>) returns (quotient: seq<limb>, remainder: seq<limb>)
    requires Canonical(a) && Canonical(b) && b != []
    ensures Canonical(quotient) && Canonical(remainder)
    ensures DivMod(Val(a), Val(b), Val(quotient), Val(remainder))
  {
    var c := CompareMagnitude(a, b);
    if c < 0 {
      return [], a;
    }
    if |b| == 1 {
      var q, rem := DivByLimb(a, b[0]);
      remainder := if rem != 0 then [rem] else [];
      quotient := Trim(q);
      assert b == [b[0]] + [] && [rem as limb] == [rem as limb] + [];
      ValCons(b[0], []);
      ValCons(rem, []);
      return;
    }
    if |a| < |b| {
      LongerIsLarger(a, b);
      assert false;
    }
    var q, r := DivModLong(a, b);
    remainder := Trim(r);
    quotient := Trim(q);
  }
}
