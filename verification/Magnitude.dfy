/**
 Magnitude arithmetic on little-endian limb vectors: comparison, addition, subtraction,
 schoolbook multiplication, multiply-and-add, and division by one limb.
 */
module Magnitude {
  import opened Arith
  import opened Words
  import opened Limbs

  method CompareMagnitude(a: seq<limb>, b: seq<limb>) returns (c: int)
    requires Canonical(a) && Canonical(b)
    ensures c == -1 || c == 0 || c == 1
    ensures c < 0 <==> Val(a) < Val(b)
    ensures c > 0 <==> Val(a) > Val(b)
    ensures c == 0 <==> a == b
  {
    if |a| != |b| {
      if |a| < |b| {
        LongerIsLarger(a, b);
        return -1;
      }
      LongerIsLarger(b, a);
      return 1;
    }
    var i := |a|;
    while i > 0
      invariant 0 <= i <= |a|
      invariant a[i..] == b[i..]
    {
      i := i - 1;
      if a[i] != b[i] {
        if a[i] < b[i] {
          HighestDifferenceDecides(a, b, i);
          return -1;
        }
        HighestDifferenceDecides(b, a, i);
        return 1;
      }
      assert a[i..] == [a[i]] + a[i + 1..] && b[i..] == [b[i]] + b[i + 1..];
    }
    return 0;
  }

  /** The loop that pops high zero limbs. */
  method Trim(s: seq<limb>) returns (t: seq<limb>)
    ensures Canonical(t) && Val(t) == Val(s)
    ensures t <= s
  {
    t := s;
    while |t| > 0 && t[|t| - 1] == 0
      invariant t <= s && Val(t) == Val(s)
    {
      t := t[..|t| - 1];
    }
  }

  /** The low `i` limbs, or all of them. */
  ghost function Low(s: seq<limb>, i: nat): (t: seq<limb>)
  {
    if i < |s| then s[..i] else s
  }

  function LimbAt(s: seq<limb>, i: nat): limb
  {
    if i < |s| then s[i] else 0
  }

  lemma LowGrows(s: seq<limb>, i: nat)
    ensures Val(Low(s, i + 1)) == Val(Low(s, i)) + LimbAt(s, i) * P(i)
  {
    if i < |s| {
      ValPrefix(s, i);
      assert s[..|s|] == s;
    }
  }

  method AddMagnitude(a: seq<limb>, b: seq<limb>) returns (result: seq<limb>)
    ensures Val(result) == Val(a) + Val(b)
  {
    var n := if |a| > |b| then |a| else |b|;
    result := [];
    var carry: u128 := 0;
    var i := 0;
    while i < n
      invariant 0 <= i <= n && |result| == i && carry <= 1
      invariant Added(a, b, result, carry)
    {
      var sum: u128 := carry;
      if i < |a| { sum := sum + a[i]; }
      if i < |b| { sum := sum + b[i]; }
      AddStep(a, b, result, carry, sum);
      result := result + [sum % BASE];
      carry := sum / BASE;
      i := i + 1;
    }
    if carry != 0 {
      ValSnoc(result, carry);
      result := result + [carry];
    }
  }

  ghost predicate Added(a: seq<limb>, b: seq<limb>, result: seq<limb>, carry: int) {
    Val(result) + carry * P(|result|) == Val(Low(a, |result|)) + Val(Low(b, |result|))
  }

  lemma AddStep(a: seq<limb>, b: seq<limb>, result: seq<limb>, carry: int, sum: nat)
    requires Added(a, b, result, carry)
    requires sum == carry + LimbAt(a, |result|) + LimbAt(b, |result|)
    ensures Added(a, b, result + [sum % BASE], sum / BASE)
  {
    var i := |result|;
    LowGrows(a, i);
    LowGrows(b, i);
    ValSnoc(result, sum % BASE);
    AddDigit(LimbAt(a, i), LimbAt(b, i), carry, sum, P(i));
  }

  lemma AddDigit(x: int, y: int, carry: int, sum: int, p: int)
    requires sum == carry + x + y
    ensures (sum % BASE) * p + (sum / BASE) * (BASE * p) == carry * p + x * p + y * p
  {
    SplitDigit(sum, p);
    Distribute(carry, x, p);
    Distribute(carry + x, y, p);
  }

  /** Writing a double word as a digit and a carry into the next weight. */
  lemma SplitDigit(x: int, p: int)
    ensures x * p == (x % BASE) * p + (x / BASE) * (BASE * p)
  {
    Distribute(x % BASE, BASE * (x / BASE), p);
    Associate(x / BASE, BASE, p);
  }

  /** Requires the minuend not to be the smaller, as every caller checks. */
  method SubMagnitude(a: seq<limb>, b: seq<limb>) returns (result: seq<limb>)
    requires Canonical(b) && Val(a) >= Val(b)
    ensures Val(result) == Val(a) - Val(b)
  {
    if |a| < |b| {
      LongerIsLarger(a, b);
      assert false;
    }
    var r := new limb[|a|](_ => 0);
    var borrow: i128 := 0;
    var i := 0;
    while i < |a|
      invariant 0 <= i <= |a| && 0 <= borrow <= 1
      invariant Subtracted(a, b, r[..i], borrow)
    {
      var diff: i128 := a[i] - borrow - (if i < |b| then b[i] else 0);
      ghost var low, before := r[..i], borrow;
      if diff < 0 {
        diff := diff + BASE;
        borrow := 1;
      } else {
        borrow := 0;
      }
      SubStep(a, b, low, before, diff, borrow);
      r[i] := diff;
      assert r[..i + 1] == low + [diff];
      i := i + 1;
    }
    result := r[..];
    assert result == r[..i];
    SubtractedAll(a, b, result, borrow);
  }

  ghost predicate Subtracted(a: seq<limb>, b: seq<limb>, low: seq<limb>, borrow: int) {
    Val(low) - borrow * P(|low|) == Val(Low(a, |low|)) - Val(Low(b, |low|))
  }

  lemma SubStep(a: seq<limb>, b: seq<limb>, low: seq<limb>, borrow: int, digit: limb, next: int)
    requires Subtracted(a, b, low, borrow)
    requires digit - next * BASE == LimbAt(a, |low|) - borrow - LimbAt(b, |low|)
    ensures Subtracted(a, b, low + [digit], next)
  {
    var i := |low|;
    LowGrows(a, i);
    LowGrows(b, i);
    ValSnoc(low, digit);
    BorrowDigit(LimbAt(a, i), LimbAt(b, i), borrow, digit, next, P(i));
  }

  lemma BorrowDigit(x: int, y: int, borrow: int, digit: int, next: int, p: int)
    requires digit - next * BASE == x - borrow - y
    ensures digit * p - next * (BASE * p) == x * p - borrow * p - y * p
  {
    Associate(next, BASE, p);
    Distribute(digit, next * BASE, p);
    Distribute(x, borrow, p);
    Distribute(x - borrow, y, p);
  }

  /** Once every limb is done nothing is left to borrow from, so nothing was borrowed. */
  lemma SubtractedAll(a: seq<limb>, b: seq<limb>, low: seq<limb>, borrow: int)
    requires |low| == |a| >= |b| && 0 <= borrow <= 1
    requires Subtracted(a, b, low, borrow) && Val(a) >= Val(b)
    ensures Val(low) == Val(a) - Val(b)
  {
    ValBound(low);
    assert Low(a, |low|) == a && Low(b, |low|) == b;
    NothingBorrowed(Val(low), borrow, P(|low|));
  }

  lemma NothingBorrowed(v: int, borrow: int, p: int)
    requires 0 <= v < p && 0 <= borrow && v - borrow * p >= 0
    ensures borrow * p == 0
  {
    if borrow >= 1 {
      MulMonotone(1, borrow, p);
    }
  }

  method MulMagnitude(a: seq<limb>, b: seq<limb>) returns (result: seq<limb>)
    ensures Val(result) == Val(a) * Val(b)
    ensures a != [] && b != [] ==> |result| == |a| + |b|
  {
    if a == [] || b == [] {
      return [];
    }
    var r := new limb[|a| + |b|](_ => 0);
    ValZeros(r[..]);
    var i := 0;
    while i < |a|
      invariant 0 <= i <= |a|
      invariant Val(r[..]) == Val(a[..i]) * Val(b)
    {
      ValBound(a[..i]);
      MulRow(r, i, a[i], b, Val(a[..i]));
      ValPrefix(a, i);
      Distribute(Val(a[..i]), a[i] * P(i), Val(b));
      Associate(a[i], P(i), Val(b));
      Associate(a[i], Val(b), P(i));
      i := i + 1;
    }
    assert a[..|a|] == a;
    result := r[..];
  }

  /**
   One row of the schoolbook product: adds `x` times `b`, shifted by `i` limbs, in place.
   `done` is the part of the multiplier already used; it bounds what the array holds, and so
   where the carry can run.
   */
  method MulRow(r: array<limb>, i: nat, x: limb, b: seq<limb>, ghost done: nat)
    requires i + |b| < r.Length && done < P(i)
    requires Val(r[..]) == done * Val(b)
    modifies r
    ensures Val(r[..]) == old(Val(r[..])) + x * Val(b) * P(i)
  {
    hide P;
    ghost var start := Val(r[..]);
    var carry: u128 := 0;
    var j := 0;
    while j < |b|
      invariant 0 <= j <= |b| && carry < BASE
      invariant RowHolds(r[..], carry, i + j, start + x * Val(b[..j]) * P(i))
    {
      ProductFits(x, b[j], r[i + j], carry);
      var cur: u128 := x * b[j] + r[i + j] + carry;
      var digit: limb := cur % BASE;
      RowStep(r[..], x, b, i, j, start, carry, cur);
      ghost var s := r[..];
      r[i + j] := digit;
      assert r[..] == s[i + j := digit];
      carry := cur / BASE;
      j := j + 1;
    }
    assert b[..|b|] == b;
    RowBound(done, x, b, i);
    ghost var total := start + x * Val(b) * P(i);
    var k := i + |b|;
    while carry != 0
      invariant i + |b| <= k <= r.Length && carry < BASE
      invariant RowHolds(r[..], carry, k, total)
      invariant carry != 0 ==> k == i + |b|
      decreases carry
    {
      var cur: u128 := r[k] + carry;
      var digit: limb := cur % BASE;
      CarryStep(r[..], k, carry, cur, total);
      ghost var s := r[..];
      r[k] := digit;
      assert r[..] == s[k := digit];
      carry := cur / BASE;
      k := k + 1;
      NoCarryPast(r[..], carry, k, total);
    }
  }

  /** The array and a carry of weight `k` together hold `total`. */
  ghost predicate RowHolds(r: seq<limb>, carry: int, k: nat, total: int) {
    Val(r) + carry * P(k) == total
  }

  lemma CarryStep(r: seq<limb>, k: nat, carry: int, cur: nat, total: int)
    requires k < |r| && RowHolds(r, carry, k, total)
    requires cur == r[k] + carry
    ensures RowHolds(r[k := cur % BASE], cur / BASE, k + 1, total)
  {
    ValUpdate(r, k, cur % BASE);
    RowDigit(0, r[k], carry, cur, P(k));
  }

  lemma RowStep(r: seq<limb>, x: int, b: seq<limb>, i: nat, j: nat, start: int, carry: int, cur: nat)
    requires j < |b| && i + j < |r| && cur == x * b[j] + r[i + j] + carry
    requires RowHolds(r, carry, i + j, start + x * Val(b[..j]) * P(i))
    ensures RowHolds(r[i + j := cur % BASE], cur / BASE, i + (j + 1), start + x * Val(b[..j + 1]) * P(i))
  {
    ValUpdate(r, i + j, cur % BASE);
    RowDigit(x * b[j], r[i + j], carry, cur, P(i + j));
    RowPrefix(x, b, i, j);
  }

  lemma NoCarryPast(r: seq<limb>, carry: int, k: nat, total: int)
    requires RowHolds(r, carry, k, total) && total < P(k)
    ensures carry <= 0
  {
    if carry > 0 {
      MulMonotone(1, carry, P(k));
    }
  }

  /** A product of limbs, a digit and a carry fit in 128 bits, and their carry in 64. */
  lemma ProductFits(x: limb, y: limb, digit: limb, carry: int)
    requires 0 <= carry < BASE
    ensures 0 <= x * y + digit + carry < BASE * BASE
    ensures 0 <= (x * y + digit + carry) / BASE < BASE
  {
    var xy := x * y;
    assert 0 <= xy <= (BASE - 1) * (BASE - 1) by {
      MulMonotone(0, x, y);
      MulMonotone(x, BASE - 1, y);
    }
  }

  lemma RowDigit(xy: int, digit: int, carry: int, cur: int, p: int)
    requires cur == xy + digit + carry
    ensures (cur % BASE - digit) * p + (cur / BASE) * (BASE * p) == xy * p + carry * p
  {
    SplitDigit(cur, p);
    Distribute(cur % BASE, digit, p);
    Distribute(xy, digit, p);
    Distribute(xy + digit, carry, p);
  }

  lemma RowPrefix(x: int, b: seq<limb>, i: nat, j: nat)
    requires j < |b|
    ensures x * Val(b[..j + 1]) * P(i) == x * Val(b[..j]) * P(i) + (x * b[j]) * P(i + j)
  {
    ValPrefix(b, j);
    WeightsMultiply(j, i);
    RowIdentity(x, Val(b[..j]), b[j], P(j), P(i));
  }

  lemma RowIdentity(x: int, v: int, d: int, pj: int, pi: int)
    ensures x * (v + d * pj) * pi == x * v * pi + (x * d) * (pj * pi)
  {
  }

  /** After row `i` the product of what has been used still fits below weight `i + 1 + |b|`. */
  lemma RowBound(done: nat, x: limb, b: seq<limb>, i: nat)
    requires done < P(i)
    ensures done * Val(b) + x * Val(b) * P(i) < P(i + 1 + |b|)
  {
    ValBound(b);
    WeightsMultiply(i + 1, |b|);
    BoundIdentity(done, x, Val(b), P(i), P(|b|));
  }

  lemma BoundIdentity(done: int, x: int, v: int, pi: int, pb: int)
    requires 0 <= done < pi && 0 <= x < BASE && 0 <= v < pb
    ensures done * v + x * v * pi < BASE * pi * pb
  {
    MulMonotone(x, BASE - 1, pi);
    var factor := done + x * pi;
    assert done * v + x * v * pi == factor * v;
    MulMonotone(factor, BASE * pi, v);
    assert BASE * pi * v < BASE * pi * pb;
  }

  /** Division by a single limb, from the top limb down. */
  method DivByLimb(a: seq<limb>, d: limb) returns (quotient: seq<limb>, rem: u128)
    requires d > 0
    ensures |quotient| == |a|
    ensures Val(a) == Val(quotient) * d + rem && rem < d
  {
    hide P;
    var q := new limb[|a|](_ => 0);
    rem := 0;
    var i := |a|;
    while i > 0
      invariant 0 <= i <= |a| && rem < d
      invariant Val(a[i..]) == Val(q[i..]) * d + rem
    {
      i := i - 1;
      ghost var high := q[i + 1..];
      var cur: u128 := rem * BASE + a[i];
      DigitBelowBase(rem, a[i], d);
      var digit: limb := cur / d;
      q[i] := digit;
      assert q[i..] == [digit] + high;
      LimbStep(a, i, high, d, rem, digit, cur % d);
      rem := cur % d;
    }
    quotient := q[..];
    assert a[0..] == a && q[0..] == q[..];
  }

  lemma DigitBelowBase(rem: int, x: limb, d: int)
    requires 0 <= rem < d
    ensures 0 <= (rem * BASE + x) / d < BASE
  {
    var cur := rem * BASE + x;
    var q := cur / d;
    assert cur == q * d + cur % d;
    if q >= BASE {
      MulMonotone(BASE, q, d);
    }
    if q < 0 {
      MulMonotone(q, -1, d);
    }
  }

  lemma LimbStep(a: seq<limb>, i: nat, high: seq<limb>, d: limb, rem: int, digit: limb, next: int)
    requires i < |a| && rem * BASE + a[i] == digit * d + next
    requires Val(a[i + 1..]) == Val(high) * d + rem
    ensures Val(a[i..]) == Val([digit] + high) * d + next
  {
    assert a[i..] == [a[i]] + a[i + 1..];
    ValCons(a[i], a[i + 1..]);
    ValCons(digit, high);
    Distribute(digit, BASE * Val(high), d);
    Associate(BASE, Val(high), d);
  }
}
