/**
 The value of a little-endian limb sequence, and the facts about it that the magnitude
 algorithms need: it is additive over concatenation, changes linearly under an update,
 and determines a canonical sequence.
 */
module Limbs {
  import opened Arith
  import opened Words

  ghost function Val(s: seq<limb>): (v: nat)
  {
    if |s| == 0 then 0 else Val(s[..|s| - 1]) + s[|s| - 1] * P(|s| - 1)
  }

  /** No high zero limb; zero is the empty sequence. */
  predicate Canonical(s: seq<limb>) {
    |s| == 0 || s[|s| - 1] != 0
  }

  lemma ValSnoc(s: seq<limb>, x: limb)
    ensures Val(s + [x]) == Val(s) + x * P(|s|)
  {
    assert (s + [x])[..|s|] == s;
  }

  /** Extending a prefix by one limb. */
  lemma ValPrefix(s: seq<limb>, i: nat)
    requires i < |s|
    ensures Val(s[..i + 1]) == Val(s[..i]) + s[i] * P(i)
  {
    assert s[..i + 1] == s[..i] + [s[i]];
    ValSnoc(s[..i], s[i]);
  }

  lemma {:induction false} ValConcat(a: seq<limb>, b: seq<limb>)
    ensures Val(a + b) == Val(a) + Val(b) * P(|a|)
  {
    if |b| == 0 {
      assert a + b == a;
    } else {
      var b', x := b[..|b| - 1], b[|b| - 1];
      assert a + b == (a + b') + [x];
      ValConcat(a, b');
      ValSnoc(a + b', x);
      WeightsMultiply(|b'|, |a|);
      Associate(x, P(|b'|), P(|a|));
      Distribute(Val(b'), x * P(|b'|), P(|a|));
    }
  }

  lemma ValCons(x: limb, s: seq<limb>)
    ensures Val([x] + s) == x + BASE * Val(s)
  {
    ValConcat([x], s);
    assert [x][..0] == [];
    assert P(1) == BASE * P(0);
  }

  lemma {:induction false} ValBound(s: seq<limb>)
    ensures Val(s) < P(|s|)
  {
    if |s| > 0 {
      ValBound(s[..|s| - 1]);
      MulMonotone(s[|s| - 1], BASE - 1, P(|s| - 1));
    }
  }

  lemma {:induction false} ValUpdate(s: seq<limb>, k: nat, x: limb)
    requires k < |s|
    ensures Val(s[k := x]) == Val(s) + (x - s[k]) * P(k)
  {
    var last := |s| - 1;
    if k == last {
      assert s[k := x][..last] == s[..last];
      assert (x - s[k]) * P(k) == x * P(k) - s[k] * P(k);
    } else {
      assert s[k := x][..last] == s[..last][k := x];
      ValUpdate(s[..last], k, x);
    }
  }

  lemma {:induction false} ValZeros(s: seq<limb>)
    requires forall i :: 0 <= i < |s| ==> s[i] == 0
    ensures Val(s) == 0
  {
    if |s| > 0 {
      ValZeros(s[..|s| - 1]);
    }
  }

  /** A non-zero top limb puts the value at or above its weight. */
  lemma ValTop(s: seq<limb>)
    requires |s| > 0
    ensures s[|s| - 1] * P(|s| - 1) <= Val(s) < (s[|s| - 1] + 1) * P(|s| - 1)
  {
    ValBound(s[..|s| - 1]);
    Distribute(s[|s| - 1], 1, P(|s| - 1));
  }

  /** The longer of two canonical sequences is the larger. */
  lemma LongerIsLarger(a: seq<limb>, b: seq<limb>)
    requires |a| < |b| && Canonical(b)
    ensures Val(a) < Val(b)
  {
    ValBound(a);
    ValTop(b);
    WeightsGrow(|a|, |b| - 1);
    MulMonotone(1, b[|b| - 1], P(|b| - 1));
  }

  /** At equal length the highest differing limb decides. */
  lemma {:induction false} HighestDifferenceDecides(a: seq<limb>, b: seq<limb>, i: nat)
    requires |a| == |b| && i < |a| && a[i] < b[i] && a[i + 1..] == b[i + 1..]
    ensures Val(a) < Val(b)
  {
    assert a == a[..i + 1] + a[i + 1..] && b == b[..i + 1] + b[i + 1..];
    ValConcat(a[..i + 1], a[i + 1..]);
    ValConcat(b[..i + 1], b[i + 1..]);
    ValTop(a[..i + 1]);
    ValTop(b[..i + 1]);
    MulMonotone(a[i] + 1, b[i], P(i));
  }

  /** A canonical sequence is determined by its value. */
  lemma {:induction false} CanonicalUnique(a: seq<limb>, b: seq<limb>)
    requires Canonical(a) && Canonical(b) && Val(a) == Val(b)
    ensures a == b
  {
    if |a| < |b| {
      LongerIsLarger(a, b);
    } else if |b| < |a| {
      LongerIsLarger(b, a);
    } else if a != b {
      var i := HighestDifference(a, b, |a|);
      if a[i] < b[i] {
        HighestDifferenceDecides(a, b, i);
      } else {
        HighestDifferenceDecides(b, a, i);
      }
    }
  }

  lemma {:induction false} HighestDifference(a: seq<limb>, b: seq<limb>, n: nat) returns (i: nat)
    requires |a| == |b| && n <= |a| && a != b && a[n..] == b[n..]
    ensures i < |a| && a[i] != b[i] && a[i + 1..] == b[i + 1..]
  {
    assert a[0..] == a && b[0..] == b;
    if a[n - 1] != b[n - 1] {
      i := n - 1;
    } else {
      assert a[n - 1..] == [a[n - 1]] + a[n..] && b[n - 1..] == [b[n - 1]] + b[n..];
      i := HighestDifference(a, b, n - 1);
    }
  }

  lemma ZeroIsEmpty(s: seq<limb>)
    requires Canonical(s)
    ensures Val(s) == 0 <==> s == []
  {
    CanonicalUnique([], []);
    if s != [] {
      LongerIsLarger([], s);
    }
  }
}
