/**
 Scalar multiplication by double-and-add, and its refinement of repeated addition under
 the hypothesis that addition associates on the multiples of the point.
 */
module ScalarMul {
  import opened Modular
  import opened Numerals
  import opened LimbText
  import opened Curves

  /** The `n`-fold sum of `pt`. */
  function NFold(n: nat, pt: Point): (r: Point)
    requires pt.curve.p != 0
    ensures r.curve == pt.curve && (r.infinite ==> r == Infinity(pt.curve))
  {
    if n == 0 then Infinity(pt.curve) else Plus(NFold(n - 1, pt), pt)
  }

  /** The group hypothesis: adding `pt` associates with adding multiples of it. */
  ghost predicate Associates(pt: Point)
    requires pt.curve.p != 0
  {
    forall i: nat, j: nat :: AssociatesAt(i, j, pt)
  }

  ghost predicate AssociatesAt(i: nat, j: nat, pt: Point)
    requires pt.curve.p != 0
  {
    Plus(Plus(NFold(i, pt), NFold(j, pt)), pt) == Plus(NFold(i, pt), Plus(NFold(j, pt), pt))
  }

  lemma {:induction false} NFoldAdds(i: nat, j: nat, pt: Point)
    requires pt.curve.p != 0 && Associates(pt)
    ensures Plus(NFold(i, pt), NFold(j, pt)) == NFold(i + j, pt)
  {
    hide Doubled, Chord;
    if j > 0 {
      NFoldAdds(i, j - 1, pt);
      assert AssociatesAt(i, j - 1, pt);
    }
  }

  lemma {:induction false} NFoldOfNFold(e: nat, x: nat, pt: Point)
    requires pt.curve.p != 0 && Associates(pt)
    ensures 0 <= e * x && NFold(e, NFold(x, pt)) == NFold(e * x, pt)
  {
    hide Plus;
    if e > 0 {
      NFoldOfNFold(e - 1, x, pt);
      ProductStep(e, x);
      NFoldAdds((e - 1) * x, x, pt);
    }
  }

  lemma ProductStep(e: nat, x: nat)
    requires e > 0
    ensures 0 <= (e - 1) * x && (e - 1) * x + x == e * x
  {
  }

  /** The multiples of a multiple associate as well. */
  lemma MultipleAssociates(x: nat, pt: Point)
    requires pt.curve.p != 0 && Associates(pt)
    ensures Associates(NFold(x, pt))
  {
    hide Plus;
    var q := NFold(x, pt);
    forall i: nat, j: nat
      ensures AssociatesAt(i, j, q)
    {
      NFoldOfNFold(i, x, pt);
      NFoldOfNFold(j, x, pt);
      NFoldAdds(i * x, j * x, pt);
      NFoldAdds(i * x + j * x, x, pt);
      NFoldAdds(j * x, x, pt);
      NFoldAdds(i * x, j * x + x, pt);
    }
  }

  lemma {:induction false} NFoldOnCurve(n: nat, pt: Point, c: Curve)
    requires Prime(c.p) && c.p > 2 && OnCurve(pt, c)
    ensures OnCurve(NFold(n, pt), c)
  {
    hide Plus;
    if n > 0 {
      NFoldOnCurve(n - 1, pt, c);
      PlusOnCurve(NFold(n - 1, pt), pt, c);
    }
  }

  // ---------- Double and add ----------

  /** One doubling per bit after the first, and one addition per set bit. */
  function Ladder(bits: string, pt: Point): (r: Point)
    requires pt.curve.p != 0
    ensures r.curve == pt.curve
  {
    if |bits| <= 1 then pt
    else
      var doubled := Doubled(Ladder(bits[..|bits| - 1], pt));
      if bits[|bits| - 1] == '1' then Plus(doubled, pt) else doubled
  }

  /** Scalar multiplication; a negative scalar acts as its absolute value. */
  function Times(pt: Point, scalar: int): (r: Point)
    requires pt.curve.p != 0
    ensures r.curve == pt.curve
  {
    if scalar == 0 then Infinity(pt.curve) else Ladder(Digits(Abs(scalar), 2), pt)
  }

  /** The left-to-right loop over the binary text of the scalar. */
  method TimesLoop(pt: Point, scalar: int) returns (current: Point)
    requires pt.curve.p != 0
    ensures current == Times(pt, scalar)
  {
    hide Doubled, Plus, Digits, Ladder, Text;
    if scalar == 0 {
      return Infinity(pt.curve);
    }
    current := pt;
    var binary := Text(scalar, 2);
    ghost var start := BinaryStart(scalar, binary);
    var i := 0;
    while i < |binary| && binary[i] != '1'
      invariant 0 <= i <= start
    {
      i := i + 1;
    }
    i := i + 1;
    LadderStart(binary[start..i], pt);
    while i < |binary|
      invariant start + 1 <= i <= |binary|
      invariant current == Ladder(binary[start..i], pt)
    {
      LadderStep(binary, start, i, pt);
      current := Doubled(current);
      if binary[i] == '1' {
        current := Plus(current, pt);
      }
      i := i + 1;
    }
    assert binary[start..i] == binary[start..];
  }

  /** The text is a sign that is not a '1' and then bits of which the first is. */
  lemma BinaryStart(scalar: int, binary: string) returns (start: nat)
    requires scalar != 0 && binary == Text(scalar, 2)
    ensures start < |binary| && binary[start] == '1' && forall k :: 0 <= k < start ==> binary[k] != '1'
    ensures binary[start..] == Digits(Abs(scalar), 2)
  {
    FirstBitIsOne(Abs(scalar));
    start := |binary| - |Digits(Abs(scalar), 2)|;
  }

  lemma LadderStart(bits: string, pt: Point)
    requires pt.curve.p != 0 && |bits| == 1
    ensures Ladder(bits, pt) == pt
  {
  }

  lemma LadderStep(binary: string, start: nat, i: nat, pt: Point)
    requires pt.curve.p != 0 && start < i < |binary|
    ensures
      var doubled := Doubled(Ladder(binary[start..i], pt));
      Ladder(binary[start..i + 1], pt) == if binary[i] == '1' then Plus(doubled, pt) else doubled
  {
    hide Doubled, Plus;
    var bits := binary[start..i + 1];
    assert bits[..|bits| - 1] == binary[start..i] && bits[|bits| - 1] == binary[i];
  }

  lemma {:induction false} FirstBitIsOne(n: nat)
    requires n > 0
    ensures Digits(n, 2)[0] == '1'
  {
    if n >= 2 {
      FirstBitIsOne(n / 2);
    }
  }

  lemma DoubleIsTwice(k: nat, pt: Point)
    requires pt.curve.p != 0 && Associates(pt)
    ensures Doubled(NFold(k, pt)) == NFold(2 * k, pt)
  {
    NFoldAdds(k, k, pt);
    hide Chord, Modular.Inverse;
    assert Doubled(NFold(k, pt)) == Plus(NFold(k, pt), NFold(k, pt));
  }

  /** The ladder over any bits from a leading one is the repeated sum. */
  lemma {:induction false} LadderIsNFold(bits: string, pt: Point)
    requires pt.curve.p != 0 && Associates(pt) && Plus(Infinity(pt.curve), pt) == pt
    requires |bits| >= 1 && AllDigits(bits, 2) && bits[0] == '1'
    ensures Ladder(bits, pt) == NFold(Positional(bits, 2), pt)
  {
    hide Doubled, Plus;
    var rest := bits[..|bits| - 1];
    if |bits| == 1 {
      assert rest == "";
      assert NFold(1, pt) == Plus(NFold(0, pt), pt);
    } else {
      LadderIsNFold(rest, pt);
      DoubleIsTwice(Positional(rest, 2), pt);
      assert IsDigit(bits[|bits| - 1], 2);
    }
  }

  /** Double-and-add is repeated addition, for every scalar and every point. */
  lemma TimesIsNFold(pt: Point, scalar: int, c: Curve)
    requires c.p > 0 && OnCurve(pt, c) && Associates(pt)
    ensures Times(pt, scalar) == NFold(Abs(scalar), pt)
  {
    if scalar != 0 {
      FirstBitIsOne(Abs(scalar));
      DigitsRoundTrip(Abs(scalar), 2);
      LadderIsNFold(Digits(Abs(scalar), 2), pt);
    }
  }

  // ---------- Points of finite order ----------

  /** The multiples of `g` that vanish are those of `n`. */
  ghost predicate HasOrder(g: Point, n: int)
    requires g.curve.p != 0
  {
    n > 0 && forall k: nat :: NFold(k, g).infinite <==> Divides(n, k)
  }

  lemma {:induction false} NFoldPeriodic(k: nat, q: nat, g: Point, n: int, c: Curve)
    requires Prime(c.p) && c.p > 2 && OnCurve(g, c) && Associates(g) && HasOrder(g, n)
    ensures 0 <= q * n && NFold(k + q * n, g) == NFold(k, g)
  {
    hide Plus, NFold, Prime;
    ProductNonNegative(q, n);
    MultipleOfOrder(q, n);
    NFoldAdds(k, q * n, g);
    NFoldOnCurve(k, g, c);
    InfinityIsIdentity(NFold(k, g), c);
  }

  lemma MultipleOfOrder(q: nat, n: int)
    requires n > 0
    ensures Divides(n, q * n)
  {
    ModShift(0, q, n);
  }

  lemma ProductNonNegative(q: nat, n: int)
    requires n > 0
    ensures 0 <= q * n
  {
  }

  /** Scalars congruent modulo the order give the same multiple. */
  lemma NFoldModulo(i: nat, j: nat, g: Point, n: int, c: Curve)
    requires Prime(c.p) && c.p > 2 && OnCurve(g, c) && Associates(g) && HasOrder(g, n)
    requires i % n == j % n
    ensures NFold(i, g) == NFold(j, g)
  {
    if i <= j {
      var q := ModDifference(j, i, n);
      QuotientNonNegative(q, n, j - i);
      NFoldPeriodic(i, q, g, n, c);
    } else {
      var q := ModDifference(i, j, n);
      QuotientNonNegative(q, n, i - j);
      NFoldPeriodic(j, q, g, n, c);
    }
  }

  lemma QuotientNonNegative(q: int, n: int, d: int)
    requires n > 0 && d >= 0 && q * n == d
    ensures q >= 0
  {
  }

  /** With an odd order no finite multiple has ordinate zero, so negation stays reduced. */
  lemma FiniteOrdinateNotZero(m: nat, g: Point, n: int, c: Curve)
    requires Prime(c.p) && c.p > 2 && OnCurve(g, c) && Associates(g) && HasOrder(g, n) && n % 2 == 1
    requires !NFold(m, g).infinite
    ensures NFold(m, g).y != 0
  {
    var q := NFold(m, g);
    NFoldOnCurve(m, g, c);
    DoubledOnCurve(q, c);
    DoubleIsTwice(m, g);
    if q.y == 0 {
      assert Divides(n, 2 * m);
      OddDividesHalf(n, m);
    }
  }

  lemma OddDividesHalf(n: int, m: nat)
    requires n > 0 && n % 2 == 1 && (2 * m) % n == 0
    ensures m % n == 0
  {
    var q := 2 * m / n;
    assert 2 * m == q * n;
    ParityOfProduct(q, n);
    HalfMultiple(q / 2, n, m);
    ModShift(0, q / 2, n);
  }

  lemma ParityOfProduct(q: int, n: int)
    requires n % 2 == 1 && (q * n) % 2 == 0
    ensures q % 2 == 0
  {
    var h := n / 2;
    assert n == 2 * h + 1;
    assert q * n == 2 * (q * h) + q;
  }

  lemma HalfMultiple(h: int, n: int, m: int)
    requires 2 * m == (2 * h) * n
    ensures m == h * n
  {
    assert (2 * h) * n == 2 * (h * n);
  }

  /** Negating a finite multiple gives the complementary multiple. */
  lemma NegatedMultiple(m: nat, g: Point, n: int, c: Curve)
    requires Prime(c.p) && c.p > 2 && OnCurve(g, c) && Associates(g) && HasOrder(g, n) && n % 2 == 1
    requires m < n && !NFold(m, g).infinite
    ensures Negated(NFold(m, g)) == NFold(n - m, g)
  {
    NFoldAdds(m, n - m, g);
    assert Divides(n, n);
    NFoldOnCurve(m, g, c);
    NFoldOnCurve(n - m, g, c);
    FiniteOrdinateNotZero(m, g, n, c);
    CancelsExactlyNegation(NFold(m, g), NFold(n - m, g), c);
  }
}
