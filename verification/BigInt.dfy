/**
 The signed big integer: sign and magnitude, always canonical, with floored division.
 */
module BigInts {
  import opened Arith
  import opened Floored
  import opened Modular
  import opened Words
  import opened Limbs
  import opened Magnitude
  import opened KnuthDivision
  import opened Numerals
  import opened Results
  import opened LimbText

  /** Truncating magnitude division, corrected for the signs, is floored division. */
  lemma FlooredFromMagnitudes(a: nat, b: nat, q: nat, r: nat, aNegative: bool, bNegative: bool)
    requires b > 0 && DivMod(a, b, q, r)
    ensures
      var x, y := Signed(aNegative, a), Signed(bNegative, b);
      var signed, rest := Signed(aNegative != bNegative, q), Signed(aNegative, r);
      && FloorDiv(x, y) == (if aNegative != bNegative && r != 0 then signed - 1 else signed)
      && FloorMod(x, y) == (if r != 0 && aNegative != bNegative then rest + y else rest)
  {
    var x, y := Signed(aNegative, a), Signed(bNegative, b);
    var signed, rest := Signed(aNegative != bNegative, q), Signed(aNegative, r);
    if aNegative != bNegative && r != 0 {
      Distribute(signed, 1, y);
      FlooredUnique(x, y, signed - 1, rest + y);
    } else {
      FlooredUnique(x, y, signed, rest);
    }
  }

  // ---------- The class ----------

  class BigInt {
    var limbs: seq<limb>
    var negative: bool

    ghost predicate Valid()
      reads this
    {
      Canonical(limbs) && (limbs == [] ==> !negative)
    }

    ghost function Value(): int
      reads this
    {
      Signed(negative, Val(limbs))
    }

    constructor ()
      ensures Valid() && Value() == 0
    {
      limbs := [];
      negative := false;
    }

    /** From a 64-bit integer; the magnitude of the least one still fits in a limb. */
    constructor FromInt64(num: int)
      requires -0x8000_0000_0000_0000 <= num < 0x8000_0000_0000_0000
      ensures Valid() && Value() == num
    {
      var magnitude: limb := if num < 0 then -num else num;
      negative := num < 0;
      limbs := if magnitude != 0 then [magnitude] else [];
      new;
      ValSnoc([], magnitude);
      assert [] + [magnitude] == [magnitude];
    }

    /** Two valid numbers with the same value are the same sign and limbs. */
    lemma ValueDetermines(other: BigInt)
      requires Valid() && other.Valid()
      ensures Value() == other.Value() <==> (limbs == other.limbs && negative == other.negative)
    {
      ZeroIsEmpty(limbs);
      ZeroIsEmpty(other.limbs);
      if Value() == other.Value() {
        CanonicalUnique(limbs, other.limbs);
      }
    }

    method Normalize()
      modifies this
      ensures Valid() && Value() == old(Value())
      ensures limbs <= old(limbs)
    {
      limbs := Trim(limbs);
      if limbs == [] {
        negative := false;
      }
    }

    method Compare(other: BigInt) returns (c: int)
      requires Valid() && other.Valid()
      ensures c < 0 <==> Value() < other.Value()
      ensures c > 0 <==> Value() > other.Value()
      ensures c == 0 <==> Value() == other.Value()
    {
      ZeroIsEmpty(limbs);
      ZeroIsEmpty(other.limbs);
      if negative != other.negative {
        return if negative then -1 else 1;
      }
      var mag := CompareMagnitude(limbs, other.limbs);
      return if negative then -mag else mag;
    }

    method Negated() returns (r: BigInt)
      requires Valid()
      ensures fresh(r) && r.Valid() && r.Value() == -Value()
    {
      r := new BigInt();
      r.limbs := limbs;
      r.negative := if limbs == [] then negative else !negative;
    }

    method Plus(num: BigInt) returns (r: BigInt)
      requires Valid() && num.Valid()
      ensures fresh(r) && r.Valid() && r.Value() == Value() + num.Value()
    {
      r := new BigInt();
      if negative == num.negative {
        var sum := AddMagnitude(limbs, num.limbs);
        r.limbs := sum;
        r.negative := negative;
      } else {
        var cmp := CompareMagnitude(limbs, num.limbs);
        if cmp == 0 {
          return;
        }
        if cmp > 0 {
          var difference := SubMagnitude(limbs, num.limbs);
          r.limbs := difference;
          r.negative := negative;
        } else {
          var difference := SubMagnitude(num.limbs, limbs);
          r.limbs := difference;
          r.negative := num.negative;
        }
      }
      r.Normalize();
    }

    method Minus(num: BigInt) returns (r: BigInt)
      requires Valid() && num.Valid()
      ensures fresh(r) && r.Valid() && r.Value() == Value() - num.Value()
    {
      var n := num.Negated();
      r := Plus(n);
    }

    method Times(num: BigInt) returns (r: BigInt)
      requires Valid() && num.Valid()
      ensures fresh(r) && r.Valid() && r.Value() == Value() * num.Value()
    {
      r := new BigInt();
      var product := MulMagnitude(limbs, num.limbs);
      r.limbs := product;
      r.negative := negative != num.negative && product != [];
      SignedProduct(negative, num.negative, Val(limbs), Val(num.limbs));
      r.Normalize();
    }

    method DividedBy(num: BigInt) returns (r: Result<BigInt>)
      requires Valid() && num.Valid()
      ensures r.Err? <==> num.Value() == 0
      ensures r.Err? ==> r.error == DivisionByZero
      ensures r.Ok? ==> fresh(r.value) && r.value.Valid() && r.value.Value() == FloorDiv(Value(), num.Value())
    {
      ZeroIsEmpty(num.limbs);
      if num.limbs == [] {
        return Err(DivisionByZero);
      }
      var quotient, remainder := DivModMagnitude(limbs, num.limbs);
      ZeroIsEmpty(remainder);
      ZeroIsEmpty(quotient);
      FlooredFromMagnitudes(Val(limbs), Val(num.limbs), Val(quotient), Val(remainder), negative, num.negative);
      var q := new BigInt();
      q.limbs := quotient;
      q.negative := negative != num.negative && quotient != [];
      if negative != num.negative && remainder != [] {
        var one := new BigInt.FromInt64(1);
        q := q.Minus(one);
      }
      q.Normalize();
      return Ok(q);
    }

    method Modulo(num: BigInt) returns (r: Result<BigInt>)
      requires Valid() && num.Valid()
      ensures r.Err? <==> num.Value() == 0
      ensures r.Err? ==> r.error == DivisionByZero
      ensures r.Ok? ==> fresh(r.value) && r.value.Valid() && r.value.Value() == FloorMod(Value(), num.Value())
    {
      ZeroIsEmpty(num.limbs);
      if num.limbs == [] {
        return Err(DivisionByZero);
      }
      var quotient, remainder := DivModMagnitude(limbs, num.limbs);
      ZeroIsEmpty(remainder);
      FlooredFromMagnitudes(Val(limbs), Val(num.limbs), Val(quotient), Val(remainder), negative, num.negative);
      var m := new BigInt();
      m.limbs := remainder;
      m.negative := negative && remainder != [];
      if remainder != [] && m.negative != num.negative {
        m := m.Plus(num);
      }
      m.Normalize();
      return Ok(m);
    }

    /**
     Reads an optional sign and then digits in `base`, several at a time: a chunk is as many
     digits as always fit in one limb, and the first chunk is the shorter one.
     */
    static method Parse(num: string, base: int) returns (r: Result<BigInt>)
      ensures r.Err? <==> Reading(num, base).Err?
      ensures r.Err? ==> r.error == Reading(num, base).error
      ensures r.Ok? ==> fresh(r.value) && r.value.Valid() && r.value.Value() == Reading(num, base).value
    {
      if base < 2 || base > 36 {
        return Err(InvalidBase);
      }
      var pos := SignLength(num);
      var neg := pos == 1 && num[0] == '-';
      if pos == |num| {
        return Err(ExpectedInteger);
      }
      var b := new BigInt();
      var ok := b.AppendDigits(num[pos..], base);
      if !ok {
        return Err(InvalidDigit);
      }
      b.Normalize();
      b.negative := neg && b.limbs != [];
      ZeroIsEmpty(b.limbs);
      return Ok(b);
    }

    /** The chunk loop: the whole digit string into the empty magnitude. */
    method AppendDigits(digits: string, base: Base) returns (ok: bool)
      requires limbs == [] && digits != ""
      modifies this`limbs
      ensures ok <==> AllDigits(digits, base)
      ensures ok ==> Val(limbs) == Positional(digits, base)
    {
      hide Power, Positional, Val, Multiple;
      var chunkLen := ChunkLength(base);
      var take := |digits| % chunkLen;
      if take == 0 { take := chunkLen; }
      FirstChunk(|digits|, chunkLen, take);
      NothingRead(base, digits);
      var pos := 0;
      while pos < |digits|
        invariant 0 <= pos <= |digits| && 1 <= take <= chunkLen
        invariant pos < |digits| ==> pos + take <= |digits| && Multiple(|digits| - pos - take, chunkLen)
        invariant AllDigits(digits[..pos], base) && Val(limbs) == Positional(digits[..pos], base)
      {
        var chunk := digits[pos..pos + take];
        var read := ReadChunk(chunk, base, chunkLen);
        if read.Err? {
          assert exists k :: 0 <= k < |chunk| && !IsDigit(chunk[k], base) && chunk[k] == digits[pos + k];
          return false;
        }
        MulAddInPlace(read.value.0, read.value.1);
        PositionalConcat(digits[..pos], chunk, base);
        assert digits[..pos] + chunk == digits[..pos + take];
        NextChunk(|digits| - pos - take, chunkLen);
        pos := pos + take;
        take := chunkLen;
      }
      assert digits[..pos] == digits;
      ok := true;
    }

    method ToText() returns (s: string)
      requires Valid()
      ensures s == Text(Value(), 10)
    {
      ZeroIsEmpty(limbs);
      if limbs == [] {
        return "0";
      }
      var chunks := PeelChunks(limbs);
      s := PrintChunks(chunks);
      if negative { s := "-" + s; }
    }

    method ToBinaryText() returns (s: string)
      requires Valid()
      ensures s == Text(Value(), 2)
    {
      ZeroIsEmpty(limbs);
      if limbs == [] {
        return "0";
      }
      var bits := MagnitudeBits(limbs);
      BitsAreText(Val(limbs), negative);
      s := (if negative then "-" else "") + bits;
    }

    /**
     The modular inverse: the loop over signed big integers computes the function of their
     values. `cofactors` records `y` after each iteration: for a positive modulus there are at
     most twice as many as it has bits, and none outgrows it.
     */
    static method Inverse(a: BigInt, mod: BigInt) returns (r: Result<BigInt>, ghost cofactors: seq<int>)
      requires a.Valid() && mod.Valid()
      ensures r.Err? <==> mod.Value() == 0
      ensures r.Err? ==> r.error == DivisionByZero
      ensures r.Ok? ==> r.value.Valid() && r.value.Value() == Modular.Inverse(a.Value(), mod.Value())
      ensures forall bits: nat :: 0 < mod.Value() < Pow2(bits) ==> |cofactors| <= 2 * bits
      ensures mod.Value() > 0 ==> forall i :: 0 <= i < |cofactors| ==> Abs(cofactors[i]) <= mod.Value()
    {
      hide FloorDiv, FloorMod, EuclidLoop, Modular.Inverse, BigInt.Valid, BigInt.Value, Tracked, Pow2, Abs;
      ghost var m := mod.Value();
      cofactors := [];
      var reduced := a.Modulo(mod);
      if reduced.Err? {
        return Err(reduced.error), [];
      }
      var tempMod, tempA := mod, reduced.value;
      var yPrev := new BigInt();
      var y := new BigInt.FromInt64(1);
      var one := new BigInt.FromInt64(1);
      var c := tempA.Compare(one);
      ghost var expected := EuclidLoop(m, FloorMod(a.Value(), m), 0, 1);
      ghost var steps := EuclidSteps(m, FloorMod(a.Value(), m));
      TrackedStart(a.Value(), m);
      while c > 0
        invariant mod.Valid() && mod.Value() == m && one.Valid() && one.Value() == 1
        invariant tempMod.Valid() && tempA.Valid() && yPrev.Valid() && y.Valid()
        invariant c > 0 <==> tempA.Value() > 1
        invariant EuclidLoop(tempMod.Value(), tempA.Value(), yPrev.Value(), y.Value()) == expected
        invariant m > 0 ==> Tracked(tempMod.Value(), tempA.Value(), yPrev.Value(), y.Value(), m, |cofactors|, steps)
        invariant m > 0 ==> forall i :: 0 <= i < |cofactors| ==> Abs(cofactors[i]) <= m
        decreases tempA.Value()
      {
        if m > 0 {
          TrackedStep(tempMod.Value(), tempA.Value(), yPrev.Value(), y.Value(), m, |cofactors|, steps);
        }
        EuclidUnfold(tempMod.Value(), tempA.Value(), yPrev.Value(), y.Value());
        var q := tempMod.DividedBy(tempA);
        var product := q.value.Times(y);
        var yNext := yPrev.Minus(product);
        yPrev := y;
        y := yNext;
        cofactors := cofactors + [y.Value()];
        var rest := tempMod.Modulo(tempA);
        tempMod := tempA;
        tempA := rest.value;
        c := tempA.Compare(one);
      }
      EuclidDone(tempMod.Value(), tempA.Value(), yPrev.Value(), y.Value());
      InverseIsReducedCofactor(a.Value(), m);
      if m > 0 {
        TrackedEnd(tempMod.Value(), tempA.Value(), yPrev.Value(), y.Value(), a.Value(), m, |cofactors|, steps);
      }
      r := y.Modulo(mod);
    }

    /** Multiplies the magnitude by `multiplier` and adds `addend`, in place. */
    method MulAddInPlace(multiplier: limb, addend: limb)
      modifies this`limbs
      ensures Val(limbs) == old(Val(limbs)) * multiplier + addend
    {
      hide P, Multiplied;
      ghost var start := limbs;
      NothingMultiplied(limbs, multiplier, addend);
      var carry: u128 := addend;
      var i := 0;
      while i < |limbs|
        invariant 0 <= i <= |limbs| == |start| && carry < BASE
        invariant limbs[i..] == start[i..]
        invariant Multiplied(limbs[..i], carry, start[..i], multiplier, addend)
      {
        ProductFits(limbs[i], multiplier, 0, carry);
        var cur: u128 := limbs[i] * multiplier + carry;
        var digit: limb := cur % BASE;
        MulAddStep(limbs[..i], carry, start, i, multiplier, addend, cur);
        limbs := limbs[i := digit];
        carry := cur / BASE;
        i := i + 1;
        assert limbs[..i] == limbs[..i - 1] + [digit];
      }
      assert limbs[..i] == limbs && start[..i] == start;
      while carry != 0
        invariant carry < BASE
        invariant Multiplied(limbs, carry, start, multiplier, addend)
        decreases carry
      {
        CarryAppended(limbs, carry, start, multiplier, addend);
        limbs := limbs + [carry % BASE];
        carry := carry / BASE;
      }
      NoCarryLeft(limbs, start, multiplier, addend);
    }
  }

  lemma SignedProduct(aNegative: bool, bNegative: bool, a: nat, b: nat)
    ensures Signed(aNegative, a) * Signed(bNegative, b) == Signed(aNegative != bNegative, a * b)
  {
  }

  ghost predicate Multiplied(done: seq<limb>, carry: int, start: seq<limb>, multiplier: int, addend: int) {
    Val(done) + carry * P(|done|) == Val(start) * multiplier + addend
  }

  lemma NothingMultiplied(start: seq<limb>, multiplier: int, addend: int)
    ensures start[..0] == [] && Multiplied([], addend, [], multiplier, addend)
  {
  }

  lemma CarryAppended(done: seq<limb>, carry: nat, start: seq<limb>, multiplier: int, addend: int)
    requires Multiplied(done, carry, start, multiplier, addend)
    ensures Multiplied(done + [carry % BASE], carry / BASE, start, multiplier, addend)
  {
    ValSnoc(done, carry % BASE);
    SplitDigit(carry, P(|done|));
  }

  lemma NoCarryLeft(done: seq<limb>, start: seq<limb>, multiplier: int, addend: int)
    requires Multiplied(done, 0, start, multiplier, addend)
    ensures Val(done) == Val(start) * multiplier + addend
  {
  }

  lemma MulAddStep(done: seq<limb>, carry: int, start: seq<limb>, i: nat, multiplier: int, addend: int, cur: nat)
    requires i < |start| && |done| == i
    requires Multiplied(done, carry, start[..i], multiplier, addend)
    requires cur == start[i] * multiplier + carry
    ensures Multiplied(done + [cur % BASE], cur / BASE, start[..i + 1], multiplier, addend)
  {
    ValPrefix(start, i);
    ValSnoc(done, cur % BASE);
    AddDigit(start[i] * multiplier, 0, carry, cur, P(i));
    Distribute(Val(start[..i]), start[i] * P(i), multiplier);
    Associate(start[i], P(i), multiplier);
    Associate(start[i], multiplier, P(i));
  }

  lemma EuclidUnfold(tempMod: int, tempA: int, yPrev: int, y: int)
    requires tempA > 1
    ensures EuclidLoop(tempMod, tempA, yPrev, y)
         == EuclidLoop(tempA, FloorMod(tempMod, tempA), y, yPrev - FloorDiv(tempMod, tempA) * y)
    ensures 0 <= FloorMod(tempMod, tempA) < tempA
  {
    assert FloorMod(tempMod, tempA) == tempMod % tempA;
  }

  /** The loop of the inverse in progress: its pair, its balanced cofactors and the steps still to come. */
  ghost predicate Tracked(tempMod: int, tempA: int, yPrev: int, y: int, m: int, taken: nat, total: nat) {
    && 0 <= tempA < tempMod
    && Balanced(tempMod, tempA, yPrev, y, m) && Abs(y) <= m
    && taken + EuclidSteps(tempMod, tempA) == total
  }

  lemma TrackedStart(a: int, m: int)
    ensures m > 0 ==> Tracked(m, FloorMod(a, m), 0, 1, m, 0, EuclidSteps(m, FloorMod(a, m)))
  {
    if m > 0 {
      FlooredDivision(a, m);
    }
  }

  lemma TrackedStep(tempMod: int, tempA: int, yPrev: int, y: int, m: int, taken: nat, total: nat)
    requires tempA > 1 && Tracked(tempMod, tempA, yPrev, y, m, taken, total)
    ensures
      var next := yPrev - FloorDiv(tempMod, tempA) * y;
      Abs(next) <= m && Tracked(tempA, FloorMod(tempMod, tempA), y, next, m, taken + 1, total)
  {
    hide Balanced, Abs, FloorDiv, FloorMod, EuclidSteps;
    BalancedStep(tempMod, tempA, yPrev, y, m);
    EuclidStepCounts(tempMod, tempA);
    BalancedBound(tempA, tempMod % tempA, y, yPrev - (tempMod / tempA) * y, m);
  }

  lemma EuclidStepCounts(tempMod: int, tempA: int)
    requires tempA > 1
    ensures FloorMod(tempMod, tempA) == tempMod % tempA && FloorDiv(tempMod, tempA) == tempMod / tempA
    ensures EuclidSteps(tempMod, tempA) == 1 + EuclidSteps(tempA, tempMod % tempA)
  {
  }

  lemma TrackedEnd(tempMod: int, tempA: int, yPrev: int, y: int, a: int, m: int, taken: nat, total: nat)
    requires m > 0 && tempA <= 1 && Tracked(tempMod, tempA, yPrev, y, m, taken, total)
    requires total == EuclidSteps(m, FloorMod(a, m))
    ensures forall bits: nat :: 0 < m < Pow2(bits) ==> taken <= 2 * bits
  {
    forall bits: nat | 0 < m < Pow2(bits)
      ensures taken <= 2 * bits
    {
      InverseSteps(a, m, bits);
    }
  }

  lemma EuclidDone(tempMod: int, tempA: int, yPrev: int, y: int)
    requires tempA <= 1
    ensures EuclidLoop(tempMod, tempA, yPrev, y) == y
  {
  }

  lemma InverseIsReducedCofactor(a: int, m: int)
    requires m != 0
    ensures Modular.Inverse(a, m) == FloorMod(EuclidLoop(m, FloorMod(a, m), 0, 1), m)
  {
  }
}
