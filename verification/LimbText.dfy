/**
 Text of big integers: reading a digit string several digits at a time, writing decimal
 text 19 digits at a time, and writing binary text bit by bit.
 */
module LimbText {
  import opened Arith
  import opened Words
  import opened Limbs
  import opened Magnitude
  import opened Numerals
  import opened Results

  function Signed(negative: bool, magnitude: int): int {
    if negative then -magnitude else magnitude
  }

  // ---------- Reading text ----------

  /** One for a leading sign, which is consumed, and zero otherwise. */
  function SignLength(num: string): (n: nat)
    ensures n <= |num|
  {
    if |num| > 0 && (num[0] == '+' || num[0] == '-') then 1 else 0
  }

  function Unsigned(num: string): string {
    num[SignLength(num)..]
  }

  /** The largest k for which the base to the power k is itself a limb. */
  method ChunkLength(base: Base) returns (chunkLen: nat)
    ensures chunkLen >= 1
    ensures Power(base, chunkLen) < BASE <= Power(base, chunkLen + 1)
  {
    var cap: limb := 1;
    chunkLen := 0;
    while cap <= (BASE - 1) / base
      invariant cap == Power(base, chunkLen)
      invariant chunkLen >= 1 || cap == 1
      decreases BASE - cap
    {
      CapGrows(cap, base);
      cap := cap * base;
      chunkLen := chunkLen + 1;
    }
    if cap * base < BASE {
      CapStops(cap, base);
    }
  }

  lemma CapGrows(cap: limb, base: Base)
    requires 1 <= cap <= (BASE - 1) / base
    ensures cap < cap * base < BASE && cap * base == base * cap
  {
    MulMonotone(cap, (BASE - 1) / base, base);
    MulMonotone(2, base, cap);
  }

  lemma CapStops(cap: limb, base: Base)
    requires cap * base < BASE
    ensures cap <= (BASE - 1) / base
  {
    var q := (BASE - 1) / base;
    assert BASE - 1 == q * base + (BASE - 1) % base;
    if cap > q {
      MulMonotone(q + 1, cap, base);
      Distribute(q, 1, base);
    }
  }

  lemma {:induction false} ChunkFits(base: Base, take: nat, chunkLen: nat)
    requires take <= chunkLen && Power(base, chunkLen) < BASE
    ensures Power(base, take) < BASE
  {
    if take < chunkLen {
      MulMonotone(1, base, Power(base, chunkLen - 1));
      ChunkFits(base, take, chunkLen - 1);
    }
  }

  ghost predicate Multiple(n: int, d: int)
    requires d > 0
  {
    n % d == 0
  }

  /** The first chunk leaves a whole number of chunks. */
  lemma FirstChunk(n: nat, chunkLen: nat, take: nat)
    requires chunkLen >= 1 && n >= 1 && take == if n % chunkLen == 0 then chunkLen else n % chunkLen
    ensures take <= n && Multiple(n - take, chunkLen)
  {
    var q := n / chunkLen;
    assert n == q * chunkLen + n % chunkLen;
    if n % chunkLen == 0 {
      if q <= 0 {
        MulMonotone(q, 0, chunkLen);
      }
      MulMonotone(1, q, chunkLen);
      Distribute(q, 1, chunkLen);
      QuotientUnique(n - chunkLen, chunkLen, q - 1, 0);
    } else {
      if q < 0 {
        MulMonotone(q, -1, chunkLen);
      }
      MulMonotone(0, q, chunkLen);
      QuotientUnique(n - take, chunkLen, q, 0);
    }
  }

  /** A whole number of chunks is none, or at least one and again a whole number. */
  lemma NextChunk(n: nat, chunkLen: nat)
    requires chunkLen >= 1 && Multiple(n, chunkLen)
    ensures n > 0 ==> chunkLen <= n && Multiple(n - chunkLen, chunkLen)
  {
    if n > 0 {
      FirstChunk(n, chunkLen, chunkLen);
    }
  }

  lemma NothingRead(base: Base, digits: string)
    ensures Val([]) == 0 == Positional("", base) && digits[..0] == ""
  {
  }

  /** The weight and value of one chunk, neither of which overflows a limb. */
  method ReadChunk(s: string, base: Base, chunkLen: nat) returns (r: Result<(limb, limb)>)
    requires |s| <= chunkLen && Power(base, chunkLen) < BASE
    ensures r.Err? <==> !AllDigits(s, base)
    ensures r.Ok? ==> r.value == (Power(base, |s|), Positional(s, base))
  {
    hide Positional, Power;
    NoChunkYet(base);
    var chunkValue: limb := 0;
    var chunkMult: limb := 1;
    var i := 0;
    NothingRead(base, s);
    while i < |s|
      invariant 0 <= i <= |s|
      invariant AllDigits(s[..i], base) && chunkValue == Positional(s[..i], base) && chunkMult == Power(base, i)
    {
      var d := DigitValue(s[i]);
      if d < 0 || d >= base {
        return Err(InvalidDigit);
      }
      ChunkStep(s, i, base, chunkLen);
      chunkValue := chunkValue * base + d;
      chunkMult := chunkMult * base;
      i := i + 1;
    }
    assert s[..i] == s;
    return Ok((chunkMult, chunkValue));
  }

  lemma NoChunkYet(base: Base)
    ensures Power(base, 0) == 1
  {
  }

  lemma ChunkStep(s: string, i: nat, base: Base, chunkLen: nat)
    requires i < |s| <= chunkLen && Power(base, chunkLen) < BASE
    requires AllDigits(s[..i], base) && IsDigit(s[i], base)
    ensures AllDigits(s[..i + 1], base)
    ensures Positional(s[..i + 1], base) == Positional(s[..i], base) * base + DigitValue(s[i])
    ensures Power(base, i + 1) == Power(base, i) * base
    ensures Positional(s[..i + 1], base) < Power(base, i + 1) < BASE
  {
    hide Positional;
    assert s[..i + 1] == s[..i] + [s[i]];
    PositionalSnoc(s[..i], s[i], base);
    ChunkFits(base, i + 1, chunkLen);
    PositionalBound(s[..i + 1], base);
  }

  // ---------- Writing text ----------

  /** The canonical text of an integer: a minus sign if negative, then digits without leading zeros. */
  function Text(v: int, base: Base): (s: string)
  {
    if v < 0 then "-" + Digits(-v, base) else Digits(v, base)
  }

  /** What reading a text gives. */
  ghost function Reading(num: string, base: int): (r: Result<int>)
  {
    if base < 2 || base > 36 then Err(InvalidBase)
    else if SignLength(num) == |num| then Err(ExpectedInteger)
    else if !AllDigits(Unsigned(num), base) then Err(InvalidDigit)
    else Ok(Signed(num[0] == '-', Positional(Unsigned(num), base)))
  }

  /** A minus negates what follows it, and a plus does not. */
  lemma SignsRead(digits: string, base: Base)
    requires digits != "" && AllDigits(digits, base)
    ensures Reading(digits, base) == Ok(Positional(digits, base))
    ensures Reading("+" + digits, base) == Ok(Positional(digits, base))
    ensures Reading("-" + digits, base) == Ok(0 - Positional(digits, base))
  {
    assert IsDigit(digits[0], base);
    NoSignIsDigit();
    hide Positional, IsDigit;
    assert ("+" + digits)[1..] == digits && ("-" + digits)[1..] == digits && digits[0..] == digits;
  }

  lemma NoSignIsDigit()
    ensures forall base: Base :: !IsDigit('-', base) && !IsDigit('+', base)
  {
  }

  /** A text begins with a minus exactly for a negative number, and never with a plus. */
  lemma TextSign(v: int, base: Base)
    ensures Text(v, base) != "" && (Text(v, base)[0] == '-' <==> v < 0) && Text(v, base)[0] != '+'
  {
    var digits := Digits(if v < 0 then -v else v, base);
    assert IsDigit(digits[0], base);
    NoSignIsDigit();
    hide Digits, IsDigit;
  }

  /** Every integer is read back from its own text, in every base. */
  lemma TextRoundTrip(v: int, base: Base)
    ensures Reading(Text(v, base), base) == Ok(v)
  {
    var n: nat := if v < 0 then -v else v;
    var digits := Digits(n, base);
    DigitsRoundTrip(n, base);
    assert IsDigit(digits[0], base);
    assert Unsigned(Text(v, base)) == digits;
  }

  /** Distinct integers have distinct texts, and no text has a leading zero unless it is the number 0. */
  lemma TextCanonical(v: int, w: int, base: Base)
    ensures Text(v, base) == Text(w, base) <==> v == w
    ensures Unsigned(Text(v, base))[0] == '0' ==> v == 0 && Text(v, base) == "0"
  {
    TextRoundTrip(v, base);
    TextRoundTrip(w, base);
    var digits := Digits(if v < 0 then -v else v, base);
    assert IsDigit(digits[0], base);
    assert Unsigned(Text(v, base)) == digits;
  }

  const CHUNK: limb := 10000000000000000000

  lemma ChunkIsPower()
    ensures Power(10, 19) == CHUNK
  {
    assert Power(10, 4) == 10000;
    PowerAdds(10, 4, 4);
    PowerAdds(10, 8, 8);
    assert Power(10, 3) == 1000;
    PowerAdds(10, 16, 3);
  }

  /** The number whose low chunks are given, least significant first, and whose rest is `top`. */
  ghost function FromChunks(chunks: seq<limb>, top: nat): (v: nat)
  {
    if chunks == [] then top else chunks[0] + CHUNK * FromChunks(chunks[1..], top)
  }

  lemma {:induction false} FromChunksPush(chunks: seq<limb>, q: nat, c: limb)
    ensures FromChunks(chunks + [c], q) == FromChunks(chunks, q * CHUNK + c)
  {
    if chunks == [] {
      assert (chunks + [c])[1..] == [];
    } else {
      assert (chunks + [c])[1..] == chunks[1..] + [c];
      FromChunksPush(chunks[1..], q, c);
    }
  }

  /** Prepending a chunk appends exactly 19 digits. */
  lemma ChunkDigits(chunks: seq<limb>, i: nat, part: string)
    requires i < |chunks| && chunks[i] < CHUNK && FromChunks(chunks[i + 1..], 0) > 0
    requires part == Digits(chunks[i], 10)
    ensures |part| <= 19 && FromChunks(chunks[i..], 0) > 0
    ensures Digits(FromChunks(chunks[i..], 0), 10) == Digits(FromChunks(chunks[i + 1..], 0), 10) + (Zeros(19 - |part|) + part)
  {
    hide Digits;
    assert chunks[i..][1..] == chunks[i + 1..];
    ChunkIsPower();
    PaddedDigits(chunks[i], 10, 19);
    DigitsInParts(FromChunks(chunks[i..], 0), FromChunks(chunks[i + 1..], 0), chunks[i], 10, 19);
  }

  /** The loop that appends 19 digits for every chunk below the top one. */
  method PrintChunks(chunks: seq<limb>) returns (s: string)
    requires chunks != [] && chunks[|chunks| - 1] > 0
    requires forall i :: 0 <= i < |chunks| ==> chunks[i] < CHUNK
    ensures s == Digits(FromChunks(chunks, 0), 10)
  {
    hide Digits, FromChunks;
    var i := |chunks| - 1;
    SingleChunk(chunks);
    s := Digits(chunks[i], 10);
    while i > 0
      invariant 0 <= i < |chunks|
      invariant FromChunks(chunks[i..], 0) > 0 && s == Digits(FromChunks(chunks[i..], 0), 10)
    {
      i := i - 1;
      var part := Digits(chunks[i], 10);
      ChunkDigits(chunks, i, part);
      s := s + (Zeros(19 - |part|) + part);
    }
    assert chunks[0..] == chunks;
  }

  lemma SingleChunk(chunks: seq<limb>)
    requires chunks != []
    ensures FromChunks(chunks[|chunks| - 1..], 0) == chunks[|chunks| - 1]
  {
    assert chunks[|chunks| - 1..] == [chunks[|chunks| - 1]];
  }

  /** The loop that peels 19 decimal digits at a time off the magnitude. */
  method PeelChunks(limbs: seq<limb>) returns (chunks: seq<limb>)
    requires Canonical(limbs) && limbs != []
    ensures chunks != [] && FromChunks(chunks, 0) == Val(limbs)
    ensures chunks[|chunks| - 1] > 0
    ensures forall i :: 0 <= i < |chunks| ==> chunks[i] < CHUNK
  {
    var mag := limbs;
    chunks := [];
    while mag != []
      invariant Canonical(mag) && (chunks == [] ==> mag == limbs)
      invariant FromChunks(chunks, Val(mag)) == Val(limbs)
      invariant forall i :: 0 <= i < |chunks| ==> chunks[i] < CHUNK
      invariant mag == [] ==> chunks != [] && chunks[|chunks| - 1] > 0
      decreases Val(mag)
    {
      var quotient, rem := DivByLimb(mag, CHUNK);
      ZeroIsEmpty(mag);
      var rest := Trim(quotient);
      ZeroIsEmpty(rest);
      FromChunksPush(chunks, Val(rest), rem);
      mag := rest;
      chunks := chunks + [rem];
    }
  }

  // ---------- Bits ----------

  /** Above bit `bit` of `x`, and above all of `x`, `prefix` has been written; or nothing, if the next bit is the top one. */
  ghost predicate EmittedBits(x: limb, high: nat, bit: int, prefix: nat)
    requires -1 <= bit <= 63
  {
    && prefix == high * Pow2(63 - bit) + x / Pow2(bit + 1)
    && (prefix == 0 ==> bit >= 0 && x / Pow2(bit) == 1)
  }

  /** The bits of a number without leading zeros; none for zero. */
  ghost function BitsOf(n: nat): string {
    if n == 0 then "" else Digits(n, 2)
  }

  /** Bit by bit from the top set bit of the top limb down. */
  method MagnitudeBits(limbs: seq<limb>) returns (s: string)
    requires Canonical(limbs) && limbs != []
    ensures s == BitsOf(Val(limbs))
  {
    hide Digits, Pow2, BitsOf, CountLeadingZeros, Val;
    NoBitsYet(limbs);
    s := "";
    var i := |limbs|;
    var bit := 63 - CountLeadingZeros(limbs[i - 1]);
    while i > 0
      invariant 0 <= i <= |limbs| && s == BitsOf(Val(limbs[i..]))
      invariant if i == |limbs| then bit == 63 - CountLeadingZeros(limbs[i - 1]) else bit == 63 && Val(limbs[i..]) > 0
    {
      i := i - 1;
      assert limbs[i..] == [limbs[i]] + limbs[i + 1..];
      ValCons(limbs[i], limbs[i + 1..]);
      var bits := LimbBits(limbs[i], bit, Val(limbs[i + 1..]));
      s := s + bits;
      bit := 63;
    }
    assert limbs[0..] == limbs;
  }

  lemma NoBitsYet(limbs: seq<limb>)
    ensures limbs[|limbs|..] == [] && Val([]) == 0 && BitsOf(0) == ""
  {
  }

  lemma BitsAreText(n: nat, negative: bool)
    requires n > 0
    ensures (if negative then "-" else "") + BitsOf(n) == Text(Signed(negative, n), 2)
  {
    assert "" + Digits(n, 2) == Digits(n, 2);
  }

  /** The bits of one limb from `bit` down, below the bits of `high`. */
  method LimbBits(x: limb, start: nat, ghost high: nat) returns (s: string)
    requires start <= 63 && (high > 0 ==> start == 63)
    requires high == 0 ==> x > 0 && start == 63 - CountLeadingZeros(x)
    ensures x + BASE * high > 0 && BitsOf(x + BASE * high) == BitsOf(high) + s
  {
    hide EmittedBits, CountLeadingZeros, Pow2, BitsOf;
    s := "";
    var bit: int := start;
    ghost var prefix: nat := high;
    FirstBit(x, high, start);
    while bit >= 0
      invariant -1 <= bit <= 63
      invariant EmittedBits(x, high, bit, prefix)
      invariant BitsOf(prefix) == BitsOf(high) + s
    {
      var b := (x / Pow2(bit)) % 2;
      EmitBit(x, high, bit, prefix, b);
      s := s + (if b == 1 then "1" else "0");
      prefix := 2 * prefix + b;
      bit := bit - 1;
    }
    AllBits(x, high, prefix);
  }

  lemma FirstBit(x: limb, high: nat, bit: nat)
    requires bit <= 63 && (high > 0 ==> bit == 63)
    requires high == 0 ==> x > 0 && bit == 63 - CountLeadingZeros(x)
    ensures EmittedBits(x, high, bit, high)
  {
    Pow2Of64();
    if high == 0 {
      TopBitAlone(x, 63 - bit);
    } else {
      QuotientUnique(x, Pow2(64), 0, x);
    }
  }

  lemma TopBitAlone(x: limb, s: nat)
    requires s <= 63 && BASE <= 2 * (x * Pow2(s)) && x * Pow2(s) < BASE
    ensures x / Pow2(63 - s) == 1 && x / Pow2(64 - s) == 0
  {
    var t, p := Pow2(s), Pow2(63 - s);
    Pow2Adds(s, 63 - s);
    Pow2Of64();
    assert Pow2(64) == 2 * Pow2(63) && Pow2(64 - s) == 2 * p;
    TopBitArithmetic(x, t, p);
    QuotientUnique(x, p, 1, x - p);
    QuotientUnique(x, 2 * p, 0, x);
  }

  lemma TopBitArithmetic(x: int, t: int, p: int)
    requires 0 < t && 0 < p && t * p <= x * t < 2 * (t * p)
    ensures p <= x < 2 * p
  {
    if x < p {
      MulMonotone(x + 1, p, t);
      Distribute(x, 1, t);
    }
    if x >= 2 * p {
      MulMonotone(2 * p, x, t);
    }
  }

  lemma HalfQuotient(x: nat, p: nat)
    requires p > 0
    ensures x / p == 2 * (x / (2 * p)) + (x / p) % 2
  {
    var q, h, b := x / p, (x / p) / 2, (x / p) % 2;
    var r := x % p;
    assert x == q * p + r && q == 2 * h + b;
    HalfQuotientArithmetic(h, b, p);
    assert 0 <= b * p <= p;
    QuotientUnique(x, 2 * p, h, b * p + r);
  }

  lemma HalfQuotientArithmetic(h: int, b: int, p: int)
    requires 0 <= b <= 1 && 0 <= p
    ensures (2 * h + b) * p == h * (2 * p) + b * p && 0 <= b * p <= p
  {
  }

  lemma EmitBit(x: limb, high: nat, bit: nat, prefix: nat, b: nat)
    requires bit <= 63 && EmittedBits(x, high, bit, prefix) && b == (x / Pow2(bit)) % 2
    ensures EmittedBits(x, high, bit - 1, 2 * prefix + b)
    ensures BitsOf(2 * prefix + b) == BitsOf(prefix) + (if b == 1 then "1" else "0")
  {
    assert Pow2(bit + 1) == 2 * Pow2(bit) && Pow2(64 - bit) == 2 * Pow2(63 - bit);
    hide Pow2, Digits;
    HalfQuotient(x, Pow2(bit));
    DoubleFactor(high, Pow2(63 - bit));
    AppendBit(prefix, b);
  }

  lemma DoubleFactor(x: int, p: int)
    ensures x * (2 * p) == 2 * (x * p)
  {
  }

  lemma AppendBit(prefix: nat, b: nat)
    requires b <= 1 && (prefix == 0 ==> b == 1)
    ensures BitsOf(2 * prefix + b) == BitsOf(prefix) + (if b == 1 then "1" else "0")
  {
    assert (2 * prefix + b) / 2 == prefix && (2 * prefix + b) % 2 == b;
  }

  lemma AllBits(x: limb, high: nat, prefix: nat)
    requires EmittedBits(x, high, -1, prefix)
    ensures prefix == x + BASE * high && prefix > 0
  {
    Pow2Of64();
  }
}
