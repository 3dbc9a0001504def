/**
 Fixed-width encodings of numbers and the 33-byte compressed form of points: the round
 trips, and exactly which keys decompress.
 */
module PointCodec {
  import opened Arith
  import opened Modular
  import opened Hex
  import opened Numerals
  import opened FieldPowers
  import opened Curves

  // ---------- 32-byte numbers ----------

  lemma {:induction false} FixedDigitsValue(n: nat, base: Base, k: nat)
    requires n < Power(base, k)
    ensures AllDigits(FixedDigits(n, base, k), base) && Positional(FixedDigits(n, base, k), base) == n
    decreases k
  {
    if k > 0 {
      var q, d := DropDigit(n, base, k);
      FixedDigitsValue(q, base, k - 1);
      PositionalSnoc(FixedDigits(q, base, k - 1), DigitChar(d), base);
    }
  }

  lemma DropDigit(n: nat, base: Base, k: nat) returns (q: nat, d: nat)
    requires k > 0 && n < Power(base, k)
    ensures d < base && n == q * base + d && q < Power(base, k - 1)
    ensures FixedDigits(n, base, k) == FixedDigits(q, base, k - 1) + [DigitChar(d)]
  {
    q, d := n / base, n % base;
    QuotientBelow(n, Power(base, k - 1), base);
  }

  lemma {:induction false} FixedIsLowerCase(n: nat, k: nat)
    ensures LowerCase(FixedDigits(n, 16, k))
  {
    if k > 0 {
      FixedIsLowerCase(n / 16, k - 1);
    }
  }

  lemma {:induction false} FixedOfPositional(s: string)
    requires LowerCase(s)
    ensures FixedDigits(Positional(s, 16), 16, |s|) == s
  {
    if s != "" {
      var rest := s[..|s| - 1];
      FixedOfPositional(rest);
      assert s == rest + [s[|s| - 1]];
    }
  }

  /** The hex text the original builds: no digits for a negative number, padded to 64. */
  function PaddedHex(num: int): (s: string)
    ensures |s| >= 64 && AllDigits(s, 16)
  {
    var hex := if num < 0 then "" else Digits(num, 16);
    Zeros(if |hex| < 64 then 64 - |hex| else 0) + hex
  }

  /** The first 32 bytes of the padded hex. */
  function Bytes32(num: int): (data: seq<byte>)
    ensures |data| == 32
  {
    PackHex(PaddedHex(num)[..64])
  }

  function FromBytes(data: seq<byte>): nat {
    Positional(HexOf(data), 16)
  }

  const LIMIT: int := 0x1_0000_0000_0000_0000_0000_0000_0000_0000_0000_0000_0000_0000_0000_0000_0000_0000

  lemma LimitIsPower(k: nat)
    requires k == 64
    ensures Power(16, k) == LIMIT
  {
    assert Power(16, 4) == 0x1_0000;
    PowerAdds(16, 4, 4);
    PowerAdds(16, 8, 8);
    PowerAdds(16, 16, 16);
    PowerAdds(16, 32, 32);
  }

  /** Writing 32 bytes keeps the number exactly when it is not negative and fits. */
  lemma BytesRoundTrip(num: int)
    ensures FromBytes(Bytes32(num)) == num <==> 0 <= num < LIMIT
  {
    if 0 <= num < LIMIT {
      var k := 64;
      LimitIsPower(k);
      PaddedDigits(num, 16, k);
      var hex := FixedDigits(num, 16, k);
      assert PaddedHex(num) == hex && hex[..64] == hex;
      FixedIsLowerCase(num, k);
      HexOfPack(hex);
      FixedDigitsValue(num, 16, k);
    } else {
      FromBytesBound(Bytes32(num));
    }
  }

  /** The number is big-endian: each further byte is worth 1 and raises the ones before it 256-fold. */
  lemma FromBytesIsBigEndian(data: seq<byte>, x: byte)
    ensures FromBytes([]) == 0 && FromBytes(data + [x]) == 256 * FromBytes(data) + x
  {
    HexOfConcat(data, [x]);
    assert HexOf([x]) == [DigitChar(x / 16)] + [DigitChar(x % 16)];
    assert HexOf(data + [x]) == (HexOf(data) + [DigitChar(x / 16)]) + [DigitChar(x % 16)];
    PositionalSnoc(HexOf(data), DigitChar(x / 16), 16);
    PositionalSnoc(HexOf(data) + [DigitChar(x / 16)], DigitChar(x % 16), 16);
  }

  lemma {:induction false} HexOfConcat(a: seq<byte>, b: seq<byte>)
    ensures HexOf(a + b) == HexOf(a) + HexOf(b)
  {
    if a == [] {
      assert a + b == b;
    } else {
      assert (a + b)[1..] == a[1..] + b;
      HexOfConcat(a[1..], b);
    }
  }

  lemma FromBytesBound(data: seq<byte>)
    requires |data| == 32
    ensures FromBytes(data) < LIMIT
  {
    LimitIsPower(|HexOf(data)|);
    PositionalBound(HexOf(data), 16);
  }

  lemma NumberRoundTrip(data: seq<byte>)
    requires |data| == 32
    ensures Bytes32(FromBytes(data)) == data
  {
    var hex := HexOf(data);
    var n := FromBytes(data);
    FromBytesBound(data);
    LimitIsPower(|hex|);
    PaddedDigits(n, 16, |hex|);
    HexIsLowerCase(data);
    FixedOfPositional(hex);
    assert PaddedHex(n) == hex && hex[..64] == hex;
    PackOfHex(data);
  }

  /** Numbers outside the range: a negative one is written as zero, one that is too large by its leading 64 hex digits. */
  lemma OutOfRangeBytes(num: int)
    ensures num < 0 ==> FromBytes(Bytes32(num)) == 0
    ensures num >= LIMIT ==>
      exists k :: k > 0 && FromBytes(Bytes32(num)) * Power(16, k) <= num < (FromBytes(Bytes32(num)) + 1) * Power(16, k)
  {
    if num < 0 {
      var hex := PaddedHex(num)[..64];
      assert hex == Zeros(64);
      ZerosAreZero(64);
      HexOfPadded(num);
    }
    if num >= LIMIT {
      TopDigits(num);
    }
  }

  lemma {:induction false} ZerosAreZero(k: nat)
    ensures AllDigits(Zeros(k), 16) && Positional(Zeros(k), 16) == 0
  {
    if k > 0 {
      ZerosAreZero(k - 1);
      ZeroDigit();
      assert Zeros(k) == Zeros(k - 1) + ['0'];
      hide *;
      PositionalSnoc(Zeros(k - 1), '0', 16);
    }
  }

  lemma ZeroDigit()
    ensures IsDigit('0', 16) && DigitValue('0') == 0
  {
  }

  lemma HexOfPadded(num: int)
    ensures HexOf(Bytes32(num)) == PaddedHex(num)[..64]
  {
    PaddedIsLowerCase(num);
    HexOfPack(PaddedHex(num)[..64]);
  }

  lemma PaddedIsLowerCase(num: int)
    ensures LowerCase(PaddedHex(num)[..64])
  {
    if num >= 0 {
      DigitsLowerCase(num);
    }
    var hex := PaddedHex(num);
    assert forall i :: 0 <= i < |hex| ==> hex[i] == DigitChar(DigitValue(hex[i]));
  }

  lemma {:induction false} DigitsLowerCase(n: nat)
    ensures LowerCase(Digits(n, 16))
  {
    if n >= 16 {
      DigitsLowerCase(n / 16);
    }
  }

  lemma LongDigits(num: int)
    requires num >= LIMIT
    ensures |Digits(num, 16)| > 64
  {
    var digits := Digits(num, 16);
    DigitsRoundTrip(num, 16);
    PositionalBound(digits, 16);
    LimitIsPower(64);
    hide Digits, Positional, Power;
    if |digits| <= 64 {
      PowerGrows(|digits|, 64);
    }
  }

  lemma TopDigits(num: int)
    requires num >= LIMIT
    ensures exists k :: k > 0 && FromBytes(Bytes32(num)) * Power(16, k) <= num < (FromBytes(Bytes32(num)) + 1) * Power(16, k)
  {
    hide Digits, Positional, Power, HexOf, Bytes32, LIMIT;
    NonNegative(num);
    var digits := Digits(num, 16);
    LongDigits(num);
    var top, low := digits[..64], digits[64..];
    assert digits == top + low;
    assert PaddedHex(num) == digits by {
      assert Zeros(0) + digits == digits;
    }
    HexOfPadded(num);
    DigitsRoundTrip(num, 16);
    PositionalConcat(top, low, 16);
    PositionalBound(low, 16);
    TopProduct(FromBytes(Bytes32(num)), Power(16, |low|));
    assert |low| > 0;
  }

  lemma NonNegative(num: int)
    requires num >= LIMIT
    ensures num >= 0
  {
  }

  lemma TopProduct(t: int, p: int)
    ensures (t + 1) * p == t * p + p
  {
  }

  lemma {:induction false} PowerGrows(i: nat, j: nat)
    requires i <= j
    ensures Power(16, i) <= Power(16, j)
  {
    if i < j {
      PowerGrows(i, j - 1);
    }
  }

  /** The loop that peels hex digits off the low end; a negative number has none. */
  method HexText(num: int) returns (hex: string)
    ensures hex == if num < 0 then "" else Digits(num, 16)
  {
    hex := "";
    if num == 0 {
      hex := "0";
    } else {
      var temp := num;
      assert num > 0 ==> Digits(num, 16) == Digits(num, 16) + "";
      while temp > 0
        invariant num < 0 ==> temp == num && hex == ""
        invariant num > 0 ==> temp >= 0 && Digits(num, 16) == (if temp == 0 then "" else Digits(temp, 16)) + hex
      {
        HexPeel(temp, hex);
        hex := [DigitChar(temp % 16)] + hex;
        temp := temp / 16;
      }
    }
  }

  lemma HexPeel(temp: nat, hex: string)
    requires temp > 0
    ensures Digits(temp, 16) + hex == (if temp / 16 == 0 then "" else Digits(temp / 16, 16)) + ([DigitChar(temp % 16)] + hex)
  {
  }

  /** The loop that pads with zeros on the left. */
  method PadHex(digits: string) returns (hex: string)
    ensures hex == Zeros(if |digits| < 64 then 64 - |digits| else 0) + digits
  {
    hex := digits;
    ghost var k := 0;
    while |hex| < 64
      invariant hex == Zeros(k) + digits && (k > 0 ==> |hex| <= 64)
      decreases 64 - |hex|
    {
      ZerosCons(k);
      assert "0" + (Zeros(k) + digits) == ("0" + Zeros(k)) + digits;
      hex := "0" + hex;
      k := k + 1;
    }
  }

  /** Writes the 32 bytes in place: hex digits, padded, and paired up. */
  method BigIntToBytes32(num: int, output: array<byte>, offset: nat)
    requires offset + 32 <= output.Length
    modifies output
    ensures forall k :: 0 <= k < output.Length && !(offset <= k < offset + 32) ==> output[k] == old(output[k])
    ensures output[offset..offset + 32] == Bytes32(num)
  {
    var digits := HexText(num);
    var hex := PadHex(digits);
    assert hex == PaddedHex(num);
    WriteHex(hex[..64], output, offset);
  }

  /** The loop that pairs hex digits up into bytes. */
  method WriteHex(hex: string, output: array<byte>, offset: nat)
    requires |hex| == 64 && AllDigits(hex, 16) && offset + 32 <= output.Length
    modifies output
    ensures forall k :: 0 <= k < output.Length && !(offset <= k < offset + 32) ==> output[k] == old(output[k])
    ensures output[offset..offset + 32] == PackHex(hex)
  {
    hide PackHex, DigitValue;
    var i := 0;
    EmptyPack(hex);
    while i < 32
      invariant 0 <= i <= 32
      invariant forall k :: 0 <= k < output.Length && !(offset <= k < offset + i) ==> output[k] == old(output[k])
      invariant output[offset..offset + i] == PackHex(hex[..2 * i])
    {
      var c, d := hex[2 * i], hex[2 * i + 1];
      PackSnoc(hex[..2 * i], c, d);
      assert hex[..2 * (i + 1)] == hex[..2 * i] + [c, d];
      ghost var before := output[offset..offset + i];
      output[offset + i] := DigitValue(c) * 16 + DigitValue(d);
      assert output[offset..offset + (i + 1)] == before + [output[offset + i]];
      i := i + 1;
    }
    assert hex[..64] == hex;
  }

  lemma EmptyPack(hex: string)
    ensures hex[..0] == "" && PackHex("") == []
  {
  }

  lemma {:induction false} ZerosCons(k: nat)
    ensures "0" + Zeros(k) == Zeros(k + 1)
  {
    if k > 0 {
      ZerosCons(k - 1);
      assert "0" + (Zeros(k - 1) + "0") == ("0" + Zeros(k - 1)) + "0";
    }
  }

  lemma {:induction false} PackSnoc(hex: string, c: char, d: char)
    requires |hex| % 2 == 0 && AllDigits(hex, 16) && IsDigit(c, 16) && IsDigit(d, 16)
    ensures AllDigits(hex + [c, d], 16)
    ensures PackHex(hex + [c, d]) == PackHex(hex) + [DigitValue(c) * 16 + DigitValue(d)]
  {
    if hex != "" {
      PackSnoc(hex[2..], c, d);
      assert (hex + [c, d])[2..] == hex[2..] + [c, d];
    } else {
      assert hex + [c, d] == [c, d];
    }
  }

  // ---------- Compressed points ----------

  const EVEN_PREFIX: byte := 2
  const ODD_PREFIX: byte := 3

  function Compress(pt: Point): (key: seq<byte>)
    ensures |key| == 33
  {
    if pt.infinite then seq(33, _ => 0)
    else [if pt.y % 2 == 0 then EVEN_PREFIX else ODD_PREFIX] + Bytes32(pt.x)
  }

  /** Infinity stands for a key that is not a point; the cubic is taken without its linear term. */
  function Decompress(key: seq<byte>, c: Curve): Point
    requires |key| == 33 && c.p > 0
  {
    if key[0] != EVEN_PREFIX && key[0] != ODD_PREFIX then Infinity(c)
    else
      var x := FromBytes(key[1..]);
      if x >= c.p then Infinity(c)
      else
        var ySquared := ((x * x * x) % c.p + c.b) % c.p;
        var y := ModSqrt(ySquared, c.p);
        if y == 0 && ySquared != 0 then Infinity(c)
        else
          Finite(x, WithParity(y, key[0] == EVEN_PREFIX, c.p), c)
  }

  /** The root of the requested parity. */
  function WithParity(y: int, needEven: bool, p: int): int {
    var isEven := y % 2 == 0;
    if isEven != needEven then p - y else y
  }

  /** What the codec needs of the curve: no linear term, and a prime field with roots by exponentiation. */
  ghost predicate CodecCurve(c: Curve) {
    c.a == 0 && Prime(c.p) && c.p % 4 == 3 && c.p < LIMIT
  }

  lemma ReducedCubic(x: int, c: Curve)
    requires c.a == 0 && c.p > 0
    ensures ((x * x * x) % c.p + c.b) % c.p == Cubic(x, c) % c.p
  {
    ModMod(x * x * x, c.p);
    ModAdd((x * x * x) % c.p, x * x * x, c.b, c.b, c.p);
  }

  /** The root that is found, and its negation, both square to the cubic. */
  lemma RootOnCurve(x: int, y: int, c: Curve)
    requires CodecCurve(c)
    requires var s := Cubic(x, c) % c.p; y == ModSqrt(s, c.p) && (y != 0 || s == 0)
    ensures 0 <= y < c.p && SatisfiesCurve(x, y, c) && SatisfiesCurve(x, c.p - y, c)
  {
    var p := c.p;
    var s := Cubic(x, c) % p;
    if y != 0 {
      SqrtSquares(s, p);
      ModMod(Cubic(x, c), p);
    } else {
      SmallMod(0, p);
    }
    OppositeSquare(y, p);
  }

  lemma OppositeSquare(y: int, p: int)
    requires p > 0
    ensures ((p - y) * (p - y)) % p == (y * y) % p
  {
    assert (p - y) * (p - y) == y * y + (p - 2 * y) * p;
    ModShift(y * y, p - 2 * y, p);
  }

  /**
   A decompressed point is on the curve with the parity the prefix asks for. It is reduced
   except when the odd form of a zero ordinate was asked for, which gives the modulus.
   */
  lemma DecompressedOnCurve(key: seq<byte>, c: Curve)
    requires |key| == 33 && CodecCurve(c) && !Decompress(key, c).infinite
    ensures
      var pt := Decompress(key, c);
      && pt.curve == c && pt.x == FromBytes(key[1..]) && 0 <= pt.x < c.p && 0 <= pt.y <= c.p
      && SatisfiesCurve(pt.x, pt.y, c)
      && (key[0] == 2 || key[0] == 3) && (pt.y % 2 == 0 <==> key[0] == 2)
      && (pt.y == c.p <==> Cubic(pt.x, c) % c.p == 0 && key[0] == 3)
  {
    OddField(c);
    hide Cubic, ModSqrt, FromBytes, SatisfiesCurve, Prime, Decompress, WithParity;
    var x := FromBytes(key[1..]);
    ReducedCubic(x, c);
    ZeroRoot(c.p);
    var y := ModSqrt(Cubic(x, c) % c.p, c.p);
    DecompressUnfold(key, x, y, c);
    RootOnCurve(x, y, c);
    ParityChosen(y, key[0] == EVEN_PREFIX, c.p);
  }

  lemma OddField(c: Curve)
    requires CodecCurve(c)
    ensures c.p > 2 && c.p % 2 == 1
  {
  }

  lemma ParityChosen(y: int, needEven: bool, p: int)
    requires 0 <= y < p && p % 2 == 1
    ensures var z := WithParity(y, needEven, p);
      (z == y || z == p - y) && (z % 2 == 0 <==> needEven) && (z == p <==> y == 0 && !needEven)
  {
  }

  lemma DecompressUnfold(key: seq<byte>, x: int, y: int, c: Curve)
    requires |key| == 33 && c.p > 0 && x == FromBytes(key[1..]) && !Decompress(key, c).infinite
    requires y == ModSqrt(((x * x * x) % c.p + c.b) % c.p, c.p)
    ensures x < c.p && (key[0] == EVEN_PREFIX || key[0] == ODD_PREFIX)
    ensures y != 0 || ((x * x * x) % c.p + c.b) % c.p == 0
    ensures Decompress(key, c) == Finite(x, WithParity(y, key[0] == EVEN_PREFIX, c.p), c)
  {
    hide ModSqrt, WithParity, FromBytes;
  }

  lemma ZeroRoot(p: int)
    requires p > 0
    ensures ModSqrt(0, p) == 0
  {
  }

  /** A key is a point exactly when its prefix is one of the two, its abscissa is reduced, and a root exists. */
  lemma DecompressesExactly(key: seq<byte>, c: Curve)
    requires |key| == 33 && CodecCurve(c)
    ensures !Decompress(key, c).infinite <==>
      && (key[0] == 2 || key[0] == 3) && FromBytes(key[1..]) < c.p
      && exists y :: SatisfiesCurve(FromBytes(key[1..]), y, c)
  {
    var x := FromBytes(key[1..]);
    var s := Cubic(x, c) % c.p;
    ReducedCubic(x, c);
    if !Decompress(key, c).infinite {
      DecompressedOnCurve(key, c);
    } else if exists y :: SatisfiesCurve(x, y, c) {
      var y :| SatisfiesCurve(x, y, c);
      ModMod(Cubic(x, c), c.p);
      if s != 0 {
        assert IsRoot(y, s, c.p);
        SqrtComplete(s, c.p);
      }
    }
  }

  /** Compressing what a key decompresses to gives the key back. */
  lemma CompressOfDecompress(key: seq<byte>, c: Curve)
    requires |key| == 33 && CodecCurve(c) && !Decompress(key, c).infinite
    ensures Compress(Decompress(key, c)) == key
  {
    DecompressedOnCurve(key, c);
    hide Decompress, CodecCurve, SatisfiesCurve, Bytes32, FromBytes;
    NumberRoundTrip(key[1..]);
    assert key == [key[0]] + key[1..];
  }

  /** Decompressing a compressed point gives the point back, for every finite reduced point of the curve. */
  lemma DecompressOfCompress(pt: Point, c: Curve)
    requires CodecCurve(c) && OnCurve(pt, c) && !pt.infinite
    ensures Decompress(Compress(pt), c) == pt
  {
    var key := Compress(pt);
    CompressedParts(pt);
    hide Compress, Decompress, FromBytes, Bytes32, Cubic, Prime, SatisfiesCurve;
    BytesRoundTrip(pt.x);
    DecompressesExactly(key, c);
    DecompressedOnCurve(key, c);
    SameRoot(pt.x, pt.y, Decompress(key, c).y, c);
  }

  lemma SameRoot(x: int, y: int, z: int, c: Curve)
    requires CodecCurve(c) && 0 <= y < c.p && 0 <= z <= c.p && y % 2 == z % 2
    requires SatisfiesCurve(x, y, c) && SatisfiesCurve(x, z, c)
    ensures y == z
  {
    OddField(c);
    hide Prime, Cubic;
    SameParityRoot(y, z, c.p);
  }

  lemma CompressedParts(pt: Point)
    requires !pt.infinite
    ensures var key := Compress(pt);
      && key[1..] == Bytes32(pt.x) && (key[0] == 2 || key[0] == 3)
      && (pt.y % 2 == 0 <==> key[0] == 2)
  {
    assert Compress(pt)[1..] == Bytes32(pt.x);
  }

  /** The square and the parity determine a residue, the modulus itself apart. */
  lemma SameParityRoot(y: int, z: int, p: int)
    requires Prime(p) && p % 2 == 1 && 0 <= y < p && 0 <= z <= p
    requires (y * y) % p == (z * z) % p && y % 2 == z % 2
    ensures y == z
  {
    if z == p {
      ModShift(0, p, p);
      EuclidsLemma(y, y, p);
      SmallMod(y, p);
    } else if y != z {
      OppositeRoots(y, z, p);
    }
  }
}
