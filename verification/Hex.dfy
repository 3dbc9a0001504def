/** Bytes, digests, and their lower-case hex text. */
module Hex {
  import opened Numerals

  type byte = x: int | 0 <= x < 256

  type Digest = s: seq<byte> | |s| == 32 witness seq(32, _ => 0)

  /** The hash function is any function from byte strings to digests. */
  type Hash = seq<byte> -> Digest

  function HexOf(data: seq<byte>): (s: string)
    ensures |s| == 2 * |data| && AllDigits(s, 16)
  {
    if data == [] then ""
    else [DigitChar(data[0] / 16), DigitChar(data[0] % 16)] + HexOf(data[1..])
  }

  /** Byte after byte, the high half first. */
  lemma {:induction false} HexBytewise(data: seq<byte>, i: nat)
    requires i < |data|
    ensures
      var digits := "0123456789abcdef";
      HexOf(data)[2 * i] == digits[data[i] / 16] && HexOf(data)[2 * i + 1] == digits[data[i] % 16]
  {
    if i > 0 {
      HexBytewise(data[1..], i - 1);
    } else {
      SixteenDigits(data[0] / 16);
      SixteenDigits(data[0] % 16);
    }
  }

  lemma SixteenDigits(d: int)
    requires 0 <= d < 16
    ensures DigitChar(d) == "0123456789abcdef"[d]
  {
  }

  function PackHex(hex: string): (data: seq<byte>)
    requires |hex| % 2 == 0 && AllDigits(hex, 16)
    ensures 2 * |data| == |hex|
  {
    if hex == "" then []
    else [DigitValue(hex[0]) * 16 + DigitValue(hex[1])] + PackHex(hex[2..])
  }

  lemma {:induction false} PackOfHex(data: seq<byte>)
    ensures PackHex(HexOf(data)) == data
  {
    if data != [] {
      var s := HexOf(data);
      assert s[2..] == HexOf(data[1..]);
      PackOfHex(data[1..]);
      assert data == [data[0]] + data[1..];
    }
  }

  /** Only the characters that digits are written with. */
  ghost predicate LowerCase(s: string) {
    AllDigits(s, 16) && forall i :: 0 <= i < |s| ==> s[i] == DigitChar(DigitValue(s[i]))
  }

  lemma {:induction false} HexOfPack(hex: string)
    requires |hex| % 2 == 0 && LowerCase(hex)
    ensures HexOf(PackHex(hex)) == hex
  {
    if hex != "" {
      HexOfPack(hex[2..]);
      var rest := PackHex(hex[2..]);
      var high, low := DigitValue(hex[0]), DigitValue(hex[1]);
      assert ([high * 16 + low] + rest)[1..] == rest;
      hide DigitValue, DigitChar;
      assert (high * 16 + low) / 16 == high && (high * 16 + low) % 16 == low;
      assert hex == [hex[0], hex[1]] + hex[2..];
    }
  }

  lemma {:induction false} HexIsLowerCase(data: seq<byte>)
    ensures LowerCase(HexOf(data))
  {
    if data != [] {
      HexIsLowerCase(data[1..]);
    }
  }

  /** Distinct byte strings have distinct hex text. */
  lemma HexInjective(a: seq<byte>, b: seq<byte>)
    requires HexOf(a) == HexOf(b)
    ensures a == b
  {
    PackOfHex(a);
    PackOfHex(b);
  }
}
