/** The wire format of peer messages: big-endian codecs, serialization and its inverse. */
module Wire {
  import opened Arith
  import opened Hex

  type int64 = x: int | -0x8000_0000_0000_0000 <= x < 0x8000_0000_0000_0000

  const MAGIC_NUMBER: int := 0x424C4B43
  const HEADER_SIZE: nat := 19
  const MAX_PAYLOAD_SIZE: nat := 10 * 1024 * 1024
  const MAX_SENDER_ID_SIZE: nat := 0xFFFF

  datatype Message = Message(kind: byte, payload: seq<byte>, sender: seq<byte>, timestamp: int64)

  datatype WireError = SenderTooLong | TooShort | BadMagic | PayloadTooLarge | IncompleteSender | IncompletePayload
  datatype Outcome<+T> = Ok(value: T) | Err(error: WireError)

  // ---------- Big-endian integers ----------

  /** The low `k` bytes of `v`, most significant first. */
  function BigEndian(v: nat, k: nat): (s: seq<byte>)
    ensures |s| == k
  {
    if k == 0 then [] else BigEndian(v / 256, k - 1) + [v % 256]
  }

  function FromBigEndian(s: seq<byte>): nat {
    if s == [] then 0 else FromBigEndian(s[..|s| - 1]) * 256 + s[|s| - 1]
  }

  lemma {:induction false} BigEndianRoundTrip(v: nat, k: nat)
    requires v < Power(256, k)
    ensures FromBigEndian(BigEndian(v, k)) == v
    decreases k
  {
    if k > 0 {
      BigEndianRoundTrip(v / 256, k - 1);
      assert BigEndian(v, k)[..k - 1] == BigEndian(v / 256, k - 1);
    }
  }

  lemma {:induction false} FromBigEndianRoundTrip(s: seq<byte>)
    ensures FromBigEndian(s) < Power(256, |s|)
    ensures BigEndian(FromBigEndian(s), |s|) == s
  {
    if s != [] {
      FromBigEndianRoundTrip(s[..|s| - 1]);
      assert s == s[..|s| - 1] + [s[|s| - 1]];
    }
  }

  lemma ByteLimits()
    ensures Power(256, 2) == 0x1_0000 && Power(256, 4) == 0x1_0000_0000
    ensures Power(256, 8) == 0x1_0000_0000_0000_0000
  {
    PowerAdds(256, 2, 2);
    PowerAdds(256, 4, 4);
  }

  /** The shifts and masks of the original, for four bytes. */
  function ReadU32BE(p: seq<byte>): (v: nat)
    requires |p| >= 4
  {
    var a: nat, b: nat, c: nat, d: nat := p[0], p[1], p[2], p[3];
    a * 0x100_0000 + b * 0x1_0000 + c * 0x100 + d
  }

  function ReadU16BE(p: seq<byte>): (v: nat)
    requires |p| >= 2
  {
    var a: nat, b: nat := p[0], p[1];
    a * 0x100 + b
  }

  lemma ReadsAreBigEndian(p: seq<byte>)
    ensures |p| >= 4 ==> ReadU32BE(p) == FromBigEndian(p[..4])
    ensures |p| >= 2 ==> ReadU16BE(p) == FromBigEndian(p[..2])
  {
    if |p| >= 2 {
      FromTwo(p[..2]);
    }
    if |p| >= 4 {
      var q := p[..4];
      FromTwo(q[..2]);
      assert q[..3][..2] == q[..2];
      assert FromBigEndian(q[..3]) == FromBigEndian(q[..2]) * 256 + q[2];
    }
  }

  lemma FromTwo(q: seq<byte>)
    requires |q| == 2
    ensures FromBigEndian(q) == 256 * (q[0] as int) + q[1]
  {
    assert q[..1] == [q[0]];
    assert [q[0]][..0] == [];
    assert FromBigEndian([q[0]]) == FromBigEndian([]) * 256 + q[0];
  }

  /** Two's complement, as the casts between signed and unsigned 64-bit integers. */
  function ToBits(v: int64): (u: nat)
    ensures u < 0x1_0000_0000_0000_0000
  {
    if v < 0 then v + 0x1_0000_0000_0000_0000 else v
  }

  function FromBits(u: nat): int64
    requires u < 0x1_0000_0000_0000_0000
  {
    if u >= 0x8000_0000_0000_0000 then u - 0x1_0000_0000_0000_0000 else u
  }

  /** The loop that shifts a byte in at a time. */
  method ReadI64BE(p: seq<byte>) returns (v: int64)
    requires |p| >= 8
    ensures FromBigEndian(p[..8]) < 0x1_0000_0000_0000_0000 && v == FromBits(FromBigEndian(p[..8]))
  {
    var value: nat := 0;
    var i := 0;
    while i < 8
      invariant 0 <= i <= 8 && value == FromBigEndian(p[..i])
    {
      assert p[..i + 1][..i] == p[..i];
      value := value * 256 + p[i];
      i := i + 1;
    }
    FromBigEndianRoundTrip(p[..8]);
    ByteLimits();
    v := FromBits(value);
  }

  /** The loop that emits the byte at each shift, highest first. */
  method AppendI64BE(out: seq<byte>, value: int64) returns (result: seq<byte>)
    ensures result == out + BigEndian(ToBits(value), 8)
  {
    var bits := ToBits(value);
    result := out;
    var i := 8;
    while i > 0
      invariant 0 <= i <= 8
      invariant result + BigEndian(bits, i) == out + BigEndian(bits, 8)
    {
      BigEndianCons(bits, i);
      i := i - 1;
      result := result + [(bits / Power(256, i)) % 256];
    }
  }

  lemma {:induction false} BigEndianCons(v: nat, k: nat)
    requires k > 0
    ensures BigEndian(v, k) == [(v / Power(256, k - 1)) % 256] + BigEndian(v, k - 1)
  {
    if k > 1 {
      BigEndianCons(v / 256, k - 1);
      DivideTwice(v, Power(256, k - 2));
    }
  }

  lemma DivideTwice(v: nat, p: int)
    requires p > 0
    ensures (v / 256) / p == v / (256 * p)
  {
    var q, r := (v / 256) / p, (v / 256) % p;
    assert v / 256 == q * p + r;
    Associate(256, q, p);
    assert v == q * (256 * p) + (256 * r + v % 256);
    MulMonotone(r + 1, p, 256);
    QuotientUnique(v, 256 * p, q, 256 * r + v % 256);
  }

  // ---------- Messages ----------

  function FrameSize(m: Message): nat {
    HEADER_SIZE + |m.sender| + |m.payload|
  }

  /** The fixed part of a frame; the payload length is truncated to 32 bits. */
  function Header(m: Message): (s: seq<byte>)
    ensures |s| == HEADER_SIZE
  {
    BigEndian(MAGIC_NUMBER, 4) + [m.kind] + BigEndian(|m.payload| % 0x1_0000_0000, 4)
    + BigEndian(ToBits(m.timestamp), 8) + BigEndian(|m.sender| % 0x1_0000, 2)
  }

  function Encoded(m: Message): (s: seq<byte>)
    ensures |s| == FrameSize(m)
  {
    Header(m) + m.sender + m.payload
  }

  method Serialize(m: Message) returns (r: Outcome<seq<byte>>)
    ensures r == if |m.sender| > MAX_SENDER_ID_SIZE then Err(SenderTooLong) else Ok(Encoded(m))
  {
    if |m.sender| > MAX_SENDER_ID_SIZE {
      return Err(SenderTooLong);
    }
    var result := BigEndian(MAGIC_NUMBER, 4) + [m.kind] + BigEndian(|m.payload| % 0x1_0000_0000, 4);
    result := AppendI64BE(result, m.timestamp);
    result := result + BigEndian(|m.sender| % 0x1_0000, 2);
    var i := 0;
    while i < |m.sender|
      invariant 0 <= i <= |m.sender| && result == Header(m) + m.sender[..i]
    {
      result := result + [m.sender[i]];
      i := i + 1;
    }
    assert m.sender[..i] == m.sender;
    i := 0;
    while i < |m.payload|
      invariant 0 <= i <= |m.payload| && result == Header(m) + m.sender + m.payload[..i]
    {
      result := result + [m.payload[i]];
      i := i + 1;
    }
    assert m.payload[..i] == m.payload;
    return Ok(result);
  }

  /** The length fields of a header and the frame size they announce. */
  function AnnouncedPayload(data: seq<byte>): nat
    requires |data| >= HEADER_SIZE
  {
    ReadU32BE(data[5..])
  }

  function AnnouncedSender(data: seq<byte>): nat
    requires |data| >= HEADER_SIZE
  {
    ReadU16BE(data[17..])
  }

  /** What a byte string decodes to; bytes after the frame are ignored. */
  function Decoded(data: seq<byte>): Outcome<Message> {
    if |data| < HEADER_SIZE then Err(TooShort)
    else if ReadU32BE(data) != MAGIC_NUMBER then Err(BadMagic)
    else
      var payloadLen, senderLen := AnnouncedPayload(data), AnnouncedSender(data);
      if payloadLen > MAX_PAYLOAD_SIZE then Err(PayloadTooLarge)
      else if |data| < HEADER_SIZE + senderLen then Err(IncompleteSender)
      else if |data| < HEADER_SIZE + senderLen + payloadLen then Err(IncompletePayload)
      else
        var body := data[HEADER_SIZE..];
        Ok(Message(data[4], body[senderLen..senderLen + payloadLen], body[..senderLen], Timestamp(data)))
  }

  function Timestamp(data: seq<byte>): int64
    requires |data| >= HEADER_SIZE
  {
    FromBigEndianRoundTrip(data[9..17]);
    ByteLimits();
    FromBits(FromBigEndian(data[9..17]))
  }

  /** Field by field, in the original's order of checks. */
  method Deserialize(data: seq<byte>) returns (r: Outcome<Message>)
    ensures r == Decoded(data)
  {
    if |data| < HEADER_SIZE {
      return Err(TooShort);
    }
    var magic := ReadU32BE(data);
    if magic != MAGIC_NUMBER {
      return Err(BadMagic);
    }
    var kind := data[4];
    var len := ReadU32BE(data[5..]);
    if len > MAX_PAYLOAD_SIZE {
      return Err(PayloadTooLarge);
    }
    var timestamp := ReadI64BE(data[9..]);
    assert data[9..][..8] == data[9..17];
    var senderLen := ReadU16BE(data[17..]);
    if |data| < HEADER_SIZE + senderLen {
      return Err(IncompleteSender);
    }
    var sender := data[HEADER_SIZE..HEADER_SIZE + senderLen];
    var payloadStart := HEADER_SIZE + senderLen;
    if |data| < payloadStart + len {
      return Err(IncompletePayload);
    }
    var payload := data[payloadStart..payloadStart + len];
    assert data[HEADER_SIZE..][..senderLen] == sender && data[HEADER_SIZE..][senderLen..senderLen + len] == payload;
    return Ok(Message(kind, payload, sender, timestamp));
  }

  /** The header fields are read back from any byte string that starts with the header. */
  lemma HeaderFields(m: Message, data: seq<byte>)
    requires |m.sender| <= MAX_SENDER_ID_SIZE && |data| >= HEADER_SIZE && data[..HEADER_SIZE] == Header(m)
    ensures ReadU32BE(data) == MAGIC_NUMBER && data[4] == m.kind
    ensures AnnouncedPayload(data) == |m.payload| % 0x1_0000_0000 && AnnouncedSender(data) == |m.sender|
    ensures Timestamp(data) == m.timestamp
  {
    hide BigEndian, FromBigEndian, ReadU32BE, ReadU16BE;
    var h := data[..HEADER_SIZE];
    assert data[..4] == h[..4] == BigEndian(MAGIC_NUMBER, 4);
    assert data[4] == h[4] == m.kind;
    assert data[5..][..4] == h[5..9] == BigEndian(|m.payload| % 0x1_0000_0000, 4);
    assert data[9..17] == h[9..17] == BigEndian(ToBits(m.timestamp), 8);
    assert data[17..][..2] == h[17..19] == BigEndian(|m.sender|, 2);
    ReadsAreBigEndian(data);
    ReadsAreBigEndian(data[5..]);
    ReadsAreBigEndian(data[17..]);
    ByteLimits();
    BigEndianRoundTrip(MAGIC_NUMBER, 4);
    BigEndianRoundTrip(|m.payload| % 0x1_0000_0000, 4);
    BigEndianRoundTrip(ToBits(m.timestamp), 8);
    BigEndianRoundTrip(|m.sender|, 2);
  }

  /** A message whose sender fits survives the wire exactly when its payload is within the limit. */
  lemma MessageRoundTrip(m: Message, rest: seq<byte>)
    requires |m.sender| <= MAX_SENDER_ID_SIZE
    ensures Decoded(Encoded(m) + rest) == Ok(m) <==> |m.payload| <= MAX_PAYLOAD_SIZE
  {
    hide Header, Timestamp, AnnouncedPayload, AnnouncedSender, ReadU32BE;
    var data := Encoded(m) + rest;
    assert data[..HEADER_SIZE] == Header(m);
    HeaderFields(m, data);
    var body := data[HEADER_SIZE..];
    assert body == m.sender + m.payload + rest;
    assert body[..|m.sender|] == m.sender;
    if |m.payload| <= MAX_PAYLOAD_SIZE {
      assert body[|m.sender|..|m.sender| + |m.payload|] == m.payload;
    }
  }

  /** Whatever decodes is the start of what its message encodes to. */
  lemma DecodedEncodes(data: seq<byte>)
    requires Decoded(data).Ok?
    ensures
      var m := Decoded(data).value;
      FrameSize(m) <= |data| && Encoded(m) == data[..FrameSize(m)]
  {
    var m := Decoded(data).value;
    var body := data[HEADER_SIZE..];
    assert data[..FrameSize(m)] == data[..HEADER_SIZE] + body[..|m.sender|] + body[|m.sender|..|m.sender| + |m.payload|];
    HeaderRebuilt(data, m);
  }

  /**
   The frame on the wire, byte for byte: "BLKC", the type, the payload's length, the timestamp
   in two's complement and the sender's length, all with the most significant byte first, and
   then the sender and the payload.
   */
  lemma FrameLayout(m: Message)
    requires |m.sender| <= 65535 && |m.payload| < 0x1_0000_0000
    ensures
      var e := Encoded(m);
      && |e| == 19 + |m.sender| + |m.payload|
      && e[..5] == [0x42, 0x4C, 0x4B, 0x43, m.kind]
      && Weighted(e[5], e[6], e[7], e[8]) == |m.payload|
      && Weighted(e[9], e[10], e[11], e[12]) * 0x1_0000_0000 + Weighted(e[13], e[14], e[15], e[16])
         == m.timestamp as int % 0x1_0000_0000_0000_0000
      && Weighted(0, 0, e[17], e[18]) == |m.sender|
      && e[19..19 + |m.sender|] == m.sender && e[19 + |m.sender|..] == m.payload
  {
    hide BigEndian, FromBigEndian, ToBits, Weighted, Header;
    var e, h := Encoded(m), Header(m);
    HeaderLayout(m);
    MagicBytes();
    FourBytes(|m.payload|);
    EightBytes(ToBits(m.timestamp));
    TwoBytes(|m.sender|);
    BitsAreResidue(m.timestamp);
    assert e[..19] == h && e == h + m.sender + m.payload;
    assert e[..5] == h[..5];
    forall i | 0 <= i < 19
      ensures e[i] == h[i]
    {
      assert e[..19][i] == h[i];
    }
  }

  lemma HeaderLayout(m: Message)
    requires |m.sender| <= 65535 && |m.payload| < 0x1_0000_0000
    ensures
      var h, len, time, id := Header(m), BigEndian(|m.payload|, 4), BigEndian(ToBits(m.timestamp), 8), BigEndian(|m.sender|, 2);
      && h[..5] == BigEndian(MAGIC_NUMBER, 4) + [m.kind]
      && (forall i :: 0 <= i < 4 ==> h[5 + i] == len[i])
      && (forall i :: 0 <= i < 8 ==> h[9 + i] == time[i])
      && forall i :: 0 <= i < 2 ==> h[17 + i] == id[i]
  {
    hide BigEndian, ToBits;
  }

  function Weighted(a: byte, b: byte, c: byte, d: byte): int {
    ((a as int * 256 + b as int) * 256 + c as int) * 256 + d as int
  }

  lemma MagicBytes()
    ensures BigEndian(MAGIC_NUMBER, 4) == [0x42, 0x4C, 0x4B, 0x43]
  {
    assert BigEndian(0x424C4B43, 4) == BigEndian(0x424C4B, 3) + [0x43];
    assert BigEndian(0x424C4B, 3) == BigEndian(0x424C, 2) + [0x4B];
    assert BigEndian(0x424C, 2) == BigEndian(0x42, 1) + [0x4C];
    assert BigEndian(0x42, 1) == BigEndian(0, 0) + [0x42];
  }

  lemma TwoBytes(v: nat)
    requires v < 0x1_0000
    ensures var b := BigEndian(v, 2); Weighted(0, 0, b[0], b[1]) == v
  {
    assert BigEndian(v, 2) == BigEndian(v / 256, 1) + [v % 256];
    assert BigEndian(v / 256, 1) == BigEndian(v / 256 / 256, 0) + [v / 256 % 256];
  }

  lemma FourBytes(v: nat)
    requires v < 0x1_0000_0000
    ensures var b := BigEndian(v, 4); Weighted(b[0], b[1], b[2], b[3]) == v
  {
    var high, low := v / 0x1_0000, v % 0x1_0000;
    TwoBytes(high);
    hide BigEndian;
    SplitBytes(v, 2, 2);
    LowBytes(v);
    TwoBytes(low);
  }

  lemma {:induction false} SplitBytes(v: nat, j: nat, k: nat)
    ensures BigEndian(v, j + k) == BigEndian(v / Power(256, k), j) + BigEndian(v, k)
  {
    if k > 0 {
      SplitBytes(v / 256, j, k - 1);
      DivideTwice(v, Power(256, k - 1));
    }
  }

  lemma LowBytes(v: nat)
    ensures BigEndian(v, 2) == BigEndian(v % 0x1_0000, 2) && v / Power(256, 2) == v / 0x1_0000
  {
    ByteLimits();
    var w := v % 0x1_0000;
    assert BigEndian(v, 2) == BigEndian(v / 256, 1) + [v % 256] && BigEndian(w, 2) == BigEndian(w / 256, 1) + [w % 256];
    assert BigEndian(v / 256, 1) == BigEndian(v / 256 / 256, 0) + [v / 256 % 256];
    assert BigEndian(w / 256, 1) == BigEndian(w / 256 / 256, 0) + [w / 256 % 256];
    assert v == v / 0x1_0000 * 0x1_0000 + w;
  }

  lemma EightBytes(v: nat)
    requires v < 0x1_0000_0000_0000_0000
    ensures
      var b := BigEndian(v, 8);
      Weighted(b[0], b[1], b[2], b[3]) * 0x1_0000_0000 + Weighted(b[4], b[5], b[6], b[7]) == v
  {
    hide BigEndian;
    var high, low := v / 0x1_0000_0000, v % 0x1_0000_0000;
    ByteLimits();
    SplitBytes(v, 4, 4);
    LowWord(v);
    FourBytes(high);
    FourBytes(low);
  }

  lemma LowWord(v: nat)
    ensures BigEndian(v, 4) == BigEndian(v % 0x1_0000_0000, 4)
  {
    hide BigEndian;
    var w := v % 0x1_0000_0000;
    ResidueParts(v, w);
    SplitBytes(v, 2, 2);
    SplitBytes(w, 2, 2);
    LowBytes(v);
    LowBytes(w);
    LowBytes(v / 0x1_0000);
    LowBytes(w / 0x1_0000);
  }

  lemma ResidueParts(v: nat, w: nat)
    requires w == v % 0x1_0000_0000
    ensures w % 0x1_0000 == v % 0x1_0000 && w / 0x1_0000 % 0x1_0000 == v / 0x1_0000 % 0x1_0000
  {
    var q := v / 0x1_0000_0000;
    assert v == q * 0x1_0000_0000 + w;
    assert v / 0x1_0000 == q * 0x1_0000 + w / 0x1_0000;
  }

  lemma BitsAreResidue(v: int64)
    ensures ToBits(v) == v as int % 0x1_0000_0000_0000_0000
  {
  }

  lemma HeaderRebuilt(data: seq<byte>, m: Message)
    requires Decoded(data) == Ok(m)
    ensures Header(m) == data[..HEADER_SIZE]
  {
    hide BigEndian, FromBigEndian, ReadU32BE, ReadU16BE;
    ReadsAreBigEndian(data);
    ReadsAreBigEndian(data[5..]);
    ReadsAreBigEndian(data[17..]);
    FromBigEndianRoundTrip(data[..4]);
    FromBigEndianRoundTrip(data[5..][..4]);
    FromBigEndianRoundTrip(data[9..17]);
    FromBigEndianRoundTrip(data[17..][..2]);
    ByteLimits();
    assert |m.sender| % 0x1_0000 == |m.sender|;
    assert data[5..][..4] == data[5..9] && data[17..][..2] == data[17..19];
    assert data[..HEADER_SIZE] == data[..4] + [data[4]] + data[5..9] + data[9..17] + data[17..19];
  }
}
