/**
 The incremental frame reader of a peer: bytes arrive in chunks of any size up to 4096, and
 the messages come out in order whatever the read boundaries are.
 */
module PeerReader {
  import opened Hex
  import opened Wire

  const MAX_FRAME_SIZE: nat := HEADER_SIZE + 0xFFFF + MAX_PAYLOAD_SIZE
  const READ_SIZE: nat := 4096

  datatype Receive = Incomplete | Closed | Received(msg: Message)

  /** One extraction attempt: the outcome and the buffer it leaves. */
  function Extract(buffer: seq<byte>): (Receive, seq<byte>) {
    if |buffer| < HEADER_SIZE then (Incomplete, buffer)
    else if ReadU32BE(buffer) != MAGIC_NUMBER then (Closed, buffer)
    else if AnnouncedPayload(buffer) > MAX_PAYLOAD_SIZE then (Closed, buffer)
    else
      var frameSize := HEADER_SIZE + AnnouncedSender(buffer) + AnnouncedPayload(buffer);
      if |buffer| < frameSize then (Incomplete, buffer)
      else
        match Decoded(buffer[..frameSize])
        case Ok(m) => (Received(m), buffer[frameSize..])
        case Err(_) => (Closed, buffer)
  }

  /** One read: the bytes are buffered, then an oversized buffer closes the connection. */
  function Poll(buffer: seq<byte>, chunk: seq<byte>): (Receive, seq<byte>) {
    if chunk == [] then (Closed, buffer)
    else
      var filled := buffer + chunk;
      if |filled| > MAX_FRAME_SIZE then (Closed, filled) else Extract(filled)
  }

  class Peer {
    var connected: bool
    var recvBuffer: seq<byte>

    constructor ()
      ensures connected && recvBuffer == []
    {
      connected := true;
      recvBuffer := [];
    }

    method ExtractMessage() returns (r: Receive)
      modifies this`recvBuffer
      ensures (r, recvBuffer) == Extract(old(recvBuffer))
    {
      if |recvBuffer| < HEADER_SIZE {
        return Incomplete;
      }
      if ReadU32BE(recvBuffer) != MAGIC_NUMBER {
        return Closed;
      }
      var payloadLen := ReadU32BE(recvBuffer[5..]);
      if payloadLen > MAX_PAYLOAD_SIZE {
        return Closed;
      }
      var senderLen := ReadU16BE(recvBuffer[17..]);
      var frameSize := HEADER_SIZE + senderLen + payloadLen;
      if |recvBuffer| < frameSize {
        return Incomplete;
      }
      var decoded := Deserialize(recvBuffer[..frameSize]);
      if decoded.Err? {
        return Closed;
      }
      recvBuffer := recvBuffer[frameSize..];
      return Received(decoded.value);
    }

    /** Extraction without a read, for what earlier reads left behind. */
    method NextBufferedMessage() returns (r: Receive)
      modifies this`recvBuffer
      ensures !old(connected) ==> r == Closed && recvBuffer == old(recvBuffer)
      ensures old(connected) ==> (r, recvBuffer) == Extract(old(recvBuffer))
    {
      if !connected {
        return Closed;
      }
      r := ExtractMessage();
    }

    /** `chunk` is what one receive call returned: nothing on error or end of stream. */
    method PollReceive(chunk: seq<byte>) returns (r: Receive)
      requires |chunk| <= READ_SIZE
      modifies this`recvBuffer
      ensures !old(connected) ==> r == Closed && recvBuffer == old(recvBuffer)
      ensures old(connected) ==> (r, recvBuffer) == Poll(old(recvBuffer), chunk)
    {
      if !connected {
        return Closed;
      }
      if |chunk| <= 0 {
        return Closed;
      }
      recvBuffer := recvBuffer + chunk;
      if |recvBuffer| > MAX_FRAME_SIZE {
        return Closed;
      }
      r := ExtractMessage();
    }
  }

  // ---------- Reading a stream ----------

  /** An extracted message shortens the buffer by at least a header. */
  lemma ExtractShrinks(buffer: seq<byte>)
    ensures Extract(buffer).0.Received? ==> |Extract(buffer).1| < |buffer|
  {
  }

  datatype Reading = Reading(messages: seq<Message>, closed: bool, buffer: seq<byte>)

  /** Extracting until nothing more comes out. */
  function Drain(first: Receive, buffer: seq<byte>, got: seq<Message>): Reading
    decreases |buffer|
  {
    match first
    case Closed => Reading(got, true, buffer)
    case Incomplete => Reading(got, false, buffer)
    case Received(m) =>
      ExtractShrinks(buffer);
      var next := Extract(buffer);
      if next.0.Received? then Drain(next.0, next.1, got + [m]) else Reading(got + [m], next.0.Closed?, next.1)
  }

  /** The state after a list of reads, each drained before the next; nothing is read once closed. */
  function ReadAll(state: Reading, chunks: seq<seq<byte>>): Reading
    decreases chunks
  {
    if chunks == [] || state.closed then state
    else
      var first := Poll(state.buffer, chunks[0]);
      ReadAll(Drain(first.0, first.1, state.messages), chunks[1..])
  }

  function Stream(messages: seq<Message>): (s: seq<byte>)
    ensures messages != [] ==> |s| >= FrameSize(messages[0])
  {
    if messages == [] then [] else Encoded(messages[0]) + Stream(messages[1..])
  }

  function Joined(chunks: seq<seq<byte>>): seq<byte> {
    if chunks == [] then [] else chunks[0] + Joined(chunks[1..])
  }

  /** A message the wire format can carry. */
  predicate Sendable(m: Message) {
    |m.sender| <= 65535 && |m.payload| <= 10_485_760
  }

  /** A full read on top of all but the last byte of the frame still fits the buffer limit. */
  predicate LeavesRoom(m: Message) {
    FrameSize(m) + 4095 <= 10_551_314
  }

  /** In particular a sender id of at most 61440 bytes leaves room, whatever the payload. */
  lemma ShortSenderLeavesRoom(m: Message)
    requires Sendable(m) && |m.sender| <= 61440
    ensures LeavesRoom(m)
  {
  }

  /** A proper prefix of a frame is never closed on and never yields a message. */
  lemma PartialFrame(buffer: seq<byte>, m: Message)
    requires Sendable(m) && |buffer| < FrameSize(m) && buffer == Encoded(m)[..|buffer|]
    ensures Extract(buffer) == (Incomplete, buffer)
  {
    hide Header;
    if |buffer| >= HEADER_SIZE {
      assert buffer[..HEADER_SIZE] == Header(m);
      HeaderFields(m, buffer);
    }
  }

  /** A whole frame comes out as its message, and the rest stays. */
  lemma WholeFrame(m: Message, rest: seq<byte>)
    requires Sendable(m)
    ensures Extract(Encoded(m) + rest) == (Received(m), rest)
  {
    hide Header;
    var buffer := Encoded(m) + rest;
    assert buffer[..HEADER_SIZE] == Header(m);
    HeaderFields(m, buffer);
    assert buffer[..FrameSize(m)] == Encoded(m) + [] && buffer[FrameSize(m)..] == rest;
    MessageRoundTrip(m, []);
  }

  /** What is buffered is a proper prefix of what the pending messages encode to, up to the bytes still to come. */
  ghost predicate Pending(buffer: seq<byte>, coming: seq<byte>, messages: seq<Message>) {
    buffer + coming == Stream(messages) && (if messages == [] then buffer == [] else |buffer| < FrameSize(messages[0]))
  }

  lemma PrefixOfFrame(buffer: seq<byte>, coming: seq<byte>, messages: seq<Message>)
    requires messages != [] && buffer + coming == Stream(messages) && |buffer| <= FrameSize(messages[0])
    ensures buffer == Encoded(messages[0])[..|buffer|]
  {
    hide Encoded;
    var s := Stream(messages);
    assert s[..|buffer|] == buffer;
    assert s[..|buffer|] == Encoded(messages[0])[..|buffer|];
  }

  lemma FrameFirst(buffer: seq<byte>, coming: seq<byte>, messages: seq<Message>)
    requires messages != [] && buffer + coming == Stream(messages) && |buffer| >= FrameSize(messages[0])
    ensures
      var rest := buffer[FrameSize(messages[0])..];
      buffer == Encoded(messages[0]) + rest && rest + coming == Stream(messages[1..])
  {
    hide Encoded;
    var n := FrameSize(messages[0]);
    var s := Stream(messages);
    assert s[..n] == Encoded(messages[0]) && s[n..] == Stream(messages[1..]);
    assert (buffer + coming)[..n] == buffer[..n] && (buffer + coming)[n..] == buffer[n..] + coming;
  }

  /** Draining delivers exactly the messages whose frames are complete, and leaves the next one pending. */
  lemma {:induction false} DrainDelivers(buffer: seq<byte>, coming: seq<byte>, messages: seq<Message>, got: seq<Message>)
    returns (k: nat)
    requires buffer + coming == Stream(messages) && forall i :: 0 <= i < |messages| ==> Sendable(messages[i])
    ensures k <= |messages|
    ensures
      var first := Extract(buffer);
      var after := Drain(first.0, first.1, got);
      && after.messages == got + messages[..k] && !after.closed
      && Pending(after.buffer, coming, messages[k..])
    decreases |messages|
  {
    hide Extract, Encoded;
    if messages == [] {
      NothingBuffered(buffer);
      k := 0;
    } else if |buffer| < FrameSize(messages[0]) {
      PrefixOfFrame(buffer, coming, messages);
      PartialFrame(buffer, messages[0]);
      k := 0;
    } else {
      var rest := buffer[FrameSize(messages[0])..];
      FrameFirst(buffer, coming, messages);
      WholeFrame(messages[0], rest);
      var j := DrainDelivers(rest, coming, messages[1..], got + [messages[0]]);
      k := j + 1;
      DrainStep(messages[0], rest, got);
      assert messages[1..][..j] == messages[1..k] && messages[1..][j..] == messages[k..];
      assert got + messages[..k] == (got + [messages[0]]) + messages[1..k];
    }
  }

  lemma NothingBuffered(buffer: seq<byte>)
    requires buffer == []
    ensures Extract(buffer) == (Incomplete, [])
  {
  }

  lemma DrainStep(m: Message, rest: seq<byte>, got: seq<Message>)
    ensures
      var next := Extract(rest);
      Drain(Received(m), rest, got) == Drain(next.0, next.1, got + [m])
  {
    ExtractShrinks(rest);
    hide Extract;
  }

  /**
   Any cut of the messages' encodings into non-empty reads of at most 4096 bytes delivers
   exactly those messages in order, never closes, and leaves nothing buffered.
   */
  lemma {:induction false} Reassembly(state: Reading, chunks: seq<seq<byte>>, messages: seq<Message>)
    requires forall i :: 0 <= i < |messages| ==> Sendable(messages[i]) && LeavesRoom(messages[i])
    requires forall i :: 0 <= i < |chunks| ==> 1 <= |chunks[i]| <= READ_SIZE
    requires !state.closed && Pending(state.buffer, Joined(chunks), messages)
    ensures ReadAll(state, chunks) == Reading(state.messages + messages, false, [])
    decreases |chunks|
  {
    hide Extract, Encoded, Drain;
    if chunks == [] {
      NoneMissing(state.buffer, messages);
      assert state.messages + messages == state.messages;
    } else {
      var filled, coming := state.buffer + chunks[0], Joined(chunks[1..]);
      assert filled + coming == state.buffer + Joined(chunks);
      assert messages != [];
      var k := DrainDelivers(filled, coming, messages, state.messages);
      var first := Extract(filled);
      assert Poll(state.buffer, chunks[0]) == first;
      var next := Drain(first.0, first.1, state.messages);
      Reassembly(next, chunks[1..], messages[k..]);
      assert (state.messages + messages[..k]) + messages[k..] == state.messages + messages;
    }
  }

  lemma NoneMissing(buffer: seq<byte>, messages: seq<Message>)
    requires Pending(buffer, [], messages)
    ensures messages == [] && buffer == []
  {
    assert |buffer| == |Stream(messages)|;
  }

  /** From a fresh connection. */
  lemma ReassemblyFromStart(chunks: seq<seq<byte>>, messages: seq<Message>)
    requires forall i :: 0 <= i < |messages| ==> Sendable(messages[i]) && |messages[i].sender| <= 61440
    requires forall i :: 0 <= i < |chunks| ==> 1 <= |chunks[i]| <= READ_SIZE
    requires Joined(chunks) == Stream(messages)
    ensures ReadAll(Reading([], false, []), chunks) == Reading(messages, false, [])
  {
    forall i | 0 <= i < |messages|
      ensures LeavesRoom(messages[i])
    {
      ShortSenderLeavesRoom(messages[i]);
    }
    Reassembly(Reading([], false, []), chunks, messages);
  }

  // ---------- Arbitrary bytes ----------

  /** An extracted message was at the front of the buffer, encoded. */
  lemma ExtractedWasFirst(buffer: seq<byte>)
    requires Extract(buffer).0.Received?
    ensures
      var m, rest := Extract(buffer).0.msg, Extract(buffer).1;
      Sendable(m) && buffer == Encoded(m) + rest
  {
    hide Encoded;
    var m, rest := Extract(buffer).0.msg, Extract(buffer).1;
    var frameSize := HEADER_SIZE + AnnouncedSender(buffer) + AnnouncedPayload(buffer);
    var frame := buffer[..frameSize];
    assert Decoded(frame) == Ok(m);
    DecodedEncodes(frame);
    SameAnnouncement(buffer, frameSize);
    SizesAnnounced(frame);
    assert frame[..frameSize] == frame && buffer == frame + rest;
  }

  /** A message comes out exactly when its whole encoding is at the front of the buffer. */
  lemma ReceivesExactly(buffer: seq<byte>, m: Message)
    ensures Extract(buffer).0 == Received(m)
       <==> Sendable(m) && FrameSize(m) <= |buffer| && buffer[..FrameSize(m)] == Encoded(m)
  {
    if Extract(buffer).0 == Received(m) {
      ExtractedWasFirst(buffer);
    }
    if Sendable(m) && FrameSize(m) <= |buffer| && buffer[..FrameSize(m)] == Encoded(m) {
      WholeFrame(m, buffer[FrameSize(m)..]);
      hide Encoded, Extract;
      assert buffer == Encoded(m) + buffer[FrameSize(m)..];
    }
  }

  /** The buffer is a proper prefix of the encoding of some message. */
  ghost predicate BeginsMessage(buffer: seq<byte>) {
    exists m :: IsCutOff(buffer, m)
  }

  ghost predicate IsCutOff(buffer: seq<byte>, m: Message) {
    Sendable(m) && |buffer| < FrameSize(m) && buffer == Encoded(m)[..|buffer|]
  }

  lemma AnnouncedBeyond(buffer: seq<byte>) returns (m: Message)
    requires |buffer| >= HEADER_SIZE && Extract(buffer).0 == Incomplete
    ensures IsCutOff(buffer, m)
  {
    hide Encoded;
    var n := HEADER_SIZE + AnnouncedSender(buffer) + AnnouncedPayload(buffer);
    var data := buffer + seq(n - |buffer|, _ => 0 as byte);
    SameStart(buffer, data);
    assert Decoded(data).Ok?;
    m := Decoded(data).value;
    DecodedEncodes(data);
    SizesAnnounced(data);
    assert data[..FrameSize(m)] == data && data[..|buffer|] == buffer;
  }

  /** Everything the header says is in its 19 bytes. */
  lemma SameStart(buffer: seq<byte>, data: seq<byte>)
    requires HEADER_SIZE <= |buffer| <= |data| && data[..|buffer|] == buffer
    ensures ReadU32BE(data) == ReadU32BE(buffer)
    ensures AnnouncedSender(data) == AnnouncedSender(buffer) && AnnouncedPayload(data) == AnnouncedPayload(buffer)
  {
    assert data[..HEADER_SIZE] == buffer[..HEADER_SIZE];
    forall i | 0 <= i < HEADER_SIZE
      ensures data[i] == buffer[i]
    {
      assert data[..HEADER_SIZE][i] == buffer[..HEADER_SIZE][i];
    }
  }

  /**
   Waiting exactly while a message can still come: a header is not complete, or the buffer is
   the beginning of some message. So bytes that begin no message close the connection as soon
   as 19 of them are there.
   */
  lemma IncompleteExactly(buffer: seq<byte>)
    ensures Extract(buffer).0 == Incomplete <==> |buffer| < 19 || BeginsMessage(buffer)
    ensures Extract(buffer).0 == Closed
       <==> |buffer| >= 19 && !BeginsMessage(buffer) && forall m :: Extract(buffer).0 != Received(m)
  {
    if |buffer| < 19 {
      assert Extract(buffer).0 == Incomplete;
    } else if Extract(buffer).0 == Incomplete {
      var m := AnnouncedBeyond(buffer);
    } else if BeginsMessage(buffer) {
      var m :| IsCutOff(buffer, m);
      PartialFrame(buffer, m);
    }
    hide Extract;
    if Extract(buffer).0.Received? {
      assert Extract(buffer).0 == Received(Extract(buffer).0.msg);
    }
  }

  /** A read ends the connection exactly when nothing was read, the buffer would outgrow one frame, or the bytes begin no message. */
  lemma PollClosesExactly(buffer: seq<byte>, chunk: seq<byte>)
    ensures Poll(buffer, chunk).0 == Closed
       <==> chunk == [] || |buffer + chunk| > 10_551_314 || Extract(buffer + chunk).0 == Closed
    ensures chunk != [] && |buffer + chunk| <= 10_551_314 ==> Poll(buffer, chunk) == Extract(buffer + chunk)
  {
    hide Extract;
  }

  lemma SizesAnnounced(data: seq<byte>)
    requires Decoded(data).Ok?
    ensures
      var m := Decoded(data).value;
      |m.sender| == AnnouncedSender(data) && |m.payload| == AnnouncedPayload(data)
    ensures |Decoded(data).value.payload| <= MAX_PAYLOAD_SIZE && |Decoded(data).value.sender| <= MAX_SENDER_ID_SIZE
  {
  }

  lemma SameAnnouncement(buffer: seq<byte>, n: nat)
    requires HEADER_SIZE <= n <= |buffer|
    ensures AnnouncedSender(buffer[..n]) == AnnouncedSender(buffer) && AnnouncedPayload(buffer[..n]) == AnnouncedPayload(buffer)
  {
  }

  lemma {:induction false} StreamSnoc(messages: seq<Message>, m: Message)
    ensures Stream(messages + [m]) == Stream(messages) + Encoded(m)
  {
    hide Encoded;
    if messages == [] {
      assert [] + [m] == [m] && [m][1..] == [];
    } else {
      assert (messages + [m])[1..] == messages[1..] + [m];
      StreamSnoc(messages[1..], m);
    }
  }

  ghost predicate AllSendable(messages: seq<Message>) {
    forall i :: 0 <= i < |messages| ==> Sendable(messages[i])
  }

  /** What has been delivered and what is still buffered make up the bytes taken so far. */
  ghost predicate Accounts(state: Reading, taken: seq<byte>) {
    AllSendable(state.messages) && Stream(state.messages) + state.buffer == taken
  }

  /** What an extraction returns, before it is delivered, with what it leaves. */
  ghost predicate Outstanding(first: Receive, buffer: seq<byte>, got: seq<Message>, taken: seq<byte>) {
    && AllSendable(got)
    && (first.Received? ==> Sendable(first.msg))
    && Stream(got) + (if first.Received? then Encoded(first.msg) else []) + buffer == taken
  }

  lemma ExtractOutstanding(buffer: seq<byte>, got: seq<Message>, taken: seq<byte>)
    requires AllSendable(got) && Stream(got) + buffer == taken
    ensures Outstanding(Extract(buffer).0, Extract(buffer).1, got, taken)
    ensures |Extract(buffer).1| <= |buffer|
    ensures Extract(buffer).0.Incomplete? ==> Extract(buffer).1 == buffer
  {
    hide Encoded, Extract, Stream;
    var r := Extract(buffer);
    ExtractKeepsBuffer(buffer);
    if r.0.Received? {
      ExtractedWasFirst(buffer);
      assert Stream(got) + Encoded(r.0.msg) + r.1 == Stream(got) + (Encoded(r.0.msg) + r.1);
    } else {
      assert Stream(got) + [] == Stream(got);
    }
  }

  lemma ExtractKeepsBuffer(buffer: seq<byte>)
    ensures !Extract(buffer).0.Received? ==> Extract(buffer).1 == buffer
  {
  }

  lemma {:induction false} DrainAccounts(first: Receive, buffer: seq<byte>, got: seq<Message>, taken: seq<byte>)
    requires Outstanding(first, buffer, got, taken)
    requires first.Incomplete? ==> Extract(buffer) == (Incomplete, buffer)
    ensures
      var end := Drain(first, buffer, got);
      && Accounts(end, taken) && |end.buffer| <= |buffer|
      && (!end.closed ==> Extract(end.buffer) == (Incomplete, end.buffer))
    decreases |buffer|
  {
    if first.Received? {
      var next := Extract(buffer);
      ExtractShrinks(buffer);
      DrainStep(first.msg, buffer, got);
      hide Extract, Encoded, Stream, Drain;
      StreamSnoc(got, first.msg);
      ExtractOutstanding(buffer, got + [first.msg], taken);
      if next.0.Received? {
        DrainAccounts(next.0, next.1, got + [first.msg], taken);
      } else {
        DrainEnds(next.0, next.1, got + [first.msg]);
        assert Stream(got + [first.msg]) + [] == Stream(got + [first.msg]);
      }
    } else {
      DrainEnds(first, buffer, got);
      hide Extract, Encoded, Stream, Drain;
      assert Stream(got) + [] == Stream(got);
    }
  }

  lemma DrainEnds(first: Receive, buffer: seq<byte>, got: seq<Message>)
    requires !first.Received?
    ensures Drain(first, buffer, got) == Reading(got, first.Closed?, buffer)
  {
  }

  /** Between two reads of an open connection: everything extractable has been, and the buffer is within its limit. */
  ghost predicate Settled(state: Reading, taken: seq<byte>) {
    && Accounts(state, taken)
    && (!state.closed ==> |state.buffer| <= MAX_FRAME_SIZE && Extract(state.buffer) == (Incomplete, state.buffer))
    && |state.buffer| <= MAX_FRAME_SIZE + READ_SIZE
  }

  lemma ReadSettles(state: Reading, chunk: seq<byte>, taken: seq<byte>)
    requires Settled(state, taken) && !state.closed && |chunk| <= READ_SIZE
    ensures
      var first := Poll(state.buffer, chunk);
      Settled(Drain(first.0, first.1, state.messages), taken + chunk)
  {
    hide Extract, Encoded, Stream, Drain;
    var filled, first := state.buffer + chunk, Poll(state.buffer, chunk);
    assert Stream(state.messages) + filled == taken + chunk;
    assert Stream(state.messages) + [] == Stream(state.messages);
    if chunk == [] {
      assert filled == state.buffer;
      DrainAccounts(first.0, first.1, state.messages, taken + chunk);
      DrainEnds(first.0, first.1, state.messages);
    } else if |filled| > MAX_FRAME_SIZE {
      DrainAccounts(first.0, first.1, state.messages, taken + chunk);
      DrainEnds(first.0, first.1, state.messages);
    } else {
      ExtractOutstanding(filled, state.messages, taken + chunk);
      DrainAccounts(first.0, first.1, state.messages, taken + chunk);
    }
  }

  /** How many reads are taken before the connection closes. */
  function Taken(state: Reading, chunks: seq<seq<byte>>): (k: nat)
    ensures k <= |chunks|
    decreases |chunks|
  {
    if chunks == [] || state.closed then 0
    else
      var first := Poll(state.buffer, chunks[0]);
      1 + Taken(Drain(first.0, first.1, state.messages), chunks[1..])
  }

  /**
   Whatever a peer sends, well-formed or not: after any list of reads the delivered messages,
   encoded, and the buffer are exactly the bytes taken from the connection, nothing lost,
   invented or reordered; every read is taken unless the connection was closed; and the buffer
   stays within its limit.
   */
  lemma {:induction false} ReadsAccount(state: Reading, chunks: seq<seq<byte>>, taken: seq<byte>)
    requires Settled(state, taken)
    requires forall i :: 0 <= i < |chunks| ==> |chunks[i]| <= READ_SIZE
    ensures
      var end, k := ReadAll(state, chunks), Taken(state, chunks);
      Settled(end, taken + Joined(chunks[..k])) && (!end.closed ==> k == |chunks|)
    decreases |chunks|
  {
    hide Settled, Poll, Drain;
    if chunks == [] || state.closed {
      assert taken + Joined(chunks[..0]) == taken;
    } else {
      var first := Poll(state.buffer, chunks[0]);
      var next := Drain(first.0, first.1, state.messages);
      ReadSettles(state, chunks[0], taken);
      ReadsAccount(next, chunks[1..], taken + chunks[0]);
      var k := Taken(next, chunks[1..]);
      assert chunks[..k + 1][1..] == chunks[1..][..k];
      assert taken + Joined(chunks[..k + 1]) == (taken + chunks[0]) + Joined(chunks[1..][..k]);
    }
  }

  lemma {:induction false} OneReading(a: Reading, b: Reading, taken: seq<byte>)
    requires Accounts(a, taken) && Accounts(b, taken)
    requires Extract(a.buffer) == (Incomplete, a.buffer) && Extract(b.buffer) == (Incomplete, b.buffer)
    ensures a.messages == b.messages && a.buffer == b.buffer
    decreases |a.messages|
  {
    hide Extract, Encoded;
    if a.messages != [] {
      FirstDelivered(a, taken);
    }
    if b.messages != [] {
      FirstDelivered(b, taken);
    }
    if a.messages != [] && b.messages != [] {
      var rest := Extract(taken).1;
      OneReading(Reading(a.messages[1..], a.closed, a.buffer), Reading(b.messages[1..], b.closed, b.buffer), rest);
      assert a.messages == [a.messages[0]] + a.messages[1..] && b.messages == [b.messages[0]] + b.messages[1..];
    } else {
      NothingDelivered(a, taken);
      NothingDelivered(b, taken);
    }
  }

  lemma NothingDelivered(a: Reading, taken: seq<byte>)
    requires Accounts(a, taken)
    ensures a.messages == [] ==> a.buffer == taken
  {
    hide Encoded;
  }

  /** The first delivered message is what the bytes themselves begin with. */
  lemma FirstDelivered(a: Reading, taken: seq<byte>)
    requires Accounts(a, taken) && a.messages != []
    ensures
      var rest := Stream(a.messages[1..]) + a.buffer;
      Extract(taken) == (Received(a.messages[0]), rest)
      && Accounts(Reading(a.messages[1..], a.closed, a.buffer), rest)
  {
    hide Extract, Encoded, Stream, Sendable;
    var rest := Stream(a.messages[1..]) + a.buffer;
    StreamFirst(a.messages);
    assert taken == Encoded(a.messages[0]) + rest;
    assert Sendable(a.messages[0]);
    WholeFrame(a.messages[0], rest);
  }

  lemma StreamFirst(messages: seq<Message>)
    requires messages != []
    ensures Stream(messages) == Encoded(messages[0]) + Stream(messages[1..])
  {
  }

  /**
   The cuts do not matter, for arbitrary bytes too: two connections that took the same bytes
   in different reads, and are both still open, delivered the same messages and buffer the
   same rest.
   */
  lemma CutsDoNotMatter(a: seq<seq<byte>>, b: seq<seq<byte>>)
    requires forall i :: 0 <= i < |a| ==> |a[i]| <= READ_SIZE
    requires forall i :: 0 <= i < |b| ==> |b[i]| <= READ_SIZE
    requires Joined(a) == Joined(b)
    ensures
      var start := Reading([], false, []);
      !ReadAll(start, a).closed && !ReadAll(start, b).closed ==> ReadAll(start, a) == ReadAll(start, b)
  {
    var start := Reading([], false, []);
    FreshIsSettled();
    hide Extract, Encoded, Drain, Poll, ReadAll, Stream, Taken;
    ReadsAccount(start, a, []);
    ReadsAccount(start, b, []);
    var x, y := ReadAll(start, a), ReadAll(start, b);
    if !x.closed && !y.closed {
      assert a[..|a|] == a && b[..|b|] == b && [] + Joined(a) == Joined(a);
      OneReading(x, y, Joined(a));
    }
  }

  lemma FreshIsSettled()
    ensures Settled(Reading([], false, []), [])
  {
  }

  // ---------- The limit is exact ----------

  function Singles(s: seq<byte>): (chunks: seq<seq<byte>>)
    ensures |chunks| == |s| && forall i :: 0 <= i < |s| ==> chunks[i] == [s[i]]
  {
    if s == [] then [] else [[s[0]]] + Singles(s[1..])
  }

  lemma {:induction false} SinglesAccumulate(buffer: seq<byte>, s: seq<byte>, last: seq<byte>, m: Message)
    requires Sendable(m) && |buffer + s| < FrameSize(m) && buffer + s == Encoded(m)[..|buffer + s|]
    ensures ReadAll(Reading([], false, buffer), Singles(s) + [last]) == ReadAll(Reading([], false, buffer + s), [last])
    decreases |s|
  {
    if s == [] {
      assert buffer + s == buffer;
      assert Singles(s) + [last] == [last];
    } else {
      var filled := buffer + [s[0]];
      assert filled + s[1..] == buffer + s;
      assert filled == Encoded(m)[..|filled|] by {
        assert (buffer + s)[..|filled|] == filled;
      }
      PartialFrame(filled, m);
      hide Extract, Encoded;
      SinglesAccumulate(filled, s[1..], last, m);
      assert (Singles(s) + [last])[1..] == Singles(s[1..]) + [last];
      assert Poll(buffer, [s[0]]) == (Incomplete, filled);
    }
  }

  /**
   The room is exactly what is needed. Cut a message and what follows it byte by byte up to
   the message's last byte and then by one full read: the connection is closed on its sender
   precisely when the message leaves no room.
   */
  lemma RoomIsExact(m: Message, following: seq<Message>)
    requires Sendable(m) && forall i :: 0 <= i < |following| ==> Sendable(following[i])
    requires |Stream(following)| >= READ_SIZE - 1
    ensures
      var s, n := Encoded(m) + Stream(following), FrameSize(m) - 1;
      ReadAll(Reading([], false, []), Singles(s[..n]) + [s[n..n + READ_SIZE]]).closed <==> !LeavesRoom(m)
  {
    hide Extract, Encoded, Header, Drain, Poll, Stream, ReadAll;
    var s, n := Encoded(m) + Stream(following), FrameSize(m) - 1;
    var cut, last := s[..n], s[n..n + READ_SIZE];
    assert [] + cut == cut && cut == Encoded(m)[..n];
    SinglesAccumulate([], cut, last, m);
    assert cut + last == s[..n + READ_SIZE];
    LastRead(cut, last);
    LastPoll(cut, last, m);
    if LeavesRoom(m) {
      LastDrain(m, following, n + READ_SIZE);
    } else {
      ClosedDrain(cut + last);
    }
  }

  lemma LastPoll(buffer: seq<byte>, last: seq<byte>, m: Message)
    requires |buffer| == FrameSize(m) - 1 && |last| == READ_SIZE
    ensures Poll(buffer, last) == if LeavesRoom(m) then Extract(buffer + last) else (Closed, buffer + last)
  {
    hide Extract;
  }

  lemma ClosedDrain(buffer: seq<byte>)
    ensures Drain(Closed, buffer, []).closed
  {
  }

  /** Draining any prefix of well-formed messages does not close. */
  lemma LastDrain(m: Message, following: seq<Message>, n: nat)
    requires Sendable(m) && forall i :: 0 <= i < |following| ==> Sendable(following[i])
    requires n <= |Encoded(m) + Stream(following)|
    ensures
      var first := Extract((Encoded(m) + Stream(following))[..n]);
      !Drain(first.0, first.1, []).closed
  {
    hide Extract, Encoded, Header, Drain;
    var s, all := Encoded(m) + Stream(following), [m] + following;
    assert all[1..] == following;
    assert Stream(all) == s;
    assert s[..n] + s[n..] == s;
    var k := DrainDelivers(s[..n], s[n..], all, []);
  }

  lemma LastRead(buffer: seq<byte>, last: seq<byte>)
    requires last != []
    ensures
      var first := Poll(buffer, last);
      ReadAll(Reading([], false, buffer), [last]) == Drain(first.0, first.1, [])
  {
    hide Poll, Drain;
    assert [last][1..] == [];
  }
}
