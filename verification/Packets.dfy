/**
  Session packets: length-prefixed frames in a stream of bytes, and a reader that gets the
  stream in chunks.
 */
module Packets {
  import opened Bytes
  import opened Decimals
  import opened Numbers

  /** "qbsmsg:" */
  const PACKET_START: Bytes := [0x71, 0x62, 0x73, 0x6D, 0x73, 0x67, 0x3A]

  const NEW_LINE: byte := 0x0A

  /** `QByteArray::toInt`: the number a string spells, if it spells one that fits. */
  type ToInt = Bytes -> Option<int>

  /** `QByteArray::indexOf` */
  function IndexOf(s: Bytes, pattern: Bytes, from: nat): (r: Option<nat>)
    ensures r.Some? ==> from <= r.value && r.value + |pattern| <= |s| && s[r.value..r.value + |pattern|] == pattern
    decreases |s| - from
  {
    if from + |pattern| > |s| then None
    else if s[from..from + |pattern|] == pattern then Some(from)
    else IndexOf(s, pattern, from + 1)
  }

  // ---------------------------------------------------------------------
  // What a stream contains
  // ---------------------------------------------------------------------

  /** The first header of a stream: where the payload starts, and how long it is. */
  datatype Header = NoHeader | BadHeader | GoodHeader(end: nat, size: nat)

  function FirstHeader(s: Bytes, toInt: ToInt): (h: Header)
    ensures h.GoodHeader? ==> 0 < h.end <= |s|
  {
    match IndexOf(s, PACKET_START, 0)
    case None => NoHeader
    case Some(start) =>
      match IndexOf(s, [NEW_LINE], start + |PACKET_START|)
      case None => NoHeader
      case Some(newLine) =>
        match toInt(s[start + |PACKET_START|..newLine])
        case None => BadHeader
        case Some(size) => if size < 0 then BadHeader else GoodHeader(newLine + 1, size)
  }

  predicate HasPacket(s: Bytes, toInt: ToInt) {
    FirstHeader(s, toInt).GoodHeader? && FirstHeader(s, toInt).end + FirstHeader(s, toInt).size <= |s|
  }

  function FirstPayload(s: Bytes, toInt: ToInt): Bytes
    requires HasPacket(s, toInt)
  {
    var h := FirstHeader(s, toInt);
    s[h.end..h.end + h.size]
  }

  function AfterPacket(s: Bytes, toInt: ToInt): (r: Bytes)
    requires HasPacket(s, toInt)
    ensures |r| < |s|
  {
    var h := FirstHeader(s, toInt);
    s[h.end + h.size..]
  }

  predicate OccursAt(s: Bytes, pattern: Bytes, k: nat) {
    k + |pattern| <= |s| && s[k..k + |pattern|] == pattern
  }

  lemma {:induction false} FoundAt(s: Bytes, pattern: Bytes, from: nat, at: nat)
    requires from <= at && OccursAt(s, pattern, at) && forall k :: from <= k < at ==> !OccursAt(s, pattern, k)
    ensures IndexOf(s, pattern, from) == Some(at)
    decreases at - from
  {
    if from < at {
      assert !OccursAt(s, pattern, from);
      FoundAt(s, pattern, from + 1, at);
    }
  }

  /** "qbsmsg:" at its first position, and a number up to the next line feed; what comes before is ignored. */
  lemma HeaderIs(s: Bytes, start: nat, newLine: nat, toInt: ToInt)
    requires OccursAt(s, [0x71, 0x62, 0x73, 0x6D, 0x73, 0x67, 0x3A], start)
    requires forall k :: 0 <= k < start ==> !OccursAt(s, [0x71, 0x62, 0x73, 0x6D, 0x73, 0x67, 0x3A], k)
    requires start + 7 <= newLine < |s| && s[newLine] == 0x0A
    requires forall k :: start + 7 <= k < newLine ==> s[k] != 0x0A
    ensures FirstHeader(s, toInt) ==
            (match toInt(s[start + 7..newLine])
             case None => BadHeader
             case Some(size) => if size < 0 then BadHeader else GoodHeader(newLine + 1, size))
  {
    hide IndexOf;
    FoundAt(s, PACKET_START, 0, start);
    NewLineAfterDigits(s, start + 7, newLine);
  }

  /** The payloads of all complete packets up to the first bad header. */
  function Payloads(s: Bytes, toInt: ToInt): seq<Bytes>
    decreases |s|
  {
    if HasPacket(s, toInt) then [FirstPayload(s, toInt)] + Payloads(AfterPacket(s, toInt), toInt) else []
  }

  /** What is left behind them. */
  function Rest(s: Bytes, toInt: ToInt): (r: Bytes)
    ensures !HasPacket(r, toInt)
    decreases |s|
  {
    if HasPacket(s, toInt) then Rest(AfterPacket(s, toInt), toInt) else s
  }

  lemma {:induction false} IndexOfStable(s: Bytes, x: Bytes, pattern: Bytes, from: nat)
    requires IndexOf(s, pattern, from).Some?
    ensures IndexOf(s + x, pattern, from) == IndexOf(s, pattern, from)
    decreases |s| - from
  {
    assert (s + x)[from..from + |pattern|] == s[from..from + |pattern|];
    if s[from..from + |pattern|] != pattern {
      IndexOfStable(s, x, pattern, from + 1);
    }
  }

  /** A header that is there, good or bad, stays when more arrives. */
  lemma HeaderStable(s: Bytes, x: Bytes, toInt: ToInt)
    requires !FirstHeader(s, toInt).NoHeader?
    ensures FirstHeader(s + x, toInt) == FirstHeader(s, toInt)
  {
    hide IndexOf;
    var start := IndexOf(s, PACKET_START, 0).value;
    IndexOfStable(s, x, PACKET_START, 0);
    var newLine := IndexOf(s, [NEW_LINE], start + |PACKET_START|).value;
    IndexOfStable(s, x, [NEW_LINE], start + |PACKET_START|);
    SameSlice(s, x, start + |PACKET_START|, newLine);
  }

  lemma SameSlice(s: Bytes, x: Bytes, a: nat, b: nat)
    requires a <= b <= |s|
    ensures (s + x)[a..b] == s[a..b]
  {}

  lemma PacketStable(s: Bytes, x: Bytes, toInt: ToInt)
    requires HasPacket(s, toInt)
    ensures HasPacket(s + x, toInt) && FirstPayload(s + x, toInt) == FirstPayload(s, toInt)
    ensures AfterPacket(s + x, toInt) == AfterPacket(s, toInt) + x
  {
    hide FirstHeader;
    HeaderStable(s, x, toInt);
  }

  /** Reading a stream that grows can go on from what was left of it. */
  lemma {:induction false} StreamGrows(s: Bytes, x: Bytes, toInt: ToInt)
    ensures Payloads(s + x, toInt) == Payloads(s, toInt) + Payloads(Rest(s, toInt) + x, toInt)
    ensures Rest(s + x, toInt) == Rest(Rest(s, toInt) + x, toInt)
    decreases |s|
  {
    hide HasPacket, FirstPayload;
    if HasPacket(s, toInt) {
      PacketStable(s, x, toInt);
      StreamGrows(AfterPacket(s, toInt), x, toInt);
    }
  }

  // ---------------------------------------------------------------------
  // Frames
  // ---------------------------------------------------------------------

  /** `createPacket`, around a payload that has been encoded already. */
  function Frame(payload: Bytes): Bytes {
    PACKET_START + Digits(|payload|) + [NEW_LINE] + payload
  }

  function Frames(payloads: seq<Bytes>): Bytes {
    if payloads == [] then [] else Frame(payloads[0]) + Frames(payloads[1..])
  }

  lemma {:induction false} NewLineAfterDigits(s: Bytes, from: nat, at: nat)
    requires from <= at < |s| && s[at] == NEW_LINE && forall k :: from <= k < at ==> s[k] != NEW_LINE
    ensures IndexOf(s, [NEW_LINE], from) == Some(at)
    decreases at - from
  {
    assert s[from..from + 1] == [s[from]];
    if from < at {
      NewLineAfterDigits(s, from + 1, at);
    }
  }

  lemma FrameHeader(payload: Bytes, rest: Bytes, toInt: ToInt)
    requires toInt(Digits(|payload|)) == Some(|payload|)
    ensures FirstHeader(Frame(payload) + rest, toInt) ==
            GoodHeader(|PACKET_START| + |Digits(|payload|)| + 1, |payload|)
  {
    hide IndexOf, Digits, Frame;
    var s, d, n := Frame(payload) + rest, Digits(|payload|), |PACKET_START|;
    FramePieces(s, payload, rest);
    StartFound(s);
    forall k | n <= k < n + |d|
      ensures s[k] != NEW_LINE
    {
      assert s[n..n + |d|][k - n] == d[k - n];
    }
    NewLineAfterDigits(s, n, n + |d|);
  }

  /** A framed payload at the start of a stream, byte by byte. */
  lemma FrameIsRead(payload: Bytes, rest: Bytes, toInt: ToInt)
    requires toInt(Digits(|payload|)) == Some(|payload|)
    ensures var s := [0x71, 0x62, 0x73, 0x6D, 0x73, 0x67, 0x3A] + Digits(|payload|) + [0x0A] + payload + rest;
            HasPacket(s, toInt) && FirstPayload(s, toInt) == payload && AfterPacket(s, toInt) == rest
  {
    hide Digits, HasPacket, FirstPayload, AfterPacket;
    FrameIsFirst(payload, rest, toInt);
  }

  lemma FrameIsFirst(payload: Bytes, rest: Bytes, toInt: ToInt)
    requires toInt(Digits(|payload|)) == Some(|payload|)
    ensures var s := Frame(payload) + rest;
            HasPacket(s, toInt) && FirstPayload(s, toInt) == payload && AfterPacket(s, toInt) == rest
  {
    hide FirstHeader, Digits, Frame;
    FrameHeader(payload, rest, toInt);
    FramePieces(Frame(payload) + rest, payload, rest);
  }

  lemma StartFound(s: Bytes)
    requires |s| >= |PACKET_START| && s[..|PACKET_START|] == PACKET_START
    ensures IndexOf(s, PACKET_START, 0) == Some(0)
  {
    assert s[0..0 + |PACKET_START|] == s[..|PACKET_START|];
  }

  lemma FramePieces(s: Bytes, payload: Bytes, rest: Bytes)
    requires s == Frame(payload) + rest
    ensures var n, d := |PACKET_START|, Digits(|payload|);
            var end := n + |d| + 1;
            && end + |payload| <= |s| && s[..n] == PACKET_START && s[n..n + |d|] == d && s[n + |d|] == NEW_LINE
            && s[end..end + |payload|] == payload && s[end + |payload|..] == rest
  {
    var n, d := |PACKET_START|, Digits(|payload|);
    assert s == PACKET_START + d + ([NEW_LINE] + payload + rest);
    assert s == PACKET_START + d + [NEW_LINE] + payload + rest;
  }

  /** Any sequence of frames is read as exactly the payloads that were framed, with nothing left. */
  lemma {:induction false} FramesReadBack(payloads: seq<Bytes>, toInt: ToInt)
    requires forall i :: 0 <= i < |payloads| ==> toInt(Digits(|payloads[i]|)) == Some(|payloads[i]|)
    ensures Payloads(Frames(payloads), toInt) == payloads && Rest(Frames(payloads), toInt) == []
    decreases |payloads|
  {
    hide HasPacket, FirstPayload, AfterPacket, Frame;
    if payloads == [] {
      NothingInEmpty(toInt);
    } else {
      FrameIsFirst(payloads[0], Frames(payloads[1..]), toInt);
      FramesReadBack(payloads[1..], toInt);
    }
  }

  lemma NothingInEmpty(toInt: ToInt)
    ensures !HasPacket([], toInt)
  {}

  // ---------------------------------------------------------------------
  // `SessionPacket`
  // ---------------------------------------------------------------------

  datatype Status = Incomplete | Complete | Invalid

  class SessionPacket {
    const toInt: ToInt
    var payload: Bytes
    var expectedPayloadLength: int
    /** The header that has been consumed for the current packet. */
    ghost var header: Bytes

    ghost predicate Valid()
      reads this
    {
      if expectedPayloadLength == -1 then payload == [] && header == []
      else
        && 0 <= |payload| <= expectedPayloadLength
        && FirstHeader(header, toInt) == GoodHeader(|header|, expectedPayloadLength)
    }

    /** What the stream held from the start of the current packet on, with `input` still to come. */
    ghost function Pending(input: Bytes): Bytes
      reads this
    {
      header + payload + input
    }

    constructor (toInt: ToInt)
      ensures Valid() && this.toInt == toInt && expectedPayloadLength == -1
    {
      this.toInt := toInt;
      payload := [];
      expectedPayloadLength := -1;
      header := [];
    }

    lemma NotBadWithoutInput()
      requires Valid()
      ensures !FirstHeader(Pending([]), toInt).BadHeader?
    {
      hide FirstHeader;
      if expectedPayloadLength == -1 {
        assert Pending([]) == [];
        NoHeaderInEmpty(toInt);
      } else {
        HeaderStable(header, payload, toInt);
        assert Pending([]) == header + payload;
      }
    }

    predicate IsComplete()
      reads this
    {
      |payload| == expectedPayloadLength
    }

    /** `parseInput`; the assertion that nothing is missing in a negative amount holds. */
    method ParseInput(input: Bytes) returns (status: Status, rest: Bytes)
      requires Valid() && !IsComplete()
      modifies this
      ensures Valid()
      ensures var s := old(Pending(input));
              match status
              case Complete =>
                IsComplete() && HasPacket(s, toInt) && FirstPayload(s, toInt) == payload && AfterPacket(s,
                    toInt) == rest
              case Incomplete =>
                !IsComplete() && !HasPacket(s, toInt) && !FirstHeader(s, toInt).BadHeader? && Pending(rest) == s
              case Invalid =>
                !IsComplete() && FirstHeader(s, toInt).BadHeader? && Pending(rest) == s && rest == input
      ensures status == Complete && input != [] ==> |rest| < |input|
    {
      hide FirstHeader, AfterPacket, FirstPayload, HasPacket;
      rest := input;
      ghost var s := Pending(input);
      if expectedPayloadLength == -1 {
        assert s == input;
        status, rest := ParseHeader(input);
        if status != Complete {
          return;
        }
      } else {
        assert header + (payload + input) == s;
        HeaderStable(header, payload + input, toInt);
      }
      assert header + payload + rest == s;
      rest := TakePayload(rest, s);
      status := if IsComplete() then Complete else Incomplete;
    }

    /** The part of `parseInput` that waits for a header and removes it from the input. */
    method ParseHeader(input: Bytes) returns (status: Status, rest: Bytes)
      requires Valid() && expectedPayloadLength == -1
      modifies this
      ensures status == Complete ==>
                && Valid() && payload == [] && expectedPayloadLength != -1 && header + rest == input && |rest| < |input|
                && FirstHeader(input, toInt) == GoodHeader(|header|, expectedPayloadLength)
      ensures status != Complete ==>
                && rest == input && Valid() && expectedPayloadLength == -1
                && !HasPacket(input, toInt) && (status == Invalid <==> FirstHeader(input, toInt).BadHeader?)
                && Pending(rest) == input && !IsComplete()
    {
      hide IndexOf;
      rest := input;
      assert Pending(rest) == input;
      var start := IndexOf(rest, PACKET_START, 0);
      if start.None? {
        return Incomplete, rest;
      }
      var numberOffset := start.value + |PACKET_START|;
      var newLine := IndexOf(rest, [NEW_LINE], numberOffset);
      if newLine.None? {
        return Incomplete, rest;
      }
      var payloadLen := toInt(rest[numberOffset..newLine.value]);
      if payloadLen.None? || payloadLen.value < 0 {
        return Invalid, rest;
      }
      expectedPayloadLength := payloadLen.value;
      header := rest[..newLine.value + 1];
      HeaderAlone(input, toInt);
      rest := rest[newLine.value + 1..];
      status := Complete;
    }

    /** The part that takes as much of the payload as there is. */
    method TakePayload(input: Bytes, ghost s: Bytes) returns (rest: Bytes)
      requires Valid() && expectedPayloadLength != -1 && s == header + payload + input
      requires FirstHeader(s, toInt) == GoodHeader(|header|, expectedPayloadLength)
      modifies this`payload
      ensures Valid() && Pending(rest) == s && |rest| <= |input|
      ensures IsComplete() ==> HasPacket(s, toInt) && FirstPayload(s, toInt) == payload && AfterPacket(s, toInt) == rest
      ensures !IsComplete() ==> !HasPacket(s, toInt)
      ensures input != [] && |old(payload)| < expectedPayloadLength ==> |rest| < |input|
    {
      hide FirstHeader;
      var bytesToAdd := expectedPayloadLength - |payload|;
      assert bytesToAdd >= 0;
      var taken := if bytesToAdd <= |input| then bytesToAdd else |input|;
      assert header + payload + input == header + (payload + input[..taken]) + input[taken..];
      payload := payload + input[..taken];
      rest := input[taken..];
      PayloadTaken(s, header, payload, rest);
    }

    /** `retrievePacket`, without the decoding. */
    method RetrievePacket() returns (r: Bytes)
      requires Valid() && IsComplete()
      modifies this
      ensures Valid() && expectedPayloadLength == -1 && r == old(payload)
    {
      r := payload;
      payload := [];
      expectedPayloadLength := -1;
      header := [];
    }
  }

  /** A header by itself is the header of the stream it was cut from. */
  lemma HeaderAlone(s: Bytes, toInt: ToInt)
    requires FirstHeader(s, toInt).GoodHeader?
    ensures var h := FirstHeader(s, toInt);
            FirstHeader(s[..h.end], toInt) == GoodHeader(h.end, h.size)
  {
    hide IndexOf;
    var h := FirstHeader(s, toInt);
    var c := s[..h.end];
    var start := IndexOf(s, PACKET_START, 0).value;
    IndexOfCut(s, h.end, PACKET_START, 0);
    IndexOfCut(s, h.end, [NEW_LINE], start + |PACKET_START|);
    assert c[start + |PACKET_START|..h.end - 1] == s[start + |PACKET_START|..h.end - 1];
  }

  lemma {:induction false} IndexOfCut(s: Bytes, end: nat, pattern: Bytes, from: nat)
    requires end <= |s| && IndexOf(s, pattern, from).Some? && IndexOf(s, pattern, from).value + |pattern| <= end
    ensures IndexOf(s[..end], pattern, from) == IndexOf(s, pattern, from)
    decreases |s| - from
  {
    assert s[..end][from..from + |pattern|] == s[from..from + |pattern|];
    if s[from..from + |pattern|] != pattern {
      IndexOfCut(s, end, pattern, from + 1);
    }
  }

  lemma PayloadTaken(s: Bytes, header: Bytes, payload: Bytes, rest: Bytes)
    requires s == header + payload + rest
    ensures |header| + |payload| <= |s| && s[|header|..|header| + |payload|] == payload
        && s[|header| + |payload|..] == rest
  {}

  // ---------------------------------------------------------------------
  // `SessionPacketReader`
  // ---------------------------------------------------------------------

  class SessionPacketReader {
    const currentPacket: SessionPacket
    var incomingData: Bytes
    /** The payloads handed on by `packetReceived`. */
    var emitted: seq<Bytes>
    /** Whether `errorOccurred` has been emitted. */
    var failed: bool
    /** Everything that has arrived. */
    ghost var received: Bytes

    /** What has been emitted depends only on what has arrived, not on the chunks it came in. */
    ghost predicate Valid()
      reads this, currentPacket
    {
      && currentPacket.Valid() && !currentPacket.IsComplete()
      && emitted == Payloads(received, currentPacket.toInt)
      && failed == FirstHeader(Rest(received, currentPacket.toInt), currentPacket.toInt).BadHeader?
      && currentPacket.Pending(incomingData) == Rest(received, currentPacket.toInt)
    }

    constructor (toInt: ToInt)
      ensures Valid() && fresh(currentPacket) && received == [] && emitted == [] && !failed
    {
      currentPacket := new SessionPacket(toInt);
      incomingData := [];
      emitted := [];
      failed := false;
      received := [];
      new;
      NothingInEmpty(toInt);
      assert currentPacket.Pending([]) == [];
      NoHeaderInEmpty(toInt);
    }

    /** The handler of `dataAvailable`. */
    method DataAvailable(data: Bytes)
      requires Valid()
      modifies this, currentPacket
      ensures Valid() && received == old(received) + data
    {
      hide HasPacket, FirstHeader, FirstPayload, AfterPacket, Payloads, Rest;
      ghost var toInt := currentPacket.toInt;
      ghost var tail := Rest(received, toInt);
      incomingData := incomingData + data;
      assert currentPacket.Pending(incomingData) == tail + data;
      StreamGrows(received, data, toInt);
      received := received + data;
      if failed {
        HeaderStable(tail, data, toInt);
      }
      assert data == [] ==> tail + data == tail;
      var more := true;
      while more && incomingData != []
        invariant received == old(received) + data
        invariant currentPacket.Valid() && !currentPacket.IsComplete() && currentPacket.toInt == toInt
        invariant emitted + Payloads(currentPacket.Pending(incomingData), toInt) == Payloads(received, toInt)
        invariant Rest(currentPacket.Pending(incomingData), toInt) == Rest(received, toInt)
        invariant failed ==> FirstHeader(currentPacket.Pending(incomingData), toInt).BadHeader?
        invariant more && incomingData == [] ==> !HasPacket(currentPacket.Pending(incomingData), toInt)
        invariant !more ==>
                    && !HasPacket(currentPacket.Pending(incomingData), toInt)
                    && failed == FirstHeader(currentPacket.Pending(incomingData), toInt).BadHeader?
        decreases more, |incomingData|
      {
        more := TakeOne();
      }
      NoneLeft(currentPacket.Pending(incomingData), toInt);
      assert emitted + [] == emitted;
      currentPacket.NotBadWithoutInput();
    }

    /** One turn of the loop; answers whether it goes on. */
    method TakeOne() returns (more: bool)
      requires currentPacket.Valid() && !currentPacket.IsComplete() && incomingData != []
      requires failed ==> FirstHeader(currentPacket.Pending(incomingData), currentPacket.toInt).BadHeader?
      modifies this`incomingData, this`emitted, this`failed, currentPacket
      ensures currentPacket.Valid() && !currentPacket.IsComplete()
      ensures var toInt, s, r := currentPacket.toInt, old(currentPacket.Pending(incomingData)),
          currentPacket.Pending(incomingData);
              && emitted + Payloads(r, toInt) == old(emitted) + Payloads(s, toInt) && Rest(r, toInt) == Rest(s, toInt)
              && (failed ==> FirstHeader(r, toInt).BadHeader?)
              && (more ==> |incomingData| < |old(incomingData)| && (incomingData == [] ==> !HasPacket(r, toInt)))
              && (!more ==> !HasPacket(r, toInt) && failed == FirstHeader(r, toInt).BadHeader?)
    {
      hide HasPacket, FirstHeader, FirstPayload, AfterPacket, Payloads, Rest;
      ghost var toInt, s := currentPacket.toInt, currentPacket.Pending(incomingData);
      GoodOrBad(s, toInt);
      var status, rest := currentPacket.ParseInput(incomingData);
      incomingData := rest;
      match status {
        case Invalid =>
          failed := true;
          BadIsLast(s, toInt);
          more := false;
        case Complete =>
          var payload := currentPacket.RetrievePacket();
          emitted := emitted + [payload];
          NothingInEmpty(toInt);
          assert currentPacket.Pending(rest) == rest;
          more := true;
        case Incomplete =>
          more := false;
      }
    }
  }

  function Whole(chunks: seq<Bytes>): Bytes {
    if chunks == [] then [] else chunks[0] + Whole(chunks[1..])
  }

  lemma {:induction false} WholeOneMore(chunks: seq<Bytes>, i: nat)
    requires i < |chunks|
    ensures Whole(chunks[..i + 1]) == Whole(chunks[..i]) + chunks[i]
    decreases i
  {
    if i > 0 {
      WholeOneMore(chunks[1..], i - 1);
      assert chunks[..i + 1][1..] == chunks[1..][..i] && chunks[..i][1..] == chunks[1..][..i - 1];
    } else {
      assert chunks[..1][1..] == [];
    }
  }

  /** However a stream is cut into chunks, the reader emits the packets of the whole stream. */
  method Feed(reader: SessionPacketReader, chunks: seq<Bytes>)
    requires reader.Valid() && reader.received == []
    modifies reader, reader.currentPacket
    ensures reader.Valid() && reader.emitted == Payloads(Whole(chunks), reader.currentPacket.toInt)
    ensures reader.failed ==
            FirstHeader(Rest(Whole(chunks), reader.currentPacket.toInt), reader.currentPacket.toInt).BadHeader?
  {
    hide Payloads, Rest, FirstHeader;
    assert chunks[..0] == [];
    for i := 0 to |chunks|
      invariant reader.Valid() && reader.received == Whole(chunks[..i])
    {
      WholeOneMore(chunks, i);
      reader.DataAvailable(chunks[i]);
    }
    assert chunks[..|chunks|] == chunks;
  }

  lemma NoHeaderInEmpty(toInt: ToInt)
    ensures FirstHeader([], toInt).NoHeader?
  {}

  lemma GoodOrBad(s: Bytes, toInt: ToInt)
    ensures HasPacket(s, toInt) ==> !FirstHeader(s, toInt).BadHeader?
    ensures HasPacket(s, toInt) ==>
              && Payloads(s, toInt) == [FirstPayload(s, toInt)] + Payloads(AfterPacket(s, toInt), toInt)
              && Rest(s, toInt) == Rest(AfterPacket(s, toInt), toInt)
  {}

  lemma NoneLeft(s: Bytes, toInt: ToInt)
    requires !HasPacket(s, toInt)
    ensures Payloads(s, toInt) == [] && Rest(s, toInt) == s
  {}

  lemma BadIsLast(s: Bytes, toInt: ToInt)
    requires FirstHeader(s, toInt).BadHeader?
    ensures !HasPacket(s, toInt) && Payloads(s, toInt) == [] && Rest(s, toInt) == s
  {}
}
