/**
  The length-prefixed messages between driver and adapter: written by `to_slice` (driver/src/comm.rs)
  and `send_message` (firmware/comm_a0.cpp), read piece by piece from the serial port by the firmware
  of both adapters (firmware/comm_a0.cpp, firmware/comm_m2.cpp) and by the driver for the A0.
 */
module SerialFraming {
  import opened Bytes

  const COMM_MSG_SIZE: nat := 8192
  const COMM_MSG_ARG_SIZE: nat := COMM_MSG_SIZE - 4
  const MAX_BUFFER_SIZE: nat := 16

  datatype Message = Message(id: u8, kind: u8, args: seq<u8>)

  /** The message types of the driver; `TestMessage` exists in its tests only. */
  datatype MsgType =
    | Unknown | LogMsg | OpenChannel | CloseChannel | SetChannelFilter | RemoveChannelFilter | TransmitChannelData
    | ReceiveChannelData | ReadBatt | IoctlSet | IoctlGet | InitLinChannel | StatusMsg | GetFwVersion

  function Code(t: MsgType): u8 {
    match t
    case Unknown => 0x00
    case LogMsg => 0x01
    case OpenChannel => 0x02
    case CloseChannel => 0x03
    case SetChannelFilter => 0x04
    case RemoveChannelFilter => 0x05
    case TransmitChannelData => 0x06
    case ReceiveChannelData => 0x07
    case ReadBatt => 0x08
    case IoctlSet => 0x09
    case IoctlGet => 0x10
    case InitLinChannel => 0x11
    case StatusMsg => 0xAA
    case GetFwVersion => 0xAB
  }

  /** `MsgType::from_u8` */
  function FromU8(kind: u8): MsgType {
    match kind
    case 0x01 => LogMsg
    case 0x02 => OpenChannel
    case 0x03 => CloseChannel
    case 0x04 => SetChannelFilter
    case 0x05 => RemoveChannelFilter
    case 0x06 => TransmitChannelData
    case 0x07 => ReceiveChannelData
    case 0x08 => ReadBatt
    case 0x09 => IoctlSet
    case 0x10 => IoctlGet
    case 0x11 => InitLinChannel
    case 0xAA => StatusMsg
    case 0xAB => GetFwVersion
    case _ => Unknown
  }

  /** What the driver makes of the type of a message */
  function MsgTypeOf(kind: u8): u8 { Code(FromU8(kind)) }

  /** Every type of the driver survives, and the types that do are exactly those the firmware uses: every other one
      becomes `Unknown`. */
  lemma TypesSurvive(t: MsgType, kind: u8)
    ensures FromU8(Code(t)) == t
    ensures MsgTypeOf(kind) == if kind <= 9 || 0x10 <= kind <= 0x11 || 0xAA <= kind <= 0xAB then kind else 0
  {
  }

  predicate Sendable(m: Message) {
    |m.args| <= COMM_MSG_ARG_SIZE && MsgTypeOf(m.kind) == m.kind
  }

  /** The messages that both sides can send: up to 8188 bytes, of the types both know. */
  lemma SendableMessages(m: Message)
    ensures Sendable(m) <==>
              && |m.args| <= 8188
              && (m.kind <= 9 || 0x10 <= m.kind <= 0x11 || 0xAA <= m.kind <= 0xAB)
  {
    TypesSurvive(Unknown, m.kind);
  }

  function Payload(m: Message): seq<u8> { [m.id, m.kind] + m.args }

  function LengthBytes(n: nat): (b: seq<u8>)
    requires n < 0x1_0000
    ensures |b| == 2
  {
    [U8(n), n / 0x100]
  }

  function LengthField(b: seq<u8>): nat
    requires |b| >= 2
  {
    var (lo: int, hi: int) := (b[0], b[1]);
    hi * 0x100 + lo
  }

  function Encode(m: Message): seq<u8>
    requires Sendable(m)
  {
    LengthBytes(|m.args| + 2) + Payload(m)
  }

  predicate AllSendable(msgs: seq<Message>) { forall m :: m in msgs ==> Sendable(m) }

  function Stream(msgs: seq<Message>): seq<u8>
    requires AllSendable(msgs)
  {
    if msgs == [] then [] else Encode(msgs[0]) + Stream(msgs[1..])
  }

  // ---------------------------------------------------------------------------------------------
  // The readers

  /** The readers differ in how many bytes must be there before they take a length field, and in what
      they make of the bytes of a message. */
  datatype Variant = FirmwareA0 | FirmwareM2 | DriverA0 {
    function Start(): (n: nat)
      ensures 2 <= n <= 3
    {
      if FirmwareA0? then 3 else 2
    }

    function Parse(b: seq<u8>): Message
      requires |b| >= 2
    {
      if DriverA0? then Message(b[0], MsgTypeOf(b[1]), b[2..Min(|b|, COMM_MSG_ARG_SIZE + 2)])
      else Message(b[0], b[1], b[2..])
    }
  }

  /** `body` is what was read of a message of `target` bytes. */
  datatype Reader = Reader(reading: bool, target: nat, body: seq<u8>)

  datatype Polled = Polled(reader: Reader, consumed: nat, message: Option<Message>)

  /** What one poll relies on. */
  predicate Pollable(v: Variant, r: Reader, available: seq<u8>) {
    && (r.reading ==> |r.body| < r.target && r.target >= 2)
    && (!r.reading && |available| >= v.Start() ==> LengthField(available) >= 2)
  }

  /** One poll of the reader, with the bytes `available` in the serial buffer */
  function Poll(v: Variant, r: Reader, available: seq<u8>): (p: Polled)
    requires Pollable(v, r, available)
    ensures p.consumed <= |available|
  {
    if !r.reading && |available| >= v.Start() then
      Polled(Reader(true, LengthField(available), []), 2, None)
    else if r.reading && |available| > 0 then
      var n := Min(r.target - |r.body|, |available|);
      var body := r.body + available[..n];
      if |body| == r.target then Polled(Reader(false, r.target, body), n, Some(v.Parse(body)))
      else Polled(Reader(true, r.target, body), n, None)
    else Polled(r, 0, None)
  }

  /** Whatever bytes are read as a message: the firmware takes them as they are, the driver makes an unknown type of
      every code it does not know and cuts what would not fit its struct. */
  lemma WhatIsRead(v: Variant, b: seq<u8>)
    requires |b| >= 2
    ensures var m, known := v.Parse(b), b[1] <= 9 || 0x10 <= b[1] <= 0x11 || 0xAA <= b[1] <= 0xAB;
            if v == DriverA0 then
              && m.id == b[0] && m.kind == (if known then b[1] else 0)
              && |m.args| == Min(|b| - 2, 8188) && m.args <= b[2..]
            else [m.id, m.kind] + m.args == b
  {
    TypesSurvive(Unknown, b[1]);
  }

  /** A poll takes nothing only if too little is there: within a message no byte at all, before one fewer than two,
      or three in the firmware of the A0. */
  lemma NothingTaken(v: Variant, r: Reader, available: seq<u8>)
    requires Pollable(v, r, available)
    ensures Poll(v, r, available).consumed == 0
       <==> if r.reading then available == [] else |available| < if v == FirmwareA0 then 3 else 2
    ensures Poll(v, r, available).consumed == 0 ==> Poll(v, r, available) == Polled(r, 0, None)
  {
  }

  // ---------------------------------------------------------------------------------------------
  // A stream in transit

  /** The serial line: the reader, the bytes in its serial buffer, those still on the way, and the
      messages delivered. */
  datatype Line = Line(reader: Reader, buffered: seq<u8>, coming: seq<u8>, delivered: seq<Message>)

  /** Some bytes arrive, or the reader is polled. */
  datatype Event = Arrive(count: nat) | PollReader

  predicate LineInv(l: Line, msgs: seq<Message>)
    requires AllSendable(msgs)
  {
    var k := |l.delivered|;
    && k <= |msgs| && l.delivered == msgs[..k]
    && (!l.reader.reading ==> l.buffered + l.coming == Stream(msgs[k..]))
    && (l.reader.reading ==>
        && k < |msgs| && l.reader.target == |msgs[k].args| + 2 && |l.reader.body| < l.reader.target
        && l.reader.body + (l.buffered + l.coming) == Payload(msgs[k]) + Stream(msgs[k + 1..]))
  }

  lemma LengthIsLittleEndian(b: seq<u8>)
    requires |b| >= 2
    ensures LengthField(b) == LittleEndian(b[..2])
  {
    var d := b[..2];
    assert d[1..][1..] == [] && LittleEndian(d[1..]) == b[1];
  }

  lemma LengthRoundTrip(n: nat)
    requires n < 0x1_0000
    ensures LengthField(LengthBytes(n)) == n
  {
    Digits(n / 0x100, U8(n));
  }

  /** At the start of a message its length field is first in the buffer. */
  lemma LengthAhead(msgs: seq<Message>, k: nat, buffered: seq<u8>, coming: seq<u8>)
    requires AllSendable(msgs) && k <= |msgs| && |buffered| >= 2
    requires buffered + coming == Stream(msgs[k..])
    ensures k < |msgs| && LengthField(buffered) == |msgs[k].args| + 2
    ensures buffered[2..] + coming == Payload(msgs[k]) + Stream(msgs[k + 1..])
  {
    assert Stream(msgs[|msgs|..]) == [];
    assert |buffered + coming| >= 2;
    var m := msgs[k];
    assert Sendable(m);
    var length, rest := LengthBytes(|m.args| + 2), Payload(m) + Stream(msgs[k + 1..]);
    assert msgs[k..][1..] == msgs[k + 1..];
    ConcatAssociative(length, Payload(m), Stream(msgs[k + 1..]));
    assert buffered + coming == length + rest;
    assert buffered[2..] + coming == (buffered + coming)[2..] == rest;
    assert buffered[..2] == (buffered + coming)[..2] == length;
    LengthRoundTrip(|m.args| + 2);
  }

  lemma PollIsDefined(v: Variant, l: Line, msgs: seq<Message>)
    requires AllSendable(msgs) && LineInv(l, msgs)
    ensures Pollable(v, l.reader, l.buffered)
  {
    if !l.reader.reading && |l.buffered| >= v.Start() {
      LengthAhead(msgs, |l.delivered|, l.buffered, l.coming);
    }
  }

  function AfterPoll(l: Line, p: Polled): Line
    requires p.consumed <= |l.buffered|
  {
    Line(p.reader, l.buffered[p.consumed..], l.coming,
         if p.message.Some? then l.delivered + [p.message.value] else l.delivered)
  }

  lemma ParsePayload(v: Variant, m: Message)
    requires Sendable(m)
    ensures v.Parse(Payload(m)) == m
  {
    assert Payload(m)[2..] == m.args;
  }

  /** Reading `n` more bytes of a message */
  lemma ReadKeepsInv(v: Variant, l: Line, msgs: seq<Message>)
    requires AllSendable(msgs) && LineInv(l, msgs) && l.reader.reading && l.buffered != []
    ensures Pollable(v, l.reader, l.buffered)
    ensures LineInv(AfterPoll(l, Poll(v, l.reader, l.buffered)), msgs)
  {
    var k := |l.delivered|;
    var m := msgs[k];
    var n := Min(l.reader.target - |l.reader.body|, |l.buffered|);
    var body, rest := l.reader.body + l.buffered[..n], l.buffered[n..] + l.coming;
    assert l.buffered + l.coming == l.buffered[..n] + rest;
    ConcatAssociative(l.reader.body, l.buffered[..n], rest);
    assert body + rest == Payload(m) + Stream(msgs[k + 1..]);
    if |body| == l.reader.target {
      assert body == (body + rest)[..|body|] == Payload(m);
      assert rest == (body + rest)[|body|..] == Stream(msgs[k + 1..]);
      ParsePayload(v, m);
      assert msgs[..k + 1] == msgs[..k] + [m];
    }
  }

  lemma PollKeepsInv(v: Variant, l: Line, msgs: seq<Message>)
    requires AllSendable(msgs) && LineInv(l, msgs)
    ensures Pollable(v, l.reader, l.buffered)
    ensures LineInv(AfterPoll(l, Poll(v, l.reader, l.buffered)), msgs)
  {
    PollIsDefined(v, l, msgs);
    if !l.reader.reading && |l.buffered| >= v.Start() {
      LengthAhead(msgs, |l.delivered|, l.buffered, l.coming);
      var d := AfterPoll(l, Poll(v, l.reader, l.buffered));
      assert d.reader.body + (d.buffered + d.coming) == d.buffered + d.coming;
    } else if l.reader.reading && l.buffered != [] {
      ReadKeepsInv(v, l, msgs);
    } else {
      assert l.buffered[0..] == l.buffered;
    }
  }

  function Step(v: Variant, l: Line, msgs: seq<Message>, e: Event): (r: Line)
    requires AllSendable(msgs) && LineInv(l, msgs)
    ensures LineInv(r, msgs)
  {
    match e
    case Arrive(count) =>
      var n := Min(count, |l.coming|);
      assert l.buffered + l.coming[..n] + l.coming[n..] == l.buffered + l.coming;
      l.(buffered := l.buffered + l.coming[..n], coming := l.coming[n..])
    case PollReader =>
      PollKeepsInv(v, l, msgs);
      AfterPoll(l, Poll(v, l.reader, l.buffered))
  }

  function Run(v: Variant, l: Line, msgs: seq<Message>, events: seq<Event>): (r: Line)
    requires AllSendable(msgs) && LineInv(l, msgs)
    ensures LineInv(r, msgs)
    decreases |events|
  {
    if events == [] then l else Run(v, Step(v, l, msgs, events[0]), msgs, events[1..])
  }

  function Fresh(msgs: seq<Message>): Line
    requires AllSendable(msgs)
  {
    Line(Reader(false, 0, []), [], Stream(msgs), [])
  }

  lemma FreshInv(msgs: seq<Message>)
    requires AllSendable(msgs)
    ensures LineInv(Fresh(msgs), msgs)
  {
    assert [] + Stream(msgs) == Stream(msgs) && msgs[0..] == msgs;
  }

  /** Everything has arrived and another poll would do nothing. */
  predicate Quiescent(v: Variant, l: Line) {
    l.coming == [] && (if l.reader.reading then l.buffered == [] else |l.buffered| < v.Start())
  }

  lemma QuiescentIsDone(v: Variant, l: Line, msgs: seq<Message>)
    requires AllSendable(msgs) && LineInv(l, msgs) && Quiescent(v, l)
    ensures l.delivered == msgs && l.buffered == []
  {
    var k := |l.delivered|;
    assert l.buffered + l.coming == l.buffered;
    StreamLength(msgs[k..]);
    assert l.delivered == msgs[..|l.delivered|];
  }

  lemma StreamLength(msgs: seq<Message>)
    requires AllSendable(msgs)
    ensures msgs != [] ==> |Stream(msgs)| >= 4
  {
  }

  /** However the stream is cut up and whenever the reader is polled, what it delivered is the beginning
      of what was sent; and once everything has arrived and polling does nothing more, all of it was
      delivered and no byte is left over. */
  lemma Framing(v: Variant, msgs: seq<Message>, events: seq<Event>)
    requires AllSendable(msgs)
    ensures LineInv(Fresh(msgs), msgs)
    ensures var r := Run(v, Fresh(msgs), msgs, events);
            && r.delivered <= msgs
            && (r.reader.reading ==> |r.reader.body| < r.reader.target <= 8190)
            && (Quiescent(v, r) ==> r.delivered == msgs && r.buffered == [])
  {
    FreshInv(msgs);
    var r := Run(v, Fresh(msgs), msgs, events);
    assert r.reader.reading ==> Sendable(msgs[|r.delivered|]);
    if Quiescent(v, r) {
      QuiescentIsDone(v, r, msgs);
    }
  }

  /** A poll that finds something to do takes at least one byte, so polling comes to an end. */
  lemma PollsAreFinite(v: Variant, l: Line, msgs: seq<Message>)
    requires AllSendable(msgs) && LineInv(l, msgs)
    requires l.coming == [] && !Quiescent(v, l)
    ensures |Step(v, l, msgs, PollReader).buffered| < |l.buffered|
  {
    PollKeepsInv(v, l, msgs);
  }

  // ---------------------------------------------------------------------------------------------
  // Writers and readers as the programs update their buffers

  /** `CommMsg::to_slice` */
  method ToSlice(m: Message) returns (params: seq<u8>)
    requires Sendable(m)
    ensures params == Encode(m)
  {
    params := [];
    params := params + LengthBytes(|m.args| + 2);
    params := params + [m.id];
    params := params + [m.kind];
    params := params + m.args;
  }

  /** `send_message` of the A0 firmware */
  method SendMessage(m: Message) returns (tmp: array<u8>)
    requires Sendable(m)
    ensures fresh(tmp) && tmp[..] == Encode(m)
  {
    var size := |m.args|;
    tmp := new u8[size + 4];
    tmp[0] := U8(size + 2);
    tmp[1] := U8((size + 2) / 0x100);
    tmp[2] := m.id;
    tmp[3] := m.kind;
    forall i | 0 <= i < size { tmp[4 + i] := m.args[i]; }
    assert tmp[..4] == LengthBytes(size + 2) + [m.id, m.kind];
    assert tmp[4..] == m.args;
    assert tmp[..] == tmp[..4] + tmp[4..];
    ConcatAssociative(LengthBytes(size + 2), [m.id, m.kind], m.args);
  }

  /** The reader of the A0 firmware. The bytes `available` are those in the buffer of the UART driver. */
  class A0Port {
    const tmpQueue: array<u8>
    var readPos: nat
    var targetRead: nat
    var isReading: bool
    var lastId: u8

    ghost predicate Valid()
      reads this
    {
      tmpQueue.Length == COMM_MSG_SIZE && readPos <= COMM_MSG_SIZE && targetRead <= COMM_MSG_SIZE
    }

    ghost function State(): Reader
      requires Valid()
      reads this, tmpQueue
    {
      Reader(isReading, targetRead, tmpQueue[..readPos])
    }

    method ReadMessage(available: seq<u8>) returns (consumed: nat, msg: Option<Message>)
      requires Valid() && Pollable(FirmwareA0, State(), available)
      requires !isReading && |available| >= 2 ==> LengthField(available) <= COMM_MSG_SIZE
      modifies this, tmpQueue
      ensures Valid()
      ensures Polled(State(), consumed, msg) == Poll(FirmwareA0, old(State()), available)
      ensures lastId == if msg.Some? && msg.value.id != 0 then msg.value.id else old(lastId)
    {
      consumed, msg := 0, None;
      if |available| > 2 && !isReading {
        targetRead := LengthField(available);
        isReading, readPos, consumed := true, 0, 2;
      } else if |available| > 0 && isReading {
        consumed := Append(available);
        if readPos >= targetRead {
          isReading := false;
          var m := Message(tmpQueue[0], tmpQueue[1], tmpQueue[2..targetRead]);
          if m.id != 0 { lastId := m.id; }
          msg := Some(m);
          assert tmpQueue[..readPos][2..] == tmpQueue[2..targetRead];
        }
      }
    }

    /** Reads what is there of the current message into the buffer. */
    method Append(available: seq<u8>) returns (n: nat)
      requires Valid() && readPos < targetRead
      modifies this`readPos, tmpQueue
      ensures n == Min(targetRead - old(readPos), |available|) && readPos == old(readPos) + n
      ensures tmpQueue[..readPos] == old(tmpQueue[..readPos]) + available[..n]
    {
      n := Min(targetRead - readPos, |available|);
      forall i | 0 <= i < n { tmpQueue[readPos + i] := available[i]; }
      assert tmpQueue[readPos..readPos + n] == available[..n];
      assert tmpQueue[..readPos + n] == tmpQueue[..readPos] + tmpQueue[readPos..readPos + n];
      readPos := readPos + n;
    }
  }

  /** The reader of the M2 firmware, which allocates a buffer for each message */
  class M2Port {
    var tempbuf: array<u8>
    var readCount: nat
    var readTarget: nat
    var isReadingMsg: bool
    var lastId: u8

    ghost predicate Valid()
      reads this
    {
      readCount <= readTarget == tempbuf.Length
    }

    ghost function State(): Reader
      requires Valid()
      reads this, tempbuf
    {
      Reader(isReadingMsg, readTarget, tempbuf[..readCount])
    }

    method ReadMessage(available: seq<u8>) returns (consumed: nat, msg: Option<Message>)
      requires Valid() && Pollable(FirmwareM2, State(), available)
      modifies this, tempbuf
      ensures Valid() && (tempbuf == old(tempbuf) || fresh(tempbuf))
      ensures Polled(State(), consumed, msg) == Poll(FirmwareM2, old(State()), available)
      ensures lastId == if msg.Some? && msg.value.id != 0 then msg.value.id else old(lastId)
    {
      consumed, msg := 0, None;
      if !isReadingMsg && |available| >= 2 {
        isReadingMsg, readCount, readTarget, consumed := true, 0, LengthField(available), 2;
        tempbuf := new u8[readTarget];
      } else if isReadingMsg && |available| > 0 {
        consumed := Append(available);
        if readCount == readTarget {
          isReadingMsg := false;
          var m := Message(tempbuf[0], tempbuf[1], tempbuf[2..readTarget]);
          if m.id != 0 { lastId := m.id; }
          msg := Some(m);
          assert tempbuf[..readCount][2..] == tempbuf[2..readTarget];
        }
      }
    }

    /** Reads what is there of the current message into the buffer. */
    method Append(available: seq<u8>) returns (maxRead: nat)
      requires Valid()
      modifies this`readCount, tempbuf
      ensures maxRead == Min(readTarget - old(readCount), |available|) && readCount == old(readCount) + maxRead
      ensures tempbuf[..readCount] == old(tempbuf[..readCount]) + available[..maxRead]
    {
      maxRead := Min(readTarget - readCount, |available|);
      forall i | 0 <= i < maxRead { tempbuf[readCount + i] := available[i]; }
      assert tempbuf[readCount..readCount + maxRead] == available[..maxRead];
      assert tempbuf[..readCount + maxRead] == tempbuf[..readCount] + tempbuf[readCount..readCount + maxRead];
      readCount := readCount + maxRead;
    }
  }

  /** The reader thread of the driver for the A0 */
  class DriverPort {
    const readBuffer: array<u8>
    var readCount: nat
    var readTarget: nat
    var isReading: bool

    ghost predicate Valid()
      reads this
    {
      readBuffer.Length == COMM_MSG_SIZE * MAX_BUFFER_SIZE && readCount < 0x1_0000 && readTarget < 0x1_0000
    }

    ghost function State(): Reader
      requires Valid()
      reads this, readBuffer
    {
      Reader(isReading, readTarget, readBuffer[..readCount])
    }

    method ReadOnce(available: seq<u8>) returns (consumed: nat, msg: Option<Message>)
      requires Valid() && Pollable(DriverA0, State(), available)
      modifies this, readBuffer
      ensures Valid()
      ensures Polled(State(), consumed, msg) == Poll(DriverA0, old(State()), available)
    {
      consumed, msg := 0, None;
      if |available| >= 2 && !isReading {
        readTarget := LengthField(available);
        readCount, isReading, consumed := 0, true, 2;
      } else if isReading && |available| > 0 {
        consumed := Append(available);
        if readCount == readTarget {
          isReading := false;
          var args := readBuffer[2..readTarget];
          msg := Some(Message(readBuffer[0], MsgTypeOf(readBuffer[1]), args[..Min(|args|, COMM_MSG_ARG_SIZE)]));
          assert readBuffer[..readCount][2..Min(readCount, COMM_MSG_ARG_SIZE + 2)]
              == args[..Min(|args|, COMM_MSG_ARG_SIZE)];
        }
      }
    }

    /** Reads what is there of the current message into the buffer. */
    method Append(available: seq<u8>) returns (maxRead: nat)
      requires Valid() && readCount < readTarget
      modifies this`readCount, readBuffer
      ensures maxRead == Min(readTarget - old(readCount), |available|) && readCount == old(readCount) + maxRead
      ensures readBuffer[..readCount] == old(readBuffer[..readCount]) + available[..maxRead]
    {
      maxRead := Min(readTarget - readCount, |available|);
      forall i | 0 <= i < maxRead { readBuffer[readCount + i] := available[i]; }
      assert readBuffer[readCount..readCount + maxRead] == available[..maxRead];
      assert readBuffer[..readCount + maxRead] == readBuffer[..readCount] + readBuffer[readCount..readCount + maxRead];
      readCount := readCount + maxRead;
    }
  }
}
