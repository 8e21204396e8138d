/**
  The ISO 15765-2 transport of the adapter as a state machine on values: one function per
  method of ISO15765Channel (firmware/comm_channel_iso15765.cpp). `IsoTpChannel` holds the
  class that updates the same state in place; the theorems are about the functions here.

  Frames that the channel puts on the bus and messages it hands to the PC are outputs.
 */
module IsoTp {
  import opened Bytes
  import opened CanFrame

  const PAYLOAD_SIZE: nat := 5120
  const BLOCK_UNLIMITED: u16 := 0xFFFF

  const TX_MSG_TYPE: u32 := 0x01
  const ISO15765_FIRST_FRAME: u32 := 0x02
  const ERR_FAILED: u8 := 0x07
  const ERR_BUFFER_FULL: u8 := 0x11
  const ERR_INVALID_FILTER_ID: u8 := 0x16

  type Payload = p: seq<u8> | |p| == PAYLOAD_SIZE witness seq(PAYLOAD_SIZE, _ => 0)

  /** Whatever the memory behind the eight data bytes of the scratch frame holds. A malformed
      length makes the channel copy from there. */
  type Beyond = b: seq<u8> | |b| == 248 witness seq(248, _ => 0)

  /** Messages to the PC: received data, transmit confirmations and first-frame indications
      (`RxData` with their status), and the answer to a send request. */
  datatype PcEvent = RxData(status: u32, data: seq<u8>) | RespondOk | RespondErr(code: u8)

  function Splice(buf: seq<u8>, at: nat, bytes: seq<u8>): (r: seq<u8>)
    requires at + |bytes| <= |buf|
    ensures |r| == |buf|
    ensures r[at..at + |bytes|] == bytes && r[..at] == buf[..at]
    ensures forall j :: 0 <= j < |buf| && !(at <= j < at + |bytes|) ==> r[j] == buf[j]
  {
    buf[..at] + bytes + buf[at + |bytes|..]
  }

  /** The transmitting half: `isSending`, `txPayload` and the flow-control fields. */
  datatype Sender = Sender(
    isSending: bool,
    clearToSend: bool,
    payload: Payload,
    size: nat,
    pos: nat,
    pci: u8,
    framesSent: u16,
    blockSize: u16,
    sepTime: u16,
    nextSendTime: nat)
  {
    ghost predicate Valid() {
      && pos <= size <= PAYLOAD_SIZE
      && (pos < size ==> isSending)
      && (clearToSend ==> isSending)
      && 0x20 <= pci < 0x30
      && (size == 0 || (12 <= size && 10 <= pos))
    }
  }

  /** The receiving half: `isReceiving`, `rxPayload` and `rx_frame_count`. */
  datatype Receiver = Receiver(isReceiving: bool, payload: Payload, size: nat, pos: nat, frameCount: u16)
  {
    ghost predicate Valid() {
      isReceiving ==>
        && size <= 4099
        && (pos == 10 || 10 <= pos < size)
        && frameCount < 8
    }
  }

  datatype Channel = Channel(
    f: Frame,
    used: seq<bool>,
    flowControlIds: seq<u32>,
    use29bitCid: bool,
    tx: Sender,
    rx: Receiver,
    blockSize: u16,
    sepTime: u16)
  {
    ghost predicate Valid() {
      |used| == |flowControlIds| && tx.Valid() && rx.Valid()
    }
  }

  datatype Out = Out(c: Channel, sent: seq<Frame>, toPc: seq<PcEvent>)

  /** `handle_fc` */
  function HandleFc(c: Channel, now: nat): (o: Out)
    requires c.Valid()
    ensures o.c.Valid()
  {
    var d := c.f.data;
    if d[0] != 0x30 then Out(c, [], [])
    else
      Out(c.(tx := c.tx.(
        blockSize := if d[1] == 0 then BLOCK_UNLIMITED else d[1],
        sepTime := d[2],
        clearToSend := true,
        isSending := true,
        framesSent := 0,
        nextSendTime := now + c.sepTime)), [], [])
  }

  /** How many payload bytes `tx_multi_frame` copies. */
  function ChunkLength(t: Sender): (n: u8)
    requires t.Valid()
    ensures n == Min(7, t.size - t.pos)
  {
    U8(Min(7, t.size - t.pos))
  }

  /** The frame that `tx_multi_frame` builds: what the chunk does not fill keeps its old contents. */
  function ConsecutiveFrame(c: Channel): Frame
    requires c.Valid()
  {
    var t := c.tx;
    c.f.(id := Id(t.payload), length := 8,
         data := Splice(c.f.data[0 := t.pci], 1, t.payload[t.pos..t.pos + ChunkLength(t)]))
  }

  /** The sending half after `tx_multi_frame`. */
  function AfterConsecutive(t: Sender, now: nat): (t': Sender)
    requires t.Valid()
    ensures t'.Valid()
  {
    var t1 := t.(
      pos := t.pos + ChunkLength(t),
      pci := if t.pci + 1 == 0x30 then 0x20 else t.pci + 1,
      framesSent := (t.framesSent + 1) % 0x1_0000);
    if t1.pos >= t1.size then t1.(clearToSend := false, isSending := false)
    else
      t1.(nextSendTime := now + t.sepTime,
          clearToSend := if t1.framesSent >= t.blockSize then false else t.clearToSend)
  }

  /** `tx_multi_frame` */
  function TxMultiFrame(c: Channel, now: nat): (o: Out)
    requires c.Valid()
    ensures o.c.Valid()
  {
    var frame := ConsecutiveFrame(c);
    var tx := AfterConsecutive(c.tx, now);
    Out(c.(f := frame, tx := tx), [frame],
        if tx.pos >= tx.size then [RxData(TX_MSG_TYPE, c.tx.payload[..4])] else [])
  }

  /** What `rx_single_frame` hands to the PC (normal addressing). */
  function SingleFrameMessage(f: Frame, beyond: Beyond): seq<u8>
    requires f.data[0] < 0x10
  {
    IdBytes(f.id) + (f.data + beyond)[1..1 + f.data[0]]
  }

  /** The `size` that `send_ff_indication` decodes from a first frame: an OR, not a sum. */
  function FirstFrameSize(d: Data): (size: nat)
    ensures size <= 4099
  {
    var (hi: int, lo: int) := (d[0] % 0x10, d[1]);
    BitOrBound(hi * 0x100, lo + 4);
    BitOr(hi * 0x100, lo + 4)
  }

  /** The receiver after an accepted first frame. */
  function BeginReassembly(rx: Receiver, f: Frame): (r: Receiver)
    ensures r.Valid()
  {
    Receiver(true, Splice(Splice(rx.payload, 4, f.data[2..8]), 0, IdBytes(f.id)), FirstFrameSize(f.data), 10, 0)
  }

  /** What became of a consecutive frame. */
  datatype Reassembly = Stored | BlockComplete | Complete(message: seq<u8>)

  /** The receiver after a consecutive frame, when it is receiving. */
  function ContinueReassembly(rx: Receiver, f: Frame, beyond: Beyond): (r: (Receiver, Reassembly))
    requires rx.Valid() && rx.isReceiving
    ensures r.0.Valid()
  {
    var maxCopy := U8(Min(rx.size - rx.pos, 7));
    var r := rx.(
      payload := Splice(rx.payload, rx.pos, (f.data + beyond)[1..1 + maxCopy]),
      pos := rx.pos + maxCopy,
      frameCount := rx.frameCount + 1);
    if r.pos >= r.size then (r.(isReceiving := false), Complete(r.payload[..r.size]))
    else if r.frameCount >= 8 then (r.(frameCount := 0), BlockComplete)
    else (r, Stored)
  }

  function FlowControl(f: Frame, id: u32, blockSize: u16, sepTime: u16): Frame {
    f.(id := id, length := 8, data := Splice(f.data, 0, [0x30, U8(blockSize), U8(sepTime)]))
  }

  /** `rx_multi_frame` */
  function RxMultiFrame(c: Channel, mailbox: nat, beyond: Beyond): (o: Out)
    requires c.Valid() && mailbox < |c.used|
    ensures o.c.Valid()
  {
    if !c.rx.isReceiving then Out(c, [], [])
    else
      var (rx, verdict) := ContinueReassembly(c.rx, c.f, beyond);
      match verdict
      case Complete(message) => Out(c.(rx := rx), [], [RxData(0, message)])
      case Stored => Out(c.(rx := rx), [], [])
      case BlockComplete =>
        var frame := FlowControl(c.f, c.flowControlIds[mailbox], c.tx.blockSize, c.tx.sepTime);
        Out(c.(rx := rx, f := frame), [frame], [])
  }

  /** `send_ff_indication` */
  function FirstFrameIndication(c: Channel, mailbox: nat): (o: Out)
    requires c.Valid() && mailbox < |c.used|
    ensures o.c.Valid()
  {
    var replyId := c.flowControlIds[mailbox];
    if replyId == 0 || c.rx.isReceiving then Out(c.(f := c.f.(id := replyId)), [], [])
    else
      var frame := FlowControl(c.f, replyId, c.blockSize, c.sepTime);
      Out(c.(f := frame, rx := BeginReassembly(c.rx, c.f)), [frame],
          [RxData(ISO15765_FIRST_FRAME, IdBytes(c.f.id))])
  }

  /** One mailbox of `update`: a frame is popped into the scratch frame and dispatched on its PCI. */
  function Receive(c: Channel, mailbox: nat, frame: Frame, beyond: Beyond, now: nat): (o: Out)
    requires c.Valid() && mailbox < |c.used|
    ensures o.c.Valid()
  {
    var c1 := c.(f := frame);
    match frame.data[0] / 0x10
    case 0 => Out(c1, [], [RxData(0, SingleFrameMessage(frame, beyond))])
    case 1 => FirstFrameIndication(c1, mailbox)
    case 2 => RxMultiFrame(c1, mailbox, beyond)
    case 3 => HandleFc(c1, now)
    case _ => Out(c1, [], [])
  }

  /** The end of `update`: send one consecutive frame when one is due. The clock is read for the check
      and, `later`, once the frame is sent. */
  function Tick(c: Channel, now: nat, later: nat): (o: Out)
    requires c.Valid()
    ensures o.c.Valid()
  {
    if c.tx.isSending && c.tx.clearToSend && now > c.tx.nextSendTime then TxMultiFrame(c, later)
    else Out(c, [], [])
  }

  /** One mailbox of `update`, when it is in use and a frame is waiting in it. */
  function Poll(c: Channel, mailbox: nat, waiting: Option<Frame>, beyond: Beyond, now: nat): (o: Out)
    requires c.Valid() && mailbox < |c.used|
    ensures o.c.Valid() && o.c.used == c.used
  {
    if c.used[mailbox] && waiting.Some? then Receive(c, mailbox, waiting.value, beyond, now) else Out(c, [], [])
  }

  /** `update` over the mailboxes from `i` on: `incoming[i]` is the frame waiting in mailbox `i`, `beyond[i]`
      and `clock[i]` what lies behind the scratch frame and what `millis()` returns while it is handled; the
      last two clock readings are those of the transmit check and of the frame it sends. */
  function UpdateFrom(c: Channel, incoming: seq<Option<Frame>>, beyond: seq<Beyond>, clock: seq<nat>, i: nat): (o: Out)
    requires c.Valid() && i <= |c.used| == |incoming| == |beyond| && |clock| == |incoming| + 2
    ensures o.c.Valid()
    decreases |incoming| - i
  {
    if i == |incoming| then Tick(c, clock[i], clock[i + 1])
    else
      var o1 := Poll(c, i, incoming[i], beyond[i], clock[i]);
      var o2 := UpdateFrom(o1.c, incoming, beyond, clock, i + 1);
      Out(o2.c, o1.sent + o2.sent, o1.toPc + o2.toPc)
  }

  /** `whole` is what the whole `update` does when its first `i` mailboxes have led to `c`, `sent`
      and `toPc`. */
  ghost predicate Remaining(c: Channel, incoming: seq<Option<Frame>>, beyond: seq<Beyond>, clock: seq<nat>, i: nat,
                            sent: seq<Frame>, toPc: seq<PcEvent>, whole: Out)
  {
    && c.Valid() && i <= |c.used| == |incoming| == |beyond| && |clock| == |incoming| + 2
    && var rest := UpdateFrom(c, incoming, beyond, clock, i);
       whole == Out(rest.c, sent + rest.sent, toPc + rest.toPc)
  }

  lemma NextMailbox(c: Channel, incoming: seq<Option<Frame>>, beyond: seq<Beyond>, clock: seq<nat>, i: nat,
                    sent: seq<Frame>, toPc: seq<PcEvent>, whole: Out)
    requires Remaining(c, incoming, beyond, clock, i, sent, toPc, whole) && i < |incoming|
    ensures var o := Poll(c, i, incoming[i], beyond[i], clock[i]);
            Remaining(o.c, incoming, beyond, clock, i + 1, sent + o.sent, toPc + o.toPc, whole)
  {
    var o := Poll(c, i, incoming[i], beyond[i], clock[i]);
    var rest := UpdateFrom(o.c, incoming, beyond, clock, i + 1);
    ConcatAssociative(sent, o.sent, rest.sent);
    ConcatAssociative(toPc, o.toPc, rest.toPc);
  }

  /** What `sendMsg` can be given without reading or writing outside its buffers: anything it refuses, and
      else a CAN id and a message that fits the payload buffer. */
  predicate Fits(txFlags: u32, size: nat, isSending: bool) {
    txFlags % 2 == 1 || (4 <= size && (isSending || size <= PAYLOAD_SIZE))
  }

  /** `sendMsg`. The address-type test reads `tx_flags & (ISO15765_ADDR_TYPE > 0)`: bit 0. */
  function SendMsg(c: Channel, txFlags: u32, data: seq<u8>, respond: bool): (o: Out)
    requires c.Valid() && Fits(txFlags, |data|, c.tx.isSending)
    ensures o.c.Valid()
  {
    if txFlags % 2 == 1 then Out(c, [], [RespondErr(ERR_FAILED)])
    else if |data| <= 11 then
      var frame := Frame(Id(data), c.use29bitCid, 0, 4, 8,
                         Splice(c.f.data[0 := |data| - 4], 1, data[4..]));
      Out(c.(f := frame), [frame], (if respond then [RespondOk] else []) + [RxData(TX_MSG_TYPE, data[..4])])
    else if c.tx.isSending then Out(c, [], if respond then [RespondErr(ERR_BUFFER_FULL)] else [])
    else
      var frame := Frame(Id(data), c.use29bitCid, 0, 4, 8, FirstFrameHeader(|data| - 4) + data[4..10]);
      Out(c.(f := frame, tx := c.tx.(
        payload := Splice(c.tx.payload, 0, data),
        size := |data|,
        pos := 10,
        clearToSend := false,
        isSending := true,
        pci := 0x21)), [frame], [])
  }

  /** Consecutive frames in a message of `bytes` bytes, id included: the first frame carries ten, each of the
      others seven. */
  function FramesFor(bytes: nat): nat { if bytes <= 10 then 0 else FramesFor(bytes - 7) + 1 }

  lemma {:induction false} FramesForBounds(bytes: nat)
    ensures bytes > 10 ==> 7 * FramesFor(bytes) <= bytes - 4 < 7 * FramesFor(bytes) + 7
  {
    if bytes <= 10 {
    } else {
      FramesForBounds(bytes - 7);
    }
  }

  /** The two length bytes of a first frame: 0x10 with the four high bits, then the low byte. */
  function FirstFrameHeader(length: nat): (h: seq<u8>)
    ensures |h| == 2
  {
    [0x10 + length / 0x100 % 0x10, length % 0x100]
  }

  /** `ioctl_set` of ISO15765_BS and ISO15765_STMIN */
  function Configure(c: Channel, blockSize: u16, sepTime: u16): (o: Out)
    requires c.Valid()
    ensures o.c.Valid()
  {
    Out(c.(blockSize := blockSize, sepTime := sepTime), [], [])
  }

  /** `addFilter` with parameters of the right kind and lengths */
  function AddFilter(c: Channel, mailbox: nat, flowControlId: u32): (o: Out)
    requires c.Valid() && mailbox < |c.used|
    ensures o.c.Valid()
  {
    if c.used[mailbox] then Out(c, [], [RespondErr(ERR_FAILED)])
    else
      Out(c.(used := c.used[mailbox := true], flowControlIds := c.flowControlIds[mailbox := flowControlId]),
          [], [RespondOk])
  }

  /** `removeFilter`, which gives up whatever is being received and the clearance of what is being sent */
  function RemoveFilter(c: Channel, mailbox: nat): (o: Out)
    requires c.Valid() && mailbox < |c.used|
    ensures o.c.Valid()
  {
    if c.used[mailbox] then
      Out(c.(used := c.used[mailbox := false], flowControlIds := c.flowControlIds[mailbox := 0],
             rx := c.rx.(isReceiving := false), tx := c.tx.(clearToSend := false)), [], [RespondOk])
    else Out(c, [], [RespondErr(ERR_INVALID_FILTER_ID)])
  }

  /** The messages among what the PC is told: received data, neither confirmations nor indications. */
  function Messages(events: seq<PcEvent>): seq<seq<u8>> {
    if events == [] then []
    else (if events[0].RxData? && events[0].status == 0 then [events[0].data] else []) + Messages(events[1..])
  }

  lemma OneMessage(event: PcEvent)
    ensures Messages([event]) == if event.RxData? && event.status == 0 then [event.data] else []
  {
    assert [event][1..] == [];
  }

  // ---- Runs -------------------------------------------------------------------------------

  /** Everything that can happen to a channel, in the order it happens. An `update` is its
      receptions followed by one `Clock`. */
  datatype Input =
    | Arrive(mailbox: nat, frame: Frame, beyond: Beyond, now: nat)
    | Clock(now: nat, later: nat)
    | Send(txFlags: u32, data: seq<u8>, respond: bool)
    | Set(blockSize: u16, sepTime: u16)
    | Add(mailbox: nat, flowControlId: u32)
    | Remove(mailbox: nat)

  predicate Possible(input: Input, mailboxes: nat) {
    match input
    case Arrive(mailbox, _, _, _) => mailbox < mailboxes
    case Send(txFlags, data, _) => Fits(txFlags, |data|, false)
    case Add(mailbox, _) => mailbox < mailboxes
    case Remove(mailbox) => mailbox < mailboxes
    case _ => true
  }

  function Step(c: Channel, input: Input): (o: Out)
    requires c.Valid() && Possible(input, |c.used|)
    ensures o.c.Valid() && |o.c.used| == |c.used|
  {
    match input
    case Arrive(mailbox, frame, beyond, now) => Receive(c, mailbox, frame, beyond, now)
    case Clock(now, later) => Tick(c, now, later)
    case Send(txFlags, data, respond) => SendMsg(c, txFlags, data, respond)
    case Set(blockSize, sepTime) => Configure(c, blockSize, sepTime)
    case Add(mailbox, flowControlId) => AddFilter(c, mailbox, flowControlId)
    case Remove(mailbox) => RemoveFilter(c, mailbox)
  }

  /** A channel as `new ISO15765Channel()` and `setup` leave it; some filters may be there already. */
  ghost predicate Initial(c: Channel) {
    && |c.used| == |c.flowControlIds|
    && c.tx.(payload := c.rx.payload) ==
         Sender(false, false, c.rx.payload, 0, 0, 0x20, 0, 0, 0, c.tx.nextSendTime)
    && !c.rx.isReceiving
  }

  /** What `update` consists of, from mailbox `i` on: the receptions of exactly the mailboxes in use that have
      a frame waiting, in ascending order, and one clock input. */
  function Inputs(used: seq<bool>, incoming: seq<Option<Frame>>, beyond: seq<Beyond>, clock: seq<nat>, i: nat)
    : (inputs: seq<Input>)
    requires i <= |used| == |incoming| == |beyond| && |clock| == |incoming| + 2
    ensures AllPossible(inputs, |used|)
    decreases |used| - i
  {
    if i == |used| then [Clock(clock[i], clock[i + 1])]
    else
      (if used[i] && incoming[i].Some? then [Arrive(i, incoming[i].value, beyond[i], clock[i])] else [])
      + Inputs(used, incoming, beyond, clock, i + 1)
  }

  lemma RunFirst(c: Channel, first: Input, rest: seq<Input>)
    requires c.Valid() && AllPossible([first] + rest, |c.used|)
    ensures Possible(first, |c.used|) && AllPossible(rest, |c.used|)
    ensures var o1 := Step(c, first);
            var o2 := Run(o1.c, rest);
            Run(c, [first] + rest) == Out(o2.c, o1.sent + o2.sent, o1.toPc + o2.toPc)
  {
    assert ([first] + rest)[0] == first && ([first] + rest)[1..] == rest;
    assert forall i :: 0 <= i < |rest| ==> rest[i] == ([first] + rest)[i + 1];
  }

  lemma PollTakes(c: Channel, mailbox: nat, frame: Frame, beyond: Beyond, now: nat)
    requires c.Valid() && mailbox < |c.used| && c.used[mailbox]
    ensures Poll(c, mailbox, Some(frame), beyond, now) == Step(c, Arrive(mailbox, frame, beyond, now))
  {
  }

  lemma PollSkips(c: Channel, mailbox: nat, waiting: Option<Frame>, beyond: Beyond, now: nat)
    requires c.Valid() && mailbox < |c.used| && !(c.used[mailbox] && waiting.Some?)
    ensures Poll(c, mailbox, waiting, beyond, now) == Out(c, [], [])
  {
  }

  /** An `update` is the run of these inputs. */
  lemma {:induction false} UpdateIsRun(c: Channel, incoming: seq<Option<Frame>>, beyond: seq<Beyond>,
                                       clock: seq<nat>, i: nat)
    requires c.Valid() && i <= |c.used| == |incoming| == |beyond| && |clock| == |incoming| + 2
    ensures UpdateFrom(c, incoming, beyond, clock, i) == Run(c, Inputs(c.used, incoming, beyond, clock, i))
    decreases |incoming| - i
  {
    var inputs := Inputs(c.used, incoming, beyond, clock, i);
    if i == |incoming| {
      RunFirst(c, inputs[0], []);
      assert [inputs[0]] + [] == inputs;
    } else {
      var rest := Inputs(c.used, incoming, beyond, clock, i + 1);
      var o := Poll(c, i, incoming[i], beyond[i], clock[i]);
      UpdateIsRun(o.c, incoming, beyond, clock, i + 1);
      if c.used[i] && incoming[i].Some? {
        PollTakes(c, i, incoming[i].value, beyond[i], clock[i]);
        RunFirst(c, inputs[0], rest);
      } else {
        PollSkips(c, i, incoming[i], beyond[i], clock[i]);
        assert inputs == rest;
        var tail := Run(c, rest);
        assert [] + tail.sent == tail.sent && [] + tail.toPc == tail.toPc;
      }
    }
  }

  predicate AllPossible(inputs: seq<Input>, mailboxes: nat) {
    forall i :: 0 <= i < |inputs| ==> Possible(inputs[i], mailboxes)
  }

  function Run(c: Channel, inputs: seq<Input>): (o: Out)
    requires c.Valid() && AllPossible(inputs, |c.used|)
    ensures o.c.Valid() && |o.c.used| == |c.used|
    decreases |inputs|
  {
    if inputs == [] then Out(c, [], [])
    else
      var o1 := Step(c, inputs[0]);
      var o2 := Run(o1.c, inputs[1..]);
      Out(o2.c, o1.sent + o2.sent, o1.toPc + o2.toPc)
  }
}
