/**
  Two ISO-TP channels joined by a lossless FIFO link in each direction, both sending and
  receiving at once, under every interleaving of receptions, transmit ticks, sends and
  configuration changes, whatever block sizes are configured.
 */
module IsoTpLink {
  import opened Bytes
  import opened CanFrame
  import opened IsoTp
  import opened IsoTpLength
  import opened IsoTpWire

  // ---- The receiving half on its own ------------------------------------------------------

  /** What a frame does to the receiving half: the receiver after it, the messages it completes
      and the number of flow controls sent in answer. */
  datatype Effect = Effect(rx: Receiver, delivered: seq<seq<u8>>, flowControls: nat)

  function NothingBeyond(): Beyond { seq(248, _ => 0) }

  function Take(rx: Receiver, f: Frame): (e: Effect)
    requires rx.Valid()
    ensures e.rx.Valid()
  {
    match f.data[0] / 0x10
    case 0 => Effect(rx, [SingleFrameMessage(f, NothingBeyond())], 0)
    case 1 => if rx.isReceiving then Effect(rx, [], 0) else Effect(BeginReassembly(rx, f), [], 1)
    case 2 =>
      if !rx.isReceiving then Effect(rx, [], 0)
      else (
        var (r, verdict) := ContinueReassembly(rx, f, NothingBeyond());
        match verdict
        case Complete(message) => Effect(r, [message], 0)
        case BlockComplete => Effect(r, [], 1)
        case Stored => Effect(r, [], 0)
      )
    case _ => Effect(rx, [], 0)
  }

  function Join(first: Effect, second: Effect): Effect {
    Effect(second.rx, first.delivered + second.delivered, first.flowControls + second.flowControls)
  }

  /** The receiver once every frame in flight has arrived. */
  function Drain(rx: Receiver, frames: seq<Frame>): (e: Effect)
    requires rx.Valid()
    ensures e.rx.Valid()
    decreases |frames|
  {
    if frames == [] then Effect(rx, [], 0)
    else
      var e := Take(rx, frames[0]);
      Join(e, Drain(e.rx, frames[1..]))
  }

  lemma {:induction false} DrainAppend(rx: Receiver, frames: seq<Frame>, f: Frame)
    requires rx.Valid()
    ensures var e := Drain(rx, frames);
            Drain(rx, frames + [f]) == Join(e, Take(e.rx, f))
    decreases |frames|
  {
    if frames == [] {
      assert (frames + [f])[1..] == [];
      JoinNothing(rx, Take(rx, f));
    } else {
      var first := Take(rx, frames[0]);
      var rest := Drain(first.rx, frames[1..]);
      assert (frames + [f])[1..] == frames[1..] + [f];
      DrainAppend(first.rx, frames[1..], f);
      JoinAssociative(first, rest, Take(rest.rx, f));
    }
  }

  lemma JoinAssociative(e1: Effect, e2: Effect, e3: Effect)
    ensures Join(Join(e1, e2), e3) == Join(e1, Join(e2, e3))
  {
    ConcatAssociative(e1.delivered, e2.delivered, e3.delivered);
  }

  lemma JoinNothing(rx: Receiver, e: Effect)
    ensures Join(Effect(rx, [], 0), e) == e == Join(e, Effect(e.rx, [], 0))
  {
    assert [] + e.delivered == e.delivered == e.delivered + [];
  }

  // ---- Frames on the wire -----------------------------------------------------------------

  predicate IsFlowControl(f: Frame) { f.data[0] == 0x30 }

  /** The frames this transport produces. */
  predicate OnWire(f: Frame) {
    && (f.data[0] < 0x10 ==> f.data[0] <= 7)
    && (f.data[0] / 0x10 == 1 ==> FirstFrameSize(f.data) >= 12)
    && (f.data[0] >= 0x30 ==> IsFlowControl(f))
  }

  ghost predicate Sane(rx: Receiver) { rx.Valid() && (rx.isReceiving ==> rx.size >= 12) }

  /** Copying at most seven bytes from the second on stays within the frame. */
  lemma WithinFrame(d: Data, beyond: Beyond, n: nat)
    requires n <= 7
    ensures (d + beyond)[1..1 + n] == d[1..1 + n]
  {
    assert (d + beyond)[..8] == d;
    assert (d + beyond)[1..1 + n] == (d + beyond)[..8][1..1 + n];
  }

  lemma SliceOfSlice(s: seq<u8>, at: nat, m: nat, n: nat)
    requires at + m <= |s| && n <= m
    ensures s[at..at + m][..n] == s[at..at + n]
  {
  }

  /** A reception projects to `Take`: memory beyond the frame plays no part, one flow control
      leaves for each that `Take` counts, with the configured block size in answer to a first frame and the
      one last received otherwise, and only a flow control touches the sending half. */
  ghost predicate Projects(c: Channel, f: Frame, o: Out)
    requires c.rx.Valid()
  {
    var e := Take(c.rx, f);
    && o.c.Valid() && o.c.used == c.used && o.c.flowControlIds == c.flowControlIds && o.c.blockSize == c.blockSize
    && o.c.rx == e.rx && Sane(e.rx)
    && Messages(o.toPc) == e.delivered
    && (if e.flowControls == 0 then o.sent == []
        else
          && e.flowControls == 1 && |o.sent| == 1 && IsFlowControl(o.sent[0])
          && o.sent[0].data[1] == U8(if f.data[0] / 0x10 == 1 then c.blockSize else c.tx.blockSize))
    && (if IsFlowControl(f) then
          && e.flowControls == 0
          && o.c.tx.clearToSend && o.c.tx.framesSent == 0
          && o.c.tx.payload == c.tx.payload && o.c.tx.size == c.tx.size && o.c.tx.pos == c.tx.pos
          && o.c.tx.blockSize == (if f.data[1] == 0 then BLOCK_UNLIMITED else f.data[1])
        else o.c.tx == c.tx)
  }

  lemma ReceiveProjects(c: Channel, mailbox: nat, f: Frame, beyond: Beyond, now: nat)
    requires c.Valid() && mailbox < |c.used| && c.flowControlIds[mailbox] != 0
    requires Sane(c.rx) && OnWire(f)
    ensures Projects(c, f, Receive(c, mailbox, f, beyond, now))
  {
    match f.data[0] / 0x10
    case 0 => SingleFrameProjects(c, mailbox, f, beyond, now);
    case 1 => FirstFrameProjects(c, mailbox, f, beyond, now);
    case 2 => ConsecutiveFrameProjects(c, mailbox, f, beyond, now);
    case _ =>
  }

  lemma SingleFrameProjects(c: Channel, mailbox: nat, f: Frame, beyond: Beyond, now: nat)
    requires c.Valid() && mailbox < |c.used| && Sane(c.rx) && f.data[0] <= 7
    ensures Projects(c, f, Receive(c, mailbox, f, beyond, now))
  {
    var n := f.data[0];
    WithinFrame(f.data, beyond, n);
    WithinFrame(f.data, NothingBeyond(), n);
    OneMessage(RxData(0, SingleFrameMessage(f, beyond)));
  }

  lemma FirstFrameProjects(c: Channel, mailbox: nat, f: Frame, beyond: Beyond, now: nat)
    requires c.Valid() && mailbox < |c.used| && c.flowControlIds[mailbox] != 0
    requires Sane(c.rx) && OnWire(f) && f.data[0] / 0x10 == 1
    ensures Projects(c, f, Receive(c, mailbox, f, beyond, now))
  {
    OneMessage(RxData(ISO15765_FIRST_FRAME, IdBytes(f.id)));
    FlowControlFields(f, c.flowControlIds[mailbox], c.blockSize, c.sepTime);
  }

  /** A reassembly of at least 12 bytes never looks beyond the frame. */
  lemma ContinueWithinFrame(rx: Receiver, f: Frame, beyond: Beyond)
    requires Sane(rx) && rx.isReceiving
    ensures ContinueReassembly(rx, f, beyond) == ContinueReassembly(rx, f, NothingBeyond())
    ensures Sane(ContinueReassembly(rx, f, beyond).0)
  {
    var n := U8(Min(rx.size - rx.pos, 7));
    WithinFrame(f.data, beyond, n);
    WithinFrame(f.data, NothingBeyond(), n);
  }

  lemma ConsecutiveFrameProjects(c: Channel, mailbox: nat, f: Frame, beyond: Beyond, now: nat)
    requires c.Valid() && mailbox < |c.used| && Sane(c.rx) && f.data[0] / 0x10 == 2
    ensures Projects(c, f, Receive(c, mailbox, f, beyond, now))
  {
    if c.rx.isReceiving {
      ContinueWithinFrame(c.rx, f, beyond);
      var (rx, verdict) := ContinueReassembly(c.rx, f, beyond);
      match verdict
      case Complete(message) => OneMessage(RxData(0, message));
      case BlockComplete => FlowControlFields(f, c.flowControlIds[mailbox], c.tx.blockSize, c.tx.sepTime);
      case Stored =>
    }
  }

  lemma FlowControlFields(f: Frame, id: u32, blockSize: u16, sepTime: u16)
    ensures var r := FlowControl(f, id, blockSize, sepTime); IsFlowControl(r) && r.data[1] == U8(blockSize)
  {
    var head := [0x30, U8(blockSize), U8(sepTime)];
    var r := FlowControl(f, id, blockSize, sepTime);
    assert r.data[0..3] == head;
    assert r.data[0] == r.data[0..3][0] && r.data[1] == r.data[0..3][1];
  }

  // ---- The system -------------------------------------------------------------------------

  /** One end: its channel, the mailbox its peer's frames arrive in, the frames in flight to the
      peer, and the history of its PC: messages accepted for sending, messages whose last needed
      frame has been sent, and messages received. */
  datatype Node = Node(
    c: Channel,
    mailbox: nat,
    outbox: seq<Frame>,
    accepted: seq<seq<u8>>,
    handedOver: seq<seq<u8>>,
    received: seq<seq<u8>>)

  datatype System = System(x: Node, y: Node) {
    function Swap(): System { System(y, x) }
  }

  datatype Event =
    | Deliver(beyond: Beyond, now: nat)
    | Transmit(now: nat, later: nat)
    | Submit(txFlags: u32, data: seq<u8>, respond: bool)
    | Reconfigure(blockSize: u16, sepTime: u16)

  /** What a caller can ask for at all: a message with a CAN id that fits the payload buffer. */
  predicate Feasible(e: Event) { e.Submit? ==> 4 <= |e.data| <= PAYLOAD_SIZE }

  /** All of them but those of 4100 to 4107 bytes, of which the receiver expects less than the first frame
      carries. */
  predicate Sendable(size: nat) { 4 <= size <= 11 || Transferable(size) }

  predicate Allowed(e: Event) { e.Submit? ==> Sendable(|e.data|) }

  /** The bytes the receiver collects of the message being sent; 0 when there is none. */
  function Target(tx: Sender): nat {
    if tx.size < 12 then 0 else DecodedSize(tx.size)
  }

  /** A segmented message of which the receiver still needs bytes. */
  predicate InProgress(tx: Sender) { tx.pos < Target(tx) }

  /** The part of an accepted message that its receiver gets: all of it when the first frame's
      length decodes correctly. */
  function Image(data: seq<u8>): seq<u8>
    requires |data| >= 4
  {
    if |data| <= 11 then data else data[..DecodedSize(|data|)]
  }

  function Submitted(x: Node, data: seq<u8>, o: Out): Node {
    if o.sent == [] then x.(c := o.c)
    else x.(
      c := o.c,
      outbox := x.outbox + o.sent,
      accepted := x.accepted + [data],
      handedOver := if |data| <= 11 then x.handedOver + [data] else x.handedOver)
  }

  function HandedOver(x: Node, tx': Sender): seq<seq<u8>>
    requires x.c.tx.size <= PAYLOAD_SIZE
  {
    if InProgress(x.c.tx) && !InProgress(tx') then x.handedOver + [x.c.tx.payload[..Target(x.c.tx)]]
    else x.handedOver
  }

  ghost predicate WellFormed(s: System) {
    && s.x.c.Valid() && s.x.mailbox < |s.x.c.used|
    && s.y.c.Valid() && s.y.mailbox < |s.y.c.used|
  }

  /** A step of the left end. */
  function StepX(s: System, e: Event): (t: System)
    requires WellFormed(s) && Feasible(e)
    ensures WellFormed(t)
  {
    var x := s.x;
    match e
    case Deliver(beyond, now) =>
      if s.y.outbox == [] then s
      else
        var o := Receive(x.c, x.mailbox, s.y.outbox[0], beyond, now);
        System(x.(c := o.c, outbox := x.outbox + o.sent, received := x.received + Messages(o.toPc)),
               s.y.(outbox := s.y.outbox[1..]))
    case Transmit(now, later) =>
      var o := Tick(x.c, now, later);
      s.(x := x.(
        c := o.c,
        outbox := x.outbox + o.sent,
        handedOver := HandedOver(x, o.c.tx)))
    case Submit(txFlags, data, respond) =>
      var o := SendMsg(x.c, txFlags, data, respond);
      s.(x := Submitted(x, data, o))
    case Reconfigure(blockSize, sepTime) => s.(x := x.(c := Configure(x.c, blockSize, sepTime).c))
  }

  /** A step of either end. */
  datatype Action = Left(e: Event) | Right(e: Event)

  function SystemStep(s: System, a: Action): (t: System)
    requires WellFormed(s) && Feasible(a.e)
    ensures WellFormed(t)
  {
    match a
    case Left(e) => StepX(s, e)
    case Right(e) => StepX(s.Swap(), e).Swap()
  }

  // ---- The invariant ----------------------------------------------------------------------

  ghost predicate ChannelInv(c: Channel, mailbox: nat) {
    && c.Valid()
    && mailbox < |c.used| && c.flowControlIds[mailbox] != 0
    && Sane(c.rx)
    && (c.tx.size == 0 || Transferable(c.tx.size))
  }

  ghost predicate AllOnWire(frames: seq<Frame>) { forall f :: f in frames ==> OnWire(f) }

  ghost predicate NodeInv(n: Node) { ChannelInv(n.c, n.mailbox) && AllOnWire(n.outbox) }

  function Images(messages: seq<seq<u8>>): seq<seq<u8>> {
    if messages == [] then []
    else [if |messages[0]| >= 4 then Image(messages[0]) else messages[0]] + Images(messages[1..])
  }

  ghost predicate Accounted(x: Node)
    requires x.c.Valid()
  {
    && multiset(Images(x.accepted)) ==
         multiset(x.handedOver) +
         if InProgress(x.c.tx) then multiset{x.c.tx.payload[..Target(x.c.tx)]} else multiset{}
  }

  /** A receiver that has taken every frame in flight is exactly as far as its sender. */
  ghost predicate InStep(target: nat, tx: Sender, rx: Receiver) {
    if tx.pos < target then
      && rx.isReceiving && rx.size == target && rx.pos == tx.pos <= PAYLOAD_SIZE
      && rx.payload[..tx.pos] == tx.payload[..tx.pos]
    else !rx.isReceiving
  }

  /** The transfer from `x` to `y`: what `y` has and what is in flight is what `x` has handed over. */
  ghost predicate TransferInv(x: Node, y: Node)
    requires y.c.rx.Valid()
  {
    var e := Drain(y.c.rx, x.outbox);
    && y.received + e.delivered == x.handedOver
    && InStep(Target(x.c.tx), x.c.tx, e.rx)
  }

  ghost predicate Inv(s: System) {
    && NodeInv(s.x) && NodeInv(s.y)
    && Accounted(s.x) && Accounted(s.y)
    && TransferInv(s.x, s.y) && TransferInv(s.y, s.x)
  }

  ghost predicate InitialSystem(s: System) {
    && NodeInv(s.x) && NodeInv(s.y) && Initial(s.x.c) && Initial(s.y.c)
    && s.x.outbox == [] && s.x.accepted == s.x.handedOver == s.x.received == []
    && s.y.outbox == [] && s.y.accepted == s.y.handedOver == s.y.received == []
  }

  lemma InvInitially(s: System)
    requires InitialSystem(s)
    ensures Inv(s)
  {
  }

  // ---- Each step keeps it -----------------------------------------------------------------

  /** A frame that the receiving half does not react to may join the link unnoticed. */
  lemma DrainAppendFlowControls(rx: Receiver, frames: seq<Frame>, more: seq<Frame>)
    requires rx.Valid() && |more| <= 1 && forall f :: f in more ==> IsFlowControl(f)
    ensures Drain(rx, frames + more) == Drain(rx, frames)
  {
    if more == [] {
      assert frames + more == frames;
    } else {
      var f := more[0];
      assert more == [f] && f in more;
      var e := Drain(rx, frames);
      DrainAppend(rx, frames, f);
      JoinNothing(rx, e);
      assert Take(e.rx, f) == Effect(e.rx, [], 0);
    }
  }

  /** A reception at `x`, seen by the transfer towards it. */
  lemma DeliverKeepsIncoming(x: Node, y: Node, o: Out)
    requires NodeInv(x) && TransferInv(y, x) && y.outbox != []
    requires Projects(x.c, y.outbox[0], o)
    ensures TransferInv(y.(outbox := y.outbox[1..]),
                        x.(c := o.c, outbox := x.outbox + o.sent, received := x.received + Messages(o.toPc)))
  {
    var first := Take(x.c.rx, y.outbox[0]);
    ConcatAssociative(x.received, first.delivered, Drain(first.rx, y.outbox[1..]).delivered);
  }

  /** A reception at `x`, seen by the transfer from it. */
  lemma DeliverKeepsOutgoing(x: Node, y: Node, o: Out)
    requires NodeInv(x) && NodeInv(y) && TransferInv(x, y) && y.outbox != []
    requires Projects(x.c, y.outbox[0], o)
    ensures TransferInv(x.(c := o.c, outbox := x.outbox + o.sent, received := x.received + Messages(o.toPc)),
                        y.(outbox := y.outbox[1..]))
  {
    DrainAppendFlowControls(y.c.rx, x.outbox, o.sent);
  }

  lemma OnWireAppend(frames: seq<Frame>, f: Frame)
    requires AllOnWire(frames) && OnWire(f)
    ensures AllOnWire(frames + [f])
  {
  }

  lemma DeliverKeepsChannel(c: Channel, mailbox: nat, f: Frame, o: Out)
    requires ChannelInv(c, mailbox) && OnWire(f) && Projects(c, f, o)
    ensures ChannelInv(o.c, mailbox)
    ensures o.sent != [] ==> |o.sent| == 1 && OnWire(o.sent[0])
  {
  }

  lemma DeliverKeepsNodes(x: Node, y: Node, o: Out)
    requires NodeInv(x) && NodeInv(y) && Accounted(x) && y.outbox != []
    requires Projects(x.c, y.outbox[0], o)
    ensures var x' := x.(c := o.c, outbox := x.outbox + o.sent, received := x.received + Messages(o.toPc));
            NodeInv(x') && Accounted(x') && NodeInv(y.(outbox := y.outbox[1..]))
  {
    var f := y.outbox[0];
    assert f in y.outbox;
    DeliverKeepsChannel(x.c, x.mailbox, f, o);
    if o.sent != [] {
      assert o.sent == [o.sent[0]];
      OnWireAppend(x.outbox, o.sent[0]);
    } else {
      assert x.outbox + [] == x.outbox;
    }
  }

  /** What `tx_multi_frame` does to the sending half, and the frame it sends. */
  ghost predicate SendsConsecutive(tx: Sender, tx': Sender, f: Frame)
    requires tx.Valid()
  {
    var n := Min(7, tx.size - tx.pos);
    && f.data[0] == tx.pci
    && f.data[1..1 + n] == tx.payload[tx.pos..tx.pos + n]
    && tx'.payload == tx.payload && tx'.size == tx.size && tx'.pos == tx.pos + n
    && tx'.framesSent == (tx.framesSent + 1) % 0x1_0000
    && tx'.blockSize == tx.blockSize
    && tx'.clearToSend == (tx.clearToSend && tx'.pos < tx.size && tx'.framesSent < tx.blockSize)
    && (tx'.pos == tx.size ==> !tx'.isSending)
  }

  lemma TxMultiFrameSendsConsecutive(c: Channel, now: nat)
    requires c.Valid()
    ensures var o := TxMultiFrame(c, now);
            && |o.sent| == 1 && SendsConsecutive(c.tx, o.c.tx, o.sent[0])
            && o.c.rx == c.rx && o.c.used == c.used && o.c.flowControlIds == c.flowControlIds
            && o.c.blockSize == c.blockSize
  {
    var t := c.tx;
    var n := ChunkLength(t);
    var d := Splice(c.f.data[0 := t.pci], 1, t.payload[t.pos..t.pos + n]);
    assert d[0] == t.pci && d[1..1 + n] == t.payload[t.pos..t.pos + n];
    assert ConsecutiveFrame(c).data == d;
  }

  /** A consecutive frame keeps a receiver that is to collect `target` bytes in step, and
      completes the message when the sender passes `target`. */
  lemma ConsecutiveKeepsInStep(target: nat, tx: Sender, tx': Sender, f: Frame, rx: Receiver)
    requires tx.Valid() && target <= tx.size && SendsConsecutive(tx, tx', f)
    requires rx.Valid() && InStep(target, tx, rx)
    ensures var e := Take(rx, f);
            && InStep(target, tx', e.rx)
            && e.delivered == if tx.pos < target <= tx'.pos then [tx.payload[..target]] else []
  {
    if rx.isReceiving {
      var n := Min(target - rx.pos, 7);
      ChunkReassembled(tx, tx', f, rx, n);
      assert U8(n) == n;
    }
  }

  lemma ChunkReassembled(tx: Sender, tx': Sender, f: Frame, rx: Receiver, n: nat)
    requires tx.Valid() && SendsConsecutive(tx, tx', f) && n <= Min(7, tx.size - tx.pos)
    requires rx.pos == tx.pos && rx.payload[..tx.pos] == tx.payload[..tx.pos]
    ensures Splice(rx.payload, rx.pos, (f.data + NothingBeyond())[1..1 + n])[..rx.pos + n] == tx.payload[..tx.pos + n]
  {
    var m := Min(7, tx.size - tx.pos);
    var chunk := (f.data + NothingBeyond())[1..1 + n];
    WithinFrame(f.data, NothingBeyond(), n);
    SliceOfSlice(f.data, 1, m, n);
    SliceOfSlice(tx.payload, tx.pos, m, n);
    assert chunk == tx.payload[tx.pos..tx.pos + n];
    var r := Splice(rx.payload, rx.pos, chunk);
    assert r[..rx.pos + n] == r[..rx.pos] + r[rx.pos..rx.pos + n] == tx.payload[..tx.pos] + chunk;
    assert tx.payload[..tx.pos + n] == tx.payload[..tx.pos] + chunk;
  }

  /** A consecutive frame sent by `x`, seen by the transfer from it. */
  lemma TransmitKeepsOutgoing(x: Node, x': Node, y: Node, f: Frame)
    requires NodeInv(x) && NodeInv(y) && TransferInv(x, y)
    requires x.c.tx.clearToSend && SendsConsecutive(x.c.tx, x'.c.tx, f)
    requires x'.outbox == x.outbox + [f] && x'.handedOver == HandedOver(x, x'.c.tx)
    ensures TransferInv(x', y)
  {
    var e := Drain(y.c.rx, x.outbox);
    DrainAppend(y.c.rx, x.outbox, f);
    ConsecutiveKeepsInStep(Target(x.c.tx), x.c.tx, x'.c.tx, f, e.rx);
  }

  /** A frame leaves `x`: the transfer towards `x` does not notice. */
  lemma SendKeepsIncoming(x: Node, x': Node, y: Node)
    requires x.c.rx.Valid() && x'.c.rx == x.c.rx && x'.received == x.received
    requires TransferInv(y, x)
    ensures TransferInv(y, x')
  {
  }

  lemma TransmitKeepsNode(x: Node, x': Node, f: Frame)
    requires NodeInv(x) && Accounted(x)
    requires x.c.tx.clearToSend && SendsConsecutive(x.c.tx, x'.c.tx, f)
    requires x'.c.Valid() && x'.c.rx == x.c.rx && x'.c.used == x.c.used && x'.c.flowControlIds == x.c.flowControlIds
    requires x'.c.blockSize == x.c.blockSize
    requires x' == x.(c := x'.c, outbox := x.outbox + [f], handedOver := HandedOver(x, x'.c.tx))
    ensures NodeInv(x') && Accounted(x')
  {
    assert OnWire(f);
    OnWireAppend(x.outbox, f);
    assert Target(x.c.tx) == Target(x'.c.tx);
  }

  // Submissions.

  lemma {:induction false} ImagesAppend(messages: seq<seq<u8>>, data: seq<u8>)
    requires |data| >= 4
    ensures Images(messages + [data]) == Images(messages) + [Image(data)]
  {
    if messages == [] {
      assert [data][1..] == [];
    } else {
      assert (messages + [data])[1..] == messages[1..] + [data];
      ImagesAppend(messages[1..], data);
    }
  }

  /** A single frame carries the whole message. */
  lemma SingleFrameCarries(f: Frame, data: seq<u8>, beyond: Beyond)
    requires 4 <= |data| <= 11 && f.id == Id(data)
    requires f.data[0] == |data| - 4 && f.data[1..|data| - 3] == data[4..]
    ensures SingleFrameMessage(f, beyond) == data
  {
    IdBytesOfId(data);
    WithinFrame(f.data, beyond, f.data[0]);
  }

  /** Single-frame delivery: a message of 4 to 11 bytes that one channel sends is told to the PC of any
      channel that receives the frame, whatever both are otherwise doing, and disturbs no transfer. */
  lemma SingleFrameRoundTrip(from: Channel, to: Channel, data: seq<u8>, respond: bool, mailbox: nat, beyond: Beyond,
                             now: nat)
    requires from.Valid() && to.Valid() && 4 <= |data| <= 11 && mailbox < |to.used|
    ensures var sent := SendMsg(from, 0, data, respond).sent;
            && |sent| == 1
            && var o := Receive(to, mailbox, sent[0], beyond, now);
               o.toPc == [RxData(0, data)] && o.sent == [] && o.c.tx == to.tx && o.c.rx == to.rx
  {
    SendMsgSubmits(from, 0, data, respond);
    SingleFrameCarries(SendMsg(from, 0, data, respond).sent[0], data, beyond);
  }

  lemma SubmitSingleKeepsOutgoing(x: Node, x': Node, y: Node, f: Frame, data: seq<u8>)
    requires x.c.Valid() && y.c.rx.Valid() && TransferInv(x, y)
    requires 4 <= |data| <= 11 && f.id == Id(data)
    requires f.data[0] == |data| - 4 && f.data[1..|data| - 3] == data[4..]
    requires x'.c.tx == x.c.tx && x'.outbox == x.outbox + [f] && x'.handedOver == x.handedOver + [data]
    ensures TransferInv(x', y)
  {
    var e := Drain(y.c.rx, x.outbox);
    DrainAppend(y.c.rx, x.outbox, f);
    SingleFrameCarries(f, data, NothingBeyond());
    assert Take(e.rx, f) == Effect(e.rx, [data], 0);
    assert y.received + (e.delivered + [data]) == x.handedOver + [data];
  }

  lemma SubmitSingleIsAccounted(x: Node, x': Node, data: seq<u8>)
    requires x.c.Valid() && x'.c.Valid() && Accounted(x) && 4 <= |data| <= 11
    requires x'.c.tx == x.c.tx && x'.handedOver == x.handedOver + [data] && x'.accepted == x.accepted + [data]
    ensures Accounted(x')
  {
    ImagesAppend(x.accepted, data);
  }

  /** The receiver that a first frame starts has the first ten bytes and the decoded length. */
  lemma FirstFrameStarts(f: Frame, data: seq<u8>, rx: Receiver)
    requires Transferable(|data|) && f.id == Id(data) && f.data == FirstFrameHeader(|data| - 4) + data[4..10]
    ensures var r := BeginReassembly(rx, f);
            r.isReceiving && r.pos == 10 && r.size == DecodedSize(|data|) >= 12 && r.payload[..10] == data[..10]
            && f.data[0] / 0x10 == 1
  {
    FirstFrameLength(|data| - 4, f.data);
    DecodedRange(|data|);
    assert f.data[2..8] == data[4..10];
    FirstTenBytes(rx.payload, f.id, data);
  }

  lemma FirstTenBytes(payload: Payload, id: u32, data: seq<u8>)
    requires |data| >= 10 && id == Id(data)
    ensures Splice(Splice(payload, 4, data[4..10]), 0, IdBytes(id))[..10] == data[..10]
  {
    IdBytesOfId(data);
    var p1 := Splice(payload, 4, data[4..10]);
    var p2 := Splice(p1, 0, IdBytes(id));
    assert p2[..4] == p2[0..4] == data[..4];
    assert p2[4..10] == p1[4..10] == data[4..10];
    assert p2[..10] == p2[..4] + p2[4..10];
  }

  /** `sendMsg` has put the message into the sending half and its first frame on the link. */
  ghost predicate StartsSegmented(tx: Sender, f: Frame, data: seq<u8>) {
    && Transferable(|data|)
    && f.id == Id(data) && f.data == FirstFrameHeader(|data| - 4) + data[4..10]
    && tx.payload[..|data|] == data && tx.size == |data| && tx.pos == 10
  }

  lemma FirstFrameKeepsInStep(tx: Sender, f: Frame, data: seq<u8>, rx: Receiver)
    requires rx.Valid() && !rx.isReceiving && StartsSegmented(tx, f, data)
    ensures var e := Take(rx, f);
            InStep(Target(tx), tx, e.rx) && e.delivered == [] && InProgress(tx)
    ensures FirstFrameSize(f.data) >= 12
  {
    FirstFrameStarts(f, data, rx);
    SliceOfSlice(tx.payload, 0, |data|, 10);
    assert tx.payload[..10] == data[..10];
  }

  lemma SubmitSegmentedKeepsOutgoing(x: Node, x': Node, y: Node, f: Frame, data: seq<u8>)
    requires x.c.Valid() && y.c.rx.Valid() && TransferInv(x, y)
    requires !x.c.tx.isSending && StartsSegmented(x'.c.tx, f, data)
    requires x'.outbox == x.outbox + [f] && x'.handedOver == x.handedOver
    ensures TransferInv(x', y) && OnWire(f)
  {
    var e := Drain(y.c.rx, x.outbox);
    DrainAppend(y.c.rx, x.outbox, f);
    FirstFrameKeepsInStep(x'.c.tx, f, data, e.rx);
    assert f.data[0] / 0x10 == 1;
    assert e.delivered + [] == e.delivered;
  }

  lemma SubmitSegmentedIsAccounted(x: Node, x': Node, f: Frame, data: seq<u8>)
    requires x.c.Valid() && x'.c.Valid() && Accounted(x)
    requires !x.c.tx.isSending && StartsSegmented(x'.c.tx, f, data) && InProgress(x'.c.tx)
    requires x'.handedOver == x.handedOver && x'.accepted == x.accepted + [data]
    ensures Accounted(x')
  {
    var tx := x'.c.tx;
    SliceOfSlice(tx.payload, 0, |data|, Target(tx));
    assert tx.payload[..Target(tx)] == Image(data);
    ImagesAppend(x.accepted, data);
  }

  /** `sendMsg` by cases: nothing leaves, a single frame leaves, or a first frame leaves. */
  ghost predicate Submits(c: Channel, data: seq<u8>, o: Out) {
    && Sendable(|data|)
    && o.c.Valid() && o.c.rx == c.rx && o.c.used == c.used && o.c.flowControlIds == c.flowControlIds
    && o.c.blockSize == c.blockSize && o.c.tx.blockSize == c.tx.blockSize
    && (if o.sent == [] then o.c == c
        else
          && |o.sent| == 1 && o.sent[0].id == Id(data)
          && if |data| <= 11 then
               && o.c.tx == c.tx
               && o.sent[0].data[0] == |data| - 4 && o.sent[0].data[1..|data| - 3] == data[4..]
             else
               && !c.tx.isSending && StartsSegmented(o.c.tx, o.sent[0], data) && !o.c.tx.clearToSend)
  }

  lemma SendMsgSubmits(c: Channel, txFlags: u32, data: seq<u8>, respond: bool)
    requires c.Valid() && Sendable(|data|)
    ensures Submits(c, data, SendMsg(c, txFlags, data, respond))
  {
  }

  /** What a step of the left end is for its channel, if it is anything. */
  function AsInput(s: System, e: Event): Option<Input> {
    match e
    case Deliver(beyond, now) =>
      if s.y.outbox == [] then None else Some(Arrive(s.x.mailbox, s.y.outbox[0], beyond, now))
    case Transmit(now, later) => Some(Clock(now, later))
    case Submit(txFlags, data, respond) => Some(Send(txFlags, data, respond))
    case Reconfigure(blockSize, sepTime) => Some(Set(blockSize, sepTime))
  }

  /** A step of the left end is that input of its channel; what it sends joins the link, and what it took leaves the
      link of its peer. */
  lemma StepIsInput(s: System, e: Event)
    requires WellFormed(s) && Feasible(e)
    ensures var t := StepX(s, e);
            match AsInput(s, e)
            case None => t == s
            case Some(input) =>
              && Possible(input, |s.x.c.used|)
              && var o := Step(s.x.c, input);
                 && t.x.c == o.c && t.x.outbox == s.x.outbox + o.sent && t.x.mailbox == s.x.mailbox
                 && t.y == s.y.(outbox := if e.Deliver? then s.y.outbox[1..] else s.y.outbox)
                 && t.x.received == s.x.received + (if e.Deliver? then Messages(o.toPc) else [])
  {
    if e.Submit? { assert s.x.outbox + [] == s.x.outbox; }
    if !e.Deliver? { assert s.x.received + [] == s.x.received; }
    assert s.x.outbox + [] == s.x.outbox;
  }

  /** A message is accepted if and only if its flags are not refused and it fits one frame or nothing is being sent,
      and then put on the link in one frame. */
  lemma SubmitAccepts(s: System, txFlags: u32, data: seq<u8>, respond: bool)
    requires WellFormed(s) && 4 <= |data| <= PAYLOAD_SIZE
    ensures var t := StepX(s, Submit(txFlags, data, respond));
            var taken := txFlags % 2 == 0 && (|data| <= 11 || !s.x.c.tx.isSending);
            && t.y == s.y && t.x.received == s.x.received
            && t.x.accepted == s.x.accepted + (if taken then [data] else [])
            && |t.x.outbox| == |s.x.outbox| + (if taken then 1 else 0)
  {
    if txFlags % 2 == 0 {
      SendSends(s.x.c, txFlags, data, respond);
    } else {
      SendRefuses(s.x.c, txFlags, data, respond);
    }
  }

  lemma SubmittedKeepsInv(x: Node, y: Node, data: seq<u8>, o: Out)
    requires NodeInv(x) && NodeInv(y) && Accounted(x) && TransferInv(x, y) && TransferInv(y, x)
    requires Submits(x.c, data, o) && o.sent != []
    ensures var x' := Submitted(x, data, o);
            NodeInv(x') && Accounted(x') && TransferInv(x', y) && TransferInv(y, x')
  {
    var f := o.sent[0];
    var x' := Submitted(x, data, o);
    assert o.sent == [f];
    if |data| <= 11 {
      SubmitSingleKeepsOutgoing(x, x', y, f, data);
      SubmitSingleIsAccounted(x, x', data);
      assert OnWire(f);
    } else {
      SubmitSegmentedKeepsOutgoing(x, x', y, f, data);
      FirstFrameKeepsInStep(x'.c.tx, f, data, Drain(y.c.rx, x.outbox).rx);
      SubmitSegmentedIsAccounted(x, x', f, data);
    }
    SendKeepsIncoming(x, x', y);
    OnWireAppend(x.outbox, f);
  }

  // ---- Whole steps ------------------------------------------------------------------------

  lemma DeliverKeepsInv(s: System, e: Event)
    requires Inv(s) && e.Deliver?
    ensures Inv(StepX(s, e))
  {
    if s.y.outbox != [] {
      var f := s.y.outbox[0];
      assert OnWire(f);
      ReceiveProjects(s.x.c, s.x.mailbox, f, e.beyond, e.now);
      var o := Receive(s.x.c, s.x.mailbox, f, e.beyond, e.now);
      DeliverKeepsIncoming(s.x, s.y, o);
      DeliverKeepsOutgoing(s.x, s.y, o);
      DeliverKeepsNodes(s.x, s.y, o);
    }
  }

  lemma TransmitKeepsInv(s: System, e: Event)
    requires Inv(s) && e.Transmit?
    ensures Inv(StepX(s, e))
  {
    var x := s.x;
    if x.c.tx.isSending && x.c.tx.clearToSend && e.now > x.c.tx.nextSendTime {
      TxMultiFrameSendsConsecutive(x.c, e.later);
      TransmittedKeepsInv(x, StepX(s, e).x, s.y, TxMultiFrame(x.c, e.later).sent[0]);
    } else {
      assert x.outbox + [] == x.outbox;
    }
  }

  lemma TransmittedKeepsInv(x: Node, x': Node, y: Node, f: Frame)
    requires NodeInv(x) && NodeInv(y) && Accounted(x) && TransferInv(x, y) && TransferInv(y, x)
    requires x.c.tx.clearToSend && SendsConsecutive(x.c.tx, x'.c.tx, f)
    requires x'.c.Valid() && x'.c.rx == x.c.rx && x'.c.used == x.c.used && x'.c.flowControlIds == x.c.flowControlIds
    requires x'.c.blockSize == x.c.blockSize
    requires x' == x.(c := x'.c, outbox := x.outbox + [f], handedOver := HandedOver(x, x'.c.tx))
    ensures NodeInv(x') && Accounted(x') && TransferInv(x', y) && TransferInv(y, x')
  {
    TransmitKeepsOutgoing(x, x', y, f);
    TransmitKeepsNode(x, x', f);
    SendKeepsIncoming(x, x', y);
  }

  lemma SubmitKeepsInv(s: System, e: Event)
    requires Inv(s) && e.Submit? && Allowed(e)
    ensures Inv(StepX(s, e))
  {
    SendMsgSubmits(s.x.c, e.txFlags, e.data, e.respond);
    var o := SendMsg(s.x.c, e.txFlags, e.data, e.respond);
    if o.sent != [] {
      SubmittedKeepsInv(s.x, s.y, e.data, o);
    }
  }

  lemma StepXKeepsInv(s: System, e: Event)
    requires Inv(s) && Allowed(e)
    ensures Inv(StepX(s, e))
  {
    match e
    case Deliver(_, _) => DeliverKeepsInv(s, e);
    case Transmit(_, _) => TransmitKeepsInv(s, e);
    case Submit(_, _, _) => SubmitKeepsInv(s, e);
    case Reconfigure(_, _) =>
  }

  /** Every step of either end keeps the invariant. */
  lemma StepKeepsInv(s: System, a: Action)
    requires Inv(s) && Allowed(a.e)
    ensures Inv(SystemStep(s, a))
  {
    match a
    case Left(e) => StepXKeepsInv(s, e);
    case Right(e) => StepXKeepsInv(s.Swap(), e);
  }

  // ---- Whole runs -------------------------------------------------------------------------

  predicate AllAllowed(actions: seq<Action>) { forall a :: a in actions ==> Allowed(a.e) }

  predicate AllFeasible(actions: seq<Action>) { forall a :: a in actions ==> Feasible(a.e) }

  function RunSystem(s: System, actions: seq<Action>): (t: System)
    requires WellFormed(s) && AllFeasible(actions)
    ensures WellFormed(t)
    decreases |actions|
  {
    if actions == [] then s else RunSystem(SystemStep(s, actions[0]), actions[1..])
  }

  lemma AllowedIsFeasible(actions: seq<Action>)
    requires AllAllowed(actions)
    ensures AllFeasible(actions) && (actions != [] ==> Allowed(actions[0].e) && AllAllowed(actions[1..]))
  {
    if actions != [] {
      assert forall a :: a in actions[1..] ==> a in actions;
    }
  }

  lemma {:induction false} RunKeepsInv(s: System, actions: seq<Action>)
    requires Inv(s) && AllAllowed(actions)
    ensures AllFeasible(actions) && Inv(RunSystem(s, actions))
    decreases |actions|
  {
    AllowedIsFeasible(actions);
    if actions == [] {
    } else {
      StepKeepsInv(s, actions[0]);
      RunKeepsInv(SystemStep(s, actions[0]), actions[1..]);
    }
  }

  predicate Quiet(s: System) { s.x.outbox == [] && s.y.outbox == [] }

  lemma {:induction false} ImagesExact(messages: seq<seq<u8>>)
    requires AllDecode(messages)
    ensures Images(messages) == messages
  {
    if messages == [] {
    } else {
      var m, rest := messages[0], messages[1..];
      assert m in messages && Image(m) == m;
      assert forall k :: k in rest ==> k in messages;
      ImagesExact(rest);
      assert messages == [m] + rest;
    }
  }

  /** What `y`'s PC has received is, byte for byte, id included and in order, a prefix of what `x` has
      handed over, which is part of what `x` accepted, none of it twice; it is all of that once the link
      is empty and nothing is in progress. */
  ghost predicate Delivered(x: Node, y: Node)
    requires x.c.Valid()
  {
    && y.received <= x.handedOver && multiset(x.handedOver) <= multiset(Images(x.accepted))
    && (x.outbox == [] ==> y.received == x.handedOver)
    && (x.outbox == [] && !InProgress(x.c.tx) ==> multiset(y.received) == multiset(Images(x.accepted)))
  }

  /** The lengths of the accepted messages decode correctly. */
  predicate AllDecode(messages: seq<seq<u8>>) {
    forall m :: m in messages ==> |m| >= 4 && (|m| <= 11 || DecodesCorrectly(|m| - 4))
  }

  /** End-to-end delivery, in both directions of any run. */
  lemma Delivery(s0: System, actions: seq<Action>)
    requires InitialSystem(s0) && AllAllowed(actions)
    ensures WellFormed(s0) && AllFeasible(actions)
    ensures var s := RunSystem(s0, actions); Delivered(s.x, s.y) && Delivered(s.y, s.x)
  {
    InvInitially(s0);
    RunKeepsInv(s0, actions);
    var s := RunSystem(s0, actions);
    TransferDelivers(s.x, s.y);
    TransferDelivers(s.y, s.x);
  }

  lemma TransferDelivers(x: Node, y: Node)
    requires x.c.Valid() && y.c.rx.Valid() && Accounted(x) && TransferInv(x, y)
    ensures Delivered(x, y)
  {
    if x.outbox == [] {
      assert y.received + [] == y.received;
    }
  }

  /** When every accepted message has a length that decodes correctly, each is received exactly
      once, whole. */
  lemma ExactDelivery(s0: System, actions: seq<Action>)
    requires InitialSystem(s0) && AllAllowed(actions)
    ensures WellFormed(s0) && AllFeasible(actions)
    ensures var s := RunSystem(s0, actions);
            && (s.x.outbox == [] && !InProgress(s.x.c.tx) && AllDecode(s.x.accepted)
                ==> multiset(s.y.received) == multiset(s.x.accepted))
            && (s.y.outbox == [] && !InProgress(s.y.c.tx) && AllDecode(s.y.accepted)
                ==> multiset(s.x.received) == multiset(s.y.accepted))
  {
    Delivery(s0, actions);
    var s := RunSystem(s0, actions);
    if AllDecode(s.x.accepted) {
      ImagesExact(s.x.accepted);
    }
    if AllDecode(s.y.accepted) {
      ImagesExact(s.y.accepted);
    }
  }
}
