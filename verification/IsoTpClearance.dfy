/**
  Two linked channels finish what they start, if the block sizes they advertise are large enough for the
  messages they send. A receiver sends a flow control after the first frame and after every eighth
  consecutive frame, whatever block size it advertised, until it has the bytes it expects; a sender whose
  message was decoded too short has frames left then and gets no further flow control.
 */
module IsoTpClearance {
  import opened Bytes
  import opened CanFrame
  import opened IsoTp
  import opened IsoTpLength
  import opened IsoTpLink
  import opened IsoTpProgress
  import opened IsoTpNeed

  // ---- The invariant ----------------------------------------------------------------------

  /** What is asked of the two ends: messages and block sizes go together. */
  ghost predicate Provided(e: Event, need: nat) {
    match e
    case Submit(_, data, _) =>
      Sendable(|data|) && (|data| > 11 ==> Enough(|data|, need) && (need <= 0xFF || AnsweredOnce(|data|)))
    case Reconfigure(blockSize, _) => Suffices(U8(blockSize), need)
    case _ => true
  }

  /** Every block size this end has been told, may advertise or has advertised suffices. */
  ghost predicate Ready(n: Node, need: nat) {
    && Suffices(U8(n.c.blockSize), need)
    && (n.c.tx.blockSize == 0 || n.c.tx.blockSize == BLOCK_UNLIMITED || need <= n.c.tx.blockSize <= 0xFF)
    && (n.c.tx.clearToSend ==> n.c.tx.blockSize != 0)
    && (n.c.tx.isSending ==> n.c.tx.pos < n.c.tx.size || n.c.tx.clearToSend)
    && (forall f :: f in n.outbox && IsFlowControl(f) ==> Suffices(f.data[1], need))
  }

  /** Consecutive frames sent, from the position of the sender */
  function FramesSent(pos: nat): nat { if pos < 17 then 0 else FramesSent(pos - 7) + 1 }

  /** `since` frames after the last flow control, the sender may go on or a flow control is on its way. */
  predicate MayGoOn(tx: Sender, pending: nat, since: nat) {
    pending >= 1 || (tx.clearToSend && tx.framesSent <= since)
  }

  /** `j` frames of a message were sent, and a receiver that still needs bytes counts along. */
  ghost predicate CountsAlong(tx: Sender, rx: Receiver, j: nat)
    requires tx.size >= 12
  {
    tx.pos == 10 + 7 * j && (rx.isReceiving ==> rx.frameCount == Since(FramesTaken(tx.size), j))
  }

  /** A sender with bytes left is clear to send, with few enough frames sent on its flow control, or a
      flow control is on its way. `rx` is its peer once every frame in flight has arrived. */
  ghost predicate Cleared(tx: Sender, rx: Receiver, pending: nat, need: nat) {
    tx.pos < tx.size ==>
      && Transferable(tx.size) && Enough(tx.size, need)
      && CountsAlong(tx, rx, FramesSent(tx.pos))
      && MayGoOn(tx, pending, Since(FramesTaken(tx.size), FramesSent(tx.pos)))
  }

  ghost predicate ClearedFrom(x: Node, y: Node, need: nat)
    requires y.c.rx.Valid()
  {
    Cleared(x.c.tx, Drain(y.c.rx, x.outbox).rx, Pending(x, y), need)
  }

  ghost predicate ClearInv(s: System, need: nat) {
    && 1 <= need <= 0xFFFF && Inv(s)
    && Ready(s.x, need) && Ready(s.y, need)
    && ClearedFrom(s.x, s.y, need) && ClearedFrom(s.y, s.x, need)
  }

  // ---- Messages that are answered once -----------------------------------------------------

  predicate ShortFirst(f: Frame) { f.data[0] / 0x10 == 1 ==> FirstFrameSize(f.data) <= 66 }

  predicate ShortReassembly(rx: Receiver) {
    rx.isReceiving ==> rx.size <= 66 && rx.pos == 10 + 7 * rx.frameCount
  }

  /** No message that is being sent to this end or by it is answered more than once. */
  ghost predicate Brief(n: Node) { ShortReassembly(n.c.rx) && forall f :: f in n.outbox ==> ShortFirst(f) }

  ghost predicate AllBrief(s: System) { Brief(s.x) && Brief(s.y) }

  /** What a need beyond any block size but 0 requires */
  ghost predicate BriefEnough(s: System, need: nat) { need > 0xFF ==> AllBrief(s) }

  /** The node `x` after a reception */
  function Received(x: Node, o: Out): Node {
    x.(c := o.c, outbox := x.outbox + o.sent, received := x.received + Messages(o.toPc))
  }

  lemma TakeKeepsShort(rx: Receiver, f: Frame)
    requires rx.Valid() && ShortReassembly(rx) && ShortFirst(f)
    ensures ShortReassembly(Take(rx, f).rx) && (f.data[0] / 0x10 == 2 ==> Take(rx, f).flowControls == 0)
  {
  }

  lemma BriefAppends(n: Node, f: Frame)
    requires Brief(n) && ShortFirst(f)
    ensures Brief(n.(outbox := n.outbox + [f]))
  {
  }

  lemma DeliverKeepsBrief(x: Node, y: Node, o: Out)
    requires NodeInv(x) && Brief(x) && Brief(y) && y.outbox != [] && Projects(x.c, y.outbox[0], o)
    ensures Brief(Received(x, o)) && Brief(y.(outbox := y.outbox[1..]))
  {
    assert y.outbox[0] in y.outbox;
    TakeKeepsShort(x.c.rx, y.outbox[0]);
    assert forall f :: f in o.sent ==> IsFlowControl(f);
  }

  lemma FirstFrameIsShort(f: Frame, data: seq<u8>, rx: Receiver)
    requires Transferable(|data|) && AnsweredOnce(|data|)
    requires f.id == Id(data) && f.data == FirstFrameHeader(|data| - 4) + data[4..10]
    ensures ShortFirst(f)
  {
    FirstFrameStarts(f, data, rx);
    FramesForBounds(DecodedSize(|data|));
  }

  lemma SubmitKeepsBrief(x: Node, data: seq<u8>, o: Out)
    requires Brief(x) && Submits(x.c, data, o) && (|data| > 11 ==> AnsweredOnce(|data|))
    ensures Brief(Submitted(x, data, o))
  {
    if o.sent != [] {
      assert o.sent == [o.sent[0]];
      if |data| > 11 { FirstFrameIsShort(o.sent[0], data, x.c.rx); }
      BriefAppends(x, o.sent[0]);
    }
  }

  lemma StepXKeepsBrief(s: System, e: Event)
    requires Inv(s) && AllBrief(s) && Allowed(e) && (e.Submit? && |e.data| > 11 ==> AnsweredOnce(|e.data|))
    ensures AllBrief(StepX(s, e))
  {
    match e
    case Deliver(beyond, now) =>
      if s.y.outbox != [] {
        var f := s.y.outbox[0];
        assert OnWire(f);
        ReceiveProjects(s.x.c, s.x.mailbox, f, beyond, now);
        DeliverKeepsBrief(s.x, s.y, Receive(s.x.c, s.x.mailbox, f, beyond, now));
      }
    case Transmit(_, _) =>
      if ProductiveX(s, e) {
        var f := DueTransmit(s, e);
        BriefAppends(s.x, f);
      } else {
        IdleTransmit(s, e);
      }
    case Submit(txFlags, data, respond) =>
      SendMsgSubmits(s.x.c, txFlags, data, respond);
      SubmitKeepsBrief(s.x, data, SendMsg(s.x.c, txFlags, data, respond));
    case Reconfigure(_, _) =>
  }

  // ---- Each step keeps it -----------------------------------------------------------------

  /** How far a sender is after `j` frames */
  lemma PositionOf(tx: Sender, j: nat)
    requires Transferable(tx.size) && tx.pos == 10 + 7 * j < tx.size
    ensures j < FramesFor(tx.size)
    ensures InProgress(tx) <==> j < FramesTaken(tx.size)
    ensures tx.pos + 7 >= Target(tx) <==> j + 1 >= FramesTaken(tx.size)
  {
    DecodedRange(tx.size);
    FramesForBounds(tx.size);
    FramesForBounds(DecodedSize(tx.size));
  }

  /** How a consecutive frame counts at a receiver that is in step: it triggers a flow control if it is
      an eighth frame and not the last one. */
  lemma ConsecutiveCounts(tx: Sender, tx': Sender, f: Frame, rx: Receiver)
    requires tx.Valid() && Target(tx) <= tx.size && tx.pos < tx.size && SendsConsecutive(tx, tx', f)
    requires rx.Valid() && InStep(Target(tx), tx, rx)
    ensures var e := Take(rx, f);
            if !InProgress(tx) || tx.pos + 7 >= Target(tx) then e.flowControls == 0
            else if rx.frameCount == 7 then e.flowControls == 1 && e.rx.frameCount == 0
            else e.flowControls == 0 && e.rx.frameCount == rx.frameCount + 1
  {
  }

  /** The counts after a consecutive frame that is not the last one, and whether it is answered. */
  lemma CountAfter(tx: Sender, tx': Sender, f: Frame, rx: Receiver, j: nat)
    requires tx.Valid() && SendsConsecutive(tx, tx', f) && Transferable(tx.size) && tx'.pos < tx.size
    requires rx.Valid() && InStep(Target(tx), tx, rx) && CountsAlong(tx, rx, j)
    ensures var e, taken := Take(rx, f), FramesTaken(tx.size);
            && CountsAlong(tx', e.rx, j + 1) && j + 1 < FramesFor(tx.size)
            && (if e.flowControls == 0 then Since(taken, j + 1) == Since(taken, j) + 1 else Since(taken, j + 1) == 0)
  {
    DecodedRange(tx.size);
    PositionOf(tx, j);
    PositionOf(tx', j + 1);
    ConsecutiveCounts(tx, tx', f, rx);
    SinceClosed(FramesTaken(tx.size), j);
    EighthFrame(j);
  }

  lemma SenderGoesOn(tx: Sender, tx': Sender, f: Frame, pending: nat, triggered: nat, since: nat, need: nat)
    requires tx.Valid() && SendsConsecutive(tx, tx', f) && tx'.pos < tx.size
    requires tx.clearToSend && tx.blockSize >= need && need <= 0xFFFF
    requires MayGoOn(tx, pending, since) && (triggered == 0 ==> since + 1 < need)
    ensures MayGoOn(tx', pending + triggered, if triggered == 0 then since + 1 else 0)
  {
  }

  lemma ConsecutiveKeepsCleared(tx: Sender, tx': Sender, f: Frame, rx: Receiver, pending: nat, need: nat)
    requires tx.Valid() && SendsConsecutive(tx, tx', f) && Target(tx) <= tx.size
    requires rx.Valid() && InStep(Target(tx), tx, rx) && Cleared(tx, rx, pending, need)
    requires tx.clearToSend && tx.blockSize >= need && need <= 0xFFFF
    ensures var e := Take(rx, f); Cleared(tx', e.rx, pending + e.flowControls, need)
  {
    if tx'.pos < tx'.size {
      var j, taken := FramesSent(tx.pos), FramesTaken(tx.size);
      CountAfter(tx, tx', f, rx, j);
      assert FramesSent(tx'.pos) == j + 1 && Since(taken, j + 1) < need;
      SenderGoesOn(tx, tx', f, pending, Take(rx, f).flowControls, Since(taken, j), need);
    }
  }

  // Receptions.

  lemma DeliverKeepsReady(x: Node, y: Node, o: Out, need: nat)
    requires NodeInv(x) && NodeInv(y) && y.outbox != [] && Projects(x.c, y.outbox[0], o)
    requires need >= 1 && Ready(x, need) && Ready(y, need) && (need > 0xFF ==> Brief(x) && Brief(y))
    ensures Ready(Received(x, o), need) && Ready(y.(outbox := y.outbox[1..]), need)
  {
    assert U8(BLOCK_UNLIMITED) == 0xFF;
    assert y.outbox[0] in y.outbox;
    if need > 0xFF { TakeKeepsShort(x.c.rx, y.outbox[0]); }
  }

  /** A flow control that arrives replaces itself by the clearance it gives. */
  lemma DeliverKeepsOwnClearance(x: Node, y: Node, o: Out, need: nat)
    requires NodeInv(x) && NodeInv(y) && y.outbox != [] && Projects(x.c, y.outbox[0], o)
    requires ClearedFrom(x, y, need)
    ensures ClearedFrom(Received(x, o), y.(outbox := y.outbox[1..]), need)
  {
    DrainAppendFlowControls(y.c.rx, x.outbox, o.sent);
  }

  lemma DeliverKeepsPeersClearance(x: Node, y: Node, o: Out, need: nat)
    requires NodeInv(x) && NodeInv(y) && y.outbox != [] && Projects(x.c, y.outbox[0], o)
    requires ClearedFrom(y, x, need)
    ensures ClearedFrom(y.(outbox := y.outbox[1..]), Received(x, o), need)
  {
    FlowControlsAppend(x.outbox, o.sent);
    if o.sent != [] { assert o.sent[1..] == []; }
  }

  lemma DeliverKeepsClear(s: System, e: Event, need: nat)
    requires ClearInv(s, need) && BriefEnough(s, need) && e.Deliver?
    ensures ClearInv(StepX(s, e), need)
  {
    DeliverKeepsInv(s, e);
    if s.y.outbox != [] {
      var f := s.y.outbox[0];
      assert OnWire(f);
      ReceiveProjects(s.x.c, s.x.mailbox, f, e.beyond, e.now);
      var o := Receive(s.x.c, s.x.mailbox, f, e.beyond, e.now);
      DeliverKeepsReady(s.x, s.y, o, need);
      DeliverKeepsOwnClearance(s.x, s.y, o, need);
      DeliverKeepsPeersClearance(s.x, s.y, o, need);
    }
  }

  // Consecutive frames.

  lemma TransmitKeepsClearance(x: Node, x': Node, y: Node, f: Frame, need: nat)
    requires NodeInv(x) && NodeInv(y) && TransferInv(x, y) && need <= 0xFFFF
    requires Ready(x, need) && ClearedFrom(x, y, need)
    requires x.c.tx.clearToSend && SendsConsecutive(x.c.tx, x'.c.tx, f) && x'.outbox == x.outbox + [f]
    requires x'.c.blockSize == x.c.blockSize
    ensures Ready(x', need) && ClearedFrom(x', y, need)
  {
    var e := Drain(y.c.rx, x.outbox);
    DrainAppend(y.c.rx, x.outbox, f);
    ConsecutiveKeepsCleared(x.c.tx, x'.c.tx, f, e.rx, Pending(x, y), need);
  }

  /** A frame that is not a flow control leaves `x`: the clearance of its peer is untouched. */
  lemma SendKeepsPeersClearance(x: Node, x': Node, y: Node, f: Frame, need: nat)
    requires x.c.rx.Valid() && x'.c.rx == x.c.rx && x'.outbox == x.outbox + [f] && !IsFlowControl(f)
    requires ClearedFrom(y, x, need)
    ensures ClearedFrom(y, x', need)
  {
    FlowControlsAppend(x.outbox, [f]);
    assert [f][1..] == [];
  }

  lemma TransmittedKeepsClear(s: System, t: System, f: Frame, need: nat)
    requires ClearInv(s, need) && Inv(t) && t.y == s.y
    requires s.x.c.tx.clearToSend && SendsConsecutive(s.x.c.tx, t.x.c.tx, f) && t.x.outbox == s.x.outbox + [f]
    requires t.x.c.rx == s.x.c.rx && t.x.c.blockSize == s.x.c.blockSize
    ensures ClearInv(t, need)
  {
    TransmitKeepsClearance(s.x, t.x, s.y, f, need);
    SendKeepsPeersClearance(s.x, t.x, s.y, f, need);
  }

  lemma TransmitKeepsClear(s: System, e: Event, need: nat)
    requires ClearInv(s, need) && e.Transmit?
    ensures ClearInv(StepX(s, e), need)
  {
    TransmitKeepsInv(s, e);
    if ProductiveX(s, e) {
      var f := DueTransmit(s, e);
      TransmittedKeepsClear(s, StepX(s, e), f, need);
    } else {
      IdleTransmit(s, e);
    }
  }

  // Submissions.

  /** A single frame changes nothing; a first frame, which the receiver is ready for, will be answered. */
  lemma SingleKeepsClearance(x: Node, x': Node, y: Node, f: Frame, need: nat)
    requires y.c.rx.Valid() && ClearedFrom(x, y, need) && f.data[0] < 0x10
    requires x'.c.tx == x.c.tx && x'.outbox == x.outbox + [f]
    ensures ClearedFrom(x', y, need)
  {
    DrainAppend(y.c.rx, x.outbox, f);
  }

  lemma FirstFrameClears(x: Node, x': Node, y: Node, f: Frame, data: seq<u8>, need: nat)
    requires x.c.Valid() && y.c.rx.Valid() && TransferInv(x, y) && !x.c.tx.isSending
    requires StartsSegmented(x'.c.tx, f, data) && x'.outbox == x.outbox + [f] && Enough(|data|, need)
    ensures ClearedFrom(x', y, need)
  {
    var e := Drain(y.c.rx, x.outbox);
    DrainAppend(y.c.rx, x.outbox, f);
    FirstFrameStarts(f, data, e.rx);
    FirstFrameAnswered(x, y, e.rx, f);
    ClearedAtStart(x'.c.tx, Drain(y.c.rx, x'.outbox).rx, Pending(x', y), need);
  }

  /** A receiver that has finished the message before answers a first frame. */
  lemma FirstFrameAnswered(x: Node, y: Node, rx: Receiver, f: Frame)
    requires x.c.Valid() && !x.c.tx.isSending && rx.Valid() && InStep(Target(x.c.tx), x.c.tx, rx)
    requires f.data[0] / 0x10 == 1
    ensures Take(rx, f).flowControls == 1 && Take(rx, f).rx.frameCount == 0
  {
  }

  lemma ClearedAtStart(tx: Sender, rx: Receiver, pending: nat, need: nat)
    requires Transferable(tx.size) && tx.pos == 10 && Enough(tx.size, need) && rx.frameCount == 0 && pending >= 1
    ensures Cleared(tx, rx, pending, need)
  {
  }

  lemma SubmitKeepsOwnClearance(x: Node, y: Node, data: seq<u8>, o: Out, need: nat)
    requires NodeInv(x) && NodeInv(y) && TransferInv(x, y) && Ready(x, need) && ClearedFrom(x, y, need)
    requires Submits(x.c, data, o) && o.sent != [] && (|data| > 11 ==> Enough(|data|, need))
    ensures var x' := Submitted(x, data, o); Ready(x', need) && ClearedFrom(x', y, need)
  {
    var f := o.sent[0];
    assert o.sent == [f];
    if |data| <= 11 {
      SingleKeepsClearance(x, Submitted(x, data, o), y, f, need);
    } else {
      FirstFrameClears(x, Submitted(x, data, o), y, f, data, need);
    }
  }

  lemma SubmittedKeepsClear(s: System, t: System, data: seq<u8>, o: Out, need: nat)
    requires ClearInv(s, need) && Inv(t) && t.y == s.y && t.x == Submitted(s.x, data, o)
    requires Submits(s.x.c, data, o) && o.sent != [] && (|data| > 11 ==> Enough(|data|, need))
    ensures ClearInv(t, need)
  {
    SubmitKeepsOwnClearance(s.x, s.y, data, o, need);
    SendKeepsPeersClearance(s.x, t.x, s.y, o.sent[0], need);
  }

  lemma RefusedKeepsClear(s: System, t: System, data: seq<u8>, o: Out, need: nat)
    requires ClearInv(s, need) && Inv(t) && t.y == s.y && t.x == Submitted(s.x, data, o)
    requires Submits(s.x.c, data, o) && o.sent == []
    ensures ClearInv(t, need)
  {
  }

  lemma SubmitKeepsClear(s: System, e: Event, need: nat)
    requires ClearInv(s, need) && e.Submit? && Provided(e, need)
    ensures ClearInv(StepX(s, e), need)
  {
    SubmitKeepsInv(s, e);
    SendMsgSubmits(s.x.c, e.txFlags, e.data, e.respond);
    var o := SendMsg(s.x.c, e.txFlags, e.data, e.respond);
    if o.sent != [] {
      SubmittedKeepsClear(s, StepX(s, e), e.data, o, need);
    } else {
      RefusedKeepsClear(s, StepX(s, e), e.data, o, need);
    }
  }

  lemma StepXKeepsClear(s: System, e: Event, need: nat)
    requires ClearInv(s, need) && BriefEnough(s, need) && Provided(e, need)
    ensures ClearInv(StepX(s, e), need) && BriefEnough(StepX(s, e), need)
  {
    if need > 0xFF { StepXKeepsBrief(s, e); }
    match e
    case Deliver(_, _) => DeliverKeepsClear(s, e, need);
    case Transmit(_, _) => TransmitKeepsClear(s, e, need);
    case Submit(_, _, _) => SubmitKeepsClear(s, e, need);
    case Reconfigure(_, _) => StepXKeepsInv(s, e);
  }

  /** Every step of either end keeps the invariant. */
  lemma StepKeepsClear(s: System, a: Action, need: nat)
    requires ClearInv(s, need) && BriefEnough(s, need) && Provided(a.e, need)
    ensures ClearInv(SystemStep(s, a), need) && BriefEnough(SystemStep(s, a), need)
  {
    match a
    case Left(e) => StepXKeepsClear(s, e, need);
    case Right(e) => StepXKeepsClear(s.Swap(), e, need);
  }

  // ---- Whole runs -------------------------------------------------------------------------

  ghost predicate AllProvided(actions: seq<Action>, need: nat) { forall a :: a in actions ==> Provided(a.e, need) }

  /** Two new channels whose configured block sizes suffice */
  ghost predicate InitiallyReady(s: System, need: nat) {
    && InitialSystem(s) && 1 <= need <= 0xFFFF
    && Suffices(U8(s.x.c.blockSize), need) && Suffices(U8(s.y.c.blockSize), need)
  }

  lemma ClearInitially(s: System, need: nat)
    requires InitiallyReady(s, need)
    ensures ClearInv(s, need) && BriefEnough(s, need)
  {
    InvInitially(s);
  }

  lemma ProvidedIsAllowed(actions: seq<Action>, need: nat)
    requires AllProvided(actions, need)
    ensures AllAllowed(actions)
    ensures actions != [] ==> Provided(actions[0].e, need) && AllProvided(actions[1..], need)
  {
    forall a | a in actions
      ensures Allowed(a.e)
    {
      assert Provided(a.e, need);
    }
    if actions != [] {
      assert forall a :: a in actions[1..] ==> a in actions;
    }
  }

  lemma {:induction false} RunKeepsClear(s: System, actions: seq<Action>, need: nat)
    requires ClearInv(s, need) && BriefEnough(s, need) && AllProvided(actions, need)
    ensures AllFeasible(actions) && ClearInv(RunSystem(s, actions), need)
    decreases |actions|
  {
    ProvidedIsAllowed(actions, need);
    AllowedIsFeasible(actions);
    if actions == [] {
    } else {
      StepKeepsClear(s, actions[0], need);
      RunKeepsClear(SystemStep(s, actions[0]), actions[1..], need);
    }
  }
}
