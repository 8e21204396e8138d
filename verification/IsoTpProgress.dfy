/** Two linked channels always come to rest, whatever block sizes are configured. */
module IsoTpProgress {
  import opened CanFrame
  import opened IsoTp
  import opened IsoTpLink

  // ---- Flow controls in flight -----------------------------------------------------------

  function FlowControlsIn(frames: seq<Frame>): (n: nat)
    ensures n <= |frames|
  {
    if frames == [] then 0 else (if IsFlowControl(frames[0]) then 1 else 0) + FlowControlsIn(frames[1..])
  }

  /** Flow controls on their way from `y` to `x`, counting those that frames in flight will trigger. */
  function Pending(x: Node, y: Node): nat
    requires y.c.rx.Valid()
  {
    FlowControlsIn(y.outbox) + Drain(y.c.rx, x.outbox).flowControls
  }

  lemma {:induction false} FlowControlsAppend(frames: seq<Frame>, more: seq<Frame>)
    ensures FlowControlsIn(frames + more) == FlowControlsIn(frames) + FlowControlsIn(more)
  {
    if frames == [] {
      assert frames + more == more;
    } else {
      assert (frames + more)[1..] == frames[1..] + more;
      FlowControlsAppend(frames[1..], more);
    }
  }

  // ---- A measure that every productive step lowers ---------------------------------------

  function FramesLeft(tx: Sender): nat {
    if tx.pos < tx.size then (tx.size - tx.pos + 6) / 7 else 0
  }

  /** Work left in the transfer from `x` to `y`. A frame to send weighs more than itself in flight
      with the flow control it may trigger; a flow control weighs more than the clearance it gives. */
  ghost function Work(x: Node, y: Node): nat
    requires y.c.rx.Valid()
  {
    5 * FramesLeft(x.c.tx) + 3 * Pending(x, y) + (if x.c.tx.clearToSend then 2 else 0)
    + (|x.outbox| - FlowControlsIn(x.outbox))
  }

  ghost function SystemWork(s: System): nat
    requires Inv(s)
  {
    Work(s.x, s.y) + Work(s.y, s.x)
  }

  /** A reception of a waiting frame, or a transmit check that finds a frame due. */
  predicate ProductiveX(s: System, e: Event) {
    match e
    case Deliver(_, _) => s.y.outbox != []
    case Transmit(now, _) => s.x.c.tx.isSending && s.x.c.tx.clearToSend && now > s.x.c.tx.nextSendTime
    case _ => false
  }

  predicate Productive(s: System, a: Action) {
    match a
    case Left(e) => ProductiveX(s, e)
    case Right(e) => ProductiveX(s.Swap(), e)
  }

  /** A flow control that `x` takes costs three and gives at most the clearance. */
  lemma DeliverOutgoingWork(x: Node, y: Node, o: Out)
    requires NodeInv(x) && NodeInv(y) && y.outbox != [] && Projects(x.c, y.outbox[0], o)
    ensures Work(x.(c := o.c, outbox := x.outbox + o.sent, received := x.received + Messages(o.toPc)),
                 y.(outbox := y.outbox[1..])) <= Work(x, y) - (if IsFlowControl(y.outbox[0]) then 1 else 0)
  {
    FlowControlsAppend(x.outbox, o.sent);
    if o.sent != [] { assert o.sent[1..] == []; }
    DrainAppendFlowControls(y.c.rx, x.outbox, o.sent);
  }

  /** Any other frame stops being in flight; the flow control it triggers was counted before. */
  lemma DeliverIncomingWork(x: Node, y: Node, o: Out)
    requires NodeInv(x) && NodeInv(y) && y.outbox != [] && Projects(x.c, y.outbox[0], o)
    ensures Work(y.(outbox := y.outbox[1..]),
                 x.(c := o.c, outbox := x.outbox + o.sent, received := x.received + Messages(o.toPc)))
            == Work(y, x) - (if IsFlowControl(y.outbox[0]) then 0 else 1)
  {
    FlowControlsAppend(x.outbox, o.sent);
    if o.sent != [] { assert o.sent[1..] == []; }
  }

  /** A data frame leaves fewer to send; an empty one, sent after the end, uses up the clearance
      and triggers nothing, as the receiver has finished. */
  lemma TransmitOutgoingWork(x: Node, x': Node, y: Node, f: Frame)
    requires NodeInv(x) && NodeInv(y) && TransferInv(x, y)
    requires x.c.tx.clearToSend && SendsConsecutive(x.c.tx, x'.c.tx, f) && x'.outbox == x.outbox + [f]
    ensures Work(x', y) < Work(x, y)
  {
    var e := Drain(y.c.rx, x.outbox);
    DrainAppend(y.c.rx, x.outbox, f);
    FlowControlsAppend(x.outbox, [f]);
    assert [f][1..] == [];
    var tx := x.c.tx;
    if tx.pos == tx.size {
      assert Take(e.rx, f).flowControls == 0;
    } else {
      assert FramesLeft(x'.c.tx) == FramesLeft(tx) - 1;
    }
  }

  lemma TransmitIncomingWork(x: Node, x': Node, y: Node, f: Frame)
    requires NodeInv(x) && NodeInv(y) && f.data[0] < 0x30
    requires x'.c.rx == x.c.rx && x'.outbox == x.outbox + [f]
    ensures Work(y, x') == Work(y, x)
  {
    FlowControlsAppend(x.outbox, [f]);
    assert [f][1..] == [];
  }

  lemma DeliverLowersWork(s: System, e: Event)
    requires Inv(s) && Allowed(e) && e.Deliver? && s.y.outbox != []
    ensures Feasible(e) && Inv(StepX(s, e)) && SystemWork(StepX(s, e)) < SystemWork(s)
  {
    StepXKeepsInv(s, e);
    var x := s.x;
    assert s.y.outbox[0] in s.y.outbox;
    ReceiveProjects(x.c, x.mailbox, s.y.outbox[0], e.beyond, e.now);
    var o := Receive(x.c, x.mailbox, s.y.outbox[0], e.beyond, e.now);
    DeliverOutgoingWork(x, s.y, o);
    DeliverIncomingWork(x, s.y, o);
  }

  lemma TransmitLowersWork(s: System, e: Event)
    requires Inv(s) && Allowed(e) && e.Transmit? && ProductiveX(s, e)
    ensures Feasible(e) && Inv(StepX(s, e)) && SystemWork(StepX(s, e)) < SystemWork(s)
  {
    StepXKeepsInv(s, e);
    TxMultiFrameSendsConsecutive(s.x.c, e.later);
    var x', f := StepX(s, e).x, TxMultiFrame(s.x.c, e.later).sent[0];
    TransmitOutgoingWork(s.x, x', s.y, f);
    TransmitIncomingWork(s.x, x', s.y, f);
  }

  /** A transmit check that finds no frame due changes nothing. */
  lemma IdleTransmit(s: System, e: Event)
    requires WellFormed(s) && e.Transmit? && !ProductiveX(s, e)
    ensures StepX(s, e) == s
  {
    assert s.x.outbox + [] == s.x.outbox;
  }

  /** A frame that is due goes on the link; the other end does not change. */
  lemma DueTransmit(s: System, e: Event) returns (f: Frame)
    requires WellFormed(s) && e.Transmit? && ProductiveX(s, e)
    ensures var t := StepX(s, e);
            && t.y == s.y && t.x.outbox == s.x.outbox + [f] && SendsConsecutive(s.x.c.tx, t.x.c.tx, f)
            && t.x.c.rx == s.x.c.rx && t.x.c.blockSize == s.x.c.blockSize
  {
    TxMultiFrameSendsConsecutive(s.x.c, e.later);
    f := TxMultiFrame(s.x.c, e.later).sent[0];
    assert TxMultiFrame(s.x.c, e.later).sent == [f];
  }

  lemma StepXLowersWork(s: System, e: Event)
    requires Inv(s) && Allowed(e) && (e.Deliver? || e.Transmit?)
    ensures WellFormed(s) && Inv(StepX(s, e))
    ensures if ProductiveX(s, e) then SystemWork(StepX(s, e)) < SystemWork(s) else StepX(s, e) == s
  {
    if e.Deliver? && s.y.outbox != [] {
      DeliverLowersWork(s, e);
    } else if ProductiveX(s, e) {
      TransmitLowersWork(s, e);
    } else if e.Transmit? {
      IdleTransmit(s, e);
    }
  }

  /** Receptions and transmit checks of either end lower the measure, or find nothing to do and
      change nothing. */
  lemma StepLowersWork(s: System, a: Action)
    requires Inv(s) && (a.e.Deliver? || a.e.Transmit?)
    ensures Inv(SystemStep(s, a))
    ensures if Productive(s, a) then SystemWork(SystemStep(s, a)) < SystemWork(s) else SystemStep(s, a) == s
  {
    match a
    case Left(e) => StepXLowersWork(s, e);
    case Right(e) => StepXLowersWork(s.Swap(), e);
  }

  /** The number of steps of a run that find something to do. */
  function ProductiveSteps(s: System, actions: seq<Action>): nat
    requires WellFormed(s) && AllFeasible(actions)
    decreases |actions|
  {
    if actions == [] then 0
    else
      (if Productive(s, actions[0]) then 1 else 0) + ProductiveSteps(SystemStep(s, actions[0]), actions[1..])
  }

  /** Without new messages the two ends come to rest: no run, whatever its interleaving, has more
      than `SystemWork` steps that do something. */
  lemma {:induction false} ComesToRest(s: System, actions: seq<Action>)
    requires Inv(s) && forall a :: a in actions ==> a.e.Deliver? || a.e.Transmit?
    ensures AllFeasible(actions) && Inv(RunSystem(s, actions))
    ensures ProductiveSteps(s, actions) + SystemWork(RunSystem(s, actions)) <= SystemWork(s)
    decreases |actions|
  {
    if actions == [] {
    } else {
      StepLowersWork(s, actions[0]);
      ComesToRest(SystemStep(s, actions[0]), actions[1..]);
    }
  }

  /** At rest no frame is waiting and neither end may send, whatever the clock shows. */
  ghost predicate AtRest(s: System) { forall a: Action :: !Productive(s, a) }
}
