/**
  The condition on block sizes is exact. A block size other than 0 that is smaller than what a message needs can
  leave a sender waiting for good, at either end, when frames and flow controls alternate in lock step; and so can
  any block size if the message is too long for a first frame and answered more than once.
 */
module IsoTpStall {
  import opened Bytes
  import opened CanFrame
  import opened IsoTp
  import opened IsoTpLength
  import opened IsoTpLink
  import opened IsoTpProgress
  import opened IsoTpNeed
  import opened IsoTpClearance
  import opened IsoTpCompletion

  // ---- Runs -------------------------------------------------------------------------------

  /** What a run keeps to: the block sizes that the two ends are configured to advertise, how much the messages
      need at most, and whether each of them is answered once only. */
  datatype Terms = Terms(left: u8, right: u8, need: nat, once: bool) {
    function Swap(): Terms { Terms(right, left, need, once) }

    predicate Admits(size: nat) {
      Transferable(size) && Need(size) <= need && (once ==> AnsweredOnce(size))
    }
  }

  predicate Modest(e: Event, b: u8, m: Terms) {
    match e
    case Submit(_, data, _) => 4 <= |data| <= 11 || m.Admits(|data|)
    case Reconfigure(blockSize, _) => U8(blockSize) == b
    case _ => true
  }

  predicate Meets(a: Action, m: Terms) { Modest(a.e, if a.Left? then m.left else m.right, m) }

  predicate AllMeet(actions: seq<Action>, m: Terms) { forall a :: a in actions ==> Meets(a, m) }

  /** Some run on these terms leads from `s` to `t`. */
  ghost predicate Reaches(s: System, t: System, m: Terms)
    requires WellFormed(s)
  {
    exists actions :: AllFeasible(actions) && AllMeet(actions, m) && RunSystem(s, actions) == t
  }

  lemma {:induction false} RunConcat(s: System, first: seq<Action>, second: seq<Action>)
    requires WellFormed(s) && AllFeasible(first) && AllFeasible(second)
    ensures AllFeasible(first + second)
    ensures RunSystem(s, first + second) == RunSystem(RunSystem(s, first), second)
    decreases |first|
  {
    if first == [] {
      assert first + second == second;
    } else {
      assert (first + second)[1..] == first[1..] + second;
      RunConcat(SystemStep(s, first[0]), first[1..], second);
    }
  }

  lemma ReachNowhere(s: System, m: Terms)
    requires WellFormed(s)
    ensures Reaches(s, s, m)
  {
    assert RunSystem(s, []) == s && AllMeet([], m);
  }

  lemma ReachStep(s: System, a: Action, m: Terms)
    requires WellFormed(s) && Meets(a, m)
    ensures Reaches(s, SystemStep(s, a), m)
  {
    assert [a][1..] == [];
    assert RunSystem(s, [a]) == SystemStep(s, a);
    assert AllMeet([a], m);
  }

  lemma ReachOn(s: System, t: System, u: System, m: Terms)
    requires WellFormed(s) && WellFormed(t) && Reaches(s, t, m) && Reaches(t, u, m)
    ensures Reaches(s, u, m)
  {
    var first :| AllFeasible(first) && AllMeet(first, m) && RunSystem(s, first) == t;
    var second :| AllFeasible(second) && AllMeet(second, m) && RunSystem(t, second) == u;
    RunConcat(s, first, second);
    assert AllMeet(first + second, m);
  }

  function Flip(a: Action): Action {
    match a
    case Left(e) => Right(e)
    case Right(e) => Left(e)
  }

  function FlipAll(actions: seq<Action>): (r: seq<Action>)
    ensures |r| == |actions| && forall i :: 0 <= i < |r| ==> r[i] == Flip(actions[i])
  {
    seq(|actions|, i requires 0 <= i < |actions| => Flip(actions[i]))
  }

  lemma {:induction false} FlipRun(s: System, actions: seq<Action>)
    requires WellFormed(s) && AllFeasible(actions)
    ensures AllFeasible(FlipAll(actions)) && RunSystem(s.Swap(), FlipAll(actions)) == RunSystem(s, actions).Swap()
    decreases |actions|
  {
    assert forall a :: a in FlipAll(actions) ==> Flip(a) in actions;
    if actions == [] {
    } else {
      assert FlipAll(actions)[1..] == FlipAll(actions[1..]);
      FlipRun(SystemStep(s, actions[0]), actions[1..]);
    }
  }

  /** The two ends are interchangeable. */
  lemma ReachFlip(s: System, t: System, m: Terms)
    requires WellFormed(s) && Reaches(s, t, m)
    ensures Reaches(s.Swap(), t.Swap(), m.Swap())
  {
    var actions :| AllFeasible(actions) && AllMeet(actions, m) && RunSystem(s, actions) == t;
    FlipRun(s, actions);
    forall a | a in FlipAll(actions)
      ensures Meets(a, m.Swap())
    {
      assert Flip(a) in actions && Meets(Flip(a), m);
    }
  }

  lemma ReachKeepsInv(s: System, t: System, m: Terms)
    requires Inv(s) && Reaches(s, t, m)
    ensures Inv(t)
  {
    var actions :| AllFeasible(actions) && AllMeet(actions, m) && RunSystem(s, actions) == t;
    RunKeepsInv(s, actions);
  }

  // ---- Single steps -----------------------------------------------------------------------

  function Reception(): Event { Deliver(NothingBeyond(), 0) }

  predicate IsAnswer(f: Frame, b: u8) { f.data[0] == 0x30 && f.data[1] == b }

  /** How many frames a sender may send on a flow control with this block size. */
  function Limit(b: u8): (limit: u16)
    ensures limit > 0
  {
    if b == 0 then BLOCK_UNLIMITED else b
  }

  /** A later flow control repeats what its sender was told itself, and no limit becomes one of 255. */
  function Repeated(b: u8): (r: u8)
    ensures r > 0
  {
    if b == 0 then 0xFF else b
  }

  lemma RepeatsLowByte(b: u8)
    ensures U8(Limit(b)) == Repeated(b)
  {
  }

  /** `y` answers first frames, and is not in a reassembly that could not have been started by one. */
  ghost predicate Answers(s: System) {
    WellFormed(s) && s.y.c.flowControlIds[s.y.mailbox] != 0 && Sane(s.y.c.rx)
  }

  /** `x` submits a segmented message. */
  lemma FirstFrameOut(s: System, data: seq<u8>, m: Terms) returns (t: System)
    requires Answers(s) && Quiet(s) && !s.x.c.tx.isSending && m.Admits(|data|)
    ensures WellFormed(t) && Reaches(s, t, m)
    ensures t.y == s.y && |t.x.outbox| == 1 && StartsSegmented(t.x.c.tx, t.x.outbox[0], data)
    ensures !t.x.c.tx.clearToSend && t.x.c.blockSize == s.x.c.blockSize
  {
    var a := Left(Submit(0, data, false));
    SendMsgSubmits(s.x.c, 0, data, false);
    ReachStep(s, a, m);
    t := SystemStep(s, a);
  }

  /** Its first frame is answered with the configured block size. */
  lemma FirstFrameIn(s: System, data: seq<u8>, b: u8, m: Terms) returns (t: System)
    requires Answers(s) && s.y.outbox == [] && |s.x.outbox| == 1 && !s.y.c.rx.isReceiving
    requires StartsSegmented(s.x.c.tx, s.x.outbox[0], data) && U8(s.y.c.blockSize) == b
    ensures Answers(t) && Reaches(s, t, m)
    ensures t.x == s.x.(outbox := []) && |t.y.outbox| == 1 && IsAnswer(t.y.outbox[0], b)
    ensures t.y.c.tx == s.y.c.tx && t.y.c.blockSize == s.y.c.blockSize
    ensures t.y.c.rx == BeginReassembly(s.y.c.rx, s.x.outbox[0])
  {
    var f := s.x.outbox[0];
    FirstFrameStarts(f, data, s.y.c.rx);
    FlowControlFields(f, s.y.c.flowControlIds[s.y.mailbox], s.y.c.blockSize, s.y.c.sepTime);
    assert s.x.outbox[1..] == [];
    ReachStep(s, Right(Reception()), m);
    t := SystemStep(s, Right(Reception()));
    assert t.y.outbox == [FlowControl(f, s.y.c.flowControlIds[s.y.mailbox], s.y.c.blockSize, s.y.c.sepTime)];
  }

  lemma FlowControlReceived(c: Channel, mailbox: nat, f: Frame, b: u8)
    requires c.Valid() && mailbox < |c.used| && IsAnswer(f, b)
    ensures var o := Receive(c, mailbox, f, NothingBeyond(), 0);
            && o.sent == [] && o.toPc == [] && o.c.blockSize == c.blockSize
            && o.c.tx.clearToSend && o.c.tx.framesSent == 0 && o.c.tx.blockSize == Limit(b)
            && o.c.tx.size == c.tx.size && o.c.tx.pos == c.tx.pos
  {
  }

  /** A flow control that arrives gives clearance and changes nothing else that counts. */
  lemma FlowControlIn(s: System, b: u8, m: Terms) returns (t: System)
    requires WellFormed(s) && |s.y.outbox| == 1 && IsAnswer(s.y.outbox[0], b)
    ensures WellFormed(t) && Reaches(s, t, m)
    ensures t.y == s.y.(outbox := []) && t.x.outbox == s.x.outbox && t.x.c.blockSize == s.x.c.blockSize
    ensures t.x.c.tx.clearToSend && t.x.c.tx.framesSent == 0 && t.x.c.tx.blockSize == Limit(b)
    ensures t.x.c.tx.size == s.x.c.tx.size && t.x.c.tx.pos == s.x.c.tx.pos
  {
    FlowControlReceived(s.x.c, s.x.mailbox, s.y.outbox[0], b);
    assert s.y.outbox[1..] == [];
    assert s.x.outbox + [] == s.x.outbox;
    ReachStep(s, Left(Reception()), m);
    t := SystemStep(s, Left(Reception()));
  }

  /** A consecutive frame goes out. */
  lemma FrameOut(s: System, m: Terms) returns (t: System, f: Frame)
    requires WellFormed(s) && s.x.outbox == [] && s.x.c.tx.isSending && s.x.c.tx.clearToSend
    ensures WellFormed(t) && Reaches(s, t, m)
    ensures t.y == s.y && t.x.outbox == [f] && t.x.c.blockSize == s.x.c.blockSize
    ensures SendsConsecutive(s.x.c.tx, t.x.c.tx, f)
  {
    var now := s.x.c.tx.nextSendTime + 1;
    var a := Left(Transmit(now, now));
    f := DueTransmit(s, a.e);
    ReachStep(s, a, m);
    t := SystemStep(s, a);
  }

  /** A consecutive frame arrives; if it makes `y` send a flow control, that repeats what `y` was told. */
  lemma FrameIn(s: System, f: Frame, told: u8, m: Terms) returns (t: System)
    requires Answers(s) && s.y.outbox == [] && s.x.outbox == [f] && f.data[0] / 0x10 == 2
    requires Take(s.y.c.rx, f).flowControls != 0 ==> s.y.c.tx.blockSize == Limit(told)
    ensures Answers(t) && Reaches(s, t, m)
    ensures t.x == s.x.(outbox := []) && t.y.c.rx == Take(s.y.c.rx, f).rx
    ensures t.y.c.tx == s.y.c.tx && t.y.c.blockSize == s.y.c.blockSize
    ensures if Take(s.y.c.rx, f).flowControls == 0 then t.y.outbox == []
            else |t.y.outbox| == 1 && IsAnswer(t.y.outbox[0], Repeated(told))
  {
    RepeatsLowByte(told);
    ReceiveProjects(s.y.c, s.y.mailbox, f, NothingBeyond(), 0);
    var o := Receive(s.y.c, s.y.mailbox, f, NothingBeyond(), 0);
    assert s.x.outbox[1..] == [] && [] + o.sent == o.sent;
    ReachStep(s, Right(Reception()), m);
    t := SystemStep(s, Right(Reception()));
  }

  // ---- Lock step --------------------------------------------------------------------------

  /** `frames` consecutive frames of a message are to be sent, and `j` have been; the receiver, which has
      them all and ends after `taken`, counts along. */
  predicate AtFrame(tx: Sender, rx: Receiver, taken: nat, frames: nat, j: nat) {
    && Transferable(tx.size) && tx.pos == 10 + 7 * j && j < frames
    && 7 * frames <= tx.size - 4 < 7 * frames + 7 && 1 <= taken <= frames
    && (if j < taken then
          && rx.isReceiving && rx.pos == tx.pos && rx.frameCount == Since(taken, j)
          && 7 * taken <= rx.size - 4 < 7 * taken + 7
        else !rx.isReceiving)
  }

  /** In between, nothing is in flight, and as many frames as possible were sent on the last flow control,
      which allows `limit`. */
  ghost predicate Locked(s: System, taken: nat, frames: nat, limit: nat, j: nat) {
    && Answers(s) && Quiet(s) && !s.y.c.tx.clearToSend
    && AtFrame(s.x.c.tx, s.y.c.rx, taken, frames, j)
    && Since(taken, j) <= limit && s.x.c.tx.blockSize == limit && s.x.c.tx.framesSent == Since(taken, j)
    && s.x.c.tx.clearToSend == (Since(taken, j) < limit)
  }

  /** The last frame made `y` send a flow control, which is on its way. */
  ghost predicate AwaitsAnswer(s: System, taken: nat, frames: nat, b: u8, j: nat) {
    && Answers(s) && s.x.outbox == [] && |s.y.outbox| == 1 && IsAnswer(s.y.outbox[0], b)
    && !s.y.c.tx.clearToSend
    && AtFrame(s.x.c.tx, s.y.c.rx, taken, frames, j) && Since(taken, j) == 0
  }

  /** Where sender and receiver are after the next frame, and whether that frame is answered. */
  lemma NextFrame(tx: Sender, tx': Sender, f: Frame, rx: Receiver, taken: nat, frames: nat, j: nat)
    requires tx.Valid() && Sane(rx) && SendsConsecutive(tx, tx', f)
    requires AtFrame(tx, rx, taken, frames, j) && j + 1 < frames
    ensures var e := Take(rx, f);
            && AtFrame(tx', e.rx, taken, frames, j + 1)
            && (if e.flowControls == 0 then Since(taken, j + 1) == Since(taken, j) + 1 else Since(taken, j + 1) == 0)
  {
    EighthFrame(j);
    SinceClosed(taken, j);
  }

  /** How a sender within its block counts a frame. */
  lemma SenderCounts(tx: Sender, tx': Sender, f: Frame, since: nat, limit: nat)
    requires tx.Valid() && SendsConsecutive(tx, tx', f) && tx'.pos < tx.size
    requires tx.blockSize == limit && tx.framesSent == since < limit && tx.clearToSend
    ensures f.data[0] / 0x10 == 2 && tx'.blockSize == limit
    ensures tx'.framesSent == since + 1 && tx'.clearToSend == (since + 1 < limit)
  {
  }

  /** What the sender may send on one flow control after frame `j`, if it was `limit` before */
  function NextLimit(taken: nat, limit: nat, told: u8, j: nat): nat {
    if Since(taken, j) == 0 then Repeated(told) else limit
  }

  /** Frame `j` has arrived, and its answer, if there is one, is on its way. */
  ghost predicate Arrived(s: System, taken: nat, frames: nat, limit: nat, told: u8, j: nat) {
    if s.y.outbox == [] then Since(taken, j) != 0 && Locked(s, taken, frames, limit, j)
    else Since(taken, j) == 0 && AwaitsAnswer(s, taken, frames, Repeated(told), j)
  }

  /** There is a frame to send, and `y` was told `told` if that frame makes it repeat it. */
  ghost predicate MayAdvance(s: System, taken: nat, frames: nat, limit: nat, told: u8, j: nat) {
    && Locked(s, taken, frames, limit, j) && Since(taken, j) < limit && j + 1 < frames
    && (Since(taken, j + 1) == 0 ==> s.y.c.tx.blockSize == Limit(told))
  }

  /** One frame goes from `x` to `y`. */
  lemma Advance(s: System, taken: nat, frames: nat, limit: nat, told: u8, j: nat, m: Terms) returns (t: System)
    requires MayAdvance(s, taken, frames, limit, told, j)
    ensures WellFormed(t) && Reaches(s, t, m) && Arrived(t, taken, frames, limit, told, j + 1)
    ensures t.y.c.tx.blockSize == s.y.c.tx.blockSize
  {
    var s1, f := FrameOut(s, m);
    SenderCounts(s.x.c.tx, s1.x.c.tx, f, Since(taken, j), limit);
    NextFrame(s.x.c.tx, s1.x.c.tx, f, s.y.c.rx, taken, frames, j);
    t := FrameIn(s1, f, told, m);
    ReachOn(s, s1, t, m);
  }

  /** The flow control, if there is one, comes back. */
  lemma Answered(s: System, taken: nat, frames: nat, limit: nat, told: u8, j: nat, m: Terms) returns (t: System)
    requires WellFormed(s) && Arrived(s, taken, frames, limit, told, j)
    ensures WellFormed(t) && Reaches(s, t, m) && Locked(t, taken, frames, NextLimit(taken, limit, told, j), j)
    ensures t.y.c.tx.blockSize == s.y.c.tx.blockSize
  {
    if s.y.outbox == [] {
      t := s;
      ReachNowhere(s, m);
    } else {
      t := FlowControlIn(s, Repeated(told), m);
    }
  }

  /** The receiver has another flow control to send, if it gets the frames for it. */
  predicate Ahead(taken: nat, j: nat) { j + 8 < taken + Since(taken, j) }

  /** In lock step with a peer that was told `told`, if the sender will get far enough for it to matter. */
  ghost predicate InLockStep(s: System, taken: nat, frames: nat, limit: nat, told: u8, j: nat) {
    && Locked(s, taken, frames, limit, j)
    && (Ahead(taken, j) && limit >= 8 ==> s.y.c.tx.blockSize == Limit(told))
  }

  /** The sender will use up its block: this one, or the last one. */
  predicate RunsDry(taken: nat, frames: nat, limit: nat, told: u8, j: nat) {
    && 1 <= taken <= frames && j < frames && Since(taken, j) <= limit
    && if Ahead(taken, j) then limit < 8 || Repeated(told) < Since(taken, frames) else limit < Since(taken, frames)
  }

  ghost predicate Doomed(s: System, taken: nat, frames: nat, limit: nat, told: u8, j: nat) {
    InLockStep(s, taken, frames, limit, told, j) && RunsDry(taken, frames, limit, told, j)
  }

  lemma RunsDryLater(taken: nat, frames: nat, limit: nat, told: u8, j: nat)
    requires RunsDry(taken, frames, limit, told, j) && Since(taken, j) < limit
    ensures j + 1 < frames && RunsDry(taken, frames, NextLimit(taken, limit, told, j + 1), told, j + 1)
    ensures Since(taken, j + 1) == 0 ==> Ahead(taken, j) && limit >= 8
    ensures Since(taken, j + 1) != 0 ==> Since(taken, j + 1) == Since(taken, j) + 1
  {
    EighthFrame(j);
    SinceClosed(taken, j);
    SinceClosed(taken, frames);
  }

  /** `t` is one frame further than `s`. */
  ghost predicate Follows(s: System, t: System, taken: nat, frames: nat, limit: nat, j: nat) {
    Locked(t, taken, frames, limit, j) && t.y.c.tx.blockSize == s.y.c.tx.blockSize
  }

  /** One frame, and the flow control it may trigger. */
  lemma LockStep(s: System, taken: nat, frames: nat, limit: nat, told: u8, j: nat, m: Terms) returns (t: System)
    requires MayAdvance(s, taken, frames, limit, told, j)
    ensures Follows(s, t, taken, frames, NextLimit(taken, limit, told, j + 1), j + 1) && Reaches(s, t, m)
  {
    var s1 := Advance(s, taken, frames, limit, told, j, m);
    t := Answered(s1, taken, frames, limit, told, j + 1, m);
    ReachOn(s, s1, t, m);
  }

  lemma StaysDoomed(s: System, t: System, taken: nat, frames: nat, limit: nat, told: u8, j: nat)
    requires Doomed(s, taken, frames, limit, told, j) && Since(taken, j) < limit
    requires Follows(s, t, taken, frames, NextLimit(taken, limit, told, j + 1), j + 1)
    ensures Doomed(t, taken, frames, NextLimit(taken, limit, told, j + 1), told, j + 1)
  {
    RunsDryLater(taken, frames, limit, told, j);
  }

  // ---- The stall --------------------------------------------------------------------------

  /** At rest with a message unfinished, so that every later segmented message is refused. */
  ghost predicate Stalled(s: System) { AtRest(s) && s.x.c.tx.isSending && s.x.c.tx.pos < s.x.c.tx.size }

  lemma BlockUsedUp(s: System, taken: nat, frames: nat, limit: nat, told: u8, j: nat, m: Terms)
    requires Doomed(s, taken, frames, limit, told, j) && Since(taken, j) == limit
    ensures Reaches(s, s, m) && Stalled(s)
  {
    ReachNowhere(s, m);
  }

  lemma DoomedBelow(s: System, taken: nat, frames: nat, limit: nat, told: u8, j: nat)
    requires Doomed(s, taken, frames, limit, told, j)
    ensures WellFormed(s) && j < frames && Since(taken, j) <= limit
    ensures Since(taken, j) < limit ==> MayAdvance(s, taken, frames, limit, told, j)
  {
    if Since(taken, j) < limit { RunsDryLater(taken, frames, limit, told, j); }
  }

  lemma {:induction false} RunToStall(s: System, taken: nat, frames: nat, limit: nat, told: u8, j: nat, m: Terms)
    returns (t: System)
    requires Doomed(s, taken, frames, limit, told, j)
    ensures WellFormed(s) && WellFormed(t) && Reaches(s, t, m) && Stalled(t)
    decreases frames - j
  {
    DoomedBelow(s, taken, frames, limit, told, j);
    if Since(taken, j) == limit {
      t := s;
      BlockUsedUp(s, taken, frames, limit, told, j, m);
    } else {
      var s1 := LockStep(s, taken, frames, limit, told, j, m);
      StaysDoomed(s, s1, taken, frames, limit, told, j);
      t := RunToStall(s1, taken, frames, NextLimit(taken, limit, told, j + 1), told, j + 1, m);
      ReachOn(s, s1, t, m);
    }
  }

  // ---- From the initial state -------------------------------------------------------------

  /** Both ends are idle, and advertise what the terms say. */
  ghost predicate Idle(s: System, m: Terms) {
    && Inv(s) && Quiet(s) && SenderDone(s.x.c.tx) && SenderDone(s.y.c.tx)
    && U8(s.x.c.blockSize) == m.left && U8(s.y.c.blockSize) == m.right
  }

  /** Two new channels that are configured as the terms say. */
  ghost predicate Starts(s: System, m: Terms) {
    InitialSystem(s) && U8(s.x.c.blockSize) == m.left && U8(s.y.c.blockSize) == m.right
  }

  lemma StartsIdle(s: System, m: Terms)
    requires Starts(s, m)
    ensures Idle(s, m) && Starts(s.Swap(), m.Swap())
  {
    InvInitially(s);
  }

  lemma IdleSwapped(s: System, m: Terms)
    requires Idle(s, m)
    ensures Idle(s.Swap(), m.Swap())
  {
  }

  lemma IdleAnswers(s: System, m: Terms)
    requires Idle(s, m)
    ensures Answers(s) && !s.y.c.rx.isReceiving
  {
    if s.x.c.tx.size >= 12 {
      DecodedRange(s.x.c.tx.size);
    }
  }

  /** After a first frame the receiver is at frame 0 of those its decoded length makes it expect. */
  lemma AtFirstFrame(tx: Sender, f: Frame, data: seq<u8>, rx: Receiver)
    requires StartsSegmented(tx, f, data)
    ensures AtFrame(tx, BeginReassembly(rx, f), FramesTaken(|data|), FramesFor(|data|), 0)
  {
    FramesRange(|data|);
    FramesForBounds(|data|);
    FramesForBounds(DecodedSize(|data|));
    FirstFrameStarts(f, data, rx);
  }

  /** `x` submits a segmented message, its first frame arrives, and the flow control comes back. */
  lemma Opening(s: System, data: seq<u8>, m: Terms) returns (t: System)
    requires Idle(s, m) && m.Admits(|data|)
    ensures Reaches(s, t, m) && Locked(t, FramesTaken(|data|), FramesFor(|data|), Limit(m.right), 0)
    ensures t.y.c.tx == s.y.c.tx
    ensures t.x.c.blockSize == s.x.c.blockSize && t.y.c.blockSize == s.y.c.blockSize
  {
    IdleAnswers(s, m);
    var s1 := FirstFrameOut(s, data, m);
    var s2 := FirstFrameIn(s1, data, m.right, m);
    AtFirstFrame(s1.x.c.tx, s1.x.outbox[0], data, s.y.c.rx);
    t := FlowControlIn(s2, m.right, m);
    ReachOn(s, s1, s2, m);
    ReachOn(s, s2, t, m);
  }

  /** The only consecutive frame of a message ends the transfer. */
  lemma LastFrame(s: System, limit: nat, m: Terms) returns (t: System)
    requires Locked(s, 1, 1, limit, 0) && limit > 0
    ensures Reaches(s, t, m) && Quiet(t)
    ensures SenderDone(t.x.c.tx) && t.x.c.tx.blockSize == limit && t.y.c.tx == s.y.c.tx
    ensures t.x.c.blockSize == s.x.c.blockSize && t.y.c.blockSize == s.y.c.blockSize
  {
    var s1, f := FrameOut(s, m);
    t := FrameIn(s1, f, 0, m);
    ReachOn(s, s1, t, m);
  }

  lemma TwelveBytes()
    ensures FramesFor(12) == FramesTaken(12) == 1 && Need(12) == 1
  {
    DecodedRange(12);
    SinceClosed(1, 1);
  }

  /** After `x` has sent a short segmented message, it repeats in later flow controls what it was told. */
  lemma Prime(s: System, m: Terms) returns (t: System)
    requires Idle(s, m) && m.need >= 1
    ensures Reaches(s, t, m) && Idle(t, m) && t.x.c.tx.blockSize == Limit(m.right)
  {
    TwelveBytes();
    var data := seq(12, _ => 0);
    var s1 := Opening(s, data, m);
    t := LastFrame(s1, Limit(m.right), m);
    ReachOn(s, s1, t, m);
    ReachKeepsInv(s, t, m);
  }

  /** `y` advertises less than a message of `x` needs, which stalls before `y` has to repeat anything. */
  lemma StallsAtOnce(s: System, data: seq<u8>, m: Terms) returns (t: System)
    requires Idle(s, m) && m.Admits(|data|)
    requires 0 < m.right < Need(|data|) && (m.right < 8 || FramesTaken(|data|) <= 8)
    ensures Reaches(s, t, m) && Stalled(t)
  {
    var taken, frames := FramesTaken(|data|), FramesFor(|data|);
    FramesRange(|data|);
    var s1 := Opening(s, data, m);
    t := RunToStall(s1, taken, frames, m.right, m.right, 0, m);
    ReachOn(s, s1, t, m);
  }

  /** `y` was told less than a message of `x` needs at the end, and repeats it in later flow controls. */
  lemma StallsAtTheEnd(s: System, data: seq<u8>, told: u8, m: Terms) returns (t: System)
    requires Idle(s, m) && m.Admits(|data|) && s.y.c.tx.blockSize == Limit(told)
    requires 8 <= Repeated(told) < Need(|data|) && FramesTaken(|data|) > 8 && (m.right == 0 || m.right >= 8)
    ensures Reaches(s, t, m) && Stalled(t)
  {
    var taken, frames := FramesTaken(|data|), FramesFor(|data|);
    FramesRange(|data|);
    var s1 := Opening(s, data, m);
    t := RunToStall(s1, taken, frames, Limit(m.right), told, 0, m);
    ReachOn(s, s1, t, m);
  }

  /** `x` is primed with what `y` advertises, and then `y` sends the message. */
  lemma PeerStalls(s: System, data: seq<u8>, m: Terms) returns (t: System)
    requires Idle(s, m) && m.Admits(|data|) && m.need >= 1
    requires 8 <= Repeated(m.right) < Need(|data|) && FramesTaken(|data|) > 8 && (m.left == 0 || m.left >= 8)
    ensures Reaches(s, t, m) && Stalled(t.Swap())
  {
    var s1 := Prime(s, m);
    IdleSwapped(s1, m);
    var u := StallsAtTheEnd(s1.Swap(), data, m.right, m.Swap());
    ReachFlip(s1.Swap(), u, m.Swap());
    t := u.Swap();
    ReachOn(s, s1, t, m);
  }

  /** One of the two ends is stuck. */
  ghost predicate OneStalled(s: System) { Stalled(s) || Stalled(s.Swap()) }

  lemma StalledIsNotDone(s: System)
    requires OneStalled(s)
    ensures AtRest(s) && !Done(s)
  {
    if Stalled(s.Swap()) {
      assert forall a :: Productive(s, a) ==> Productive(s.Swap(), Flip(a));
    }
  }

  /** `y` advertises too little for a message: `x` can get stuck with it, or `y` itself after `x` was told. */
  lemma SmallBlockStalls(s: System, data: seq<u8>, m: Terms) returns (t: System)
    requires Starts(s, m) && m.Admits(|data|) && 0 < m.right < Need(|data|)
    ensures WellFormed(s) && Reaches(s, t, m) && OneStalled(t)
  {
    StartsIdle(s, m);
    if m.right < 8 || FramesTaken(|data|) <= 8 {
      t := StallsAtOnce(s, data, m);
    } else if 0 < m.left < 8 {
      IdleSwapped(s, m);
      var u := StallsAtOnce(s.Swap(), data, m.Swap());
      ReachFlip(s.Swap(), u, m.Swap());
      t := u.Swap();
    } else {
      t := PeerStalls(s, data, m);
    }
  }

  /** No block size is enough for messages that do not fit a first frame and are answered more than once: one that
      sets no limit is repeated as one of 255. */
  lemma LongMessagesStall(s: System, data: seq<u8>, m: Terms) returns (t: System)
    requires Starts(s, m) && m.Admits(|data|) && FramesTaken(|data|) > 8 && 0xFF < Need(|data|)
    ensures WellFormed(s) && Reaches(s, t, m) && OneStalled(t)
  {
    StartsIdle(s, m);
    if m.right == 0 && m.left == 0 {
      t := PeerStalls(s, data, m);
    } else if m.right != 0 {
      t := SmallBlockStalls(s, data, m);
    } else {
      var u := SmallBlockStalls(s.Swap(), data, m.Swap());
      ReachFlip(s.Swap(), u, m.Swap());
      t := u.Swap();
    }
  }

  // ---- The exact condition ----------------------------------------------------------------

  /** No run on these terms ends with anything unfinished. */
  ghost predicate AlwaysCompletes(s: System, m: Terms)
    requires WellFormed(s)
  {
    forall t :: Reaches(s, t, m) && AtRest(t) ==> Done(t)
  }

  /** Messages fit a first frame or are answered once, and both ends advertise no limit or at least what they
      need. */
  predicate EnoughForBoth(m: Terms) {
    (m.need <= 0xFF || m.once) && Suffices(m.left, m.need) && Suffices(m.right, m.need)
  }

  lemma MeetsIsProvided(actions: seq<Action>, m: Terms)
    requires AllMeet(actions, m) && EnoughForBoth(m)
    ensures AllProvided(actions, m.need)
  {
    forall a | a in actions
      ensures Provided(a.e, m.need)
    {
      assert Meets(a, m);
      if a.e.Submit? && |a.e.data| > 11 { NeedIsLeast(|a.e.data|, m.need); }
    }
  }

  lemma EnoughCompletes(s: System, m: Terms)
    requires Starts(s, m) && 1 <= m.need <= 0xFFFF && EnoughForBoth(m)
    ensures WellFormed(s) && AlwaysCompletes(s, m)
  {
    forall t | Reaches(s, t, m) && AtRest(t)
      ensures Done(t)
    {
      var actions :| AllFeasible(actions) && AllMeet(actions, m) && RunSystem(s, actions) == t;
      MeetsIsProvided(actions, m);
      Completion(s, actions, m.need);
    }
  }

  /** Of the messages that do not fit a first frame, one of those that need least is answered twice. */
  lemma LongMessage(size: nat)
    requires 4163 <= size <= 4165
    ensures Transferable(size) && FramesTaken(size) == 9 && Need(size) == 586
  {
    assert (size - 4) % 0x100 == size - 0x1004;
    DecodedRange(size);
    FramesForBounds(size);
    FramesForBounds(size - 0x1000);
    assert FramesFor(size) == 594 && FramesTaken(size) == 9;
    SinceClosed(9, 594);
  }

  lemma NotEnoughStalls(s: System, size: nat, m: Terms) returns (t: System)
    requires Starts(s, m) && m.Admits(size) && m.need == Need(size) && !EnoughForBoth(m)
    ensures WellFormed(s) && Reaches(s, t, m) && OneStalled(t)
  {
    NeedRange(size);
    StartsIdle(s, m);
    var data := seq(size, _ => 0);
    if !Suffices(m.right, m.need) {
      t := SmallBlockStalls(s, data, m);
    } else if !Suffices(m.left, m.need) {
      var u := SmallBlockStalls(s.Swap(), data, m.Swap());
      ReachFlip(s.Swap(), u, m.Swap());
      t := u.Swap();
    } else {
      LongMessage(4163);
      t := LongMessagesStall(s, seq(4163, _ => 0), m);
    }
  }

  /** The exact condition on what the two ends advertise, for messages that need no more than one of `size` bytes
      or, of these, only those that are answered once: every run ends complete if and only if each end advertises no
      limit or at least what the message needs, and it fits a first frame or all are answered once. */
  lemma BlockSizesExact(s: System, size: nat, m: Terms)
    requires Starts(s, m) && m.Admits(size) && m.need == Need(size)
    ensures WellFormed(s) && (AlwaysCompletes(s, m) <==> EnoughForBoth(m))
    ensures m.need <= 0xFF <==> size <= 4099
  {
    NeedRange(size);
    if EnoughForBoth(m) {
      EnoughCompletes(s, m);
    } else {
      var t := NotEnoughStalls(s, size, m);
      StalledIsNotDone(t);
      assert Reaches(s, t, m) && AtRest(t) && !Done(t);
    }
  }

  /** In particular messages of 4108 to 4162 bytes, which do not fit a first frame, always complete if both ends
      advertise no limit. */
  lemma LongMessagesComplete(s: System, size: nat, m: Terms)
    requires Starts(s, m) && 4108 <= size <= 4162 && m == Terms(0, 0, Need(size), true)
    ensures m.Admits(size) && 0xFF < m.need && WellFormed(s) && AlwaysCompletes(s, m)
  {
    OnceRange(size);
    NeedRange(size);
    BlockSizesExact(s, size, m);
  }
}
