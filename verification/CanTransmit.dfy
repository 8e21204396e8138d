/**
  The transmit side of the CAN controller (firmware/due_can.cpp): software queues in front of eight
  hardware mailboxes, filled by the main program under an interrupt lock and emptied by the mailbox
  interrupt.

  A queue is the first-in first-out queue that module RingBuffer proves a ring of `room + 1` slots to be.
 */
module CanTransmit {
  import opened Bytes
  import opened CanFrame

  const MAILBOXES: nat := 8

  /** A software queue with the frames ever accepted for it and those of them written to a mailbox. */
  datatype Line = Line(queue: seq<Frame>, room: nat, accepted: seq<Frame>, written: seq<Frame>) {
    function Append(f: Frame): Line {
      if |queue| < room then this.(queue := queue + [f], accepted := accepted + [f]) else this
    }

    /** `f` goes straight to a mailbox. */
    function Bypass(f: Frame): Line {
      this.(accepted := accepted + [f], written := written + [f])
    }

    function Pop(): Line
      requires queue != []
    {
      this.(queue := queue[1..], written := written + [queue[0]])
    }

    predicate InOrder() { accepted == written + queue }
  }

  /** A mailbox: its mode, whether it has a queue of its own (`line`), the frame it is sending, if any,
      and whether its interrupt is enabled. It is ready exactly when it is sending nothing. */
  datatype Mailbox = Mailbox(transmits: bool, ownQueue: bool, line: Line, sending: Option<Frame>, enabled: bool) {
    predicate Global() { transmits && !ownQueue }

    /** Ready, with nothing in a queue of its own. */
    predicate Idle() { (!ownQueue || line.queue == []) && sending.None? }

    predicate Free() { Global() && sending.None? }

    function Load(f: Frame): Mailbox { this.(sending := Some(f)) }
  }

  datatype Controller = Controller(boxes: seq<Mailbox>, line: Line, transmitted: seq<Frame>)

  /** The first free mailbox that the shared queue may use, from index `i` on. */
  function FirstFree(boxes: seq<Mailbox>, i: nat): (r: nat)
    requires i <= |boxes|
    ensures i <= r <= |boxes|
    ensures r < |boxes| ==> boxes[r].Free()
    ensures forall j :: i <= j < r ==> !boxes[j].Free()
    decreases |boxes| - i
  {
    if i == |boxes| || boxes[i].Free() then i else FirstFree(boxes, i + 1)
  }

  /** Writing `f` to mailbox `m` from the main program. */
  function Write(boxes: seq<Mailbox>, m: nat, f: Frame): seq<Mailbox>
    requires m < |boxes|
  {
    boxes[m := boxes[m].Load(f).(enabled := true)]
  }

  /** `sendFrame` for any mailbox */
  function Send(c: Controller, f: Frame): (r: (Controller, bool)) {
    var m := if c.line.queue == [] then FirstFree(c.boxes, 0) else |c.boxes|;
    if m < |c.boxes| then (c.(boxes := Write(c.boxes, m, f), line := c.line.Bypass(f)), true)
    else (c.(line := c.line.Append(f)), |c.line.queue| < c.line.room)
  }

  /** `sendFrame` for a given mailbox, on that mailbox: whether the frame is accepted */
  predicate AcceptsOwn(b: Mailbox) {
    && b.transmits
    && (b.Idle() || (b.ownQueue && |b.line.queue| < b.line.room))
  }

  function SendOwn(b: Mailbox, f: Frame): Mailbox
    requires AcceptsOwn(b)
  {
    if b.Idle() then b.Load(f).(enabled := true, line := b.line.Bypass(f))
    else b.(line := b.line.Append(f))
  }

  function SendVia(c: Controller, f: Frame, m: nat): (r: (Controller, bool)) {
    if m >= |c.boxes| || !AcceptsOwn(c.boxes[m]) then (c, false)
    else (c.(boxes := c.boxes[m := SendOwn(c.boxes[m], f)]), true)
  }

  /** `mailbox_int_handler`, transmit part */
  function Interrupt(c: Controller, index: nat): Controller
    requires |c.boxes| == MAILBOXES
  {
    var m := if index >= MAILBOXES then MAILBOXES - 1 else index;
    var b := c.boxes[m];
    if b.sending.Some? || !b.transmits then c
    else if b.ownQueue then
      c.(boxes := c.boxes[m :=
        if b.line.queue == [] then b.(enabled := false)
        else b.Load(b.line.queue[0]).(line := b.line.Pop())])
    else if c.line.queue == [] then c.(boxes := c.boxes[m := b.(enabled := false)])
    else c.(boxes := c.boxes[m := b.Load(c.line.queue[0])], line := c.line.Pop())
  }

  /** The hardware has sent the frame in mailbox `m`. */
  function Sent(c: Controller, m: nat): Controller {
    if m < |c.boxes| && c.boxes[m].sending.Some? then
      c.(boxes := c.boxes[m := c.boxes[m].(sending := None)],
         transmitted := c.transmitted + [c.boxes[m].sending.value])
    else c
  }

  /** The CAN_SR register is read unmasked, so an interrupt visits ready mailboxes whose own interrupt
      is disabled as well: `Irq` is possible for every index. */
  datatype Event =
    | AppSend(frame: Frame)
    | AppSendVia(frame: Frame, index: nat)
    | Irq(index: nat)
    | HardwareSent(index: nat)

  function Step(c: Controller, e: Event): (r: Controller)
    requires |c.boxes| == MAILBOXES
    ensures |r.boxes| == MAILBOXES
  {
    match e
    case AppSend(f) => Send(c, f).0
    case AppSendVia(f, m) => SendVia(c, f, m).0
    case Irq(m) => Interrupt(c, m)
    case HardwareSent(m) => Sent(c, m)
  }

  function Run(c: Controller, events: seq<Event>): (r: Controller)
    requires |c.boxes| == MAILBOXES
    ensures |r.boxes| == MAILBOXES
    decreases |events|
  {
    if events == [] then c else Run(Step(c, events[0]), events[1..])
  }

  /** After `init`: the last mailboxes transmit, nothing is queued, all interrupts are disabled. */
  predicate Initial(c: Controller) {
    && |c.boxes| == MAILBOXES
    && c.line.queue == c.line.accepted == c.line.written == [] && c.transmitted == []
    && forall i :: 0 <= i < MAILBOXES ==>
        && c.boxes[i].sending.None? && !c.boxes[i].enabled
        && c.boxes[i].line.queue == c.boxes[i].line.accepted == c.boxes[i].line.written == []
  }

  // ---------------------------------------------------------------------------------------------
  // Sums over the mailboxes

  ghost function Sum(boxes: seq<Mailbox>, g: Mailbox -> multiset<Frame>): multiset<Frame> {
    if boxes == [] then multiset{} else g(boxes[0]) + Sum(boxes[1..], g)
  }

  lemma {:induction false} SumUpdate(boxes: seq<Mailbox>, g: Mailbox -> multiset<Frame>, m: nat, b: Mailbox)
    requires m < |boxes|
    ensures Sum(boxes[m := b], g) + g(boxes[m]) == Sum(boxes, g) + g(b)
    decreases |boxes|
  {
    if m == 0 {
      assert boxes[m := b][1..] == boxes[1..];
    } else {
      SumUpdate(boxes[1..], g, m - 1, b);
      assert boxes[m := b][1..] == boxes[1..][m - 1 := b];
      AddBoth(g(boxes[0]), Sum(boxes[1..][m - 1 := b], g), g(boxes[m]), Sum(boxes[1..], g), g(b));
    }
  }

  lemma AddBoth<T>(x: multiset<T>, s: multiset<T>, p: multiset<T>, t: multiset<T>, q: multiset<T>)
    requires s + p == t + q
    ensures x + s + p == x + t + q
  {
    assert x + s + p == x + (s + p);
    assert x + t + q == x + (t + q);
  }

  ghost function InMailbox(b: Mailbox): multiset<Frame> {
    if b.sending.Some? then multiset{b.sending.value} else multiset{}
  }

  ghost function WrittenOwn(b: Mailbox): multiset<Frame> { multiset(b.line.written) }

  ghost function QueuedOwn(b: Mailbox): multiset<Frame> { multiset(b.line.queue) }

  ghost function AcceptedOwn(b: Mailbox): multiset<Frame> { multiset(b.line.accepted) }

  ghost function Written(c: Controller): multiset<Frame> {
    multiset(c.line.written) + Sum(c.boxes, WrittenOwn)
  }

  ghost function Accepted(c: Controller): multiset<Frame> {
    multiset(c.line.accepted) + Sum(c.boxes, AcceptedOwn)
  }

  ghost function Queued(c: Controller): multiset<Frame> {
    multiset(c.line.queue) + Sum(c.boxes, QueuedOwn)
  }

  // ---------------------------------------------------------------------------------------------
  // The invariant

  /** What holds of each mailbox: a frame in it, or in the queue it serves, has its interrupt enabled. */
  predicate BoxInv(b: Mailbox, shared: seq<Frame>) {
    && b.line.InOrder()
    && (b.sending.Some? || b.line.queue != [] ==> b.transmits && b.enabled)
    && (!b.ownQueue ==> b.line.queue == [])
    && (b.Global() && shared != [] ==> b.enabled)
  }

  /** Every frame written to a mailbox was sent or is still in a mailbox. */
  ghost predicate Balanced(c: Controller) {
    Written(c) == multiset(c.transmitted) + Sum(c.boxes, InMailbox)
  }

  ghost predicate Inv(c: Controller) {
    && |c.boxes| == MAILBOXES
    && c.line.InOrder()
    && (forall i :: 0 <= i < MAILBOXES ==> BoxInv(c.boxes[i], c.line.queue))
    && Balanced(c)
  }

  lemma {:induction false} SumEmpty(boxes: seq<Mailbox>, g: Mailbox -> multiset<Frame>)
    requires forall i :: 0 <= i < |boxes| ==> g(boxes[i]) == multiset{}
    ensures Sum(boxes, g) == multiset{}
    decreases |boxes|
  {
    if boxes == [] {
    } else {
      SumEmpty(boxes[1..], g);
    }
  }

  lemma InitialInv(c: Controller)
    requires Initial(c)
    ensures Inv(c)
  {
    SumEmpty(c.boxes, WrittenOwn);
    SumEmpty(c.boxes, InMailbox);
  }

  /** Replacing mailbox `m` keeps the invariant when the new mailbox satisfies its part and the frames
      written and held by mailboxes grow and shrink together. */
  lemma Replace(c: Controller, d: Controller, m: nat)
    requires Inv(c) && m < MAILBOXES && |d.boxes| == MAILBOXES
    requires d.boxes == c.boxes[m := d.boxes[m]]
    requires d.line.InOrder()
    requires BoxInv(d.boxes[m], d.line.queue)
    requires d.line.queue != [] ==> c.line.queue != []
    requires multiset(d.line.written) + WrittenOwn(d.boxes[m]) + multiset(c.transmitted) + InMailbox(c.boxes[m])
          == multiset(c.line.written) + WrittenOwn(c.boxes[m]) + multiset(d.transmitted) + InMailbox(d.boxes[m])
    ensures Inv(d)
  {
    SumUpdate(c.boxes, WrittenOwn, m, d.boxes[m]);
    SumUpdate(c.boxes, InMailbox, m, d.boxes[m]);
    MoveBalance(multiset(c.line.written), Sum(c.boxes, WrittenOwn), multiset(c.transmitted), Sum(c.boxes, InMailbox),
                multiset(d.line.written), Sum(d.boxes, WrittenOwn), multiset(d.transmitted), Sum(d.boxes, InMailbox),
                WrittenOwn(c.boxes[m]), InMailbox(c.boxes[m]), WrittenOwn(d.boxes[m]), InMailbox(d.boxes[m]));
  }

  lemma MoveBalance<T>(w: multiset<T>, s: multiset<T>, t: multiset<T>, h: multiset<T>,
                       w': multiset<T>, s': multiset<T>, t': multiset<T>, h': multiset<T>,
                       a: multiset<T>, b: multiset<T>, a': multiset<T>, b': multiset<T>)
    requires w + s == t + h
    requires s' + a == s + a' && h' + b == h + b'
    requires w' + a' + t + b == w + a + t' + b'
    ensures w' + s' == t' + h'
  {
    forall x | true
      ensures (w' + s')[x] == (t' + h')[x]
    {
      assert (w + s)[x] == (t + h)[x];
      assert (s' + a)[x] == (s + a')[x];
      assert (h' + b)[x] == (h + b')[x];
      assert (w' + a' + t + b)[x] == (w + a + t' + b')[x];
    }
  }

  lemma SendKeepsInv(c: Controller, f: Frame)
    requires Inv(c)
    ensures Inv(Send(c, f).0)
  {
    var d := Send(c, f).0;
    var m := if c.line.queue == [] then FirstFree(c.boxes, 0) else |c.boxes|;
    if m < |c.boxes| {
      Replace(c, d, m);
    } else {
      forall i | 0 <= i < MAILBOXES ensures BoxInv(d.boxes[i], d.line.queue) {
        assert BoxInv(c.boxes[i], c.line.queue);
      }
      ConcatAssociative(c.line.written, c.line.queue, [f]);
    }
  }

  lemma SendOwnKeepsBox(b: Mailbox, f: Frame, shared: seq<Frame>)
    requires BoxInv(b, shared) && AcceptsOwn(b)
    ensures BoxInv(SendOwn(b, f), shared)
    ensures WrittenOwn(SendOwn(b, f)) + InMailbox(b) == WrittenOwn(b) + InMailbox(SendOwn(b, f))
  {
    ConcatAssociative(b.line.written, b.line.queue, [f]);
  }

  lemma SendViaKeepsInv(c: Controller, f: Frame, m: nat)
    requires Inv(c)
    ensures Inv(SendVia(c, f, m).0)
  {
    if m < |c.boxes| && AcceptsOwn(c.boxes[m]) {
      SendOwnKeepsBox(c.boxes[m], f, c.line.queue);
      Replace(c, SendVia(c, f, m).0, m);
    }
  }

  lemma PopKeepsOrder(line: Line)
    requires line.InOrder() && line.queue != []
    ensures line.Pop().InOrder()
    ensures multiset(line.Pop().written) == multiset(line.written) + multiset{line.queue[0]}
  {
    assert line.queue == [line.queue[0]] + line.queue[1..];
    ConcatAssociative(line.written, [line.queue[0]], line.queue[1..]);
  }

  lemma InterruptKeepsInv(c: Controller, index: nat)
    requires Inv(c)
    ensures Inv(Interrupt(c, index))
  {
    var m := if index >= MAILBOXES then MAILBOXES - 1 else index;
    var b := c.boxes[m];
    assert BoxInv(b, c.line.queue);
    if b.sending.None? && b.transmits {
      var line := if b.ownQueue then b.line else c.line;
      if line.queue != [] {
        PopKeepsOrder(line);
      }
      Replace(c, Interrupt(c, index), m);
    }
  }

  lemma SentKeepsInv(c: Controller, m: nat)
    requires Inv(c)
    ensures Inv(Sent(c, m))
  {
    if m < |c.boxes| && c.boxes[m].sending.Some? {
      assert BoxInv(c.boxes[m], c.line.queue);
      Replace(c, Sent(c, m), m);
    }
  }

  lemma StepKeepsInv(c: Controller, e: Event)
    requires Inv(c)
    ensures Inv(Step(c, e))
  {
    match e
    case AppSend(f) => SendKeepsInv(c, f);
    case AppSendVia(f, m) => SendViaKeepsInv(c, f, m);
    case Irq(m) => InterruptKeepsInv(c, m);
    case HardwareSent(m) => SentKeepsInv(c, m);
  }

  lemma {:induction false} RunKeepsInv(c: Controller, events: seq<Event>)
    requires Inv(c)
    ensures Inv(Run(c, events))
    decreases |events|
  {
    if events == [] {
    } else {
      StepKeepsInv(c, events[0]);
      RunKeepsInv(Step(c, events[0]), events[1..]);
    }
  }

  // ---------------------------------------------------------------------------------------------
  // Main results

  lemma {:induction false} OwnLinesSplit(boxes: seq<Mailbox>)
    requires forall i :: 0 <= i < |boxes| ==> boxes[i].line.InOrder()
    ensures Sum(boxes, AcceptedOwn) == Sum(boxes, WrittenOwn) + Sum(boxes, QueuedOwn)
    decreases |boxes|
  {
    if boxes == [] {
    } else {
      OwnLinesSplit(boxes[1..]);
    }
  }

  lemma AcceptedIsSplit(c: Controller)
    requires Inv(c)
    ensures Accepted(c) == multiset(c.transmitted) + Sum(c.boxes, InMailbox) + Queued(c)
  {
    forall i | 0 <= i < |c.boxes| ensures c.boxes[i].line.InOrder() {
      assert BoxInv(c.boxes[i], c.line.queue);
    }
    OwnLinesSplit(c.boxes);
  }

  /** In every run each accepted frame was transmitted, is in a mailbox or is queued, never two of these
      and never twice; and a mailbox that is sending, or has frames waiting for it, has its interrupt
      enabled. */
  lemma NothingLost(c: Controller, events: seq<Event>)
    requires Initial(c)
    ensures var r := Run(c, events);
            && Accepted(r) == multiset(r.transmitted) + Sum(r.boxes, InMailbox) + Queued(r)
            && (forall b :: b in r.boxes && b.sending.Some? ==> b.enabled)
            && (forall b :: b in r.boxes && b.line.queue != [] ==> b.enabled)
            && (forall b :: b in r.boxes && b.Global() && r.line.queue != [] ==> b.enabled)
  {
    InitialInv(c);
    RunKeepsInv(c, events);
    var r := Run(c, events);
    AcceptedIsSplit(r);
    forall b | b in r.boxes ensures BoxInv(b, r.line.queue) {
    }
  }

  lemma Cancel<T>(s: multiset<T>, t: multiset<T>, p: multiset<T>, x: multiset<T>)
    requires s + p == t + (p + x)
    ensures s == t + x
  {
    forall y | true ensures s[y] == (t + x)[y] {
      assert (s + p)[y] == (t + (p + x))[y];
    }
  }

  /** `sendFrame` reports truthfully whether it accepted the frame. */
  lemma SendReports(c: Controller, f: Frame)
    ensures Accepted(Send(c, f).0) == Accepted(c) + (if Send(c, f).1 then multiset{f} else multiset{})
  {
    var m := if c.line.queue == [] then FirstFree(c.boxes, 0) else |c.boxes|;
    if m < |c.boxes| {
      var b := Write(c.boxes, m, f)[m];
      SumUpdate(c.boxes, AcceptedOwn, m, b);
      assert AcceptedOwn(b) == AcceptedOwn(c.boxes[m]) + multiset{};
      Cancel(Sum(c.boxes[m := b], AcceptedOwn), Sum(c.boxes, AcceptedOwn), AcceptedOwn(c.boxes[m]), multiset{});
      assert Send(c, f).0.boxes == c.boxes[m := b];
    }
  }

  /** A frame is accepted if and only if nothing is queued and a mailbox of the shared queue is free, or the queue
      has room. It goes to the first such mailbox at once, and to the end of the queue otherwise. */
  lemma SendTakes(c: Controller, f: Frame)
    ensures Send(c, f).1 <==>
              || (c.line.queue == [] && exists b :: b in c.boxes && b.transmits && !b.ownQueue && b.sending.None?)
              || |c.line.queue| < c.line.room
    ensures var d := Send(c, f).0;
            if c.line.queue == [] && (exists b :: b in c.boxes && b.transmits && !b.ownQueue && b.sending.None?) then
              d.line.queue == [] && exists m :: 0 <= m < |c.boxes| && LoadedFirst(c, d, m, f)
            else
              d.boxes == c.boxes && d.line.queue == c.line.queue + (if Send(c, f).1 then [f] else [])
  {
    var m := FirstFree(c.boxes, 0);
    if c.line.queue == [] && m < |c.boxes| {
      assert c.boxes[m] in c.boxes && LoadedFirst(c, Send(c, f).0, m, f);
    }
  }

  /** Mailbox `m` is the first free one, and it alone changes: it sends `f`, with its interrupt enabled. */
  predicate LoadedFirst(c: Controller, d: Controller, m: nat, f: Frame)
    requires m < |c.boxes|
  {
    && c.boxes[m].Free() && (forall i :: 0 <= i < m ==> !c.boxes[i].Free())
    && |d.boxes| == |c.boxes| && (forall i :: 0 <= i < |c.boxes| && i != m ==> d.boxes[i] == c.boxes[i])
    && d.boxes[m].sending == Some(f) && d.boxes[m].enabled
  }

  /** Through a given mailbox a frame is accepted if and only if the mailbox transmits and is ready, with nothing
      queued for it alone, or has room in a queue of its own. */
  lemma SendViaTakes(c: Controller, f: Frame, m: nat)
    ensures SendVia(c, f, m).1 <==>
              && m < |c.boxes| && c.boxes[m].transmits
              && ((c.boxes[m].sending.None? && (c.boxes[m].ownQueue ==> c.boxes[m].line.queue == []))
                  || (c.boxes[m].ownQueue && |c.boxes[m].line.queue| < c.boxes[m].line.room))
    ensures var d := SendVia(c, f, m).0;
            && d.line == c.line && d.transmitted == c.transmitted && |d.boxes| == |c.boxes|
            && (forall i :: 0 <= i < |c.boxes| && (i != m || !SendVia(c, f, m).1) ==> d.boxes[i] == c.boxes[i])
            && (SendVia(c, f, m).1 ==>
                if c.boxes[m].sending.None? && (c.boxes[m].ownQueue ==> c.boxes[m].line.queue == [])
                then d.boxes[m].sending == Some(f) && d.boxes[m].enabled
                else d.boxes[m].sending == c.boxes[m].sending && d.boxes[m].line.queue == c.boxes[m].line.queue + [f])
  {
  }

  /** An interrupt of a mailbox that is ready to transmit loads the oldest frame waiting for it, its own queue alone
      if it has one, and disables the interrupt if nothing waits; other mailboxes are not touched. */
  lemma InterruptServes(c: Controller, m: nat)
    requires |c.boxes| == MAILBOXES && m < MAILBOXES
    ensures var (b, d) := (c.boxes[m], Interrupt(c, m));
            var waiting := if b.ownQueue then b.line.queue else c.line.queue;
            && |d.boxes| == MAILBOXES && (forall i :: 0 <= i < MAILBOXES && i != m ==> d.boxes[i] == c.boxes[i])
            && d.transmitted == c.transmitted
            && (if b.sending.Some? || !b.transmits then d == c
                else if waiting == [] then d.line == c.line && d.boxes[m] == b.(enabled := false)
                else
                  && d.boxes[m].sending == Some(waiting[0]) && d.boxes[m].enabled == b.enabled
                  && (if b.ownQueue then d.boxes[m].line.queue == waiting[1..] && d.line == c.line
                      else d.line.queue == waiting[1..] && d.boxes[m].line == b.line))
    ensures forall index :: index >= MAILBOXES ==> Interrupt(c, index) == Interrupt(c, MAILBOXES - 1)
  {
  }

  lemma SendOwnAccepts(b: Mailbox, f: Frame)
    requires AcceptsOwn(b)
    ensures AcceptedOwn(SendOwn(b, f)) == AcceptedOwn(b) + multiset{f}
  {
  }

  lemma SendViaReports(c: Controller, f: Frame, m: nat)
    ensures Accepted(SendVia(c, f, m).0) == Accepted(c) + (if SendVia(c, f, m).1 then multiset{f} else multiset{})
  {
    if m < |c.boxes| && AcceptsOwn(c.boxes[m]) {
      var b := SendOwn(c.boxes[m], f);
      SendOwnAccepts(c.boxes[m], f);
      SumUpdate(c.boxes, AcceptedOwn, m, b);
      Cancel(Sum(c.boxes[m := b], AcceptedOwn), Sum(c.boxes, AcceptedOwn), AcceptedOwn(c.boxes[m]), multiset{f});
    }
  }

  /** The frame of an event, if it is a send that reports success */
  function ReportedBy(c: Controller, e: Event): multiset<Frame> {
    match e
    case AppSend(f) => if Send(c, f).1 then multiset{f} else multiset{}
    case AppSendVia(f, m) => if SendVia(c, f, m).1 then multiset{f} else multiset{}
    case _ => multiset{}
  }

  function Reported(c: Controller, events: seq<Event>): multiset<Frame>
    requires |c.boxes| == MAILBOXES
    decreases |events|
  {
    if events == [] then multiset{} else ReportedBy(c, events[0]) + Reported(Step(c, events[0]), events[1..])
  }

  lemma SameAccepted(c: Controller, d: Controller, m: nat, b: Mailbox)
    requires m < |c.boxes| && d.boxes == c.boxes[m := b] && d.line.accepted == c.line.accepted
    requires b.line.accepted == c.boxes[m].line.accepted
    ensures Accepted(d) == Accepted(c)
  {
    SumUpdate(c.boxes, AcceptedOwn, m, b);
    assert AcceptedOwn(b) == AcceptedOwn(c.boxes[m]) + multiset{};
    Cancel(Sum(d.boxes, AcceptedOwn), Sum(c.boxes, AcceptedOwn), AcceptedOwn(c.boxes[m]), multiset{});
  }

  /** Interrupts and the hardware accept nothing. */
  lemma ServicesAcceptNothing(c: Controller, e: Event)
    requires |c.boxes| == MAILBOXES && (e.Irq? || e.HardwareSent?)
    ensures Accepted(Step(c, e)) == Accepted(c)
  {
    var d := Step(c, e);
    var m := if e.index >= MAILBOXES then MAILBOXES - 1 else e.index;
    assert d.boxes == c.boxes[m := d.boxes[m]];
    SameAccepted(c, d, m, d.boxes[m]);
  }

  lemma StepAccepts(c: Controller, e: Event)
    requires |c.boxes| == MAILBOXES
    ensures Accepted(Step(c, e)) == Accepted(c) + ReportedBy(c, e)
  {
    match e
    case AppSend(f) => SendReports(c, f);
    case AppSendVia(f, m) => SendViaReports(c, f, m);
    case _ => ServicesAcceptNothing(c, e);
  }

  lemma AddAssociative<T>(a: multiset<T>, b: multiset<T>, c: multiset<T>)
    ensures a + b + c == a + (b + c)
  {
  }

  /** In every run the accepted frames are exactly those whose send reported success. */
  lemma {:induction false} AcceptedIsReported(c: Controller, events: seq<Event>)
    requires |c.boxes| == MAILBOXES
    ensures Accepted(Run(c, events)) == Accepted(c) + Reported(c, events)
    decreases |events|
  {
    if events == [] {
    } else {
      var d := Step(c, events[0]);
      StepAccepts(c, events[0]);
      AcceptedIsReported(d, events[1..]);
      AddAssociative(Accepted(c), ReportedBy(c, events[0]), Reported(d, events[1..]));
    }
  }

  /** Frames reach the mailboxes in the order they were accepted: those of the shared queue among
      themselves, and those given to one mailbox among themselves. */
  lemma WrittenInOrder(c: Controller, events: seq<Event>)
    requires Initial(c)
    ensures var r := Run(c, events);
            && r.line.accepted == r.line.written + r.line.queue
            && forall b :: b in r.boxes ==> b.line.accepted == b.line.written + b.line.queue
  {
    InitialInv(c);
    RunKeepsInv(c, events);
    var r := Run(c, events);
    forall b | b in r.boxes ensures BoxInv(b, r.line.queue) {
    }
  }

  // ---------------------------------------------------------------------------------------------
  // Draining

  /** The hardware is sending a frame, or the enabled interrupt of a ready mailbox is pending. */
  predicate Pending(b: Mailbox) {
    b.transmits && (b.sending.Some? || b.enabled)
  }

  /** The next event that mailbox `m` causes on its own. */
  function Service(c: Controller, m: nat): Event
    requires m < |c.boxes|
  {
    if c.boxes[m].sending.Some? then HardwareSent(m) else Irq(m)
  }

  ghost function BoxWork(b: Mailbox): nat {
    2 * |b.line.queue| + (if b.sending.Some? then 1 else 0) + (if b.enabled then 1 else 0)
  }

  ghost function TotalWork(boxes: seq<Mailbox>): nat {
    if boxes == [] then 0 else BoxWork(boxes[0]) + TotalWork(boxes[1..])
  }

  ghost function Work(c: Controller): nat { 2 * |c.line.queue| + TotalWork(c.boxes) }

  lemma {:induction false} WorkUpdate(boxes: seq<Mailbox>, m: nat, b: Mailbox)
    requires m < |boxes|
    ensures TotalWork(boxes[m := b]) == TotalWork(boxes) - BoxWork(boxes[m]) + BoxWork(b)
    decreases |boxes|
  {
    if m == 0 {
      assert boxes[m := b][1..] == boxes[1..];
    } else {
      WorkUpdate(boxes[1..], m - 1, b);
      assert boxes[m := b][1..] == boxes[1..][m - 1 := b];
    }
  }

  lemma ServiceLowersWork(c: Controller, m: nat)
    requires |c.boxes| == MAILBOXES && m < MAILBOXES && Pending(c.boxes[m])
    ensures Work(Step(c, Service(c, m))) < Work(c)
  {
    var d := Step(c, Service(c, m));
    WorkUpdate(c.boxes, m, d.boxes[m]);
    assert d.boxes == c.boxes[m := d.boxes[m]];
  }

  /** The services of the mailboxes in the given order, each pending when its turn comes. */
  predicate Serves(c: Controller, order: seq<nat>)
    requires |c.boxes| == MAILBOXES
    decreases |order|
  {
    order == [] || (
      && order[0] < MAILBOXES && Pending(c.boxes[order[0]])
      && Serves(Step(c, Service(c, order[0])), order[1..]))
  }

  function Serve(c: Controller, order: seq<nat>): (r: Controller)
    requires |c.boxes| == MAILBOXES && Serves(c, order)
    ensures |r.boxes| == MAILBOXES
    decreases |order|
  {
    if order == [] then c else Serve(Step(c, Service(c, order[0])), order[1..])
  }

  predicate AtRest(c: Controller) {
    forall b :: b in c.boxes ==> !Pending(b)
  }

  lemma RestIsEmpty(c: Controller)
    requires Inv(c) && AtRest(c) && exists b :: b in c.boxes && b.Global()
    ensures c.line.queue == [] && Sum(c.boxes, QueuedOwn) == Sum(c.boxes, InMailbox) == multiset{}
  {
    var g :| g in c.boxes && g.Global();
    assert BoxInv(g, c.line.queue);
    forall i | 0 <= i < |c.boxes|
      ensures QueuedOwn(c.boxes[i]) == InMailbox(c.boxes[i]) == multiset{}
    {
      assert BoxInv(c.boxes[i], c.line.queue) && !Pending(c.boxes[i]);
    }
    SumEmpty(c.boxes, QueuedOwn);
    SumEmpty(c.boxes, InMailbox);
  }

  lemma {:induction false} ServeKeepsInv(c: Controller, order: seq<nat>)
    requires Inv(c) && Serves(c, order)
    ensures Inv(Serve(c, order)) && |order| + Work(Serve(c, order)) <= Work(c)
    decreases |order|
  {
    if order == [] {
    } else {
      ServiceLowersWork(c, order[0]);
      StepKeepsInv(c, Service(c, order[0]));
      ServeKeepsInv(Step(c, Service(c, order[0])), order[1..]);
    }
  }

  /** From any state of any run the mailboxes can serve themselves only finitely often, in whatever order;
      and when none has anything left to do, every accepted frame was transmitted, if at least one
      mailbox serves the shared queue. */
  lemma NothingStranded(c: Controller, events: seq<Event>, order: seq<nat>)
    requires Initial(c) && exists b :: b in c.boxes && b.Global()
    requires Serves(Run(c, events), order)
    ensures |order| <= Work(Run(c, events))
    ensures var r := Serve(Run(c, events), order);
            AtRest(r) ==> multiset(r.transmitted) == Accepted(r)
  {
    InitialInv(c);
    RunKeepsInv(c, events);
    ServeKeepsInv(Run(c, events), order);
    var r := Serve(Run(c, events), order);
    if AtRest(r) {
      RunKeepsModes(c, events);
      ServeKeepsModes(Run(c, events), order);
      var b :| b in c.boxes && b.Global();
      var i :| 0 <= i < |c.boxes| && c.boxes[i] == b;
      assert r.boxes[i].Global();
      RestIsEmpty(r);
      AcceptedIsSplit(r);
    }
  }

  ghost predicate SameModes(c: Controller, d: Controller) {
    && |c.boxes| == |d.boxes| == MAILBOXES
    && forall i :: 0 <= i < MAILBOXES ==> d.boxes[i].Global() == c.boxes[i].Global()
  }

  lemma StepKeepsModes(c: Controller, e: Event)
    requires |c.boxes| == MAILBOXES
    ensures SameModes(c, Step(c, e))
  {
  }

  lemma {:induction false} RunKeepsModes(c: Controller, events: seq<Event>)
    requires |c.boxes| == MAILBOXES
    ensures SameModes(c, Run(c, events))
    decreases |events|
  {
    if events == [] {
    } else {
      StepKeepsModes(c, events[0]);
      RunKeepsModes(Step(c, events[0]), events[1..]);
    }
  }

  lemma {:induction false} ServeKeepsModes(c: Controller, order: seq<nat>)
    requires |c.boxes| == MAILBOXES && Serves(c, order)
    ensures SameModes(c, Serve(c, order))
    decreases |order|
  {
    if order == [] {
    } else {
      StepKeepsModes(c, Service(c, order[0]));
      ServeKeepsModes(Step(c, Service(c, order[0])), order[1..]);
    }
  }

  /** Without a mailbox for the shared queue nothing ever leaves it. */
  lemma {:induction false} StrandedWithoutMailbox(c: Controller, events: seq<Event>)
    requires |c.boxes| == MAILBOXES && forall b :: b in c.boxes ==> !b.Global()
    ensures c.line.queue <= Run(c, events).line.queue && Run(c, events).line.written == c.line.written
    decreases |events|
  {
    if events == [] {
    } else {
      var d := Step(c, events[0]);
      StepKeepsModes(c, events[0]);
      forall b | b in d.boxes ensures !b.Global() {
        var i :| 0 <= i < |d.boxes| && d.boxes[i] == b;
        assert c.boxes[i] in c.boxes;
      }
      StrandedWithoutMailbox(d, events[1..]);
    }
  }

  // ---------------------------------------------------------------------------------------------
  // The controller as the firmware updates it

  class CanRaw {
    const boxes: array<Mailbox>
    var line: Line
    ghost var transmitted: seq<Frame>

    ghost predicate Valid()
      reads this
    {
      boxes.Length == MAILBOXES
    }

    ghost function State(): Controller
      reads this, boxes
    {
      Controller(boxes[..], line, transmitted)
    }

    method SendFrame(f: Frame) returns (ok: bool)
      requires Valid()
      modifies this`line, boxes
      ensures (State(), ok) == Send(old(State()), f)
    {
      ok := false;
      if line.queue == [] {
        for m := 0 to MAILBOXES
          invariant !ok && boxes[..] == old(boxes[..]) && line == old(line)
          invariant FirstFree(boxes[..], 0) == FirstFree(boxes[..], m)
        {
          if boxes[m].transmits {
            if !boxes[m].ownQueue && boxes[m].sending.None? {
              boxes[m] := boxes[m].Load(f).(enabled := true);
              line := line.Bypass(f);
              ok := true;
              break;
            }
          }
        }
      }
      if !ok {
        ok := |line.queue| < line.room;
        line := line.Append(f);
      }
    }

    method SendFrameVia(f: Frame, m: nat) returns (ok: bool)
      requires Valid()
      modifies boxes
      ensures (State(), ok) == SendVia(old(State()), f, m)
    {
      ok := false;
      if m >= MAILBOXES || !boxes[m].transmits { return; }
      if (!boxes[m].ownQueue || boxes[m].line.queue == []) && boxes[m].sending.None? {
        boxes[m] := boxes[m].Load(f).(enabled := true, line := boxes[m].line.Bypass(f));
        ok := true;
      }
      if !ok && boxes[m].ownQueue && |boxes[m].line.queue| < boxes[m].line.room {
        boxes[m] := boxes[m].(line := boxes[m].line.Append(f));
        ok := true;
      }
    }

    method MailboxInterrupt(index: nat)
      requires Valid()
      modifies this`line, boxes
      ensures State() == Interrupt(old(State()), index)
    {
      var m := index;
      if m >= MAILBOXES { m := MAILBOXES - 1; }
      if boxes[m].sending.Some? || !boxes[m].transmits { return; }
      var pRing := if boxes[m].ownQueue then boxes[m].line else line;
      if pRing.queue != [] {
        boxes[m] := boxes[m].Load(pRing.queue[0]);
        if boxes[m].ownQueue { boxes[m] := boxes[m].(line := pRing.Pop()); } else { line := pRing.Pop(); }
      } else {
        boxes[m] := boxes[m].(enabled := false);
      }
    }
  }
}
