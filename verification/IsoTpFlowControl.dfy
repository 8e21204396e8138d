/** A sender obeys the flow controls it is given, judged from the bus alone. */
module IsoTpFlowControl {
  import opened Bytes
  import opened CanFrame
  import opened IsoTp

  /** What an observer on the bus sees of a transfer, if he knows the separation time that is configured: a
      flow control that arrives at `now`, with its block size and separation time and the configured one, and
      a consecutive frame that is sent between two readings of the clock, `now` and `later`. */
  datatype Seen =
    | Start
    | Clear(blockSize: u8, sepTime: u8, now: nat, configured: nat)
    | Consecutive(now: nat, later: nat)

  function See(input: Input, configured: nat, sent: seq<Frame>): seq<Seen> {
    (if input.Arrive? && input.frame.data[0] == 0x30
     then [Clear(input.frame.data[1], input.frame.data[2], input.now, configured)] else [])
    + (if sent == [] then []
       else if sent[0].data[0] / 0x10 == 1 then [Start]
       else if sent[0].data[0] / 0x10 == 2 then [Consecutive(Times(input).0, Times(input).1)]
       else [])
  }

  /** The first and last clock reading of an input; `sendMsg` and the configuration calls do not read
      the clock. */
  function Times(input: Input): (nat, nat) {
    match input
    case Arrive(_, _, _, now) => (now, now)
    case Clock(now, later) => (now, later)
    case _ => (0, 0)
  }

  function Trace(c: Channel, inputs: seq<Input>): seq<Seen>
    requires c.Valid() && AllPossible(inputs, |c.used|)
    decreases |inputs|
  {
    if inputs == [] then []
    else
      var o := Step(c, inputs[0]);
      See(inputs[0], c.sepTime, o.sent) + Trace(o.c, inputs[1..])
  }

  /** What the flow controls seen so far permit: how many more consecutive frames (`None`: any
      number), the time that has to be over before the next one, and the gap to keep. */
  datatype Permit = Permit(credit: Option<nat>, wait: nat, gap: nat)

  const NO_PERMIT := Permit(Some(0), 0, 0)

  predicate Permitted(p: Permit, e: Seen) { e.Consecutive? ==> p.credit != Some(0) && e.now > p.wait }

  function After(p: Permit, e: Seen): Permit {
    match e
    case Start => NO_PERMIT
    case Clear(blockSize, sepTime, now, configured) =>
      Permit(if blockSize == 0 then None else Some(blockSize), now + configured, sepTime)
    case Consecutive(_, later) =>
      p.(credit := if p.credit.Some? && p.credit.value > 0 then Some(p.credit.value - 1) else p.credit,
         wait := later + p.gap)
  }

  /** No consecutive frame between a first frame and the next flow control, never more than the block size for
      one flow control, more than the configured separation time after the flow control, and more than that of
      the flow control between two frames. */
  predicate Obeys(p: Permit, trace: seq<Seen>)
    decreases |trace|
  {
    trace == [] || (Permitted(p, trace[0]) && Obeys(After(p, trace[0]), trace[1..]))
  }

  ghost predicate Matches(tx: Sender, p: Permit) {
    tx.clearToSend ==>
      && (match p.credit
          case None => true
          case Some(n) => tx.framesSent < tx.blockSize <= 0xFF && n == tx.blockSize - tx.framesSent)
      && p.gap == tx.sepTime && tx.nextSendTime == p.wait
  }

  function AfterAll(p: Permit, trace: seq<Seen>): Permit
    decreases |trace|
  {
    if trace == [] then p else AfterAll(After(p, trace[0]), trace[1..])
  }

  lemma {:induction false} ObeysAppend(p: Permit, first: seq<Seen>, second: seq<Seen>)
    requires Obeys(p, first) && Obeys(AfterAll(p, first), second)
    ensures Obeys(p, first + second)
    decreases |first|
  {
    if first == [] {
      assert first + second == second;
    } else {
      assert (first + second)[1..] == first[1..] + second;
      ObeysAppend(After(p, first[0]), first[1..], second);
    }
  }

  lemma SeenOne(p: Permit, e: Seen)
    ensures Obeys(p, [e]) == Permitted(p, e) && AfterAll(p, [e]) == After(p, e)
  {
    assert [e][1..] == [];
  }

  lemma TickObeys(c: Channel, now: nat, later: nat, p: Permit)
    requires c.Valid() && Matches(c.tx, p)
    ensures var o := Tick(c, now, later); var seen := See(Clock(now, later), c.sepTime, o.sent);
            Obeys(p, seen) && Matches(o.c.tx, AfterAll(p, seen))
  {
    var o := Tick(c, now, later);
    if o.sent != [] {
      var f := ConsecutiveFrame(c);
      assert f.data[0] == c.tx.pci by {
        assert f.data[..1] == [c.tx.pci];
      }
      assert See(Clock(now, later), c.sepTime, o.sent) == [Consecutive(now, later)];
      SeenOne(p, Consecutive(now, later));
    }
  }

  lemma ArriveObeys(c: Channel, input: Input, p: Permit)
    requires c.Valid() && Matches(c.tx, p) && input.Arrive? && Possible(input, |c.used|)
    ensures var o := Step(c, input); var seen := See(input, c.sepTime, o.sent);
            Obeys(p, seen) && Matches(o.c.tx, AfterAll(p, seen))
  {
    var o := Step(c, input);
    var d := input.frame.data;
    if o.sent != [] { assert o.sent[0].data[0] == o.sent[0].data[0..3][0] == 0x30; }
    if d[0] == 0x30 {
      assert See(input, c.sepTime, o.sent) == [Clear(d[1], d[2], input.now, c.sepTime)];
      SeenOne(p, Clear(d[1], d[2], input.now, c.sepTime));
    } else {
      assert See(input, c.sepTime, o.sent) == [];
    }
  }

  lemma SendObeys(c: Channel, input: Input, p: Permit)
    requires c.Valid() && Matches(c.tx, p) && input.Send? && Possible(input, |c.used|)
    ensures var o := Step(c, input); var seen := See(input, c.sepTime, o.sent);
            Obeys(p, seen) && Matches(o.c.tx, AfterAll(p, seen))
  {
    var o := Step(c, input);
    if o.sent != [] {
      if |input.data| <= 11 {
        var d := Splice(c.f.data[0 := |input.data| - 4], 1, input.data[4..]);
        assert o.sent[0].data[0] == d[..1][0] < 0x10;
        assert See(input, c.sepTime, o.sent) == [];
      } else {
        assert o.sent[0].data[0] / 0x10 == 1;
        assert See(input, c.sepTime, o.sent) == [Start];
        SeenOne(p, Start);
      }
    }
  }

  lemma {:induction false} RunObeys(c: Channel, inputs: seq<Input>, p: Permit)
    requires c.Valid() && Matches(c.tx, p) && AllPossible(inputs, |c.used|)
    ensures Obeys(p, Trace(c, inputs))
    decreases |inputs|
  {
    if inputs == [] {
    } else {
      var input, o := inputs[0], Step(c, inputs[0]);
      var seen := See(input, c.sepTime, o.sent);
      match input {
        case Arrive(_, _, _, _) => ArriveObeys(c, input, p);
        case Clock(now, later) => TickObeys(c, now, later, p);
        case Send(_, _, _) => SendObeys(c, input, p);
        case _ =>
      }
      RunObeys(o.c, inputs[1..], AfterAll(p, seen));
      ObeysAppend(p, seen, Trace(o.c, inputs[1..]));
    }
  }

  /** Every run of a new channel obeys the flow controls it receives. */
  lemma FlowControlObeyed(c: Channel, inputs: seq<Input>)
    requires Initial(c) && AllPossible(inputs, |c.used|)
    ensures c.Valid() && Obeys(NO_PERMIT, Trace(c, inputs))
  {
    RunObeys(c, inputs, NO_PERMIT);
  }

  // ---- No later than that ------------------------------------------------------------------

  /** While a message is not all out, the sender is clear to send exactly as long as the flow controls permit. */
  ghost predicate MatchesExactly(tx: Sender, p: Permit) {
    && Matches(tx, p)
    && (tx.pos < tx.size ==> (tx.clearToSend <==> p.credit != Some(0)))
    && (tx.pos < tx.size && p.credit.None? ==> tx.blockSize == BLOCK_UNLIMITED && 7 * tx.framesSent <= tx.pos)
  }

  /** A check of the clock sends a frame of the message if and only if that is permitted. */
  lemma CheckExact(c: Channel, now: nat, later: nat, p: Permit)
    requires c.Valid() && MatchesExactly(c.tx, p) && c.tx.pos < c.tx.size
    ensures Tick(c, now, later).sent != [] <==> Permitted(p, Consecutive(now, later))
  {
  }

  lemma SentStaysExact(tx: Sender, now: nat, later: nat, p: Permit)
    requires tx.Valid() && MatchesExactly(tx, p) && tx.clearToSend
    ensures MatchesExactly(AfterConsecutive(tx, later), After(p, Consecutive(now, later)))
  {
  }

  lemma TickStaysExact(c: Channel, now: nat, later: nat, p: Permit)
    requires c.Valid() && MatchesExactly(c.tx, p)
    ensures var o := Tick(c, now, later);
            MatchesExactly(o.c.tx, AfterAll(p, See(Clock(now, later), c.sepTime, o.sent)))
  {
    var o := Tick(c, now, later);
    if o.sent != [] {
      SentStaysExact(c.tx, now, later, p);
      assert ConsecutiveFrame(c).data[..1] == [c.tx.pci];
      assert See(Clock(now, later), c.sepTime, o.sent) == [Consecutive(now, later)];
      SeenOne(p, Consecutive(now, later));
    }
  }

  lemma ArriveStaysExact(c: Channel, input: Input, p: Permit)
    requires c.Valid() && MatchesExactly(c.tx, p) && input.Arrive? && Possible(input, |c.used|)
    ensures var o := Step(c, input); MatchesExactly(o.c.tx, AfterAll(p, See(input, c.sepTime, o.sent)))
  {
    var o := Step(c, input);
    var d := input.frame.data;
    ArriveObeys(c, input, p);
    if o.sent != [] { assert o.sent[0].data[0] == o.sent[0].data[0..3][0] == 0x30; }
    if d[0] == 0x30 {
      assert See(input, c.sepTime, o.sent) == [Clear(d[1], d[2], input.now, c.sepTime)];
      SeenOne(p, Clear(d[1], d[2], input.now, c.sepTime));
    } else {
      assert See(input, c.sepTime, o.sent) == [];
    }
  }

  lemma SendStaysExact(c: Channel, input: Input, p: Permit)
    requires c.Valid() && MatchesExactly(c.tx, p) && input.Send? && Possible(input, |c.used|)
    ensures var o := Step(c, input); MatchesExactly(o.c.tx, AfterAll(p, See(input, c.sepTime, o.sent)))
  {
    var o := Step(c, input);
    SendObeys(c, input, p);
    if o.sent != [] {
      if |input.data| <= 11 {
        var d := Splice(c.f.data[0 := |input.data| - 4], 1, input.data[4..]);
        assert o.sent[0].data[0] == d[..1][0] < 0x10;
        assert See(input, c.sepTime, o.sent) == [];
      } else {
        assert See(input, c.sepTime, o.sent) == [Start];
        SeenOne(p, Start);
      }
    }
  }

  lemma StepStaysExact(c: Channel, input: Input, p: Permit)
    requires c.Valid() && MatchesExactly(c.tx, p) && Possible(input, |c.used|) && !input.Remove?
    ensures var o := Step(c, input); MatchesExactly(o.c.tx, AfterAll(p, See(input, c.sepTime, o.sent)))
  {
    match input
    case Arrive(_, _, _, _) => ArriveStaysExact(c, input, p);
    case Clock(now, later) => TickStaysExact(c, now, later, p);
    case Send(_, _, _) => SendStaysExact(c, input, p);
    case _ =>
  }

  /** Every check of the clock while a message is not all out sends a frame exactly if that is permitted. */
  predicate Prompt(c: Channel, inputs: seq<Input>, p: Permit)
    requires c.Valid() && AllPossible(inputs, |c.used|)
    decreases |inputs|
  {
    inputs == [] ||
    var (input, o) := (inputs[0], Step(c, inputs[0]));
    && (input.Clock? && c.tx.pos < c.tx.size ==>
         (o.sent != [] <==> Permitted(p, Consecutive(input.now, input.later))))
    && Prompt(o.c, inputs[1..], AfterAll(p, See(input, c.sepTime, o.sent)))
  }

  lemma {:induction false} RunPrompt(c: Channel, inputs: seq<Input>, p: Permit)
    requires c.Valid() && MatchesExactly(c.tx, p) && AllPossible(inputs, |c.used|)
    requires forall i :: 0 <= i < |inputs| ==> !inputs[i].Remove?
    ensures Prompt(c, inputs, p)
    decreases |inputs|
  {
    if inputs == [] {
    } else {
      var input, o := inputs[0], Step(c, inputs[0]);
      StepStaysExact(c, input, p);
      RunPrompt(o.c, inputs[1..], AfterAll(p, See(input, c.sepTime, o.sent)));
      if input.Clock? && c.tx.pos < c.tx.size { CheckExact(c, input.now, input.later, p); }
    }
  }

  /** In every run of a new channel without removals, consecutive frames are sent exactly when the flow controls
      permit and the clock is read late enough. */
  lemma FlowControlExact(c: Channel, inputs: seq<Input>)
    requires Initial(c) && AllPossible(inputs, |c.used|)
    requires forall i :: 0 <= i < |inputs| ==> !inputs[i].Remove?
    ensures c.Valid() && Prompt(c, inputs, NO_PERMIT)
  {
    RunPrompt(c, inputs, NO_PERMIT);
  }

  // ---- Block size 0 -----------------------------------------------------------------------

  /** Clear to send without limit, and nowhere near the 65535 frames that would wrap the counter. */
  predicate Unlimited(tx: Sender) {
    tx.clearToSend && tx.blockSize == BLOCK_UNLIMITED && 7 * tx.framesSent <= tx.pos
  }

  lemma BlockSizeZeroClears(c: Channel, now: nat)
    requires c.Valid() && c.f.data[0] == 0x30 && c.f.data[1] == 0
    ensures Unlimited(HandleFc(c, now).c.tx)
  {
  }

  predicate ClearsToSend(input: Input) { input.Arrive? && input.frame.data[0] == 0x30 }

  /** No flow control arrives, and no filter is removed. */
  predicate Undisturbed(inputs: seq<Input>) {
    forall i :: 0 <= i < |inputs| ==> !ClearsToSend(inputs[i]) && !inputs[i].Remove?
  }

  /** At every point of the run until the whole payload is out, the sender is clear to send without limit. */
  predicate ClearUntilDone(c: Channel, inputs: seq<Input>)
    requires c.Valid() && AllPossible(inputs, |c.used|)
    decreases |inputs|
  {
    c.tx.pos == c.tx.size ||
    (Unlimited(c.tx) && (inputs == [] || ClearUntilDone(Step(c, inputs[0]).c, inputs[1..])))
  }

  lemma StepStaysUnlimited(c: Channel, input: Input)
    requires c.Valid() && Unlimited(c.tx) && Possible(input, |c.used|)
    requires !ClearsToSend(input) && !input.Remove?
    ensures var tx := Step(c, input).c.tx; tx.pos == tx.size || Unlimited(tx)
  {
  }

  lemma {:induction false} UnlimitedStaysClear(c: Channel, inputs: seq<Input>)
    requires c.Valid() && Unlimited(c.tx) && AllPossible(inputs, |c.used|) && Undisturbed(inputs)
    ensures ClearUntilDone(c, inputs)
    decreases |inputs|
  {
    if inputs == [] || c.tx.pos == c.tx.size {
    } else {
      var d, rest := Step(c, inputs[0]).c, inputs[1..];
      StepStaysUnlimited(c, inputs[0]);
      assert AllPossible(rest, |d.used|) && Undisturbed(rest);
      if d.tx.pos != d.tx.size {
        UnlimitedStaysClear(d, rest);
      }
      assert ClearUntilDone(d, rest);
    }
  }

  /** After a flow control with block size 0 the sender needs no other to the end of its payload, whatever
      else arrives or is asked of it. */
  lemma UnlimitedToTheEnd(c: Channel, mailbox: nat, f: Frame, beyond: Beyond, now: nat, inputs: seq<Input>)
    requires c.Valid() && mailbox < |c.used| && f.data[0] == 0x30 && f.data[1] == 0
    requires AllPossible(inputs, |c.used|) && Undisturbed(inputs)
    ensures var o := Receive(c, mailbox, f, beyond, now);
            |o.c.used| == |c.used| && ClearUntilDone(o.c, inputs)
  {
    BlockSizeZeroClears(c.(f := f), now);
    UnlimitedStaysClear(Receive(c, mailbox, f, beyond, now).c, inputs);
  }

  lemma {:induction false} TicksFinish(c: Channel) returns (inputs: seq<Input>)
    requires c.Valid() && Unlimited(c.tx)
    ensures AllPossible(inputs, |c.used|) && forall i :: 0 <= i < |inputs| ==> inputs[i].Clock?
    ensures Run(c, inputs).c.tx.pos == c.tx.size
    ensures |inputs| == (c.tx.size - c.tx.pos + 6) / 7 == |Run(c, inputs).sent|
    decreases c.tx.size - c.tx.pos
  {
    if c.tx.pos == c.tx.size {
      inputs := [];
    } else {
      var tick := Clock(c.tx.nextSendTime + 1, c.tx.nextSendTime + 1);
      var o := Step(c, tick);
      if o.c.tx.pos == c.tx.size {
        inputs := [tick];
        assert inputs[1..] == [];
      } else {
        var rest := TicksFinish(o.c);
        inputs := [tick] + rest;
        assert inputs[1..] == rest;
      }
    }
  }

  /** The clock alone then finishes any payload, one consecutive frame for each reading. */
  lemma UnlimitedFinishes(c: Channel, mailbox: nat, f: Frame, beyond: Beyond, now: nat) returns (inputs: seq<Input>)
    requires c.Valid() && mailbox < |c.used| && f.data[0] == 0x30 && f.data[1] == 0
    ensures forall i :: 0 <= i < |inputs| ==> inputs[i].Clock?
    ensures var o := Receive(c, mailbox, f, beyond, now);
            && AllPossible(inputs, |o.c.used|)
            && Run(o.c, inputs).c.tx.pos == c.tx.size
            && |inputs| == (c.tx.size - c.tx.pos + 6) / 7 == |Run(o.c, inputs).sent|
  {
    BlockSizeZeroClears(c.(f := f), now);
    inputs := TicksFinish(Receive(c, mailbox, f, beyond, now).c);
  }

  // ---- A filter that is removed ------------------------------------------------------------

  /** A message is not all out, and nothing may be sent of it. */
  predicate Held(tx: Sender) { tx.isSending && !tx.clearToSend && tx.pos < tx.size }

  predicate IsConsecutiveFrame(f: Frame) { f.data[0] / 0x10 == 2 }

  lemma HeldStep(c: Channel, input: Input)
    requires c.Valid() && Held(c.tx) && Possible(input, |c.used|) && !ClearsToSend(input)
    ensures var o := Step(c, input);
            && o.c.tx == c.tx
            && (forall f :: f in o.sent ==> !IsConsecutiveFrame(f))
            && (input.Send? && |input.data| > 11 ==> o.sent == [])
  {
    var o := Step(c, input);
    match input
    case Arrive(_, _, _, _) =>
      if o.sent != [] { assert o.sent[0].data[0] == o.sent[0].data[0..3][0] == 0x30; }
    case Send(_, data, _) =>
      if o.sent != [] {
        var d := Splice(c.f.data[0 := |data| - 4], 1, data[4..]);
        assert o.sent[0].data[0] == d[..1][0] < 0x10;
      }
    case _ =>
  }

  /** All segmented messages among the inputs are refused. */
  ghost predicate RefusesSegmented(c: Channel, inputs: seq<Input>)
    requires c.Valid() && AllPossible(inputs, |c.used|)
    decreases |inputs|
  {
    inputs == [] ||
    ((inputs[0].Send? && |inputs[0].data| > 11 ==> Step(c, inputs[0]).sent == [])
     && RefusesSegmented(Step(c, inputs[0]).c, inputs[1..]))
  }

  lemma {:induction false} HeldRun(c: Channel, inputs: seq<Input>)
    requires c.Valid() && Held(c.tx) && AllPossible(inputs, |c.used|)
    requires forall i :: 0 <= i < |inputs| ==> !ClearsToSend(inputs[i])
    ensures Run(c, inputs).c.tx == c.tx && RefusesSegmented(c, inputs)
    ensures forall f :: f in Run(c, inputs).sent ==> !IsConsecutiveFrame(f)
    decreases |inputs|
  {
    if inputs == [] {
    } else {
      HeldStep(c, inputs[0]);
      HeldRun(Step(c, inputs[0]).c, inputs[1..]);
    }
  }

  lemma RemovalStops(c: Channel, mailbox: nat)
    requires c.Valid() && mailbox < |c.used| && c.used[mailbox]
    ensures var d := RemoveFilter(c, mailbox).c;
            |d.used| == |c.used| && d.tx == c.tx.(clearToSend := false) && (c.tx.pos < c.tx.size ==> Held(d.tx))
  {
  }

  /** Removing a filter while a message is being sent stops it: until a flow control arrives nothing more is
      sent of it, and every other segmented message is refused. */
  lemma RemovalHolds(c: Channel, mailbox: nat, inputs: seq<Input>)
    requires c.Valid() && mailbox < |c.used| && c.used[mailbox] && c.tx.pos < c.tx.size
    requires AllPossible(inputs, |c.used|) && forall i :: 0 <= i < |inputs| ==> !ClearsToSend(inputs[i])
    ensures var d := RemoveFilter(c, mailbox).c;
            && |d.used| == |c.used|
            && Run(d, inputs).c.tx == c.tx.(clearToSend := false) && RefusesSegmented(d, inputs)
            && forall f :: f in Run(d, inputs).sent ==> !IsConsecutiveFrame(f)
  {
    RemovalStops(c, mailbox);
    HeldRun(RemoveFilter(c, mailbox).c, inputs);
  }
}
