/**
  Transmit confirmations over whole runs: how many the PC gets, for which sends, and which ones answer
  no send at all.
 */
module IsoTpConfirm {
  import opened Bytes
  import opened CanFrame
  import opened IsoTp
  import opened IsoTpFlowControl

  /** How many of the messages to the PC are transmit confirmations. */
  function Confirmations(events: seq<PcEvent>): nat {
    if events == [] then 0
    else (if events[0].RxData? && events[0].status == TX_MSG_TYPE then 1 else 0) + Confirmations(events[1..])
  }

  lemma OneEvent(event: PcEvent)
    ensures Confirmations([event]) == if event.RxData? && event.status == TX_MSG_TYPE then 1 else 0
  {
    assert [event][1..] == [];
  }

  lemma TwoEvents(first: PcEvent, second: PcEvent)
    ensures Confirmations([first, second]) == Confirmations([first]) + Confirmations([second])
  {
    OneEvent(first);
    assert [first, second][1..] == [second];
  }

  lemma {:induction false} ConfirmationsAppend(first: seq<PcEvent>, second: seq<PcEvent>)
    ensures Confirmations(first + second) == Confirmations(first) + Confirmations(second)
  {
    if first == [] {
      assert first + second == second;
    } else {
      assert (first + second)[1..] == first[1..] + second;
      ConfirmationsAppend(first[1..], second);
    }
  }

  // ---- A flow control nobody waits for -----------------------------------------------------

  /** A flow control that arrives while nothing is being sent makes the next due check send one frame without
      payload, whose data is what the flow control itself carried, and confirm it under the id of the last
      segmented message. After that nothing is being sent again. */
  lemma EmptyFrame(c: Channel, mailbox: nat, f: Frame, beyond: Beyond, received: nat, now: nat, later: nat)
    requires c.Valid() && !c.tx.isSending && mailbox < |c.used| && f.data[0] == 0x30 && now > received + c.sepTime
    ensures var o1 := Receive(c, mailbox, f, beyond, received);
            var o2 := Tick(o1.c, now, later);
            && o1.sent == [] && o1.toPc == []
            && |o2.sent| == 1 && o2.sent[0].id == Id(c.tx.payload) && o2.sent[0].data == f.data[0 := c.tx.pci]
            && o2.toPc == [RxData(TX_MSG_TYPE, c.tx.payload[..4])]
            && !o2.c.tx.isSending && !o2.c.tx.clearToSend && o2.c.tx.pos == c.tx.pos && o2.c.tx.size == c.tx.size
  {
    var d := f.data[0 := c.tx.pci];
    assert Splice(d, 1, []) == d;
  }

  // ---- The tally of a run ------------------------------------------------------------------

  /** Messages accepted from the PC, flow controls taken while nothing was being sent, frames sent without
      payload, and confirmations. */
  datatype Tally = Tally(accepted: nat, unexpected: nat, empty: nat, confirmed: nat)

  function Judge(c: Channel, input: Input, t: Tally): Tally
    requires c.Valid() && Possible(input, |c.used|)
  {
    var o := Step(c, input);
    Tally(t.accepted + (if input.Send? && o.sent != [] then 1 else 0),
          t.unexpected + (if ClearsToSend(input) && !c.tx.isSending then 1 else 0),
          t.empty + (if input.Clock? && o.sent != [] && c.tx.pos == c.tx.size then 1 else 0),
          t.confirmed + Confirmations(o.toPc))
  }

  function TallyOf(c: Channel, inputs: seq<Input>, t: Tally): Tally
    requires c.Valid() && AllPossible(inputs, |c.used|)
    decreases |inputs|
  {
    if inputs == [] then t else TallyOf(Step(c, inputs[0]).c, inputs[1..], Judge(c, inputs[0], t))
  }

  /** A message is being sent: not all of it is out. */
  predicate Unfinished(tx: Sender) { tx.pos < tx.size }

  /** An empty frame is due. */
  predicate EmptyDue(tx: Sender) { tx.isSending && tx.pos >= tx.size }

  predicate Balanced(tx: Sender, t: Tally) {
    && t.confirmed + (if Unfinished(tx) then 1 else 0) == t.accepted + t.empty
    && t.empty + (if EmptyDue(tx) then 1 else 0) == t.unexpected
  }

  lemma ArriveConfirmsNothing(c: Channel, input: Input)
    requires c.Valid() && Possible(input, |c.used|) && input.Arrive?
    ensures Confirmations(Step(c, input).toPc) == 0
  {
    var o := Step(c, input);
    if o.toPc != [] {
      OneEvent(o.toPc[0]);
      assert o.toPc == [o.toPc[0]];
    }
  }

  lemma ArriveBalanced(c: Channel, input: Input, t: Tally)
    requires c.Valid() && Possible(input, |c.used|) && input.Arrive? && Balanced(c.tx, t)
    ensures Balanced(Step(c, input).c.tx, Judge(c, input, t))
  {
    ArriveConfirmsNothing(c, input);
  }

  lemma ClockBalanced(c: Channel, now: nat, later: nat, t: Tally)
    requires c.Valid() && Balanced(c.tx, t)
    ensures Balanced(Tick(c, now, later).c.tx, Judge(c, Clock(now, later), t))
  {
    var o := Tick(c, now, later);
    if o.toPc != [] {
      OneEvent(o.toPc[0]);
    }
  }

  lemma SendBalanced(c: Channel, input: Input, t: Tally)
    requires c.Valid() && Possible(input, |c.used|) && input.Send? && Balanced(c.tx, t)
    ensures Balanced(Step(c, input).c.tx, Judge(c, input, t))
  {
    var o := Step(c, input);
    if |o.toPc| == 1 {
      OneEvent(o.toPc[0]);
      assert o.toPc == [o.toPc[0]];
    } else if |o.toPc| == 2 {
      assert o.toPc == [o.toPc[0], o.toPc[1]];
      TwoEvents(o.toPc[0], o.toPc[1]);
      OneEvent(o.toPc[0]);
      OneEvent(o.toPc[1]);
    }
  }

  lemma SettingBalanced(c: Channel, input: Input, t: Tally)
    requires c.Valid() && Possible(input, |c.used|) && (input.Set? || input.Add? || input.Remove?)
    requires Balanced(c.tx, t)
    ensures Balanced(Step(c, input).c.tx, Judge(c, input, t))
  {
    var o := Step(c, input);
    if o.toPc != [] {
      assert o.toPc == [o.toPc[0]];
      OneEvent(o.toPc[0]);
    }
  }

  lemma StepBalanced(c: Channel, input: Input, t: Tally)
    requires c.Valid() && Possible(input, |c.used|) && Balanced(c.tx, t)
    ensures Balanced(Step(c, input).c.tx, Judge(c, input, t))
  {
    match input
    case Arrive(_, _, _, _) => ArriveBalanced(c, input, t);
    case Clock(now, later) => ClockBalanced(c, now, later, t);
    case Send(_, _, _) => SendBalanced(c, input, t);
    case _ => SettingBalanced(c, input, t);
  }

  lemma {:induction false} RunBalanced(c: Channel, inputs: seq<Input>, t: Tally)
    requires c.Valid() && AllPossible(inputs, |c.used|) && Balanced(c.tx, t)
    ensures Balanced(Run(c, inputs).c.tx, TallyOf(c, inputs, t))
    decreases |inputs|
  {
    if inputs == [] {
    } else {
      StepBalanced(c, inputs[0], t);
      RunBalanced(Step(c, inputs[0]).c, inputs[1..], Judge(c, inputs[0], t));
    }
  }

  lemma {:induction false} TallyConfirms(c: Channel, inputs: seq<Input>, t: Tally)
    requires c.Valid() && AllPossible(inputs, |c.used|)
    ensures TallyOf(c, inputs, t).confirmed == t.confirmed + Confirmations(Run(c, inputs).toPc)
    decreases |inputs|
  {
    if inputs == [] {
    } else {
      var o := Step(c, inputs[0]);
      TallyConfirms(o.c, inputs[1..], Judge(c, inputs[0], t));
      ConfirmationsAppend(o.toPc, Run(o.c, inputs[1..]).toPc);
    }
  }

  /** In every run the PC gets one confirmation for each accepted message, except the one being sent, and one
      for each frame sent without payload; those are exactly the flow controls taken while nothing was being
      sent, except one whose frame is still due. */
  lemma ConfirmationsAccounted(c: Channel, inputs: seq<Input>)
    requires Initial(c) && AllPossible(inputs, |c.used|)
    ensures c.Valid()
    ensures var tx := Run(c, inputs).c.tx;
            var t := TallyOf(c, inputs, Tally(0, 0, 0, 0));
            && Confirmations(Run(c, inputs).toPc) + (if tx.pos < tx.size then 1 else 0) == t.accepted + t.empty
            && t.empty + (if tx.isSending && tx.pos == tx.size then 1 else 0) == t.unexpected
  {
    RunBalanced(c, inputs, Tally(0, 0, 0, 0));
    TallyConfirms(c, inputs, Tally(0, 0, 0, 0));
  }
}
