/**
  Under which id and with which values first frames and blocks are answered, over whole runs, judged by the inputs
  alone: the filters that were added and removed, the values that were configured, and the last flow control.
 */
module IsoTpReply {
  import opened Bytes
  import opened CanFrame
  import opened IsoTp
  import opened IsoTpWire

  /** What an observer of the inputs knows: the configured block size and separation time, those of the last flow
      control (no limit being 0xFFFF), and for each mailbox the reply id of the filter in it, if there is one. */
  datatype Setup = Setup(blockSize: u16, sepTime: u16, toldSize: u16, toldTime: u16, slots: seq<Option<u32>>)

  /** A filter can be added to a free mailbox only, and removed from any. */
  function Learn(p: Setup, input: Input): Setup
    requires Possible(input, |p.slots|)
  {
    match input
    case Set(blockSize, sepTime) => p.(blockSize := blockSize, sepTime := sepTime)
    case Add(mailbox, id) => if p.slots[mailbox].None? then p.(slots := p.slots[mailbox := Some(id)]) else p
    case Remove(mailbox) => p.(slots := p.slots[mailbox := None])
    case Arrive(_, f, _, _) =>
      if f.data[0] != 0x30 then p
      else p.(toldSize := if f.data[1] == 0 then 0xFFFF else f.data[1], toldTime := f.data[2])
    case _ => p
  }

  function LearnAll(p: Setup, inputs: seq<Input>): (q: Setup)
    requires AllPossible(inputs, |p.slots|)
    ensures |q.slots| == |p.slots|
    decreases |inputs|
  {
    if inputs == [] then p else LearnAll(Learn(p, inputs[0]), inputs[1..])
  }

  /** The channel is set up as the observer thinks. A free mailbox has no reply id. */
  predicate Agrees(c: Channel, p: Setup) {
    && c.blockSize == p.blockSize && c.sepTime == p.sepTime
    && c.tx.blockSize == p.toldSize && c.tx.sepTime == p.toldTime
    && |c.used| == |c.flowControlIds| == |p.slots|
    && (forall m :: 0 <= m < |p.slots| ==> c.used[m] == p.slots[m].Some?)
    && (forall m :: 0 <= m < |p.slots| ==> c.flowControlIds[m] == ReplyId(p.slots[m]))
  }

  function ReplyId(slot: Option<u32>): u32 { if slot.Some? then slot.value else 0 }

  /** A filter command is answered with success exactly when the mailbox was free, or in use. */
  lemma FilterCommands(c: Channel, p: Setup, mailbox: nat, id: u32)
    requires c.Valid() && Agrees(c, p) && mailbox < |p.slots|
    ensures var add := AddFilter(c, mailbox, id);
            && add.sent == [] && Agrees(add.c, Learn(p, Add(mailbox, id)))
            && add.toPc == [if p.slots[mailbox].None? then RespondOk else RespondErr(ERR_FAILED)]
            && add.c.tx == c.tx && add.c.rx == c.rx
    ensures var remove := RemoveFilter(c, mailbox);
            && remove.sent == [] && Agrees(remove.c, Learn(p, Remove(mailbox)))
            && remove.toPc == [if p.slots[mailbox].Some? then RespondOk else RespondErr(ERR_INVALID_FILTER_ID)]
            && (p.slots[mailbox].None? ==> remove.c == c)
  {
  }

  lemma ArriveAgrees(c: Channel, p: Setup, input: Input)
    requires c.Valid() && Agrees(c, p) && input.Arrive? && Possible(input, |c.used|)
    ensures Agrees(Step(c, input).c, Learn(p, input))
  {
  }

  lemma SendAgrees(c: Channel, p: Setup, input: Input)
    requires c.Valid() && Agrees(c, p) && input.Send? && Possible(input, |c.used|)
    ensures Agrees(Step(c, input).c, Learn(p, input))
  {
  }

  lemma StepAgrees(c: Channel, p: Setup, input: Input)
    requires c.Valid() && Agrees(c, p) && Possible(input, |c.used|)
    ensures Agrees(Step(c, input).c, Learn(p, input))
  {
    match input
    case Arrive(_, _, _, _) => ArriveAgrees(c, p, input);
    case Send(_, _, _) => SendAgrees(c, p, input);
    case Add(mailbox, id) => FilterCommands(c, p, mailbox, id);
    case Remove(mailbox) => FilterCommands(c, p, mailbox, 0);
    case Clock(_, _) =>
    case Set(_, _) =>
  }

  lemma {:induction false} RunAgrees(c: Channel, p: Setup, inputs: seq<Input>)
    requires c.Valid() && Agrees(c, p) && AllPossible(inputs, |c.used|)
    ensures Agrees(Run(c, inputs).c, LearnAll(p, inputs))
    decreases |inputs|
  {
    if inputs == [] {
    } else {
      StepAgrees(c, p, inputs[0]);
      RunAgrees(Step(c, inputs[0]).c, Learn(p, inputs[0]), inputs[1..]);
    }
  }

  /** A new channel without filters. */
  ghost predicate New(c: Channel) {
    && Initial(c) && (forall m :: 0 <= m < |c.used| ==> !c.used[m] && c.flowControlIds[m] == 0)
  }

  function NoFilters(c: Channel): Setup { Setup(c.blockSize, c.sepTime, 0, 0, seq(|c.used|, _ => None)) }

  /** After any run of a new channel, whatever arrives in a mailbox is answered, if at all, by one flow control under
      the id of the filter in that mailbox: with the values last configured in answer to a first frame, and with
      those last received otherwise. Without a filter no first frame is acted on. */
  lemma RunAnswers(c: Channel, inputs: seq<Input>, mailbox: nat, f: Frame, beyond: Beyond, now: nat)
    requires New(c) && AllPossible(inputs, |c.used|) && mailbox < |c.used|
    ensures c.Valid()
    ensures var p := LearnAll(NoFilters(c), inputs);
            var r := Run(c, inputs).c;
            var sent := Receive(r, mailbox, f, beyond, now).sent;
            && |sent| <= 1 && r.used[mailbox] == p.slots[mailbox].Some?
            && (forall g :: g in sent ==>
                 if f.data[0] / 0x10 == 1
                 then p.slots[mailbox].Some? && Answer(g, f, p.slots[mailbox].value, p.blockSize, p.sepTime)
                 else Answer(g, f, ReplyId(p.slots[mailbox]), p.toldSize, p.toldTime))
            && (f.data[0] / 0x10 == 1 && !r.rx.isReceiving ==> (|sent| == 1 <==> ReplyId(p.slots[mailbox]) != 0))
  {
    RunAgrees(c, NoFilters(c), inputs);
    ReceiveAnswers(Run(c, inputs).c, mailbox, f, beyond, now);
  }
}
