/**
  Reassembly of a segmented message over whole runs. Between its first frame and its last
  consecutive frame anything may happen to the channel: other first frames, single frames, flow
  controls, malformed frames, sends, configuration changes and clock readings.
 */
module IsoTpReceiver {
  import opened Bytes
  import opened CanFrame
  import opened IsoTp
  import opened IsoTpLength

  predicate IsConsecutive(input: Input) { input.Arrive? && input.frame.data[0] / 0x10 == 2 }

  function DataOf(input: Input): seq<u8> {
    if IsConsecutive(input) then input.frame.data[1..] else []
  }

  function SingleOf(input: Input): seq<seq<u8>> {
    if input.Arrive? && input.frame.data[0] < 0x10 then [SingleFrameMessage(input.frame, input.beyond)] else []
  }

  /** The data of the consecutive frames of a run, in order. */
  function ConsecutiveData(inputs: seq<Input>): seq<u8> {
    if inputs == [] then [] else DataOf(inputs[0]) + ConsecutiveData(inputs[1..])
  }

  /** The messages of the single frames of a run, in order. */
  function SingleMessages(inputs: seq<Input>): seq<seq<u8>> {
    if inputs == [] then [] else SingleOf(inputs[0]) + SingleMessages(inputs[1..])
  }

  lemma {:induction false} MessagesAppend(first: seq<PcEvent>, second: seq<PcEvent>)
    ensures Messages(first + second) == Messages(first) + Messages(second)
  {
    if first == [] {
      assert first + second == second;
    } else {
      assert (first + second)[1..] == first[1..] + second;
      MessagesAppend(first[1..], second);
    }
  }

  /** A message of `size` bytes of which `have` have been reassembled. */
  ghost predicate Reassembled(rx: Receiver, size: nat, have: seq<u8>) {
    rx.isReceiving && rx.size == size <= PAYLOAD_SIZE && rx.pos == |have| < size && rx.payload[..|have|] == have
  }

  lemma SpliceAppends(buf: seq<u8>, n: nat, chunk: seq<u8>)
    requires n + |chunk| <= |buf|
    ensures Splice(buf, n, chunk)[..n + |chunk|] == buf[..n] + chunk
  {
    var p := Splice(buf, n, chunk);
    assert p[..n + |chunk|] == p[..n] + p[n..n + |chunk|];
  }

  /** The bytes of a consecutive frame, as many as are missing, come behind those that are there. */
  lemma ChunkAppended(payload: seq<u8>, data: Data, beyond: Beyond, have: seq<u8>, n: nat)
    requires |have| + n <= |payload| && n <= 7 && payload[..|have|] == have
    ensures Splice(payload, |have|, (data + beyond)[1..1 + n])[..|have| + n] == (have + data[1..])[..|have| + n]
  {
    var chunk := (data + beyond)[1..1 + n];
    assert chunk == data[1..1 + n] == data[1..][..n];
    SpliceAppends(payload, |have|, chunk);
    assert have + chunk == (have + data[1..])[..|have| + n];
  }

  lemma ConsecutiveStep(rx: Receiver, f: Frame, beyond: Beyond, size: nat, have: seq<u8>)
    requires rx.Valid() && Reassembled(rx, size, have)
    ensures var (r, verdict) := ContinueReassembly(rx, f, beyond);
            if |have| + 7 < size then !verdict.Complete? && Reassembled(r, size, have + f.data[1..])
            else !r.isReceiving && verdict == Complete((have + f.data[1..])[..size])
  {
    var n := Min(size - |have|, 7);
    var (r, verdict) := ContinueReassembly(rx, f, beyond);
    ChunkAppended(rx.payload, f.data, beyond, have, n);
    assert r.pos == |have| + n && r.payload[..r.pos] == (have + f.data[1..])[..r.pos];
    if |have| + 7 < size {
      assert (have + f.data[1..])[..r.pos] == have + f.data[1..];
    }
  }

  lemma AtMostTwoMessages(events: seq<PcEvent>)
    requires |events| <= 2
    ensures Messages(events) == (if |events| >= 1 then Messages([events[0]]) else [])
                              + (if |events| == 2 then Messages([events[1]]) else [])
  {
    if |events| == 1 {
      assert events == [events[0]];
    } else if |events| == 2 {
      OneMessage(events[0]);
      assert events[1..] == [events[1]];
    }
  }

  lemma OtherArrival(c: Channel, input: Input)
    requires c.Valid() && Possible(input, |c.used|) && c.rx.isReceiving && input.Arrive? && !IsConsecutive(input)
    ensures var o := Step(c, input); o.c.rx == c.rx && Messages(o.toPc) == SingleOf(input)
  {
    var o := Step(c, input);
    AtMostTwoMessages(o.toPc);
    if o.toPc != [] { OneMessage(o.toPc[0]); }
  }

  lemma OtherSend(c: Channel, input: Input)
    requires c.Valid() && Possible(input, |c.used|) && input.Send?
    ensures var o := Step(c, input); o.c.rx == c.rx && Messages(o.toPc) == []
  {
    var o := Step(c, input);
    AtMostTwoMessages(o.toPc);
    if |o.toPc| >= 1 { OneMessage(o.toPc[0]); }
    if |o.toPc| == 2 { OneMessage(o.toPc[1]); }
  }

  lemma OtherSetting(c: Channel, input: Input)
    requires c.Valid() && Possible(input, |c.used|) && (input.Set? || input.Add? || input.Remove?)
    ensures Messages(Step(c, input).toPc) == []
  {
    var o := Step(c, input);
    AtMostTwoMessages(o.toPc);
    if o.toPc != [] { OneMessage(o.toPc[0]); }
  }

  /** What an input that is neither a consecutive frame nor a removal does to a reassembly: nothing. */
  lemma OtherInput(c: Channel, input: Input)
    requires c.Valid() && Possible(input, |c.used|) && c.rx.isReceiving && !IsConsecutive(input) && !input.Remove?
    ensures var o := Step(c, input); o.c.rx == c.rx && Messages(o.toPc) == SingleOf(input)
  {
    match input
    case Arrive(_, _, _, _) => OtherArrival(c, input);
    case Send(_, _, _) => OtherSend(c, input);
    case Clock(now, later) =>
      var o := Tick(c, now, later);
      if o.toPc != [] { OneMessage(o.toPc[0]); }
    case _ => OtherSetting(c, input);
  }

  lemma ConsecutiveInput(c: Channel, input: Input, size: nat, have: seq<u8>)
    requires c.Valid() && Possible(input, |c.used|) && IsConsecutive(input) && Reassembled(c.rx, size, have)
    ensures var o := Step(c, input); var all := have + input.frame.data[1..];
            if |all| < size then Reassembled(o.c.rx, size, all) && o.toPc == []
            else !o.c.rx.isReceiving && o.toPc == [RxData(0, all[..size])] && o.sent == []
  {
    ConsecutiveStep(c.rx, input.frame, input.beyond, size, have);
  }

  /** What an input adds to a reassembly that it does not complete, and to the PC's messages. */
  lemma AnyInput(c: Channel, input: Input, size: nat, have: seq<u8>)
    requires c.Valid() && Possible(input, |c.used|) && Reassembled(c.rx, size, have)
    requires |have| + |DataOf(input)| < size && !input.Remove?
    ensures var o := Step(c, input);
            Reassembled(o.c.rx, size, have + DataOf(input)) && Messages(o.toPc) == SingleOf(input)
  {
    if IsConsecutive(input) {
      ConsecutiveInput(c, input, size, have);
    } else {
      OtherInput(c, input);
      assert have + DataOf(input) == have;
    }
  }

  predicate NoRemoval(inputs: seq<Input>) { forall i :: 0 <= i < |inputs| ==> !inputs[i].Remove? }

  /** While bytes are missing, a run adds the data of its consecutive frames to the reassembly and
      nothing else. */
  lemma {:induction false} RunReassembles(c: Channel, inputs: seq<Input>, size: nat, have: seq<u8>)
    requires c.Valid() && AllPossible(inputs, |c.used|) && Reassembled(c.rx, size, have)
    requires |have| + |ConsecutiveData(inputs)| < size && NoRemoval(inputs)
    ensures Reassembled(Run(c, inputs).c.rx, size, have + ConsecutiveData(inputs))
    decreases |inputs|
  {
    if inputs == [] {
      assert have + [] == have;
    } else {
      var first, rest := inputs[0], inputs[1..];
      AnyInput(c, first, size, have);
      RunReassembles(Step(c, first).c, rest, size, have + DataOf(first));
      ConcatAssociative(have, DataOf(first), ConsecutiveData(rest));
    }
  }

  /** Meanwhile the PC is told of single frames only. */
  lemma {:induction false} RunTellsSingles(c: Channel, inputs: seq<Input>, size: nat, have: seq<u8>)
    requires c.Valid() && AllPossible(inputs, |c.used|) && Reassembled(c.rx, size, have)
    requires |have| + |ConsecutiveData(inputs)| < size && NoRemoval(inputs)
    ensures Messages(Run(c, inputs).toPc) == SingleMessages(inputs)
    decreases |inputs|
  {
    if inputs == [] {
    } else {
      var o := Step(c, inputs[0]);
      AnyInput(c, inputs[0], size, have);
      RunTellsSingles(o.c, inputs[1..], size, have + DataOf(inputs[0]));
      MessagesAppend(o.toPc, Run(o.c, inputs[1..]).toPc);
    }
  }

  /** What is written behind and then at the start of a buffer is there, in order. */
  lemma SpliceTwice(buf: seq<u8>, first: seq<u8>, second: seq<u8>)
    requires |first| + |second| <= |buf|
    ensures Splice(Splice(buf, |first|, second), 0, first)[..|first| + |second|] == first + second
  {
    var n, m := |first|, |first| + |second|;
    var p1 := Splice(buf, n, second);
    var p2 := Splice(p1, 0, first);
    assert p2[..n] == p2[0..n] == first;
    assert p2[n..m] == p1[n..m] == second;
    assert p2[..m] == p2[..n] + p2[n..m];
  }

  lemma FirstFrameSizeRange(d: Data)
    requires LengthField(d) >= 8
    ensures 12 <= FirstFrameSize(d) <= 4095
  {
    OrOfLength(d[0] % 0x10, d[1]);
  }

  /** A first frame with a length of at least 8 (section 9.6.3 of ISO 15765-2:2016) starts a
      reassembly of 12 to 4095 bytes with its id and six data bytes. */
  lemma FirstFrameReassembles(rx: Receiver, f: Frame)
    requires LengthField(f.data) >= 8
    ensures var size := FirstFrameSize(f.data);
            12 <= size <= 4095 && Reassembled(BeginReassembly(rx, f), size, IdBytes(f.id) + f.data[2..])
  {
    FirstFrameSizeRange(f.data);
    SpliceTwice(rx.payload, IdBytes(f.id), f.data[2..]);
    assert f.data[2..8] == f.data[2..];
  }

  /** Reassembly from first frame to delivery. After the first frame `f` and a run with `k`
      consecutive frames, `10 + 7k` bytes are there as long as that is less than the decoded size,
      and the PC has seen nothing of the message; the consecutive frame that reaches the size hands
      the PC the id of `f`, its six bytes and the consecutive data, in order and cut to the size. */
  lemma Reassembly(c: Channel, mailbox: nat, f: Frame, beyond: Beyond, now: nat, inputs: seq<Input>, last: Input)
    requires c.Valid() && !c.rx.isReceiving && mailbox < |c.used| && c.flowControlIds[mailbox] != 0
    requires f.data[0] / 0x10 == 1 && LengthField(f.data) >= 8
    requires AllPossible(inputs, |c.used|) && NoRemoval(inputs) && Possible(last, |c.used|) && IsConsecutive(last)
    requires 10 + |ConsecutiveData(inputs)| < FirstFrameSize(f.data)
    ensures var size := FirstFrameSize(f.data);
            var have := IdBytes(f.id) + f.data[2..] + ConsecutiveData(inputs);
            var o := Run(Receive(c, mailbox, f, beyond, now).c, inputs);
            && 10 <= o.c.rx.pos == |have| < size <= 4095
            && Reassembled(o.c.rx, size, have) && Messages(o.toPc) == SingleMessages(inputs)
            && var final := Step(o.c, last);
               if |have| + 7 < size then final.toPc == [] && final.c.rx.isReceiving
               else final.toPc == [RxData(0, (have + last.frame.data[1..])[..size])] && !final.c.rx.isReceiving
  {
    FirstFrameReassembles(c.rx, f);
    var size := FirstFrameSize(f.data);
    var first := IdBytes(f.id) + f.data[2..];
    var o1 := Receive(c, mailbox, f, beyond, now);
    RunReassembles(o1.c, inputs, size, first);
    RunTellsSingles(o1.c, inputs, size, first);
    var o := Run(o1.c, inputs);
    ConsecutiveInput(o.c, last, size, first + ConsecutiveData(inputs));
  }

  // ---- A filter that is removed ------------------------------------------------------------

  predicate IsFirst(input: Input) { input.Arrive? && input.frame.data[0] / 0x10 == 1 }

  lemma IdleInput(c: Channel, input: Input)
    requires c.Valid() && Possible(input, |c.used|) && !c.rx.isReceiving && !IsFirst(input)
    ensures var o := Step(c, input); !o.c.rx.isReceiving && Messages(o.toPc) == SingleOf(input)
  {
    match input
    case Arrive(_, frame, beyond, _) =>
      if frame.data[0] < 0x10 { OneMessage(RxData(0, SingleFrameMessage(frame, beyond))); }
    case Send(_, _, _) => OtherSend(c, input);
    case Clock(now, later) =>
      var o := Tick(c, now, later);
      if o.toPc != [] { OneMessage(o.toPc[0]); }
    case _ => OtherSetting(c, input);
  }

  lemma {:induction false} IdleRun(c: Channel, inputs: seq<Input>)
    requires c.Valid() && AllPossible(inputs, |c.used|) && !c.rx.isReceiving
    requires forall i :: 0 <= i < |inputs| ==> !IsFirst(inputs[i])
    ensures var o := Run(c, inputs); !o.c.rx.isReceiving && Messages(o.toPc) == SingleMessages(inputs)
    decreases |inputs|
  {
    if inputs == [] {
    } else {
      var o := Step(c, inputs[0]);
      IdleInput(c, inputs[0]);
      IdleRun(o.c, inputs[1..]);
      MessagesAppend(o.toPc, Run(o.c, inputs[1..]).toPc);
    }
  }

  /** Removing any filter gives up the message being received: the PC is told nothing of it, however many of
      its frames still arrive. */
  lemma RemovalAbandons(c: Channel, mailbox: nat, inputs: seq<Input>)
    requires c.Valid() && mailbox < |c.used| && c.used[mailbox]
    requires AllPossible(inputs, |c.used|) && forall i :: 0 <= i < |inputs| ==> !IsFirst(inputs[i])
    ensures var d := RemoveFilter(c, mailbox).c;
            && |d.used| == |c.used|
            && !Run(d, inputs).c.rx.isReceiving && Messages(Run(d, inputs).toPc) == SingleMessages(inputs)
  {
    IdleRun(RemoveFilter(c, mailbox).c, inputs);
  }
}
