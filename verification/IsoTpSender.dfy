/**
  The sending half over whole runs: what it puts on the bus and when, whatever mixture of flow
  controls, received frames, single-frame sends, rejected sends, configuration changes and clock
  readings the run consists of. Runs are judged by their inputs and the frames sent alone.
 */
module IsoTpSender {
  import opened Bytes
  import opened CanFrame
  import opened IsoTp

  // ---- The stream of a segmented message -------------------------------------------------

  /** How much of a message the first frame and `k` consecutive frames carry (CAN id included). */
  function Sent(message: seq<u8>, k: nat): nat { Min(|message|, 10 + 7 * k) }

  /** The segmentation that section 9.6 of ISO 15765-2:2016 prescribes: frame 0 is the first
      frame, frame `k` the consecutive frame with sequence number `k` modulo 16. */
  function Pdu(message: seq<u8>, k: nat): seq<u8>
    requires |message| >= 12
  {
    if k == 0 then FirstFrameHeader(|message| - 4) + message[4..10]
    else [0x20 + k % 0x10] + message[Sent(message, k - 1)..Sent(message, k)]
  }

  /** The message bytes in the first `k + 1` frames. */
  function Carried(message: seq<u8>, k: nat): seq<u8>
    requires |message| >= 12
  {
    if k == 0 then Pdu(message, 0)[2..] else Carried(message, k - 1) + Pdu(message, k)[1..]
  }

  /** The segmentation loses nothing: its frames concatenate to the message. */
  lemma {:induction false} CarriedIsPrefix(message: seq<u8>, k: nat)
    requires |message| >= 12
    ensures Carried(message, k) == message[4..Sent(message, k)]
    ensures k >= FramesFor(|message|) ==> Carried(message, k) == message[4..]
  {
    FramesForBounds(|message|);
    if k == 0 {
    } else {
      CarriedIsPrefix(message, k - 1);
    }
  }

  /** The message last started, and the first and consecutive frames sent since. */
  datatype Stream = Stream(message: seq<u8>, frames: seq<Frame>)

  function Watch(st: Stream, input: Input, sent: seq<Frame>): Stream {
    if sent == [] then st
    else if input.Send? && sent[0].data[0] / 0x10 == 1 then Stream(input.data, sent)
    else if sent[0].data[0] / 0x10 == 2 then st.(frames := st.frames + sent)
    else st
  }

  function StreamOf(c: Channel, inputs: seq<Input>, st: Stream): Stream
    requires c.Valid() && AllPossible(inputs, |c.used|)
    decreases |inputs|
  {
    if inputs == [] then st
    else
      var o := Step(c, inputs[0]);
      StreamOf(o.c, inputs[1..], Watch(st, inputs[0], o.sent))
  }

  /** Frame `k` of the stream carries frame `k` of the segmentation; bytes past its end are padding. */
  predicate Carries(f: Frame, message: seq<u8>, k: nat)
    requires |message| >= 12
  {
    var pdu := Pdu(message, k);
    |pdu| <= 8 && f.data[..|pdu|] == pdu && f.id == Id(message)
  }

  ghost predicate AllCarry(frames: seq<Frame>, message: seq<u8>, k: nat)
    requires |message| >= 12
  {
    k < |frames| && forall j :: 0 <= j <= k ==> Carries(frames[j], message, j)
  }

  /** After `k` data-carrying consecutive frames the position is `10 + 7k`, capped at the size. */
  predicate Advanced(tx: Sender, message: seq<u8>, k: nat) {
    tx.pos == Sent(message, k) && (tx.pos < tx.size ==> tx.pci == 0x20 + (k + 1) % 0x10)
  }

  /** The frames sent are those of the segmentation; further frames are sent only at the end. */
  ghost predicate InStream(tx: Sender, st: Stream) {
    st.message != [] ==>
      && |st.message| >= 12 && st.frames != []
      && tx.size == |st.message| <= PAYLOAD_SIZE && tx.payload[..tx.size] == st.message
      && var k := Min(|st.frames| - 1, FramesFor(|st.message|));
      && Advanced(tx, st.message, k) && (tx.pos < tx.size ==> k == |st.frames| - 1)
      && AllCarry(st.frames, st.message, k)
  }

  lemma CarryMore(frames: seq<Frame>, f: Frame, message: seq<u8>, k: nat)
    requires |message| >= 12 && AllCarry(frames, message, k)
    ensures AllCarry(frames + [f], message, k)
    ensures k == |frames| - 1 && Carries(f, message, k + 1) ==> AllCarry(frames + [f], message, k + 1)
  {
  }

  lemma ConsecutiveCarries(c: Channel, message: seq<u8>, k: nat)
    requires c.Valid() && |message| >= 12
    requires c.tx.size == |message| && c.tx.payload[..c.tx.size] == message
    requires c.tx.pos == Sent(message, k) < c.tx.size && c.tx.pci == 0x20 + (k + 1) % 0x10
    ensures Carries(ConsecutiveFrame(c), message, k + 1)
  {
    var t := c.tx;
    var n := ChunkLength(t);
    var chunk := t.payload[t.pos..t.pos + n];
    assert chunk == t.payload[..t.size][t.pos..t.pos + n] == message[Sent(message, k)..Sent(message, k + 1)];
    var d := Splice(c.f.data[0 := t.pci], 1, chunk);
    assert d[..1 + n] == [d[0]] + d[1..1 + n];
    assert Id(t.payload) == Id(message) by {
      assert forall j :: 0 <= j < 4 ==> t.payload[j] == t.payload[..t.size][j];
    }
  }

  lemma NextNibble(k: nat)
    ensures (k + 1) % 0x10 == (k % 0x10 + 1) % 0x10
  {
  }

  lemma NextPosition(tx: Sender, message: seq<u8>, k: nat)
    requires tx.Valid() && tx.size == |message| && tx.pos == Sent(message, k) < tx.size
    ensures Sent(message, k + 1) == tx.pos + ChunkLength(tx) && k + 1 <= FramesFor(|message|)
  {
    FramesForBounds(|message|);
  }

  lemma Advances(tx: Sender, message: seq<u8>, k: nat, now: nat)
    requires tx.Valid() && tx.size == |message| && Advanced(tx, message, k) && tx.pos < tx.size
    ensures Advanced(AfterConsecutive(tx, now), message, k + 1)
  {
    NextNibble(k + 1);
    NextPosition(tx, message, k);
  }

  lemma DataFrameInStream(tx: Sender, st: Stream, f: Frame, now: nat)
    requires tx.Valid() && InStream(tx, st) && st.message != [] && tx.pos < tx.size
    requires Carries(f, st.message, |st.frames|)
    ensures InStream(AfterConsecutive(tx, now), st.(frames := st.frames + [f]))
  {
    var k := |st.frames| - 1;
    NextPosition(tx, st.message, k);
    Advances(tx, st.message, k, now);
    CarryMore(st.frames, f, st.message, k);
  }

  lemma EmptyFrameInStream(tx: Sender, st: Stream, f: Frame, now: nat)
    requires tx.Valid() && InStream(tx, st) && st.message != [] && tx.pos == tx.size
    ensures InStream(AfterConsecutive(tx, now), st.(frames := st.frames + [f]))
  {
    FramesForBounds(|st.message|);
    CarryMore(st.frames, f, st.message, Min(|st.frames| - 1, FramesFor(|st.message|)));
  }

  lemma TickInStream(c: Channel, now: nat, later: nat, st: Stream)
    requires c.Valid() && InStream(c.tx, st)
    ensures var o := Tick(c, now, later); InStream(o.c.tx, Watch(st, Clock(now, later), o.sent))
  {
    var o := Tick(c, now, later);
    if o.sent != [] {
      var t, f := c.tx, ConsecutiveFrame(c);
      assert f.data[0] == t.pci by {
        assert f.data[..1] == [t.pci];
      }
      assert Watch(st, Clock(now, later), o.sent) == st.(frames := st.frames + [f]);
      if st.message == [] {
      } else if t.pos < t.size {
        ConsecutiveCarries(c, st.message, |st.frames| - 1);
        DataFrameInStream(t, st, f, later);
      } else {
        EmptyFrameInStream(t, st, f, later);
      }
    }
  }

  lemma FirstFrameInStream(tx: Sender, message: seq<u8>, f: Frame)
    requires 12 <= |message| == tx.size <= PAYLOAD_SIZE && tx.payload[..tx.size] == message
    requires tx.pos == 10 && tx.pci == 0x21 && f.id == Id(message) && f.data == Pdu(message, 0)
    ensures InStream(tx, Stream(message, [f]))
  {
    assert f.data[..8] == f.data;
  }

  /** What `sendMsg` sends of a message that it accepts, and what it leaves in the sending half */
  lemma AcceptedMessage(c: Channel, txFlags: u32, data: seq<u8>, respond: bool)
    requires c.Valid() && Fits(txFlags, |data|, false) && SendMsg(c, txFlags, data, respond).sent != []
    ensures var o := SendMsg(c, txFlags, data, respond);
            && |data| >= 4 && |o.sent| == 1
            && if |data| <= 11 then o.c.tx == c.tx && o.sent[0].data[0] < 0x10
               else
                 && o.c.tx.size == |data| <= PAYLOAD_SIZE && o.c.tx.payload[..|data|] == data
                 && o.c.tx.pos == 10 && o.c.tx.pci == 0x21
                 && o.sent[0].id == Id(data) && o.sent[0].data == Pdu(data, 0)
  {
    if |data| <= 11 {
      var d := Splice(c.f.data[0 := |data| - 4], 1, data[4..]);
      assert d[0] == d[..1][0];
    }
  }

  lemma SendInStream(c: Channel, input: Input, st: Stream)
    requires c.Valid() && InStream(c.tx, st) && input.Send? && Possible(input, |c.used|)
    ensures var o := Step(c, input); InStream(o.c.tx, Watch(st, input, o.sent))
  {
    var o := SendMsg(c, input.txFlags, input.data, input.respond);
    if o.sent != [] {
      AcceptedMessage(c, input.txFlags, input.data, input.respond);
      if |input.data| > 11 {
        FirstFrameInStream(o.c.tx, input.data, o.sent[0]);
        assert o.sent == [o.sent[0]];
      }
    }
  }

  lemma StepInStream(c: Channel, input: Input, st: Stream)
    requires c.Valid() && InStream(c.tx, st) && Possible(input, |c.used|)
    ensures var o := Step(c, input); InStream(o.c.tx, Watch(st, input, o.sent))
  {
    match input
    case Clock(now, later) => TickInStream(c, now, later, st);
    case Send(_, _, _) => SendInStream(c, input, st);
    case Arrive(mailbox, frame, beyond, now) =>
      var o := Step(c, input);
      if o.sent != [] { assert o.sent[0].data[0] == o.sent[0].data[0..3][0] == 0x30; }
    case _ =>
  }

  lemma {:induction false} RunInStream(c: Channel, inputs: seq<Input>, st: Stream)
    requires c.Valid() && InStream(c.tx, st) && AllPossible(inputs, |c.used|)
    ensures InStream(Run(c, inputs).c.tx, StreamOf(c, inputs, st))
    decreases |inputs|
  {
    if inputs == [] {
    } else {
      StepInStream(c, inputs[0], st);
      var o := Step(c, inputs[0]);
      RunInStream(o.c, inputs[1..], Watch(st, inputs[0], o.sent));
    }
  }

  /** In every run the frames sent since the last accepted segmented message are those of its
      segmentation, in order and numbered modulo 16. */
  lemma SenderStream(c: Channel, inputs: seq<Input>)
    requires Initial(c) && AllPossible(inputs, |c.used|)
    ensures c.Valid() && InStream(Run(c, inputs).c.tx, StreamOf(c, inputs, Stream([], [])))
  {
    RunInStream(c, inputs, Stream([], []));
  }
}
