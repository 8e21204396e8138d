/**
  What each operation of a channel puts on the bus and tells the PC, field by field, and what it leaves in the
  scratch frame that later frames are built in.
 */
module IsoTpWire {
  import opened Bytes
  import opened CanFrame
  import opened IsoTp

  // ---- Sending -----------------------------------------------------------------------------

  /** `sendMsg` takes a message that fits one frame at any time, and a longer one when nothing is being sent. */
  predicate Takes(c: Channel, size: nat) { size <= 11 || !c.tx.isSending }

  /** What a frame of this end's own looks like, whatever it carries. */
  predicate OwnFrame(c: Channel, f: Frame, data: seq<u8>)
    requires |data| >= 4
  {
    f.id == BigEndian(data[..4]) && f.extended == c.use29bitCid && f.rtr == 0 && f.priority == 4 && f.length == 8
  }

  /** Over all flags that are not refused, a message is sent if and only if it is taken, in one frame. */
  lemma SendSends(c: Channel, txFlags: u32, data: seq<u8>, respond: bool)
    requires c.Valid() && txFlags % 2 == 0 && Fits(txFlags, |data|, c.tx.isSending)
    ensures var o := SendMsg(c, txFlags, data, respond);
            && (if Takes(c, |data|) then |o.sent| == 1 && OwnFrame(c, o.sent[0], data) else o.sent == [] && o.c == c)
  {
    IdIsBigEndian(data);
  }

  /** What the PC is told: `RespondOk` exactly for a single frame with `respond`, a full buffer exactly with
      `respond` and nothing sent, and the confirmation, last, exactly for a single frame; nothing else. */
  lemma SendTells(c: Channel, txFlags: u32, data: seq<u8>, respond: bool)
    requires c.Valid() && txFlags % 2 == 0 && Fits(txFlags, |data|, c.tx.isSending)
    ensures var o := SendMsg(c, txFlags, data, respond);
            && (RespondOk in o.toPc <==> respond && |data| <= 11)
            && (RespondErr(ERR_BUFFER_FULL) in o.toPc <==> respond && o.sent == [])
            && (RxData(TX_MSG_TYPE, data[..4]) in o.toPc <==> |data| <= 11)
            && |o.toPc|
               == (if respond && (|data| <= 11 || o.sent == []) then 1 else 0) + (if |data| <= 11 then 1 else 0)
            && (|data| <= 11 ==> o.toPc[|o.toPc| - 1] == RxData(TX_MSG_TYPE, data[..4]))
  {
  }

  /** A single frame carries its length and its data; behind them are bytes of the last frame handled. */
  lemma SingleFrameData(c: Channel, txFlags: u32, data: seq<u8>, respond: bool)
    requires c.Valid() && txFlags % 2 == 0 && 4 <= |data| <= 11
    ensures var o := SendMsg(c, txFlags, data, respond); var n := |data| - 4;
            && |o.sent| == 1 && o.sent[0].data[0] == n && o.sent[0].data[1..n + 1] == data[4..]
            && o.sent[0].data[n + 1..] == c.f.data[n + 1..] && o.c == c.(f := o.sent[0])
  {
    var n := |data| - 4;
    var d := SendMsg(c, txFlags, data, respond).sent[0].data;
    assert d[..1] == c.f.data[0 := n][..1] && d[0] == d[..1][0];
    assert d[1..n + 1] == d[1..1 + |data[4..]|];
  }

  /** The first frame of a longer message carries the twelve low bits of its length and six bytes; the rest waits
      for a flow control, the first consecutive frame having number 1. */
  lemma FirstFrameData(c: Channel, txFlags: u32, data: seq<u8>, respond: bool)
    requires c.Valid() && txFlags % 2 == 0 && 12 <= |data| <= PAYLOAD_SIZE && !c.tx.isSending
    ensures var o := SendMsg(c, txFlags, data, respond);
            && |o.sent| == 1 && o.sent[0].data[0] / 0x10 == 1
            && BigEndian([o.sent[0].data[0] % 0x10, o.sent[0].data[1]]) == (|data| - 4) % 0x1000
            && o.sent[0].data[2..] == data[4..10]
            && o.c.f == o.sent[0] && o.c.rx == c.rx
            && o.c.tx.isSending && !o.c.tx.clearToSend && o.c.tx.pos == 10 && o.c.tx.size == |data|
            && o.c.tx.payload[..|data|] == data && o.c.tx.pci == 0x21
  {
    var o := SendMsg(c, txFlags, data, respond);
    var length := |data| - 4;
    TwelveBits(length);
    TwoBytes(length / 0x100 % 0x10, length % 0x100);
    assert o.sent[0].data[0] == 0x10 + length / 0x100 % 0x10;
  }

  lemma TwelveBits(n: nat)
    ensures n / 0x100 % 0x10 * 0x100 + n % 0x100 == n % 0x1000
  {
    var q := n / 0x1000;
    assert n == q * 0x1000 + n % 0x1000;
    assert n / 0x100 == q * 0x10 + n % 0x1000 / 0x100;
  }

  lemma TwoBytes(hi: u8, lo: u8)
    ensures BigEndian([hi, lo]) == hi * 0x100 + lo
  {
    assert [hi, lo][..1] == [hi] && [hi][..0] == [];
    assert BigEndian([hi]) == hi;
  }

  /** Flags that are refused: nothing is sent, nothing changes, and the PC is told even if it did not ask. */
  lemma SendRefuses(c: Channel, txFlags: u32, data: seq<u8>, respond: bool)
    requires c.Valid() && txFlags % 2 == 1
    ensures SendMsg(c, txFlags, data, respond) == Out(c, [], [RespondErr(ERR_FAILED)])
  {
  }

  // ---- Answering ---------------------------------------------------------------------------

  /** A flow control is built in the frame it answers: its own id, length and first three bytes, all else as
      received. */
  predicate Answer(g: Frame, f: Frame, id: u32, blockSize: u16, sepTime: u16) {
    && g.id == id && g.length == 8 && g.extended == f.extended && g.rtr == f.rtr && g.priority == f.priority
    && g.data[0] == 0x30 && g.data[1] == blockSize % 0x100 && g.data[2] == sepTime % 0x100
    && g.data[3..] == f.data[3..]
  }

  lemma FlowControlIsAnswer(f: Frame, id: u32, blockSize: u16, sepTime: u16)
    ensures Answer(FlowControl(f, id, blockSize, sepTime), f, id, blockSize, sepTime)
  {
    var head := [0x30, U8(blockSize), U8(sepTime)];
    var d := Splice(f.data, 0, head);
    assert d[0..3] == head && d[0] == d[0..3][0] && d[1] == d[0..3][1] && d[2] == d[0..3][2];
    assert d[3..] == f.data[3..];
  }

  /** Whether a first frame is acted on. */
  predicate Begins(c: Channel, mailbox: nat, f: Frame)
    requires mailbox < |c.flowControlIds|
  {
    f.data[0] / 0x10 == 1 && c.flowControlIds[mailbox] != 0 && !c.rx.isReceiving
  }

  /** Whether a consecutive frame is the eighth since the last flow control and not the last of its message. */
  predicate Continues(c: Channel, f: Frame) {
    f.data[0] / 0x10 == 2 && c.rx.isReceiving && c.rx.frameCount == 7 && c.rx.pos + 7 < c.rx.size
  }

  /** A reception sends something exactly when a first frame is acted on or a block of eight is complete: a flow
      control under the reply id of the mailbox, with the configured values or with those last received. */
  lemma ReceiveAnswers(c: Channel, mailbox: nat, f: Frame, beyond: Beyond, now: nat)
    requires c.Valid() && mailbox < |c.used|
    ensures var o := Receive(c, mailbox, f, beyond, now);
            var id := c.flowControlIds[mailbox];
            if Begins(c, mailbox, f) then |o.sent| == 1 && Answer(o.sent[0], f, id, c.blockSize, c.sepTime)
            else if Continues(c, f) then |o.sent| == 1 && Answer(o.sent[0], f, id, c.tx.blockSize, c.tx.sepTime)
            else o.sent == []
  {
    var id := c.flowControlIds[mailbox];
    FlowControlIsAnswer(f, id, c.blockSize, c.sepTime);
    FlowControlIsAnswer(f, id, c.tx.blockSize, c.tx.sepTime);
  }

  /** What the PC is told of a reception: a single frame's message, the indication of a first frame that is acted
      on, with the id it came under, and a message that is complete. */
  lemma ReceiveTells(c: Channel, mailbox: nat, f: Frame, beyond: Beyond, now: nat)
    requires c.Valid() && mailbox < |c.used|
    ensures var o := Receive(c, mailbox, f, beyond, now);
            if f.data[0] / 0x10 == 0 then o.toPc == [RxData(0, SingleFrameMessage(f, beyond))]
            else if Begins(c, mailbox, f) then o.toPc == [RxData(ISO15765_FIRST_FRAME, IdBytes(f.id))]
            else if f.data[0] / 0x10 == 2 && c.rx.isReceiving && c.rx.pos + 7 >= c.rx.size then
              |o.toPc| == 1 && o.toPc[0].RxData? && o.toPc[0].status == 0 && |o.toPc[0].data| == c.rx.size
            else o.toPc == []
  {
  }

  /** Frames of unknown kind, and those that come at the wrong time, change nothing but the scratch frame. */
  lemma ReceiveIgnores(c: Channel, mailbox: nat, f: Frame, beyond: Beyond, now: nat)
    requires c.Valid() && mailbox < |c.used|
    requires f.data[0] >= 0x31 || (f.data[0] / 0x10 == 2 && !c.rx.isReceiving)
          || (f.data[0] / 0x10 == 1 && !Begins(c, mailbox, f))
    ensures var o := Receive(c, mailbox, f, beyond, now);
            o.sent == [] && o.toPc == [] && o.c == c.(f := o.c.f)
  {
  }

  // ---- Consecutive frames ------------------------------------------------------------------

  /** A consecutive frame is built in the last frame handled: id, length, number and data are its own. */
  lemma TickSends(c: Channel, now: nat, later: nat)
    requires c.Valid()
    ensures var o := Tick(c, now, later); var n := Min(7, c.tx.size - c.tx.pos);
            if c.tx.isSending && c.tx.clearToSend && now > c.tx.nextSendTime then
              && |o.sent| == 1 && o.sent[0].id == BigEndian(c.tx.payload[..4]) && o.sent[0].length == 8
              && o.sent[0].extended == c.f.extended && o.sent[0].rtr == c.f.rtr && o.sent[0].priority == c.f.priority
              && o.sent[0].data[0] == c.tx.pci && o.sent[0].data[1..n + 1] == c.tx.payload[c.tx.pos..c.tx.pos + n]
              && o.sent[0].data[n + 1..] == c.f.data[n + 1..]
            else o == Out(c, [], [])
  {
    IdIsBigEndian(c.tx.payload);
    if c.tx.isSending && c.tx.clearToSend && now > c.tx.nextSendTime {
      var n := ChunkLength(c.tx);
      var d := Splice(c.f.data[0 := c.tx.pci], 1, c.tx.payload[c.tx.pos..c.tx.pos + n]);
      assert d[..1] == c.f.data[0 := c.tx.pci][..1] && d[0] == d[..1][0];
      assert d[1..1 + n] == c.tx.payload[c.tx.pos..c.tx.pos + n] && d[n + 1..] == c.f.data[n + 1..];
    }
  }

  // ---- The scratch frame -------------------------------------------------------------------

  /** The scratch frame is the last frame sent or received, except that a first frame that is not acted on gets
      the reply id of its mailbox. */
  lemma ScratchFrame(c: Channel, input: Input)
    requires c.Valid() && Possible(input, |c.used|)
    ensures var o := Step(c, input);
            if o.sent != [] then o.sent == [o.c.f]
            else if !input.Arrive? then o.c.f == c.f
            else if input.frame.data[0] / 0x10 == 1 then
              o.c.f == input.frame.(id := c.flowControlIds[input.mailbox])
            else o.c.f == input.frame
  {
  }
}
