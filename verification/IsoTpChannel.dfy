/**
  ISO15765Channel as the firmware has it: one object whose methods update its fields in place,
  statement by statement, and share the scratch frame `f`. Every method is proved to do exactly
  what the function of `IsoTp` with its name does to the state, the bus and the PC.
 */
module IsoTpChannel {
  import opened Bytes
  import opened CanFrame
  import opened IsoTp

  class Iso15765Channel {
    var f: Frame
    var usedMailboxes: seq<bool>
    var flowControlIds: seq<u32>
    var use29bitCid: bool
    var tx: Sender
    var rx: Receiver
    var blockSize: u16
    var sepTime: u16

    /** Frames given to the CAN controller and messages given to the PC, oldest first. */
    var bus: seq<Frame>
    var pc: seq<PcEvent>

    ghost function State(): Channel
      reads this
    {
      Channel(f, usedMailboxes, flowControlIds, use29bitCid, tx, rx, blockSize, sepTime)
    }

    /** The object is in the state `o.c`, having sent `o.sent` and told the PC `o.toPc` since. */
    ghost predicate Did(o: Out, busBefore: seq<Frame>, pcBefore: seq<PcEvent>)
      reads this
    {
      State() == o.c && bus == busBefore + o.sent && pc == pcBefore + o.toPc
    }

    constructor (mailboxes: nat)
      ensures State().Valid() && Initial(State()) && |usedMailboxes| == mailboxes && bus == [] && pc == []
    {
      f := Frame(0, false, 0, 15, 0, [0, 0, 0, 0, 0, 0, 0, 0]);
      usedMailboxes := seq(mailboxes, _ => false);
      flowControlIds := seq(mailboxes, _ => 0);
      use29bitCid := false;
      var empty: Payload := seq(PAYLOAD_SIZE, _ => 0);
      tx := Sender(false, false, empty, 0, 0, 0x20, 0, 0, 0, 0);
      rx := Receiver(false, empty, 0, 0, 0);
      blockSize, sepTime := 0, 0;
      bus, pc := [], [];
    }

    method HandleFc(now: nat)
      requires State().Valid()
      modifies this
      ensures Did(IsoTp.HandleFc(old(State()), now), old(bus), old(pc))
    {
      if f.data[0] != 0x30 {
        return;
      }
      if f.data[1] == 0x00 {
        tx := tx.(blockSize := 0xFFFF);
      } else {
        tx := tx.(blockSize := f.data[1]);
      }
      tx := tx.(sepTime := f.data[2]);
      tx := tx.(clearToSend := true, isSending := true, framesSent := 0);
      tx := tx.(nextSendTime := now + sepTime);
    }

    /** The next consecutive frame, built in the scratch frame. */
    method BuildConsecutiveFrame()
      requires State().Valid()
      modifies `f
      ensures f == ConsecutiveFrame(old(State()))
    {
      var maxCopy := U8(Min(7, tx.size - tx.pos));
      assert maxCopy == ChunkLength(tx);
      f := f.(id := Id(tx.payload), length := 8);
      f := f.(data := Splice(f.data[0 := tx.pci], 1, tx.payload[tx.pos..tx.pos + maxCopy]));
    }

    /** The counters of the sending half after a consecutive frame. */
    method AdvanceSender(now: nat)
      requires tx.Valid()
      modifies `tx
      ensures tx == AfterConsecutive(old(tx), now)
    {
      tx := tx.(pos := tx.pos + U8(Min(7, tx.size - tx.pos)));
      tx := tx.(pci := tx.pci + 1, framesSent := (tx.framesSent + 1) % 0x1_0000);
      if tx.pci == 0x30 {
        tx := tx.(pci := 0x20);
      }
      if tx.pos >= tx.size {
        tx := tx.(clearToSend := false, isSending := false);
      } else {
        tx := tx.(nextSendTime := now + tx.sepTime);
        if tx.framesSent >= tx.blockSize {
          tx := tx.(clearToSend := false);
        }
      }
    }

    method TxMultiFrame(now: nat)
      requires State().Valid()
      modifies `f, `tx, `bus, `pc
      ensures Did(IsoTp.TxMultiFrame(old(State()), now), old(bus), old(pc))
    {
      BuildConsecutiveFrame();
      bus := bus + [f];
      AdvanceSender(now);
      if tx.pos >= tx.size {
        pc := pc + [RxData(TX_MSG_TYPE, tx.payload[..4])];
      }
    }

    method RxSingleFrame(beyond: Beyond)
      requires f.data[0] < 0x10
      modifies this`pc
      ensures pc == old(pc) + [RxData(0, SingleFrameMessage(f, beyond))]
    {
      pc := pc + [RxData(0, IdBytes(f.id) + (f.data + beyond)[1..1 + f.data[0]])];
    }

    /** Store the data of a consecutive frame and say what it completes. */
    method Store(beyond: Beyond) returns (verdict: Reassembly)
      requires rx.Valid() && rx.isReceiving
      modifies `rx
      ensures (rx, verdict) == ContinueReassembly(old(rx), f, beyond)
    {
      var maxCopy := U8(Min(rx.size - rx.pos, 7));
      rx := rx.(payload := Splice(rx.payload, rx.pos, (f.data + beyond)[1..1 + maxCopy]));
      rx := rx.(pos := rx.pos + maxCopy, frameCount := rx.frameCount + 1);
      if rx.pos >= rx.size {
        verdict := Complete(rx.payload[..rx.size]);
        rx := rx.(isReceiving := false);
      } else if rx.frameCount >= 8 {
        verdict := BlockComplete;
        rx := rx.(frameCount := 0);
      } else {
        verdict := Stored;
      }
    }

    method RxMultiFrame(mailbox: nat, beyond: Beyond)
      requires State().Valid() && mailbox < |usedMailboxes|
      modifies `f, `rx, `bus, `pc
      ensures Did(IsoTp.RxMultiFrame(old(State()), mailbox, beyond), old(bus), old(pc))
    {
      if !rx.isReceiving {
        return;
      }
      var verdict := Store(beyond);
      match verdict {
        case Complete(message) => pc := pc + [RxData(0, message)];
        case Stored =>
        case BlockComplete =>
          f := f.(id := flowControlIds[mailbox]);
          SendFlowControl(tx.blockSize, tx.sepTime);
      }
    }

    /** The flow control frame, built in the scratch frame and sent. */
    method SendFlowControl(size: u16, time: u16)
      modifies this`f, this`bus
      ensures f == FlowControl(old(f), old(f).id, size, time) && bus == old(bus) + [f]
    {
      f := f.(length := 8, data := f.data[0 := 0x30][1 := U8(size)][2 := U8(time)]);
      assert f.data == Splice(old(f.data), 0, [0x30, U8(size), U8(time)]);
      bus := bus + [f];
    }

    method FirstFrameIndication(mailbox: nat)
      requires State().Valid() && mailbox < |usedMailboxes|
      modifies this
      ensures Did(IsoTp.FirstFrameIndication(old(State()), mailbox), old(bus), old(pc))
    {
      var requestId := f.id;
      f := f.(id := flowControlIds[mailbox]);
      if f.id == 0 {
        return;
      }
      if rx.isReceiving {
        return;
      }
      rx := rx.(size := FirstFrameSize(f.data), pos := 10);
      rx := rx.(payload := Splice(rx.payload, 4, f.data[2..8]));
      rx := rx.(payload := Splice(rx.payload, 0, IdBytes(requestId)), isReceiving := true);
      SendFlowControl(blockSize, sepTime);
      pc := pc + [RxData(ISO15765_FIRST_FRAME, IdBytes(requestId))];
      rx := rx.(frameCount := 0);
    }

    method Receive(mailbox: nat, frame: Frame, beyond: Beyond, now: nat)
      requires State().Valid() && mailbox < |usedMailboxes|
      modifies this
      ensures Did(IsoTp.Receive(old(State()), mailbox, frame, beyond, now), old(bus), old(pc))
    {
      f := frame;
      assert State() == old(State()).(f := frame);
      match f.data[0] / 0x10 {
        case 0 => RxSingleFrame(beyond);
        case 1 => FirstFrameIndication(mailbox);
        case 2 => RxMultiFrame(mailbox, beyond);
        case 3 => HandleFc(now);
        case _ =>
      }
    }

    /** One mailbox of `update`. */
    method Poll(mailbox: nat, waiting: Option<Frame>, beyond: Beyond, now: nat)
      requires State().Valid() && mailbox < |usedMailboxes|
      modifies this
      ensures Did(IsoTp.Poll(old(State()), mailbox, waiting, beyond, now), old(bus), old(pc))
    {
      if usedMailboxes[mailbox] && waiting.Some? {
        Receive(mailbox, waiting.value, beyond, now);
      }
    }

    /** The end of `update`. */
    method Tick(now: nat, later: nat)
      requires State().Valid()
      modifies this
      ensures Did(IsoTp.Tick(old(State()), now, later), old(bus), old(pc))
    {
      if tx.isSending && tx.clearToSend && now > tx.nextSendTime {
        TxMultiFrame(later);
      }
    }

    method Update(incoming: seq<Option<Frame>>, beyond: seq<Beyond>, clock: seq<nat>)
      requires State().Valid() && |incoming| == |beyond| == |usedMailboxes| && |clock| == |incoming| + 2
      modifies this
      ensures Did(UpdateFrom(old(State()), incoming, beyond, clock, 0), old(bus), old(pc))
      ensures Did(Run(old(State()), Inputs(old(usedMailboxes), incoming, beyond, clock, 0)), old(bus), old(pc))
    {
      UpdateIsRun(State(), incoming, beyond, clock, 0);
      ghost var all := UpdateFrom(State(), incoming, beyond, clock, 0);
      ghost var whole := Out(all.c, bus + all.sent, pc + all.toPc);
      var i := 0;
      while i < |incoming|
        invariant 0 <= i <= |incoming|
        invariant Remaining(State(), incoming, beyond, clock, i, bus, pc, whole)
      {
        NextMailbox(State(), incoming, beyond, clock, i, bus, pc, whole);
        Poll(i, incoming[i], beyond[i], clock[i]);
        i := i + 1;
      }
      Tick(clock[i], clock[i + 1]);
    }

    method AddFilter(mailbox: nat, flowControlId: u32)
      requires State().Valid() && mailbox < |usedMailboxes|
      modifies `usedMailboxes, `flowControlIds, `pc
      ensures Did(IsoTp.AddFilter(old(State()), mailbox, flowControlId), old(bus), old(pc))
    {
      if usedMailboxes[mailbox] {
        pc := pc + [RespondErr(ERR_FAILED)];
        return;
      }
      usedMailboxes := usedMailboxes[mailbox := true];
      flowControlIds := flowControlIds[mailbox := flowControlId];
      pc := pc + [RespondOk];
    }

    method RemoveFilter(mailbox: nat)
      requires State().Valid() && mailbox < |usedMailboxes|
      modifies `usedMailboxes, `flowControlIds, `rx, `tx, `pc
      ensures Did(IsoTp.RemoveFilter(old(State()), mailbox), old(bus), old(pc))
    {
      if usedMailboxes[mailbox] {
        usedMailboxes := usedMailboxes[mailbox := false];
        flowControlIds := flowControlIds[mailbox := 0];
        rx := rx.(isReceiving := false);
        tx := tx.(clearToSend := false);
        pc := pc + [RespondOk];
      } else {
        pc := pc + [RespondErr(ERR_INVALID_FILTER_ID)];
      }
    }

    method SendMsg(txFlags: u32, data: seq<u8>, respond: bool)
      requires State().Valid() && Fits(txFlags, |data|, tx.isSending)
      modifies `f, `tx, `bus, `pc
      ensures Did(IsoTp.SendMsg(old(State()), txFlags, data, respond), old(bus), old(pc))
    {
      if txFlags % 2 == 1 {
        pc := pc + [RespondErr(ERR_FAILED)];
      } else if |data| <= 11 {
        SendSingle(data);
        if respond {
          pc := pc + [RespondOk];
        }
        pc := pc + [RxData(TX_MSG_TYPE, data[..4])];
      } else if tx.isSending {
        if respond {
          pc := pc + [RespondErr(ERR_BUFFER_FULL)];
        }
      } else {
        StartSegmented(data);
      }
    }

    method SendSingle(data: seq<u8>)
      requires 4 <= |data| <= 11
      modifies `f, `bus
      ensures f == Frame(Id(data), use29bitCid, 0, 4, 8, Splice(old(f).data[0 := |data| - 4], 1, data[4..]))
      ensures bus == old(bus) + [f]
    {
      f := Frame(Id(data), use29bitCid, 0, 4, 8, f.data[0 := |data| - 4]);
      f := f.(data := Splice(f.data, 1, data[4..]));
      bus := bus + [f];
    }

    method StartSegmented(data: seq<u8>)
      requires 12 <= |data| <= PAYLOAD_SIZE
      modifies `f, `tx, `bus
      ensures f == Frame(Id(data), use29bitCid, 0, 4, 8, FirstFrameHeader(|data| - 4) + data[4..10])
      ensures tx == old(tx).(payload := Splice(old(tx).payload, 0, data), size := |data|, pos := 10,
                             clearToSend := false, isSending := true, pci := 0x21)
      ensures bus == old(bus) + [f]
    {
      f := Frame(Id(data), use29bitCid, 0, 4, 8, FirstFrameHeader(|data| - 4) + data[4..10]);
      tx := tx.(size := |data|, pos := 10, payload := Splice(tx.payload, 0, data));
      tx := tx.(clearToSend := false, isSending := true, pci := 0x21);
      bus := bus + [f];
    }
  }
}
