/**
  How a CAN frame is laid out in the registers of a hardware mailbox (firmware/due_can.cpp): written byte
  by byte by `writeTxRegisters`, decoded by `mailbox_read`.
 */
module MailboxRegisters {
  const MIDE: bv32 := 0x2000_0000
  const MAX_STANDARD: bv32 := 0x7FF
  const MAX_EXTENDED: bv32 := 0x1FFF_FFFF

  type byte = b: bv32 | b <= 0xFF

  /** Byte `i` of a data register, byte 0 being the lowest */
  function ByteOf(register: bv32, i: nat): bv32
    requires i < 4
  {
    match i
    case 0 => register & 0xFF
    case 1 => (register >> 8) & 0xFF
    case 2 => (register >> 16) & 0xFF
    case _ => (register >> 24) & 0xFF
  }

  /** A data register with byte `i` masked out and `val` put in its place */
  function Replace(register: bv32, i: nat, val: byte): bv32
    requires i < 4
  {
    match i
    case 0 => (register & !0xFF) | val
    case 1 => (register & !(0xFF << 8)) | (val << 8)
    case 2 => (register & !(0xFF << 16)) | (val << 16)
    case _ => (register & !(0xFF << 24)) | (val << 24)
  }

  lemma Replaced0(register: bv32, val: byte, j: nat)
    requires j < 4
    ensures ByteOf(Replace(register, 0, val), j) == if j == 0 then val else ByteOf(register, j)
  {
    if j == 0 {} else if j == 1 {} else if j == 2 {}
  }

  lemma Replaced1(register: bv32, val: byte, j: nat)
    requires j < 4
    ensures ByteOf(Replace(register, 1, val), j) == if j == 1 then val else ByteOf(register, j)
  {
    if j == 0 {} else if j == 1 {} else if j == 2 {}
  }

  lemma Replaced2(register: bv32, val: byte, j: nat)
    requires j < 4
    ensures ByteOf(Replace(register, 2, val), j) == if j == 2 then val else ByteOf(register, j)
  {
    if j == 0 {} else if j == 1 {} else if j == 2 {}
  }

  lemma Replaced3(register: bv32, val: byte, j: nat)
    requires j < 4
    ensures ByteOf(Replace(register, 3, val), j) == if j == 3 then val else ByteOf(register, j)
  {
    if j == 0 {} else if j == 1 {} else if j == 2 {}
  }

  /** Replacing a byte changes that byte and no other. */
  lemma ByteReplaced(register: bv32, i: nat, val: byte, j: nat)
    requires i < 4 && j < 4
    ensures ByteOf(Replace(register, i, val), j) == if j == i then val else ByteOf(register, j)
  {
    match i
    case 0 => Replaced0(register, val, j);
    case 1 => Replaced1(register, val, j);
    case 2 => Replaced2(register, val, j);
    case _ => Replaced3(register, val, j);
  }

  /** The id register for a frame, and the id and extended flag decoded from one */
  function IdRegister(id: bv32, extended: bool): bv32 {
    if extended then id | MIDE else (0x7FF << 18) & (id << 18)
  }

  function DecodedId(mid: bv32): (bv32, bool) {
    if mid & MIDE == MIDE then (mid & MAX_EXTENDED, true) else ((mid >> 18) & MAX_STANDARD, false)
  }

  /** Id and kind come back exactly for 29-bit extended and 11-bit standard ids. */
  lemma IdRoundTrip(id: bv32, extended: bool)
    ensures DecodedId(IdRegister(id, extended)) == (id, extended)
       <==> id <= (if extended then MAX_EXTENDED else MAX_STANDARD)
  {
    if extended {
      ExtendedRoundTrip(id);
    } else {
      StandardRoundTrip(id);
    }
  }

  lemma ExtendedRoundTrip(id: bv32)
    ensures DecodedId(IdRegister(id, true)) == (id, true) <==> id <= MAX_EXTENDED
  {
    assert ((id | 0x2000_0000) & 0x2000_0000) == 0x2000_0000;
    ExtendedIdField(id);
    ExtendedIdFits(id);
  }

  lemma ExtendedIdField(id: bv32)
    ensures (id | 0x2000_0000) & 0x1FFF_FFFF == id & 0x1FFF_FFFF
  {
  }

  lemma ExtendedIdFits(id: bv32)
    ensures id & 0x1FFF_FFFF == id <==> id <= 0x1FFF_FFFF
  {
  }

  lemma StandardRoundTrip(id: bv32)
    ensures DecodedId(IdRegister(id, false)) == (id, false) <==> id <= MAX_STANDARD
  {
    assert ((0x7FF << 18) & (id << 18)) & 0x2000_0000 == 0;
    StandardIdField(id);
    StandardIdFits(id);
  }

  lemma StandardIdField(id: bv32)
    ensures (((0x7FF << 18) & (id << 18)) >> 18) & 0x7FF == id & 0x7FF
  {
  }

  lemma StandardIdFits(id: bv32)
    ensures id & 0x7FF == id <==> id <= 0x7FF
  {
  }

  predicate IdFits(id: bv32, extended: bool) { id <= (if extended then MAX_EXTENDED else MAX_STANDARD) }

  /** The bits of the id register that count for the kind it announces */
  function SignificantId(mid: bv32): bv32 {
    if mid & MIDE == MIDE then mid & 0x3FFF_FFFF else mid & 0x1FFC_0000
  }

  /** Encoding what was decoded gives back the bits that count. */
  lemma DecodedIdFits(mid: bv32)
    ensures var (id, extended) := DecodedId(mid); IdFits(id, extended) && IdRegister(id, extended) == SignificantId(mid)
  {
    if mid & MIDE == MIDE {
      assert mid & 0x2000_0000 == 0x2000_0000 ==> (mid & 0x1FFF_FFFF) | 0x2000_0000 == mid & 0x3FFF_FFFF;
    } else {
      assert (0x7FF << 18) & (((mid >> 18) & 0x7FF) << 18) == mid & 0x1FFC_0000;
    }
  }

  // ---- Length, remote request and priority -------------------------------------------------

  const FIELD: bv32 := 0xF_0000
  const RTR: bv32 := 0x10_0000

  /** The four bits from bit 16 on: the length in the control register, the priority in the mode register */
  function FieldOf(register: bv32): bv32 { (register >> 16) & 0xF }

  /** The mailbox mode, in the mode register */
  function ModeOf(register: bv32): bv32 { (register >> 24) & 7 }

  function WithField(register: bv32, val: byte): bv32 { (register & !FIELD) | (val << 16) }

  function WithRtr(register: bv32, rtr: bool): bv32 { if rtr then register | RTR else register & !RTR }

  /** The field takes the low four bits of a value; the mode of the mailbox and the lower half of the register
      stay. */
  lemma FieldReplaced(register: bv32, val: byte)
    ensures FieldOf(WithField(register, val)) == val & 0xF
    ensures ModeOf(WithField(register, val)) == ModeOf(register)
    ensures WithField(register, val) & 0xFFFF == register & 0xFFFF
  {
    FieldTaken(register, val);
    ModeKept(register, val);
  }

  lemma FieldTaken(register: bv32, val: byte)
    ensures (((register & !0xF_0000) | (val << 16)) >> 16) & 0xF == val & 0xF
  {
  }

  lemma ModeKept(register: bv32, val: byte)
    ensures (((register & !0xF_0000) | (val << 16)) >> 24) & 7 == (register >> 24) & 7
  {
  }

  /** The remote-request bit, and no other */
  lemma RtrReplaced(register: bv32, rtr: bool)
    ensures WithRtr(register, rtr) & 0x10_0000 != 0 <==> rtr
    ensures WithRtr(register, rtr) & !0x10_0000 == register & !0x10_0000
  {
    if rtr { BitSet(register); } else { BitCleared(register); }
  }

  lemma BitSet(register: bv32)
    ensures (register | 0x10_0000) & 0x10_0000 != 0
    ensures (register | 0x10_0000) & !0x10_0000 == register & !0x10_0000
  {
  }

  lemma BitCleared(register: bv32)
    ensures (register & !0x10_0000) & 0x10_0000 == 0
    ensures (register & !0x10_0000) & !0x10_0000 == register & !0x10_0000
  {
  }

  function Clamped(length: byte): byte { if length > 8 then 8 else length }

  /** The length field holds the length, but never more than 8. */
  lemma LengthReplaced(register: bv32, length: byte)
    ensures FieldOf(WithField(register, Clamped(length))) == if length > 8 then 8 else length
  {
    FieldReplaced(register, Clamped(length));
    SmallValue(Clamped(length));
  }

  lemma SmallValue(val: bv32)
    requires val <= 8
    ensures val & 0xF == val
  {
  }

  /** Length, remote request and time stamp of a frame, in a status register */
  function DecodedStatus(status: bv32): (bv32, bool, bv32) {
    (FieldOf(status), status & RTR != 0, status & 0xFFFF)
  }

  /** A status register with a given length and remote request decodes to them, and to the time stamp below them. */
  lemma StatusDecoded(register: bv32, length: byte, rtr: bool)
    requires length <= 8
    ensures DecodedStatus(WithRtr(WithField(register, length), rtr)) == (length, rtr, register & 0xFFFF)
  {
    LengthDecoded(register, length, rtr);
    RtrDecoded(register, length, rtr);
    TimeDecoded(register, length, rtr);
  }

  lemma LengthDecoded(register: bv32, length: byte, rtr: bool)
    requires length <= 8
    ensures FieldOf(WithRtr(WithField(register, length), rtr)) == length
  {
    var r := WithField(register, length);
    FieldTaken(register, length);
    SmallValue(length);
    if rtr { RtrSetApart(r); } else { RtrClearedApart(r); }
  }

  lemma TimeDecoded(register: bv32, length: byte, rtr: bool)
    ensures WithRtr(WithField(register, length), rtr) & 0xFFFF == register & 0xFFFF
  {
    var r := WithField(register, length);
    FieldReplaced(register, length);
    if rtr { RtrSetApart(r); } else { RtrClearedApart(r); }
  }

  lemma RtrDecoded(register: bv32, length: byte, rtr: bool)
    ensures WithRtr(WithField(register, length), rtr) & RTR != 0 <==> rtr
  {
    var r := WithField(register, length);
    if rtr { BitSet(r); } else { BitCleared(r); }
  }

  lemma RtrSetApart(register: bv32)
    ensures ((register | 0x10_0000) >> 16) & 0xF == (register >> 16) & 0xF
    ensures (register | 0x10_0000) & 0xFFFF == register & 0xFFFF
  {
  }

  lemma RtrClearedApart(register: bv32)
    ensures ((register & !0x10_0000) >> 16) & 0xF == (register >> 16) & 0xF
    ensures (register & !0x10_0000) & 0xFFFF == register & 0xFFFF
  {
  }

  // ---- Layout ------------------------------------------------------------------------------

  /** Byte 0 of the data is the lowest of its register. */
  lemma ByteLayout(register: bv32)
    ensures register == ByteOf(register, 0) | (ByteOf(register, 1) << 8) | (ByteOf(register, 2) << 16)
                        | (ByteOf(register, 3) << 24)
  {
  }

  /** A standard id is in the upper eleven of the 29 id bits, an extended one in all of them, with bit 29 set. */
  lemma IdLayout(id: bv32)
    ensures IdRegister(id, false) == (id & 0x7FF) << 18
    ensures IdRegister(id, true) == id | (1 << 29)
  {
  }

  class Mailbox {
    var mid: bv32
    var mdl: bv32
    var mdh: bv32
    var mcr: bv32
    var msr: bv32
    var mmr: bv32
    var mfid: bv32

    /** The data bytes as `mailbox_read` finds them in the two data registers */
    function DataByte(i: nat): bv32
      requires i < 8
      reads this
    {
      if i < 4 then ByteOf(mdl, i) else ByteOf(mdh, i - 4)
    }

    /** The mailbox holds a frame with this id and data. */
    predicate Holds(id: bv32, extended: bool, data: seq<bv32>)
      reads this
    {
      && IdFits(id, extended) && mid == IdRegister(id, extended)
      && |data| == 8 && forall i :: 0 <= i < 8 ==> DataByte(i) == data[i]
    }

    /** `mailbox_set_databyte` */
    method SetDataByte(position: nat, val: byte)
      modifies this`mdl, this`mdh
      ensures var p := if position > 7 then 7 else position;
              forall i :: 0 <= i < 8 ==> DataByte(i) == if i == p then val else old(DataByte(i))
    {
      var bytepos := if position > 7 then 7 else position;
      var i := bytepos % 4;
      forall j | 0 <= j < 4
        ensures ByteOf(Replace(mdl, i, val), j) == if j == i then val else ByteOf(mdl, j)
        ensures ByteOf(Replace(mdh, i, val), j) == if j == i then val else ByteOf(mdh, j)
      {
        ByteReplaced(mdl, i, val, j);
        ByteReplaced(mdh, i, val, j);
      }
      if bytepos < 4 { mdl := Replace(mdl, i, val); } else { mdh := Replace(mdh, i, val); }
    }

    /** `mailbox_set_id` */
    method SetId(id: bv32, extended: bool)
      modifies this`mid
      ensures mid == IdRegister(id, extended)
    {
      if extended { mid := id | MIDE; } else { mid := (0x7FF << 18) & (id << 18); }
    }

    /** `mailbox_set_datalen` */
    method SetDataLen(length: byte)
      modifies this`mcr
      ensures mcr == WithField(old(mcr), Clamped(length))
    {
      mcr := WithField(mcr, Clamped(length));
    }

    /** `mailbox_set_rtr` */
    method SetRtr(rtr: byte)
      modifies this`msr
      ensures msr == WithRtr(old(msr), rtr != 0)
    {
      if rtr != 0 { msr := msr | RTR; } else { msr := msr & !RTR; }
    }

    /** `mailbox_set_priority` */
    method SetPriority(pri: byte)
      modifies this`mmr
      ensures mmr == WithField(old(mmr), pri)
    {
      mmr := WithField(mmr, pri);
    }

    /** The loop of `writeTxRegisters` */
    method SetData(data: seq<byte>)
      requires |data| == 8
      modifies this`mdl, this`mdh
      ensures forall i :: 0 <= i < 8 ==> DataByte(i) == data[i]
    {
      for cnt := 0 to 8
        invariant forall i :: 0 <= i < cnt ==> DataByte(i) == data[i]
      {
        SetDataByte(cnt, data[cnt]);
      }
    }

    /** `writeTxRegisters`: whatever the registers held before, the frame can be read back if and only if its id
        fits its kind. */
    method WriteTxRegisters(id: bv32, extended: bool, length: byte, rtr: byte, priority: byte, data: seq<byte>)
      requires |data| == 8
      modifies this
      ensures DecodedId(mid) == (id, extended) <==> IdFits(id, extended)
      ensures IdFits(id, extended) ==> Holds(id, extended, data)
      ensures forall i :: 0 <= i < 8 ==> DataByte(i) == data[i]
      ensures mcr == WithField(old(mcr), Clamped(length))
      ensures msr == WithRtr(old(msr), rtr != 0)
      ensures mmr == WithField(old(mmr), priority)
    {
      SetId(id, extended);
      SetDataLen(length);
      SetRtr(rtr);
      SetPriority(priority);
      IdRoundTrip(id, extended);
      SetData(data);
    }

    /** `mailbox_read`: what was written is read. Of whatever else the id register holds, the bits that count are
        those of an id that fits its kind. Length, remote request and time stamp are those of the status register. */
    method Read() returns (id: bv32, extended: bool, data: seq<bv32>, status: (bv32, bool, bv32), fid: bv32)
      ensures forall i, e, d :: Holds(i, e, d) ==> (id, extended, data) == (i, e, d)
      ensures IdFits(id, extended) && IdRegister(id, extended) == SignificantId(mid)
      ensures |data| == 8 && forall i :: 0 <= i < 8 ==> data[i] == DataByte(i)
      ensures status == DecodedStatus(msr) && fid == mfid
    {
      status, fid := (FieldOf(msr), msr & RTR != 0, msr & 0xFFFF), mfid;
      if mid & MIDE == MIDE {
        id, extended := mid & MAX_EXTENDED, true;
      } else {
        id, extended := (mid >> 18) & MAX_STANDARD, false;
      }
      data := seq(8, i requires 0 <= i < 8 reads this => DataByte(i));
      DecodedIdFits(mid);
      forall i, e, d | Holds(i, e, d)
        ensures (id, extended, data) == (i, e, d)
      {
        IdRoundTrip(i, e);
        assert data == d;
      }
    }
  }
}
