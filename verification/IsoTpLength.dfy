/** What length a first frame carries from `sendMsg` to `send_ff_indication`. */
module IsoTpLength {
  import opened Bytes
  import opened CanFrame
  import opened IsoTp

  /** The receiver's OR loses a carry: the low byte plus four overflows into a bit that is set. */
  predicate LosesCarry(length: nat) { length % 0x100 >= 252 && length / 0x100 % 2 == 1 }

  /** A first frame's length field fits its twelve bits and survives the receiver's OR. */
  predicate DecodesCorrectly(length: nat) { length < 0x1000 && !LosesCarry(length) }

  /** The twelve-bit length field of a first frame (FF_DL). */
  function LengthField(d: Data): nat {
    var (hi: int, lo: int) := (d[0] % 0x10, d[1]);
    hi * 0x100 + lo
  }

  /** The size the peer reassembles when it is sent a first frame of a `size`-byte message (CAN id included). */
  function DecodedSize(size: nat): (decoded: nat)
    requires size >= 4
    ensures decoded <= size
    ensures decoded == size <==> DecodesCorrectly(size - 4)
    ensures decoded <= 4095
  {
    var length := size - 4;
    var field := length / 0x100 % 0x10 * 0x100 + length % 0x100;
    HighAndLow(length);
    field + 4 - (if LosesCarry(length) then 0x100 else 0)
  }

  /** The sizes of segmented messages of which the receiver expects more than the first frame carries. */
  predicate Transferable(size: nat) { 12 <= size <= 4099 || 4108 <= size <= PAYLOAD_SIZE }

  lemma DecodedRange(size: nat)
    requires 12 <= size <= PAYLOAD_SIZE
    ensures DecodedSize(size) <= size && (DecodedSize(size) >= 12 <==> Transferable(size))
    ensures size <= 4099 ==> DecodedSize(size) == if DecodesCorrectly(size - 4) then size else size - 0x100
    ensures size >= 4108 ==> DecodedSize(size) == size - (if LosesCarry(size - 4) then 0x1100 else 0x1000)
  {
    HighAndLow(size - 4);
  }

  lemma HighAndLow(length: nat)
    ensures var field := length / 0x100 % 0x10 * 0x100 + length % 0x100;
            && (length < 0x1000 ==> field == length)
            && (length >= 0x1000 ==> field < length)
    ensures length / 0x100 % 0x10 % 2 == length / 0x100 % 2
  {
    var h, lo := length / 0x100, length % 0x100;
    assert length == h * 0x100 + lo;
    assert h == h / 0x10 * 0x10 + h % 0x10;
  }

  lemma OrOfLength(hi: nat, lo: nat)
    requires lo < 0x100
    ensures BitOr(hi * 0x100, lo + 4) == hi * 0x100 + lo + 4 - (if lo >= 252 && hi % 2 == 1 then 0x100 else 0)
  {
    ShiftByEight(hi);
    ShiftByEight(1);
    if lo < 252 {
      BitOrDisjoint(hi, lo + 4, 8);
    } else {
      BitOrCarry(hi, lo + 4 - 0x100, 8);
      BitOrZero(hi / 2);
      ShiftByEight(BitOr(hi, 1));
    }
  }

  /** For every payload length, the header of `sendMsg` decodes in `send_ff_indication` to
      `length + 4` exactly when `DecodesCorrectly(length)`; a length below 4096 that does not is
      decoded 256 too small. */
  lemma FirstFrameLength(length: nat, d: Data)
    requires d[..2] == FirstFrameHeader(length)
    ensures FirstFrameSize(d) == length + 4 <==> DecodesCorrectly(length)
    ensures length < 0x1000 && !DecodesCorrectly(length) ==> FirstFrameSize(d) == length + 4 - 0x100
    ensures FirstFrameSize(d) == DecodedSize(length + 4)
  {
    var hi, lo := length / 0x100 % 0x10, length % 0x100;
    HighAndLow(length);
    assert d[0] == d[..2][0] == 0x10 + hi && d[1] == d[..2][1] == lo;
    assert FirstFrameSize(d) == BitOr(hi * 0x100, lo + 4);
    OrOfLength(hi, lo);
  }
}
