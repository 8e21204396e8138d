/** Fixed-width integers of the firmware and the byte arithmetic they are packed with. */
module Bytes {
  type u8 = x: int | 0 <= x < 0x100
  type u16 = x: int | 0 <= x < 0x1_0000
  type u32 = x: int | 0 <= x < 0x1_0000_0000

  datatype Option<+T> = None | Some(value: T)

  function Min(x: int, y: int): int { if x <= y then x else y }

  /** Truncation of an `int` to `uint8_t`. */
  function U8(x: int): u8 { x % 0x100 }

  lemma ConcatAssociative<T>(a: seq<T>, b: seq<T>, c: seq<T>)
    ensures a + b + c == a + (b + c)
  {
  }

  /** Big-endian packing of a CAN id in the first four bytes of a message. */
  function Id(b: seq<u8>): u32
    requires |b| >= 4
  {
    var (b0: int, b1: int, b2: int, b3: int) := (b[0], b[1], b[2], b[3]);
    b0 * 0x100_0000 + b1 * 0x1_0000 + b2 * 0x100 + b3
  }

  function IdBytes(id: u32): (b: seq<u8>)
    ensures |b| == 4
  {
    var q1 := id / 0x100;
    var q2 := q1 / 0x100;
    [q2 / 0x100, q2 % 0x100, q1 % 0x100, id % 0x100]
  }

  lemma Digits(q: nat, r: u8)
    ensures (q * 0x100 + r) / 0x100 == q && (q * 0x100 + r) % 0x100 == r
  {
  }

  lemma IdBytesOfId(b: seq<u8>)
    requires |b| >= 4
    ensures IdBytes(Id(b)) == b[..4]
  {
    var (b0: int, b1: int, b2: int, b3: int) := (b[0], b[1], b[2], b[3]);
    Digits((b0 * 0x100 + b1) * 0x100 + b2, b[3]);
    Digits(b0 * 0x100 + b1, b[2]);
    Digits(b0, b[1]);
  }

  lemma IdOfIdBytes(id: u32)
    ensures Id(IdBytes(id)) == id
  {
  }

  /** The value of digits, the most significant first */
  function BigEndian(b: seq<u8>): nat {
    if b == [] then 0 else BigEndian(b[..|b| - 1]) * 0x100 + b[|b| - 1]
  }

  /** The value of digits, the least significant first */
  function LittleEndian(b: seq<u8>): nat {
    if b == [] then 0 else LittleEndian(b[1..]) * 0x100 + b[0]
  }

  lemma IdIsBigEndian(b: seq<u8>)
    requires |b| >= 4
    ensures Id(b) == BigEndian(b[..4])
  {
    var d := b[..4];
    assert d[..3] == b[..3] && b[..3][..2] == b[..2] && b[..2][..1] == b[..1] && b[..1][..0] == [];
    assert BigEndian(b[..1]) == b[0] && BigEndian(b[..2]) == BigEndian(b[..1]) * 0x100 + b[1];
    assert BigEndian(b[..3]) == BigEndian(b[..2]) * 0x100 + b[2];
  }

  /** Bitwise OR, bit by bit. */
  function BitOr(x: nat, y: nat): nat
    decreases x + y
  {
    if x == 0 && y == 0 then 0
    else BitOr(x / 2, y / 2) * 2 + (if x % 2 == 1 || y % 2 == 1 then 1 else 0)
  }

  /** `h << width` */
  function Shift(h: nat, width: nat): (r: nat)
    ensures r >= h
  {
    if width == 0 then h else 2 * Shift(h, width - 1)
  }

  /** ORing into bits that are clear is addition. */
  lemma {:induction false} BitOrDisjoint(h: nat, y: nat, width: nat)
    requires y < Shift(1, width)
    ensures BitOr(Shift(h, width), y) == Shift(h, width) + y
  {
    if width == 0 {
      BitOrZero(h);
    } else {
      BitOrDisjoint(h, y / 2, width - 1);
      BitOrStep(Shift(h, width - 1), y);
    }
  }

  /** ORing `y + (1 << width)` into `h << width` sets the lowest bit of `h` and keeps `y`. */
  lemma {:induction false} BitOrCarry(h: nat, y: nat, width: nat)
    requires y < Shift(1, width)
    ensures BitOr(Shift(h, width), Shift(1, width) + y) == Shift(BitOr(h, 1), width) + y
  {
    if width == 0 {
    } else {
      var p := Shift(1, width - 1);
      EvenPart(p, y);
      BitOrCarry(h, y / 2, width - 1);
      BitOrStep(Shift(h, width - 1), 2 * p + y);
    }
  }

  lemma EvenPart(p: nat, y: nat)
    ensures (2 * p + y) / 2 == p + y / 2 && (2 * p + y) % 2 == y % 2
  {
  }

  lemma BitOrStep(x: nat, y: nat)
    ensures BitOr(2 * x, y) == 2 * BitOr(x, y / 2) + y % 2
  {
    if x == 0 && y == 0 {
    } else {
      assert 2 * x / 2 == x && 2 * x % 2 == 0;
    }
  }

  lemma {:induction false} BitOrZero(x: nat)
    ensures BitOr(x, 0) == x == BitOr(0, x)
  {
    if x == 0 {
    } else {
      BitOrZero(x / 2);
    }
  }

  lemma {:induction false} BitOrBound(x: nat, y: nat)
    ensures BitOr(x, y) <= x + y
    decreases x + y
  {
    if x == 0 && y == 0 {
    } else {
      BitOrBound(x / 2, y / 2);
    }
  }

  lemma ShiftByEight(h: nat)
    ensures Shift(h, 8) == h * 0x100
  {
    assert Shift(h, 1) == 2 * Shift(h, 0);
    assert Shift(h, 3) == 2 * Shift(h, 2) == 4 * Shift(h, 1);
    assert Shift(h, 5) == 2 * Shift(h, 4) == 4 * Shift(h, 3);
    assert Shift(h, 7) == 2 * Shift(h, 6) == 4 * Shift(h, 5);
    assert Shift(h, 8) == 2 * Shift(h, 7);
  }
}
