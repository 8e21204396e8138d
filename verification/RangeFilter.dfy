/**
  The acceptance filter for a range of CAN ids (`watchForRange`, firmware/can_common.cpp). The loop
  visits every id of the range; its result is the common prefix of the two ends, so the filter accepts
  the smallest aligned block of ids that holds the range.

  The bitwise operators are defined bit by bit; all operands are below 2^32.
 */
module RangeFilter {
  const MAX_STANDARD: nat := 0x7FF
  const MAX_EXTENDED: nat := 0x1FFF_FFFF
  const ALL: nat := 0xFFFF_FFFF

  /** `x & y` */
  function And(x: nat, y: nat): nat {
    if x == 0 then 0 else 2 * And(x / 2, y / 2) + (if x % 2 == 1 && y % 2 == 1 then 1 else 0)
  }

  /** `x ^ y` */
  function Xor(x: nat, y: nat): nat
    decreases x + y
  {
    if x == 0 && y == 0 then 0 else 2 * Xor(x / 2, y / 2) + (if x % 2 != y % 2 then 1 else 0)
  }

  /** `x & ~y` */
  function AndNot(x: nat, y: nat): nat {
    if x == 0 then 0 else 2 * AndNot(x / 2, y / 2) + (if x % 2 == 1 && y % 2 == 0 then 1 else 0)
  }

  lemma Halves(x: nat, bit: nat)
    requires bit < 2
    ensures (2 * x + bit) / 2 == x && (2 * x + bit) % 2 == bit
  {
  }

  lemma {:induction false} XorTwice(x: nat, y: nat)
    ensures Xor(Xor(x, y), y) == x
    decreases x + y
  {
    if x == 0 && y == 0 {
    } else {
      XorTwice(x / 2, y / 2);
      Halves(Xor(x / 2, y / 2), if x % 2 != y % 2 then 1 else 0);
    }
  }

  lemma {:induction false} XorSymmetric(x: nat, y: nat)
    ensures Xor(x, y) == Xor(y, x)
    decreases x + y
  {
    if x == 0 && y == 0 {
    } else {
      XorSymmetric(x / 2, y / 2);
    }
  }

  lemma {:induction false} AndSelf(x: nat)
    ensures And(x, x) == x
  {
    if x == 0 {
    } else {
      AndSelf(x / 2);
    }
  }

  lemma {:induction false} XorSelf(x: nat)
    ensures Xor(x, x) == 0
  {
    if x == 0 {
    } else {
      XorSelf(x / 2);
    }
  }

  lemma {:induction false} AndTwice(x: nat, y: nat)
    ensures And(And(x, y), y) == And(x, y)
  {
    if x == 0 {
    } else {
      AndTwice(x / 2, y / 2);
      Halves(And(x / 2, y / 2), if x % 2 == 1 && y % 2 == 1 then 1 else 0);
    }
  }

  lemma {:induction false} AndNotTwice(x: nat, y: nat)
    ensures AndNot(AndNot(x, y), y) == AndNot(x, y)
  {
    if x == 0 {
    } else {
      AndNotTwice(x / 2, y / 2);
      Halves(AndNot(x / 2, y / 2), if x % 2 == 1 && y % 2 == 0 then 1 else 0);
    }
  }

  lemma {:induction false} AndNotZero(x: nat)
    ensures AndNot(x, 0) == x
  {
    if x == 0 {
    } else {
      AndNotZero(x / 2);
    }
  }

  /** `w` is `2^k - 1` for some `k`. */
  predicate Ones(w: nat) { w == 0 || (w % 2 == 1 && Ones(w / 2)) }

  /** `x & (~z & e)` in the width of `o` */
  lemma {:induction false} MaskedComplement(x: nat, z: nat, o: nat, e: nat)
    requires Ones(o) && Ones(e) && x <= e <= o && z <= o
    ensures And(x, And(o - z, e)) == AndNot(x, z)
    decreases x
  {
    if x == 0 {
    } else {
      MaskedComplement(x / 2, z / 2, o / 2, e / 2);
      assert (o - z) / 2 == o / 2 - z / 2 && (o - z) % 2 == 1 - z % 2;
      if o != z {
        Halves(And((o - z) / 2, e / 2), if (o - z) % 2 == 1 then 1 else 0);
      }
    }
  }

  // ---------------------------------------------------------------------------------------------
  // The loop

  /** `id` and `mask` after the loop has visited `low .. c - 1`. */
  function IdOf(low: nat, c: nat): nat
    requires low <= c
  {
    if c == low then low else And(IdOf(low, c - 1), c - 1)
  }

  function MaskOf(low: nat, c: nat, width: nat): nat
    requires low <= c
  {
    if c == low then width else AndNot(MaskOf(low, c - 1, width), Xor(low, c - 1))
  }

  /** The common prefix of `low` and `high`, the mask that selects it, and the number of ids with it. */
  function Prefix(low: nat, high: nat): nat
    requires low <= high
    decreases high
  {
    if low == high then low else 2 * Prefix(low / 2, high / 2)
  }

  function PrefixMask(low: nat, high: nat, width: nat): nat
    requires low <= high
    decreases high
  {
    if low == high then width else 2 * PrefixMask(low / 2, high / 2, width / 2)
  }

  function BlockSize(low: nat, high: nat): nat
    requires low <= high
    decreases high
  {
    if low == high then 1 else 2 * BlockSize(low / 2, high / 2)
  }

  function Width(high: nat): nat { if high <= MAX_STANDARD then MAX_STANDARD else MAX_EXTENDED }

  lemma AndHalves(x: nat, y: nat)
    ensures And(x, y) / 2 == And(x / 2, y / 2) && And(x, y) % 2 == if x % 2 == 1 && y % 2 == 1 then 1 else 0
  {
    Halves(And(x / 2, y / 2), if x % 2 == 1 && y % 2 == 1 then 1 else 0);
  }

  lemma AndNotHalves(x: nat, y: nat)
    ensures AndNot(x, y) / 2 == AndNot(x / 2, y / 2)
    ensures AndNot(x, y) % 2 == if x % 2 == 1 && y % 2 == 0 then 1 else 0
  {
    Halves(AndNot(x / 2, y / 2), if x % 2 == 1 && y % 2 == 0 then 1 else 0);
  }

  lemma XorHalves(x: nat, y: nat)
    ensures Xor(x, y) / 2 == Xor(x / 2, y / 2) && Xor(x, y) % 2 == if x % 2 != y % 2 then 1 else 0
  {
    Halves(Xor(x / 2, y / 2), if x % 2 != y % 2 then 1 else 0);
  }

  /** Halving every id of a run halves what the loop computes from it. */
  lemma {:induction false} IdHalves(low: nat, c: nat)
    requires low <= c
    ensures IdOf(low, c + 1) / 2 == IdOf(low / 2, c / 2 + 1)
    decreases c
  {
    AndHalves(IdOf(low, c), c);
    if c == low {
    } else {
      IdHalves(low, c - 1);
      AndTwice(IdOf(low / 2, c / 2), c / 2);
    }
  }

  lemma {:induction false} IdIsEven(low: nat, c: nat)
    requires low < c
    ensures IdOf(low, c + 1) % 2 == 0
    decreases c
  {
    AndHalves(IdOf(low, c), c);
    if c == low + 1 {
      AndHalves(low, low);
    } else {
      IdIsEven(low, c - 1);
    }
  }

  lemma {:induction false} IdIsPrefix(low: nat, high: nat)
    requires low <= high
    ensures IdOf(low, high + 1) == Prefix(low, high)
    decreases high
  {
    if low == high {
      AndSelf(low);
    } else {
      IdIsPrefix(low / 2, high / 2);
      IdHalves(low, high);
      IdIsEven(low, high);
    }
  }

  lemma {:induction false} MaskHalves(low: nat, c: nat, width: nat)
    requires low <= c
    ensures MaskOf(low, c + 1, width) / 2 == MaskOf(low / 2, c / 2 + 1, width / 2)
    decreases c
  {
    AndNotHalves(MaskOf(low, c, width), Xor(low, c));
    XorHalves(low, c);
    if c == low {
    } else {
      MaskHalves(low, c - 1, width);
      AndNotTwice(MaskOf(low / 2, c / 2, width / 2), Xor(low / 2, c / 2));
    }
  }

  lemma {:induction false} MaskIsEven(low: nat, c: nat, width: nat)
    requires low < c
    ensures MaskOf(low, c + 1, width) % 2 == 0
    decreases c
  {
    AndNotHalves(MaskOf(low, c, width), Xor(low, c));
    XorHalves(low, c);
    if c == low + 1 {
    } else {
      MaskIsEven(low, c - 1, width);
    }
  }

  lemma {:induction false} MaskIsPrefixMask(low: nat, high: nat, width: nat)
    requires low <= high
    ensures MaskOf(low, high + 1, width) == PrefixMask(low, high, width)
    decreases high
  {
    if low == high {
      XorSelf(low);
      AndNotZero(width);
    } else {
      MaskIsPrefixMask(low / 2, high / 2, width / 2);
      MaskHalves(low, high, width);
      MaskIsEven(low, high, width);
    }
  }

  lemma {:induction false} XorBound(x: nat, y: nat, w: nat)
    requires Ones(w) && x <= w && y <= w
    ensures Xor(x, y) <= w
    decreases x + y
  {
    if x == 0 && y == 0 {
    } else {
      XorBound(x / 2, y / 2, w / 2);
    }
  }

  lemma {:induction false} AndNotBound(x: nat, y: nat)
    ensures AndNot(x, y) <= x
  {
    if x == 0 {
    } else {
      AndNotBound(x / 2, y / 2);
    }
  }

  lemma OneMore(w: nat)
    requires Ones(w)
    ensures Ones(2 * w + 1)
  {
    Halves(w, 1);
  }

  lemma OnesNibble(w: nat)
    requires Ones(w)
    ensures Ones(16 * w + 15)
  {
    OneMore(w);
    OneMore(2 * w + 1);
    OneMore(4 * w + 3);
    OneMore(8 * w + 7);
  }

  lemma WidthsAreOnes()
    ensures Ones(ALL) && Ones(MAX_EXTENDED) && Ones(MAX_STANDARD)
  {
    OnesNibble(0x7);
    OnesNibble(0x7F);
    OnesNibble(0x1);
    OnesNibble(0x1F);
    OnesNibble(0x1FF);
    OnesNibble(0x1FFF);
    OnesNibble(0x1_FFFF);
    OnesNibble(0x1F_FFFF);
    OnesNibble(0x1FF_FFFF);
    OnesNibble(0xF);
    OnesNibble(0xFF);
    OnesNibble(0xFFF);
    OnesNibble(0xFFFF);
    OnesNibble(0xF_FFFF);
    OnesNibble(0xFF_FFFF);
    OnesNibble(0xFFF_FFFF);
  }

  /** The exchange of two words without a third one. */
  lemma Swap(x: nat, y: nat)
    ensures Xor(Xor(x, y), y) == x && Xor(Xor(x, y), x) == y
  {
    XorTwice(x, y);
    XorSymmetric(x, y);
    XorTwice(y, x);
  }

  lemma MaskStep(low: nat, c: nat, mask: nat)
    requires low <= MAX_EXTENDED && c <= MAX_EXTENDED && mask <= MAX_EXTENDED
    ensures Xor(low, c) <= ALL
    ensures And(mask, And(ALL - Xor(low, c), MAX_EXTENDED)) == AndNot(mask, Xor(low, c)) <= MAX_EXTENDED
  {
    WidthsAreOnes();
    XorBound(low, c, ALL);
    MaskedComplement(mask, Xor(low, c), ALL, MAX_EXTENDED);
    AndNotBound(mask, Xor(low, c));
  }

  // ---------------------------------------------------------------------------------------------
  // What the filter lets through

  /** The controller compares `x` with the filter id in the bits of the mask. */
  predicate Accepts(id: nat, mask: nat, x: nat) { And(x, mask) == And(id, mask) }

  predicate InBlock(base: nat, size: nat, x: nat) { base <= x < base + size }

  /** `base .. base + size - 1` is an aligned block: `size` is a power of two that divides `base`. */
  predicate Aligned(base: nat, size: nat) {
    size == 1 || (size > 0 && size % 2 == 0 && base % 2 == 0 && Aligned(base / 2, size / 2))
  }

  lemma {:induction false} AndAll(x: nat, w: nat)
    requires Ones(w) && x <= w
    ensures And(x, w) == x
  {
    if x == 0 {
    } else {
      AndAll(x / 2, w / 2);
    }
  }

  /** Of the ids that fit the mask's width the filter accepts exactly an aligned block, whose size is a
      power of two. */
  lemma {:induction false} AcceptsBlock(low: nat, high: nat, width: nat, x: nat)
    requires low <= high <= width && Ones(width) && x <= width
    ensures Accepts(Prefix(low, high), PrefixMask(low, high, width), x)
       <==> InBlock(Prefix(low, high), BlockSize(low, high), x)
    decreases high
  {
    if low == high {
      AndAll(x, width);
      AndAll(low, width);
    } else {
      AcceptsBlock(low / 2, high / 2, width / 2, x / 2);
      AndHalves(x, PrefixMask(low, high, width));
      AndHalves(Prefix(low, high), PrefixMask(low, high, width));
    }
  }

  lemma DoubleIsAligned(base: nat, size: nat)
    requires Aligned(base, size)
    ensures Aligned(2 * base, 2 * size)
  {
    Halves(base, 0);
    Halves(size, 0);
  }

  lemma {:induction false} BlockIsAligned(low: nat, high: nat)
    requires low <= high
    ensures Aligned(Prefix(low, high), BlockSize(low, high))
    decreases high
  {
    if low == high {
    } else {
      BlockIsAligned(low / 2, high / 2);
      DoubleIsAligned(Prefix(low / 2, high / 2), BlockSize(low / 2, high / 2));
    }
  }

  lemma {:induction false} RangeInBlock(low: nat, high: nat, x: nat)
    requires low <= x <= high
    ensures InBlock(Prefix(low, high), BlockSize(low, high), x)
    decreases high
  {
    if low == high {
    } else {
      RangeInBlock(low / 2, high / 2, x / 2);
    }
  }

  /** The block is inside every aligned power-of-two block that holds both ends of the range. */
  lemma {:induction false} SmallestBlock(low: nat, high: nat, base: nat, size: nat, x: nat)
    requires low <= high
    requires Aligned(base, size) && InBlock(base, size, low) && InBlock(base, size, high)
    requires InBlock(Prefix(low, high), BlockSize(low, high), x)
    ensures InBlock(base, size, x)
    decreases high
  {
    if low == high {
    } else {
      SmallestBlock(low / 2, high / 2, base / 2, size / 2, x / 2);
    }
  }

  /** A mask that admits a range admits the range of halves, */
  lemma AdmitsHalves(low: nat, high: nat, id: nat, mask: nat, y: nat)
    requires low < high && low / 2 <= y <= high / 2
    requires forall x :: low <= x <= high ==> Accepts(id, mask, x)
    ensures Accepts(id / 2, mask / 2, y)
  {
    var x := if 2 * y < low then low else 2 * y;
    assert Accepts(id, mask, x);
    AndHalves(x, mask);
    AndHalves(id, mask);
  }

  /** and is even if the range has an even and an odd id. */
  lemma AdmitsBoth(low: nat, high: nat, id: nat, mask: nat)
    requires low < high
    requires forall x :: low <= x <= high ==> Accepts(id, mask, x)
    ensures mask % 2 == 0
  {
    assert Accepts(id, mask, low) && Accepts(id, mask, low + 1);
    AndHalves(low, mask);
    AndHalves(low + 1, mask);
  }

  /** Every mask within the width that admits the whole range, with whatever id, is part of the
      filter's mask. */
  lemma {:induction false} LargestMask(low: nat, high: nat, width: nat, id: nat, mask: nat)
    requires low <= high && Ones(width) && mask <= width
    requires forall x :: low <= x <= high ==> Accepts(id, mask, x)
    ensures And(mask, PrefixMask(low, high, width)) == mask
    decreases high
  {
    if low == high {
      AndAll(mask, width);
    } else {
      forall y | low / 2 <= y <= high / 2
        ensures Accepts(id / 2, mask / 2, y)
      {
        AdmitsHalves(low, high, id, mask, y);
      }
      LargestMask(low / 2, high / 2, width / 2, id / 2, mask / 2);
      AdmitsBoth(low, high, id, mask);
      AndHalves(mask, PrefixMask(low, high, width));
    }
  }

  /** The filter for a range, in the width that its end needs */
  lemma FilterAcceptsBlock(low: nat, high: nat)
    requires low <= high <= MAX_EXTENDED
    ensures forall x :: 0 <= x <= Width(high) ==>
              (Accepts(Prefix(low, high), PrefixMask(low, high, Width(high)), x)
               <==> InBlock(Prefix(low, high), BlockSize(low, high), x))
  {
    WidthsAreOnes();
    forall x: nat | x <= Width(high)
      ensures Accepts(Prefix(low, high), PrefixMask(low, high, Width(high)), x)
         <==> InBlock(Prefix(low, high), BlockSize(low, high), x)
    {
      AcceptsBlock(low, high, Width(high), x);
    }
  }

  /** `watchForRange`: the loop over all ids of the range */
  method WatchForRange(id1: nat, id2: nat) returns (id: nat, mask: nat, extended: bool)
    requires id1 <= MAX_EXTENDED && id2 <= MAX_EXTENDED
    ensures var low, high := if id1 <= id2 then id1 else id2, if id1 <= id2 then id2 else id1;
            id == Prefix(low, high) && mask == PrefixMask(low, high, Width(high))
    ensures var low, high := if id1 <= id2 then id1 else id2, if id1 <= id2 then id2 else id1;
            forall x :: 0 <= x <= (if high <= 0x7FF then 0x7FF else 0x1FFF_FFFF) ==>
              (Accepts(id, mask, x) <==> InBlock(Prefix(low, high), BlockSize(low, high), x))
    ensures extended == (id > MAX_STANDARD)
  {
    var low, high := id1, id2;
    if low > high {
      Swap(id1, id2);
      low := Xor(low, high);
      high := Xor(low, high);
      low := Xor(low, high);
    }
    id := low;
    mask := if high <= 0x7FF then 0x7FF else 0x1FFF_FFFF;
    var c := low;
    while c <= high
      invariant low <= c <= high + 1
      invariant id == IdOf(low, c)
      invariant mask == MaskOf(low, c, Width(high)) <= MAX_EXTENDED
    {
      id := And(id, c);
      MaskStep(low, c, mask);
      var temp := And(ALL - Xor(low, c), MAX_EXTENDED);
      mask := And(mask, temp);
      c := c + 1;
    }
    IdIsPrefix(low, high);
    MaskIsPrefixMask(low, high, Width(high));
    FilterAcceptsBlock(low, high);
    extended := id > 0x7FF;
  }
}
