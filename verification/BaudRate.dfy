/**
  The bit timing search of the CAN controller (`set_baudrate`, firmware/due_can.cpp): the number of
  time quanta per bit and the clock prescaler for a bit rate.
 */
module BaudRate {
  import opened Bytes

  const MAX_DIV: nat := 128
  const MIN_TQ: nat := 8
  const MAX_TQ: nat := 25

  /** Clock ticks left over per bit, and the clock divider, with `i` time quanta. */
  function Rest(mck: nat, baud: nat, i: nat): nat
    requires baud > 0 && i > 0
  {
    mck % (baud * i)
  }

  function Divider(mck: nat, baud: nat, i: nat): (q: nat)
    requires baud > 0 && i > 0
  {
    mck / (baud * i)
  }

  /** The divider fits the controller. */
  predicate Fits(mck: nat, baud: nat, i: nat)
    requires baud > 0 && i > 0
  {
    Divider(mck, baud, i) <= MAX_DIV
  }

  /** Among the first `n` candidates `tq` is the first with the least rest. */
  predicate Best(mck: nat, baud: nat, tq: nat, n: nat)
    requires baud > 0
  {
    && MIN_TQ <= tq < n && Fits(mck, baud, tq)
    && (forall i :: MIN_TQ <= i < n && Fits(mck, baud, i) ==> Rest(mck, baud, tq) <= Rest(mck, baud, i))
    && (forall i :: MIN_TQ <= i < tq && Fits(mck, baud, i) ==> Rest(mck, baud, tq) < Rest(mck, baud, i))
  }

  predicate NoneFits(mck: nat, baud: nat, n: nat)
    requires baud > 0
  {
    forall i :: MIN_TQ <= i < n ==> !Fits(mck, baud, i)
  }

  lemma Division(x: nat, d: nat)
    requires d > 0
    ensures (x / d) * d + x % d == x && x % d < d
  {
  }

  lemma DivisionAtMost(x: nat, d: nat, k: nat)
    requires d > 0
    ensures x / d <= k <==> x < (k + 1) * d
  {
    if x / d <= k {
      assert (x / d) * d <= k * d;
    } else {
      assert (x / d) * d >= (k + 1) * d;
    }
  }

  /** The first guard rounds up, and so rejects exactly the clocks above 128 * 25 * baud. */
  lemma Guard(mck: nat, n: nat)
    requires n > 0
    ensures (mck + (n - 1)) / n > MAX_DIV <==> mck > MAX_DIV * n
  {
    DivisionAtMost(mck + (n - 1), n, MAX_DIV);
  }

  lemma QuantaMonotone(baud: nat, i: nat, j: nat)
    requires i <= j
    ensures baud * i <= baud * j
  {
  }

  lemma RestBounds(mck: nat, baud: nat, i: nat)
    requires baud > 0 && i > 0
    ensures Rest(mck, baud, i) < baud * i && Rest(mck, baud, i) <= mck
    ensures Divider(mck, baud, i) == 0 <==> mck < baud * i
    ensures Divider(mck, baud, i) == 0 ==> Rest(mck, baud, i) == mck
  {
    Division(mck, baud * i);
    DivisionAtMost(mck, baud * i, 0);
  }

  lemma LastFits(mck: nat, baud: nat)
    requires baud > 0 && mck <= MAX_DIV * (baud * MAX_TQ)
    ensures Fits(mck, baud, MAX_TQ)
  {
    DivisionAtMost(mck, baud * MAX_TQ, MAX_DIV);
  }

  /** A candidate whose divider would be zero never wins. */
  lemma WinnerDivides(mck: nat, baud: nat, tq: nat)
    requires baud > 0 && MIN_TQ * baud <= mck && Best(mck, baud, tq, MAX_TQ + 1)
    ensures 1 <= Divider(mck, baud, tq) <= MAX_DIV
  {
    RestBounds(mck, baud, tq);
    RestBounds(mck, baud, MIN_TQ);
    QuantaMonotone(baud, tq, MAX_TQ);
    DivisionAtMost(mck, baud * MIN_TQ, MAX_DIV);
  }

  lemma WinnerRate(mck: nat, baud: nat, tq: nat)
    requires baud > 0 && tq > 0
    ensures Divider(mck, baud, tq) * (baud * tq) <= mck < (Divider(mck, baud, tq) + 1) * (baud * tq)
  {
    Division(mck, baud * tq);
  }

  /** A row of the timing table: propagation segment, the two phase segments, resynchronisation jump width, and the
      sample point in percent. */
  datatype Row = Row(prog: nat, phase1: nat, phase2: nat, sjw: nat, samplePoint: nat)

  /** The row for `tq` time quanta */
  function Segments(tq: nat): Row
    requires MIN_TQ <= tq <= MAX_TQ
  {
    match tq
    case 8 => Row(3, 2, 2, 3, 75)
    case 9 => Row(2, 3, 3, 2, 67)
    case 10 => Row(3, 3, 3, 3, 70)
    case 11 => Row(4, 3, 3, 3, 72)
    case 12 => Row(3, 4, 4, 3, 67)
    case 13 => Row(4, 4, 4, 3, 77)
    case 14 => Row(4, 4, 5, 3, 64)
    case 15 => Row(4, 5, 5, 3, 67)
    case 16 => Row(5, 5, 5, 3, 69)
    case 17 => Row(6, 5, 5, 3, 71)
    case 18 => Row(5, 6, 6, 3, 67)
    case 19 => Row(6, 6, 6, 3, 68)
    case 20 => Row(7, 6, 6, 3, 70)
    case 21 => Row(8, 6, 6, 3, 71)
    case 22 => Row(7, 7, 7, 3, 68)
    case 23 => Row(8, 8, 7, 3, 70)
    case 24 => Row(7, 8, 8, 3, 67)
    case _ => Row(8, 8, 8, 3, 68)
  }

  /** The length of a bit in time quanta: one for synchronisation and the three segments */
  function BitLength(row: Row): nat { 1 + row.prog + row.phase1 + row.phase2 }

  /** The row fits the register fields, and the second phase gives the controller time to process. */
  predicate Programmable(row: Row) {
    1 <= row.prog <= 8 && 1 <= row.phase1 <= 8 && 2 <= row.phase2 <= 8 && 1 <= row.sjw <= 4
  }

  /** The segments put the sample point at `percent`, but for less than one percent. */
  predicate SamplesAt(row: Row, percent: nat) {
    var exact, stated := 100 * (1 + row.prog + row.phase1), percent * BitLength(row);
    exact < stated + BitLength(row) && stated < exact + BitLength(row)
  }

  /** The table, against what its comments promise. Every row is programmable and adds up to its number of time
      quanta, except the one for 23. The phases are equal, but for 14 and 23. The sample point is right, but for 13,
      where it is 69. The jump width is the smaller of 4 and the first phase for 10 and 11 only, and larger than that
      phase for 8. */
  lemma TableChecked(tq: nat)
    requires MIN_TQ <= tq <= MAX_TQ
    ensures var row := Segments(tq);
            && Programmable(row) && BitLength(row) == (if tq == 23 then 24 else tq)
            && row.phase2 - row.phase1 == (if tq == 14 then 1 else if tq == 23 then -1 else 0)
            && (SamplesAt(row, row.samplePoint) <==> tq != 13) && (tq == 13 ==> SamplesAt(row, 69))
            && (row.sjw == Min(row.phase1, 4) <==> tq == 10 || tq == 11)
            && (row.sjw <= row.phase1 <==> tq != 8) && row.sjw == (if tq == 9 then 2 else 3)
  {
  }

  lemma BestIsUnique(mck: nat, baud: nat, j: nat, k: nat, n: nat)
    requires baud > 0 && Best(mck, baud, j, n) && Best(mck, baud, k, n)
    ensures j == k
  {
  }

  /** One quantum more than was counted on makes the bit too long, unless the rest makes up for it. */
  lemma OneQuantumMore(mck: nat, baud: nat, tq: nat)
    requires baud > 0 && tq > 0
    ensures var q := Divider(mck, baud, tq);
            && (q * (baud * (tq + 1)) <= mck <==> q * baud <= Rest(mck, baud, tq))
            && mck < (q + 1) * (baud * (tq + 1))
  {
    var q := Divider(mck, baud, tq);
    Division(mck, baud * tq);
    assert baud * (tq + 1) == baud * tq + baud;
    assert q * (baud * tq + baud) == q * (baud * tq) + q * baud;
    assert (q + 1) * (baud * tq + baud) == (q + 1) * (baud * tq) + (q + 1) * baud;
  }

  /** 23 quanta win, and what is left over per second does not make up for the 24th quantum of each bit. */
  predicate FallsShort(mck: nat, baud: nat)
    requires baud > 0
  {
    Best(mck, baud, 23, MAX_TQ + 1) && Rest(mck, baud, 23) < Divider(mck, baud, 23) * baud
  }

  /** The search succeeds exactly for clocks between 8 and 3200 times the bit rate. The bit that is then
      programmed has `prescale * length` clock ticks, where `prescale` is the quotient for the number of quanta
      that won, and `length` that number, except that 24 quanta are programmed when 23 won. The rate is too high
      by less than one part in `prescale`, and it is at least the wanted one unless `FallsShort`. */
  method SetBaudrate(mck: u32, baud: u32) returns (ok: bool, tq: nat, prescale: u8, row: Row)
    requires baud > 0 && mck + baud * MAX_TQ <= 0x1_0000_0000
    ensures ok <==> 8 * baud <= mck <= 3200 * baud
    ensures ok ==> Best(mck, baud, tq, MAX_TQ + 1) && prescale == Divider(mck, baud, tq)
    ensures ok ==> 8 <= tq <= 25 && 1 <= prescale <= 128
    ensures ok ==> prescale * (baud * tq) <= mck < (prescale + 1) * (baud * tq)
    ensures ok ==> row == Segments(tq) && BitLength(row) == if Best(mck, baud, 23, MAX_TQ + 1) then 24 else tq
    ensures ok ==> (prescale * (baud * BitLength(row)) <= mck <==> !FallsShort(mck, baud))
    ensures ok ==> mck < (prescale + 1) * (baud * BitLength(row))
  {
    tq, prescale, row := MIN_TQ, 0, Segments(MIN_TQ);
    Guard(mck, baud * MAX_TQ);
    if (mck + (baud * MAX_TQ - 1)) / (baud * MAX_TQ) > MAX_DIV { return false, tq, prescale, row; }
    if mck < baud * MIN_TQ { return false, tq, prescale, row; }
    tq := Search(mck, baud);
    WinnerDivides(mck, baud, tq);
    WinnerRate(mck, baud, tq);
    prescale := mck / (baud * tq);
    row := Segments(tq);
    TableChecked(tq);
    OneQuantumMore(mck, baud, tq);
    assert tq == 23 <==> Best(mck, baud, 23, MAX_TQ + 1) by {
      if Best(mck, baud, 23, MAX_TQ + 1) { BestIsUnique(mck, baud, tq, 23, MAX_TQ + 1); }
    }
    return true, tq, prescale, row;
  }

  lemma TooFewQuanta(mck: nat, baud: nat, i: nat, n: nat)
    requires baud > 0 && 0 < i <= n && (MAX_DIV + 1) * (baud * n) <= mck
    ensures !Fits(mck, baud, i)
  {
    QuantaMonotone(baud, i, n);
    DivisionAtMost(mck, baud * i, MAX_DIV);
  }

  /** With the 84 MHz clock of the SAM3X a bit rate of 30350 is programmed as 29166: 23 quanta win and fit 120
      times, and the bit that is programmed has 24. */
  lemma RateTooLow()
    ensures var (mck, baud) := (84_000_000, 30_350);
            && MIN_TQ * baud <= mck <= MAX_DIV * (baud * MAX_TQ) && FallsShort(mck, baud)
            && Divider(mck, baud, 23) == 120 && BitLength(Segments(23)) == 24 && mck / (120 * 24) == 29_166 < baud
  {
    var (mck, baud) := (84_000_000, 30_350);
    forall i | MIN_TQ <= i <= 21
      ensures !Fits(mck, baud, i)
    {
      TooFewQuanta(mck, baud, i, 21);
    }
    assert Rest(mck, baud, 22) == 537_500 && Rest(mck, baud, 25) == 537_500;
    assert Rest(mck, baud, 23) == 234_000 && Rest(mck, baud, 24) == 234_000;
    assert Divider(mck, baud, 23) == 120;
  }

  /** The loop of `set_baudrate` */
  method Search(mck: u32, baud: u32) returns (tq: nat)
    requires baud > 0 && mck + baud * MAX_TQ <= 0x1_0000_0000
    requires mck <= MAX_DIV * (baud * MAX_TQ)
    ensures Best(mck, baud, tq, MAX_TQ + 1)
  {
    LastFits(mck, baud);
    tq := MIN_TQ;
    var mod: nat := 0xFFFF_FFFF;
    for i := MIN_TQ to MAX_TQ + 1
      invariant MIN_TQ <= tq
      invariant (mod == 0xFFFF_FFFF && NoneFits(mck, baud, i))
             || (mod == Rest(mck, baud, tq) && Best(mck, baud, tq, i))
    {
      RestBounds(mck, baud, i);
      QuantaMonotone(baud, i, MAX_TQ);
      if Divider(mck, baud, i) <= MAX_DIV {
        var curMod := Rest(mck, baud, i);
        if curMod < mod {
          mod := curMod;
          tq := i;
          if mod == 0 { break; }
        }
      }
    }
  }
}
