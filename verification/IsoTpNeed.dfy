/**
  How large a block size a message needs. The receiver sends a flow control after the first frame and after
  every eighth consecutive frame until it has what it expects, so the sender has to send up to eight frames on
  one flow control, or all those that are left after the last one.
 */
module IsoTpNeed {
  import opened IsoTp
  import opened IsoTpLength

  /** Consecutive frames the receiver takes before it has what it expects. */
  function FramesTaken(size: nat): (k: nat)
    requires size >= 12
  {
    FramesFor(DecodedSize(size))
  }

  /** Of `j` consecutive frames sent, those since the last one that made a receiver send a flow control
      which takes `taken` frames in all. */
  function Since(taken: nat, j: nat): (n: nat)
    ensures n <= j
  {
    if j == 0 || (j < taken && j % 8 == 0) then 0 else Since(taken, j - 1) + 1
  }

  /** The most consecutive frames that have to be sent on one flow control, of `frames` in all. */
  function MostAtOnce(taken: nat, frames: nat): nat {
    if taken > 8 && Since(taken, frames) < 8 then 8 else Since(taken, frames)
  }

  function Need(size: nat): nat
    requires size >= 12
  {
    MostAtOnce(FramesTaken(size), FramesFor(size))
  }

  /** On every flow control fewer frames than that have been sent before the next one. */
  ghost predicate Enough(size: nat, blockSize: nat)
    requires size >= 12
  {
    forall j :: 0 <= j < FramesFor(size) ==> Since(FramesTaken(size), j) < blockSize
  }

  /** A block size of 0 means no limit. */
  predicate Suffices(blockSize: nat, need: nat) { blockSize == 0 || blockSize >= need }

  lemma FramesRange(size: nat)
    requires Transferable(size)
    ensures 1 <= FramesTaken(size) <= FramesFor(size) < 0x1000
    ensures if DecodesCorrectly(size - 4) then FramesTaken(size) == FramesFor(size)
            else if size <= 4099 then 36 <= FramesFor(size) - FramesTaken(size) <= 37
            else 585 <= FramesFor(size) - FramesTaken(size) <= 622
  {
    DecodedRange(size);
    FramesForBounds(size);
    FramesForBounds(DecodedSize(size));
  }

  lemma EighthFrame(j: nat)
    ensures (j + 1) % 8 == if j % 8 == 7 then 0 else j % 8 + 1
  {
  }

  lemma {:induction false} SinceClosed(taken: nat, j: nat)
    requires taken >= 1
    ensures Since(taken, j) == if j < taken then j % 8 else j - taken + 1 + (taken - 1) % 8
  {
    if j == 0 {
    } else {
      SinceClosed(taken, j - 1);
      EighthFrame(j - 1);
    }
  }

  /** Blocks of eight are enough for lengths that decode correctly. The others (508 is the shortest) leave 36 or
      37 frames after the receiver has finished, and need blocks of 37 to 45; those that do not fit a first frame
      leave more than any flow control can allow but the one without limit. */
  lemma NeedRange(size: nat)
    requires Transferable(size)
    ensures if DecodesCorrectly(size - 4) then 1 <= Need(size) <= 8
            else if size <= 4099 then 37 <= Need(size) <= 45
            else 586 <= Need(size) <= 630
  {
    FramesRange(size);
    SinceClosed(FramesTaken(size), FramesFor(size));
  }

  /** One flow control answers the message: its receiver has what it expects after eight consecutive frames or
      fewer. */
  predicate AnsweredOnce(size: nat)
    requires size >= 12
  {
    FramesTaken(size) <= 8
  }

  lemma OnceRange(size: nat)
    requires Transferable(size)
    ensures AnsweredOnce(size) <==> size <= 66 || 4108 <= size <= 4162
  {
    DecodedRange(size);
    FramesForBounds(DecodedSize(size));
  }

  lemma SinceBelowMost(taken: nat, frames: nat, j: nat)
    requires 1 <= taken <= frames && j < frames
    ensures Since(taken, j) < MostAtOnce(taken, frames)
  {
    SinceClosed(taken, j);
    SinceClosed(taken, frames);
    assert taken <= 8 ==> (taken - 1) % 8 == taken - 1;
  }

  lemma MostIsReached(taken: nat, frames: nat) returns (j: nat)
    requires 1 <= taken <= frames
    ensures j < frames && Since(taken, j) + 1 == MostAtOnce(taken, frames)
  {
    if taken > 8 && Since(taken, frames) < 8 {
      j := 7;
      SinceClosed(taken, j);
    } else {
      j := frames - 1;
    }
  }

  /** `Need` is the smallest block size that is enough. */
  lemma NeedIsLeast(size: nat, blockSize: nat)
    requires Transferable(size)
    ensures Enough(size, blockSize) <==> Need(size) <= blockSize
  {
    FramesRange(size);
    var taken, frames := FramesTaken(size), FramesFor(size);
    if Need(size) <= blockSize {
      forall j | 0 <= j < frames
        ensures Since(taken, j) < blockSize
      {
        SinceBelowMost(taken, frames, j);
      }
    } else {
      var j := MostIsReached(taken, frames);
      assert !(Since(taken, j) < blockSize);
    }
  }
}
