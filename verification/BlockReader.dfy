/**
  The driver's reader for the M2 (driver/src/comm.rs), whose firmware sends every message as a struct of
  8192 bytes. Bytes are collected in a buffer of 16 structs; complete structs are taken off its front.
 */
module BlockReader {
  import opened Bytes
  import opened SerialFraming

  /** The `COMM_MSG` struct of the firmware; `padding` is what is left in the argument array. */
  function Pack(m: Message, padding: seq<u8>): (b: seq<u8>)
    requires Sendable(m) && |m.args| + |padding| == COMM_MSG_ARG_SIZE
    ensures |b| == COMM_MSG_SIZE
  {
    [m.id, m.kind] + LengthBytes(|m.args|) + m.args + padding
  }

  /** A struct whose size field is within its argument array; `from_vec` panics on others. */
  predicate IsStruct(b: seq<u8>) {
    |b| == COMM_MSG_SIZE && LengthField(b[2..4]) <= COMM_MSG_ARG_SIZE
  }

  /** `CommMsg::from_vec` */
  function FromVec(b: seq<u8>): Message
    requires IsStruct(b)
  {
    Message(b[0], MsgTypeOf(b[1]), b[4..LengthField(b[2..4]) + 4])
  }

  /** The struct has 8192 bytes, and what was packed comes out of it. */
  lemma PackRoundTrip(m: Message, padding: seq<u8>)
    requires Sendable(m) && |m.args| + |padding| == COMM_MSG_ARG_SIZE
    ensures |Pack(m, padding)| == 8192 && IsStruct(Pack(m, padding)) && FromVec(Pack(m, padding)) == m
  {
    var b := Pack(m, padding);
    assert b[2..4] == LengthBytes(|m.args|);
    LengthRoundTrip(|m.args|);
    assert b[4..|m.args| + 4] == m.args;
  }

  /** Whatever struct arrives, its type is known or unknown and its data are the announced bytes behind the header. */
  lemma WhatIsUnpacked(b: seq<u8>)
    requires IsStruct(b)
    ensures var m, known := FromVec(b), b[1] <= 9 || 0x10 <= b[1] <= 0x11 || 0xAA <= b[1] <= 0xAB;
            && m.id == b[0] && m.kind == (if known then b[1] else 0)
            && m.args <= b[4..] && |m.args| == LittleEndian(b[2..4])
  {
    TypesSurvive(Unknown, b[1]);
    LengthIsLittleEndian(b[2..4]);
    assert b[2..4][..2] == b[2..4];
  }

  /** The complete structs at the front of `bytes`, and the rest. */
  function Split(bytes: seq<u8>): (r: (seq<seq<u8>>, seq<u8>))
    ensures |r.1| < COMM_MSG_SIZE
    ensures forall b :: b in r.0 ==> |b| == COMM_MSG_SIZE
  {
    if |bytes| < COMM_MSG_SIZE then ([], bytes)
    else
      var tail := Split(bytes[COMM_MSG_SIZE..]);
      ([bytes[..COMM_MSG_SIZE]] + tail.0, tail.1)
  }

  function Flatten<T>(parts: seq<seq<T>>): seq<T> {
    if parts == [] then [] else parts[0] + Flatten(parts[1..])
  }

  /** What comes before what is split later makes no difference. */
  lemma {:induction false} SplitInSteps(a: seq<u8>, b: seq<u8>)
    ensures Split(a + b) == (Split(a).0 + Split(Split(a).1 + b).0, Split(Split(a).1 + b).1)
    decreases |a|
  {
    if |a| >= COMM_MSG_SIZE {
      SplitInSteps(a[COMM_MSG_SIZE..], b);
      assert (a + b)[COMM_MSG_SIZE..] == a[COMM_MSG_SIZE..] + b;
      assert (a + b)[..COMM_MSG_SIZE] == a[..COMM_MSG_SIZE];
      var tail := Split(a[COMM_MSG_SIZE..]);
      ConcatAssociative([a[..COMM_MSG_SIZE]], tail.0, Split(tail.1 + b).0);
    } else {
      assert [] + Split(a + b).0 == Split(a + b).0;
    }
  }

  lemma {:induction false} SplitOfBlocks(blocks: seq<seq<u8>>, tail: seq<u8>)
    requires forall b :: b in blocks ==> |b| == COMM_MSG_SIZE
    requires |tail| < COMM_MSG_SIZE
    ensures Split(Flatten(blocks) + tail) == (blocks, tail)
    decreases |blocks|
  {
    if blocks == [] {
      assert Flatten(blocks) + tail == tail;
    } else {
      var rest := Flatten(blocks[1..]) + tail;
      ConcatAssociative(blocks[0], Flatten(blocks[1..]), tail);
      assert Flatten(blocks) + tail == blocks[0] + rest;
      assert (blocks[0] + rest)[COMM_MSG_SIZE..] == rest && (blocks[0] + rest)[..COMM_MSG_SIZE] == blocks[0];
      SplitOfBlocks(blocks[1..], tail);
      assert [blocks[0]] + blocks[1..] == blocks;
    }
  }

  /** The reader after a number of reads: the structs taken off and the bytes left. */
  function ReadAll(pending: seq<u8>, chunks: seq<seq<u8>>): (seq<seq<u8>>, seq<u8>)
    decreases |chunks|
  {
    if chunks == [] then ([], pending)
    else
      var first := Split(pending + chunks[0]);
      var later := ReadAll(first.1, chunks[1..]);
      (first.0 + later.0, later.1)
  }

  lemma {:induction false} ChunkingIrrelevant(pending: seq<u8>, chunks: seq<seq<u8>>)
    requires |pending| < COMM_MSG_SIZE
    ensures ReadAll(pending, chunks) == Split(pending + Flatten(chunks))
    decreases |chunks|
  {
    if chunks == [] {
      assert pending + Flatten(chunks) == pending;
    } else {
      ConcatAssociative(pending, chunks[0], Flatten(chunks[1..]));
      SplitInSteps(pending + chunks[0], Flatten(chunks[1..]));
      ChunkingIrrelevant(Split(pending + chunks[0]).1, chunks[1..]);
    }
  }

  /** The messages of the structs in `blocks` */
  predicate Unpacks(blocks: seq<seq<u8>>, msgs: seq<Message>) {
    |blocks| == |msgs| && forall i :: 0 <= i < |msgs| ==> IsStruct(blocks[i]) && FromVec(blocks[i]) == msgs[i]
  }

  /** However the structs of a sequence of messages, and the beginning of one more, are cut into reads,
      the reader takes off exactly the messages, in order, and leaves the beginning at the front. */
  lemma AnyChunking(msgs: seq<Message>, blocks: seq<seq<u8>>, tail: seq<u8>, chunks: seq<seq<u8>>)
    requires Unpacks(blocks, msgs) && |tail| < COMM_MSG_SIZE
    requires Flatten(chunks) == Flatten(blocks) + tail
    ensures Unpacks(ReadAll([], chunks).0, msgs) && ReadAll([], chunks).1 == tail
  {
    ChunkingIrrelevant([], chunks);
    assert [] + Flatten(chunks) == Flatten(chunks);
    SplitOfBlocks(blocks, tail);
  }

  lemma SplitStep(all: seq<u8>, taken: seq<seq<u8>>, pending: seq<u8>)
    requires Split(all) == (taken + Split(pending).0, Split(pending).1) && |pending| >= COMM_MSG_SIZE
    ensures pending[..COMM_MSG_SIZE] in Split(all).0
    ensures Split(all) == (taken + [pending[..COMM_MSG_SIZE]] + Split(pending[COMM_MSG_SIZE..]).0,
                           Split(pending[COMM_MSG_SIZE..]).1)
  {
    ConcatAssociative(taken, [pending[..COMM_MSG_SIZE]], Split(pending[COMM_MSG_SIZE..]).0);
    assert Split(pending).0[0] == pending[..COMM_MSG_SIZE];
  }

  class BlockPort {
    const readBuffer: array<u8>
    var readCount: nat

    /** Between reads less than one struct is in the buffer, so that a read never finds it full. */
    ghost predicate Valid()
      reads this
    {
      readBuffer.Length == COMM_MSG_SIZE * MAX_BUFFER_SIZE && readCount < COMM_MSG_SIZE
    }

    ghost function Pending(): seq<u8>
      requires readCount <= readBuffer.Length
      reads this, readBuffer
    {
      readBuffer[..readCount]
    }

    constructor ()
      ensures Valid() && Pending() == []
    {
      readBuffer := new u8[COMM_MSG_SIZE * MAX_BUFFER_SIZE];
      readCount := 0;
    }

    /** One pass of the reader thread; the serial port filled in `incoming`. */
    method ReadOnce(incoming: seq<u8>) returns (msgs: seq<Message>)
      requires Valid() && |incoming| <= readBuffer.Length - readCount
      requires forall b :: b in Split(Pending() + incoming).0 ==> IsStruct(b)
      modifies this, readBuffer
      ensures Valid()
      ensures Unpacks(Split(old(Pending()) + incoming).0, msgs)
      ensures Pending() == Split(old(Pending()) + incoming).1
    {
      Receive(incoming);
      msgs := [];
      ghost var all, taken: seq<seq<u8>> := Pending(), [];
      assert taken + Split(all).0 == Split(all).0;
      while readCount >= COMM_MSG_SIZE
        invariant readCount <= readBuffer.Length
        invariant Split(all) == (taken + Split(Pending()).0, Split(Pending()).1)
        invariant Unpacks(taken, msgs)
      {
        ghost var block := Pending()[..COMM_MSG_SIZE];
        SplitStep(all, taken, Pending());
        var msg := TakeStruct();
        msgs := msgs + [msg];
        taken := taken + [block];
      }
    }

    method Receive(incoming: seq<u8>)
      requires Valid() && |incoming| <= readBuffer.Length - readCount
      modifies this, readBuffer
      ensures readCount <= readBuffer.Length && Pending() == old(Pending()) + incoming
    {
      forall i | 0 <= i < |incoming| { readBuffer[readCount + i] := incoming[i]; }
      assert readBuffer[readCount..readCount + |incoming|] == incoming;
      assert readBuffer[..readCount + |incoming|]
          == readBuffer[..readCount] + readBuffer[readCount..readCount + |incoming|];
      readCount := readCount + |incoming|;
    }

    /** Takes the first struct off the buffer. */
    method TakeStruct() returns (msg: Message)
      requires COMM_MSG_SIZE <= readCount <= readBuffer.Length == COMM_MSG_SIZE * MAX_BUFFER_SIZE
      requires IsStruct(Pending()[..COMM_MSG_SIZE])
      modifies this, readBuffer
      ensures readCount == old(readCount) - COMM_MSG_SIZE && Pending() == old(Pending())[COMM_MSG_SIZE..]
      ensures msg == FromVec(old(Pending())[..COMM_MSG_SIZE])
    {
      assert readBuffer[..COMM_MSG_SIZE] == Pending()[..COMM_MSG_SIZE];
      msg := FromVec(readBuffer[..COMM_MSG_SIZE]);
      ShiftDown();
    }

    /** Moves everything behind the first struct to the front. */
    method ShiftDown()
      requires COMM_MSG_SIZE <= readCount <= readBuffer.Length == COMM_MSG_SIZE * MAX_BUFFER_SIZE
      modifies this, readBuffer
      ensures readCount == old(readCount) - COMM_MSG_SIZE && Pending() == old(Pending())[COMM_MSG_SIZE..]
    {
      forall i | 0 <= i < COMM_MSG_SIZE * (MAX_BUFFER_SIZE - 1) {
        readBuffer[i] := readBuffer[COMM_MSG_SIZE + i];
      }
      readCount := readCount - COMM_MSG_SIZE;
    }
  }
}
