/**
  The ring buffer behind the transmit and receive queues of the CAN controller
  (firmware/due_can.cpp), for every size: it is a first-in first-out queue that holds one frame less
  than the ring has slots.
 */
module RingBuffer {
  import opened Bytes

  /** The index after `i` in a ring of `n` slots. */
  function Next(i: nat, n: nat): (r: nat)
    requires i < n
    ensures r < n
    ensures r == if i + 1 == n then 0 else i + 1
  {
    NextWraps(i, n);
    (i + 1) % n
  }

  lemma NextWraps(i: nat, n: nat)
    requires i < n
    ensures (i + 1) % n == if i + 1 == n then 0 else i + 1
  {
  }

  /** The number of steps from `tail` to `head`. */
  function Distance(tail: nat, head: nat, n: nat): nat
    requires tail < n && head < n
  {
    if tail <= head then head - tail else head - tail + n
  }

  /** What is met on the way from `tail` to `head`. */
  function Window<T>(slots: seq<T>, tail: nat, head: nat): seq<T>
    requires tail < |slots| && head < |slots|
    decreases Distance(tail, head, |slots|)
  {
    if tail == head then [] else [slots[tail]] + Window(slots, Next(tail, |slots|), head)
  }

  lemma {:induction false} WindowLength<T>(slots: seq<T>, tail: nat, head: nat)
    requires tail < |slots| && head < |slots|
    ensures |Window(slots, tail, head)| == Distance(tail, head, |slots|)
    decreases Distance(tail, head, |slots|)
  {
    if tail == head {
    } else {
      WindowLength(slots, Next(tail, |slots|), head);
    }
  }

  /** Filling the slot at `head` and moving on appends to the window, unless that closes the ring. */
  lemma {:induction false} WindowGrows<T>(slots: seq<T>, tail: nat, head: nat, x: T)
    requires tail < |slots| && head < |slots| && Next(head, |slots|) != tail
    ensures Window(slots[head := x], tail, Next(head, |slots|)) == Window(slots, tail, head) + [x]
    decreases Distance(tail, head, |slots|)
  {
    if tail == head {
    } else {
      WindowGrows(slots, Next(tail, |slots|), head, x);
    }
  }

  class Ring<T(0)> {
    var buffer: array<T>
    var head: nat
    var tail: nat

    ghost predicate Valid()
      reads this
    {
      head < buffer.Length && tail < buffer.Length < 0x1_0000
    }

    /** The queued elements, oldest first. */
    ghost function Contents(): seq<T>
      requires Valid()
      reads this, buffer
    {
      Window(buffer[..], tail, head)
    }

    /** `initRingBuffer` */
    constructor (storage: array<T>)
      requires 1 <= storage.Length < 0x1_0000
      ensures Valid() && buffer == storage && Contents() == []
    {
      buffer, head, tail := storage, 0, 0;
    }

    /** `addToRingBuffer` */
    method Add(msg: T) returns (ok: bool)
      requires Valid()
      modifies this`head, buffer
      ensures Valid()
      ensures ok <==> |old(Contents())| < buffer.Length - 1
      ensures Contents() == if ok then old(Contents()) + [msg] else old(Contents())
    {
      var nextEntry := Next(head, buffer.Length);
      WindowLength(buffer[..], tail, head);
      if nextEntry == tail { return false; }
      WindowGrows(buffer[..], tail, head, msg);
      buffer[head] := msg;
      assert buffer[..] == old(buffer[..])[head := msg];
      head := nextEntry;
      return true;
    }

    /** `removeFromRingBuffer` */
    method Remove() returns (msg: Option<T>)
      requires Valid()
      modifies this`tail
      ensures Valid()
      ensures msg == if old(Contents()) == [] then None else Some(old(Contents())[0])
      ensures Contents() == if old(Contents()) == [] then [] else old(Contents())[1..]
    {
      if tail == head { return None; }
      msg := Some(buffer[tail]);
      tail := Next(tail, buffer.Length);
    }

    /** `ringBufferCount` */
    method Count() returns (n: nat)
      requires Valid()
      ensures n == |Contents()| <= buffer.Length - 1
    {
      WindowLength(buffer[..], tail, head);
      if tail == head { return 0; }
      if tail < head { return head - tail; }
      return buffer.Length - tail + head;
    }
  }
}
