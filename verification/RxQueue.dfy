/**
  The receive queue that a CAN interrupt fills and the main loop empties without a lock
  (firmware/custom_can.cpp). Push and pop are split into the single accesses to shared memory that
  they consist of: reading the other side's index, copying one word of a frame, writing the own
  index. A run is any interleaving of those accesses; memory is sequentially consistent.
 */
module RxQueue {
  import opened Bytes
  import opened RingBuffer

  const MAX_RX_QUEUE: nat := 8

  /** Where a push is: checking for space, or `copied` words into the slot. */
  datatype Push<W> = NoPush | Checking(frame: seq<W>, next: nat) | Copying(frame: seq<W>, next: nat, copied: nat)

  /** Where a pop is: checking for a frame, or having copied `words` out of the slot. */
  datatype Pop<W> = NoPop | Looking | Taking(words: seq<W>)

  /** Shared memory, the two threads of control, and the history: the number of pushes and pops
      begun, the frames of completed pushes and pops, and for every push that found no space and every
      pop that found no frame how many frames the queue held when the other side's index was read.
      Frames are `width` words long. */
  datatype Queue<W> = Queue(
    width: nat,
    buffer: seq<seq<W>>,
    head: nat,
    tail: nat,
    push: Push<W>,
    pop: Pop<W>,
    pushes: nat,
    pops: nat,
    accepted: seq<seq<W>>,
    popped: seq<seq<W>>,
    drops: seq<int>,
    misses: seq<int>)
  {
    /** Indices in range and frames of the right length; all that a step needs to be defined. */
    predicate Shape() {
      && |buffer| == MAX_RX_QUEUE && head < MAX_RX_QUEUE && tail < MAX_RX_QUEUE
      && (forall i :: 0 <= i < MAX_RX_QUEUE ==> |buffer[i]| == width)
      && (match push
          case NoPush => true
          case Checking(frame, next) => |frame| == width && next < MAX_RX_QUEUE
          case Copying(frame, next, copied) => |frame| == width && next < MAX_RX_QUEUE && copied <= width)
      && (pop.Taking? ==> |pop.words| <= width)
    }

    /** The number of frames in the queue. */
    function Held(): int { |accepted| - |popped| }

    /** The slots between the indices hold the accepted frames that are yet to be popped. */
    ghost predicate Contents()
      requires Shape()
    {
      forall j :: |popped| <= j < |accepted| ==> buffer[Slot(j)] == accepted[j]
    }

    /** A push past its check owns the free slot at `head`. */
    ghost predicate PushInv()
      requires Shape()
    {
      && (!push.NoPush? ==> push.next == Slot(|accepted| + 1))
      && (push.Copying? ==> Held() < MAX_RX_QUEUE - 1 && buffer[head][..push.copied] == push.frame[..push.copied])
    }

    /** A pop past its check owns the full slot at `tail`. */
    ghost predicate PopInv()
      requires Shape()
    {
      pop.Taking? ==>
        && Held() > 0 && |accepted[|popped|]| == width
        && pop.words == accepted[|popped|][..|pop.words|]
    }

    ghost predicate Inv() {
      && Shape()
      && 0 <= Held() < MAX_RX_QUEUE
      && head == Slot(|accepted|) && tail == Slot(|popped|)
      && popped == accepted[..|popped|]
      && (forall i :: 0 <= i < |accepted| ==> |accepted[i]| == width)
      && Contents() && PushInv() && PopInv()
      && pushes == |accepted| + |drops| + (if push.NoPush? then 0 else 1)
      && pops == |popped| + |misses| + (if pop.NoPop? then 0 else 1)
      && (forall held :: held in drops ==> held == MAX_RX_QUEUE - 1)
      && (forall held :: held in misses ==> held == 0)
    }
  }

  /** The slot of the `n`-th frame. */
  function Slot(n: nat): (r: nat)
    ensures r < MAX_RX_QUEUE
  {
    n % MAX_RX_QUEUE
  }

  /** What happens next: the interrupt delivers a frame or takes its next step, or the main loop
      starts a pop or takes its next step. */
  datatype Access<W> = Interrupt(frame: seq<W>) | PushStep | PopStart | PopStep

  /** The next step of `__rx_queue_push_frame` */
  function StepPush<W>(q: Queue<W>): (r: Queue<W>)
    requires q.Shape()
    ensures r.Shape()
  {
    match q.push
    case NoPush => q
    case Checking(frame, next) =>
      if next == q.tail then
        q.(push := NoPush, drops := q.drops + [q.Held()])
      else q.(push := Copying(frame, next, 0))
    case Copying(frame, next, copied) =>
      if copied < q.width then
        q.(buffer := q.buffer[q.head := q.buffer[q.head][copied := frame[copied]]],
           push := Copying(frame, next, copied + 1))
      else q.(head := next, push := NoPush, accepted := q.accepted + [frame])
  }

  /** The next step of `__rx_queue_pop_frame` */
  function StepPop<W>(q: Queue<W>): (r: Queue<W>)
    requires q.Shape()
    ensures r.Shape()
  {
    match q.pop
    case NoPop => q
    case Looking =>
      if q.head == q.tail then
        q.(pop := NoPop, misses := q.misses + [q.Held()])
      else q.(pop := Taking([]))
    case Taking(words) =>
      if |words| < q.width then q.(pop := Taking(words + [q.buffer[q.tail][|words|]]))
      else q.(tail := (q.tail + 1) % MAX_RX_QUEUE, pop := NoPop, popped := q.popped + [words])
  }

  function Step<W>(q: Queue<W>, a: Access<W>): (r: Queue<W>)
    requires q.Shape()
    ensures r.Shape()
  {
    match a
    case Interrupt(frame) =>
      if q.push.NoPush? && |frame| == q.width
      then q.(push := Checking(frame, (q.head + 1) % MAX_RX_QUEUE), pushes := q.pushes + 1) else q
    case PushStep => StepPush(q)
    case PopStart => if q.pop.NoPop? then q.(pop := Looking, pops := q.pops + 1) else q
    case PopStep => StepPop(q)
  }

  ghost predicate New<W>(q: Queue<W>) {
    && q.Shape() && q.head == q.tail == 0 && q.push.NoPush? && q.pop.NoPop?
    && q.accepted == q.popped == [] && q.drops == q.misses == [] && q.pushes == q.pops == 0
  }

  /** Two frames less than a queue length apart do not share a slot. */
  lemma DifferentSlots(i: nat, j: nat)
    requires i < j < i + MAX_RX_QUEUE
    ensures Slot(i) != Slot(j)
  {
  }

  lemma SlotNext(n: nat)
    ensures Slot(n + 1) == (Slot(n) + 1) % MAX_RX_QUEUE
    ensures Slot(n + MAX_RX_QUEUE) == Slot(n)
  {
  }

  lemma PushChecks<W>(q: Queue<W>)
    requires q.Inv() && q.push.Checking?
    ensures StepPush(q).Inv()
  {
    SlotNext(|q.popped|);
    if q.Held() < MAX_RX_QUEUE - 1 {
      DifferentSlots(|q.popped|, |q.accepted| + 1);
    }
  }

  lemma PushCopies<W>(q: Queue<W>)
    requires q.Inv() && q.push.Copying? && q.push.copied < q.width
    ensures StepPush(q).Inv()
  {
    var q' := StepPush(q);
    forall j | |q.popped| <= j < |q.accepted| ensures q'.buffer[Slot(j)] == q.accepted[j] {
      DifferentSlots(j, |q.accepted|);
    }
    var k := q.push.copied;
    assert q'.buffer[q.head][..k + 1] == q.buffer[q.head][..k] + [q.push.frame[k]];
    assert q.push.frame[..k + 1] == q.push.frame[..k] + [q.push.frame[k]];
  }

  lemma PushPublishes<W>(q: Queue<W>)
    requires q.Inv() && q.push.Copying? && q.push.copied == q.width
    ensures StepPush(q).Inv()
  {
    var frame := q.push.frame;
    assert q.buffer[q.head] == q.buffer[q.head][..q.width] == frame[..q.width] == frame;
    assert (q.accepted + [frame])[..|q.popped|] == q.accepted[..|q.popped|];
  }

  lemma PopTakes<W>(q: Queue<W>)
    requires q.Inv() && q.pop.Taking? && |q.pop.words| < q.width
    ensures StepPop(q).Inv()
  {
    var frame, k := q.accepted[|q.popped|], |q.pop.words|;
    assert q.buffer[Slot(|q.popped|)] == frame;
    assert frame[..k + 1] == frame[..k] + [frame[k]];
  }

  lemma PopPublishes<W>(q: Queue<W>)
    requires q.Inv() && q.pop.Taking? && |q.pop.words| == q.width
    ensures StepPop(q).Inv()
  {
    var n := |q.popped|;
    assert q.pop.words == q.accepted[n][..q.width] == q.accepted[n];
    assert q.accepted[..n + 1] == q.accepted[..n] + [q.accepted[n]];
    SlotNext(n);
  }

  lemma PopLooks<W>(q: Queue<W>)
    requires q.Inv() && q.pop.Looking?
    ensures StepPop(q).Inv()
  {
    if q.head == q.tail && q.Held() > 0 {
      DifferentSlots(|q.popped|, |q.accepted|);
    }
  }

  lemma PushStarts<W>(q: Queue<W>, frame: seq<W>)
    requires q.Inv()
    ensures Step(q, Interrupt(frame)).Inv()
  {
    SlotNext(|q.accepted|);
  }

  lemma StepKeepsInv<W>(q: Queue<W>, a: Access<W>)
    requires q.Inv()
    ensures Step(q, a).Inv()
  {
    match a
    case Interrupt(frame) => PushStarts(q, frame);
    case PushStep =>
      if q.push.Checking? { PushChecks(q); }
      else if q.push.Copying? && q.push.copied < q.width { PushCopies(q); }
      else if q.push.Copying? { PushPublishes(q); }
    case PopStart =>
    case PopStep =>
      if q.pop.Looking? { PopLooks(q); }
      else if q.pop.Taking? && |q.pop.words| < q.width { PopTakes(q); }
      else if q.pop.Taking? { PopPublishes(q); }
  }

  function Run<W>(q: Queue<W>, accesses: seq<Access<W>>): (r: Queue<W>)
    requires q.Shape()
    ensures r.Shape()
    decreases |accesses|
  {
    if accesses == [] then q else Run(Step(q, accesses[0]), accesses[1..])
  }

  lemma {:induction false} RunKeepsInv<W>(q: Queue<W>, accesses: seq<Access<W>>)
    requires q.Inv()
    ensures Run(q, accesses).Inv()
    decreases |accesses|
  {
    if accesses == [] {
    } else {
      StepKeepsInv(q, accesses[0]);
      RunKeepsInv(Step(q, accesses[0]), accesses[1..]);
    }
  }

  /** Under every interleaving the popped frames are the accepted frames, whole and in order, at
      most seven frames are held, every push but the one in progress was accepted or found the queue
      full, and every pop but the one in progress took a frame or found the queue empty. */
  lemma LockFree<W>(q: Queue<W>, accesses: seq<Access<W>>)
    requires New(q)
    ensures var r := Run(q, accesses);
            && r.popped <= r.accepted
            && |r.accepted| - |r.popped| <= 7
            && r.pushes - (if r.push.NoPush? then 0 else 1) == |r.accepted| + |r.drops|
            && r.pops - (if r.pop.NoPop? then 0 else 1) == |r.popped| + |r.misses|
            && (forall held :: held in r.drops ==> held == 7)
            && (forall held :: held in r.misses ==> held == 0)
  {
    RunKeepsInv(q, accesses);
  }

  // ---------------------------------------------------------------------------------------------
  // Undisturbed calls

  function Repeat<W>(a: Access<W>, n: nat): (r: seq<Access<W>>)
    ensures |r| == n
  {
    if n == 0 then [] else [a] + Repeat(a, n - 1)
  }

  lemma {:induction false} CopyCompletes<W>(q: Queue<W>, n: nat)
    requires q.Inv() && q.push.Copying? && n == q.width - q.push.copied + 1
    ensures var r := Run(q, Repeat(PushStep, n));
            r.accepted == q.accepted + [q.push.frame] && r.drops == q.drops && r.push.NoPush?
    decreases n
  {
    var d := StepPush(q);
    StepKeepsInv(q, PushStep);
    assert Repeat(Access<W>.PushStep, n)[1..] == Repeat(Access<W>.PushStep, n - 1);
    if q.push.copied < q.width {
      CopyCompletes(d, n - 1);
    } else {
      assert Run(d, []) == d;
    }
  }

  lemma RunFirst<W>(q: Queue<W>, a: Access<W>, rest: seq<Access<W>>)
    requires q.Shape()
    ensures Run(q, [a] + rest) == Run(Step(q, a), rest)
  {
    assert ([a] + rest)[1..] == rest;
  }

  lemma CheckDecides<W>(q: Queue<W>)
    requires q.Inv() && q.push.Checking?
    ensures StepPush(q).Inv()
    ensures if q.Held() < MAX_RX_QUEUE - 1 then StepPush(q) == q.(push := Copying(q.push.frame, q.push.next, 0))
            else StepPush(q) == q.(push := NoPush, drops := q.drops + [q.Held()])
  {
    PushChecks(q);
    SlotNext(|q.popped|);
    if q.Held() < MAX_RX_QUEUE - 1 {
      DifferentSlots(|q.popped|, |q.accepted| + 1);
    }
  }

  /** A push that runs undisturbed accepts its frame if fewer than seven are held, and drops it otherwise. */
  lemma UndisturbedPush<W>(q: Queue<W>, frame: seq<W>)
    requires q.Inv() && q.push.NoPush? && |frame| == q.width
    ensures var r := Run(q, [Interrupt(frame)] + Repeat(PushStep, q.width + 2));
            && r.push.NoPush?
            && (if q.Held() < 7
                then r.accepted == q.accepted + [frame] && r.drops == q.drops
                else r.accepted == q.accepted && |r.drops| == |q.drops| + 1)
  {
    var checking := Step(q, Interrupt(frame));
    var checked := Step(checking, PushStep);
    StepKeepsInv(q, Interrupt(frame));
    CheckDecides(checking);
    RunFirst(q, Interrupt(frame), Repeat(PushStep, q.width + 2));
    RunFirst(checking, PushStep, Repeat(PushStep, q.width + 1));
    if checked.push.Copying? {
      CopyCompletes(checked, q.width + 1);
    } else {
      IdlePushes(checked, q.width + 1);
    }
  }

  lemma {:induction false} IdlePushes<W>(q: Queue<W>, n: nat)
    requires q.Shape() && q.push.NoPush?
    ensures Run(q, Repeat(PushStep, n)) == q
  {
    if n == 0 {
    } else {
      assert Repeat(Access<W>.PushStep, n)[1..] == Repeat(Access<W>.PushStep, n - 1);
      IdlePushes(q, n - 1);
    }
  }

  lemma {:induction false} TakeCompletes<W>(q: Queue<W>, n: nat)
    requires q.Inv() && q.pop.Taking? && n == q.width - |q.pop.words| + 1
    ensures var r := Run(q, Repeat(PopStep, n));
            && r.popped == q.popped + [q.accepted[|q.popped|]] && r.accepted == q.accepted
            && r.misses == q.misses && r.pop.NoPop?
    decreases n
  {
    var d := StepPop(q);
    StepKeepsInv(q, PopStep);
    assert Repeat(Access<W>.PopStep, n)[1..] == Repeat(Access<W>.PopStep, n - 1);
    if |q.pop.words| < q.width {
      TakeCompletes(d, n - 1);
    } else {
      assert q.pop.words == q.accepted[|q.popped|];
      assert Run(d, []) == d;
    }
  }

  lemma LookDecides<W>(q: Queue<W>)
    requires q.Inv() && q.pop.Looking?
    ensures StepPop(q).Inv()
    ensures if q.Held() > 0 then StepPop(q) == q.(pop := Taking([]))
            else StepPop(q) == q.(pop := NoPop, misses := q.misses + [q.Held()])
  {
    PopLooks(q);
    if q.Held() > 0 { DifferentSlots(|q.popped|, |q.accepted|); }
  }

  lemma {:induction false} IdlePops<W>(q: Queue<W>, n: nat)
    requires q.Shape() && q.pop.NoPop?
    ensures Run(q, Repeat(PopStep, n)) == q
  {
    if n == 0 {
    } else {
      assert Repeat(Access<W>.PopStep, n)[1..] == Repeat(Access<W>.PopStep, n - 1);
      IdlePops(q, n - 1);
    }
  }

  /** A pop that runs undisturbed takes the oldest frame held, if there is one. */
  lemma UndisturbedPop<W>(q: Queue<W>)
    requires q.Inv() && q.pop.NoPop?
    ensures var r := Run(q, [PopStart] + Repeat(PopStep, q.width + 2));
            && r.pop.NoPop? && r.accepted == q.accepted
            && (if q.Held() > 0
                then r.popped == q.popped + [q.accepted[|q.popped|]] && r.misses == q.misses
                else r.popped == q.popped && |r.misses| == |q.misses| + 1)
  {
    var looking := Step(q, PopStart);
    var looked := Step(looking, PopStep);
    StepKeepsInv(q, PopStart);
    LookDecides(looking);
    RunFirst(q, PopStart, Repeat(PopStep, q.width + 2));
    RunFirst(looking, PopStep, Repeat(PopStep, q.width + 1));
    if looked.pop.Taking? {
      TakeCompletes(looked, q.width + 1);
    } else {
      IdlePops(looked, q.width + 1);
    }
  }

  // ---------------------------------------------------------------------------------------------
  // Neither side waits for the other

  /** How many steps of its own a push, or a pop, is from its end. */
  function PushLeft<W>(q: Queue<W>): nat
    requires q.Shape()
  {
    match q.push
    case NoPush => 0
    case Checking(_, _) => q.width + 2
    case Copying(_, _, copied) => q.width - copied + 1
  }

  function PopLeft<W>(q: Queue<W>): nat
    requires q.Shape()
  {
    match q.pop
    case NoPop => 0
    case Looking => q.width + 2
    case Taking(words) => q.width - |words| + 1
  }

  ghost function Count<W>(accesses: seq<Access<W>>, a: Access<W>): nat {
    if accesses == [] then 0 else (if accesses[0] == a then 1 else 0) + Count(accesses[1..], a)
  }

  lemma PushNearer<W>(q: Queue<W>, a: Access<W>)
    requires q.Shape() && !a.Interrupt?
    ensures PushLeft(Step(q, a)) <= PushLeft(q) && (PushLeft(q) == 0 <==> q.push.NoPush?)
    ensures a.PushStep? && PushLeft(q) > 0 ==> PushLeft(Step(q, a)) < PushLeft(q)
  {
  }

  lemma PopNearer<W>(q: Queue<W>, a: Access<W>)
    requires q.Shape() && !a.PopStart?
    ensures PopLeft(Step(q, a)) <= PopLeft(q) && (PopLeft(q) == 0 <==> q.pop.NoPop?)
    ensures a.PopStep? && PopLeft(q) > 0 ==> PopLeft(Step(q, a)) < PopLeft(q)
  {
  }

  /** A push in progress ends after at most `width + 2` steps of its own, whatever the main loop does in between. */
  lemma {:induction false} PushWaitFree<W>(q: Queue<W>, accesses: seq<Access<W>>)
    requires q.Shape() && (forall a :: a in accesses ==> !a.Interrupt?)
    requires Count(accesses, PushStep) >= PushLeft(q)
    ensures PushLeft(q) <= q.width + 2 && Run(q, accesses).push.NoPush?
    decreases |accesses|
  {
    PushNearer(q, PopStep);
    if accesses == [] {
    } else {
      assert accesses[0] in accesses && forall a :: a in accesses[1..] ==> a in accesses;
      PushNearer(q, accesses[0]);
      PushWaitFree(Step(q, accesses[0]), accesses[1..]);
    }
  }

  /** So does a pop, whatever the interrupt does in between. */
  lemma {:induction false} PopWaitFree<W>(q: Queue<W>, accesses: seq<Access<W>>)
    requires q.Shape() && (forall a :: a in accesses ==> !a.PopStart?)
    requires Count(accesses, PopStep) >= PopLeft(q)
    ensures PopLeft(q) <= q.width + 2 && Run(q, accesses).pop.NoPop?
    decreases |accesses|
  {
    PopNearer(q, PushStep);
    if accesses == [] {
    } else {
      assert accesses[0] in accesses && forall a :: a in accesses[1..] ==> a in accesses;
      PopNearer(q, accesses[0]);
      PopWaitFree(Step(q, accesses[0]), accesses[1..]);
    }
  }

  /** The queue as the firmware updates it, when push and pop do not overlap */
  class FrameQueue<F(0)> {
    const buffer: array<F>
    var head: nat
    var tail: nat

    ghost predicate Valid()
      reads this
    {
      buffer.Length == MAX_RX_QUEUE && head < MAX_RX_QUEUE && tail < MAX_RX_QUEUE
    }

    /** The queued frames, oldest first. */
    ghost function Contents(): seq<F>
      requires Valid()
      reads this, buffer
    {
      Window(buffer[..], tail, head)
    }

    constructor ()
      ensures Valid() && Contents() == []
    {
      buffer := new F[MAX_RX_QUEUE];
      head, tail := 0, 0;
    }

    /** `__rx_queue_push_frame` */
    method PushFrame(f: F)
      requires Valid()
      modifies this`head, buffer
      ensures Valid()
      ensures Contents() == if |old(Contents())| < 7 then old(Contents()) + [f] else old(Contents())
    {
      var nextEntry := (head + 1) % MAX_RX_QUEUE;
      WindowLength(buffer[..], tail, head);
      if nextEntry == tail { return; }
      WindowGrows(buffer[..], tail, head, f);
      buffer[head] := f;
      assert buffer[..] == old(buffer[..])[head := f];
      head := nextEntry;
    }

    /** `__rx_queue_pop_frame` */
    method PopFrame() returns (f: Option<F>)
      requires Valid()
      modifies this`tail
      ensures Valid()
      ensures f == if old(Contents()) == [] then None else Some(old(Contents())[0])
      ensures Contents() == if old(Contents()) == [] then [] else old(Contents())[1..]
    {
      if head == tail { return None; }
      f := Some(buffer[tail]);
      tail := (tail + 1) % MAX_RX_QUEUE;
    }

    /** `clearMailboxQueue` */
    method Clear()
      requires Valid()
      modifies this
      ensures Valid() && Contents() == []
    {
      head, tail := 0, 0;
    }
  }
}
