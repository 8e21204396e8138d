/**
  Requests and replies keep their order on every way: from the callers to the firmware, from the firmware to the
  reader thread, and in the queue of each id. Nothing is lost, doubled or overtaken, whatever the run.
 */
module RequestOrder {
  import opened Bytes
  import opened RequestIds

  // What an event puts on a way, and what it takes off its front, judged by the state before it.

  function Queued(s: System, e: Event): seq<Packet> {
    match e
    case Send(k) =>
      if k < |s.callers| && s.callers[k].stage.Numbered? then [Request(k, s.callers[k].id)] else []
    case Notify => [Notification]
    case _ => []
  }

  /** The firmware reads when it is not busy, and refuses notifications only. */
  function Read(s: System, e: Event): seq<Packet> {
    if s.handling.Some? || s.wire == [] then []
    else if e.FirmwareReads? || (e.FirmwareRefuses? && s.wire[0].Notification?) then [s.wire[0]]
    else []
  }

  function Told(s: System, e: Event): seq<Reply> {
    match e
    case FirmwareAnswers(n) => if s.handling.Some? then Copies(ReplyTo(s.handling.value, s.lastId), n) else []
    case FirmwareRefuses => if Refusing(s) then [Unasked(s.lastId)] else []
    case FirmwareTells => [Unsolicited]
    case _ => []
  }

  function Fetched(s: System, e: Event): seq<Reply> {
    if e.DriverReads? && s.back != [] then [s.back[0]] else []
  }

  /** The reader thread sorts replies with an id of 1 to 99, and drops what has none. */
  function Sorted(s: System, e: Event, id: u8): seq<Reply>
    requires 1 <= id < 100
  {
    if Fetched(s, e) != [] && Carries(s.back[0], id) then [s.back[0]] else []
  }

  function Taken(s: System, e: Event, id: u8): seq<Reply>
    requires Sized(s) && 1 <= id < 100
  {
    if e.CallerReceives? && IsWaiting(s.callers, e.k) && s.callers[e.k].id == id && s.queues[id - 1] != []
       && !s.queues[id - 1][0].Unsolicited?
    then [s.queues[id - 1][0]] else []
  }

  // ---- Whole runs --------------------------------------------------------------------------

  function AllQueued(s: System, events: seq<Event>): seq<Packet>
    requires Sized(s)
    decreases |events|
  {
    if events == [] then [] else Queued(s, events[0]) + AllQueued(Step(s, events[0]), events[1..])
  }

  function AllRead(s: System, events: seq<Event>): seq<Packet>
    requires Sized(s)
    decreases |events|
  {
    if events == [] then [] else Read(s, events[0]) + AllRead(Step(s, events[0]), events[1..])
  }

  function AllTold(s: System, events: seq<Event>): seq<Reply>
    requires Sized(s)
    decreases |events|
  {
    if events == [] then [] else Told(s, events[0]) + AllTold(Step(s, events[0]), events[1..])
  }

  function AllFetched(s: System, events: seq<Event>): seq<Reply>
    requires Sized(s)
    decreases |events|
  {
    if events == [] then [] else Fetched(s, events[0]) + AllFetched(Step(s, events[0]), events[1..])
  }

  function AllSorted(s: System, events: seq<Event>, id: u8): seq<Reply>
    requires Sized(s) && 1 <= id < 100
    decreases |events|
  {
    if events == [] then [] else Sorted(s, events[0], id) + AllSorted(Step(s, events[0]), events[1..], id)
  }

  function AllTaken(s: System, events: seq<Event>, id: u8): seq<Reply>
    requires Sized(s) && 1 <= id < 100
    decreases |events|
  {
    if events == [] then [] else Taken(s, events[0], id) + AllTaken(Step(s, events[0]), events[1..], id)
  }

  /** What was there and what came is what was taken and what is there. */
  ghost predicate Fifo<T>(before: seq<T>, put: seq<T>, taken: seq<T>, after: seq<T>) { before + put == taken + after }

  lemma FifoComposes<T>(s0: seq<T>, put1: seq<T>, took1: seq<T>, s1: seq<T>, put2: seq<T>, took2: seq<T>, s2: seq<T>)
    requires Fifo(s0, put1, took1, s1) && Fifo(s1, put2, took2, s2)
    ensures Fifo(s0, put1 + put2, took1 + took2, s2)
  {
    ConcatAssociative(s0, put1, put2);
    ConcatAssociative(took1, s1, put2);
    ConcatAssociative(took1, took2, s2);
  }

  lemma WireOrder(s: System, e: Event)
    requires Sized(s)
    ensures Fifo(s.wire, Queued(s, e), Read(s, e), Step(s, e).wire)
  {
  }

  lemma BackOrder(s: System, e: Event)
    requires Sized(s)
    ensures Fifo(s.back, Told(s, e), Fetched(s, e), Step(s, e).back)
  {
  }

  lemma QueueOrder(s: System, e: Event, id: u8)
    requires Sized(s) && 1 <= id < 100
    ensures Fifo(s.queues[id - 1], Sorted(s, e, id), Taken(s, e, id), Step(s, e).queues[id - 1])
  {
  }

  /** In every run from any state, for each of the three ways: what was on it and what was put on it since is what was
      taken off it and what is still on it, in the same order. */
  lemma {:induction false} InOrder(s: System, events: seq<Event>, id: u8)
    requires Sized(s) && 1 <= id < 100
    ensures var t := Run(s, events);
            && Fifo(s.wire, AllQueued(s, events), AllRead(s, events), t.wire)
            && Fifo(s.back, AllTold(s, events), AllFetched(s, events), t.back)
            && Fifo(s.queues[id - 1], AllSorted(s, events, id), AllTaken(s, events, id), t.queues[id - 1])
    decreases |events|
  {
    if events == [] {
    } else {
      var (e, rest) := (events[0], events[1..]);
      var d := Step(s, e);
      var t := Run(d, rest);
      WireOrder(s, e);
      BackOrder(s, e);
      QueueOrder(s, e, id);
      InOrder(d, rest, id);
      FifoComposes(s.wire, Queued(s, e), Read(s, e), d.wire, AllQueued(d, rest), AllRead(d, rest), t.wire);
      FifoComposes(s.back, Told(s, e), Fetched(s, e), d.back, AllTold(d, rest), AllFetched(d, rest), t.back);
      FifoComposes(s.queues[id - 1], Sorted(s, e, id), Taken(s, e, id), d.queues[id - 1],
                   AllSorted(d, rest, id), AllTaken(d, rest, id), t.queues[id - 1]);
    }
  }

  /** Whoever settled stays settled; a waiting caller is done exactly when it takes a reply, which is then its
      answer, and gives up exactly when its time is over. */
  lemma CallersSettle(s: System, e: Event, k: nat)
    requires Sized(s) && k < |s.callers| && 1 <= s.callers[k].id < 100
    ensures var (c, t) := (s.callers[k], Step(s, e));
            && k < |t.callers| && t.callers[k].id == c.id
            && (Settled(c) ==> t.callers[k] == c)
            && (c.stage.Numbered? ==> t.callers[k].stage == if e == Send(k) then Waiting else Numbered)
            && (c.stage.Waiting? ==>
                if e == TimesOut(k) then t.callers[k].stage == GaveUp
                else if e == CallerReceives(k) && Taken(s, e, c.id) != [] then
                  t.callers[k].stage == Done(Answers(Taken(s, e, c.id)[0]))
                else t.callers[k].stage == Waiting)
  {
  }

  /** The firmware answers under the id it read last, which a notification does not change. */
  lemma LastIdRead(s: System, e: Event)
    requires Sized(s)
    ensures var t := Step(s, e);
            && t.lastId == (if Read(s, e) != [] && Read(s, e)[0].Request? && Read(s, e)[0].id != 0
                            then Read(s, e)[0].id else s.lastId)
            && t.handling == (if Read(s, e) != [] && Read(s, e)[0].Request? then Some(Read(s, e)[0].k)
                              else if e.FirmwareAnswers? then None else s.handling)
  {
  }
}
