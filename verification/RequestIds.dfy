/**
  How replies find the caller that waits for them: the driver numbers its requests 1 to 99 and has a
  queue for each number (driver/src/comm.rs); the firmware answers with the number it read last
  (firmware/comm_a0.cpp). Callers, both directions of the serial line, the firmware and the reader thread
  run concurrently.
 */
module RequestIds {
  import opened Bytes

  const IDS: nat := 99

  /** `get_id`: the counter after the one given */
  function NextId(x: u8): (r: u8)
    requires x < 100
    ensures 1 <= r < 100
  {
    if x + 1 >= 100 then 1 else x + 1
  }

  /** The counter, which starts at 1, after `k` calls of `get_id`; the id of the `k`-th request from 0 on
      is `Counter(k + 1)`. */
  function Counter(k: nat): (r: u8)
    ensures 1 <= r < 100
  {
    if k == 0 then 1 else NextId(Counter(k - 1))
  }

  lemma {:induction false} CounterCycles(k: nat)
    ensures Counter(k) == k % IDS + 1
  {
    if k == 0 {
    } else {
      CounterCycles(k - 1);
      Successor(k - 1);
    }
  }

  lemma Successor(k: nat)
    ensures (k + 1) % IDS == if k % IDS == IDS - 1 then 0 else k % IDS + 1
  {
  }

  lemma Residues(j: nat, k: nat)
    requires j < k
    ensures k < j + IDS ==> j % IDS != k % IDS
    ensures k == j + IDS ==> j % IDS == k % IDS
  {
  }

  /** Ids repeat after 99 requests and not before. */
  lemma IdsRepeat(j: nat, k: nat)
    requires j < k <= j + IDS
    ensures Counter(j) == Counter(k) <==> k == j + IDS
  {
    CounterCycles(j);
    CounterCycles(k);
    Residues(j, k);
  }

  /** Which calls of `get_id` gave a number: it is not one of the 98 before, and it is the one 99 before. */
  lemma NumberOfCall(calls: nat)
    requires calls >= 1
    ensures forall j :: calls - IDS < j < calls && j >= 1 ==> Counter(j) != Counter(calls)
    ensures calls > IDS ==> Counter(calls - IDS) == Counter(calls)
  {
    forall j | calls - IDS < j < calls && j >= 1
      ensures Counter(j) != Counter(calls)
    {
      IdsRepeat(j, calls);
    }
    if calls > IDS { IdsRepeat(calls - IDS, calls); }
  }

  class IdSource {
    var x: u8
    ghost var calls: nat

    ghost predicate Valid()
      reads this
    {
      x == Counter(calls)
    }

    constructor ()
      ensures Valid() && calls == 0
    {
      x, calls := 1, 0;
    }

    /** `get_id`: the id of call number `calls`, which the 98 calls before did not return */
    method GetId() returns (id: u8)
      requires Valid()
      modifies this
      ensures Valid() && calls == old(calls) + 1
      ensures id == Counter(calls) == calls % IDS + 1
      ensures forall j :: calls - IDS < j < calls && j >= 1 ==> Counter(j) != id
      ensures calls > IDS ==> Counter(calls - IDS) == id
    {
      x := x + 1;
      if x >= 100 { x := 1; }
      calls := calls + 1;
      CounterCycles(calls);
      NumberOfCall(calls);
      return x;
    }
  }

  // ---- Requests and replies in flight ------------------------------------------------------

  /** What became of a caller: what the reply it received answers, or nothing in time. */
  datatype Stage = Numbered | Waiting | Done(answered: Option<nat>) | GaveUp

  /** The caller of a request, with its `query_id` */
  datatype Caller = Caller(id: u8, stage: Stage)

  /** A notification expects no answer, and an unsolicited message answers nothing; both carry id 0. But a
      notification that the firmware refuses is answered all the same, with the id it read last. */
  datatype Packet = Request(k: nat, id: u8) | Notification
  datatype Reply = ReplyTo(k: nat, id: u8) | Unasked(id: u8) | Unsolicited

  datatype System = System(
    counter: u8,
    callers: seq<Caller>,
    wire: seq<Packet>,
    handling: Option<nat>,
    lastId: u8,
    back: seq<Reply>,
    queues: seq<seq<Reply>>)

  datatype Event =
    | Number                    // a caller takes an id
    | Send(k: nat)              // and later queues its request
    | Notify                    // `write_comm_struct`
    | FirmwareReads
    | FirmwareAnswers(n: nat)   // closing a channel is answered twice, a segmented message not at all
    | FirmwareRefuses           // a notification, for its flags
    | FirmwareTells             // data or log message
    | DriverReads               // the reader thread
    | CallerReceives(k: nat)
    | TimesOut(k: nat)

  function SetStage(callers: seq<Caller>, k: nat, stage: Stage): seq<Caller> {
    if k < |callers| then callers[k := callers[k].(stage := stage)] else callers
  }

  predicate IsWaiting(callers: seq<Caller>, k: nat) { k < |callers| && callers[k].stage.Waiting? }

  /** The firmware takes the next message; `last_id` keeps its id unless that is 0. */
  function FirmwareRead(s: System): System {
    if s.handling.Some? || s.wire == [] then s
    else match s.wire[0]
      case Notification => s.(wire := s.wire[1..])
      case Request(k, id) =>
        s.(wire := s.wire[1..], handling := Some(k), lastId := if id != 0 then id else s.lastId)
  }

  predicate Refusing(s: System) { s.handling.None? && s.wire != [] && s.wire[0].Notification? }

  function FirmwareRefuse(s: System): System {
    if Refusing(s) then s.(wire := s.wire[1..], back := s.back + [Unasked(s.lastId)]) else s
  }

  /** The reader thread puts the next reply into the queue of its id. */
  function DriverRead(s: System): System
    requires |s.queues| == 100
  {
    if s.back == [] then s
    else if s.back[0].Unsolicited? || s.back[0].id == 0 || s.back[0].id >= 100 then s.(back := s.back[1..])
    else
      var q := s.back[0].id - 1;
      s.(back := s.back[1..], queues := s.queues[q := s.queues[q] + [s.back[0]]])
  }

  /** A waiting caller takes what is first in the queue of its id. */
  function Receive(s: System, k: nat): System
    requires |s.queues| == 100
  {
    if !IsWaiting(s.callers, k) || !(0 < s.callers[k].id <= 100) then s
    else
      var q := s.queues[s.callers[k].id - 1];
      if q == [] || q[0].Unsolicited? then s
      else s.(queues := s.queues[s.callers[k].id - 1 := q[1..]], callers := SetStage(s.callers, k, Done(Answers(q[0]))))
  }

  function Answers(r: Reply): Option<nat> { if r.ReplyTo? then Some(r.k) else None }

  predicate Sized(s: System) { |s.queues| == 100 && s.counter < 100 }

  function Step(s: System, e: Event): (r: System)
    requires Sized(s)
    ensures Sized(r)
  {
    match e
    case Number =>
      s.(counter := NextId(s.counter), callers := s.callers + [Caller(NextId(s.counter), Numbered)])
    case Send(k) =>
      if k < |s.callers| && s.callers[k].stage.Numbered? then
        s.(wire := s.wire + [Request(k, s.callers[k].id)], callers := SetStage(s.callers, k, Waiting))
      else s
    case Notify => s.(wire := s.wire + [Notification])
    case FirmwareReads => FirmwareRead(s)
    case FirmwareAnswers(n) =>
      if s.handling.Some? then
        s.(handling := None, back := s.back + Copies(ReplyTo(s.handling.value, s.lastId), n))
      else s
    case FirmwareRefuses => FirmwareRefuse(s)
    case FirmwareTells => s.(back := s.back + [Unsolicited])
    case DriverReads => DriverRead(s)
    case CallerReceives(k) => Receive(s, k)
    case TimesOut(k) => if IsWaiting(s.callers, k) then s.(callers := SetStage(s.callers, k, GaveUp)) else s
  }

  function Copies(r: Reply, n: nat): (rs: seq<Reply>)
    ensures |rs| == n && (forall x :: x in rs ==> x == r)
    ensures forall x :: multiset(rs)[x] == if x == r then n else 0
  {
    if n == 0 then [] else [r] + Copies(r, n - 1)
  }

  function Run(s: System, events: seq<Event>): (r: System)
    requires Sized(s)
    ensures Sized(r)
    decreases |events|
  {
    if events == [] then s else Run(Step(s, events[0]), events[1..])
  }

  predicate Initial(s: System) {
    && s.counter == 1 && s.callers == [] && s.wire == [] && s.handling.None? && s.back == []
    && |s.queues| == 100 && forall q :: 0 <= q < 100 ==> s.queues[q] == []
  }

  // ---- When an id may be given out again ---------------------------------------------------

  predicate Carries(r: Reply, id: u8) { !r.Unsolicited? && r.id == id }

  /** Something with this id is on its way, or lies in the queue of the id. */
  predicate Left(s: System, id: u8)
    requires Sized(s)
  {
    || (exists p :: p in s.wire && p.Request? && p.id == id)
    || (s.handling.Some? && s.lastId == id)
    || (exists r :: r in s.back && Carries(r, id))
    || (1 <= id <= 100 && s.queues[id - 1] != [])
  }

  predicate Settled(c: Caller) { c.stage.Done? || c.stage.GaveUp? }

  /** Nobody has the id any more, and nothing that carries it is left. */
  predicate Unused(s: System, id: u8)
    requires Sized(s)
  {
    !Left(s, id) && forall c :: c in s.callers && c.id == id ==> Settled(c)
  }

  function OfId(replies: seq<Reply>, id: u8): seq<Reply> {
    if replies == [] then []
    else (if Carries(replies[0], id) then [replies[0]] else []) + OfId(replies[1..], id)
  }

  /** What a caller with this id finds in its queue, now or later */
  function Incoming(queues: seq<seq<Reply>>, back: seq<Reply>, id: u8): seq<Reply>
    requires |queues| == 100 && 1 <= id < 100
  {
    queues[id - 1] + OfId(back, id)
  }

  /** Whoever may still receive something under the id that the firmware read last has something before. */
  predicate Covered(s: System)
    requires Sized(s)
  {
    1 <= s.lastId < 100 && Incoming(s.queues, s.back, s.lastId) == [] ==>
      forall c :: c in s.callers && c.id == s.lastId ==> Settled(c)
  }

  /** An id is given out when it is unused, and a notification is refused when that can do no harm. */
  predicate Paced(s: System, e: Event)
    requires Sized(s)
  {
    && (e.Number? ==> Unused(s, NextId(s.counter)))
    && (e.FirmwareRefuses? && Refusing(s) ==> Covered(s))
  }

  predicate PacedRun(s: System, events: seq<Event>)
    requires Sized(s)
    decreases |events|
  {
    events == [] || (Paced(s, events[0]) && PacedRun(Step(s, events[0]), events[1..]))
  }

  // ---- The invariant -----------------------------------------------------------------------

  /** Request `k` was sent with this id, and the id was not given out again. */
  predicate Current(callers: seq<Caller>, k: nat, id: u8) {
    k < |callers| <= k + IDS && callers[k].id == id && !callers[k].stage.Numbered?
  }

  /** Ids are given out in turn, and only the last 99 callers can be open. */
  predicate CallersInv(callers: seq<Caller>, counter: u8) {
    && counter == Counter(|callers|)
    && (forall k :: 0 <= k < |callers| ==> callers[k].id == Counter(k + 1))
    && (forall k :: 0 <= k < |callers| - IDS ==> Settled(callers[k]))
    && (forall k :: 0 <= k < |callers| && callers[k].stage.Done? ==> callers[k].stage.answered == Some(k))
  }

  predicate WireInv(callers: seq<Caller>, wire: seq<Packet>) {
    forall p :: p in wire && p.Request? ==> Current(callers, p.k, p.id)
  }

  predicate HandlingInv(callers: seq<Caller>, handling: Option<nat>, lastId: u8) {
    handling.Some? ==> Current(callers, handling.value, lastId)
  }

  predicate RepliesInv(callers: seq<Caller>, replies: seq<Reply>) {
    forall r :: r in replies && r.ReplyTo? ==> Current(callers, r.k, r.id)
  }

  /** The replies in the queue of an id are to the last request with that id only. */
  predicate QueuesInv(callers: seq<Caller>, queues: seq<seq<Reply>>) {
    && |queues| == 100
    && forall q, r :: 0 <= q < 100 && r in queues[q] ==>
         !r.Unsolicited? && r.id == q + 1 && (r.ReplyTo? ==> Current(callers, r.k, r.id))
  }

  /** What a caller will find first is a reply. */
  predicate FirstInv(callers: seq<Caller>, queues: seq<seq<Reply>>, back: seq<Reply>)
    requires |queues| == 100
  {
    forall k :: 0 <= k < |callers| && !Settled(callers[k]) ==> FirstIsReply(queues, back, callers[k].id)
  }

  predicate FirstIsReply(queues: seq<seq<Reply>>, back: seq<Reply>, id: u8)
    requires |queues| == 100
  {
    1 <= id < 100 && (Incoming(queues, back, id) != [] ==> Incoming(queues, back, id)[0].ReplyTo?)
  }

  predicate Inv(s: System) {
    && s.counter < 100
    && CallersInv(s.callers, s.counter) && WireInv(s.callers, s.wire)
    && HandlingInv(s.callers, s.handling, s.lastId) && RepliesInv(s.callers, s.back) && QueuesInv(s.callers, s.queues)
    && FirstInv(s.callers, s.queues, s.back)
  }

  lemma InvInitially(s: System)
    requires Initial(s)
    ensures Inv(s)
  {
  }

  lemma IdInRange(callers: seq<Caller>, counter: u8, k: nat)
    requires CallersInv(callers, counter) && k < |callers|
    ensures 1 <= callers[k].id < 100
  {
  }

  /** Of the last 99 callers no two have the same id. */
  lemma SameId(callers: seq<Caller>, counter: u8, j: nat, k: nat)
    requires CallersInv(callers, counter) && j < |callers| <= j + IDS && k < |callers| <= k + IDS
    requires callers[j].id == callers[k].id
    ensures j == k
  {
    if j < k { IdsRepeat(j + 1, k + 1); } else if k < j { IdsRepeat(k + 1, j + 1); }
  }

  /** The next id is the one of the caller 99 before. */
  lemma NextIsOldest(callers: seq<Caller>, counter: u8)
    requires CallersInv(callers, counter) && |callers| >= IDS
    ensures callers[|callers| - IDS].id == NextId(counter)
  {
    var k := |callers| - IDS;
    IdsRepeat(k + 1, |callers| + 1);
  }

  /** A caller stays current, unless the id that is given out is its own. */
  lemma StaysCurrent(callers: seq<Caller>, counter: u8, k: nat, id: u8)
    requires CallersInv(callers, counter) && Current(callers, k, id) && id != NextId(counter)
    ensures Current(callers + [Caller(NextId(counter), Numbered)], k, id)
  {
    if |callers| == k + IDS { NextIsOldest(callers, counter); }
  }

  lemma NumberKeepsCallers(s: System)
    requires Inv(s) && Paced(s, Number)
    ensures CallersInv(Step(s, Number).callers, NextId(s.counter))
  {
    if |s.callers| >= IDS {
      NextIsOldest(s.callers, s.counter);
      assert s.callers[|s.callers| - IDS] in s.callers;
    }
  }

  lemma NumberKeepsInv(s: System)
    requires Inv(s) && Paced(s, Number)
    ensures Inv(Step(s, Number))
  {
    NumberKeepsCallers(s);
    forall k, id | Current(s.callers, k, id) && id != NextId(s.counter)
      ensures Current(Step(s, Number).callers, k, id)
    {
      StaysCurrent(s.callers, s.counter, k, id);
    }
    forall q, r | 0 <= q < 100 && r in s.queues[q]
      ensures !r.Unsolicited? && r.id == q + 1 && (r.ReplyTo? ==> Current(Step(s, Number).callers, r.k, r.id))
    {
      assert q + 1 != NextId(s.counter);
    }
    UnusedHasNothing(s, NextId(s.counter));
  }

  // What comes in under an id.

  lemma {:induction false} OfIdAppend(first: seq<Reply>, second: seq<Reply>, id: u8)
    ensures OfId(first + second, id) == OfId(first, id) + OfId(second, id)
  {
    if first == [] {
      assert first + second == second;
    } else {
      assert (first + second)[1..] == first[1..] + second;
      OfIdAppend(first[1..], second, id);
      ConcatAssociative(if Carries(first[0], id) then [first[0]] else [], OfId(first[1..], id), OfId(second, id));
    }
  }

  lemma {:induction false} OfIdNone(replies: seq<Reply>, id: u8)
    requires forall r :: r in replies ==> !Carries(r, id)
    ensures OfId(replies, id) == []
  {
    if replies == [] {
    } else {
      assert replies[0] in replies && forall r :: r in replies[1..] ==> r in replies;
      OfIdNone(replies[1..], id);
    }
  }

  lemma {:induction false} OfIdCopies(r: Reply, n: nat, id: u8)
    ensures OfId(Copies(r, n), id) == if Carries(r, id) then Copies(r, n) else []
  {
    if n == 0 {
    } else {
      assert Copies(r, n)[1..] == Copies(r, n - 1);
      OfIdCopies(r, n - 1, id);
    }
  }

  lemma OfIdOne(r: Reply, id: u8)
    ensures OfId([r], id) == if Carries(r, id) then [r] else []
  {
    assert [r][1..] == [];
  }

  lemma IncomingGrows(queues: seq<seq<Reply>>, back: seq<Reply>, more: seq<Reply>, id: u8)
    requires |queues| == 100 && 1 <= id < 100
    ensures Incoming(queues, back + more, id) == Incoming(queues, back, id) + OfId(more, id)
  {
    OfIdAppend(back, more, id);
  }

  /** The reader thread changes nothing of it. */
  lemma IncomingStays(s: System, id: u8)
    requires Sized(s) && 1 <= id < 100
    ensures var t := DriverRead(s); Incoming(t.queues, t.back, id) == Incoming(s.queues, s.back, id)
  {
  }

  lemma UnusedHasNothing(s: System, id: u8)
    requires Sized(s) && 1 <= id < 100 && Unused(s, id)
    ensures Incoming(s.queues, s.back, id) == []
  {
    OfIdNone(s.back, id);
  }

  /** More replies on their way harm nobody for whom they are replies or come second. */
  lemma GrowthKeepsFirst(callers: seq<Caller>, queues: seq<seq<Reply>>, back: seq<Reply>, more: seq<Reply>)
    requires |queues| == 100 && FirstInv(callers, queues, back)
    requires forall k :: 0 <= k < |callers| && !Settled(callers[k]) ==>
               var rs := OfId(more, callers[k].id);
               rs == [] || rs[0].ReplyTo? || Incoming(queues, back, callers[k].id) != []
    ensures FirstInv(callers, queues, back + more)
  {
    forall k | 0 <= k < |callers| && !Settled(callers[k])
      ensures FirstIsReply(queues, back + more, callers[k].id)
    {
      assert FirstIsReply(queues, back, callers[k].id);
      IncomingGrows(queues, back, more, callers[k].id);
    }
  }

  lemma AnswersKeepFirst(s: System, n: nat)
    requires Inv(s)
    ensures var t := Step(s, FirmwareAnswers(n)); FirstInv(t.callers, t.queues, t.back)
  {
    if s.handling.Some? {
      var r := ReplyTo(s.handling.value, s.lastId);
      forall k | 0 <= k < |s.callers|
        ensures var rs := OfId(Copies(r, n), s.callers[k].id); rs == [] || rs[0].ReplyTo?
      {
        OfIdCopies(r, n, s.callers[k].id);
      }
      GrowthKeepsFirst(s.callers, s.queues, s.back, Copies(r, n));
    }
  }

  lemma RefusalKeepsInv(s: System)
    requires Inv(s) && Paced(s, FirmwareRefuses)
    ensures Inv(FirmwareRefuse(s))
  {
    if Refusing(s) {
      forall k | 0 <= k < |s.callers| && !Settled(s.callers[k])
        ensures OfId([Unasked(s.lastId)], s.callers[k].id) == []
             || (1 <= s.callers[k].id < 100 && Incoming(s.queues, s.back, s.callers[k].id) != [])
      {
        IdInRange(s.callers, s.counter, k);
        OfIdOne(Unasked(s.lastId), s.callers[k].id);
        assert s.callers[k] in s.callers;
      }
      GrowthKeepsFirst(s.callers, s.queues, s.back, [Unasked(s.lastId)]);
    }
  }

  lemma TellsKeepsInv(s: System)
    requires Inv(s)
    ensures Inv(Step(s, FirmwareTells))
  {
    forall k | 0 <= k < |s.callers|
      ensures OfId([Unsolicited], s.callers[k].id) == []
    {
      OfIdOne(Unsolicited, s.callers[k].id);
    }
    GrowthKeepsFirst(s.callers, s.queues, s.back, [Unsolicited]);
  }

  lemma DriverReadKeepsFirst(s: System)
    requires Inv(s)
    ensures var t := DriverRead(s); FirstInv(t.callers, t.queues, t.back)
  {
    var t := DriverRead(s);
    forall k | 0 <= k < |s.callers| && !Settled(s.callers[k])
      ensures FirstIsReply(t.queues, t.back, s.callers[k].id)
    {
      assert FirstIsReply(s.queues, s.back, s.callers[k].id);
      IncomingStays(s, s.callers[k].id);
    }
  }

  /** A change of stage keeps what is current, if it is not back to `Numbered`. */
  lemma StageFrame(s: System, k: nat, stage: Stage)
    requires Inv(s) && k < |s.callers| && !Settled(s.callers[k]) && !stage.Numbered?
    requires stage.Done? ==> stage.answered == Some(k)
    ensures Inv(s.(callers := SetStage(s.callers, k, stage)))
  {
    var callers := SetStage(s.callers, k, stage);
    assert forall j, id :: Current(s.callers, j, id) ==> Current(callers, j, id);
    assert CallersInv(callers, s.counter);
    assert FirstInv(callers, s.queues, s.back);
  }

  lemma SendKeepsInv(s: System, k: nat)
    requires Inv(s)
    ensures Inv(Step(s, Send(k)))
  {
    if k < |s.callers| && s.callers[k].stage.Numbered? {
      StageFrame(s, k, Waiting);
      assert Current(SetStage(s.callers, k, Waiting), k, s.callers[k].id);
    }
  }

  lemma FirmwareReadKeepsInv(s: System)
    requires Inv(s)
    ensures Inv(FirmwareRead(s))
  {
    if s.handling.None? && s.wire != [] && s.wire[0].Request? {
      IdInRange(s.callers, s.counter, s.wire[0].k);
    }
  }

  lemma DriverReadKeepsInv(s: System)
    requires Inv(s)
    ensures Inv(DriverRead(s))
  {
    DriverReadKeepsFirst(s);
    if s.back != [] {
      var t, first := DriverRead(s), s.back[0];
      assert forall q, r :: 0 <= q < 100 && r in t.queues[q] ==>
        r in s.queues[q] || (!first.Unsolicited? && first.id == q + 1 && r == first);
    }
  }

  /** The replies that a waiting caller finds in its queue are to its own request, and one of them is first. */
  lemma OwnQueue(s: System, k: nat, r: Reply)
    requires Inv(s) && IsWaiting(s.callers, k) && 1 <= s.callers[k].id < 100 && r in s.queues[s.callers[k].id - 1]
    ensures r == if r.ReplyTo? then ReplyTo(k, s.callers[k].id) else Unasked(s.callers[k].id)
    ensures r == s.queues[s.callers[k].id - 1][0] ==> r.ReplyTo?
  {
    assert FirstIsReply(s.queues, s.back, s.callers[k].id);
    if r.ReplyTo? { SameId(s.callers, s.counter, r.k, k); }
  }

  lemma ReceiveKeepsFirst(s: System, k: nat)
    requires Inv(s) && IsWaiting(s.callers, k)
    ensures var t := Receive(s, k); FirstInv(t.callers, t.queues, t.back)
  {
    var t := Receive(s, k);
    forall j | 0 <= j < |t.callers| && !Settled(t.callers[j])
      ensures FirstIsReply(t.queues, t.back, t.callers[j].id)
    {
      assert FirstIsReply(s.queues, s.back, s.callers[j].id);
      if t.callers[j].id == s.callers[k].id { SameId(s.callers, s.counter, j, k); }
    }
  }

  lemma ReceiveKeepsInv(s: System, k: nat)
    requires Inv(s)
    ensures Inv(Receive(s, k))
  {
    if IsWaiting(s.callers, k) {
      IdInRange(s.callers, s.counter, k);
      var i := s.callers[k].id - 1;
      if s.queues[i] != [] {
        OwnQueue(s, k, s.queues[i][0]);
        StageFrame(s, k, Done(Some(k)));
        ReceiveKeepsFirst(s, k);
        var t := Receive(s, k);
        assert forall q, r :: 0 <= q < 100 && r in t.queues[q] ==> r in s.queues[q];
      }
    }
  }

  lemma StepKeepsInv(s: System, e: Event)
    requires Inv(s) && Paced(s, e)
    ensures Inv(Step(s, e))
  {
    match e
    case Number => NumberKeepsInv(s);
    case Send(k) => SendKeepsInv(s, k);
    case Notify =>
    case FirmwareReads => FirmwareReadKeepsInv(s);
    case FirmwareAnswers(n) => AnswersKeepFirst(s, n);
    case FirmwareRefuses => RefusalKeepsInv(s);
    case FirmwareTells => TellsKeepsInv(s);
    case DriverReads => DriverReadKeepsInv(s);
    case CallerReceives(k) => ReceiveKeepsInv(s, k);
    case TimesOut(k) => if IsWaiting(s.callers, k) { StageFrame(s, k, GaveUp); }
  }

  lemma {:induction false} RunKeepsInv(s: System, events: seq<Event>)
    requires Inv(s) && PacedRun(s, events)
    ensures Inv(Run(s, events))
    decreases |events|
  {
    if events == [] {
    } else {
      StepKeepsInv(s, events[0]);
      RunKeepsInv(Step(s, events[0]), events[1..]);
    }
  }

  // ---- Every request is somewhere ----------------------------------------------------------

  /** How often request `k`, which has this id, or a reply to it is on its way or in the queue of the id. */
  function Copied(s: System, k: nat, id: u8): nat
    requires Sized(s) && 1 <= id < 100
  {
    multiset(s.wire)[Request(k, id)] + (if s.handling == Some(k) then 1 else 0)
    + multiset(s.back)[ReplyTo(k, id)] + multiset(s.queues[id - 1])[ReplyTo(k, id)]
  }

  /** The firmware answers what it reads, at least once or at most once. */
  predicate Answering(e: Event, least: bool, most: bool) {
    e.FirmwareAnswers? ==> (least ==> e.n >= 1) && (most ==> e.n <= 1)
  }

  predicate Accounted(s: System, k: nat, least: bool, most: bool)
    requires Sized(s) && k < |s.callers|
  {
    var c := s.callers[k];
    && 1 <= c.id < 100
    && (c.stage.Numbered? ==> Copied(s, k, c.id) == 0)
    && (c.stage.Waiting? ==> (least ==> Copied(s, k, c.id) >= 1) && (most ==> Copied(s, k, c.id) <= 1))
  }

  predicate AllAccounted(s: System, least: bool, most: bool)
    requires Sized(s)
  {
    forall k :: 0 <= k < |s.callers| ==> Accounted(s, k, least, most)
  }

  /** What a request that was not sent is not: anywhere. */
  lemma NotSentNotCopied(s: System, k: nat, id: u8)
    requires Inv(s) && 1 <= id < 100 && (k < |s.callers| ==> s.callers[k].stage.Numbered?)
    ensures Copied(s, k, id) == 0
  {
  }

  lemma FirmwareReadCopies(s: System, k: nat, id: u8)
    requires Sized(s) && 1 <= id < 100
    requires s.wire != [] && s.wire[0].Request? && s.wire[0].k == k ==> s.wire[0].id == id
    ensures Copied(FirmwareRead(s), k, id) == Copied(s, k, id)
  {
    if s.wire != [] { assert s.wire == [s.wire[0]] + s.wire[1..]; }
  }

  lemma FirmwareRefuseCopies(s: System, k: nat, id: u8)
    requires Sized(s) && 1 <= id < 100
    ensures Copied(FirmwareRefuse(s), k, id) == Copied(s, k, id)
  {
    if s.wire != [] { assert s.wire == [s.wire[0]] + s.wire[1..]; }
  }

  lemma DriverReadCopies(s: System, k: nat, id: u8)
    requires Sized(s) && 1 <= id < 100
    ensures Copied(DriverRead(s), k, id) == Copied(s, k, id)
  {
    if s.back != [] { assert s.back == [s.back[0]] + s.back[1..]; }
  }

  lemma AnswersCopies(s: System, n: nat, k: nat, id: u8)
    requires Sized(s) && 1 <= id < 100 && s.handling.Some? && (s.handling.value == k ==> s.lastId == id)
    ensures Copied(Step(s, FirmwareAnswers(n)), k, id) == Copied(s, k, id) + if s.handling.value == k then n - 1 else 0
  {
    var r, mine := ReplyTo(s.handling.value, s.lastId), ReplyTo(k, id);
    assert multiset(Copies(r, n))[mine] == if mine == r then n else 0;
  }

  lemma NumberAccounted(s: System, k: nat, least: bool, most: bool)
    requires Inv(s) && AllAccounted(s, least, most) && Paced(s, Number) && k <= |s.callers|
    ensures Accounted(Step(s, Number), k, least, most)
  {
    var t := Step(s, Number);
    NumberKeepsInv(s);
    IdInRange(t.callers, t.counter, k);
    if k < |s.callers| {
      assert Accounted(s, k, least, most);
      assert Copied(t, k, t.callers[k].id) == Copied(s, k, t.callers[k].id);
    } else {
      NotSentNotCopied(t, k, t.callers[k].id);
    }
  }

  lemma SendAccounted(s: System, j: nat, k: nat, least: bool, most: bool)
    requires Inv(s) && k < |s.callers| && Accounted(s, k, least, most)
    ensures Accounted(Step(s, Send(j)), k, least, most)
  {
    var t, id := Step(s, Send(j)), s.callers[k].id;
    assert Copied(t, k, id) == Copied(s, k, id) + if j == k && s.callers[k].stage.Numbered? then 1 else 0;
  }

  lemma FirmwareReadAccounted(s: System, k: nat, least: bool, most: bool)
    requires Inv(s) && k < |s.callers| && Accounted(s, k, least, most)
    ensures Accounted(FirmwareRead(s), k, least, most)
  {
    if s.wire != [] { assert s.wire[0] in s.wire; }
    FirmwareReadCopies(s, k, s.callers[k].id);
  }

  lemma AnswersAccounted(s: System, n: nat, k: nat, least: bool, most: bool)
    requires Inv(s) && k < |s.callers| && Accounted(s, k, least, most) && Answering(FirmwareAnswers(n), least, most)
    ensures Accounted(Step(s, FirmwareAnswers(n)), k, least, most)
  {
    if s.handling.Some? { AnswersCopies(s, n, k, s.callers[k].id); }
  }

  lemma ReceiveCopies(s: System, j: nat, k: nat, id: u8)
    requires Sized(s) && 1 <= id < 100 && IsWaiting(s.callers, j) && 1 <= s.callers[j].id < 100
    requires var q := s.queues[s.callers[j].id - 1]; q != [] && q[0] == ReplyTo(j, s.callers[j].id)
    requires j == k ==> s.callers[j].id == id
    ensures Copied(Receive(s, j), k, id) == Copied(s, k, id) - if j == k then 1 else 0
  {
    var q := s.queues[s.callers[j].id - 1];
    assert q == [q[0]] + q[1..];
  }

  lemma ReceiveAccounted(s: System, j: nat, k: nat, least: bool, most: bool)
    requires Inv(s) && k < |s.callers| && Accounted(s, k, least, most)
    ensures Accounted(Receive(s, j), k, least, most)
  {
    if IsWaiting(s.callers, j) {
      IdInRange(s.callers, s.counter, j);
      var q := s.queues[s.callers[j].id - 1];
      if q != [] {
        OwnQueue(s, j, q[0]);
        ReceiveCopies(s, j, k, s.callers[k].id);
      }
    }
  }

  lemma OtherCopies(s: System, e: Event, k: nat, id: u8)
    requires Sized(s) && 1 <= id < 100
    requires e.Notify? || e.FirmwareRefuses? || e.FirmwareTells? || e.DriverReads? || e.TimesOut?
    ensures Copied(Step(s, e), k, id) == Copied(s, k, id)
  {
    match e
    case FirmwareRefuses => FirmwareRefuseCopies(s, k, id);
    case DriverReads => DriverReadCopies(s, k, id);
    case _ =>
  }

  lemma OtherAccounted(s: System, e: Event, k: nat, least: bool, most: bool)
    requires Sized(s) && k < |s.callers| && Accounted(s, k, least, most)
    requires e.Notify? || e.FirmwareRefuses? || e.FirmwareTells? || e.DriverReads? || e.TimesOut?
    ensures Accounted(Step(s, e), k, least, most)
  {
    OtherCopies(s, e, k, s.callers[k].id);
  }

  lemma StepAccounted(s: System, e: Event, k: nat, least: bool, most: bool)
    requires Inv(s) && AllAccounted(s, least, most) && Paced(s, e) && Answering(e, least, most)
    requires k < |Step(s, e).callers|
    ensures Accounted(Step(s, e), k, least, most)
  {
    assert k < |s.callers| ==> Accounted(s, k, least, most);
    match e
    case Number => NumberAccounted(s, k, least, most);
    case Send(j) => SendAccounted(s, j, k, least, most);
    case FirmwareReads => FirmwareReadAccounted(s, k, least, most);
    case FirmwareAnswers(n) => AnswersAccounted(s, n, k, least, most);
    case CallerReceives(j) => ReceiveAccounted(s, j, k, least, most);
    case _ => OtherAccounted(s, e, k, least, most);
  }

  predicate AllAnswering(events: seq<Event>, least: bool, most: bool) {
    forall e :: e in events ==> Answering(e, least, most)
  }

  lemma {:induction false} RunAccounted(s: System, events: seq<Event>, least: bool, most: bool)
    requires Inv(s) && AllAccounted(s, least, most) && PacedRun(s, events) && AllAnswering(events, least, most)
    ensures Inv(Run(s, events)) && AllAccounted(Run(s, events), least, most)
    decreases |events|
  {
    if events == [] {
    } else {
      var t := Step(s, events[0]);
      StepKeepsInv(s, events[0]);
      forall k | 0 <= k < |t.callers|
        ensures Accounted(t, k, least, most)
      {
        StepAccounted(s, events[0], k, least, most);
      }
      RunAccounted(t, events[1..], least, most);
    }
  }

  // ---- Refused notifications ---------------------------------------------------------------

  /** Nothing that was not asked for is on its way or queued. */
  predicate NothingUnasked(s: System) {
    && (forall r :: r in s.back ==> !r.Unasked?)
    && (forall q, r :: 0 <= q < |s.queues| && r in s.queues[q] ==> !r.Unasked?)
  }

  predicate NoRefusal(events: seq<Event>) { forall e :: e in events ==> !e.FirmwareRefuses? }

  lemma StepAsksAll(s: System, e: Event)
    requires Sized(s) && NothingUnasked(s) && !e.FirmwareRefuses?
    ensures NothingUnasked(Step(s, e))
  {
    var t := Step(s, e);
    if e.DriverReads? && s.back != [] {
      assert s.back[0] in s.back;
      assert forall q, r :: 0 <= q < 100 && r in t.queues[q] ==> r in s.queues[q] || r == s.back[0];
    } else if e.CallerReceives? {
      assert forall q, r :: 0 <= q < 100 && r in t.queues[q] ==> r in s.queues[q];
    }
  }

  lemma {:induction false} RunAsksAll(s: System, events: seq<Event>)
    requires Sized(s) && NothingUnasked(s) && NoRefusal(events)
    ensures NothingUnasked(Run(s, events))
    decreases |events|
  {
    if events == [] {
    } else {
      assert events[0] in events && forall e :: e in events[1..] ==> e in events;
      StepAsksAll(s, events[0]);
      RunAsksAll(Step(s, events[0]), events[1..]);
    }
  }

  // ---- Main result -------------------------------------------------------------------------

  /** A queue of copies of one reply is as long as the number of copies. */
  lemma {:induction false} CountAll(q: seq<Reply>, r: Reply)
    requires forall x :: x in q ==> x == r
    ensures multiset(q)[r] == |q|
  {
    if q == [] {
    } else {
      assert q == [q[0]] + q[1..] && q[0] in q;
      assert forall x :: x in q[1..] ==> x in q;
      CountAll(q[1..], r);
    }
  }

  /** What a waiting caller finds in its queue when nothing is on its way. */
  predicate OwnQueueOnly(q: seq<Reply>, k: nat, id: u8, least: bool, most: bool) {
    && (forall r :: r in q ==> r == ReplyTo(k, id) || r == Unasked(id))
    && (q != [] ==> q[0] == ReplyTo(k, id))
    && (least ==> q != []) && (most ==> multiset(q)[ReplyTo(k, id)] <= 1)
    && ((forall r :: r in q ==> !r.Unasked?) ==>
        (forall r :: r in q ==> r == ReplyTo(k, id)) && (most ==> |q| <= 1))
  }

  lemma NothingOnItsWay(s: System, k: nat, least: bool, most: bool)
    requires Inv(s) && IsWaiting(s.callers, k) && Accounted(s, k, least, most)
    requires s.wire == [] && s.handling.None? && s.back == [] && 1 <= s.callers[k].id < 100
    ensures OwnQueueOnly(s.queues[s.callers[k].id - 1], k, s.callers[k].id, least, most)
  {
    var q, r := s.queues[s.callers[k].id - 1], ReplyTo(k, s.callers[k].id);
    forall x | x in q
      ensures (x == r || x == Unasked(r.id)) && (x == q[0] ==> x == r)
    {
      OwnQueue(s, k, x);
    }
    if q != [] { assert q[0] in q; }
    if forall x :: x in q ==> !x.Unasked? { CountAll(q, r); }
  }

  /** If ids are given out again only when they are unused, and notifications refused only when that can do no
      harm, every caller that received a reply received one to its own request, whoever gives up waiting and
      however often the firmware answers. When nothing is on its way, a waiting caller finds in its queue, first,
      a reply to its own request, and no reply to another: one at least if every request is answered, one at most
      if none is answered twice, and nothing else if no notification was refused. */
  lemma OwnReplies(s: System, events: seq<Event>, least: bool, most: bool)
    requires Initial(s) && PacedRun(s, events) && AllAnswering(events, least, most)
    ensures var r := Run(s, events);
            && (forall k :: 0 <= k < |r.callers| ==> 1 <= r.callers[k].id <= IDS)
            && (forall k :: 0 <= k < |r.callers| && r.callers[k].stage.Done? ==> r.callers[k].stage.answered == Some(k))
            && (NoRefusal(events) ==> NothingUnasked(r))
            && (r.wire == [] && r.handling.None? && r.back == [] ==>
                forall k :: 0 <= k < |r.callers| && r.callers[k].stage.Waiting? ==>
                  OwnQueueOnly(r.queues[r.callers[k].id - 1], k, r.callers[k].id, least, most))
  {
    InvInitially(s);
    RunAccounted(s, events, least, most);
    var r := Run(s, events);
    if NoRefusal(events) { RunAsksAll(s, events); }
    if r.wire == [] && r.handling.None? && r.back == [] {
      forall k | 0 <= k < |r.callers| && r.callers[k].stage.Waiting?
        ensures OwnQueueOnly(r.queues[r.callers[k].id - 1], k, r.callers[k].id, least, most)
      {
        NothingOnItsWay(r, k, least, most);
      }
    }
  }
}
