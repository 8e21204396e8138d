/**
  When an id may be given out again, and when a notification may be refused: exactly when the id is unused, and when
  nobody waits under the id that was read last with nothing coming in. Otherwise some caller can receive what is not
  the reply to its request, and runs that lead there are easily found.
 */
module RequestReuse {
  import opened Bytes
  import opened RequestIds

  /** Nobody takes an id, and nothing is refused. */
  predicate Orderly(events: seq<Event>) { forall e :: e in events ==> !e.Number? && !e.FirmwareRefuses? }

  /** Whoever received a reply received one to its own request. */
  predicate OwnOnly(s: System) {
    forall k :: 0 <= k < |s.callers| && s.callers[k].stage.Done? ==> s.callers[k].stage.answered == Some(k)
  }

  lemma {:induction false} RunConcat(s: System, first: seq<Event>, second: seq<Event>)
    requires Sized(s)
    ensures Run(s, first + second) == Run(Run(s, first), second)
    decreases |first|
  {
    if first == [] {
      assert first + second == second;
    } else {
      assert (first + second)[1..] == first[1..] + second;
      RunConcat(Step(s, first[0]), first[1..], second);
    }
  }

  lemma RunOne(s: System, e: Event)
    requires Sized(s)
    ensures Run(s, [e]) == Step(s, e)
  {
    assert [e][1..] == [];
  }

  lemma RunTwo(s: System, e: Event, e': Event)
    requires Sized(s)
    ensures Run(s, [e, e']) == Step(Step(s, e), e')
  {
    assert [e, e'][1..] == [e'];
    RunOne(Step(s, e), e');
  }

  lemma {:induction false} OrderlyIsPaced(s: System, events: seq<Event>)
    requires Sized(s) && Orderly(events)
    ensures PacedRun(s, events)
    decreases |events|
  {
    if events == [] {
    } else {
      assert events[0] in events && forall e :: e in events[1..] ==> e in events;
      OrderlyIsPaced(Step(s, events[0]), events[1..]);
    }
  }

  // ---- Replies always get through ----------------------------------------------------------

  /** Nothing that carries the id belongs to request `x`. */
  predicate Avoids(s: System, id: u8, x: nat)
    requires Sized(s) && 1 <= id < 100
  {
    && (forall p :: p in s.wire && p.Request? ==> p.id != 0 && (p.id == id ==> p.k != x))
    && (s.handling.Some? && s.lastId == id ==> s.handling.value != x)
    && (forall r :: r in s.back && Carries(r, id) ==> Answers(r) != Some(x))
    && (forall r :: r in s.queues[id - 1] ==> !r.Unsolicited? && Answers(r) != Some(x))
  }

  /** How many steps the messages under way are from the queues. */
  function Distance(s: System): nat { 3 * |s.wire| + (if s.handling.Some? then 2 else 0) + |s.back| }

  /** `t` is `s` with messages nearer to the queues. */
  predicate Nearer(s: System, t: System) {
    Distance(t) < Distance(s) && t.callers == s.callers && t.counter == s.counter
  }

  function NextDrain(s: System): Event {
    if s.back != [] then DriverReads else if s.handling.Some? then FirmwareAnswers(1) else FirmwareReads
  }

  lemma DriverReadDrains(s: System, id: u8, x: nat)
    requires Sized(s) && 1 <= id < 100 && Left(s, id) && Avoids(s, id, x) && s.queues[id - 1] == [] && s.back != []
    ensures var t := DriverRead(s);
            Left(t, id) && Avoids(t, id, x) && Nearer(s, t)
  {
    var t := DriverRead(s);
    assert forall r :: r in s.back ==> r == s.back[0] || r in t.back;
  }

  lemma AnswerDrains(s: System, id: u8, x: nat)
    requires Sized(s) && 1 <= id < 100 && Left(s, id) && Avoids(s, id, x) && s.back == [] && s.handling.Some?
    ensures var t := Step(s, FirmwareAnswers(1));
            Left(t, id) && Avoids(t, id, x) && Nearer(s, t)
  {
    var t := Step(s, FirmwareAnswers(1));
    assert t.back[0] in t.back;
  }

  lemma FirmwareReadDrains(s: System, id: u8, x: nat)
    requires Sized(s) && 1 <= id < 100 && Left(s, id) && Avoids(s, id, x)
    requires s.queues[id - 1] == [] && s.back == [] && s.handling.None?
    ensures var t := FirmwareRead(s);
            Left(t, id) && Avoids(t, id, x) && Nearer(s, t)
  {
    var t := FirmwareRead(s);
    assert forall p :: p in s.wire ==> p == s.wire[0] || p in t.wire;
  }

  lemma DrainStep(s: System, id: u8, x: nat)
    requires Sized(s) && 1 <= id < 100 && Left(s, id) && Avoids(s, id, x) && s.queues[id - 1] == []
    ensures var t := Step(s, NextDrain(s));
            Left(t, id) && Avoids(t, id, x) && Nearer(s, t)
  {
    if s.back != [] {
      DriverReadDrains(s, id, x);
    } else if s.handling.Some? {
      AnswerDrains(s, id, x);
    } else {
      FirmwareReadDrains(s, id, x);
    }
  }

  /** Firmware and reader thread can bring a reply with the id into its queue, where it is the first. */
  lemma {:induction false} Drain(s: System, id: u8, x: nat) returns (more: seq<Event>)
    requires Sized(s) && 1 <= id < 100 && Left(s, id) && Avoids(s, id, x)
    ensures Orderly(more)
    ensures var t := Run(s, more);
            && t.callers == s.callers && t.counter == s.counter && t.queues[id - 1] != []
            && !t.queues[id - 1][0].Unsolicited? && Answers(t.queues[id - 1][0]) != Some(x)
    decreases Distance(s)
  {
    if s.queues[id - 1] != [] {
      more := [];
      assert s.queues[id - 1][0] in s.queues[id - 1];
    } else {
      var e := NextDrain(s);
      DrainStep(s, id, x);
      var rest := Drain(Step(s, e), id, x);
      more := [e] + rest;
      assert more[1..] == rest;
    }
  }

  /** A caller takes what is first in its queue. */
  lemma TakesFirst(s: System, k: nat)
    requires Sized(s) && k < |s.callers| && !Settled(s.callers[k]) && 1 <= s.callers[k].id < 100
    requires var q := s.queues[s.callers[k].id - 1]; q != [] && !q[0].Unsolicited?
    ensures var t := Run(s, [Send(k), CallerReceives(k)]);
            k < |t.callers| && t.callers[k].stage == Done(Answers(s.queues[s.callers[k].id - 1][0]))
  {
    RunTwo(s, Send(k), CallerReceives(k));
  }

  // ---- An id that is given out too early ---------------------------------------------------

  /** A state that can be continued, without any further id or refusal, so that a caller receives a wrong reply. */
  ghost predicate GoesWrong(s: System)
    requires Sized(s)
  {
    exists more :: Orderly(more) && !OwnOnly(Run(s, more))
  }

  lemma ThenGoesWrong(s: System, first: seq<Event>, k: nat, answered: Option<nat>)
    requires Sized(s) && Orderly(first)
    requires var t := Run(s, first + [Send(k), CallerReceives(k)]);
             k < |t.callers| && t.callers[k].stage == Done(answered) && answered != Some(k)
    ensures GoesWrong(s)
  {
    assert Orderly(first + [Send(k), CallerReceives(k)]);
  }

  /** Something that carries the id is left: the new caller receives it. */
  lemma LeftoverIsReceived(s: System)
    requires Inv(s) && Left(s, NextId(s.counter))
    ensures GoesWrong(Step(s, Number))
  {
    var k, id := |s.callers|, NextId(s.counter);
    var s1 := Step(s, Number);
    assert forall p :: p in s.wire && p.Request? ==> Current(s.callers, p.k, p.id) && p.id == Counter(p.k + 1);
    var drain := Drain(s1, id, k);
    var t := Run(s1, drain);
    TakesFirst(t, k);
    RunConcat(s1, drain, [Send(k), CallerReceives(k)]);
    ThenGoesWrong(s1, drain, k, Answers(t.queues[id - 1][0]));
  }

  /** An earlier caller still has the id: it receives the reply to the new one. */
  lemma EarlierCallerReceives(s: System, j: nat)
    requires Inv(s) && !Left(s, NextId(s.counter))
    requires j < |s.callers| && s.callers[j].id == NextId(s.counter) && !Settled(s.callers[j])
    ensures GoesWrong(Step(s, Number))
  {
    var k, id := |s.callers|, NextId(s.counter);
    var s1 := Step(s, Number);
    var s2 := Step(s1, Send(k));
    assert s2.wire == s.wire + [Request(k, id)] && Request(k, id) in s2.wire;
    assert forall p :: p in s.wire && p.Request? ==> Current(s.callers, p.k, p.id) && p.id == Counter(p.k + 1);
    var drain := Drain(s2, id, j);
    var t := Run(s2, drain);
    TakesFirst(t, j);
    RunConcat(s2, drain, [Send(j), CallerReceives(j)]);
    RunOne(s1, Send(k));
    RunConcat(s1, [Send(k)], drain + [Send(j), CallerReceives(j)]);
    ConcatAssociative([Send(k)], drain, [Send(j), CallerReceives(j)]);
    ThenGoesWrong(s1, [Send(k)] + drain, j, Answers(t.queues[id - 1][0]));
  }

  lemma UnusedIsSafe(s: System, more: seq<Event>)
    requires Inv(s) && Unused(s, NextId(s.counter)) && Orderly(more)
    ensures OwnOnly(Run(Step(s, Number), more))
  {
    NumberKeepsInv(s);
    OrderlyIsPaced(Step(s, Number), more);
    RunKeepsInv(Step(s, Number), more);
  }

  /** The exact condition. After a run in which ids were given out only when unused, the next id can be given out
      without any caller ever receiving a wrong reply, if and only if it is unused. */
  lemma ReuseExact(s: System, events: seq<Event>)
    requires Initial(s) && PacedRun(s, events)
    ensures var r := Run(s, events); Unused(r, NextId(r.counter)) <==> !GoesWrong(Step(r, Number))
  {
    InvInitially(s);
    RunKeepsInv(s, events);
    var r := Run(s, events);
    var id := NextId(r.counter);
    if Unused(r, id) {
      forall more | Orderly(more)
        ensures OwnOnly(Run(Step(r, Number), more))
      {
        UnusedIsSafe(r, more);
      }
    } else if Left(r, id) {
      LeftoverIsReceived(r);
    } else {
      var c :| c in r.callers && c.id == id && !Settled(c);
      var j :| 0 <= j < |r.callers| && r.callers[j] == c;
      EarlierCallerReceives(r, j);
    }
  }

  // ---- A notification that is refused too early ---------------------------------------------

  /** The reader thread can bring what comes in under an id into its queue. */
  lemma {:induction false} BringIn(s: System, id: u8) returns (more: seq<Event>)
    requires Sized(s) && 1 <= id < 100 && Incoming(s.queues, s.back, id) != []
    ensures Orderly(more)
    ensures var t := Run(s, more);
            && t.callers == s.callers
            && t.queues[id - 1] != [] && t.queues[id - 1][0] == Incoming(s.queues, s.back, id)[0]
    decreases |s.back|
  {
    if s.queues[id - 1] != [] {
      more := [];
    } else {
      IncomingStays(s, id);
      var rest := BringIn(DriverRead(s), id);
      more := [DriverReads] + rest;
      assert more[1..] == rest;
    }
  }

  /** Somebody waits under the id that was read last, and nothing comes in before the refusal. */
  lemma RefusalIsReceived(s: System, k: nat)
    requires Inv(s) && Refusing(s) && 1 <= s.lastId < 100 && Incoming(s.queues, s.back, s.lastId) == []
    requires k < |s.callers| && s.callers[k].id == s.lastId && !Settled(s.callers[k])
    ensures GoesWrong(FirmwareRefuse(s))
  {
    var id, s1 := s.lastId, FirmwareRefuse(s);
    IncomingGrows(s.queues, s.back, [Unasked(id)], id);
    OfIdOne(Unasked(id), id);
    var more := BringIn(s1, id);
    var t := Run(s1, more);
    TakesFirst(t, k);
    RunConcat(s1, more, [Send(k), CallerReceives(k)]);
    ThenGoesWrong(s1, more, k, None);
  }

  lemma CoveredIsSafe(s: System, more: seq<Event>)
    requires Inv(s) && Covered(s) && Orderly(more)
    ensures OwnOnly(Run(FirmwareRefuse(s), more))
  {
    RefusalKeepsInv(s);
    OrderlyIsPaced(FirmwareRefuse(s), more);
    RunKeepsInv(FirmwareRefuse(s), more);
  }

  /** The exact condition. A notification that the firmware has to refuse next can do no harm if and only if everyone
      who may still receive something under the id that was read last has something coming in already. */
  lemma RefusalExact(s: System, events: seq<Event>)
    requires Initial(s) && PacedRun(s, events) && Refusing(Run(s, events))
    ensures var r := Run(s, events); Covered(r) <==> !GoesWrong(FirmwareRefuse(r))
  {
    InvInitially(s);
    RunKeepsInv(s, events);
    var r := Run(s, events);
    if Covered(r) {
      forall more | Orderly(more)
        ensures OwnOnly(Run(FirmwareRefuse(r), more))
      {
        CoveredIsSafe(r, more);
      }
    } else {
      var c :| c in r.callers && c.id == r.lastId && !Settled(c);
      var k :| 0 <= k < |r.callers| && r.callers[k] == c;
      RefusalIsReceived(r, k);
    }
  }

  // ---- Runs that lead there ----------------------------------------------------------------

  function Numbers(n: nat): (events: seq<Event>)
    ensures |events| == n && forall i :: 0 <= i < n ==> events[i] == Number
  {
    seq(n, i => Number)
  }

  lemma {:induction false} NumbersOnly(s: System, n: nat)
    requires Sized(s) && s.counter == |s.callers| % IDS + 1
    ensures var t := Run(s, Numbers(n));
            && t == s.(counter := t.counter, callers := t.callers) && t.counter == |t.callers| % IDS + 1
            && |t.callers| == |s.callers| + n && t.callers[..|s.callers|] == s.callers
    decreases n
  {
    if n == 0 {
    } else {
      assert Numbers(n)[1..] == Numbers(n - 1);
      var s1 := Step(s, Number);
      Successor(|s.callers|);
      NumbersOnly(s1, n - 1);
      var t := Run(s1, Numbers(n - 1));
      assert t.callers[..|s.callers|] == t.callers[..|s1.callers|][..|s.callers|];
    }
  }

  /** Only caller 0 was there, and a reply to it is left in its queue. */
  predicate LeftBehind(s: System) {
    && Sized(s) && |s.callers| == 1 && s.counter == 2
    && s.queues[1] != [] && s.queues[1][0] == ReplyTo(0, 2)
  }

  /** The rest of the run: 98 others take an id each, and the next caller has that of caller 0. */
  function GoOn(): seq<Event> { Numbers(98) + [Number] + [Send(99), CallerReceives(99)] }

  lemma OneMoreNumber(s: System, n: nat)
    requires Sized(s) && s.counter == |s.callers| % IDS + 1
    ensures var t := Run(s, Numbers(n) + [Number]);
            var id := (|s.callers| + n + 1) % IDS + 1;
            && |t.callers| == |s.callers| + n + 1 && t.callers[|s.callers| + n] == Caller(id, Numbered)
            && t.queues == s.queues
  {
    NumbersOnly(s, n);
    var t := Run(s, Numbers(n));
    Successor(|t.callers|);
    RunOne(t, Number);
    RunConcat(s, Numbers(n), [Number]);
  }

  lemma StaleReply(s: System)
    requires LeftBehind(s)
    ensures var t := Run(s, GoOn()); 99 < |t.callers| && t.callers[99].stage == Done(Some(0))
  {
    OneMoreNumber(s, 98);
    TakesFirst(Run(s, Numbers(98) + [Number]), 99);
    RunConcat(s, Numbers(98) + [Number], [Send(99), CallerReceives(99)]);
  }

  /** Caller 0 sends a request, and the firmware answers it `n` times. */
  function Asked(n: nat): seq<Event> { [Number, Send(0)] + [FirmwareReads, FirmwareAnswers(n)] }

  lemma AfterAsked(s: System, n: nat)
    requires Initial(s)
    ensures Run(s, Asked(n)) == s.(counter := 2, callers := [Caller(2, Waiting)],
                                   lastId := 2, back := Copies(ReplyTo(0, 2), n))
  {
    var s1 := Run(s, [Number, Send(0)]);
    RunTwo(s, Number, Send(0));
    assert s1 == s.(counter := 2, callers := [Caller(2, Waiting)], wire := [Request(0, 2)]);
    RunTwo(s1, FirmwareReads, FirmwareAnswers(n));
    assert s1.wire[1..] == s.wire;
    assert [] + Copies(ReplyTo(0, 2), n) == Copies(ReplyTo(0, 2), n);
    RunConcat(s, [Number, Send(0)], [FirmwareReads, FirmwareAnswers(n)]);
  }

  lemma ThenStale(s: System, n: nat, last: seq<Event>)
    requires Initial(s) && LeftBehind(Run(Run(s, Asked(n)), last))
    ensures var t := Run(s, Asked(n) + last + GoOn()); 99 < |t.callers| && t.callers[99].stage == Done(Some(0))
  {
    RunConcat(s, Asked(n), last);
    RunConcat(s, Asked(n) + last, GoOn());
    StaleReply(Run(s, Asked(n) + last));
  }

  /** Caller 0 is slow: 99 requests later another caller takes the reply that waits for it. */
  lemma SlowCaller(s: System)
    requires Initial(s)
    ensures var t := Run(s, Asked(1) + [DriverReads] + GoOn()); 99 < |t.callers| && t.callers[99].stage == Done(Some(0))
  {
    AfterAsked(s, 1);
    RunOne(Run(s, Asked(1)), DriverReads);
    ThenStale(s, 1, [DriverReads]);
  }

  /** Caller 0 gives up before the reply arrives. */
  lemma LateReply(s: System)
    requires Initial(s)
    ensures var t := Run(s, Asked(1) + [TimesOut(0), DriverReads] + GoOn());
            99 < |t.callers| && t.callers[99].stage == Done(Some(0))
  {
    AfterAsked(s, 1);
    RunTwo(Run(s, Asked(1)), TimesOut(0), DriverReads);
    ThenStale(s, 1, [TimesOut(0), DriverReads]);
  }

  /** Caller 0 closes a channel, which is answered twice; it receives the first answer, and the second stays. */
  lemma SecondReply(s: System)
    requires Initial(s)
    ensures var t := Run(s, Asked(2) + ([DriverReads, CallerReceives(0)] + [DriverReads]) + GoOn());
            99 < |t.callers| && t.callers[99].stage == Done(Some(0))
  {
    AfterAsked(s, 2);
    AnsweredTwice(Run(s, Asked(2)));
    ThenStale(s, 2, [DriverReads, CallerReceives(0)] + [DriverReads]);
  }

  lemma AnsweredTwice(s: System)
    requires Sized(s) && s.callers == [Caller(2, Waiting)] && s.counter == 2 && s.queues[1] == []
    requires s.back == [ReplyTo(0, 2), ReplyTo(0, 2)]
    ensures LeftBehind(Run(s, [DriverReads, CallerReceives(0)] + [DriverReads]))
  {
    var s1 := Run(s, [DriverReads, CallerReceives(0)]);
    RunTwo(s, DriverReads, CallerReceives(0));
    RunOne(s1, DriverReads);
    RunConcat(s, [DriverReads, CallerReceives(0)], [DriverReads]);
  }

  /** Caller 0 sends a segmented message and asks for an answer, which the firmware never gives; it receives the
      refusal of somebody's notification instead. */
  lemma UnaskedReply(s: System)
    requires Initial(s)
    ensures var t := Run(s, Asked(0) + [Notify, FirmwareRefuses] + [DriverReads, CallerReceives(0)]);
            0 < |t.callers| && t.callers[0].stage == Done(None)
  {
    AfterAsked(s, 0);
    var s1 := Run(s, Asked(0));
    RunTwo(s1, Notify, FirmwareRefuses);
    var s2 := Run(s1, [Notify, FirmwareRefuses]);
    RunTwo(s2, DriverReads, CallerReceives(0));
    RunConcat(s, Asked(0), [Notify, FirmwareRefuses]);
    RunConcat(s, Asked(0) + [Notify, FirmwareRefuses], [DriverReads, CallerReceives(0)]);
  }
}
