/**
  What the driver can see is enough to pace it: if it numbers a request only when the one 99 before has its reply,
  and the firmware neither answers a request twice nor refuses a notification, ids are given out only when unused.
 */
module RequestPacing {
  import opened Bytes
  import opened RequestIds

  /** At most 99 requests without their reply. Timeouts and missing answers are allowed: whoever gave up never has
      its reply, so its id is not given out again. */
  predicate Ordinary(s: System, e: Event) {
    && (e.Number? && |s.callers| >= IDS ==> s.callers[|s.callers| - IDS].stage.Done?)
    && (e.FirmwareAnswers? ==> e.n <= 1)
    && !e.FirmwareRefuses?
  }

  predicate OrdinaryRun(s: System, events: seq<Event>)
    requires Sized(s)
    decreases |events|
  {
    events == [] || (Ordinary(s, events[0]) && OrdinaryRun(Step(s, events[0]), events[1..]))
  }

  /** Of a request that has its reply nothing is left. */
  predicate Spent(s: System, k: nat)
    requires Sized(s) && k < |s.callers|
  {
    s.callers[k].stage.Done? ==> 1 <= s.callers[k].id < 100 && Copied(s, k, s.callers[k].id) == 0
  }

  predicate AllSpent(s: System)
    requires Sized(s)
  {
    forall k :: 0 <= k < |s.callers| ==> Spent(s, k)
  }

  predicate OnceInv(s: System) { Inv(s) && NothingUnasked(s) && AllAccounted(s, false, true) && AllSpent(s) }

  // ---- The id is unused --------------------------------------------------------------------

  /** What carries an id belongs to the last caller with that id, of whose request it is a copy. */
  lemma LeftIsSomeones(s: System, id: u8) returns (j: nat)
    requires Inv(s) && NothingUnasked(s) && 1 <= id < 100 && Left(s, id)
    ensures Current(s.callers, j, id) && Copied(s, j, id) > 0
  {
    if p :| p in s.wire && p.Request? && p.id == id {
      j := p.k;
      assert Request(j, id) in s.wire;
    } else if s.handling.Some? && s.lastId == id {
      j := s.handling.value;
    } else if r :| r in s.back && Carries(r, id) {
      j := r.k;
      assert ReplyTo(j, id) in s.back;
    } else {
      var r := s.queues[id - 1][0];
      assert r in s.queues[id - 1];
      j := r.k;
      assert ReplyTo(j, id) in s.queues[id - 1];
    }
  }

  /** The first 99 ids are all different. */
  lemma NothingYet(s: System)
    requires Inv(s) && NothingUnasked(s) && |s.callers| < IDS
    ensures Unused(s, NextId(s.counter))
  {
    forall j | 0 <= j < |s.callers|
      ensures s.callers[j].id != NextId(s.counter)
    {
      IdsRepeat(j + 1, |s.callers| + 1);
    }
    if Left(s, NextId(s.counter)) {
      var j := LeftIsSomeones(s, NextId(s.counter));
    }
  }

  /** Nothing carries the id of a caller that has its reply, if it is one of the last 99. */
  lemma NothingLeft(s: System, k: nat)
    requires Inv(s) && NothingUnasked(s) && k < |s.callers| <= k + IDS && s.callers[k].stage.Done? && Spent(s, k)
    ensures !Left(s, s.callers[k].id)
  {
    if Left(s, s.callers[k].id) {
      var j := LeftIsSomeones(s, s.callers[k].id);
      SameId(s.callers, s.counter, j, k);
    }
  }

  lemma OrdinaryIsUnused(s: System)
    requires OnceInv(s) && Ordinary(s, Number)
    ensures Unused(s, NextId(s.counter))
  {
    if |s.callers| < IDS {
      NothingYet(s);
    } else {
      var k := |s.callers| - IDS;
      NextIsOldest(s.callers, s.counter);
      assert Spent(s, k);
      NothingLeft(s, k);
      forall j | 0 <= j < |s.callers| && s.callers[j].id == NextId(s.counter)
        ensures Settled(s.callers[j])
      {
        if j >= k { SameId(s.callers, s.counter, j, k); }
      }
    }
  }

  // ---- The invariant is kept ---------------------------------------------------------------

  lemma ReceiveSpends(s: System, j: nat, k: nat)
    requires Inv(s) && k < |s.callers| && Spent(s, k) && Accounted(s, k, false, true)
    ensures Spent(Receive(s, j), k)
  {
    if IsWaiting(s.callers, j) {
      IdInRange(s.callers, s.counter, j);
      var q := s.queues[s.callers[j].id - 1];
      if q != [] {
        OwnQueue(s, j, q[0]);
        ReceiveCopies(s, j, k, s.callers[k].id);
      }
    }
  }

  lemma AnswersKeepSpent(s: System, n: nat, k: nat)
    requires Inv(s) && k < |s.callers| && Spent(s, k)
    ensures Spent(Step(s, FirmwareAnswers(n)), k)
  {
    if s.callers[k].stage.Done? && s.handling.Some? { AnswersCopies(s, n, k, s.callers[k].id); }
  }

  lemma SendKeepsSpent(s: System, j: nat, k: nat)
    requires Inv(s) && k < |s.callers| && Spent(s, k)
    ensures Spent(Step(s, Send(j)), k)
  {
    var t, id := Step(s, Send(j)), s.callers[k].id;
    if t.callers[k].stage.Done? {
      assert Copied(t, k, id) == Copied(s, k, id);
    }
  }

  lemma FirmwareReadKeepsSpent(s: System, k: nat)
    requires Inv(s) && k < |s.callers| && Spent(s, k)
    ensures Spent(FirmwareRead(s), k)
  {
    if s.callers[k].stage.Done? {
      if s.wire != [] { assert s.wire[0] in s.wire; }
      FirmwareReadCopies(s, k, s.callers[k].id);
    }
  }

  lemma OtherKeepsSpent(s: System, e: Event, k: nat)
    requires Sized(s) && k < |s.callers| && Spent(s, k)
    requires e.Number? || e.Notify? || e.FirmwareTells? || e.DriverReads? || e.TimesOut?
    ensures Spent(Step(s, e), k)
  {
    if s.callers[k].stage.Done? && !e.Number? { OtherCopies(s, e, k, s.callers[k].id); }
  }

  lemma StepSpends(s: System, e: Event, k: nat)
    requires OnceInv(s) && Ordinary(s, e) && k < |Step(s, e).callers|
    ensures Spent(Step(s, e), k)
  {
    if k < |s.callers| {
      assert Spent(s, k) && Accounted(s, k, false, true);
      match e
      case Send(j) => SendKeepsSpent(s, j, k);
      case FirmwareReads => FirmwareReadKeepsSpent(s, k);
      case FirmwareAnswers(n) => AnswersKeepSpent(s, n, k);
      case CallerReceives(j) => ReceiveSpends(s, j, k);
      case _ => OtherKeepsSpent(s, e, k);
    }
  }

  lemma OrdinaryIsPaced(s: System, e: Event)
    requires OnceInv(s) && Ordinary(s, e)
    ensures Paced(s, e)
  {
    if e.Number? { OrdinaryIsUnused(s); }
  }

  lemma StepKeepsOnce(s: System, e: Event)
    requires OnceInv(s) && Ordinary(s, e)
    ensures Paced(s, e) && OnceInv(Step(s, e))
  {
    OrdinaryIsPaced(s, e);
    StepKeepsInv(s, e);
    StepAsksAll(s, e);
    forall k | 0 <= k < |Step(s, e).callers|
      ensures Accounted(Step(s, e), k, false, true) && Spent(Step(s, e), k)
    {
      StepAccounted(s, e, k, false, true);
      StepSpends(s, e, k);
    }
  }

  // ---- Whole runs --------------------------------------------------------------------------

  lemma {:induction false} OnceIsPaced(s: System, events: seq<Event>)
    requires OnceInv(s) && OrdinaryRun(s, events)
    ensures PacedRun(s, events) && AllAnswering(events, false, true) && NoRefusal(events)
    decreases |events|
  {
    if events == [] {
    } else {
      StepKeepsOnce(s, events[0]);
      OnceIsPaced(Step(s, events[0]), events[1..]);
      assert forall e :: e in events ==> e == events[0] || e in events[1..];
    }
  }

  /** A run that is ordinary, as the driver can see, is one in which ids are given out only when unused. */
  lemma OrdinaryRunIsPaced(s: System, events: seq<Event>)
    requires Initial(s) && OrdinaryRun(s, events)
    ensures PacedRun(s, events) && AllAnswering(events, false, true) && NoRefusal(events)
  {
    InvInitially(s);
    OnceIsPaced(s, events);
  }

  /** So in every such run every reply goes to the caller whose request it answers, and a caller who waits when
      nothing is on its way finds its reply and nothing else, unless the firmware never answered. */
  lemma OwnRepliesOrdinarily(s: System, events: seq<Event>)
    requires Initial(s) && OrdinaryRun(s, events)
    ensures var r := Run(s, events);
            && (forall k :: 0 <= k < |r.callers| ==> 1 <= r.callers[k].id <= IDS)
            && (forall k :: 0 <= k < |r.callers| && r.callers[k].stage.Done? ==>
                 r.callers[k].stage.answered == Some(k))
            && (r.wire == [] && r.handling.None? && r.back == [] ==>
                forall k :: 0 <= k < |r.callers| && r.callers[k].stage.Waiting? ==>
                  var q, reply := r.queues[r.callers[k].id - 1], ReplyTo(k, r.callers[k].id);
                  && (q == [] || q == [reply])
                  && ((forall n :: FirmwareAnswers(n) in events ==> n == 1) ==> q == [reply]))
  {
    OrdinaryRunIsPaced(s, events);
    OwnReplies(s, events, false, true);
    if forall n :: FirmwareAnswers(n) in events ==> n == 1 {
      assert AllAnswering(events, true, true);
      OwnReplies(s, events, true, true);
    }
    var r := Run(s, events);
    if r.wire == [] && r.handling.None? && r.back == [] {
      forall k | 0 <= k < |r.callers| && r.callers[k].stage.Waiting?
        ensures var q, reply := r.queues[r.callers[k].id - 1], ReplyTo(k, r.callers[k].id); q == [] || q == [reply]
      {
        var q := r.queues[r.callers[k].id - 1];
        assert forall x :: x in q ==> !x.Unasked?;
        if q != [] { assert q[0] in q; }
      }
    }
  }
}
