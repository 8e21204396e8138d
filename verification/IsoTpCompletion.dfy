/**
  What two linked channels achieve over whole runs, if the block sizes they advertise are large enough for the
  messages they send: neither waits for good, and when nothing is left to do, everything is done.
 */
module IsoTpCompletion {
  import opened IsoTp
  import opened IsoTpLength
  import opened IsoTpLink
  import opened IsoTpProgress
  import opened IsoTpNeed
  import opened IsoTpClearance

  /** No stall: a sender with bytes left is clear to send, or a flow control, or a frame that will trigger
      one, is in flight. */
  lemma NoStall(s0: System, actions: seq<Action>, need: nat)
    requires InitiallyReady(s0, need) && AllProvided(actions, need)
    ensures AllFeasible(actions)
    ensures var s := RunSystem(s0, actions);
            && (s.x.c.tx.pos < s.x.c.tx.size && !s.x.c.tx.clearToSend ==> Pending(s.x, s.y) >= 1 && !Quiet(s))
            && (s.y.c.tx.pos < s.y.c.tx.size && !s.y.c.tx.clearToSend ==> Pending(s.y, s.x) >= 1 && !Quiet(s))
  {
    ClearInitially(s0, need);
    RunKeepsClear(s0, actions, need);
  }

  /** Nothing is left of a message: all of it is sent and the sender accepts the next one. */
  predicate SenderDone(tx: Sender) { tx.pos == tx.size && !tx.isSending && !tx.clearToSend }

  /** Being at rest means being done: both senders have sent everything and accept the next message, and
      both PCs have received every accepted message, once and up to the length it was decoded to. */
  ghost predicate Done(s: System) {
    && s.x.c.Valid() && s.y.c.Valid() && Quiet(s)
    && SenderDone(s.x.c.tx) && SenderDone(s.y.c.tx)
    && multiset(s.y.received) == multiset(Images(s.x.accepted))
    && multiset(s.x.received) == multiset(Images(s.y.accepted))
  }

  lemma RestMeansDone(s: System, need: nat)
    requires ClearInv(s, need) && AtRest(s)
    ensures Done(s)
  {
    var beyond := NothingBeyond();
    assert !Productive(s, Left(Deliver(beyond, 0)));
    assert !Productive(s, Right(Deliver(beyond, 0)));
    assert !Productive(s, Left(Transmit(s.x.c.tx.nextSendTime + 1, 0)));
    assert !Productive(s, Right(Transmit(s.y.c.tx.nextSendTime + 1, 0)));
    NothingPendingMeansDone(s.x, s.y, need);
    NothingPendingMeansDone(s.y, s.x, need);
    TransferDelivers(s.x, s.y);
    TransferDelivers(s.y, s.x);
  }

  lemma NothingPendingMeansDone(x: Node, y: Node, need: nat)
    requires NodeInv(x) && NodeInv(y) && Ready(x, need) && ClearedFrom(x, y, need) && TransferInv(x, y)
    requires x.outbox == [] && y.outbox == [] && !(x.c.tx.isSending && x.c.tx.clearToSend)
    ensures SenderDone(x.c.tx) && !InProgress(x.c.tx)
  {
    if x.c.tx.size >= 12 {
      DecodedRange(x.c.tx.size);
    }
  }

  /** Completion, for every run: when nothing is left to do, everything is done. */
  lemma Completion(s0: System, actions: seq<Action>, need: nat)
    requires InitiallyReady(s0, need) && AllProvided(actions, need)
    ensures AllFeasible(actions)
    ensures AtRest(RunSystem(s0, actions)) ==> Done(RunSystem(s0, actions))
  {
    ClearInitially(s0, need);
    RunKeepsClear(s0, actions, need);
    if AtRest(RunSystem(s0, actions)) {
      RestMeansDone(RunSystem(s0, actions), need);
    }
  }

  /** Every block size ever advertised suffices, although the second and later flow controls repeat what
      the peer advertised and not what is configured. */
  lemma AdvertisedBlockSizes(s0: System, actions: seq<Action>, need: nat)
    requires InitiallyReady(s0, need) && AllProvided(actions, need)
    ensures AllFeasible(actions)
    ensures var s := RunSystem(s0, actions);
            forall f :: f in s.x.outbox + s.y.outbox && IsFlowControl(f) ==> Suffices(f.data[1], need)
  {
    ClearInitially(s0, need);
    RunKeepsClear(s0, actions, need);
    var s := RunSystem(s0, actions);
    forall f | f in s.x.outbox + s.y.outbox && IsFlowControl(f) ensures Suffices(f.data[1], need) {
      assert f in s.x.outbox || f in s.y.outbox;
    }
  }
}
