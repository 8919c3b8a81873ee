/** Delivery of the log: which runs hand every posted record to the sink. */
module LogDelivery {
  import opened Bits
  import opened RingBuf
  import R = RingSpsc
  import opened LogProtocol
  import opened LogProgress

  /** Bytes that had been published when the last wake-up whose shift_fd succeeded loaded the
      index, in a run from l; `seen` are those of the last such wake-up before l. */
  ghost function Seen(l: Log, es: seq<Step>, seen: nat): nat
    requires LegalRun(l, es)
    decreases |es|
  {
    if es == [] then seen
    else Seen(Next(l, es[0]), es[1..], if es[0] == LoadIn then |l.ring.accepted| else seen)
  }

  // The reader has taken, or is taking, exactly the bytes it has seen.
  ghost predicate SeenOk(l: Log, seen: nat) {
    |l.ring.returned| + (if l.ring.r.RCopying? then l.ring.r.n else 0) == seen
  }

  lemma SeenStep(l: Log, e: Step, seen: nat)
    requires Inv(l) && Enabled(l, e) && SeenOk(l, seen)
    ensures SeenOk(Next(l, e), if e == LoadIn then |l.ring.accepted| else seen)
  {
    if e == LoadIn {
      LoadInCovers(l);
    }
  }

  lemma {:induction false} SeenRun(l: Log, es: seq<Step>, seen: nat)
    requires Inv(l) && LegalRun(l, es) && SeenOk(l, seen)
    ensures Inv(Exec(l, es)) && SeenOk(Exec(l, es), Seen(l, es, seen))
    decreases |es|
  {
    if es != [] {
      NextKeeps(l, es[0]);
      SeenStep(l, es[0], seen);
      SeenRun(Next(l, es[0]), es[1..], if es[0] == LoadIn then |l.ring.accepted| else seen);
    }
  }

  // Both threads between two rounds of their loops
  ghost predicate AtRest(l: Log) {
    l.w.Idle? && l.r.Waiting?
  }

  lemma DeliveredIffReturned(l: Log)
    requires Inv(l) && AtRest(l)
    ensures l.sink == Bytes(l.posted) <==> |l.ring.returned| == |Bytes(l.posted)|
  {
    assert l.ring.accepted == Bytes(l.posted) && l.sink == l.ring.returned;
  }

  /** With both threads at rest the sink holds every posted record exactly when nothing was
      published after the last wake-up whose shift_fd succeeded. */
  lemma DeliveredIffSeen(buf: seq<Byte>, es: seq<Step>)
    requires |buf| == RING_BUF_SIZE && LegalRun(Boot(buf), es) && AtRest(Exec(Boot(buf), es))
    ensures var l := Exec(Boot(buf), es);
            l.sink == Bytes(l.posted) <==> Seen(Boot(buf), es, 0) == |Bytes(l.posted)|
  {
    BootInv(buf);
    SeenRun(Boot(buf), es, 0);
    DeliveredIffReturned(Exec(Boot(buf), es));
  }

  lemma {:induction false} NothingNewSeen(l: Log, es: seq<Step>)
    requires LegalRun(l, es) && PublishIn !in es
    ensures Exec(l, es).ring.accepted == l.ring.accepted
    ensures Seen(l, es, |l.ring.accepted|) == |l.ring.accepted|
    decreases |es|
  {
    if es != [] {
      NothingNewSeen(Next(l, es[0]), es[1..]);
    }
  }

  /** A later wake-up whose shift_fd succeeds recovers everything that failed ones left
      behind. */
  lemma LaterWakeUpRecovers(l: Log, es: seq<Step>)
    requires Reachable(l) && Enabled(l, LoadIn) && LegalRun(Next(l, LoadIn), es) && PublishIn !in es
    requires AtRest(Exec(Next(l, LoadIn), es))
    ensures var end := Exec(Next(l, LoadIn), es); end.sink == Bytes(end.posted)
  {
    ReachableInv(l);
    var l1 := Next(l, LoadIn);
    NextKeeps(l, LoadIn);
    LoadInCovers(l);
    SeenRun(l1, es, |l1.ring.accepted|);
    NothingNewSeen(l1, es);
    DeliveredIffReturned(Exec(l1, es));
  }

  /** Such a wake-up can always be had: once a post is there, or the log thread is past its
      wait, some run delivers everything posted, with the logger idle. */
  lemma SomeRunDelivers(l: Log) returns (es: seq<Step>)
    requires Reachable(l) && l.w.Idle? && (l.r.Woken? || (l.r.Waiting? && l.sem > 0))
    ensures LegalRun(l, es) && AtRest(Exec(l, es)) && Exec(l, es).sink == Bytes(Exec(l, es).posted)
    decreases l.r.Waiting?
  {
    ReachableInv(l);
    if l.r.Waiting? {
      ReachNext(l, Wait);
      var rest := SomeRunDelivers(Next(l, Wait));
      es := FirstThen(l, Wait, rest);
    } else {
      NextKeeps(l, LoadIn);
      var rest := RunToSink(Next(l, LoadIn));
      LaterWakeUpRecovers(l, rest);
      es := FirstThen(l, LoadIn, rest);
    }
  }

  /** When the logger is idle and the log thread rests after a wake-up that was not swallowed,
      everything has been delivered and the ring is empty. */
  lemma QuietMeansDelivered(l: Log)
    requires Reachable(l) && Drained(l) && l.w.Idle?
    ensures l.sink == Bytes(l.posted) == l.ring.accepted && l.ring.returned == l.ring.accepted
  {
    ReachableInv(l);
    DrainedFits(l);
    assert l.ring.accepted == Bytes(l.posted);
  }

  lemma {:induction false} NoFailureNoSkip(l: Log, es: seq<Step>)
    requires LegalRun(l, es) && ShiftFails !in es && !l.skipped
    ensures !Exec(l, es).skipped
    decreases |es|
  {
    if es != [] {
      NoFailureNoSkip(Next(l, es[0]), es[1..]);
    }
  }

  // A run without failed rotations delivers whatever it has posted once both threads rest.
  lemma NoFailureDelivers(buf: seq<Byte>, es: seq<Step>)
    requires |buf| == RING_BUF_SIZE && LegalRun(Boot(buf), es) && ShiftFails !in es
    requires Resting(Exec(Boot(buf), es)) && Exec(Boot(buf), es).w.Idle?
    ensures var l := Exec(Boot(buf), es); l.sink == Bytes(l.posted)
  {
    NoFailureNoSkip(Boot(buf), es);
    assert ReachedBy(Exec(Boot(buf), es), buf, es);
    QuietMeansDelivered(Exec(Boot(buf), es));
  }

  // One record, one wake-up, one failed shift_fd
  lemma LostWakeUp() returns (l: Log)
    ensures Reachable(l) && Resting(l) && l.w.Idle?
    ensures l.sink == [] && Bytes(l.posted) == [7]
  {
    var l0 := Booted();
    l := LoseRecord(l0, [7]);
    BytesSnoc([], [7]);
    assert l.posted == [[7]];
    ReachableInv(l);
    NothingTakenNothingSunk(l);
  }

  lemma NothingTakenNothingSunk(l: Log)
    requires DrainerOk(l) && l.ring.returned == []
    ensures l.sink == []
  {
  }

  // Whenever both threads have come to rest, the sink holds every record posted.
  ghost predicate AlwaysDelivers(shiftMayFail: bool) {
    forall l: Log, buf: seq<Byte>, es: seq<Step> ::
      (ReachedBy(l, buf, es) && (shiftMayFail || ShiftFails !in es) && Resting(l) && l.w.Idle?)
      ==> l.sink == Bytes(l.posted)
  }

  // Over all runs, delivery is certain exactly when failures are ruled out.
  lemma DeliversIffShiftNeverFails(shiftMayFail: bool)
    ensures AlwaysDelivers(shiftMayFail) <==> !shiftMayFail
  {
    if shiftMayFail {
      var l := LostWakeUp();
      var buf, es :| ReachedBy(l, buf, es);
      assert l.sink != Bytes(l.posted);
    } else {
      forall l: Log, buf: seq<Byte>, es: seq<Step> |
        ReachedBy(l, buf, es) && ShiftFails !in es && Resting(l) && l.w.Idle?
        ensures l.sink == Bytes(l.posted)
      {
        NoFailureDelivers(buf, es);
      }
    }
  }
}
