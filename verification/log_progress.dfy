/** Progress of the log: when the retry loop of `log_t::write` ends, and when it spins for ever. */
module LogProgress {
  import opened Bits
  import opened RingBuf
  import R = RingSpsc
  import opened LogProtocol

  // The log thread sits in wait and no post is there to wake it.
  ghost predicate Resting(l: Log) {
    l.r.Waiting? && l.sem == 0
  }

  // Bytes of the current record still to be pushed, and bytes the ring can still take
  ghost function Unpublished(l: Log): int {
    |Current(l.w)| - Published(l.w)
  }

  ghost function Room(l: Log): int {
    l.ring.size - (|l.ring.accepted| - |l.ring.returned|)
  }

  ghost predicate Fits(l: Log) {
    Unpublished(l) <= Room(l)
  }

  // Sizes of the sets of copied offsets

  ghost function Range(n: nat): set<nat> {
    if n == 0 then {} else Range(n - 1) + {n - 1}
  }

  lemma {:induction false} RangeIs(n: nat)
    ensures |Range(n)| == n && forall k: nat :: k in Range(n) <==> k < n
  {
    if n > 0 { RangeIs(n - 1); }
  }

  lemma {:induction false} SubsetSize(a: set<nat>, b: set<nat>)
    requires a <= b
    ensures |a| <= |b| && (|a| == |b| ==> a == b)
  {
    if a != {} {
      var x :| x in a;
      SubsetSize(a - {x}, b - {x});
    }
  }

  lemma CopiedSoFar(done: set<nat>, n: nat)
    requires forall k :: k in done ==> k < n
    ensures |done| <= n && (|done| == n <==> R.Covers(done, n))
  {
    RangeIs(n);
    assert done <= Range(n);
    SubsetSize(done, Range(n));
    if R.Covers(done, n) {
      assert done == Range(n);
    }
  }

  /** Steps the logger needs up to and including its post while the log thread rests and the
      rest of the record fits: a push with a stale snapshot may be followed by one more. */
  ghost function StepsToPost(w: Logger, rw: R.Writer): int {
    match w
    case Idle => 0
    case Posting(_) => 1
    case Looping(record, written) => |record| - written + 3
    case Pushing(record, written) =>
      if rw.WIdle? then 0
      else
        var n, rest := |rw.bytes|, |record| - written;
        n - |rw.done| + (if n == rest then 2 else rest - n + 4)
  }

  // A push takes as much of the record as there is room for.
  lemma LoadTakes(l: Log)
    requires Inv(l) && Enabled(l, LoadOut)
    ensures |Next(l, LoadOut).ring.w.bytes| == Min(Room(l), Unpublished(l))
  {
    R.IndexValues(l.ring);
  }

  // Only the logger moves, and what is left fits after the step if it did before.
  lemma RestingStep(l: Log, e: Step)
    requires Inv(l) && Resting(l) && !l.w.Idle? && Enabled(l, e)
    ensures var l' := Next(l, e);
            && l'.ring.returned == l.ring.returned
            && |l'.ring.accepted| + Unpublished(l') == |l.ring.accepted| + Unpublished(l)
            && if e.Post? then Unpublished(l) == 0 <= Room(l)
               else Resting(l') && !l'.w.Idle? && Current(l'.w) == Current(l.w) && l'.posted == l.posted
  {
  }

  lemma CopyProgress(l: Log)
    requires Inv(l) && l.w.Pushing?
    ensures var done, n := l.ring.w.done, |l.ring.w.bytes|;
            && |done| <= n && (|done| == n <==> R.Covers(done, n))
            && ((exists k: nat :: k < n && k !in done) ==> |done| < n)
  {
    CopiedSoFar(l.ring.w.done, |l.ring.w.bytes|);
  }

  lemma LoadTowardsPost(l: Log)
    requires Inv(l) && Fits(l) && Enabled(l, LoadOut)
    ensures StepsToPost(Next(l, LoadOut).w, Next(l, LoadOut).ring.w) == StepsToPost(l.w, l.ring.w) - 1
  {
    LoadTakes(l);
  }

  lemma PutTowardsPost(l: Log, k: nat)
    requires LoggerOk(l) && Enabled(l, PutByte(k)) && |l.ring.w.done| < |l.ring.w.bytes|
    ensures StepsToPost(l.w, l.ring.w) > 1
    ensures StepsToPost(Next(l, PutByte(k)).w, Next(l, PutByte(k)).ring.w) == StepsToPost(l.w, l.ring.w) - 1
  {
  }

  lemma PublishTowardsPost(l: Log)
    requires LoggerOk(l) && Enabled(l, PublishIn) && |l.ring.w.done| == |l.ring.w.bytes|
    ensures StepsToPost(l.w, l.ring.w) > 1
    ensures StepsToPost(Next(l, PublishIn).w, Next(l, PublishIn).ring.w) == StepsToPost(l.w, l.ring.w) - 1
  {
  }

  lemma StepTowardsPost(l: Log, e: Step)
    requires Inv(l) && Resting(l) && !l.w.Idle? && Fits(l) && Enabled(l, e)
    ensures var l' := Next(l, e); var m := StepsToPost(l.w, l.ring.w);
            if e.Post? then m == 1 else m > 1 && StepsToPost(l'.w, l'.ring.w) == m - 1
  {
    match e
    case LoadOut => LoadTowardsPost(l);
    case PutByte(k) =>
      CopyProgress(l);
      PutTowardsPost(l, k);
    case PublishIn =>
      CopyProgress(l);
      PublishTowardsPost(l);
    case Post =>
  }

  lemma LoggerCanStep(l: Log) returns (e: Step)
    requires Inv(l) && !l.w.Idle?
    ensures Enabled(l, e)
  {
    match l.w
    case Looping(_, _) => e := LoadOut;
    case Posting(_) => e := Post;
    case Pushing(_, _) =>
      if R.Covers(l.ring.w.done, |l.ring.w.bytes|) {
        e := PublishIn;
      } else {
        var k: nat :| k < |l.ring.w.bytes| && k !in l.ring.w.done;
        e := PutByte(k);
      }
  }

  ghost predicate CanStep(l: Log) {
    exists e :: Enabled(l, e)
  }

  // What fits is posted: every run posts at exactly its StepsToPost-th step, and is not stuck before.
  lemma {:induction false} FittingRunPosts(l: Log, es: seq<Step>)
    requires Inv(l) && Resting(l) && !l.w.Idle? && Fits(l) && LegalRun(l, es)
    ensures var m := StepsToPost(l.w, l.ring.w);
            && m >= 1 && (|es| >= m ==> es[m - 1] == Post)
            && (|es| < m ==> CanStep(Exec(l, es)))
    decreases |es|
  {
    var e := LoggerCanStep(l);
    StepTowardsPost(l, e);
    if es != [] {
      RestingStep(l, es[0]);
      StepTowardsPost(l, es[0]);
      NextKeeps(l, es[0]);
      if !es[0].Post? {
        FittingRunPosts(Next(l, es[0]), es[1..]);
      }
    }
  }

  // What does not fit is never posted, although the logger can go on for ever.
  lemma {:induction false} SpinningRun(l: Log, es: seq<Step>)
    requires Inv(l) && Resting(l) && !l.w.Idle? && !Fits(l) && LegalRun(l, es)
    ensures Post !in es && CanStep(Exec(l, es))
    decreases |es|
  {
    if es == [] {
      var e := LoggerCanStep(l);
    } else {
      RestingStep(l, es[0]);
      NextKeeps(l, es[0]);
      SpinningRun(Next(l, es[0]), es[1..]);
    }
  }

  // A run of any length from a state in which the record does not fit
  lemma {:induction false} SpinFor(l: Log, n: nat) returns (es: seq<Step>)
    requires Inv(l) && Resting(l) && !l.w.Idle? && !Fits(l)
    ensures LegalRun(l, es) && |es| == n
    decreases n
  {
    es := [];
    if n > 0 {
      var e := LoggerCanStep(l);
      RestingStep(l, e);
      NextKeeps(l, e);
      var rest := SpinFor(Next(l, e), n - 1);
      es := FirstThen(l, e, rest);
    }
  }

  // A run that ends with the post of a record that fits
  lemma {:induction false} RunToPost(l: Log) returns (es: seq<Step>)
    requires Inv(l) && Resting(l) && !l.w.Idle? && Fits(l)
    ensures LegalRun(l, es) && Post in es
    ensures var l' := Exec(l, es);
            && l'.w.Idle? && l'.r.Waiting? && l'.sem == 1 && l'.ring.returned == l.ring.returned
            && l'.posted == l.posted + [Current(l.w)]
    decreases StepsToPost(l.w, l.ring.w)
  {
    var e := LoggerCanStep(l);
    StepTowardsPost(l, e);
    RestingStep(l, e);
    NextKeeps(l, e);
    var rest := [];
    if !e.Post? {
      rest := RunToPost(Next(l, e));
    }
    es := FirstThen(l, e, rest);
  }

  ghost predicate SomeRunPosts(l: Log) {
    exists es :: LegalRun(l, es) && Post in es
  }

  ghost predicate EveryLongRunPosts(l: Log, m: nat) {
    forall es :: LegalRun(l, es) && |es| >= m ==> Post in es
  }

  /** With the log thread at rest and the logger inside write: if what is left of the record
      fits into the ring, every run posts it within StepsToPost steps; if not, no run ever
      does, and the retry loop spins, whatever the bound. */
  lemma PostsIffFits(l: Log, bound: nat)
    requires Reachable(l) && Resting(l) && !l.w.Idle? && bound >= StepsToPost(l.w, l.ring.w)
    ensures Fits(l) <==> EveryLongRunPosts(l, bound)
    ensures Fits(l) <==> SomeRunPosts(l)
  {
    ReachableInv(l);
    if Fits(l) {
      var es := RunToPost(l);
      forall es | LegalRun(l, es) && |es| >= bound ensures Post in es {
        FittingRunPosts(l, es);
      }
    } else {
      var es := SpinFor(l, bound);
      SpinningRun(l, es);
      forall es | LegalRun(l, es) ensures Post !in es {
        SpinningRun(l, es);
      }
    }
  }

  // Stuck states are reachable

  /** A record that is posted while shift_fd fails on its wake-up stays in the ring. */
  lemma LoseRecord(l: Log, record: seq<Byte>) returns (end: Log)
    requires Reachable(l) && Resting(l) && l.w.Idle? && |record| <= LOG_BUF_SIZE && |record| <= Room(l)
    ensures Reachable(end) && Resting(end) && end.w.Idle?
    ensures end.posted == l.posted + [record] && end.ring.returned == l.ring.returned
    ensures |end.ring.accepted| == |l.ring.accepted| + |record|
  {
    ReachableInv(l);
    var l1 := Next(l, Begin(record));
    NextKeeps(l, Begin(record));
    ReachNext(l, Begin(record));
    var es := RunToPost(l1);
    var l2 := Exec(l1, es);
    ReachOn(l1, es);
    ReachNext(l2, Wait);
    end := Next(Next(l2, Wait), ShiftFails);
    ReachNext(Next(l2, Wait), ShiftFails);
    ReachableInv(end);
    BytesSnoc(l.posted, record);
  }

  lemma Booted() returns (l: Log)
    ensures Reachable(l) && Resting(l) && l.w.Idle? && l.posted == [] && l.sink == []
    ensures l.ring.accepted == [] && l.ring.returned == [] && l.ring.size == RING_BUF_SIZE
  {
    var buf: seq<Byte> := seq(RING_BUF_SIZE, i => 0);
    l := Boot(buf);
    assert ReachedBy(l, buf, []);
  }

  // n records in a row, each losing its wake-up
  lemma {:induction false} LoseRecords(record: seq<Byte>, n: nat) returns (l: Log)
    requires |record| == LOG_BUF_SIZE && n * LOG_BUF_SIZE <= RING_BUF_SIZE
    ensures Reachable(l) && Resting(l) && l.w.Idle?
    ensures l.ring.returned == [] && |l.ring.accepted| == n * LOG_BUF_SIZE
  {
    if n == 0 {
      l := Booted();
    } else {
      var before := LoseRecords(record, n - 1);
      ReachableInv(before);
      l := LoseRecord(before, record);
    }
  }

  lemma RingSizeOf(l: Log)
    requires Reachable(l)
    ensures l.ring.size == RING_BUF_SIZE
  {
    ReachableInv(l);
  }

  lemma AfterBegin(l: Log, record: seq<Byte>)
    requires Enabled(l, Begin(record)) && Resting(l)
    ensures var l' := Next(l, Begin(record));
            Resting(l') && l'.w.Looping? && Unpublished(l') == |record| && Room(l') == Room(l)
  {
  }

  /** Fifty-one longest records whose rotations fail leave too little room for the next:
      write then never returns. */
  lemma StuckState() returns (l: Log)
    ensures Reachable(l) && Resting(l) && l.w.Looping? && !Fits(l) && !SomeRunPosts(l)
    ensures Unpublished(l) == 81920 && Room(l) == 4194304 - 51 * 81920
  {
    var record: seq<Byte> := seq(LOG_BUF_SIZE, i => 0);
    var full := LoseRecords(record, 51);
    RingSizeOf(full);
    l := Next(full, Begin(record));
    ReachNext(full, Begin(record));
    AfterBegin(full, record);
    PostsIffFits(l, StepsToPost(l.w, l.ring.w));
  }

  // The log thread's side

  // Steps to the end of a wake-up whose shift_fd succeeds, loads not counted
  ghost function StepsToSink(l: Log): int {
    match l.r
    case Waiting => 0
    case Woken => 0
    case Reading => if l.ring.r.RIdle? then 0 else l.ring.r.n - |l.ring.r.got| + 2
    case Sinking(_) => 1
  }

  lemma GotSoFar(l: Log)
    requires Inv(l) && l.r.Reading?
    ensures var got, n := l.ring.r.got, l.ring.r.n; |got| <= n && (|got| == n <==> R.Covers(got.Keys, n))
    ensures l.ring.r.RCopying?
  {
    CopiedSoFar(l.ring.r.got.Keys, l.ring.r.n);
    assert |l.ring.r.got.Keys| == |l.ring.r.got|;
  }

  lemma PublishOutNears(l: Log)
    requires l.r.Reading? && Enabled(l, PublishOut) && |l.ring.r.got| == l.ring.r.n
    ensures Next(l, PublishOut).r.Sinking? && StepsToSink(Next(l, PublishOut)) == StepsToSink(l) - 1 == 1
  {
  }

  lemma GetByteNears(l: Log, k: nat)
    requires l.r.Reading? && Enabled(l, GetByte(k)) && |l.ring.r.got| < l.ring.r.n
    ensures var l' := Next(l, GetByte(k)); l'.r.Reading? && StepsToSink(l') == StepsToSink(l) - 1 > 1
  {
  }

  // e is a step of the log thread that takes it one nearer to its write, or is the write.
  ghost predicate Nears(l: Log, e: Step) {
    && Enabled(l, e) && (e.GetByte? || e.PublishOut? || e.WriteSink?)
    && Next(l, e).w == l.w && StepsToSink(Next(l, e)) == StepsToSink(l) - 1
    && if e.WriteSink? then StepsToSink(l) == 1 && Next(l, e).r.Waiting?
       else StepsToSink(l) > 1 && (Next(l, e).r.Reading? || Next(l, e).r.Sinking?)
  }

  lemma ReadingCanStep(l: Log) returns (e: Step)
    requires l.r.Reading? && l.ring.r.RCopying?
    requires var got, n := l.ring.r.got, l.ring.r.n; |got| <= n && (|got| == n <==> R.Covers(got.Keys, n))
    ensures Nears(l, e)
  {
    if R.Covers(l.ring.r.got.Keys, l.ring.r.n) {
      e := PublishOut;
      PublishOutNears(l);
    } else {
      var k: nat :| k < l.ring.r.n && k !in l.ring.r.got.Keys;
      e := GetByte(k);
      GetByteNears(l, k);
    }
  }

  // Inside a wake-up the log thread can always go on.
  lemma DrainerCanStep(l: Log) returns (e: Step)
    requires Inv(l) && (l.r.Reading? || l.r.Sinking?)
    ensures Nears(l, e)
  {
    if l.r.Sinking? {
      e := WriteSink;
    } else {
      GotSoFar(l);
      e := ReadingCanStep(l);
    }
  }

  // A run of the log thread alone to the end of its wake-up
  lemma {:induction false} RunToSink(l: Log) returns (es: seq<Step>)
    requires Inv(l) && (l.r.Reading? || l.r.Sinking?)
    ensures LegalRun(l, es) && |es| == StepsToSink(l) > 0 && PublishIn !in es
    ensures Exec(l, es).r.Waiting? && Exec(l, es).w == l.w
    decreases StepsToSink(l)
  {
    var e := DrainerCanStep(l);
    NextKeeps(l, e);
    var rest := [];
    if !e.WriteSink? {
      rest := RunToSink(Next(l, e));
    }
    es := FirstThen(l, e, rest);
  }

  // While rotations succeed

  /** The log thread rests, and its last wake-up was not swallowed by a failed shift_fd. */
  ghost predicate Drained(l: Log) {
    Resting(l) && !l.skipped
  }

  // Then the ring holds only bytes of the current record, and the rest of it fits.
  lemma DrainedFits(l: Log)
    requires Inv(l) && Drained(l)
    ensures |l.ring.accepted| - |l.ring.returned| <= Published(l.w) && Fits(l)
  {
    assert |l.ring.accepted| == |Bytes(l.posted)| + Published(l.w);
  }

  /** No deadlock and no livelock unless a shift_fd has failed on the last wake-up: the
      logger can always step, and posts at exactly its StepsToPost-th step. */
  lemma DrainedRunPosts(l: Log, es: seq<Step>)
    requires Reachable(l) && Drained(l) && !l.w.Idle? && LegalRun(l, es)
    ensures var m := StepsToPost(l.w, l.ring.w);
            && m >= 1 && (|es| >= m ==> es[m - 1] == Post)
            && (|es| < m ==> CanStep(Exec(l, es)))
  {
    ReachableInv(l);
    DrainedFits(l);
    FittingRunPosts(l, es);
  }
}
