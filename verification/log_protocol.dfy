/** The asynchronous log: `log_t::write` pushes each record through the ring and posts a
    semaphore once; `log_thread_t::do_work_fn` waits once and drains what it sees.  The
    two threads interleave at every index load, byte copy, index store and semaphore call. */
module LogProtocol {
  import opened Bits
  import opened RingBuf
  import R = RingSpsc

  const LOG_BUF_SIZE := 81920
  const RING_BUF_SIZE: U32 := 4194304

  // The logging thread: at the top of the push loop, inside ring_buf.write, or before post
  datatype Logger =
    | Idle
    | Looping(record: seq<Byte>, written: nat)
    | Pushing(record: seq<Byte>, written: nat)
    | Posting(record: seq<Byte>)

  // The log thread: before wait, past it, inside ring_buf.read, or before ::write
  datatype Drainer =
    | Waiting
    | Woken
    | Reading
    | Sinking(chunk: seq<Byte>)

  /** `posted` are the records whose post has happened; `skipped` says that the last wake-up
      ended in a failed shift_fd, without draining. */
  datatype Log = Log(
    ring: R.State, w: Logger, r: Drainer, sem: nat, sink: seq<Byte>,
    posted: seq<seq<Byte>>, skipped: bool)

  datatype Step =
    | Begin(record: seq<Byte>)
    | LoadOut
    | PutByte(k: nat)
    | PublishIn
    | Post
    | Wait
    | ShiftFails
    | LoadIn
    | GetByte(k: nat)
    | PublishOut
    | WriteSink

  ghost predicate Enabled(l: Log, e: Step) {
    match e
    case Begin(record) => l.w.Idle? && |record| <= LOG_BUF_SIZE
    case LoadOut => l.w.Looping? && l.w.written <= |l.w.record|
                    && R.Enabled(l.ring, R.WLoad(l.w.record[l.w.written..]))
    case PutByte(k) => l.w.Pushing? && R.Enabled(l.ring, R.WByte(k))
    case PublishIn => l.w.Pushing? && R.Enabled(l.ring, R.WPublish)
    case Post => l.w.Posting?
    case Wait => l.r.Waiting? && l.sem > 0
    case ShiftFails => l.r.Woken?
    case LoadIn => l.r.Woken? && R.Enabled(l.ring, R.RLoad(RING_BUF_SIZE))
    case GetByte(k) => l.r.Reading? && R.Enabled(l.ring, R.RByte(k))
    case PublishOut => l.r.Reading? && R.Enabled(l.ring, R.RPublish)
    case WriteSink => l.r.Sinking?
  }

  ghost function Next(l: Log, e: Step): Log
    requires Enabled(l, e)
  {
    match e
    case Begin(record) => l.(w := Looping(record, 0))
    case LoadOut =>
      l.(ring := R.AfterWLoad(l.ring, l.w.record[l.w.written..]), w := Pushing(l.w.record, l.w.written))
    case PutByte(k) => l.(ring := R.AfterWByte(l.ring, k))
    case PublishIn =>
      var written := l.w.written + |l.ring.w.bytes|;
      l.(ring := R.AfterWPublish(l.ring),
         w := if written == |l.w.record| then Posting(l.w.record) else Looping(l.w.record, written))
    case Post => l.(w := Idle, sem := l.sem + 1, posted := l.posted + [l.w.record])
    case Wait => l.(r := Woken, sem := l.sem - 1)
    case ShiftFails => l.(r := Waiting, skipped := true)
    case LoadIn => l.(ring := R.AfterRLoad(l.ring, RING_BUF_SIZE), r := Reading, skipped := false)
    case GetByte(k) => l.(ring := R.AfterRByte(l.ring, k))
    case PublishOut => l.(ring := R.AfterRPublish(l.ring), r := Sinking(R.Taken(l.ring.r)))
    case WriteSink => l.(sink := l.sink + l.r.chunk, r := Waiting)
  }

  ghost function Boot(buf: seq<Byte>): Log {
    Log(R.Boot(RING_BUF_SIZE, buf), Idle, Waiting, 0, [], [], false)
  }

  ghost predicate LegalRun(l: Log, es: seq<Step>)
    decreases |es|
  {
    es == [] || (Enabled(l, es[0]) && LegalRun(Next(l, es[0]), es[1..]))
  }

  ghost function Exec(l: Log, es: seq<Step>): Log
    requires LegalRun(l, es)
    decreases |es|
  {
    if es == [] then l else Exec(Next(l, es[0]), es[1..])
  }

  // Concatenation of records
  ghost function Bytes(records: seq<seq<Byte>>): seq<Byte> {
    if records == [] then [] else Bytes(records[..|records| - 1]) + records[|records| - 1]
  }

  // The record being written, and how much of it is published
  ghost function Current(w: Logger): seq<Byte> {
    if w.Idle? then [] else w.record
  }

  ghost function Published(w: Logger): nat {
    match w
    case Idle => 0
    case Posting(record) => |record|
    case _ => w.written
  }

  // Everything handed to write so far, in order
  ghost function Stream(l: Log): seq<Byte> {
    Bytes(l.posted) + Current(l.w)
  }

  ghost predicate LoggerOk(l: Log) {
    && |Current(l.w)| <= LOG_BUF_SIZE && Published(l.w) <= |Current(l.w)|
    && (l.w.Pushing? <==> l.ring.w.WCopying?)
    && (l.w.Pushing? ==> l.ring.w.bytes <= l.w.record[l.w.written..])
    && l.ring.accepted == Bytes(l.posted) + Current(l.w)[..Published(l.w)]
  }

  ghost predicate DrainerOk(l: Log) {
    && (l.r.Reading? <==> l.ring.r.RCopying?)
    && l.ring.returned == l.sink + (if l.r.Sinking? then l.r.chunk else [])
  }

  // The reader's snapshot covers every posted byte.
  ghost predicate Covered(l: Log) {
    l.ring.r.RCopying? && |l.ring.returned| + l.ring.r.n >= |Bytes(l.posted)|
  }

  /** No lost wake-up: posted bytes that are still unread have a wake-up on its way -- a
      positive semaphore, a reader that has not yet loaded the index, or one whose snapshot
      covers them -- unless a failed shift_fd has swallowed it. */
  ghost predicate WakeUpPending(l: Log) {
    |l.ring.returned| < |Bytes(l.posted)| ==>
      l.sem > 0 || l.r.Woken? || Covered(l) || l.skipped
  }

  // What the two threads have done, apart from the ring
  ghost predicate ThreadsOk(l: Log) {
    l.ring.size == RING_BUF_SIZE && LoggerOk(l) && DrainerOk(l) && WakeUpPending(l)
  }

  ghost predicate Inv(l: Log) {
    R.Inv(l.ring) && ThreadsOk(l)
  }

  lemma BytesSnoc(records: seq<seq<Byte>>, record: seq<Byte>)
    ensures Bytes(records + [record]) == Bytes(records) + record
  {
    assert (records + [record])[..|records|] == records;
  }

  lemma RingSizeIsPower()
    ensures IsPowerOf2(RING_BUF_SIZE)
  {
    assert Pow2(11) == 2048;
    Pow2Splits(11, 11);
    PowerTestIsExact(RING_BUF_SIZE);
    assert RING_BUF_SIZE == Pow2(22);
  }

  lemma BootInv(buf: seq<Byte>)
    requires |buf| == RING_BUF_SIZE
    ensures Inv(Boot(buf))
  {
    RingSizeIsPower();
    R.BootInv(RING_BUF_SIZE, buf);
  }

  lemma BeginKeeps(l: Log, record: seq<Byte>)
    requires ThreadsOk(l) && Enabled(l, Begin(record))
    ensures ThreadsOk(Next(l, Begin(record)))
  {
    assert record[..0] == [];
    assert Current(l.w)[..Published(l.w)] == [];
  }

  lemma LoadOutKeeps(l: Log)
    requires ThreadsOk(l) && Enabled(l, LoadOut)
    ensures ThreadsOk(Next(l, LoadOut))
  {
    var data := l.w.record[l.w.written..];
    assert Next(l, LoadOut).ring.w.bytes <= data;
  }

  lemma PutByteKeeps(l: Log, k: nat)
    requires ThreadsOk(l) && Enabled(l, PutByte(k))
    ensures ThreadsOk(Next(l, PutByte(k)))
  {
  }

  lemma PostKeeps(l: Log)
    requires ThreadsOk(l) && Enabled(l, Post)
    ensures ThreadsOk(Next(l, Post))
  {
    BytesSnoc(l.posted, l.w.record);
    assert l.w.record[..|l.w.record|] == l.w.record;
  }

  lemma PublishExtends(record: seq<Byte>, written: nat, bytes: seq<Byte>)
    requires written <= |record| && bytes <= record[written..]
    ensures written + |bytes| <= |record| && record[..written + |bytes|] == record[..written] + bytes
  {
    assert record[..written] + record[written..][..|bytes|] == record[..written + |bytes|];
  }

  lemma PublishInKeeps(l: Log)
    requires ThreadsOk(l) && Enabled(l, PublishIn)
    ensures ThreadsOk(Next(l, PublishIn))
  {
    var record, written, bytes := l.w.record, l.w.written, l.ring.w.bytes;
    PublishExtends(record, written, bytes);
    var posted := Bytes(l.posted);
    assert posted + (record[..written] + bytes) == (posted + record[..written]) + bytes;
  }

  lemma DrainerKeeps(l: Log, e: Step)
    requires ThreadsOk(l) && Enabled(l, e)
    requires e.Wait? || e.ShiftFails? || e.GetByte? || e.PublishOut? || e.WriteSink?
    ensures ThreadsOk(Next(l, e))
  {
  }

  // The reader asks for a whole ring, so its snapshot covers everything published.
  lemma LoadInCovers(l: Log)
    requires Inv(l) && Enabled(l, LoadIn)
    ensures Next(l, LoadIn).ring.r.n == |l.ring.accepted| - |l.ring.returned|
  {
    R.IndexValues(l.ring);
  }

  lemma LoadInKeeps(l: Log)
    requires ThreadsOk(l) && Enabled(l, LoadIn)
    requires Next(l, LoadIn).ring.r.n == |l.ring.accepted| - |l.ring.returned|
    ensures ThreadsOk(Next(l, LoadIn))
  {
  }

  lemma ThreadsKeep(l: Log, e: Step)
    requires Inv(l) && Enabled(l, e)
    ensures ThreadsOk(Next(l, e))
  {
    match e
    case Begin(record) => BeginKeeps(l, record);
    case LoadOut => LoadOutKeeps(l);
    case PutByte(k) => PutByteKeeps(l, k);
    case PublishIn => PublishInKeeps(l);
    case Post => PostKeeps(l);
    case LoadIn =>
      LoadInCovers(l);
      LoadInKeeps(l);
    case _ => DrainerKeeps(l, e);
  }

  lemma RingKeeps(l: Log, e: Step)
    requires R.Inv(l.ring) && Enabled(l, e)
    ensures R.Inv(Next(l, e).ring)
  {
    match e
    case LoadOut => R.WLoadKeeps(l.ring, l.w.record[l.w.written..]);
    case PutByte(k) => R.WByteKeeps(l.ring, k);
    case PublishIn => R.WPublishKeeps(l.ring);
    case LoadIn => R.RLoadKeeps(l.ring, RING_BUF_SIZE);
    case GetByte(k) => R.RByteKeeps(l.ring, k);
    case PublishOut => R.RPublishKeeps(l.ring);
    case _ =>
  }

  lemma NextKeeps(l: Log, e: Step)
    requires Inv(l) && Enabled(l, e)
    ensures Inv(Next(l, e))
  {
    RingKeeps(l, e);
    ThreadsKeep(l, e);
  }

  lemma {:induction false} RunKeeps(l: Log, es: seq<Step>)
    requires Inv(l) && LegalRun(l, es)
    ensures Inv(Exec(l, es))
    decreases |es|
  {
    if es != [] {
      NextKeeps(l, es[0]);
      RunKeeps(Next(l, es[0]), es[1..]);
    }
  }

  // What every run guarantees

  ghost predicate Reachable(l: Log) {
    exists buf, es :: ReachedBy(l, buf, es)
  }

  ghost predicate ReachedBy(l: Log, buf: seq<Byte>, es: seq<Step>) {
    |buf| == RING_BUF_SIZE && LegalRun(Boot(buf), es) && Exec(Boot(buf), es) == l
  }

  lemma ReachableInv(l: Log)
    requires Reachable(l)
    ensures Inv(l)
  {
    var buf, es :| ReachedBy(l, buf, es);
    BootInv(buf);
    RunKeeps(Boot(buf), es);
  }

  /** In every reachable state with posted bytes unread, a wake-up is on its way or a failed
      shift_fd has swallowed it. */
  lemma NoLostWakeUp(l: Log)
    requires Reachable(l) && |l.ring.returned| < |Bytes(l.posted)|
    ensures l.sem > 0 || l.r.Woken? || l.skipped
            || (l.ring.r.RCopying? && |l.ring.returned| + l.ring.r.n >= |Bytes(l.posted)|)
  {
    ReachableInv(l);
  }

  /** The sink always holds a prefix of the records, concatenated in the order they were
      written; failed rotations delay bytes but never reorder, drop or repeat them. */
  lemma SinkIsPrefix(l: Log)
    requires Reachable(l)
    ensures l.sink <= Stream(l)
  {
    ReachableInv(l);
    assert l.ring.returned <= l.ring.accepted;
    assert l.sink <= l.ring.returned;
    assert Current(l.w)[..Published(l.w)] <= Current(l.w);
    assert l.ring.accepted <= Stream(l);
  }

  // Runs, end to end

  lemma FirstThen(l: Log, e: Step, rest: seq<Step>) returns (es: seq<Step>)
    requires Enabled(l, e) && LegalRun(Next(l, e), rest)
    ensures es == [e] + rest && LegalRun(l, es) && Exec(l, es) == Exec(Next(l, e), rest)
  {
    es := [e] + rest;
    assert es[1..] == rest;
  }

  lemma {:induction false} ExecConcat(l: Log, a: seq<Step>, b: seq<Step>)
    requires LegalRun(l, a) && LegalRun(Exec(l, a), b)
    ensures LegalRun(l, a + b) && Exec(l, a + b) == Exec(Exec(l, a), b)
    decreases |a|
  {
    if a == [] {
      assert a + b == b;
    } else {
      assert (a + b)[1..] == a[1..] + b;
      ExecConcat(Next(l, a[0]), a[1..], b);
    }
  }

  lemma ReachOn(l: Log, es: seq<Step>)
    requires Reachable(l) && LegalRun(l, es)
    ensures Reachable(Exec(l, es))
  {
    var buf, es0 :| ReachedBy(l, buf, es0);
    ExecConcat(Boot(buf), es0, es);
    assert ReachedBy(Exec(l, es), buf, es0 + es);
  }

  lemma ReachNext(l: Log, e: Step)
    requires Reachable(l) && Enabled(l, e)
    ensures Reachable(Next(l, e))
  {
    assert [e][1..] == [];
    assert LegalRun(Next(l, e), []) && Exec(Next(l, e), []) == Next(l, e);
    assert LegalRun(l, [e]) && Exec(l, [e]) == Next(l, e);
    ReachOn(l, [e]);
  }
}
