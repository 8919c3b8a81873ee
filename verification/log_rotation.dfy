/** `shift_fd`: which log file is open after any history of clock updates and failed opens. */
module LogRotation {
  import opened Bits

  const SUCC := 0
  const ERR := -1
  const INVALID_FD := -1
  const DAY_INTERVAL := 86400

  // log_sec, and the year and tm_yday of log_tm
  datatype Clock = Clock(sec: int, year: int, yday: int)

  /** `openedAt` is the clock by which the file behind fd was named; `opens` counts
      descriptors opened and not closed.  Neither is a field of the C++ class. */
  datatype Rot = Rot(interval: U32, fd: int, seqNo: int, day: int, clock: Clock, openedAt: Clock, opens: int)

  // Conversion of an unsigned 32-bit value to int
  function ToInt(x: U32): int { if x < 0x8000_0000 then x else x - TWO32 }

  // gen_log_seq
  function GenSeq(interval: U32, sec: int): int {
    if interval == 0 then 0 else ToInt(sec % TWO32 / interval)
  }

  // The time from which gen_log_file_path makes the file name
  function BucketStart(interval: U32, sec: int): int
    requires interval > 0
  {
    sec / interval * interval
  }

  // open_fd, with the result of ::open
  function OpenFd(r: Rot, fileno: int): Rot {
    if fileno != INVALID_FD then
      r.(fd := fileno, openedAt := r.clock, day := r.clock.yday, opens := r.opens + 1)
    else r.(fd := INVALID_FD)
  }

  function CloseFd(r: Rot): Rot {
    if r.fd == INVALID_FD then r else r.(fd := INVALID_FD, opens := r.opens - 1)
  }

  predicate UpToDate(r: Rot) {
    if r.interval != 0 then r.seqNo == GenSeq(r.interval, r.clock.sec) else r.day == r.clock.yday
  }

  // shift_fd; open1 and open2 are what its first and second ::open return, if called
  function Shift(r: Rot, open1: int, open2: int): (Rot, int) {
    var r1 := if r.fd < 0 then OpenFd(r, open1) else r;
    if r.fd < 0 && r1.fd < 0 then (r1, ERR)
    else if UpToDate(r1) then (r1, SUCC)
    else
      var r2 := CloseFd(r1);
      var r3 := if r.interval != 0 then r2.(seqNo := GenSeq(r.interval, r.clock.sec)) else r2;
      var r4 := OpenFd(r3, open2);
      (r4, r4.fd)
  }

  class LogFds {
    var fd: int
    var seqNo: int
    var day: int
    var clock: Clock
    const interval: U32
    ghost var openedAt: Clock
    ghost var opens: int

    ghost function State(): Rot
      reads this
    {
      Rot(interval, fd, seqNo, day, clock, openedAt, opens)
    }

    // The sequence number recorded, or the day, is that of the clock.
    ghost predicate Current()
      reads this
    {
      if interval != 0 then seqNo == GenSeq(interval, clock.sec) else day == clock.yday
    }

    // init
    constructor (interval: U32, clock: Clock)
      ensures State() == Boot(interval, clock)
      ensures fd == INVALID_FD && day == 0 && opens == 0 && (interval != 0 ==> Current())
    {
      this.interval := interval;
      this.clock := clock;
      fd, day, seqNo := INVALID_FD, 0, GenSeq(interval, clock.sec);
      openedAt, opens := clock, 0;
    }

    method Open(fileno: int)
      modifies this`fd, this`day, this`openedAt, this`opens
      ensures State() == OpenFd(old(State()), fileno)
    {
      fd := fileno;
      if INVALID_FD != fd {
        openedAt, opens := clock, opens + 1;
        if day != clock.yday {
          day := clock.yday;
        }
      }
    }

    method Close()
      modifies this`fd, this`opens
      ensures State() == CloseFd(old(State()))
    {
      if INVALID_FD != fd {
        fd, opens := INVALID_FD, opens - 1;
      }
    }

    /** shift_fd.  A file that is open and current, or is opened and then current, is kept; any
        other call closes what it has and opens once more.  It fails exactly when an open that
        it needs fails. */
    method ShiftFd(open1: int, open2: int) returns (ret: int)
      modifies this`fd, this`seqNo, this`day, this`openedAt, this`opens
      ensures (State(), ret) == Shift(old(State()), open1, open2)
      ensures old(fd) < 0 && open1 < 0 ==> ret == ERR == -1 && fd == open1
      ensures old(fd) >= 0 && old(Current()) ==> ret == SUCC == 0 && State() == old(State())
      ensures old(fd) < 0 <= open1 && (interval == 0 || old(Current())) ==>
        ret == SUCC && fd == open1 && opens == old(opens) + 1 && openedAt == clock
      ensures (old(fd) >= 0 || open1 >= 0) && !old(Current()) && (interval != 0 || old(fd) >= 0) ==>
        && ret == fd == open2
        && (open2 != INVALID_FD ==> openedAt == clock)
        && (interval != 0 ==> seqNo == GenSeq(interval, clock.sec))
    {
      if fd < 0 {
        Open(open1);
        if fd < 0 {
          return ERR;
        }
      }
      if 0 != interval {
        if seqNo == GenSeq(interval, clock.sec) {
          return SUCC;
        }
      } else {
        if day == clock.yday {
          return SUCC;
        }
      }
      Close();
      if 0 != interval {
        seqNo := GenSeq(interval, clock.sec);
      }
      Open(open2);
      ret := fd;
    }
  }

  // Histories

  datatype Event = SetClock(clock: Clock) | ShiftFd(open1: int, open2: int)

  function Boot(interval: U32, clock: Clock): Rot {
    Rot(interval, INVALID_FD, GenSeq(interval, clock.sec), 0, clock, clock, 0)
  }

  // ::open returns a descriptor or -1.
  predicate Legal(e: Event) {
    e.ShiftFd? ==> e.open1 >= INVALID_FD && e.open2 >= INVALID_FD
  }

  function Next(r: Rot, e: Event): Rot {
    match e
    case SetClock(clock) => r.(clock := clock)
    case ShiftFd(open1, open2) => Shift(r, open1, open2).0
  }

  function Exec(r: Rot, es: seq<Event>): Rot
    decreases |es|
  {
    if es == [] then r else Exec(Next(r, es[0]), es[1..])
  }

  // A history with all clocks in [0, end)
  predicate Within(es: seq<Event>, end: int) {
    forall i :: 0 <= i < |es| ==> Legal(es[i]) && (es[i].SetClock? ==> 0 <= es[i].clock.sec < end)
  }

  // Between calls: an open file was named when the sequence number was taken.
  ghost predicate Inv(r: Rot, end: int) {
    && r.fd >= INVALID_FD && r.opens == (if r.fd == INVALID_FD then 0 else 1)
    && 0 <= r.clock.sec < end
    && (r.fd >= 0 ==>
          && 0 <= r.openedAt.sec < end
          && (r.interval != 0 ==> r.seqNo == GenSeq(r.interval, r.openedAt.sec))
          && (r.interval == 0 ==> r.day == r.openedAt.yday))
  }

  lemma NextKeeps(r: Rot, e: Event, end: int)
    requires Inv(r, end) && Legal(e) && (e.SetClock? ==> 0 <= e.clock.sec < end)
    ensures Inv(Next(r, e), end) && Next(r, e).interval == r.interval
  {
  }

  lemma {:induction false} RunKeeps(r: Rot, es: seq<Event>, end: int)
    requires Inv(r, end) && Within(es, end)
    ensures Inv(Exec(r, es), end) && Exec(r, es).interval == r.interval
    decreases |es|
  {
    if es != [] {
      NextKeeps(r, es[0], end);
      assert Within(es[1..], end) by {
        assert forall i :: 0 <= i < |es[1..]| ==> es[1..][i] == es[i + 1];
      }
      RunKeeps(Next(r, es[0]), es[1..], end);
    }
  }

  // gen_log_file_path: the last multiple of the interval that is not after the clock
  lemma BucketIs(interval: U32, sec: int)
    requires interval > 0 && 0 <= sec
    ensures var b := BucketStart(interval, sec); b % interval == 0 && b <= sec < b + interval
  {
    var q := sec / interval;
    assert sec == interval * q + sec % interval;
    assert q * interval == interval * q;
    ModIs(q * interval, interval, q, 0);
  }

  // Only one such multiple there is.
  lemma BucketIsOnly(interval: U32, sec: int, b: int)
    requires interval > 0 && 0 <= sec
    ensures b % interval == 0 && b <= sec < b + interval <==> b == BucketStart(interval, sec)
  {
    BucketIs(interval, sec);
    if b % interval == 0 && b <= sec < b + interval {
      var x, y := b / interval, sec / interval;
      assert b == interval * x;
      assert BucketStart(interval, sec) == interval * y;
      assert interval * (x - y) == interval * x - interval * y;
      MultipleInRange(interval, x - y);
    }
  }

  lemma QuotientFits(a: nat, d: nat)
    requires 0 < d && a < TWO32
    ensures 0 <= a / d < TWO32
  {
    ProductAtLeast(d, a / d);
    assert a == d * (a / d) + a % d;
  }

  lemma ProductAtLeast(d: int, q: int)
    requires 0 < d
    ensures 0 <= q ==> q <= d * q
    ensures q < 0 ==> d * q < 0
  {
    if 0 <= q {
      assert 0 <= (d - 1) * q;
    }
  }

  lemma ProductCancels(d: int, x: int, y: int)
    requires 0 < d && x * d == y * d
    ensures x == y
  {
    assert (x - y) * d == 0;
  }

  lemma SeqIsQuotient(interval: U32, a: int) returns (q: U32)
    requires interval > 0 && 0 <= a < TWO32
    ensures q == a / interval && GenSeq(interval, a) == ToInt(q)
  {
    QuotientFits(a, interval);
    q := a / interval;
    assert a % TWO32 == a;
  }

  // gen_log_seq in numbers: for an interval of at least 2 seconds the cast changes nothing.
  lemma SeqIs(interval: U32, sec: int)
    requires 0 <= sec < TWO32 && interval != 1
    ensures GenSeq(interval, sec) == if interval == 0 then 0 else sec / interval
  {
    if interval > 1 {
      var q := SeqIsQuotient(interval, sec);
      assert sec == interval * q + sec % interval;
      ProductAtLeast(interval - 1, q);
      assert interval * q == (interval - 1) * q + q;
    }
  }

  /** For clocks below 2^32 equal sequence numbers mean equal buckets, for any interval. */
  lemma SeqIffBucket(interval: U32, a: int, b: int)
    requires interval > 0 && 0 <= a < TWO32 && 0 <= b < TWO32
    ensures GenSeq(interval, a) == GenSeq(interval, b) <==> BucketStart(interval, a) == BucketStart(interval, b)
  {
    var qa := SeqIsQuotient(interval, a);
    var qb := SeqIsQuotient(interval, b);
    if qa * interval == qb * interval {
      ProductCancels(interval, qa, qb);
    }
  }

  // The time the open file's name shows
  function NameTime(r: Rot): int
    requires r.interval > 0
  {
    BucketStart(r.interval, r.openedAt.sec)
  }

  // The open file is the one named after the current bucket, or day.
  predicate RightFile(r: Rot) {
    && r.fd >= 0
    && if r.interval != 0 then NameTime(r) % r.interval == 0 && NameTime(r) <= r.clock.sec < NameTime(r) + r.interval
       else r.openedAt.year == r.clock.year && r.openedAt.yday == r.clock.yday
  }

  lemma RightFileIs(r: Rot)
    requires r.interval > 0 && r.fd >= 0 && 0 <= r.clock.sec
    ensures RightFile(r) <==> NameTime(r) == BucketStart(r.interval, r.clock.sec)
  {
    BucketIsOnly(r.interval, r.clock.sec, NameTime(r));
  }

  // Every call that does not report failure leaves the right file open.
  ghost predicate RotatesRight(interval: U32, end: int) {
    forall clock: Clock, es: seq<Event>, open1: int, open2: int ::
      (0 <= clock.sec < end && Within(es, end) && open1 >= INVALID_FD && open2 >= INVALID_FD) ==>
        var (r, ret) := Shift(Exec(Boot(interval, clock), es), open1, open2);
        if ret >= 0 then RightFile(r) && r.opens == 1 else r.fd == INVALID_FD && r.opens == 0
  }

  /** With an interval, rotation is right after every history of clocks in [0, end) and
      failed opens exactly when end is at most 2^32: past that the 32-bit sequence number
      repeats and a stale file is kept. */
  lemma RotatesRightIffBelow2To32(interval: U32, end: int)
    requires 0 < interval <= DAY_INTERVAL && end > 0
    ensures RotatesRight(interval, end) <==> end <= TWO32
  {
    if end <= TWO32 {
      forall clock: Clock, es: seq<Event>, open1: int, open2: int |
        0 <= clock.sec < end && Within(es, end) && open1 >= INVALID_FD && open2 >= INVALID_FD
        ensures var (r, ret) := Shift(Exec(Boot(interval, clock), es), open1, open2);
                if ret >= 0 then RightFile(r) && r.opens == 1 else r.fd == INVALID_FD && r.opens == 0
      {
        RunKeeps(Boot(interval, clock), es, end);
        ShiftIsRight(Exec(Boot(interval, clock), es), open1, open2, end);
      }
    } else {
      StaleAfterWrap(interval);
      var c0, c1 := Clock(0, 1970, 0), Clock(TWO32, 2106, 37);
      var es := [ShiftFd(3, 4), SetClock(c1)];
      assert Within(es, end);
      assert !RightFile(Shift(Exec(Boot(interval, c0), es), 5, 6).0);
    }
  }

  lemma ShiftIsRight(r: Rot, open1: int, open2: int, end: int)
    requires Inv(r, end) && r.interval > 0 && end <= TWO32
    requires open1 >= INVALID_FD && open2 >= INVALID_FD
    ensures var (r', ret) := Shift(r, open1, open2);
            if ret >= 0 then RightFile(r') && r'.opens == 1 else r'.fd == INVALID_FD && r'.opens == 0
  {
    if r.fd >= 0 {
      SeqIffBucket(r.interval, r.openedAt.sec, r.clock.sec);
    }
    var r' := Shift(r, open1, open2).0;
    if r'.fd >= 0 {
      RightFileIs(r');
    }
  }

  // What one call does, in terms of files

  // A file that is the right one already is kept.
  lemma RightFileIsKept(r: Rot, open1: int, open2: int, end: int)
    requires Inv(r, end) && end <= TWO32 && RightFile(r)
    ensures Shift(r, open1, open2) == (r, SUCC)
  {
    if r.interval > 0 {
      RightFileIs(r);
      SeqIffBucket(r.interval, r.openedAt.sec, r.clock.sec);
    }
  }

  // The first call after init, in the same bucket, opens its file once.
  lemma FirstCallOpensOnce(interval: U32, boot: Clock, now: Clock, open1: int, open2: int)
    requires 0 <= boot.sec < TWO32 && 0 <= now.sec < TWO32 && open1 >= 0
    requires interval > 0 ==> BucketStart(interval, boot.sec) == BucketStart(interval, now.sec)
    ensures var (r, ret) := Shift(Next(Boot(interval, boot), SetClock(now)), open1, open2);
            ret == SUCC && r.fd == open1 && r.opens == 1 && r.openedAt == now
  {
    if interval > 0 {
      SeqIffBucket(interval, boot.sec, now.sec);
    }
  }

  // A call needs its second open when the file it has, or has just opened, is not current.
  predicate NeedsSecond(r: Rot) {
    if r.interval != 0 then r.seqNo != GenSeq(r.interval, r.clock.sec) else r.fd >= 0 && r.day != r.clock.yday
  }

  // A call fails exactly when an open that it needs fails.
  lemma FailsIffOpenFails(r: Rot, open1: int, open2: int, end: int)
    requires Inv(r, end) && open1 >= INVALID_FD && open2 >= INVALID_FD
    ensures Shift(r, open1, open2).1 < 0 <==>
              (r.fd < 0 && open1 == INVALID_FD) || (NeedsSecond(r) && open2 == INVALID_FD)
  {
  }

  // The first open is kept when the recorded sequence number is current, and with daily rotation.
  lemma FirstOpenIsKept(r: Rot, open1: int, open2: int, end: int)
    requires Inv(r, end) && r.fd < 0 <= open1 && !NeedsSecond(r)
    ensures var (r', ret) := Shift(r, open1, open2); ret == SUCC && r'.fd == open1 && r'.opens == 1
  {
  }

  // The file opened at second 0 is kept at second 2^32.
  lemma StaleAfterWrap(interval: U32)
    requires 0 < interval <= DAY_INTERVAL
    ensures var r := Exec(Boot(interval, Clock(0, 1970, 0)), [ShiftFd(3, 4), SetClock(Clock(TWO32, 2106, 37))]);
            var (r', ret) := Shift(r, 5, 6);
            ret == SUCC && !RightFile(r')
  {
    var c0, c1 := Clock(0, 1970, 0), Clock(TWO32, 2106, 37);
    var es := [ShiftFd(3, 4), SetClock(c1)];
    var r0 := Boot(interval, c0);
    var r1 := Next(r0, es[0]);
    var r2 := Next(r1, es[1]);
    assert es[1..] == [es[1]] && es[1..][1..] == [];
    assert Exec(r1, es[1..]) == Exec(r2, []) == r2;
    assert Exec(r0, es) == r2;
    assert GenSeq(interval, 0) == GenSeq(interval, TWO32);
    assert BucketStart(interval, TWO32) > 0;
  }

  // Daily rotation

  /** Daily rotation compares only the day of the year.  A call that reports no failure
      leaves today's file open unless a file from the same day of another year is open. */
  lemma DailyRotation(r: Rot, open1: int, open2: int, end: int)
    requires Inv(r, end) && r.interval == 0 && open1 >= INVALID_FD && open2 >= INVALID_FD
    ensures var (r', ret) := Shift(r, open1, open2);
            ret >= 0 ==>
              (RightFile(r') <==> !(r.fd >= 0 && r.day == r.clock.yday && r.openedAt.year != r.clock.year))
  {
  }

  function CallAt(r: Rot, clock: Clock, opens: (int, int)): (Rot, int) {
    Shift(r.(clock := clock), opens.0, opens.1)
  }

  // A history of calls at the clocks cs, with what their opens return
  function Calls(r: Rot, cs: seq<Clock>, opens: seq<(int, int)>): Rot
    requires |opens| == |cs|
  {
    if cs == [] then r
    else CallAt(Calls(r, cs[..|cs| - 1], opens[..|cs| - 1]), cs[|cs| - 1], opens[|cs| - 1]).0
  }

  predicate LegalOpens(opens: seq<(int, int)>) {
    forall i :: 0 <= i < |opens| ==> opens[i].0 >= INVALID_FD && opens[i].1 >= INVALID_FD
  }

  ghost predicate CallIsRight(r: Rot, clock: Clock, opens: (int, int)) {
    var (r', ret) := CallAt(r, clock, opens);
    if ret >= 0 then RightFile(r') && r'.opens == 1 else r'.fd == INVALID_FD && r'.opens == 0
  }

  // However opens fail, a call at clock c after calls at the clocks cs does right.
  ghost predicate RightAfter(cs: seq<Clock>, c: Clock) {
    forall boot: Clock, opens: seq<(int, int)>, o: (int, int) ::
      |opens| == |cs| && LegalOpens(opens) && LegalOpens([o]) ==> CallIsRight(Calls(Boot(0, boot), cs, opens), c, o)
  }

  // Each call in a history with daily rotation does right, however opens fail.
  ghost predicate RotatesDaily(cs: seq<Clock>) {
    forall n :: 0 <= n < |cs| ==> RightAfter(cs[..n], cs[n])
  }

  predicate SameDay(a: Clock, b: Clock) { a.year == b.year && a.yday == b.yday }

  // Consecutive calls on the same day of the year are in the same year.
  predicate YearsTold(cs: seq<Clock>) {
    forall i :: 0 < i < |cs| && cs[i - 1].yday == cs[i].yday ==> cs[i - 1].year == cs[i].year
  }

  // After calls at the clocks cs, an open file is that of the last of their days.
  ghost predicate DailyInv(r: Rot, cs: seq<Clock>) {
    && r.interval == 0 && r.fd >= INVALID_FD && r.opens == (if r.fd == INVALID_FD then 0 else 1)
    && (r.fd >= 0 ==> r.day == r.openedAt.yday && cs != [] && SameDay(r.openedAt, cs[|cs| - 1]))
  }

  lemma CallKeepsDaily(r: Rot, cs: seq<Clock>, c: Clock, o: (int, int))
    requires DailyInv(r, cs) && LegalOpens([o])
    requires cs != [] && cs[|cs| - 1].yday == c.yday ==> cs[|cs| - 1].year == c.year
    ensures DailyInv(CallAt(r, c, o).0, cs + [c]) && CallIsRight(r, c, o)
  {
    assert LegalOpens([o]) ==> [o][0].0 >= INVALID_FD && [o][0].1 >= INVALID_FD;
  }

  lemma {:induction false} CallsKeepDaily(boot: Clock, cs: seq<Clock>, opens: seq<(int, int)>)
    requires |opens| == |cs| && LegalOpens(opens) && YearsTold(cs)
    ensures DailyInv(Calls(Boot(0, boot), cs, opens), cs)
  {
    if cs != [] {
      var n := |cs| - 1;
      CallsKeepDaily(boot, cs[..n], opens[..n]);
      CallKeepsDaily(Calls(Boot(0, boot), cs[..n], opens[..n]), cs[..n], cs[n], opens[n]);
      assert cs[..n] + [cs[n]] == cs;
    }
  }

  // Opens that all succeed
  function AllOpen(n: nat): (opens: seq<(int, int)>)
    ensures |opens| == n && LegalOpens(opens) && forall i :: 0 <= i < n ==> opens[i] == (3, 3)
  {
    seq(n, i => (3, 3))
  }

  // What the call at cs[i] finds and does when all opens succeed
  lemma OpenCall(cs: seq<Clock>, i: nat)
    requires i < |cs| && RightAfter(cs[..i], cs[i])
    ensures CallIsRight(Calls(Boot(0, cs[0]), cs[..i], AllOpen(i)), cs[i], (3, 3))
  {
    assert AllOpen(1) == [(3, 3)];
  }

  lemma OpenCallStep(cs: seq<Clock>, i: nat)
    requires 0 < i < |cs|
    ensures Calls(Boot(0, cs[0]), cs[..i], AllOpen(i)) ==
              CallAt(Calls(Boot(0, cs[0]), cs[..i - 1], AllOpen(i - 1)), cs[i - 1], (3, 3)).0
  {
    assert cs[..i][..i - 1] == cs[..i - 1] && AllOpen(i)[..i - 1] == AllOpen(i - 1);
  }

  // The file opened by one call is kept by the next, on the same day of another year.
  lemma StaleOnNextCall(cs: seq<Clock>, i: nat)
    requires 0 < i < |cs| && cs[i - 1].yday == cs[i].yday && cs[i - 1].year != cs[i].year
    requires RightAfter(cs[..i - 1], cs[i - 1])
    ensures !RightAfter(cs[..i], cs[i])
  {
    OpenCall(cs, i - 1);
    OpenCallStep(cs, i);
    DailyDays(cs[0], cs[..i], AllOpen(i));
    if RightAfter(cs[..i], cs[i]) {
      OpenCall(cs, i);
    }
  }

  // An open file's recorded day is the day it was named by.
  lemma {:induction false} DailyDays(boot: Clock, cs: seq<Clock>, opens: seq<(int, int)>)
    requires |opens| == |cs| && LegalOpens(opens)
    ensures var r := Calls(Boot(0, boot), cs, opens);
            r.interval == 0 && r.fd >= INVALID_FD && (r.fd >= 0 ==> r.day == r.openedAt.yday)
  {
    if cs != [] {
      var n := |cs| - 1;
      DailyDays(boot, cs[..n], opens[..n]);
    }
  }

  /** With daily rotation every call of a history does right, whichever opens fail, exactly
      when no two consecutive calls fall on the same day of different years. */
  lemma RotatesDailyIffYearsTold(cs: seq<Clock>)
    ensures RotatesDaily(cs) <==> YearsTold(cs)
  {
    if YearsTold(cs) {
      forall n | 0 <= n < |cs| ensures RightAfter(cs[..n], cs[n]) {
        forall boot: Clock, opens: seq<(int, int)>, o: (int, int) |
          |opens| == n && LegalOpens(opens) && LegalOpens([o])
          ensures CallIsRight(Calls(Boot(0, boot), cs[..n], opens), cs[n], o)
        {
          CallsKeepDaily(boot, cs[..n], opens);
          CallKeepsDaily(Calls(Boot(0, boot), cs[..n], opens), cs[..n], cs[n], o);
        }
      }
    } else {
      var i :| 0 < i < |cs| && cs[i - 1].yday == cs[i].yday && cs[i - 1].year != cs[i].year;
      if RotatesDaily(cs) {
        assert RightAfter(cs[..i - 1], cs[i - 1]) && RightAfter(cs[..i], cs[i]);
        StaleOnNextCall(cs, i);
      }
    }
  }

  // The file opened on 1 January 1970 is kept on 1 January 1971.
  lemma StaleNextYear()
    ensures var r := Exec(Boot(0, Clock(0, 1970, 0)), [ShiftFd(3, 4), SetClock(Clock(365 * DAY_INTERVAL, 1971, 0))]);
            var (r', ret) := Shift(r, 5, 6);
            ret == SUCC && r'.fd == 3 && !RightFile(r')
  {
    var es := [ShiftFd(3, 4), SetClock(Clock(365 * DAY_INTERVAL, 1971, 0))];
    var r1 := Next(Boot(0, Clock(0, 1970, 0)), es[0]);
    var r2 := Next(r1, es[1]);
    assert es[1..] == [es[1]] && es[1..][1..] == [];
    assert Exec(r1, es[1..]) == Exec(r2, []) == r2;
  }
}
