/** Whole runs of the timer wheel: any interleaving of clock updates, additions,
    removals and scans, and what every such run guarantees. */
module WheelRuns {
  import opened Bits
  import opened TimerWheel
  import opened WheelCascade
  import opened WheelScan

  const CLOCK_END := 0x8000_0000

  /** `base` is the second of the last handled scan, or of construction; `adds` counts
      calls of add_sec.  Neither is a field of the C++ class. */
  datatype State = State(w: Wheel, now: int, lastHandled: int, base: int, adds: nat)

  datatype Event =
    | Clock(now: int)
    | Add(t: Timer)
    | Remove(i: nat, j: nat)
    | Scan(outs: seq<Outcome>)

  function Boot(now: int): State {
    State(EMPTY, now, 0, now, 0)
  }

  predicate BootClock(now: int) { 0 <= now < CLOCK_END }

  // The clock does not run backwards; a removed timer is one of the wheel's.
  predicate Legal(s: State, e: Event) {
    match e
    case Clock(now) => s.now <= now < CLOCK_END
    case Remove(i, j) => i < 5 && j < |s.w.lists[i]|
    case _ => true
  }

  // scan() runs scan_sec only when the second has changed.
  predicate Handled(s: State, e: Event) {
    e.Scan? && s.lastHandled != s.now
  }

  function Step(s: State, e: Event): State
    requires Legal(s, e)
  {
    match e
    case Clock(now) => s.(now := now)
    case Add(t) => s.(w := Insert(s.w, s.now, t), adds := s.adds + 1)
    case Remove(i, j) => s.(w := RemoveAt(s.w, i, j))
    case Scan(outs) =>
      if s.lastHandled == s.now then s
      else
        var r := ScanSec(s.w, s.now, outs);
        State(r.w, s.now, s.now, s.now, s.adds + |r.added|)
  }

  predicate LegalRun(s: State, es: seq<Event>)
    decreases |es|
  {
    es == [] || (Legal(s, es[0]) && LegalRun(Step(s, es[0]), es[1..]))
  }

  function Exec(s: State, es: seq<Event>): State
    requires LegalRun(s, es)
    decreases |es|
  {
    if es == [] then s else Exec(Step(s, es[0]), es[1..])
  }

  ghost predicate Reachable(s: State) {
    exists now, es :: ReachedBy(s, now, es)
  }

  ghost predicate ReachedBy(s: State, now: int, es: seq<Event>) {
    BootClock(now) && LegalRun(Boot(now), es) && Exec(Boot(now), es) == s
  }

  ghost predicate RunInv(s: State) {
    && Inv(s.w, s.base)
    && s.base <= s.now < CLOCK_END
    && s.w.moves + Potential(s.w) <= 4 * s.adds
  }

  lemma StepKeepsInv(s: State, e: Event)
    requires RunInv(s) && Legal(s, e)
    ensures RunInv(Step(s, e))
  {
    match e
    case Clock(now) =>
    case Add(t) => InsertKeeps(s.w, s.now, t, s.base);
    case Remove(i, j) => RemoveKeeps(s.w, i, j, s.base);
    case Scan(outs) =>
      ScanConserves(s.w, s.now, outs, s.base);
      ScanPays(s.w, s.now, outs);
  }

  lemma {:induction false} RunKeepsInv(s: State, es: seq<Event>)
    requires RunInv(s) && LegalRun(s, es)
    ensures RunInv(Exec(s, es))
    decreases |es|
  {
    if es != [] {
      StepKeepsInv(s, es[0]);
      RunKeepsInv(Step(s, es[0]), es[1..]);
    }
  }

  lemma ReachableInv(s: State)
    requires Reachable(s)
    ensures RunInv(s)
  {
    var now, es :| ReachedBy(s, now, es);
    RunKeepsInv(Boot(now), es);
  }

  /** In every reachable state the cached minimum of a list above 0 is 0 only when the
      list is empty, and otherwise is no later than any expiry in it. */
  lemma CacheSoundAlways(s: State, i: nat)
    requires Reachable(s) && 1 <= i < 5
    ensures s.w.mins[i] == 0 ==> s.w.lists[i] == []
    ensures forall t :: t in s.w.lists[i] ==> s.w.mins[i] != 0 && s.w.mins[i] <= t.expire
  {
    ReachableInv(s);
    assert Settled(s.w, i, s.base);
    if s.w.lists[i] != [] {
      assert s.w.lists[i][0] in s.w.lists[i];
    }
  }

  // After a handled scan no timer of any list above 0 would fit the list below.
  lemma NeverTooDeep(s: State, outs: seq<Outcome>, i: nat)
    requires Reachable(s) && Handled(s, Scan(outs)) && 1 <= i < 5
    ensures forall t :: t in Step(s, Scan(outs)).w.lists[i] ==> t.expire - s.now > 4 * Pow2(i - 1)
  {
    IntervalIs(i - 1);
    ReachableInv(s);
    ScanConserves(s.w, s.now, outs, s.base);
    assert NotTooDeep(Step(s, Scan(outs)).w, i, s.now);
  }

  // Amortised cost: however the clock jumps, cascades move timers at most 4 times per addition.
  lemma MovesAtMostFourPerAdd(s: State)
    requires Reachable(s)
    ensures s.w.moves <= 4 * s.adds
  {
    ReachableInv(s);
  }

  // On-time firing

  // Every due timer the wheel holds is called, as often as the wheel holds it.
  ghost predicate CallsAllDue(s: State, outs: seq<Outcome>) {
    forall t: Timer :: t.fn != 0 && t.expire <= s.now ==>
      All(s.w)[t] <= multiset(ScanSec(s.w, s.now, outs).called)[t]
  }

  // Handled scans that come within `gap` seconds of the previous one are on time.
  ghost predicate OnTimeWithin(gap: int) {
    forall s: State, outs: seq<Outcome> ::
      Reachable(s) && Handled(s, Scan(outs)) && s.now <= s.base + gap ==> CallsAllDue(s, outs)
  }

  /** Scans are on time in every run exactly when they come at most 4 seconds after the
      previous handled second (or construction). */
  lemma OnTimeIffGapAtMostFour(gap: nat)
    ensures OnTimeWithin(gap) <==> gap <= 4
  {
    if gap <= 4 {
      forall s: State, outs: seq<Outcome> | Reachable(s) && s.now <= s.base + gap
        ensures CallsAllDue(s, outs)
      {
        ReachableInv(s);
        forall t: Timer | t.fn != 0 && t.expire <= s.now
          ensures All(s.w)[t] <= multiset(ScanSec(s.w, s.now, outs).called)[t]
        {
          ScanCatchesUp(s.w, s.now, outs, s.base, t);
        }
      }
    } else {
      var s := LateState();
      assert !CallsAllDue(s, []);
    }
  }

  // Five seconds between scans can miss a timer: it still sits in list 1.
  lemma LateState() returns (s: State)
    ensures Reachable(s) && Handled(s, Scan([])) && s.now == s.base + 5
    ensures !CallsAllDue(s, [])
  {
    var t := Timer(6, 1, 0, 0);
    var es := [Add(t), Clock(6)];
    var s1 := Step(Boot(1), es[0]);
    assert RootIdx(5, 0) == 1;
    assert Insert(EMPTY, 1, t) == Append(EMPTY, t, 1);
    assert EMPTY.lists[1] + [t] == [t];
    assert s1.w.lists == [[], [t], [], [], []];
    assert s1.w.mins == [0, 6, 0, 0, 0];
    s := Step(s1, es[1]);
    assert es[1..] == [es[1]] && es[1..][1..] == [];
    assert LegalRun(s, []) && Exec(s, []) == s;
    assert LegalRun(s1, es[1..]) && Exec(s1, es[1..]) == s;
    assert ReachedBy(s, 1, es);
    assert FireAll(s.w, 6, []).called == [];
    assert t.fn != 0 && t.expire <= s.now && All(s.w)[t] == 1;
  }

  // No handled scan happens in es.
  predicate NoHandled(s: State, es: seq<Event>)
    requires LegalRun(s, es)
    decreases |es|
  {
    es == [] || (!Handled(s, es[0]) && NoHandled(Step(s, es[0]), es[1..]))
  }

  lemma {:induction false} NoHandledKeepsBase(s: State, es: seq<Event>)
    requires LegalRun(s, es) && NoHandled(s, es)
    ensures Exec(s, es).base == s.base && Exec(s, es).now >= s.now
    decreases |es|
  {
    if es != [] {
      NoHandledKeepsBase(Step(s, es[0]), es[1..]);
    }
  }

  /** Lateness bound under arbitrary forward jumps: a timer due at one handled scan and
      still in the wheel at the next handled scan is called there, whatever happened in
      between and however far the clock jumped. */
  lemma LateByAtMostOneScan(s: State, outs: seq<Outcome>, es: seq<Event>, outs2: seq<Outcome>, t: Timer)
    requires Reachable(s) && Handled(s, Scan(outs)) && t.fn != 0 && t.expire <= s.now
    requires var s1 := Step(s, Scan(outs)); LegalRun(s1, es) && NoHandled(s1, es)
    requires Handled(Exec(Step(s, Scan(outs)), es), Scan(outs2))
    ensures var s2 := Exec(Step(s, Scan(outs)), es);
            All(s2.w)[t] <= multiset(ScanSec(s2.w, s2.now, outs2).called)[t]
  {
    ReachableInv(s);
    StepKeepsInv(s, Scan(outs));
    var s1 := Step(s, Scan(outs));
    RunKeepsInv(s1, es);
    NoHandledKeepsBase(s1, es);
    var s2 := Exec(s1, es);
    ScanCatchesUp(s2.w, s2.now, outs2, s2.base, t);
  }

  // Refinement of a flat timer set

  // What a run shows to the outside
  datatype Obs =
    | Quiet
    | Added(t: Timer)
    | Removed(t: Timer)
    | Scanned(now: int, outs: seq<Outcome>, called: seq<Timer>, dropped: seq<Timer>, added: seq<Timer>)

  function Observe(s: State, e: Event): Obs
    requires Legal(s, e)
  {
    match e
    case Clock(now) => Quiet
    case Add(t) => Added(t)
    case Remove(i, j) => Removed(s.w.lists[i][j])
    case Scan(outs) =>
      if s.lastHandled == s.now then Quiet
      else
        var r := ScanSec(s.w, s.now, outs);
        Scanned(s.now, outs, r.called, r.dropped, r.added)
  }

  function Trace(s: State, es: seq<Event>): seq<Obs>
    requires LegalRun(s, es)
    decreases |es|
  {
    if es == [] then [] else [Observe(s, es[0])] + Trace(Step(s, es[0]), es[1..])
  }

  // Every due timer held is called once each, beyond them only timers just added.
  ghost predicate CallsExactly(m: multiset<Timer>, now: int, called: seq<Timer>, added: seq<Timer>) {
    forall t: Timer :: t.fn != 0 && t.expire <= now ==>
      m[t] <= multiset(called)[t] <= m[t] + multiset(added)[t]
  }

  // Every NULL timer past its time is removed.
  ghost predicate Sweeps(m: multiset<Timer>, now: int, dropped: seq<Timer>) {
    forall t: Timer :: t.fn == 0 && t.expire <= now ==> m[t] <= multiset(dropped)[t]
  }

  /** The specification: one multiset of timers, no lists, no caches.  A scan calls
      every due timer it holds exactly once each, and possibly due timers that were added
      meanwhile; it adds exactly what the callbacks add; of armed timers it removes exactly
      those whose callbacks returned 0, and it removes NULL timers once they are due. */
  ghost predicate FlatAllows(m: multiset<Timer>, o: Obs) {
    match o
    case Quiet => true
    case Added(t) => true
    case Removed(t) => t in m
    case Scanned(now, outs, called, dropped, added) =>
      && (forall i :: 0 <= i < |called| ==> called[i].fn != 0 && called[i].expire <= now)
      && CallsExactly(m, now, called, added)
      && added == Additions(called, outs)
      && ArmedOf(dropped) == Rejected(called, outs) && Sweeps(m, now, dropped)
      && multiset(dropped) <= m + multiset(added)
  }

  ghost function FlatNext(m: multiset<Timer>, o: Obs): multiset<Timer> {
    match o
    case Quiet => m
    case Added(t) => m + multiset{t}
    case Removed(t) => m - multiset{t}
    case Scanned(_, _, _, dropped, added) => m + multiset(added) - multiset(dropped)
  }

  ghost predicate FlatTrace(m: multiset<Timer>, os: seq<Obs>)
    decreases |os|
  {
    os == [] || (FlatAllows(m, os[0]) && FlatTrace(FlatNext(m, os[0]), os[1..]))
  }

  predicate Timely(s: State, e: Event) {
    Handled(s, e) ==> s.now <= s.base + 4
  }

  predicate TimelyRun(s: State, es: seq<Event>)
    requires LegalRun(s, es)
    decreases |es|
  {
    es == [] || (Timely(s, es[0]) && TimelyRun(Step(s, es[0]), es[1..]))
  }

  lemma AddIsFlatAdd(s: State, t: Timer)
    requires RunInv(s)
    ensures All(Insert(s.w, s.now, t)) == All(s.w) + multiset{t}
  {
    InsertKeeps(s.w, s.now, t, s.base);
  }

  lemma RemoveIsFlatRemove(s: State, i: nat, j: nat)
    requires RunInv(s) && Legal(s, Remove(i, j))
    ensures var t := s.w.lists[i][j]; t in All(s.w) && All(RemoveAt(s.w, i, j)) == All(s.w) - multiset{t}
  {
    RemoveKeeps(s.w, i, j, s.base);
  }

  lemma StepIsFlatStep(s: State, e: Event)
    requires RunInv(s) && Legal(s, e) && Timely(s, e)
    ensures FlatAllows(All(s.w), Observe(s, e))
    ensures All(Step(s, e).w) == FlatNext(All(s.w), Observe(s, e))
  {
    match e
    case Clock(now) =>
    case Add(t) => AddIsFlatAdd(s, t);
    case Remove(i, j) => RemoveIsFlatRemove(s, i, j);
    case Scan(outs) =>
      if s.lastHandled != s.now {
        ScanIsFlatScan(s, outs);
      } else {
        assert Observe(s, e) == Quiet;
      }
  }

  lemma ScanIsFlatScan(s: State, outs: seq<Outcome>)
    requires RunInv(s) && Handled(s, Scan(outs)) && s.now <= s.base + 4
    ensures FlatAllows(All(s.w), Observe(s, Scan(outs)))
    ensures All(Step(s, Scan(outs)).w) == FlatNext(All(s.w), Observe(s, Scan(outs)))
  {
    ScanBalances(s, outs);
    ScanIsAllowed(s, outs, ScanSec(s.w, s.now, outs));
  }

  lemma ScanIsAllowed(s: State, outs: seq<Outcome>, r: Fired)
    requires RunInv(s) && s.now <= s.base + 4 && r == ScanSec(s.w, s.now, outs)
    requires multiset(r.dropped) <= All(s.w) + multiset(r.added)
    ensures FlatAllows(All(s.w), Scanned(s.now, outs, r.called, r.dropped, r.added))
  {
    ScanCallsOnlyDue(s, outs);
    ScanAdds(s.w, s.now, outs);
    ScanDrops(s.w, s.now, outs);
    ScanCallsAllDueOnce(s, outs);
    ScanSweepsAllNull(s, outs);
  }

  lemma ScanCallsOnlyDue(s: State, outs: seq<Outcome>)
    ensures var r := ScanSec(s.w, s.now, outs);
            forall i :: 0 <= i < |r.called| ==> r.called[i].fn != 0 && r.called[i].expire <= s.now
  {
    ScanCalls(s.w, s.now, outs);
  }

  lemma ScanCallsAllDueOnce(s: State, outs: seq<Outcome>)
    requires RunInv(s) && s.now <= s.base + 4
    ensures var r := ScanSec(s.w, s.now, outs); CallsExactly(All(s.w), s.now, r.called, r.added)
  {
    var m, r := All(s.w), ScanSec(s.w, s.now, outs);
    forall t: Timer | t.fn != 0 && t.expire <= s.now
      ensures m[t] <= multiset(r.called)[t] <= m[t] + multiset(r.added)[t]
    {
      ScanCallsEachDueOnce(s, outs, t);
    }
  }

  lemma ScanSweepsAllNull(s: State, outs: seq<Outcome>)
    requires RunInv(s) && s.now <= s.base + 4
    ensures Sweeps(All(s.w), s.now, ScanSec(s.w, s.now, outs).dropped)
  {
    forall t: Timer | t.fn == 0 && t.expire <= s.now
      ensures All(s.w)[t] <= multiset(ScanSec(s.w, s.now, outs).dropped)[t]
    {
      ScanSweepsNull(s.w, s.now, outs, t);
      SoonIsInListZero(s.w, s.base, t);
    }
  }

  lemma ScanCallsEachDueOnce(s: State, outs: seq<Outcome>, t: Timer)
    requires RunInv(s) && s.now <= s.base + 4 && t.fn != 0 && t.expire <= s.now
    ensures var r := ScanSec(s.w, s.now, outs);
            All(s.w)[t] <= multiset(r.called)[t] <= All(s.w)[t] + multiset(r.added)[t]
  {
    ScanCalls(s.w, s.now, outs);
    ScanCatchesUp(s.w, s.now, outs, s.base, t);
    SoonIsInListZero(s.w, s.base, t);
  }

  lemma ScanBalances(s: State, outs: seq<Outcome>)
    requires RunInv(s)
    ensures var m, r := All(s.w), ScanSec(s.w, s.now, outs);
            && multiset(r.dropped) <= m + multiset(r.added)
            && All(r.w) == m + multiset(r.added) - multiset(r.dropped)
  {
    ScanConserves(s.w, s.now, outs, s.base);
    var r := ScanSec(s.w, s.now, outs);
    SubtractPointwise(All(s.w) + multiset(r.added), multiset(r.dropped), All(r.w));
  }

  lemma SubtractPointwise(total: multiset<Timer>, gone: multiset<Timer>, left: multiset<Timer>)
    requires forall t :: left[t] + gone[t] == total[t]
    ensures gone <= total && left == total - gone
  {
    forall t ensures gone[t] <= total[t] && left[t] == (total - gone)[t] {
      assert left[t] + gone[t] == total[t];
    }
  }

  lemma {:induction false} RunIsFlatRun(s: State, es: seq<Event>)
    requires RunInv(s) && LegalRun(s, es) && TimelyRun(s, es)
    ensures FlatTrace(All(s.w), Trace(s, es))
    decreases |es|
  {
    if es != [] {
      StepKeepsInv(s, es[0]);
      StepIsFlatStep(s, es[0]);
      RunIsFlatRun(Step(s, es[0]), es[1..]);
      assert Trace(s, es)[1..] == Trace(Step(s, es[0]), es[1..]);
    }
  }

  /** The wheel refines the flat timer set: every trace of every run whose handled scans
      are at most 4 seconds apart is a trace of the flat set. */
  lemma WheelRefinesFlatSet(now: int, es: seq<Event>)
    requires BootClock(now) && LegalRun(Boot(now), es) && TimelyRun(Boot(now), es)
    ensures FlatTrace(multiset{}, Trace(Boot(now), es))
  {
    RunIsFlatRun(Boot(now), es);
    assert All(EMPTY) == multiset{};
  }
}
