/** The heap timer and the runs of module WheelRuns: whatever sequence of calls a `TimerT`
    receives, it stays in step with a reachable state, so that every theorem about
    reachable states holds of the linked lists. */
module TimerRuns {
  import opened Bits
  import opened XrList
  import opened TimerWheel
  import opened TimerLinks
  import opened TimerHeap
  import opened WheelRuns

  // The wheel on the heap is that of run state s.
  ghost predicate InStep(tm: TimerT, g: Live, s: State)
    reads tm, g.wheel.nodes, g.owners.nodes
  {
    && tm.Good(g) && tm.Abs(g) == s.w
    && tm.now == s.now && tm.lastHandleSec == s.lastHandled && Reachable(s)
  }

  lemma {:induction false} ExecSnoc(s: State, es: seq<Event>, e: Event)
    requires LegalRun(s, es) && Legal(Exec(s, es), e)
    ensures LegalRun(s, es + [e]) && Exec(s, es + [e]) == Step(Exec(s, es), e)
    decreases |es|
  {
    if es == [] {
      assert es + [e] == [e] && [e][1..] == [];
    } else {
      assert (es + [e])[1..] == es[1..] + [e];
      ExecSnoc(Step(s, es[0]), es[1..], e);
    }
  }

  lemma ReachOn(s: State, e: Event)
    requires Reachable(s) && Legal(s, e)
    ensures Reachable(Step(s, e))
  {
    var now, es :| ReachedBy(s, now, es);
    ExecSnoc(Boot(now), es, e);
    assert ReachedBy(Step(s, e), now, es + [e]);
  }

  lemma ReachBoot(now: int)
    requires BootClock(now)
    ensures Reachable(Boot(now))
  {
    assert ReachedBy(Boot(now), now, []);
  }

  method Start(now: int) returns (tm: TimerT, ghost g: Live)
    requires BootClock(now)
    ensures fresh(tm) && InStep(tm, g, Boot(now))
    ensures fresh(g.wheel.nodes) && g.owners.lists == map[] && g.owners.nodes == {}
  {
    tm := new TimerT(now);
    g := tm.booted;
    ReachBoot(now);
  }

  // timer_event_t()
  method NewOwner(tm: TimerT, ghost g: Live, ghost s: State) returns (head: ListHead, ghost g': Live)
    requires InStep(tm, g, s)
    ensures fresh(head) && InStep(tm, g', s) && g'.wheel == g.wheel
    ensures g'.owners.lists == g.owners.lists[head := []] && g'.owners.nodes == g.owners.nodes + {head}
  {
    head, g' := tm.NewOwner(g);
  }

  // renew_time
  method RenewTime(tm: TimerT, sec: int, ghost g: Live, ghost s: State)
    requires InStep(tm, g, s) && s.now <= sec < CLOCK_END
    modifies tm`now
    ensures InStep(tm, g, Step(s, Clock(sec)))
  {
    ReachOn(s, Clock(sec));
    tm.now := sec;
  }

  method Add(tm: TimerT, head: ListHead, info: Timer, ghost g: Live, ghost s: State)
    returns (t: SecTimer, ghost g': Live, ghost i: nat)
    requires InStep(tm, g, s) && head in g.owners.lists
    modifies tm`minExpiring
    modifies g.wheel.nodes`next, g.wheel.nodes`prev, g.owners.nodes`next, g.owners.nodes`prev
    ensures InStep(tm, g', Step(s, WheelRuns.Add(info)))
    ensures fresh(t) && fresh(t.entry) && fresh(t.sprite) && t.info == info
    ensures g'.wheel.home.Keys == g.wheel.home.Keys + {t}
    ensures i in g.wheel.lists && g'.wheel.lists == g.wheel.lists[i := g.wheel.lists[i] + [t]]
    ensures (i < 4 ==> info.expire - s.now <= 4 * Pow2(i)) && (i > 0 ==> 4 * Pow2(i - 1) < info.expire - s.now)
    ensures g'.owners.lists == g.owners.lists[head := g.owners.lists[head] + [t]]
    ensures g'.wheel.nodes == g.wheel.nodes + {t.entry} && g'.owners.nodes == g.owners.nodes + {t.sprite}
  {
    SidesOf(tm, g);
    t, g', i := AddInStep(tm, head, info, g, s);
    AddShape(g, t, i, head);
  }

  method AddInStep(tm: TimerT, head: ListHead, info: Timer, ghost g: Live, ghost s: State)
    returns (t: SecTimer, ghost g': Live, ghost i: nat)
    requires InStep(tm, g, s) && head in g.owners.lists
    modifies tm`minExpiring
    modifies g.wheel.nodes`next, g.wheel.nodes`prev, g.owners.nodes`next, g.owners.nodes`prev
    ensures InStep(tm, g', Step(s, WheelRuns.Add(info)))
    ensures fresh(t) && fresh(t.entry) && fresh(t.sprite) && t.info == info
    ensures i in g.wheel.lists && g' == g.Add(t, i, head)
    ensures (i < 4 ==> info.expire - s.now <= 4 * Pow2(i)) && (i > 0 ==> 4 * Pow2(i - 1) < info.expire - s.now)
  {
    ReachOn(s, WheelRuns.Add(info));
    t, g', i := tm.AddSec(head, info, g);
  }

  lemma AddShape(g: Live, t: SecTimer, i: nat, h: ListHead)
    requires i in g.wheel.lists && h in g.owners.lists && g.wheel.side == EntrySide && g.owners.side == SpriteSide
    ensures var g' := g.Add(t, i, h);
            && g'.wheel.home.Keys == g.wheel.home.Keys + {t}
            && g'.wheel.lists == g.wheel.lists[i := g.wheel.lists[i] + [t]]
            && g'.owners.lists == g.owners.lists[h := g.owners.lists[h] + [t]]
            && g'.wheel.nodes == g.wheel.nodes + {t.entry} && g'.owners.nodes == g.owners.nodes + {t.sprite}
  {
  }

  lemma SidesOf(tm: TimerT, g: Live)
    requires tm.Good(g)
    ensures g.wheel.side == EntrySide && g.owners.side == SpriteSide && g.wheel.home.Keys == g.owners.home.Keys
  {
  }

  method Remove(tm: TimerT, t: SecTimer, ghost g: Live, ghost s: State)
    returns (ghost g': Live, ghost i: nat, ghost j: nat, ghost h: ListHead)
    requires InStep(tm, g, s) && t in g.wheel.home
    modifies g.wheel.nodes`next, g.wheel.nodes`prev, g.owners.nodes`next, g.owners.nodes`prev
    ensures Legal(s, WheelRuns.Remove(i, j)) && s.w.lists[i][j] == t.info
    ensures InStep(tm, g', Step(s, WheelRuns.Remove(i, j)))
    ensures g'.wheel.home.Keys == g.wheel.home.Keys - {t}
    ensures h in g.owners.lists && t in g.owners.lists[h]
    ensures g'.owners.lists == g.owners.lists[h := Without(g.owners.lists[h], {t})]
    ensures g'.wheel.nodes == g.wheel.nodes && g'.owners.nodes == g.owners.nodes
  {
    ghost var m;
    i, j, h, m := PlaceOf(tm, t, g);
    ReachOn(s, WheelRuns.Remove(i, j));
    tm.RmSec(t, g, i, j, h, m);
    g' := g.Remove(i, j, h, m);
  }

  // Where timer t sits in its two lists
  lemma PlaceOf(tm: TimerT, t: SecTimer, g: Live) returns (i: nat, j: nat, h: ListHead, m: nat)
    requires tm.Good(g) && t in g.wheel.home
    ensures i < 5 && j < |g.wheel.lists[i]| && g.wheel.lists[i][j] == t
    ensures h in g.owners.lists && m < |g.owners.lists[h]| && g.owners.lists[h][m] == t
    ensures Cut(g.owners.lists[h], m) == Without(g.owners.lists[h], {t})
  {
    SidesOf(tm, g);
    Homed(g.wheel, tm.heads, t);
    Homed(g.owners, g.owned, t);
    i, h := g.wheel.home[t], g.owners.home[t];
    j :| j < |g.wheel.lists[i]| && g.wheel.lists[i][j] == t;
    m :| m < |g.owners.lists[h]| && g.owners.lists[h][m] == t;
    OnceInList(g.owners, g.owned, h, m);
    CutIsWithout(g.owners.lists[h], m);
  }

  method Scan(tm: TimerT, outs: seq<HeapOutcome>, ghost g: Live, ghost s: State)
    returns (called: seq<Timer>, ghost g': Live)
    requires InStep(tm, g, s) && tm.OutsOk(outs, g)
    modifies tm`minExpiring, tm`lastHandleSec
    modifies g.wheel.nodes`next, g.wheel.nodes`prev, g.owners.nodes`next, g.owners.nodes`prev
    ensures InStep(tm, g', Step(s, WheelRuns.Scan(Script(outs))))
    ensures called == if Handled(s, WheelRuns.Scan(Script(outs)))
                      then ScanSec(s.w, s.now, Script(outs)).called else []
    ensures g'.owners.lists.Keys == g.owners.lists.Keys
    ensures forall x :: x in g'.wheel.nodes ==> x in g.wheel.nodes || fresh(x)
    ensures forall x :: x in g'.owners.nodes ==> x in g.owners.nodes || fresh(x)
  {
    ReachOn(s, WheelRuns.Scan(Script(outs)));
    called, g' := tm.Scan(outs, g);
  }

  lemma {:induction false} ReachByRemovals(s: State, ps: seq<(nat, nat)>, w: Wheel)
    requires Reachable(s) && Removals(s.w, ps, w)
    ensures Reachable(s.(w := w))
    decreases |ps|
  {
    if ps != [] {
      var n := |ps| - 1;
      var m: Wheel :| LastRemoval(m, ps, w) && Removals(s.w, ps[..n], m);
      ReachByRemovals(s, ps[..n], m);
      ReachOn(s.(w := m), WheelRuns.Remove(ps[n].0, ps[n].1));
    } else {
      assert s.(w := w) == s;
    }
  }

  // rm_all_sec is a run of removals.
  method RemoveAll(tm: TimerT, head: ListHead, ghost g: Live, ghost s: State) returns (ghost g': Live)
    requires InStep(tm, g, s) && head in g.owners.lists
    modifies g.wheel.nodes`next, g.wheel.nodes`prev, g.owners.nodes`next, g.owners.nodes`prev
    ensures tm.Good(g') && InStep(tm, g', s.(w := tm.Abs(g')))
    ensures tm.Pruned(g.wheel, Members(g.owners.lists[head]), g'.wheel)
    ensures g'.owners.lists == g.owners.lists[head := []]
    ensures g'.wheel.nodes == g.wheel.nodes && g'.owners.nodes == g.owners.nodes
  {
    ghost var ps;
    g', ps := tm.RmAllSec(head, g);
    ReachByRemovals(s, ps, tm.Abs(g'));
  }

  // Counting timers on the heap

  // The linked timers whose payload is p
  ghost function Held(g: Live, p: Timer): set<SecTimer> {
    set t | t in g.wheel.home && t.info == p
  }

  ghost function HeldIn(l: seq<SecTimer>, p: Timer): set<SecTimer> {
    set t | t in l && t.info == p
  }

  lemma InfosSnoc(l: seq<SecTimer>, t: SecTimer)
    ensures multiset(Infos(l + [t])) == multiset(Infos(l)) + multiset{t.info}
  {
    assert Infos(l + [t]) == Infos(l) + [t.info];
  }

  lemma {:induction false} HeldInCount(l: seq<SecTimer>, p: Timer)
    requires forall i, j :: 0 <= i < j < |l| ==> l[i] != l[j]
    ensures |HeldIn(l, p)| == multiset(Infos(l))[p]
  {
    if l != [] {
      var n := |l| - 1;
      HeldInCount(l[..n], p);
      InfosSnoc(l[..n], l[n]);
      assert l == l[..n] + [l[n]];
      assert HeldIn(l, p) == HeldIn(l[..n], p) + (if l[n].info == p then {l[n]} else {});
    }
  }

  lemma ListCount(tm: TimerT, g: Live, i: nat, p: Timer)
    requires tm.Good(g) && i < 5
    ensures |HeldIn(g.wheel.lists[i], p)| == multiset(tm.Abs(g).lists[i])[p]
  {
    var l := g.wheel.lists[i];
    forall a, b | 0 <= a < b < |l| ensures l[a] != l[b] {
      OnceInList(g.wheel, tm.heads, i, b);
      assert Cut(l, b)[a] == l[a];
    }
    HeldInCount(l, p);
  }

  lemma ListIsHome(tm: TimerT, g: Live, i: nat)
    requires tm.Good(g) && i < 5
    ensures forall t :: t in g.wheel.lists[i] <==> t in g.wheel.home && g.wheel.home[t] == i
  {
    forall t | t in g.wheel.lists[i] ensures t in g.wheel.home && g.wheel.home[t] == i {
      var j :| 0 <= j < |g.wheel.lists[i]| && g.wheel.lists[i][j] == t;
      Found(g.wheel, tm.heads, i, j);
    }
    forall t | t in g.wheel.home && g.wheel.home[t] == i ensures t in g.wheel.lists[i] {
      Homed(g.wheel, tm.heads, t);
    }
  }

  lemma HomeIsList(tm: TimerT, g: Live)
    requires tm.Good(g)
    ensures forall t :: t in g.wheel.home ==> g.wheel.home[t] < 5
  {
    forall t | t in g.wheel.home ensures g.wheel.home[t] < 5 {
      Homed(g.wheel, tm.heads, t);
    }
  }

  // Each linked timer is in exactly one of the five lists.
  lemma HeldSplits(tm: TimerT, g: Live, p: Timer)
    requires tm.Good(g)
    ensures var l := g.wheel.lists;
            Held(g, p) == HeldIn(l[0], p) + HeldIn(l[1], p) + HeldIn(l[2], p) + HeldIn(l[3], p) + HeldIn(l[4], p)
    ensures forall i, k :: 0 <= i < k < 5 ==> HeldIn(g.wheel.lists[i], p) !! HeldIn(g.wheel.lists[k], p)
  {
    HomeIsList(tm, g);
    forall i | 0 <= i < 5
      ensures forall t :: t in g.wheel.lists[i] <==> t in g.wheel.home && g.wheel.home[t] == i
    {
      ListIsHome(tm, g, i);
    }
  }

  lemma HeldIsCounted(tm: TimerT, g: Live, p: Timer)
    requires tm.Good(g)
    ensures |Held(g, p)| == WheelCascade.All(tm.Abs(g))[p]
  {
    HeldSplits(tm, g, p);
    ListCount(tm, g, 0, p);
    ListCount(tm, g, 1, p);
    ListCount(tm, g, 2, p);
    ListCount(tm, g, 3, p);
    ListCount(tm, g, 4, p);
  }

  /** On time, on the heap: a scan of a new second at most 4 seconds after the previous one
      calls every due payload at least as often as timers with it are linked anywhere in the
      five lists. */
  method TimelyScan(tm: TimerT, outs: seq<HeapOutcome>, ghost g: Live, ghost s: State)
    returns (called: seq<Timer>, ghost g': Live)
    requires InStep(tm, g, s) && tm.OutsOk(outs, g)
    requires s.now != s.lastHandled && s.now <= s.base + 4
    modifies tm`minExpiring, tm`lastHandleSec
    modifies g.wheel.nodes`next, g.wheel.nodes`prev, g.owners.nodes`next, g.owners.nodes`prev
    ensures InStep(tm, g', Step(s, WheelRuns.Scan(Script(outs))))
    ensures forall p: Timer :: p.fn != 0 && p.expire <= s.now ==> |Held(g, p)| <= multiset(called)[p]
    ensures g'.owners.lists.Keys == g.owners.lists.Keys
    ensures forall x :: x in g'.wheel.nodes ==> x in g.wheel.nodes || fresh(x)
    ensures forall x :: x in g'.owners.nodes ==> x in g.owners.nodes || fresh(x)
  {
    OnTimeIffGapAtMostFour(4);
    assert CallsAllDue(s, Script(outs));
    forall p: Timer | p.fn != 0 && p.expire <= s.now
      ensures |Held(g, p)| <= multiset(ScanSec(s.w, s.now, Script(outs)).called)[p]
    {
      HeldIsCounted(tm, g, p);
    }
    called, g' := Scan(tm, outs, g, s);
  }

  lemma BothHeld(g: Live, t1: SecTimer, t2: SecTimer, p: Timer)
    requires t1 in g.wheel.home && t2 in g.wheel.home && t1 != t2 && t1.info == t2.info == p
    ensures |Held(g, p)| >= 2
  {
    assert Held(g, p) == {t1, t2} + (Held(g, p) - {t1, t2});
  }

  // Programs on the heap

  method OneOwner(now: int) returns (tm: TimerT, head: ListHead, ghost g: Live)
    requires BootClock(now)
    ensures fresh(tm) && fresh(g.wheel.nodes) && fresh(g.owners.nodes)
    ensures InStep(tm, g, Boot(now)) && head in g.owners.lists
  {
    tm, g := Start(now);
    head, g := NewOwner(tm, g, Boot(now));
  }

  // The owner adds a timer.
  method OneMore(tm: TimerT, head: ListHead, info: Timer, ghost g: Live, ghost s: State)
    returns (t: SecTimer, ghost g': Live, ghost s': State)
    requires InStep(tm, g, s) && head in g.owners.lists
    modifies tm`minExpiring
    modifies g.wheel.nodes`next, g.wheel.nodes`prev, g.owners.nodes`next, g.owners.nodes`prev
    ensures InStep(tm, g', s') && head in g'.owners.lists
    ensures s'.now == s.now && s'.base == s.base && s'.lastHandled == s.lastHandled
    ensures fresh(t) && t.info == info && g'.wheel.home.Keys == g.wheel.home.Keys + {t}
    ensures forall x :: x in g'.wheel.nodes ==> x in g.wheel.nodes || fresh(x)
    ensures forall x :: x in g'.owners.nodes ==> x in g.owners.nodes || fresh(x)
  {
    s' := Step(s, WheelRuns.Add(info));
    ghost var i;
    t, g', i := Add(tm, head, info, g, s);
  }

  // One owner adds the same timer twice.
  method TwoTimers(now: int, info: Timer) returns (tm: TimerT, ghost g: Live, ghost s: State)
    requires BootClock(now)
    ensures fresh(tm) && fresh(g.wheel.nodes) && fresh(g.owners.nodes)
    ensures InStep(tm, g, s) && s.now == s.base == now && s.lastHandled == 0
    ensures |Held(g, info)| >= 2
  {
    var head, t1, t2;
    tm, head, g := OneOwner(now);
    t1, g, s := OneMore(tm, head, info, g, Boot(now));
    ghost var g1 := g;
    assert fresh(g1.wheel.nodes) && fresh(g1.owners.nodes);
    t2, g, s := OneMore(tm, head, info, g, s);
    assert forall x :: x in g.wheel.nodes ==> x in g1.wheel.nodes || fresh(x);
    assert forall x :: x in g.owners.nodes ==> x in g1.owners.nodes || fresh(x);
    BothHeld(g, t1, t2, info);
  }

  /** The next scan, at most 4 seconds on, calls both. */
  method TwoTimersOnTime(now: int, later: int, info: Timer) returns (called: seq<Timer>)
    requires BootClock(now) && now < later <= now + 4 && later < CLOCK_END && info.fn != 0 && info.expire <= later
    ensures multiset(called)[info] >= 2
  {
    var tm, g, s := TwoTimers(now, info);
    RenewTime(tm, later, g, s);
    called, g := TimelyScan(tm, [], g, Step(s, Clock(later)));
  }
}
