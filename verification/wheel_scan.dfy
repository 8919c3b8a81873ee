/** What one handled scan fires, removes and keeps. */
module WheelScan {
  import opened Wrappers
  import opened TimerWheel
  import opened WheelCascade

  function DueOf(s: seq<Timer>, now: int): seq<Timer> {
    if s == [] then []
    else (if s[0].fn != 0 && s[0].expire <= now then [s[0]] else []) + DueOf(s[1..], now)
  }

  function ArmedOf(s: seq<Timer>): seq<Timer> {
    if s == [] then [] else (if s[0].fn != 0 then [s[0]] else []) + ArmedOf(s[1..])
  }

  // The called timers whose callbacks returned 0
  function Rejected(called: seq<Timer>, outs: seq<Outcome>): seq<Timer>
    decreases |called|
  {
    if called == [] then []
    else (if Head(outs).keep then [] else [called[0]]) + Rejected(called[1..], Tail(outs))
  }

  // What the callbacks of the called timers add
  function Additions(called: seq<Timer>, outs: seq<Outcome>): seq<Timer>
    decreases |called|
  {
    if called == [] then [] else Head(outs).adds + Additions(called[1..], Tail(outs))
  }

  lemma {:induction false} DueOfConcat(a: seq<Timer>, b: seq<Timer>, now: int)
    ensures DueOf(a + b, now) == DueOf(a, now) + DueOf(b, now)
  {
    if a == [] {
      assert a + b == b;
    } else {
      assert (a + b)[0] == a[0] && (a + b)[1..] == a[1..] + b;
      DueOfConcat(a[1..], b, now);
      var first := if a[0].Due(now) then [a[0]] else [];
      assert first + (DueOf(a[1..], now) + DueOf(b, now)) == (first + DueOf(a[1..], now)) + DueOf(b, now);
    }
  }

  lemma {:induction false} DueOfCount(s: seq<Timer>, now: int, t: Timer)
    ensures multiset(DueOf(s, now))[t] == if t.fn != 0 && t.expire <= now then multiset(s)[t] else 0
  {
    if s != [] {
      DueOfCount(s[1..], now, t);
      assert s == [s[0]] + s[1..];
    }
  }

  lemma {:induction false} ArmedOfSnoc(s: seq<Timer>, t: Timer)
    ensures ArmedOf(s + [t]) == ArmedOf(s) + (if t.Armed() then [t] else [])
  {
    if s == [] {
      assert s + [t] == [t];
    } else {
      ArmedOfSnoc(s[1..], t);
      assert (s + [t])[1..] == s[1..] + [t];
    }
  }

  lemma {:induction false} LandingPart(ts: seq<Timer>, now: int, i: nat)
    ensures multiset(Landing(ts, now, i)) <= multiset(ts)
  {
    if ts != [] {
      LandingPart(ts[1..], now, i);
      assert ts == [ts[0]] + ts[1..];
    }
  }

  // The timers the firing loop still has in front of it
  function Pending(w: Wheel, cur: Option<nat>): seq<Timer>
    requires cur.Some? ==> cur.value < |w.lists[0]|
  {
    if cur.None? then [] else w.lists[0][cur.value..]
  }

  lemma DropFront(front: seq<Timer>, kept: seq<Timer>, back: seq<Timer>, extra: seq<Timer>)
    ensures (front + kept + back + extra)[|front| + |kept|..] == back + extra
  {
  }

  // After one round, what is pending is what was pending behind t, plus what the
  // callback appended unless t was the last timer.
  lemma PendingStep(f: Fired, now: int, j: nat, o: Outcome)
    requires j < |f.w.lists[0]|
    ensures var l := f.w.lists[0]; var f' := FireOne(f, now, j, o); var next := NextPos(f.w, now, j, o);
            && (next.Some? ==> next.value < |f'.w.lists[0]|)
            && Pending(f'.w, next) ==
                 if next.None? then []
                 else l[j + 1..] + (if l[j].Due(now) then Landing(o.adds, now, 0) else [])
  {
    var l := f.w.lists[0];
    FireOneShape(f, now, j, o);
    DropFront(l[..j], if Stays(l[j], now, o) then [l[j]] else [], l[j + 1..],
              if l[j].Due(now) then Landing(o.adds, now, 0) else []);
  }

  // One round of the firing loop, as an equation
  lemma FireStep(f: Fired, now: int, j: nat, outs: seq<Outcome>)
    requires j < |f.w.lists[0]|
    ensures var t := f.w.lists[0][j]; var o := OutcomeFor(t, now, outs);
            var f' := FireOne(f, now, j, o); var next := NextPos(f.w, now, j, o);
            && (next.Some? ==> next.value < |f'.w.lists[0]|)
            && FireFrom(f, now, Some(j), outs) ==
                 FireFrom(f', now, next, Rest(t, now, outs))
  {
    PendingStep(f, now, j, OutcomeFor(f.w.lists[0][j], now, outs));
  }

  // The measure on which the firing loop terminates: a call uses up the script, any
  // other round shortens what is pending.
  lemma FireShrinks(f: Fired, now: int, j: nat, outs: seq<Outcome>)
    requires j < |f.w.lists[0]|
    ensures var t := f.w.lists[0][j]; var o := OutcomeFor(t, now, outs);
            var next := NextPos(f.w, now, j, o); var n := |FireOne(f, now, j, o).w.lists[0]|;
            || |Rest(t, now, outs)| < |outs|
            || (|Rest(t, now, outs)| == |outs| && (next.None? || n - next.value < |f.w.lists[0]| - j))
  {
    FireOneShape(f, now, j, OutcomeFor(f.w.lists[0][j], now, outs));
  }

  lemma CountConcat(a: seq<Timer>, b: seq<Timer>, t: Timer)
    ensures multiset(a + b)[t] == multiset(a)[t] + multiset(b)[t]
  {
  }

  // Timers in the wheel or removed so far, less those added so far
  ghost function Balance(f: Fired, t: Timer): int {
    var inOrOut: int := All(f.w)[t] + multiset(f.dropped)[t];
    inOrOut - multiset(f.added)[t]
  }

  lemma RemoveInv(w: Wheel, i: nat, j: nat, base: int)
    requires i < 5 && j < |w.lists[i]| && Inv(w, base)
    ensures Inv(RemoveAt(w, i, j), base)
  {
    RemoveKeeps(w, i, j, base);
  }

  lemma InsertAllInv(w: Wheel, now: int, ts: seq<Timer>, base: int)
    requires Inv(w, base) && base <= now
    ensures Inv(InsertAll(w, now, ts), base)
  {
    InsertAllKeeps(w, now, ts, base);
  }

  lemma FireOneKeeps(f: Fired, now: int, j: nat, o: Outcome, base: int)
    requires j < |f.w.lists[0]| && Inv(f.w, base) && base <= now
    ensures Inv(FireOne(f, now, j, o).w, base)
  {
    var t := f.w.lists[0][j];
    if !t.Armed() {
      RemoveInv(f.w, 0, j, base);
    } else if t.expire <= now {
      InsertAllInv(f.w, now, o.adds, base);
      if !o.keep {
        InsertAllExtends(f.w, now, o.adds);
        RemoveInv(InsertAll(f.w, now, o.adds), 0, j, base);
      }
    }
  }

  function One(t: Timer, x: Timer): nat { if t == x then 1 else 0 }

  lemma RemoveCount(w: Wheel, i: nat, j: nat, base: int, x: Timer)
    requires i < 5 && j < |w.lists[i]| && Inv(w, base)
    ensures All(RemoveAt(w, i, j))[x] + One(w.lists[i][j], x) == All(w)[x]
  {
    RemoveKeeps(w, i, j, base);
  }

  lemma InsertAllCount(w: Wheel, now: int, ts: seq<Timer>, base: int, x: Timer)
    requires Inv(w, base) && base <= now
    ensures All(InsertAll(w, now, ts))[x] == All(w)[x] + multiset(ts)[x]
  {
    InsertAllKeeps(w, now, ts, base);
  }

  lemma SnocCount(a: seq<Timer>, t: Timer, x: Timer)
    ensures multiset(a + [t])[x] == multiset(a)[x] + One(t, x)
  {
  }

  lemma FireOneBalances(f: Fired, now: int, j: nat, o: Outcome, base: int, x: Timer)
    requires j < |f.w.lists[0]| && Inv(f.w, base) && base <= now
    ensures Balance(FireOne(f, now, j, o), x) == Balance(f, x)
  {
    var t := f.w.lists[0][j];
    if !t.Armed() {
      SnocCount(f.dropped, t, x);
      RemoveCount(f.w, 0, j, base, x);
    } else if t.expire <= now {
      var w1 := InsertAll(f.w, now, o.adds);
      CountConcat(f.added, o.adds, x);
      InsertAllKeeps(f.w, now, o.adds, base);
      InsertAllCount(f.w, now, o.adds, base, x);
      if !o.keep {
        SnocCount(f.dropped, t, x);
        InsertAllExtends(f.w, now, o.adds);
        RemoveCount(w1, 0, j, base, x);
      }
    }
  }

  // Conservation: what is in the wheel or was removed is what was there or was added.
  lemma {:induction false} FireConserves(
      f: Fired, now: int, cur: Option<nat>, outs: seq<Outcome>, base: int, x: Timer)
    requires cur.Some? ==> cur.value < |f.w.lists[0]|
    requires Inv(f.w, base) && base <= now
    ensures var r := FireFrom(f, now, cur, outs);
            Inv(r.w, base) && Balance(r, x) == Balance(f, x)
    decreases |outs|, cur.Some?, if cur.Some? then |f.w.lists[0]| - cur.value else 0
  {
    if cur.Some? {
      var t := f.w.lists[0][cur.value];
      var o := OutcomeFor(t, now, outs);
      FireStep(f, now, cur.value, outs);
      FireShrinks(f, now, cur.value, outs);
      FireOneKeeps(f, now, cur.value, o, base);
      FireOneBalances(f, now, cur.value, o, base, x);
      FireConserves(FireOne(f, now, cur.value, o), now, NextPos(f.w, now, cur.value, o),
                    Rest(t, now, outs), base, x);
    }
  }

  /** The calls made from f to r with `pending` still to visit: first every due timer
      that was pending, in list order, then only due timers. */
  ghost predicate Calls(f: Fired, r: Fired, pending: seq<Timer>, now: int) {
    && f.called + DueOf(pending, now) <= r.called
    && forall i :: |f.called| <= i < |r.called| ==> r.called[i].Due(now)
  }

  lemma {:induction false} FireCalls(f: Fired, now: int, cur: Option<nat>, outs: seq<Outcome>)
    requires cur.Some? ==> cur.value < |f.w.lists[0]|
    ensures Calls(f, FireFrom(f, now, cur, outs), Pending(f.w, cur), now)
    decreases |outs|, cur.Some?, if cur.Some? then |f.w.lists[0]| - cur.value else 0
  {
    if cur.Some? {
      var t := f.w.lists[0][cur.value];
      var o := OutcomeFor(t, now, outs);
      FireStep(f, now, cur.value, outs);
      FireShrinks(f, now, cur.value, outs);
      var outs' := Rest(t, now, outs);
      var f', next := FireOne(f, now, cur.value, o), NextPos(f.w, now, cur.value, o);
      FireCalls(f', now, next, outs');
      CallsStep(f, FireFrom(f', now, next, outs'), now, cur.value, o);
    }
  }

  lemma DueOfFront(l: seq<Timer>, j: nat, now: int, extra: seq<Timer>)
    requires j < |l|
    ensures DueOf(l[j..], now) == (if l[j].Due(now) then [l[j]] else []) + DueOf(l[j + 1..], now)
    ensures DueOf(l[j + 1..], now) <= DueOf(l[j + 1..] + extra, now)
  {
    assert l[j..][1..] == l[j + 1..];
    DueOfConcat(l[j + 1..], extra, now);
  }

  lemma PendingDue(f: Fired, now: int, j: nat, o: Outcome)
    requires j < |f.w.lists[0]|
    ensures var l, next, f' := f.w.lists[0], NextPos(f.w, now, j, o), FireOne(f, now, j, o);
            && (next.Some? ==> next.value < |f'.w.lists[0]|)
            && DueOf(l[j..], now) == (if l[j].Due(now) then [l[j]] else []) + DueOf(l[j + 1..], now)
            && DueOf(l[j + 1..], now) <= DueOf(Pending(f'.w, next), now)
  {
    var l := f.w.lists[0];
    PendingStep(f, now, j, o);
    DueOfFront(l, j, now, if l[j].Due(now) then Landing(o.adds, now, 0) else []);
    assert j + 1 == |l| ==> l[j + 1..] == [];
  }

  lemma PrefixTrans(a: seq<Timer>, b: seq<Timer>, c: seq<Timer>)
    requires a <= b <= c
    ensures a <= c
  {
  }

  lemma PrefixChain(a: seq<Timer>, t: seq<Timer>, b: seq<Timer>, c: seq<Timer>, r: seq<Timer>)
    requires (a + t) + c <= r && b <= c
    ensures a + (t + b) <= r && a + t <= r
  {
    assert a + (t + b) == (a + t) + b;
    assert (a + t) + b <= (a + t) + c by {
      assert c == b + c[|b|..];
      assert (a + t) + c == ((a + t) + b) + c[|b|..];
    }
    PrefixTrans((a + t) + b, (a + t) + c, r);
    PrefixTrans(a + t, (a + t) + c, r);
  }

  lemma CallsStep(f: Fired, r: Fired, now: int, j: nat, o: Outcome)
    requires j < |f.w.lists[0]|
    requires var next := NextPos(f.w, now, j, o); var f' := FireOne(f, now, j, o);
             (next.Some? ==> next.value < |f'.w.lists[0]|) && Calls(f', r, Pending(f'.w, next), now)
    ensures Calls(f, r, f.w.lists[0][j..], now)
  {
    var l := f.w.lists[0];
    var f', next := FireOne(f, now, j, o), NextPos(f.w, now, j, o);
    var due := if l[j].Due(now) then [l[j]] else [];
    PendingDue(f, now, j, o);
    FireOneLogs(f, now, j, o);
    PrefixChain(f.called, due, DueOf(l[j + 1..], now), DueOf(Pending(f'.w, next), now), r.called);
    forall i | |f.called| <= i < |r.called| ensures r.called[i].Due(now) {
      if i < |f'.called| {
        assert r.called[i] == f'.called[i] == l[j];
      }
    }
  }

  // Each pending or added timer is called at most once.
  lemma {:induction false} FireCallsOnce(
      f: Fired, now: int, cur: Option<nat>, outs: seq<Outcome>, x: Timer)
    requires cur.Some? ==> cur.value < |f.w.lists[0]|
    ensures var r := FireFrom(f, now, cur, outs);
            multiset(r.called)[x] + multiset(f.added)[x] <=
              multiset(f.called)[x] + multiset(Pending(f.w, cur))[x] + multiset(r.added)[x]
    decreases |outs|, cur.Some?, if cur.Some? then |f.w.lists[0]| - cur.value else 0
  {
    if cur.Some? {
      var j, t := cur.value, f.w.lists[0][cur.value];
      var o := OutcomeFor(t, now, outs);
      FireStep(f, now, j, outs);
      FireShrinks(f, now, j, outs);
      var f', next := FireOne(f, now, j, o), NextPos(f.w, now, j, o);
      FireCallsOnce(f', now, next, Rest(t, now, outs), x);
      CallsOnceStep(f, now, j, o, x);
    }
  }

  // What one round logs
  lemma FireOneLogs(f: Fired, now: int, j: nat, o: Outcome)
    requires j < |f.w.lists[0]|
    ensures var t := f.w.lists[0][j]; var f' := FireOne(f, now, j, o);
            && f'.called == f.called + (if t.Due(now) then [t] else [])
            && f'.added == f.added + (if t.Due(now) then o.adds else [])
  {
  }

  lemma PendingAtMost(f: Fired, now: int, j: nat, o: Outcome, x: Timer)
    requires j < |f.w.lists[0]|
    ensures var l := f.w.lists[0]; var f' := FireOne(f, now, j, o); var next := NextPos(f.w, now, j, o);
            && (next.Some? ==> next.value < |f'.w.lists[0]|)
            && multiset(Pending(f'.w, next))[x] <=
                 multiset(l[j + 1..])[x] + (if l[j].Due(now) then multiset(o.adds)[x] else 0)
  {
    PendingStep(f, now, j, o);
    CountConcat(f.w.lists[0][j + 1..], Landing(o.adds, now, 0), x);
    LandingPart(o.adds, now, 0);
  }

  lemma FrontCount(l: seq<Timer>, j: nat, x: Timer)
    requires j < |l|
    ensures multiset(l[j..])[x] == One(l[j], x) + multiset(l[j + 1..])[x]
  {
    assert l[j..] == [l[j]] + l[j + 1..];
    CountConcat([l[j]], l[j + 1..], x);
  }

  lemma CallsOnceStep(f: Fired, now: int, j: nat, o: Outcome, x: Timer)
    requires j < |f.w.lists[0]|
    ensures var f', next := FireOne(f, now, j, o), NextPos(f.w, now, j, o);
            && (next.Some? ==> next.value < |f'.w.lists[0]|)
            && multiset(f'.called)[x] + multiset(Pending(f'.w, next))[x] + multiset(f.added)[x] <=
                 multiset(f.called)[x] + multiset(f.w.lists[0][j..])[x] + multiset(f'.added)[x]
  {
    var l := f.w.lists[0];
    PendingAtMost(f, now, j, o, x);
    FireOneLogs(f, now, j, o);
    CountConcat(f.called, if l[j].Due(now) then [l[j]] else [], x);
    CountConcat(f.added, if l[j].Due(now) then o.adds else [], x);
    FrontCount(l, j, x);
  }

  // Among armed timers exactly the called ones whose callbacks returned 0 are removed.
  ghost predicate Drops(f: Fired, r: Fired, outs: seq<Outcome>) {
    && f.called <= r.called
    && ArmedOf(r.dropped) == ArmedOf(f.dropped) + Rejected(r.called[|f.called|..], outs)
  }

  lemma {:induction false} FireDrops(f: Fired, now: int, cur: Option<nat>, outs: seq<Outcome>)
    requires cur.Some? ==> cur.value < |f.w.lists[0]|
    ensures Drops(f, FireFrom(f, now, cur, outs), outs)
    decreases |outs|, cur.Some?, if cur.Some? then |f.w.lists[0]| - cur.value else 0
  {
    if cur.Some? {
      var t := f.w.lists[0][cur.value];
      var o := OutcomeFor(t, now, outs);
      FireStep(f, now, cur.value, outs);
      FireShrinks(f, now, cur.value, outs);
      var outs' := Rest(t, now, outs);
      var f', next := FireOne(f, now, cur.value, o), NextPos(f.w, now, cur.value, o);
      FireDrops(f', now, next, outs');
      DropsStep(f, FireFrom(f', now, next, outs'), now, cur.value, outs);
    }
  }

  // The first of the called timers, and the rest
  lemma CalledFront(called: seq<Timer>, r: seq<Timer>, t: Timer)
    requires called + [t] <= r
    ensures r[|called|..] == [t] + r[|called| + 1..] && r[|called|..][1..] == r[|called| + 1..]
  {
    assert r[|called|] == (called + [t])[|called|];
  }

  lemma RejectedFront(called: seq<Timer>, r: seq<Timer>, t: Timer, outs: seq<Outcome>)
    requires called + [t] <= r
    ensures Rejected(r[|called|..], outs) ==
              (if Head(outs).keep then [] else [t]) + Rejected(r[|called| + 1..], Tail(outs))
  {
    CalledFront(called, r, t);
  }

  lemma ConcatAssoc(a: seq<Timer>, b: seq<Timer>, c: seq<Timer>)
    ensures (a + b) + c == a + (b + c)
  {
  }

  lemma DropsOne(f: Fired, now: int, j: nat, outs: seq<Outcome>)
    requires j < |f.w.lists[0]|
    ensures var t := f.w.lists[0][j];
            ArmedOf(FireOne(f, now, j, OutcomeFor(t, now, outs)).dropped) ==
              ArmedOf(f.dropped) + (if t.Due(now) && !Head(outs).keep then [t] else [])
  {
    ArmedOfSnoc(f.dropped, f.w.lists[0][j]);
  }

  lemma DropsStep(f: Fired, r: Fired, now: int, j: nat, outs: seq<Outcome>)
    requires j < |f.w.lists[0]|
    requires var t := f.w.lists[0][j];
             Drops(FireOne(f, now, j, OutcomeFor(t, now, outs)), r, Rest(t, now, outs))
    ensures Drops(f, r, outs)
  {
    var t := f.w.lists[0][j];
    FireOneLogs(f, now, j, OutcomeFor(t, now, outs));
    DropsOne(f, now, j, outs);
    if t.Due(now) {
      RejectedFront(f.called, r.called, t, outs);
      ConcatAssoc(ArmedOf(f.dropped), if Head(outs).keep then [] else [t],
                  Rejected(r.called[|f.called| + 1..], Tail(outs)));
    }
  }

  ghost predicate Adds(f: Fired, r: Fired, outs: seq<Outcome>) {
    f.called <= r.called && r.added == f.added + Additions(r.called[|f.called|..], outs)
  }

  lemma {:induction false} FireAdds(f: Fired, now: int, cur: Option<nat>, outs: seq<Outcome>)
    requires cur.Some? ==> cur.value < |f.w.lists[0]|
    ensures Adds(f, FireFrom(f, now, cur, outs), outs)
    decreases |outs|, cur.Some?, if cur.Some? then |f.w.lists[0]| - cur.value else 0
  {
    if cur.Some? {
      var t := f.w.lists[0][cur.value];
      var o := OutcomeFor(t, now, outs);
      FireStep(f, now, cur.value, outs);
      FireShrinks(f, now, cur.value, outs);
      var outs' := Rest(t, now, outs);
      var f', next := FireOne(f, now, cur.value, o), NextPos(f.w, now, cur.value, o);
      FireAdds(f', now, next, outs');
      AddsStep(f, FireFrom(f', now, next, outs'), now, cur.value, outs);
    }
  }

  lemma AddsStep(f: Fired, r: Fired, now: int, j: nat, outs: seq<Outcome>)
    requires j < |f.w.lists[0]|
    requires var t := f.w.lists[0][j];
             Adds(FireOne(f, now, j, OutcomeFor(t, now, outs)), r, Rest(t, now, outs))
    ensures Adds(f, r, outs)
  {
    var t := f.w.lists[0][j];
    var f' := FireOne(f, now, j, OutcomeFor(t, now, outs));
    FireOneLogs(f, now, j, OutcomeFor(t, now, outs));
    if t.Due(now) {
      CalledFront(f.called, r.called, t);
    }
  }

  // Every NULL timer pending in list 0 is removed, due or not.
  lemma {:induction false} FireSweeps(f: Fired, now: int, cur: Option<nat>, outs: seq<Outcome>, x: Timer)
    requires (cur.Some? ==> cur.value < |f.w.lists[0]|) && !x.Armed()
    ensures var r := FireFrom(f, now, cur, outs);
            multiset(f.dropped)[x] + multiset(Pending(f.w, cur))[x] <= multiset(r.dropped)[x]
    decreases |outs|, cur.Some?, if cur.Some? then |f.w.lists[0]| - cur.value else 0
  {
    if cur.Some? {
      var j, t := cur.value, f.w.lists[0][cur.value];
      var o := OutcomeFor(t, now, outs);
      FireStep(f, now, j, outs);
      FireShrinks(f, now, j, outs);
      var f', next := FireOne(f, now, j, o), NextPos(f.w, now, j, o);
      FireSweeps(f', now, next, Rest(t, now, outs), x);
      SweepStep(f, now, j, o, x);
    }
  }

  lemma SweepStep(f: Fired, now: int, j: nat, o: Outcome, x: Timer)
    requires j < |f.w.lists[0]| && !x.Armed()
    ensures var f', next := FireOne(f, now, j, o), NextPos(f.w, now, j, o);
            && (next.Some? ==> next.value < |f'.w.lists[0]|)
            && multiset(f.dropped)[x] + multiset(f.w.lists[0][j..])[x] <=
                 multiset(f'.dropped)[x] + multiset(Pending(f'.w, next))[x]
  {
    var l := f.w.lists[0];
    PendingStep(f, now, j, o);
    FrontCount(l, j, x);
    SnocCount(f.dropped, l[j], x);
    CountConcat(l[j + 1..], if l[j].Due(now) then Landing(o.adds, now, 0) else [], x);
  }

  lemma {:induction false} FirePays(f: Fired, now: int, cur: Option<nat>, outs: seq<Outcome>)
    requires cur.Some? ==> cur.value < |f.w.lists[0]|
    ensures var r := FireFrom(f, now, cur, outs);
            r.w.moves + Potential(r.w) + 4 * |f.added| <= f.w.moves + Potential(f.w) + 4 * |r.added|
    decreases |outs|, cur.Some?, if cur.Some? then |f.w.lists[0]| - cur.value else 0
  {
    if cur.Some? {
      var t := f.w.lists[0][cur.value];
      var o := OutcomeFor(t, now, outs);
      FireStep(f, now, cur.value, outs);
      FireShrinks(f, now, cur.value, outs);
      InsertAllPays(f.w, now, o.adds);
      InsertAllExtends(f.w, now, o.adds);
      FirePays(FireOne(f, now, cur.value, o), now, NextPos(f.w, now, cur.value, o),
               Rest(t, now, outs));
    }
  }

  lemma {:induction false} InsertAllPays(w: Wheel, now: int, ts: seq<Timer>)
    ensures var w' := InsertAll(w, now, ts);
            w'.moves + Potential(w') <= w.moves + Potential(w) + 4 * |ts|
    decreases |ts|
  {
    if ts != [] {
      InsertAllPays(Insert(w, now, ts[0]), now, ts[1..]);
    }
  }

  /** One handled scan at `now`, from any wheel satisfying the invariant at `base`:
      timers are conserved, the horizon moves up to `now`, and no timer is too deep. */
  lemma ScanConserves(w: Wheel, now: int, outs: seq<Outcome>, base: int)
    requires Inv(w, base) && base <= now
    ensures var r := ScanSec(w, now, outs);
            && Inv(r.w, now)
            && (forall k :: 1 <= k < 5 ==> NotTooDeep(r.w, k, now))
            && forall t :: All(r.w)[t] + multiset(r.dropped)[t] == All(w)[t] + multiset(r.added)[t]
  {
    var f0, f := Fired(w, [], [], []), FireAll(w, now, outs);
    forall t ensures Balance(f, t) == Balance(f0, t) {
      FireConserves(f0, now, First(w), outs, base, t);
    }
    assert Inv(f.w, base) by {
      FireConserves(f0, now, First(w), outs, base, Timer(0, 0, 0, 0));
    }
    CascadeAdvancesHorizon(f.w, now, base);
    var r := ScanSec(w, now, outs);
    forall t ensures All(r.w)[t] + multiset(r.dropped)[t] == All(w)[t] + multiset(r.added)[t] {
      assert Balance(f, t) == Balance(f0, t);
    }
  }

  /** The calls of a scan start with exactly the due timers of list 0 in order; all
      called timers are due, and beyond those of list 0 they are timers just added. */
  lemma ScanCalls(w: Wheel, now: int, outs: seq<Outcome>)
    ensures var r := ScanSec(w, now, outs);
            && DueOf(w.lists[0], now) <= r.called
            && (forall i :: 0 <= i < |r.called| ==> r.called[i].fn != 0 && r.called[i].expire <= now)
            && forall t :: multiset(r.called)[t] <= multiset(w.lists[0])[t] + multiset(r.added)[t]
  {
    var f0 := Fired(w, [], [], []);
    FireCalls(f0, now, First(w), outs);
    assert Pending(w, First(w)) == w.lists[0];
    forall t ensures multiset(ScanSec(w, now, outs).called)[t] <=
                     multiset(w.lists[0])[t] + multiset(ScanSec(w, now, outs).added)[t] {
      FireCallsOnce(f0, now, First(w), outs, t);
    }
  }

  // Exactly the armed timers whose callbacks returned 0 are removed.
  lemma ScanDrops(w: Wheel, now: int, outs: seq<Outcome>)
    ensures var r := ScanSec(w, now, outs); ArmedOf(r.dropped) == Rejected(r.called, outs)
  {
    var f0, f := Fired(w, [], [], []), FireAll(w, now, outs);
    FireDrops(f0, now, First(w), outs);
    assert f.called[|f0.called|..] == f.called;
  }

  lemma {:induction false} ArmedCount(s: seq<Timer>, x: Timer)
    requires x.fn != 0
    ensures multiset(ArmedOf(s))[x] == multiset(s)[x]
  {
    if s != [] {
      ArmedCount(s[1..], x);
      assert s == [s[0]] + s[1..];
    }
  }

  lemma {:induction false} RejectedCount(called: seq<Timer>, outs: seq<Outcome>, x: Timer)
    ensures multiset(Rejected(called, outs))[x] <= multiset(called)[x]
    decreases |called|
  {
    if called != [] {
      RejectedCount(called[1..], Tail(outs), x);
      assert called == [called[0]] + called[1..];
    }
  }

  // A timer is removed without having been called only if its callback is NULL.
  lemma ScanDropsOnlyCalled(w: Wheel, now: int, outs: seq<Outcome>, x: Timer)
    requires x.fn != 0
    ensures var r := ScanSec(w, now, outs); multiset(r.dropped)[x] <= multiset(r.called)[x]
  {
    var r := ScanSec(w, now, outs);
    ScanDrops(w, now, outs);
    ArmedCount(r.dropped, x);
    RejectedCount(r.called, outs, x);
  }

  // Exactly the timers that the callbacks add are added.
  lemma ScanAdds(w: Wheel, now: int, outs: seq<Outcome>)
    ensures var r := ScanSec(w, now, outs); r.added == Additions(r.called, outs)
  {
    var f0, f := Fired(w, [], [], []), FireAll(w, now, outs);
    FireAdds(f0, now, First(w), outs);
    assert f.called[|f0.called|..] == f.called;
  }

  // A scan removes every NULL timer of list 0.
  lemma ScanSweepsNull(w: Wheel, now: int, outs: seq<Outcome>, x: Timer)
    requires x.fn == 0
    ensures multiset(w.lists[0])[x] <= multiset(ScanSec(w, now, outs).dropped)[x]
  {
    FireSweeps(Fired(w, [], [], []), now, First(w), outs, x);
    assert Pending(w, First(w)) == w.lists[0];
  }

  lemma ScanPays(w: Wheel, now: int, outs: seq<Outcome>)
    ensures var r := ScanSec(w, now, outs);
            r.w.moves + Potential(r.w) <= w.moves + Potential(w) + 4 * |r.added|
  {
    FirePays(Fired(w, [], [], []), now, First(w), outs);
    CascadePays(FireAll(w, now, outs).w, now, 1);
  }

  lemma PrefixCount(a: seq<Timer>, b: seq<Timer>, t: Timer)
    requires a <= b
    ensures multiset(a)[t] <= multiset(b)[t]
  {
    assert b == a + b[|a|..];
    CountConcat(a, b[|a|..], t);
  }

  // A timer within 4 s of the previous scan sits in list 0.
  lemma SoonIsInListZero(w: Wheel, base: int, t: Timer)
    requires Inv(w, base) && t.expire <= base + 4
    ensures All(w)[t] == multiset(w.lists[0])[t]
  {
    forall i | 1 <= i < 5 ensures t !in w.lists[i] {
      assert Settled(w, i, base);
    }
  }

  /** A scan calls every timer that is due and was within 4 s of the previous scan,
      as often as the wheel holds it. */
  lemma ScanCatchesUp(w: Wheel, now: int, outs: seq<Outcome>, base: int, t: Timer)
    requires Inv(w, base) && base <= now
    requires t.fn != 0 && t.expire <= now && t.expire <= base + 4
    ensures All(w)[t] <= multiset(ScanSec(w, now, outs).called)[t]
  {
    ScanCalls(w, now, outs);
    SoonIsInListZero(w, base, t);
    DueOfCount(w.lists[0], now, t);
    PrefixCount(DueOf(w.lists[0], now), ScanSec(w, now, outs).called, t);
  }
}
