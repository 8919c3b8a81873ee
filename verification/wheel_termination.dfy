/** When the firing loop of `scan_sec` ends.  Callbacks may add timers to the very list that is
    being walked, so a scan need not end; a finite script describes exactly those that do. */
module WheelTermination {
  import opened Wrappers
  import opened TimerWheel
  import opened WheelScan

  // Timers of s, other than its last, that are due
  ghost predicate DueBeforeLast(s: seq<Timer>, now: int) {
    exists k :: 0 <= k < |s| - 1 && s[k].fn != 0 && s[k].expire <= now
  }

  ghost predicate NoneDue(ts: seq<Timer>, now: int) {
    forall i :: 0 <= i < |ts| ==> !(ts[i].fn != 0 && ts[i].expire <= now)
  }

  // No callback adds a timer that is already due.
  ghost predicate AddsNoneDue(outs: seq<Outcome>, now: int) {
    forall k :: 0 <= k < |outs| ==> NoneDue(outs[k].adds, now)
  }

  lemma {:induction false} NoneDueToCall(ts: seq<Timer>, now: int)
    requires NoneDue(ts, now)
    ensures DueOf(ts, now) == [] && DueOf(Landing(ts, now, 0), now) == []
  {
    if ts != [] {
      assert !(ts[0].fn != 0 && ts[0].expire <= now);
      assert NoneDue(ts[1..], now) by {
        assert forall i :: 0 <= i < |ts[1..]| ==> ts[1..][i] == ts[i + 1];
      }
      NoneDueToCall(ts[1..], now);
      var rest := Landing(ts[1..], now, 0);
      DueOfConcat([ts[0]], rest, now);
      assert Landing(ts, now, 0) == [ts[0]] + rest || Landing(ts, now, 0) == rest;
    }
  }

  lemma RestAddsNoneDue(t: Timer, now: int, outs: seq<Outcome>)
    requires AddsNoneDue(outs, now)
    ensures AddsNoneDue(Rest(t, now, outs), now) && NoneDue(OutcomeFor(t, now, outs).adds, now)
  {
    if outs != [] {
      assert forall k :: 0 <= k < |outs[1..]| ==> outs[1..][k] == outs[k + 1];
    }
  }

  // A due timer that is not the last of list 0
  predicate DueNotLast(l: seq<Timer>, now: int, j: nat) {
    j + 1 < |l| && l[j].fn != 0 && l[j].expire <= now
  }

  // What is due in front of the loop after a round that adds nothing due, or is the last
  lemma DueAfter(f: Fired, now: int, j: nat, o: Outcome)
    requires j < |f.w.lists[0]|
    requires DueNotLast(f.w.lists[0], now, j) ==> NoneDue(o.adds, now)
    ensures var l, next, f' := f.w.lists[0], NextPos(f.w, now, j, o), FireOne(f, now, j, o);
            && (next.Some? ==> next.value < |f'.w.lists[0]|)
            && DueOf(Pending(f'.w, next), now) == DueOf(l[j + 1..], now)
  {
    var l := f.w.lists[0];
    PendingStep(f, now, j, o);
    if j + 1 == |l| {
      assert l[j + 1..] == [];
    } else if l[j].fn != 0 && l[j].expire <= now {
      NoneDueToCall(o.adds, now);
      DueOfConcat(l[j + 1..], Landing(o.adds, now, 0), now);
    } else {
      assert l[j + 1..] + [] == l[j + 1..];
    }
  }

  lemma PendingDueAfter(f: Fired, now: int, j: nat, o: Outcome)
    requires j < |f.w.lists[0]|
    requires DueNotLast(f.w.lists[0], now, j) ==> NoneDue(o.adds, now)
    ensures var l, next, f' := f.w.lists[0], NextPos(f.w, now, j, o), FireOne(f, now, j, o);
            && (next.Some? ==> next.value < |f'.w.lists[0]|)
            && f'.called + DueOf(Pending(f'.w, next), now) == f.called + DueOf(l[j..], now)
  {
    var l := f.w.lists[0];
    DueAfter(f, now, j, o);
    FireOneLogs(f, now, j, o);
    DueOfFront(l, j, now, []);
    ConcatAssoc(f.called, if l[j].fn != 0 && l[j].expire <= now then [l[j]] else [], DueOf(l[j + 1..], now));
  }

  // Either no callback adds a due timer, or none is called before the last timer.
  ghost predicate Bounded(pending: seq<Timer>, outs: seq<Outcome>, now: int) {
    AddsNoneDue(outs, now) || !DueBeforeLast(pending, now)
  }

  lemma TailOfNoneBeforeLast(s: seq<Timer>, now: int)
    requires s != [] && !DueBeforeLast(s, now)
    ensures !DueBeforeLast(s[1..], now) && (|s| > 1 ==> !(s[0].fn != 0 && s[0].expire <= now))
  {
  }

  lemma BoundedStep(f: Fired, now: int, j: nat, outs: seq<Outcome>)
    requires j < |f.w.lists[0]| && Bounded(f.w.lists[0][j..], outs, now)
    ensures var t := f.w.lists[0][j]; var o := OutcomeFor(t, now, outs);
            var next := NextPos(f.w, now, j, o); var f' := FireOne(f, now, j, o);
            && (next.Some? ==> next.value < |f'.w.lists[0]|)
            && Bounded(Pending(f'.w, next), Rest(t, now, outs), now)
            && (DueNotLast(f.w.lists[0], now, j) ==> NoneDue(o.adds, now))
  {
    var l := f.w.lists[0];
    var o := OutcomeFor(l[j], now, outs);
    PendingStep(f, now, j, o);
    if AddsNoneDue(outs, now) {
      RestAddsNoneDue(l[j], now, outs);
    } else {
      TailOfNoneBeforeLast(l[j..], now);
      assert l[j..][1..] == l[j + 1..];
    }
  }

  lemma {:induction false} FireCallsExactly(f: Fired, now: int, cur: Option<nat>, outs: seq<Outcome>)
    requires (cur.Some? ==> cur.value < |f.w.lists[0]|) && Bounded(Pending(f.w, cur), outs, now)
    ensures FireFrom(f, now, cur, outs).called == f.called + DueOf(Pending(f.w, cur), now)
    decreases |outs|, cur.Some?, if cur.Some? then |f.w.lists[0]| - cur.value else 0
  {
    if cur.Some? {
      var t := f.w.lists[0][cur.value];
      var o := OutcomeFor(t, now, outs);
      FireStep(f, now, cur.value, outs);
      FireShrinks(f, now, cur.value, outs);
      BoundedStep(f, now, cur.value, outs);
      PendingDueAfter(f, now, cur.value, o);
      FireCallsExactly(FireOne(f, now, cur.value, o), now, NextPos(f.w, now, cur.value, o), Rest(t, now, outs));
    }
  }

  /** A scan whose callbacks add no timer that is already due, or in which no timer of list 0
      but its last is due, calls exactly the due timers of list 0, in order, and ends. */
  lemma ScanCallsExactlyDue(w: Wheel, now: int, outs: seq<Outcome>)
    requires AddsNoneDue(outs, now) || !DueBeforeLast(w.lists[0], now)
    ensures ScanSec(w, now, outs).called == DueOf(w.lists[0], now)
  {
    assert Pending(w, First(w)) == w.lists[0];
    FireCallsExactly(Fired(w, [], [], []), now, First(w), outs);
  }

  // Callbacks without end

  // What the first n calls of the callbacks b do
  function Prefix(b: nat -> Outcome, n: nat): (outs: seq<Outcome>)
    ensures |outs| == n && forall k :: 0 <= k < n ==> outs[k] == b(k)
  {
    seq(n, k requires 0 <= k => b(k))
  }

  // With the callbacks b the firing loop makes n calls, for every n.
  ghost predicate RunsForEver(w: Wheel, now: int, b: nat -> Outcome) {
    forall n: nat :: |FireAll(w, now, Prefix(b, n)).called| >= n
  }

  ghost predicate MayRunForEver(w: Wheel, now: int) {
    exists b: nat -> Outcome :: RunsForEver(w, now, b)
  }

  // A callback that keeps its timer and adds two that are due at once
  function Breeder(now: int): Outcome {
    Outcome(true, [Timer(now, 1, 0, 0), Timer(now, 1, 0, 0)])
  }

  lemma BreederLands(now: int)
    ensures Landing(Breeder(now).adds, now, 0) == Breeder(now).adds
  {
    var ts := Breeder(now).adds;
    assert RootIdx(0, 0) == 0;
    assert ts[1..] == [ts[1]] && ts[1..][1..] == [];
    assert Landing(ts[1..], now, 0) == [ts[1]];
  }

  // A round with a due timer in front of the last leaves one for the next round.
  lemma BreederStep(f: Fired, now: int, j: nat, outs: seq<Outcome>)
    requires j < |f.w.lists[0]| && DueBeforeLast(f.w.lists[0][j..], now)
    requires outs != [] && outs[0] == Breeder(now)
    ensures var t := f.w.lists[0][j]; var o := OutcomeFor(t, now, outs);
            var next := NextPos(f.w, now, j, o); var f' := FireOne(f, now, j, o);
            && (next.Some? ==> next.value < |f'.w.lists[0]|) && DueBeforeLast(Pending(f'.w, next), now)
  {
    var l := f.w.lists[0];
    var o := OutcomeFor(l[j], now, outs);
    var k :| 0 <= k < |l[j..]| - 1 && l[j..][k].fn != 0 && l[j..][k].expire <= now;
    PendingStep(f, now, j, o);
    if l[j].fn != 0 && l[j].expire <= now {
      BreederLands(now);
      var p := l[j + 1..] + o.adds;
      assert p[|l| - (j + 1)] == o.adds[0] && o.adds[0].fn != 0 && o.adds[0].expire <= now;
    } else {
      assert l[j..][0] == l[j];
      assert l[j + 1..][k - 1] == l[j..][k];
    }
  }

  lemma {:induction false} BreedingGoesOn(f: Fired, now: int, cur: Option<nat>, outs: seq<Outcome>)
    requires (cur.Some? ==> cur.value < |f.w.lists[0]|) && DueBeforeLast(Pending(f.w, cur), now)
    requires forall k :: 0 <= k < |outs| ==> outs[k] == Breeder(now)
    ensures |FireFrom(f, now, cur, outs).called| >= |f.called| + |outs|
    decreases |outs|, cur.Some?, if cur.Some? then |f.w.lists[0]| - cur.value else 0
  {
    if outs == [] {
      FireCalls(f, now, cur, outs);
    } else {
      var j := cur.value;
      var t := f.w.lists[0][j];
      var o := OutcomeFor(t, now, outs);
      FireStep(f, now, j, outs);
      FireShrinks(f, now, j, outs);
      FireOneLogs(f, now, j, o);
      BreederStep(f, now, j, outs);
      assert forall k :: 0 <= k < |outs[1..]| ==> outs[1..][k] == outs[k + 1];
      BreedingGoesOn(FireOne(f, now, j, o), now, NextPos(f.w, now, j, o), Rest(t, now, outs));
    }
  }

  /** Some callbacks keep the firing loop going for ever exactly when list 0 holds a due timer
      that is not its last. */
  lemma MayRunForEverIff(w: Wheel, now: int)
    ensures MayRunForEver(w, now) <==> DueBeforeLast(w.lists[0], now)
  {
    assert Pending(w, First(w)) == w.lists[0];
    if DueBeforeLast(w.lists[0], now) {
      var b := (k: nat) => Breeder(now);
      forall n: nat ensures |FireAll(w, now, Prefix(b, n)).called| >= n {
        BreedingGoesOn(Fired(w, [], [], []), now, First(w), Prefix(b, n));
      }
      assert RunsForEver(w, now, b);
    } else {
      forall b: nat -> Outcome ensures !RunsForEver(w, now, b) {
        AtMostDueCalls(w, now, b);
      }
    }
  }

  lemma AtMostDueCalls(w: Wheel, now: int, b: nat -> Outcome)
    requires !DueBeforeLast(w.lists[0], now)
    ensures !RunsForEver(w, now, b)
  {
    var n := |DueOf(w.lists[0], now)| + 1;
    ScanCallsExactlyDue(w, now, Prefix(b, n));
    assert |FireAll(w, now, Prefix(b, n)).called| < n;
  }

  // Scripts

  // What a script says beyond the calls made does not matter.
  lemma {:induction false} ScriptTailUnused(
      f: Fired, now: int, cur: Option<nat>, outs: seq<Outcome>, extra: seq<Outcome>)
    requires cur.Some? ==> cur.value < |f.w.lists[0]|
    requires |FireFrom(f, now, cur, outs).called| <= |f.called| + |outs|
    ensures FireFrom(f, now, cur, outs + extra) == FireFrom(f, now, cur, outs)
    decreases |outs|, cur.Some?, if cur.Some? then |f.w.lists[0]| - cur.value else 0
  {
    if cur.Some? {
      var j := cur.value;
      var t := f.w.lists[0][j];
      var o := OutcomeFor(t, now, outs);
      var f', next := FireOne(f, now, j, o), NextPos(f.w, now, j, o);
      FireStep(f, now, j, outs);
      FireStep(f, now, j, outs + extra);
      FireShrinks(f, now, j, outs);
      FireOneLogs(f, now, j, o);
      FireCalls(f', now, next, Rest(t, now, outs));
      assert t.fn != 0 && t.expire <= now ==> outs != [] && (outs + extra)[1..] == outs[1..] + extra;
      ScriptTailUnused(f', now, next, Rest(t, now, outs), extra);
    }
  }

  /** Whatever callbacks do, a firing loop that ends is described by a finite script: some
      prefix of their behaviour, and every longer one, gives the same scan. */
  lemma EndingScansHaveScripts(w: Wheel, now: int, b: nat -> Outcome) returns (n: nat)
    requires !RunsForEver(w, now, b)
    ensures |ScanSec(w, now, Prefix(b, n)).called| < n
    ensures forall m :: m >= n ==> ScanSec(w, now, Prefix(b, m)) == ScanSec(w, now, Prefix(b, n))
  {
    n :| |FireAll(w, now, Prefix(b, n)).called| < n;
    forall m | m >= n ensures ScanSec(w, now, Prefix(b, m)) == ScanSec(w, now, Prefix(b, n)) {
      var extra := Prefix(b, m)[n..];
      assert Prefix(b, m) == Prefix(b, n) + extra;
      ScriptTailUnused(Fired(w, [], [], []), now, First(w), Prefix(b, n), extra);
    }
  }
}
