/** Invariants of the wheel and what a cascade does to it. */
module WheelCascade {
  import opened Bits
  import opened TimerWheel

  ghost function All(w: Wheel): multiset<Timer> {
    multiset(w.lists[0]) + multiset(w.lists[1]) + multiset(w.lists[2]) +
    multiset(w.lists[3]) + multiset(w.lists[4])
  }

  // The cached minimum of list i is a lower bound, and 0 only when the list is empty.
  ghost predicate CacheSound(w: Wheel, i: nat)
    requires i < 5
  {
    forall t :: t in w.lists[i] ==> w.mins[i] != 0 && w.mins[i] <= t.expire
  }

  ghost predicate AllLater(w: Wheel, i: nat, bound: int)
    requires i < 5
  {
    forall t :: t in w.lists[i] ==> t.expire > bound
  }

  ghost predicate Settled(w: Wheel, i: nat, base: int)
    requires i < 5
  {
    CacheSound(w, i) && AllLater(w, i, base + 4)
  }

  // Caches are sound, and every timer outside list 0 expires more than 4 s after `base`.
  ghost predicate Inv(w: Wheel, base: int) {
    0 <= base && forall i :: 1 <= i < 5 ==> Settled(w, i, base)
  }

  // The cached minimum is exactly the least expiry.
  ghost predicate CacheExact(w: Wheel, i: nat)
    requires i < 5
  {
    && CacheSound(w, i)
    && (w.lists[i] == [] ==> w.mins[i] == 0)
    && (w.lists[i] != [] ==> exists t :: t in w.lists[i] && t.expire == w.mins[i])
  }

  // No timer of list i fits the next lower list.
  ghost predicate NotTooDeep(w: Wheel, i: nat, now: int)
    requires 1 <= i < 5
  {
    AllLater(w, i, now + Interval(i - 1))
  }

  // The two searches agree: cascading down is searching up, capped.
  lemma {:induction false} SearchesAgree(diff: int, maxIdx: nat)
    requires maxIdx <= 4
    ensures var r := MinIdx(diff, maxIdx);
            && r == (if RootIdx(diff, 0) < maxIdx then RootIdx(diff, 0) else maxIdx)
            && (r > 0 ==> Interval(r - 1) < diff)
            && (r < maxIdx ==> diff <= Interval(r))
  {
    RootIdxIsLeast(diff, 0);
    if maxIdx > 0 && Interval(maxIdx - 1) >= diff {
      SearchesAgree(diff, maxIdx - 1);
    }
  }

  // find_root_idx finds the first list whose interval covers diff, or the last list.
  lemma {:induction false} RootIdxIsLeast(diff: int, idx: nat)
    requires idx <= 4
    ensures var r := RootIdx(diff, idx);
            && (r < 4 ==> diff <= Interval(r))
            && forall k :: idx <= k < r ==> diff > Interval(k)
    decreases 4 - idx
  {
    if idx != 4 && diff > Interval(idx) {
      RootIdxIsLeast(diff, idx + 1);
    }
  }

  // GEN_TIME_INTERVAL is 1 << (i + 2).
  lemma IntervalIs(i: nat)
    requires i < 5
    ensures Interval(i) == 4 * Pow2(i)
  {
    assert Pow2(1) == 2 && Pow2(2) == 4 && Pow2(3) == 8 && Pow2(4) == 16;
  }

  /** Where the two searches put a timer `diff` seconds away, in numbers. */
  lemma SearchesInNumbers(diff: int, maxIdx: nat)
    requires maxIdx <= 4
    ensures var r := RootIdx(diff, 0); (r < 4 ==> diff <= 4 * Pow2(r)) && (r > 0 ==> 4 * Pow2(r - 1) < diff)
    ensures var r := MinIdx(diff, maxIdx); (r < maxIdx ==> diff <= 4 * Pow2(r)) && (r > 0 ==> 4 * Pow2(r - 1) < diff)
  {
    RootIdxIsLeast(diff, 0);
    SearchesAgree(diff, maxIdx);
    forall i: nat | i < 5 ensures Interval(i) == 4 * Pow2(i) {
      IntervalIs(i);
    }
  }

  // The numbers name one list only.
  lemma NumbersName(diff: int, i: nat)
    requires i < 5 && (i < 4 ==> diff <= 4 * Pow2(i)) && (i > 0 ==> 4 * Pow2(i - 1) < diff)
    ensures i == RootIdx(diff, 0)
  {
    SearchesInNumbers(diff, 0);
    var r := RootIdx(diff, 0);
    if i < r {
      Pow2Grows(i, r - 1);
    } else if r < i {
      Pow2Grows(r, i - 1);
    }
  }

  lemma SplitList(l: seq<Timer>, j: nat)
    requires j < |l|
    ensures multiset(l) == multiset(l[..j] + l[j + 1..]) + multiset{l[j]}
  {
    assert l == l[..j] + [l[j]] + l[j + 1..];
  }

  lemma RemoveKeeps(w: Wheel, i: nat, j: nat, base: int)
    requires i < 5 && j < |w.lists[i]| && Inv(w, base)
    ensures var w' := RemoveAt(w, i, j);
            Inv(w', base) && All(w) == All(w') + multiset{w.lists[i][j]}
  {
    SplitList(w.lists[i], j);
    var w' := RemoveAt(w, i, j);
    forall k | 1 <= k < 5 ensures Settled(w', k, base) {
      assert Settled(w, k, base);
      assert forall u :: u in w'.lists[k] ==> u in w.lists[k];
    }
  }

  lemma AppendSettled(w: Wheel, t: Timer, i: nat, base: int, k: nat)
    requires i < 5 && 1 <= k < 5 && Settled(w, k, base)
    requires i > 0 ==> t.expire > base + 4 >= 4
    ensures Settled(Append(w, t, i), k, base)
  {
    var w' := Append(w, t, i);
    forall u | u in w'.lists[k] ensures w'.mins[k] != 0 && w'.mins[k] <= u.expire && u.expire > base + 4 {
      assert u in w.lists[k] || (k == i && u == t);
    }
  }

  lemma AppendCount(w: Wheel, t: Timer, i: nat)
    requires i < 5
    ensures All(Append(w, t, i)) == All(w) + multiset{t}
  {
    var w' := Append(w, t, i);
    assert multiset(w'.lists[i]) == multiset(w.lists[i]) + multiset{t};
    assert forall k :: 0 <= k < 5 && k != i ==> w'.lists[k] == w.lists[k];
  }

  /** What joining list i does to the cached minima, list 0 included: the earlier time wins,
      an unset minimum counting as none. */
  lemma AppendMins(w: Wheel, t: Timer, i: nat)
    requires i < 5
    ensures var ms, ms' := w.mins, Append(w, t, i).mins;
            && (forall k :: 0 <= k < 5 && k != i ==> ms'[k] == ms[k])
            && ms'[i] == (if ms[i] == 0 then t.expire else Min(ms[i], t.expire))
  {
  }

  lemma AppendKeeps(w: Wheel, t: Timer, i: nat, base: int)
    requires i < 5 && Inv(w, base)
    requires i > 0 ==> t.expire > base + 4
    ensures Inv(Append(w, t, i), base) && All(Append(w, t, i)) == All(w) + multiset{t}
  {
    AppendCount(w, t, i);
    forall k | 1 <= k < 5 ensures Settled(Append(w, t, i), k, base) {
      AppendSettled(w, t, i, base, k);
    }
  }

  lemma InsertKeeps(w: Wheel, now: int, t: Timer, base: int)
    requires Inv(w, base) && base <= now
    ensures var w' := Insert(w, now, t);
            Inv(w', base) && All(w') == All(w) + multiset{t}
  {
    RootIdxIsLeast(t.expire - now, 0);
    var i := RootIdx(t.expire - now, 0);
    assert i > 0 ==> t.expire - now > Interval(0);
    AppendKeeps(w, t, i, base);
  }

  lemma {:induction false} InsertAllKeeps(w: Wheel, now: int, ts: seq<Timer>, base: int)
    requires Inv(w, base) && base <= now
    ensures var w' := InsertAll(w, now, ts);
            Inv(w', base) && All(w') == All(w) + multiset(ts)
    decreases |ts|
  {
    if ts != [] {
      InsertKeeps(w, now, ts[0], base);
      InsertAllKeeps(Insert(w, now, ts[0]), now, ts[1..], base);
      assert ts == [ts[0]] + ts[1..];
    }
  }

  lemma MoveKeeps(w: Wheel, i: nat, j: nat, k: nat, base: int)
    requires 1 <= i < 5 && k < i && j < |w.lists[i]| && Inv(w, base)
    ensures Inv(Move(w, i, j, k), base) && All(Move(w, i, j, k)) == All(w)
  {
    RemoveKeeps(w, i, j, base);
    assert Settled(w, i, base);
    AppendKeeps(RemoveAt(w, i, j), w.lists[i][j], k, base);
    var v, w' := Append(RemoveAt(w, i, j), w.lists[i][j], k), Move(w, i, j, k);
    forall n | 1 <= n < 5 ensures Settled(w', n, base) {
      assert Settled(v, n, base);
    }
  }

  // The timers of s that a cascade of list idx at `now` sends to list k, in order
  function Sent(s: seq<Timer>, now: int, idx: nat, k: nat): seq<Timer>
    requires idx < 5
  {
    if s == [] then []
    else (if MinIdx(s[0].expire - now, idx) == k then [s[0]] else []) + Sent(s[1..], now, idx, k)
  }

  ghost predicate RunningMin(s: seq<Timer>, m: int) {
    && (s == [] ==> m == 0)
    && (s != [] ==> m != 0 && exists t :: t in s && t.expire == m)
    && forall t :: t in s ==> m <= t.expire
  }

  lemma MoveShape(w: Wheel, i: nat, j: nat, k: nat)
    requires i < 5 && k < 5 && i != k && j < |w.lists[i]|
    ensures var w' := Move(w, i, j, k); var l := w.lists[i];
            && w'.lists == w.lists[i := l[..j] + l[j + 1..]][k := w.lists[k] + [l[j]]]
            && w'.lists[i][..j] == l[..j] && w'.lists[i][j..] == l[j..][1..]
            && w'.moves == w.moves + 1
            && forall n :: 0 <= n < 5 && n != k ==> w'.mins[n] == w.mins[n]
  {
  }

  // What a whole cascade of list idx keeps and establishes
  ghost predicate Renewed(w: Wheel, end: Wheel, idx: nat, base: int)
    requires idx < 5
  {
    Inv(end, base) && All(end) == All(w) && CacheExact(end, idx)
  }

  // Before a round: the invariant, and m is the minimum of the timers passed so far.
  ghost predicate Renewing(w: Wheel, idx: nat, j: nat, m: int, base: int)
    requires idx < 5
  {
    j <= |w.lists[idx]| && Inv(w, base) && RunningMin(w.lists[idx][..j], m)
  }

  lemma MoveRenewing(w: Wheel, idx: nat, j: nat, m: int, k: nat, base: int)
    requires 1 <= idx < 5 && k < idx && j < |w.lists[idx]| && Renewing(w, idx, j, m, base)
    ensures Renewing(Move(w, idx, j, k), idx, j, m, base) && All(Move(w, idx, j, k)) == All(w)
  {
    MoveKeeps(w, idx, j, k, base);
    MoveShape(w, idx, j, k);
  }

  lemma StayRenewing(w: Wheel, idx: nat, j: nat, m: int, base: int)
    requires 1 <= idx < 5 && j < |w.lists[idx]| && Renewing(w, idx, j, m, base)
    ensures var e := w.lists[idx][j].expire; Renewing(w, idx, j + 1, if e < m || m == 0 then e else m, base)
  {
    RunningMinStep(w, idx, j, m, base);
  }

  lemma RenewRoundKeeps(w: Wheel, now: int, idx: nat, j: nat, m: int, base: int)
    requires 1 <= idx < 5 && j < |w.lists[idx]| && Renewing(w, idx, j, m, base)
    ensures var (w', j', m') := RenewRound(w, now, idx, j, m);
            Renewing(w', idx, j', m', base) && All(w') == All(w)
  {
    var e := w.lists[idx][j].expire;
    var k := MinIdx(e - now, idx);
    if k != idx {
      MoveRenewing(w, idx, j, m, k, base);
      assert RenewRound(w, now, idx, j, m) == (Move(w, idx, j, k), j, m);
    } else {
      StayRenewing(w, idx, j, m, base);
      assert RenewRound(w, now, idx, j, m) == (w, j + 1, if e < m || m == 0 then e else m);
    }
  }

  lemma {:induction false} RenewKeeps(w: Wheel, now: int, idx: nat, j: nat, m: int, base: int)
    requires 1 <= idx < 5 && Renewing(w, idx, j, m, base)
    ensures Renewed(w, RenewFrom(w, now, idx, j, m), idx, base)
    decreases |w.lists[idx]| - j
  {
    if j == |w.lists[idx]| {
      SetExactMin(w, idx, m, base);
    } else {
      RenewRoundKeeps(w, now, idx, j, m, base);
      var (w', j', m') := RenewRound(w, now, idx, j, m);
      RenewKeeps(w', now, idx, j', m', base);
    }
  }

  lemma SetExactMin(w: Wheel, idx: nat, m: int, base: int)
    requires 1 <= idx < 5 && Inv(w, base) && RunningMin(w.lists[idx][..|w.lists[idx]|], m)
    ensures var w' := w.(mins := w.mins[idx := m]);
            Inv(w', base) && All(w') == All(w) && CacheExact(w', idx)
  {
    var w' := w.(mins := w.mins[idx := m]);
    assert w.lists[idx][..|w.lists[idx]|] == w.lists[idx];
    forall k | 1 <= k < 5 ensures Settled(w', k, base) {
      assert Settled(w, k, base);
    }
  }

  lemma RunningMinStep(w: Wheel, idx: nat, j: nat, m: int, base: int)
    requires 1 <= idx < 5 && Inv(w, base) && j < |w.lists[idx]|
    requires RunningMin(w.lists[idx][..j], m)
    ensures var l := w.lists[idx];
            RunningMin(l[..j + 1], if l[j].expire < m || m == 0 then l[j].expire else m)
  {
    var l := w.lists[idx];
    assert Settled(w, idx, base);
    assert l[..j + 1] == l[..j] + [l[j]];
    assert l[j] in l[..j + 1];
    assert forall t :: t in l[..j] ==> t in l[..j + 1];
  }

  /** What a cascade of list idx from position j must have done, as a relation between
      the wheels before and after: timers that stay keep their place, every mover is
      appended to its own list in the original relative order, higher lists are untouched. */
  ghost predicate Distributed(w: Wheel, w': Wheel, now: int, idx: nat, j: nat)
    requires idx < 5 && j <= |w.lists[idx]|
  {
    var s := w.lists[idx][j..];
    && w'.lists[idx] == w.lists[idx][..j] + Sent(s, now, idx, idx)
    && (forall k :: 0 <= k < idx ==> w'.lists[k] == w.lists[k] + Sent(s, now, idx, k))
    && (forall k :: idx < k < 5 ==> w'.lists[k] == w.lists[k] && w'.mins[k] == w.mins[k])
  }

  lemma {:induction false} RenewDistributes(w: Wheel, now: int, idx: nat, j: nat, m: int)
    requires 1 <= idx < 5 && j <= |w.lists[idx]|
    ensures Distributed(w, RenewFrom(w, now, idx, j, m), now, idx, j)
    decreases |w.lists[idx]| - j
  {
    if j == |w.lists[idx]| {
      DistributeNone(w, idx, now, m);
    } else {
      var (w', j', m') := RenewRound(w, now, idx, j, m);
      var k := MinIdx(w.lists[idx][j].expire - now, idx);
      if k != idx {
        MoveShape(w, idx, j, k);
      }
      RenewDistributes(w', now, idx, j', m');
      DistributeRound(w, RenewFrom(w', now, idx, j', m'), now, idx, j, m);
    }
  }

  lemma DistributeNone(w: Wheel, idx: nat, now: int, m: int)
    requires idx < 5
    ensures Distributed(w, w.(mins := w.mins[idx := m]), now, idx, |w.lists[idx]|)
  {
    var l := w.lists[idx];
    assert l[..|l|] == l && l[|l|..] == [];
  }

  lemma DistributeRound(w: Wheel, w': Wheel, now: int, idx: nat, j: nat, m: int)
    requires idx < 5 && j < |w.lists[idx]|
    requires var (v, j', m') := RenewRound(w, now, idx, j, m); j' <= |v.lists[idx]| && Distributed(v, w', now, idx, j')
    ensures Distributed(w, w', now, idx, j)
  {
    var k := MinIdx(w.lists[idx][j].expire - now, idx);
    if k != idx {
      DistributeMover(w, w', now, idx, j, k);
    } else {
      DistributeStayer(w, w', now, idx, j);
    }
  }

  lemma DistributeMover(w: Wheel, w': Wheel, now: int, idx: nat, j: nat, k: nat)
    requires k < idx < 5 && j < |w.lists[idx]| && k == MinIdx(w.lists[idx][j].expire - now, idx)
    requires Distributed(Move(w, idx, j, k), w', now, idx, j)
    ensures Distributed(w, w', now, idx, j)
  {
    MoveShape(w, idx, j, k);
    var s := w.lists[idx][j..];
    forall n | 0 <= n < idx ensures w'.lists[n] == w.lists[n] + Sent(s, now, idx, n) {
      if n == k {
        assert Sent(s, now, idx, n) == [s[0]] + Sent(s[1..], now, idx, n);
      }
    }
  }

  lemma DistributeStayer(w: Wheel, w': Wheel, now: int, idx: nat, j: nat)
    requires idx < 5 && j < |w.lists[idx]| && idx == MinIdx(w.lists[idx][j].expire - now, idx)
    requires Distributed(w, w', now, idx, j + 1)
    ensures Distributed(w, w', now, idx, j)
  {
    var l := w.lists[idx];
    assert l[j..][1..] == l[j + 1..];
    assert l[..j + 1] == l[..j] + [l[j]];
  }

  lemma {:induction false} SentGoWhereTheyBelong(s: seq<Timer>, now: int, idx: nat, k: nat)
    requires idx < 5
    ensures forall t :: t in Sent(s, now, idx, k) ==> t in s && MinIdx(t.expire - now, idx) == k
  {
    if s != [] {
      SentGoWhereTheyBelong(s[1..], now, idx, k);
    }
  }

  // After a cascade of list i no timer of lists 1..i is too deep.
  lemma RenewNotTooDeep(w: Wheel, now: int, i: nat)
    requires 1 <= i < 5
    requires forall k :: 1 <= k < i ==> NotTooDeep(w, k, now)
    ensures var w' := RenewFrom(w, now, i, 0, 0);
            forall k :: 1 <= k <= i ==> NotTooDeep(w', k, now)
  {
    RenewDistributes(w, now, i, 0, 0);
    var w' := RenewFrom(w, now, i, 0, 0);
    var s := w.lists[i];
    assert s[0..] == s;
    forall k | 1 <= k <= i ensures NotTooDeep(w', k, now) {
      SentGoWhereTheyBelong(s, now, i, k);
      forall t | t in w'.lists[k] ensures t.expire > now + Interval(k - 1) {
        if t in Sent(s, now, i, k) {
          SearchesAgree(t.expire - now, i);
        } else {
          assert NotTooDeep(w, k, now);
        }
      }
    }
  }

  // Before the cascade of list i: lists below i are settled at `now`.
  ghost predicate Settling(w: Wheel, now: int, i: nat, base: int) {
    Inv(w, base) && forall k :: 1 <= k < i && k < 5 ==> NotTooDeep(w, k, now)
  }

  lemma SettleOne(w: Wheel, now: int, i: nat, base: int)
    requires 1 <= i < 5 && Settling(w, now, i, base)
    ensures w.mins[i] - now < Interval(i) ==>
      var w' := RenewFrom(w, now, i, 0, 0);
      Settling(w', now, i + 1, base) && All(w') == All(w) && w.lists[0] <= w'.lists[0]
    ensures w.mins[i] - now >= Interval(i) ==> Settling(w, now, i + 1, base)
  {
    if w.mins[i] - now < Interval(i) {
      RenewDistributes(w, now, i, 0, 0);
      RenewKeeps(w, now, i, 0, 0, base);
      RenewNotTooDeep(w, now, i);
    } else {
      assert Settled(w, i, base);
      assert NotTooDeep(w, i, now);
    }
  }

  // What a cascade of lists i..4 keeps and establishes.
  lemma {:induction false} CascadeSettles(w: Wheel, now: int, i: nat, base: int)
    requires 1 <= i <= 5 && Settling(w, now, i, base)
    ensures var w' := Cascade(w, now, i);
            Settling(w', now, 5, base) && All(w') == All(w) && w.lists[0] <= w'.lists[0]
    decreases 5 - i
  {
    if i < 5 {
      SettleOne(w, now, i, base);
      if w.mins[i] - now < Interval(i) {
        CascadeSettles(RenewFrom(w, now, i, 0, 0), now, i + 1, base);
      } else {
        CascadeSettles(w, now, i + 1, base);
      }
    }
  }

  // Never too deep, hence the horizon moves up to the scan's own time.
  lemma CascadeAdvancesHorizon(w: Wheel, now: int, base: int)
    requires Inv(w, base) && 0 <= now
    ensures var w' := Cascade(w, now, 1);
            && Inv(w', now) && All(w') == All(w) && w.lists[0] <= w'.lists[0]
            && (forall k :: 1 <= k < 5 ==> NotTooDeep(w', k, now))
  {
    CascadeSettles(w, now, 1, base);
    var w' := Cascade(w, now, 1);
    forall k | 1 <= k < 5 ensures Settled(w', k, now) {
      assert Settled(w', k, base) && NotTooDeep(w', k, now);
    }
  }

  // The whole cascade, in closed form

  // List k is cascaded: its cached minimum lies within its interval.
  predicate Cascades(w: Wheel, now: int, k: nat)
    requires k < 5
  {
    w.mins[k] - now < 4 * Pow2(k)
  }

  // What lists k to 4 send to list i, in order
  function Arrivals(w: Wheel, now: int, i: nat, k: nat): seq<Timer>
    requires i < k <= 5
    decreases 5 - k
  {
    if k == 5 then []
    else (if Cascades(w, now, k) then Sent(w.lists[k], now, k, i) else []) + Arrivals(w, now, i, k + 1)
  }

  // What stays in list i
  function Stayers(w: Wheel, now: int, i: nat): seq<Timer>
    requires i < 5
  {
    if i > 0 && Cascades(w, now, i) then Sent(w.lists[i], now, i, i) else w.lists[i]
  }

  lemma {:induction false} ArrivalsFrame(w: Wheel, w': Wheel, now: int, i: nat, k: nat)
    requires i < k <= 5
    requires forall n :: k <= n < 5 ==> w'.lists[n] == w.lists[n] && w'.mins[n] == w.mins[n]
    ensures Arrivals(w', now, i, k) == Arrivals(w, now, i, k)
    decreases 5 - k
  {
    if k < 5 {
      ArrivalsFrame(w, w', now, i, k + 1);
    }
  }

  // The wheel after list k has been cascaded, or passed over
  function AfterTurn(w: Wheel, now: int, k: nat): Wheel
    requires 1 <= k < 5
  {
    if w.mins[k] - now < Interval(k) then RenewFrom(w, now, k, 0, 0) else w
  }

  lemma TurnIs(w: Wheel, now: int, k: nat)
    requires 1 <= k < 5
    ensures var w' := AfterTurn(w, now, k); var sent := Cascades(w, now, k);
            && w'.lists[k] == Stayers(w, now, k)
            && (forall i :: 0 <= i < k ==>
                  w'.lists[i] == w.lists[i] + (if sent then Sent(w.lists[k], now, k, i) else []))
            && (forall i :: k < i < 5 ==> w'.lists[i] == w.lists[i] && w'.mins[i] == w.mins[i])
  {
    IntervalIs(k);
    RenewDistributes(w, now, k, 0, 0);
    assert w.lists[k][0..] == w.lists[k];
  }

  lemma {:induction false} CascadeFrom(w: Wheel, now: int, k: nat, i: nat)
    requires 1 <= k <= 5 && i < 5
    ensures Cascade(w, now, k).lists[i] ==
              if i < k then w.lists[i] + Arrivals(w, now, i, k)
              else Stayers(w, now, i) + Arrivals(w, now, i, i + 1)
    decreases 5 - k
  {
    if k < 5 {
      var w' := AfterTurn(w, now, k);
      CascadeFrom(w', now, k + 1, i);
      assert Cascade(w, now, k) == Cascade(w', now, k + 1);
      TurnThen(w, now, k, i, Cascade(w', now, k + 1).lists[i]);
    }
  }

  // What list i gets from the turn of list k and from those after it
  lemma TurnThen(w: Wheel, now: int, k: nat, i: nat, end: seq<Timer>)
    requires 1 <= k < 5 && i < 5
    requires var w' := AfterTurn(w, now, k);
             end == if i < k + 1 then w'.lists[i] + Arrivals(w', now, i, k + 1)
                    else Stayers(w', now, i) + Arrivals(w', now, i, i + 1)
    ensures end == if i < k then w.lists[i] + Arrivals(w, now, i, k)
                   else Stayers(w, now, i) + Arrivals(w, now, i, i + 1)
  {
    var w' := AfterTurn(w, now, k);
    TurnIs(w, now, k);
    ArrivalsFrame(w, w', now, i, if i <= k then k + 1 else i + 1);
  }

  /** The second loop of scan_sec as a whole: list i is cascaded exactly when its cached
      minimum is less than 2^(i + 2) seconds away, what stays keeps its order, and behind it
      comes what the cascaded higher lists send down, lowest list first. */
  lemma CascadeIs(w: Wheel, now: int, i: nat)
    requires i < 5
    ensures Cascade(w, now, 1).lists[i] == Stayers(w, now, i) + Arrivals(w, now, i, i + 1)
  {
    CascadeFrom(w, now, 1, i);
  }

  // Potential: each timer's list index, summed.
  function Potential(w: Wheel): nat {
    |w.lists[1]| + 2 * |w.lists[2]| + 3 * |w.lists[3]| + 4 * |w.lists[4]|
  }

  lemma MovePays(w: Wheel, i: nat, j: nat, k: nat)
    requires 1 <= i < 5 && k < i && j < |w.lists[i]|
    ensures var w' := Move(w, i, j, k); w'.moves + Potential(w') <= w.moves + Potential(w)
  {
  }

  lemma {:induction false} RenewPays(w: Wheel, now: int, idx: nat, j: nat, m: int)
    requires 1 <= idx < 5 && j <= |w.lists[idx]|
    ensures var w' := RenewFrom(w, now, idx, j, m);
            w'.moves + Potential(w') <= w.moves + Potential(w)
    decreases |w.lists[idx]| - j
  {
    if j < |w.lists[idx]| {
      var t := w.lists[idx][j];
      var k := MinIdx(t.expire - now, idx);
      if k != idx {
        MovePays(w, idx, j, k);
        RenewPays(Move(w, idx, j, k), now, idx, j, m);
      } else {
        RenewPays(w, now, idx, j + 1, if t.expire < m || m == 0 then t.expire else m);
      }
    }
  }

  lemma {:induction false} CascadePays(w: Wheel, now: int, i: nat)
    requires 1 <= i <= 5
    ensures var w' := Cascade(w, now, i);
            w'.moves + Potential(w') <= w.moves + Potential(w)
    decreases 5 - i
  {
    if i < 5 {
      if w.mins[i] - now < Interval(i) {
        RenewPays(w, now, i, 0, 0);
        CascadePays(RenewFrom(w, now, i, 0, 0), now, i + 1);
      } else {
        CascadePays(w, now, i + 1);
      }
    }
  }
}
