/** The second-timer part of `timer_t`, on the heap.  Every method is proved to compute
    what module TimerWheel says, and to keep each live timer in exactly one wheel list
    and exactly one owner's list. */
module TimerHeap {
  import opened Bits
  import opened XrList
  import opened Wrappers
  import opened TimerWheel
  import opened TimerLinks
  import opened WheelScan
  import WheelCascade

  // tvec_root_s, less `min_expiring_time`, which class TimerT keeps for all five lists
  datatype TvecRoot = TvecRoot(head: ListHead, expire: int)

  type MinTimes = m: seq<int> | |m| == 5 witness [0, 0, 0, 0, 0]

  // A callback's verdict and the additions it makes, each to some owner's list
  datatype HeapOutcome = HeapOutcome(keep: bool, adds: seq<(ListHead, Timer)>)

  function Payloads(adds: seq<(ListHead, Timer)>): (ts: seq<Timer>)
    ensures |ts| == |adds| && forall i :: 0 <= i < |adds| ==> ts[i] == adds[i].1
  {
    seq(|adds|, i requires 0 <= i < |adds| => adds[i].1)
  }

  function Script(outs: seq<HeapOutcome>): (os: seq<Outcome>)
    ensures |os| == |outs|
    ensures forall i :: 0 <= i < |outs| ==> os[i] == Outcome(outs[i].keep, Payloads(outs[i].adds))
  {
    seq(|outs|, i requires 0 <= i < |outs| => Outcome(outs[i].keep, Payloads(outs[i].adds)))
  }

  function ValueOfOutcome(o: HeapOutcome): Outcome {
    Outcome(o.keep, Payloads(o.adds))
  }

  // What the callback of t does, t being called only when due, and the script left after it
  function Ask(t: Timer, now: int, outs: seq<HeapOutcome>): (r: (HeapOutcome, seq<HeapOutcome>))
    ensures ValueOfOutcome(r.0) == OutcomeFor(t, now, Script(outs))
    ensures Script(r.1) == Rest(t, now, Script(outs))
    ensures r.1 == outs || (outs != [] && r.1 == outs[1..])
    ensures r.0 in outs || r.0 == HeapOutcome(true, [])
  {
    assert Payloads([]) == [];
    if t.Due(now) && outs != [] then
      assert Script(outs[1..]) == Script(outs)[1..];
      (outs[0], outs[1..])
    else (HeapOutcome(true, []), outs)
  }

  function Infos(ts: seq<SecTimer>): (es: seq<Timer>)
    ensures |es| == |ts| && forall i :: 0 <= i < |ts| ==> es[i] == ts[i].info
  {
    seq(|ts|, i requires 0 <= i < |ts| => ts[i].info)
  }

  ghost predicate Five<V>(l: map<nat, V>) {
    forall i: nat :: i in l <==> i < 5
  }

  // The value of a wheel whose lists are l
  ghost function Value(l: map<nat, seq<SecTimer>>, mins: MinTimes, moves: nat): (w: Wheel)
    requires Five(l)
    ensures forall i :: 0 <= i < 5 ==> w.lists[i] == Infos(l[i])
    ensures w.mins == mins && w.moves == moves
  {
    Wheel(seq(5, i requires 0 <= i < 5 => Infos(l[i])), mins, moves)
  }

  lemma ValueCut(l: map<nat, seq<SecTimer>>, mins: MinTimes, moves: nat, i: nat, j: nat)
    requires Five(l) && i < 5 && j < |l[i]|
    ensures Value(l[i := Cut(l[i], j)], mins, moves) == RemoveAt(Value(l, mins, moves), i, j)
  {
    assert Infos(Cut(l[i], j)) == Infos(l[i])[..j] + Infos(l[i])[j + 1..];
    assert Value(l[i := Cut(l[i], j)], mins, moves).lists == RemoveAt(Value(l, mins, moves), i, j).lists;
  }

  lemma ValueMoves(l: map<nat, seq<SecTimer>>, mins: MinTimes, moves: nat)
    requires Five(l)
    ensures Value(l, mins, moves + 1) == Value(l, mins, moves).(moves := moves + 1)
  {
    assert Value(l, mins, moves + 1).lists == Value(l, mins, moves).lists;
  }

  lemma ValueAppend(l: map<nat, seq<SecTimer>>, mins: MinTimes, moves: nat, i: nat, t: SecTimer)
    requires Five(l) && i < 5
    ensures var w := Value(l, mins, moves);
            Value(l[i := l[i] + [t]], mins, moves) == w.(lists := w.lists[i := w.lists[i] + [t.info]])
  {
    var w := Value(l, mins, moves);
    assert Infos(l[i] + [t]) == Infos(l[i]) + [t.info];
    assert Value(l[i := l[i] + [t]], mins, moves).lists == w.lists[i := w.lists[i] + [t.info]];
  }

  // The cascade of list idx that has reached position j with minimum m ends in wheel `end`.
  ghost predicate Leads(w: Wheel, now: int, idx: nat, j: nat, m: int, end: Wheel)
    requires idx < 5 && j <= |w.lists[idx]|
  {
    forall n {:trigger Open(n)} :: Open(n) ==> RenewFrom(w, now, idx, j, m) == end
  }

  lemma LeadsStart(w: Wheel, now: int, idx: nat)
    requires idx < 5
    ensures Leads(w, now, idx, 0, 0, RenewFrom(w, now, idx, 0, 0))
  {
  }

  // The cascade, about to move the j-th timer of list idx to list i, ends in wheel `end`.
  ghost predicate MoveLeads(w: Wheel, now: int, idx: nat, j: nat, m: int, end: Wheel, i: nat)
    requires i < idx < 5 && j < |w.lists[idx]|
  {
    forall n {:trigger Open(n)} :: Open(n) ==>
      j <= |Move(w, idx, j, i).lists[idx]| && Leads(Move(w, idx, j, i), now, idx, j, m, end)
  }

  // A round that moves its timer to list i, and one that leaves it in place
  lemma LeadsToMove(w: Wheel, now: int, idx: nat, j: nat, m: int, end: Wheel, e: int, i: nat)
    requires idx < 5 && j < |w.lists[idx]| && Leads(w, now, idx, j, m, end)
    requires w.lists[idx][j].expire == e && MinIdx(e - now, idx) == i < idx
    ensures MoveLeads(w, now, idx, j, m, end, i)
  {
    assert Open(0);
    WheelCascade.MoveShape(w, idx, j, i);
  }

  lemma LeadsMove(w: Wheel, now: int, idx: nat, j: nat, m: int, end: Wheel, i: nat, w': Wheel)
    requires i < idx < 5 && j < |w.lists[idx]| && MoveLeads(w, now, idx, j, m, end, i)
    requires w' == Move(w, idx, j, i)
    ensures j <= |w'.lists[idx]| && Leads(w', now, idx, j, m, end)
  {
    assert Open(0);
  }

  lemma LeadsStay(w: Wheel, now: int, idx: nat, j: nat, m: int, end: Wheel, e: int)
    requires idx < 5 && j < |w.lists[idx]| && Leads(w, now, idx, j, m, end)
    requires w.lists[idx][j].expire == e && MinIdx(e - now, idx) == idx
    ensures Leads(w, now, idx, j + 1, if e < m || 0 == m then e else m, end)
  {
    assert Open(0);
  }

  lemma LeadsEnd(w: Wheel, now: int, idx: nat, m: int, end: Wheel)
    requires idx < 5 && Leads(w, now, idx, |w.lists[idx]|, m, end)
    ensures end == w.(mins := w.mins[idx := m])
  {
    assert Open(0);
  }

  ghost predicate OneRemoval(w: Wheel, p: (nat, nat), w': Wheel) {
    p.0 < 5 && p.1 < |w.lists[p.0]| && w' == RemoveAt(w, p.0, p.1)
  }

  ghost predicate LastRemoval(w: Wheel, ps: seq<(nat, nat)>, w': Wheel)
    requires ps != []
  {
    OneRemoval(w, ps[|ps| - 1], w')
  }

  // The removals at list positions ps, one after the other, lead from w0 to w.
  ghost predicate Removals(w0: Wheel, ps: seq<(nat, nat)>, w: Wheel)
    decreases |ps|
  {
    if ps == [] then w == w0
    else exists m: Wheel :: LastRemoval(m, ps, w) && Removals(w0, ps[..|ps| - 1], m)
  }

  lemma RemovalsSnoc(w0: Wheel, ps: seq<(nat, nat)>, w: Wheel, p: (nat, nat), w': Wheel)
    requires Removals(w0, ps, w) && OneRemoval(w, p, w')
    ensures Removals(w0, ps + [p], w')
  {
    assert (ps + [p])[..|ps|] == ps;
    assert LastRemoval(w, ps + [p], w');
  }

  // Inserting ts into w one by one ends in wheel `end`.
  ghost predicate Inserts(w: Wheel, now: int, ts: seq<Timer>, end: Wheel) {
    forall n {:trigger Open(n)} :: Open(n) ==> InsertAll(w, now, ts) == end
  }

  lemma InsertsStart(w: Wheel, now: int, adds: seq<(ListHead, Timer)>)
    ensures Inserts(w, now, Payloads(adds[0..]), InsertAll(w, now, Payloads(adds)))
  {
    assert adds[0..] == adds;
  }

  lemma InsertsStep(w: Wheel, now: int, adds: seq<(ListHead, Timer)>, k: nat, end: Wheel)
    requires k < |adds| && Inserts(w, now, Payloads(adds[k..]), end)
    ensures Inserts(Insert(w, now, adds[k].1), now, Payloads(adds[k + 1..]), end)
  {
    assert Payloads(adds[k..])[1..] == Payloads(adds[k + 1..]);
    assert Open(0);
  }

  lemma InsertsEnd(w: Wheel, now: int, adds: seq<(ListHead, Timer)>, end: Wheel)
    requires Inserts(w, now, Payloads(adds[|adds|..]), end)
    ensures w == end
  {
    assert Open(0);
  }

  lemma InsertAtRoot(w: Wheel, now: int, t: Timer, idx: nat)
    requires idx == RootIdx(t.expire - now, 0)
    ensures Insert(w, now, t) == Append(w, t, idx)
  {
  }

  lemma ValueMins(l: map<nat, seq<SecTimer>>, mins: MinTimes, moves: nat, mins': MinTimes)
    requires Five(l)
    ensures Value(l, mins', moves) == Value(l, mins, moves).(mins := mins')
  {
    assert Value(l, mins', moves).lists == Value(l, mins, moves).lists;
  }

  // The firing loop that has reached state f at `cur` ends in state `end`.
  ghost predicate Fires(f: Fired, now: int, cur: Option<nat>, outs: seq<Outcome>, end: Fired)
    requires cur.Some? ==> cur.value < |f.w.lists[0]|
  {
    forall n {:trigger Open(n)} :: Open(n) ==> FireFrom(f, now, cur, outs) == end
  }

  lemma FiresStart(w: Wheel, now: int, outs: seq<Outcome>)
    ensures Fires(Fired(w, [], [], []), now, First(w), outs, FireAll(w, now, outs))
  {
  }

  lemma FiresStep(f: Fired, now: int, j: nat, outs: seq<Outcome>, end: Fired)
    requires j < |f.w.lists[0]| && Fires(f, now, Some(j), outs, end)
    ensures var t := f.w.lists[0][j]; var o := OutcomeFor(t, now, outs);
            var f' := FireOne(f, now, j, o); var next := NextPos(f.w, now, j, o);
            && (next.Some? ==> next.value < |f'.w.lists[0]|)
            && Fires(f', now, next, Rest(t, now, outs), end)
  {
    FireStep(f, now, j, outs);
    assert Open(0);
  }

  // One round, in terms of the scripted callbacks
  lemma Turn(f: Fired, now: int, j: nat, outs: seq<HeapOutcome>, end: Fired,
             o: HeapOutcome, outs': seq<HeapOutcome>, f': Fired, next: Option<nat>)
    requires j < |f.w.lists[0]| && Fires(f, now, Some(j), Script(outs), end)
    requires (o, outs') == Ask(f.w.lists[0][j], now, outs)
    requires f' == FireOne(f, now, j, ValueOfOutcome(o)) && next == NextPos(f.w, now, j, ValueOfOutcome(o))
    ensures next.Some? ==> next.value < |f'.w.lists[0]|
    ensures Fires(f', now, next, Script(outs'), end)
    ensures var t := f.w.lists[0][j]; f'.called == f.called + (if t.Due(now) then [t] else [])
    ensures || |outs'| < |outs|
            || (|outs'| == |outs| && (next.None? || |f'.w.lists[0]| - next.value < |f.w.lists[0]| - j))
  {
    FiresStep(f, now, j, Script(outs), end);
    FireShrinks(f, now, j, Script(outs));
    FireOneLogs(f, now, j, OutcomeFor(f.w.lists[0][j], now, Script(outs)));
  }

  lemma FiresEnd(f: Fired, now: int, outs: seq<Outcome>, end: Fired)
    requires Fires(f, now, None, outs, end)
    ensures f == end
  {
    assert Open(0);
  }

  // The cascade of lists i..4 of w ends in wheel `end`.
  ghost predicate Settles(w: Wheel, now: int, i: nat, end: Wheel)
    requires 1 <= i <= 5
  {
    forall n {:trigger Open(n)} :: Open(n) ==> Cascade(w, now, i) == end
  }

  lemma SettlesStart(w: Wheel, now: int)
    ensures Settles(w, now, 1, Cascade(w, now, 1))
  {
  }

  lemma SettlesStep(w: Wheel, now: int, i: nat, end: Wheel)
    requires 1 <= i < 5 && Settles(w, now, i, end)
    ensures Settles(if w.mins[i] - now < Interval(i) then RenewFrom(w, now, i, 0, 0) else w, now, i + 1, end)
  {
    assert Open(0);
  }

  lemma SettlesEnd(w: Wheel, now: int, end: Wheel)
    requires Settles(w, now, 5, end)
    ensures w == end
  {
    assert Open(0);
  }

  /** The live timers: in the wheel's lists, in the owners' lists (`owned[h] == h` for
      every owner's list head h), and the number of cascade moves so far. */
  datatype Live = Live(wheel: View<nat>, owners: View<ListHead>, owned: map<ListHead, ListHead>, moves: nat) {
    ghost function Add(t: SecTimer, i: nat, h: ListHead): Live
      requires i in wheel.lists && h in owners.lists
    {
      this.(wheel := wheel.Hook(t, i), owners := owners.Hook(t, h))
    }

    ghost function Remove(i: nat, j: nat, h: ListHead, m: nat): Live
      requires i in wheel.lists && j < |wheel.lists[i]| && h in owners.lists && m < |owners.lists[h]|
    {
      this.(wheel := wheel.Unhook(i, j), owners := owners.Unhook(h, m))
    }
  }

  // The constructor has built the lists below |roots|, all empty.
  ghost predicate RootsBuilt(roots: seq<TvecRoot>, hs: map<nat, ListHead>, v: View<nat>)
    requires |roots| <= 5
  {
    && v.side == EntrySide && v.home == map[]
    && (forall i: nat :: i in hs <==> i < |roots|)
    && (forall i: nat :: i in v.lists <==> i < |roots|)
    && (forall i: nat :: i < |roots| ==> v.lists[i] == [] && roots[i] == TvecRoot(hs[i], Interval(i)))
  }

  lemma RootsGrow(roots: seq<TvecRoot>, hs: map<nat, ListHead>, v: View<nat>, head: ListHead)
    requires |roots| < 5 && RootsBuilt(roots, hs, v)
    ensures RootsBuilt(roots + [TvecRoot(head, Interval(|roots|))], hs[|roots| := head], AddList(v, |roots|, head))
  {
  }

  lemma BoundsAre(roots: seq<TvecRoot>, hs: map<nat, ListHead>, v: View<nat>)
    requires |roots| == 5 && RootsBuilt(roots, hs, v)
    ensures roots[0].expire == 4 && roots[1].expire == 8 && roots[2].expire == 16
    ensures roots[3].expire == 32 && roots[4].expire == 64
  {
  }

  lemma EmptyValue(l: map<nat, seq<SecTimer>>)
    requires Five(l) && forall i: nat :: i < 5 ==> l[i] == []
    ensures Value(l, [0, 0, 0, 0, 0], 0) == EMPTY
  {
    assert Infos([]) == [];
    assert Value(l, [0, 0, 0, 0, 0], 0).lists == EMPTY.lists;
  }

  class TimerT {
    var now: int
    var lastHandleSec: int
    const vec: seq<TvecRoot>
    // The `min_expiring_time` of each list
    var minExpiring: MinTimes
    ghost const heads: map<nat, ListHead>
    // The state after construction
    ghost const booted: Live

    /** timer_t(): five empty lists with bounds 4 to 64, no second handled yet, no owners. */
    constructor (now: int)
      ensures this.now == now && lastHandleSec == 0 && VecOk()
      ensures vec[0].expire == 4 && vec[1].expire == 8 && vec[2].expire == 16
      ensures vec[3].expire == 32 && vec[4].expire == 64
      ensures Good(booted) && Abs(booted) == EMPTY && fresh(booted.wheel.nodes)
      ensures booted.owners.lists == map[] && booted.owners.nodes == {}
    {
      var roots: seq<TvecRoot> := [];
      ghost var hs: map<nat, ListHead>, v: View<nat> := map[], NoLists(EntrySide);
      NoListsLinked<nat>(EntrySide);
      while |roots| < 5
        invariant |roots| <= 5 && RootsBuilt(roots, hs, v)
        invariant Linked(v, hs) && fresh(v.nodes)
        decreases 5 - |roots|
      {
        var head := new ListHead();
        var n: nat := |roots|;
        assert n !in v.lists && head !in v.nodes;
        AddListLinked(v, hs, n, head);
        RootsGrow(roots, hs, v, head);
        hs, v := hs[n := head], AddList(v, n, head);
        roots := roots + [TvecRoot(head, Interval(n))];
      }
      NoListsLinked<ListHead>(SpriteSide);
      BoundsAre(roots, hs, v);
      this.now := now;
      lastHandleSec := 0;
      minExpiring := [0, 0, 0, 0, 0];
      vec := roots;
      heads := hs;
      booted := Live(v, NoLists(SpriteSide), map[], 0);
      new;
      EmptyValue(booted.wheel.lists);
    }

    ghost predicate VecOk() {
      && |vec| == 5 && Five(heads)
      && (forall i :: 0 <= i < 5 ==> vec[i].expire == Interval(i) && heads[i] == vec[i].head)
    }

    ghost predicate WheelOk(v: View<nat>)
      reads v.nodes
    {
      VecOk() && v.side == EntrySide && Five(v.lists) && Linked(v, heads)
    }

    ghost predicate OwnersOk(v: View<ListHead>, owned: map<ListHead, ListHead>)
      reads v.nodes
    {
      && v.side == SpriteSide && owned.Keys == v.lists.Keys && Linked(v, owned)
      && (forall h :: h in owned ==> owned[h] == h)
    }

    /** Two-list invariant: the timers of the wheel are the timers of the owners, each
        in exactly one list of either family, and the families share no node. */
    ghost predicate Good(g: Live)
      reads g.wheel.nodes, g.owners.nodes
    {
      && WheelOk(g.wheel) && OwnersOk(g.owners, g.owned)
      && g.wheel.home.Keys == g.owners.home.Keys && g.wheel.nodes !! g.owners.nodes
    }

    ghost function Abs(g: Live): Wheel
      requires VecOk() && Five(g.wheel.lists)
      reads this`minExpiring
    {
      ValueOf(g.wheel, g.moves)
    }

    // The wheel that v and the cached minima describe
    ghost function ValueOf(v: View<nat>, moves: nat): Wheel
      requires VecOk() && Five(v.lists)
      reads this`minExpiring
    {
      Value(v.lists, minExpiring, moves)
    }

    method FindRootIdx(expireTime: int) returns (idx: nat)
      requires VecOk()
      ensures idx == RootIdx(expireTime - now, 0)
      ensures idx < 4 ==> expireTime - now <= 4 * Pow2(idx)
      ensures idx > 0 ==> 4 * Pow2(idx - 1) < expireTime - now
    {
      WheelCascade.SearchesInNumbers(expireTime - now, 0);
      idx := 0;
      var diff := expireTime - now;
      while idx != 4
        invariant idx <= 4
        invariant RootIdx(diff, idx) == RootIdx(diff, 0)
        decreases 4 - idx
      {
        if diff <= vec[idx].expire {
          break;
        }
        idx := idx + 1;
      }
    }

    method FindMinIdx(diff: int, maxIdx: nat) returns (idx: nat)
      requires VecOk() && maxIdx < 5
      ensures idx == MinIdx(diff, maxIdx) && idx <= maxIdx
      ensures idx < maxIdx ==> diff <= 4 * Pow2(idx)
      ensures idx > 0 ==> 4 * Pow2(idx - 1) < diff
    {
      WheelCascade.SearchesInNumbers(diff, maxIdx);
      idx := maxIdx;
      while idx > 0 && vec[idx - 1].expire >= diff
        invariant idx <= maxIdx
        invariant MinIdx(diff, idx) == MinIdx(diff, maxIdx)
      {
        idx := idx - 1;
      }
    }

    /** set_min_exptm: one of the two times, and no later than either, 0 counting as unset. */
    method SetMinExptm(exptm: int, idx: nat)
      requires idx < 5
      modifies this`minExpiring
      ensures forall k :: 0 <= k < 5 && k != idx ==> minExpiring[k] == old(minExpiring)[k]
      ensures old(minExpiring)[idx] == 0 ==> minExpiring[idx] == exptm
      ensures old(minExpiring)[idx] != 0 ==>
        minExpiring[idx] <= old(minExpiring)[idx] && minExpiring[idx] in {old(minExpiring)[idx], exptm}
      ensures minExpiring[idx] <= exptm
    {
      if exptm < minExpiring[idx] || 0 == minExpiring[idx] {
        minExpiring := minExpiring[idx := exptm];
      }
    }

    // list_add_tail to list i, followed by set_min_exptm
    method AddEntry(t: SecTimer, i: nat, ghost v: View<nat>, ghost moves: nat)
      requires WheelOk(v) && i < 5 && t !in v.home && t.entry.host == t
      modifies this`minExpiring, v.nodes`next, v.nodes`prev, t.entry`next, t.entry`prev
      ensures WheelOk(v.Hook(t, i))
      ensures ValueOf(v.Hook(t, i), moves) == Append(old(ValueOf(v, moves)), t.info, i)
    {
      ghost var ms := minExpiring;
      var e := t.info.expire;
      SetMinExptm(e, i);
      assert minExpiring == if e < ms[i] || ms[i] == 0 then ms[i := e] else ms;
      HookTail(t, t.entry, vec[i].head, v, heads, i);
      ValueAppend(v.lists, minExpiring, moves, i, t);
    }

    // list_del from list i, t being its j-th timer
    method DelEntry(t: SecTimer, ghost v: View<nat>, ghost moves: nat, ghost i: nat, ghost j: nat)
      requires WheelOk(v) && i < 5 && j < |v.lists[i]| && v.lists[i][j] == t
      modifies v.nodes`next, v.nodes`prev
      ensures WheelOk(v.Unhook(i, j))
      ensures ValueOf(v.Unhook(i, j), moves) == RemoveAt(old(ValueOf(v, moves)), i, j)
    {
      Unhook(t, t.entry, v, heads, i, j);
      ValueCut(v.lists, minExpiring, moves, i, j);
    }

    // A timer that leaves list idx for list i: list_del, list_add_tail, set_min_exptm
    method MoveEntry(t: SecTimer, i: nat, ghost v: View<nat>, ghost moves: nat, ghost idx: nat, ghost j: nat)
      requires WheelOk(v) && i < 5 && idx < 5 && i != idx && j < |v.lists[idx]| && v.lists[idx][j] == t
      modifies this`minExpiring, v.nodes`next, v.nodes`prev
      ensures WheelOk(v.MoveTo(idx, j, i))
      ensures ValueOf(v.MoveTo(idx, j, i), moves + 1) == Move(old(ValueOf(v, moves)), idx, j, i)
    {
      Found(v, heads, idx, j);
      DelEntry(t, v, moves, idx, j);
      AddEntry(t, i, v.Unhook(idx, j), moves);
      ValueMoves(v.MoveTo(idx, j, i).lists, minExpiring, moves);
    }

    // A round of the cascade loop that moves its timer
    method MoveRound(t: SecTimer, i: nat, ghost v: View<nat>, ghost moves: nat, ghost idx: nat, ghost j: nat,
                     ghost m: int, ghost end: Wheel)
      requires WheelOk(v) && i < idx < 5 && j < |v.lists[idx]| && v.lists[idx][j] == t
      requires MoveLeads(ValueOf(v, moves), now, idx, j, m, end, i)
      modifies this`minExpiring, v.nodes`next, v.nodes`prev
      ensures WheelOk(v.MoveTo(idx, j, i)) && j <= |ValueOf(v.MoveTo(idx, j, i), moves + 1).lists[idx]|
      ensures Leads(ValueOf(v.MoveTo(idx, j, i), moves + 1), now, idx, j, m, end)
    {
      ghost var w := ValueOf(v, moves);
      MoveEntry(t, i, v, moves, idx, j);
      LeadsMove(w, now, idx, j, m, end, i, ValueOf(v.MoveTo(idx, j, i), moves + 1));
    }

    // What the round with t does to the cascade, i being where t belongs
    ghost predicate TurnReady(w: Wheel, idx: nat, j: nat, m: int, end: Wheel, i: nat, e: int)
      requires i <= idx < 5 && j < |w.lists[idx]|
      reads this`now
    {
      if i < idx then MoveLeads(w, now, idx, j, m, end, i)
      else Leads(w, now, idx, j + 1, if e < m || 0 == m then e else m, end)
    }

    lemma ReadyForTurn(v: View<nat>, moves: nat, idx: nat, j: nat, m: int, end: Wheel, i: nat)
      requires VecOk() && Five(v.lists) && i <= idx < 5 && j < |v.lists[idx]|
      requires Leads(ValueOf(v, moves), now, idx, j, m, end)
      requires i == MinIdx(v.lists[idx][j].info.expire - now, idx)
      ensures TurnReady(ValueOf(v, moves), idx, j, m, end, i, v.lists[idx][j].info.expire)
    {
      var w, e := ValueOf(v, moves), v.lists[idx][j].info.expire;
      assert w.lists[idx][j] == v.lists[idx][j].info;
      if i < idx {
        LeadsToMove(w, now, idx, j, m, end, e, i);
      } else {
        LeadsStay(w, now, idx, j, m, end, e);
      }
    }

    lemma AfterMove(v: View<nat>, idx: nat, j: nat, i: nat)
      requires WheelOk(v) && idx < 5 && i < 5 && i != idx && j < |v.lists[idx]|
      ensures var v' := v.MoveTo(idx, j, i);
              && idx in v'.lists && v'.nodes == v.nodes && v'.home.Keys == v.home.Keys
              && |v'.lists[idx]| == |v.lists[idx]| - 1
              && At(v', heads, idx, j) == At(v, heads, idx, j + 1)
    {
      MoveAt(v, heads, idx, j, i);
      MoveNodes(v, heads, idx, j, i);
    }

    // The branches of the cascade loop, i being where t belongs
    method RenewTurn(t: SecTimer, i: nat, idx: nat, minExptm: int,
                     ghost v: View<nat>, ghost moves: nat, ghost j: nat, ghost end: Wheel)
      returns (min': int, ghost v': View<nat>, ghost moves': nat, ghost j': nat)
      requires WheelOk(v) && idx < 5 && j < |v.lists[idx]| && v.lists[idx][j] == t
      requires i <= idx && TurnReady(ValueOf(v, moves), idx, j, minExptm, end, i, t.info.expire)
      modifies this`minExpiring, v.nodes`next, v.nodes`prev
      ensures WheelOk(v') && v'.nodes == v.nodes && v'.home.Keys == v.home.Keys
      ensures j' <= |v'.lists[idx]| && |v'.lists[idx]| - j' < |v.lists[idx]| - j
      ensures At(v', heads, idx, j') == At(v, heads, idx, j + 1)
      ensures Leads(ValueOf(v', moves'), now, idx, j', min', end)
    {
      min', v', moves', j' := minExptm, v, moves, j;
      if i != idx {
        AfterMove(v, idx, j, i);
        MoveRound(t, i, v, moves, idx, j, minExptm, end);
        v', moves' := v.MoveTo(idx, j, i), moves + 1;
      } else {
        if t.info.expire < minExptm || 0 == minExptm {
          min' := t.info.expire;
        }
        j' := j + 1;
      }
    }

    // The body of the cascade loop: cur is the j-th node of list idx
    method RenewOne(cur: ListHead, idx: nat, minExptm: int,
                    ghost v: View<nat>, ghost moves: nat, ghost j: nat, ghost end: Wheel)
      returns (min': int, ghost v': View<nat>, ghost moves': nat, ghost j': nat)
      requires WheelOk(v) && 1 <= idx < 5 && j < |v.lists[idx]| && cur == At(v, heads, idx, j)
      requires Leads(ValueOf(v, moves), now, idx, j, minExptm, end)
      modifies this`minExpiring, v.nodes`next, v.nodes`prev
      ensures WheelOk(v') && v'.nodes == v.nodes && v'.home.Keys == v.home.Keys
      ensures j' <= |v'.lists[idx]| && |v'.lists[idx]| - j' < |v.lists[idx]| - j
      ensures At(v', heads, idx, j') == At(v, heads, idx, j + 1)
      ensures Leads(ValueOf(v', moves'), now, idx, j', min', end)
    {
      Found(v, heads, idx, j);
      var t := cur.host as SecTimer;
      var i := FindMinIdx(t.info.expire - now, idx);
      ReadyForTurn(v, moves, idx, j, minExptm, end, i);
      min', v', moves', j' := RenewTurn(t, i, idx, minExptm, v, moves, j, end);
    }

    // The last statement of renew_sec_timer_list
    method PutMin(exptm: int, idx: nat, ghost v: View<nat>, ghost moves: nat, ghost end: Wheel)
      requires WheelOk(v) && idx < 5
      requires Leads(ValueOf(v, moves), now, idx, |v.lists[idx]|, exptm, end)
      modifies this`minExpiring
      ensures WheelOk(v) && ValueOf(v, moves) == end
    {
      LeadsEnd(ValueOf(v, moves), now, idx, exptm, end);
      ValueMins(v.lists, minExpiring, moves, minExpiring[idx := exptm]);
      minExpiring := minExpiring[idx := exptm];
    }

    method RenewSecTimerList(idx: nat, ghost v0: View<nat>, ghost moves0: nat)
      returns (ghost v: View<nat>, ghost moves: nat)
      requires WheelOk(v0) && 1 <= idx < 5
      modifies this`minExpiring, v0.nodes`next, v0.nodes`prev
      ensures WheelOk(v) && v.nodes == v0.nodes && v.home.Keys == v0.home.Keys
      ensures ValueOf(v, moves) == RenewFrom(old(ValueOf(v0, moves0)), now, idx, 0, 0)
    {
      var minExptm := 0;
      v, moves := v0, moves0;
      ghost var j: nat, end := 0, RenewFrom(ValueOf(v0, moves0), now, idx, 0, 0);
      WalkFrom(v, heads, idx);
      LeadsStart(ValueOf(v0, moves0), now, idx);
      var cur := vec[idx].head.next;
      while cur != vec[idx].head
        invariant WheelOk(v) && v.nodes == v0.nodes && v.home.Keys == v0.home.Keys
        invariant j <= |v.lists[idx]| && cur == At(v, heads, idx, j)
        invariant Leads(ValueOf(v, moves), now, idx, j, minExptm, end)
        decreases |v.lists[idx]| - j
      {
        Walk(v, heads, idx, j);
        var next := cur.next;
        minExptm, v, moves, j := RenewOne(cur, idx, minExptm, v, moves, j, end);
        cur := next;
      }
      AtHead(v, heads, idx, j);
      PutMin(minExptm, idx, v, moves, end);
    }

    lemma RemoveKeepsKeys(g: Live, i: nat, j: nat, h: ListHead, m: nat)
      requires i in g.wheel.lists && j < |g.wheel.lists[i]| && h in g.owners.lists && m < |g.owners.lists[h]|
      requires g.wheel.lists[i][j] == g.owners.lists[h][m] && g.wheel.home.Keys == g.owners.home.Keys
      ensures var g' := g.Remove(i, j, h, m);
              && g'.wheel.home.Keys == g'.owners.home.Keys
              && g'.wheel.nodes == g.wheel.nodes && g'.owners.nodes == g.owners.nodes
    {
    }

    // Both list_del calls of rm_sec
    method UnlinkBoth(t: SecTimer, ghost g: Live, ghost i: nat, ghost j: nat, ghost h: ListHead, ghost m: nat)
      requires Good(g) && i < 5 && j < |g.wheel.lists[i]| && g.wheel.lists[i][j] == t
      requires h in g.owners.lists && m < |g.owners.lists[h]| && g.owners.lists[h][m] == t
      modifies g.wheel.nodes`next, g.wheel.nodes`prev, g.owners.nodes`next, g.owners.nodes`prev
      ensures OwnersOk(g.owners.Unhook(h, m), g.owned)
      ensures WheelOk(g.wheel.Unhook(i, j))
      ensures ValueOf(g.wheel.Unhook(i, j), g.moves) == RemoveAt(old(ValueOf(g.wheel, g.moves)), i, j)
    {
      Walk(g.owners, g.owned, h, m);
      if t.sprite.next != null {
        Unhook(t, t.sprite, g.owners, g.owned, h, m);
      }
      DelEntry(t, g.wheel, g.moves, i, j);
    }

    /** rm_sec: t is the j-th timer of wheel list i and the m-th of owner h. */
    method RmSec(t: SecTimer, ghost g: Live, ghost i: nat, ghost j: nat, ghost h: ListHead, ghost m: nat)
      requires Good(g) && i < 5 && j < |g.wheel.lists[i]| && g.wheel.lists[i][j] == t
      requires h in g.owners.lists && m < |g.owners.lists[h]| && g.owners.lists[h][m] == t
      modifies g.wheel.nodes`next, g.wheel.nodes`prev, g.owners.nodes`next, g.owners.nodes`prev
      ensures Good(g.Remove(i, j, h, m))
      ensures Abs(g.Remove(i, j, h, m)) == RemoveAt(old(Abs(g)), i, j)
    {
      RemoveKeepsKeys(g, i, j, h, m);
      UnlinkBoth(t, g, i, j, h, m);
    }

    lemma AddKeepsKeys(g: Live, t: SecTimer, i: nat, h: ListHead)
      requires i in g.wheel.lists && h in g.owners.lists && g.wheel.home.Keys == g.owners.home.Keys
      requires g.wheel.side == EntrySide && g.owners.side == SpriteSide
      requires t.entry != t.sprite && t.entry !in g.owners.nodes && t.sprite !in g.wheel.nodes
      requires g.wheel.nodes !! g.owners.nodes
      ensures var g' := g.Add(t, i, h);
              g'.wheel.home.Keys == g'.owners.home.Keys && g'.wheel.nodes !! g'.owners.nodes
    {
    }

    // AddEntry, with the owners' lists o left alone
    method AddEntryBeside(t: SecTimer, idx: nat, ghost v: View<nat>, ghost moves: nat,
                          ghost o: View<ListHead>, ghost owned: map<ListHead, ListHead>)
      requires WheelOk(v) && OwnersOk(o, owned) && v.nodes !! o.nodes && idx < 5
      requires t !in v.home && t.entry.host == t && t.entry !in o.nodes
      modifies this`minExpiring, v.nodes`next, v.nodes`prev, t.entry`next, t.entry`prev
      ensures WheelOk(v.Hook(t, idx)) && OwnersOk(o, owned)
      ensures ValueOf(v.Hook(t, idx), moves) == Append(old(ValueOf(v, moves)), t.info, idx)
    {
      AddEntry(t, idx, v, moves);
    }

    // list_add_tail to the owner's list, then add_sec(sec_t *)
    method LinkBoth(t: SecTimer, idx: nat, head: ListHead, ghost g: Live)
      requires Good(g) && idx < 5 && head in g.owners.lists && t !in g.wheel.home && t !in g.owners.home
      requires t.entry.host == t && t.sprite.host == t && t.entry != t.sprite
      requires t.entry !in g.owners.nodes && t.sprite !in g.wheel.nodes
      modifies this`minExpiring, t.entry`next, t.entry`prev, t.sprite`next, t.sprite`prev
      modifies g.wheel.nodes`next, g.wheel.nodes`prev, g.owners.nodes`next, g.owners.nodes`prev
      ensures OwnersOk(g.owners.Hook(t, head), g.owned)
      ensures WheelOk(g.wheel.Hook(t, idx))
      ensures ValueOf(g.wheel.Hook(t, idx), g.moves) == Append(old(ValueOf(g.wheel, g.moves)), t.info, idx)
    {
      HookTail(t, t.sprite, head, g.owners, g.owned, head);
      AddEntryBeside(t, idx, g.wheel, g.moves, g.owners.Hook(t, head), g.owned);
    }

    method LinkNew(t: SecTimer, idx: nat, head: ListHead, ghost g: Live)
      requires Good(g) && idx < 5 && head in g.owners.lists && t !in g.wheel.home && t !in g.owners.home
      requires t.entry.host == t && t.sprite.host == t && t.entry != t.sprite
      requires t.entry !in g.owners.nodes && t.sprite !in g.wheel.nodes
      modifies this`minExpiring, t.entry`next, t.entry`prev, t.sprite`next, t.sprite`prev
      modifies g.wheel.nodes`next, g.wheel.nodes`prev, g.owners.nodes`next, g.owners.nodes`prev
      ensures Good(g.Add(t, idx, head))
      ensures Abs(g.Add(t, idx, head)) == Append(old(Abs(g)), t.info, idx)
    {
      AddKeepsKeys(g, t, idx, head);
      LinkBoth(t, idx, head, g);
    }

    // malloc and init: a timer that no list knows
    method NewSec(info: Timer, ghost g: Live) returns (t: SecTimer)
      ensures fresh(t) && fresh(t.entry) && fresh(t.sprite) && t.info == info
      ensures t !in g.wheel.home && t !in g.owners.home
      ensures t.entry.host == t && t.sprite.host == t && t.entry != t.sprite
      ensures t.entry !in g.owners.nodes && t.sprite !in g.wheel.nodes
    {
      t := new SecTimer(info);
    }

    // add_sec, wheel list idx having been found
    method AddTo(head: ListHead, info: Timer, idx: nat, ghost g: Live) returns (t: SecTimer)
      requires Good(g) && head in g.owners.lists && idx < 5
      modifies this`minExpiring
      modifies g.wheel.nodes`next, g.wheel.nodes`prev, g.owners.nodes`next, g.owners.nodes`prev
      ensures fresh(t) && fresh(t.entry) && fresh(t.sprite) && t.info == info
      ensures Good(g.Add(t, idx, head)) && Abs(g.Add(t, idx, head)) == Append(old(Abs(g)), info, idx)
    {
      t := NewSec(info, g);
      LinkNew(t, idx, head, g);
    }

    /** add_sec: the new timer joins the tail of its owner's list and of wheel list i. */
    method AddSec(head: ListHead, info: Timer, ghost g: Live) returns (t: SecTimer, ghost g': Live, ghost i: nat)
      requires Good(g) && head in g.owners.lists
      modifies this`minExpiring
      modifies g.wheel.nodes`next, g.wheel.nodes`prev, g.owners.nodes`next, g.owners.nodes`prev
      ensures fresh(t) && fresh(t.entry) && fresh(t.sprite) && t.info == info
      ensures i < 5 && g' == g.Add(t, i, head)
      ensures i < 4 ==> info.expire - old(now) <= 4 * Pow2(i)
      ensures i > 0 ==> 4 * Pow2(i - 1) < info.expire - old(now)
      ensures Good(g') && Abs(g') == Insert(old(Abs(g)), now, info)
    {
      var idx := FindRootIdx(info.expire);
      i := idx;
      InsertAtRoot(Abs(g), now, info, i);
      t := AddTo(head, info, idx, g);
      g' := g.Add(t, i, head);
    }

    // rm_sec of the j-th timer of wheel list i, wherever its owner keeps it
    method Drop(t: SecTimer, ghost g: Live, ghost i: nat, ghost j: nat) returns (ghost g': Live)
      requires Good(g) && i < 5 && j < |g.wheel.lists[i]| && g.wheel.lists[i][j] == t
      modifies g.wheel.nodes`next, g.wheel.nodes`prev, g.owners.nodes`next, g.owners.nodes`prev
      ensures Good(g') && g'.wheel == g.wheel.Unhook(i, j)
      ensures g'.owners.lists.Keys == g.owners.lists.Keys && g'.owners.nodes == g.owners.nodes
      ensures Abs(g') == RemoveAt(old(Abs(g)), i, j)
    {
      Found(g.wheel, heads, i, j);
      Homed(g.owners, g.owned, t);
      ghost var h := g.owners.home[t];
      ghost var m: nat :| m < |g.owners.lists[h]| && g.owners.lists[h][m] == t;
      RmSec(t, g, i, j, h, m);
      g' := g.Remove(i, j, h, m);
    }

    ghost predicate AddsOk(adds: seq<(ListHead, Timer)>, g: Live) {
      forall k :: 0 <= k < |adds| ==> adds[k].0 in g.owners.lists
    }

    lemma AddGrows(g: Live, t: SecTimer, i: nat, h: ListHead)
      requires i in g.wheel.lists && h in g.owners.lists && 0 in g.wheel.lists
      ensures g.wheel.lists[0] <= g.Add(t, i, h).wheel.lists[0]
      ensures g.Add(t, i, h).owners.lists.Keys == g.owners.lists.Keys
    {
    }

    // One add_sec, as its callers see it
    method AddOne(head: ListHead, info: Timer, ghost g: Live) returns (ghost g': Live)
      requires Good(g) && head in g.owners.lists
      modifies this`minExpiring
      modifies g.wheel.nodes`next, g.wheel.nodes`prev, g.owners.nodes`next, g.owners.nodes`prev
      ensures Good(g') && Abs(g') == Insert(old(Abs(g)), now, info)
      ensures g.wheel.lists[0] <= g'.wheel.lists[0] && g'.owners.lists.Keys == g.owners.lists.Keys
      ensures forall x :: x in g'.wheel.nodes ==> x in g.wheel.nodes || fresh(x)
      ensures forall x :: x in g'.owners.nodes ==> x in g.owners.nodes || fresh(x)
    {
      var t, g1, i := AddSec(head, info, g);
      AddGrows(g, t, i, head);
      g' := g1;
    }

    // The additions a callback makes
    method RunAdds(adds: seq<(ListHead, Timer)>, ghost g: Live) returns (ghost g': Live)
      requires Good(g) && AddsOk(adds, g)
      modifies this`minExpiring
      modifies g.wheel.nodes`next, g.wheel.nodes`prev, g.owners.nodes`next, g.owners.nodes`prev
      ensures Good(g') && Abs(g') == InsertAll(old(Abs(g)), now, Payloads(adds))
      ensures g.wheel.lists[0] <= g'.wheel.lists[0] && g'.owners.lists.Keys == g.owners.lists.Keys
      ensures forall x :: x in g'.wheel.nodes ==> x in g.wheel.nodes || fresh(x)
      ensures forall x :: x in g'.owners.nodes ==> x in g.owners.nodes || fresh(x)
    {
      g' := g;
      ghost var end := InsertAll(Abs(g), now, Payloads(adds));
      InsertsStart(Abs(g), now, adds);
      var k := 0;
      while k < |adds|
        invariant 0 <= k <= |adds| && Good(g') && Inserts(Abs(g'), now, Payloads(adds[k..]), end)
        invariant g.wheel.lists[0] <= g'.wheel.lists[0] && g'.owners.lists.Keys == g.owners.lists.Keys
        invariant forall x :: x in g'.wheel.nodes ==> x in g.wheel.nodes || fresh(x)
        invariant forall x :: x in g'.owners.nodes ==> x in g.owners.nodes || fresh(x)
      {
        InsertsStep(Abs(g'), now, adds, k, end);
        g' := AddOne(adds[k].0, adds[k].1, g');
        k := k + 1;
      }
      InsertsEnd(Abs(g'), now, adds, end);
    }

    ghost predicate OutsOk(outs: seq<HeapOutcome>, g: Live) {
      forall k :: 0 <= k < |outs| ==> AddsOk(outs[k].adds, g)
    }

    lemma CutPrefix(a: seq<SecTimer>, b: seq<SecTimer>, j: nat)
      requires a <= b && j < |a|
      ensures Cut(a, j) <= Cut(b, j)
    {
    }

    // The verdict on the j-th timer of list 0: it goes unless it is kept.
    method Judge(t: SecTimer, keep: bool, ghost g: Live, ghost j: nat) returns (ghost g': Live)
      requires Good(g) && j < |g.wheel.lists[0]| && g.wheel.lists[0][j] == t
      modifies g.wheel.nodes`next, g.wheel.nodes`prev, g.owners.nodes`next, g.owners.nodes`prev
      ensures Good(g') && j < |old(Abs(g)).lists[0]|
      ensures Abs(g') == if keep then old(Abs(g)) else RemoveAt(old(Abs(g)), 0, j)
      ensures g'.wheel.lists[0] == if keep then g.wheel.lists[0] else Cut(g.wheel.lists[0], j)
      ensures g'.owners.lists.Keys == g.owners.lists.Keys
      ensures g'.wheel.nodes == g.wheel.nodes && g'.owners.nodes == g.owners.nodes
    {
      g' := g;
      if !keep {
        g' := Drop(t, g, 0, j);
      }
    }

    // A due timer's turn: its callback runs, and the timer goes if the verdict is 0.
    method Call(t: SecTimer, o: HeapOutcome, ghost g: Live, ghost j: nat) returns (ghost g': Live)
      requires Good(g) && j < |g.wheel.lists[0]| && g.wheel.lists[0][j] == t && AddsOk(o.adds, g)
      modifies this`minExpiring
      modifies g.wheel.nodes`next, g.wheel.nodes`prev, g.owners.nodes`next, g.owners.nodes`prev
      ensures Good(g')
      ensures var w := InsertAll(old(Abs(g)), now, Payloads(o.adds));
              j < |w.lists[0]| && Abs(g') == if o.keep then w else RemoveAt(w, 0, j)
      ensures g'.owners.lists.Keys == g.owners.lists.Keys
      ensures forall x :: x in g'.wheel.nodes ==> x in g.wheel.nodes || fresh(x)
      ensures forall x :: x in g'.owners.nodes ==> x in g.owners.nodes || fresh(x)
      ensures (if o.keep then g.wheel.lists[0] else Cut(g.wheel.lists[0], j)) <= g'.wheel.lists[0]
    {
      ghost var g1 := RunAdds(o.adds, g);
      g' := Judge(t, o.keep, g1, j);
      CutPrefix(g.wheel.lists[0], g1.wheel.lists[0], j);
    }

    /** The body of the firing loop on the j-th timer of list 0, the callback behaving as o. */
    method Visit(t: SecTimer, o: HeapOutcome, ghost g: Live, ghost j: nat, ghost f: Fired)
      returns (ghost g': Live, ghost f': Fired)
      requires Good(g) && j < |g.wheel.lists[0]| && g.wheel.lists[0][j] == t && AddsOk(o.adds, g)
      requires f.w == Abs(g)
      modifies this`minExpiring
      modifies g.wheel.nodes`next, g.wheel.nodes`prev, g.owners.nodes`next, g.owners.nodes`prev
      ensures Good(g') && f'.w == Abs(g')
      ensures f' == FireOne(f, now, j, ValueOfOutcome(o))
      ensures g'.owners.lists.Keys == g.owners.lists.Keys
      ensures forall x :: x in g'.wheel.nodes ==> x in g.wheel.nodes || fresh(x)
      ensures forall x :: x in g'.owners.nodes ==> x in g.owners.nodes || fresh(x)
      ensures var l := g.wheel.lists[0];
              (if Stays(t.info, now, ValueOfOutcome(o)) then l else Cut(l, j)) <= g'.wheel.lists[0]
    {
      f' := FireOne(f, now, j, ValueOfOutcome(o));
      if t.info.fn == 0 {
        g' := Drop(t, g, 0, j);
      } else if t.info.expire <= now {
        g' := Call(t, o, g, j);
      } else {
        g' := g;
      }
    }

    ghost predicate Reached(g: Live, pos: Option<nat>, cur: ListHead)
      requires VecOk() && Five(g.wheel.lists)
    {
      if pos.None? then cur == heads[0]
      else pos.value < |g.wheel.lists[0]| && cur == At(g.wheel, heads, 0, pos.value)
    }

    // The firing loop has reached state f with `pos` at cur, `outs` still to come.
    ghost predicate InScan(g: Live, f: Fired, pos: Option<nat>, cur: ListHead, outs: seq<HeapOutcome>, end: Fired)
      reads this`minExpiring, this`now, g.wheel.nodes, g.owners.nodes
    {
      && Good(g) && f.w == Abs(g) && OutsOk(outs, g)
      && Reached(g, pos, cur) && Fires(f, now, pos, Script(outs), end)
    }

    lemma ReachNext(g: Live, g': Live, j: nat, stays: bool, next: ListHead)
      requires VecOk() && Five(g.wheel.lists) && Five(g'.wheel.lists) && g'.wheel.side == g.wheel.side
      requires j < |g.wheel.lists[0]| && next == At(g.wheel, heads, 0, j + 1)
      requires (if stays then g.wheel.lists[0] else Cut(g.wheel.lists[0], j)) <= g'.wheel.lists[0]
      ensures |g'.wheel.lists[0]| >= |g.wheel.lists[0]| - 1
      ensures Reached(g', if j + 1 == |g.wheel.lists[0]| then None else Some(if stays then j + 1 else j), next)
    {
      if !stays && j + 1 < |g.wheel.lists[0]| {
        assert g'.wheel.lists[0][j] == Cut(g.wheel.lists[0], j)[j];
      }
    }

    // Visit the timer at cur and step to the node behind it, chosen beforehand
    method VisitAndStep(cur: ListHead, t: SecTimer, o: HeapOutcome, ghost g: Live, ghost j: nat, ghost f: Fired)
      returns (next: ListHead, ghost g': Live, ghost f': Fired)
      requires Good(g) && j < |g.wheel.lists[0]| && g.wheel.lists[0][j] == t && AddsOk(o.adds, g)
      requires cur == At(g.wheel, heads, 0, j) && f.w == Abs(g)
      modifies this`minExpiring
      modifies g.wheel.nodes`next, g.wheel.nodes`prev, g.owners.nodes`next, g.owners.nodes`prev
      ensures Good(g') && f'.w == Abs(g')
      ensures f' == FireOne(f, now, j, ValueOfOutcome(o))
      ensures g'.owners.lists.Keys == g.owners.lists.Keys
      ensures forall x :: x in g'.wheel.nodes ==> x in g.wheel.nodes || fresh(x)
      ensures forall x :: x in g'.owners.nodes ==> x in g.owners.nodes || fresh(x)
      ensures Reached(g', NextPos(f.w, now, j, ValueOfOutcome(o)), next)
    {
      Walk(g.wheel, heads, 0, j);
      next := cur.next;
      g', f' := Visit(t, o, g, j, f);
      ReachNext(g, g', j, Stays(t.info, now, ValueOfOutcome(o)), next);
    }

    lemma RestOk(t: Timer, outs: seq<HeapOutcome>, g: Live, g': Live)
      requires OutsOk(outs, g) && g'.owners.lists.Keys == g.owners.lists.Keys
      ensures AddsOk(Ask(t, now, outs).0.adds, g) && OutsOk(Ask(t, now, outs).1, g')
    {
    }

    // One round of the firing loop, the callback behaving as o and leaving outs' to come
    method FireWith(cur: ListHead, t: SecTimer, o: HeapOutcome, outs': seq<HeapOutcome>, ghost outs: seq<HeapOutcome>,
                    ghost g: Live, ghost f: Fired, ghost j: nat, ghost end: Fired)
      returns (next: ListHead, ghost g': Live, ghost f': Fired, ghost pos': Option<nat>)
      requires InScan(g, f, Some(j), cur, outs, end) && g.wheel.lists[0][j] == t
      requires (o, outs') == Ask(t.info, now, outs)
      modifies this`minExpiring
      modifies g.wheel.nodes`next, g.wheel.nodes`prev, g.owners.nodes`next, g.owners.nodes`prev
      ensures Good(g') && f'.w == Abs(g') && Reached(g', pos', next) && g'.owners.lists.Keys == g.owners.lists.Keys
      ensures Fires(f', now, pos', Script(outs'), end)
      ensures f'.called == f.called + (if t.info.Due(now) then [t.info] else [])
      ensures || |outs'| < |outs|
              || (|outs'| == |outs| &&
                  (pos'.None? || |g'.wheel.lists[0]| - pos'.value < |g.wheel.lists[0]| - j))
      ensures forall x :: x in g'.wheel.nodes ==> x in g.wheel.nodes || fresh(x)
      ensures forall x :: x in g'.owners.nodes ==> x in g.owners.nodes || fresh(x)
    {
      RestOk(t.info, outs, g, g);
      pos' := NextPos(f.w, now, j, ValueOfOutcome(o));
      next, g', f' := VisitAndStep(cur, t, o, g, j, f);
      Turn(f, now, j, outs, end, o, outs', f', pos');
    }

    // One round of the firing loop
    method FireRound(cur: ListHead, outs: seq<HeapOutcome>,
                     ghost g: Live, ghost f: Fired, ghost j: nat, ghost end: Fired)
      returns (next: ListHead, outs': seq<HeapOutcome>, t: SecTimer,
               ghost g': Live, ghost f': Fired, ghost pos': Option<nat>)
      requires InScan(g, f, Some(j), cur, outs, end)
      modifies this`minExpiring
      modifies g.wheel.nodes`next, g.wheel.nodes`prev, g.owners.nodes`next, g.owners.nodes`prev
      ensures InScan(g', f', pos', next, outs', end)
      ensures t.info == f.w.lists[0][j] && g'.owners.lists.Keys == g.owners.lists.Keys
      ensures f'.called == f.called + (if t.info.Due(now) then [t.info] else [])
      ensures || |outs'| < |outs|
              || (|outs'| == |outs| &&
                  (pos'.None? || |g'.wheel.lists[0]| - pos'.value < |g.wheel.lists[0]| - j))
      ensures forall x :: x in g'.wheel.nodes ==> x in g.wheel.nodes || fresh(x)
      ensures forall x :: x in g'.owners.nodes ==> x in g.owners.nodes || fresh(x)
    {
      Found(g.wheel, heads, 0, j);
      t := cur.host as SecTimer;
      var (o, rest) := Ask(t.info, now, outs);
      outs' := rest;
      next, g', f', pos' := FireWith(cur, t, o, rest, outs, g, f, j, end);
      RestOk(t.info, outs, g, g');
    }

    // The first loop of scan_sec; `outs` scripts the callbacks in the order they are called.
    method FireList(outs: seq<HeapOutcome>, ghost g0: Live) returns (called: seq<Timer>, ghost g: Live, ghost f: Fired)
      requires Good(g0) && OutsOk(outs, g0)
      modifies this`minExpiring
      modifies g0.wheel.nodes`next, g0.wheel.nodes`prev, g0.owners.nodes`next, g0.owners.nodes`prev
      ensures Good(g) && f.w == Abs(g) && called == f.called
      ensures f == FireAll(old(Abs(g0)), now, Script(outs))
      ensures g.owners.lists.Keys == g0.owners.lists.Keys
      ensures forall x :: x in g.wheel.nodes ==> x in g0.wheel.nodes || fresh(x)
      ensures forall x :: x in g.owners.nodes ==> x in g0.owners.nodes || fresh(x)
    {
      called, g, f := [], g0, Fired(Abs(g0), [], [], []);
      ghost var pos, end := First(Abs(g0)), FireAll(Abs(g0), now, Script(outs));
      var rest := outs;
      FiresStart(Abs(g0), now, Script(outs));
      WalkFrom(g.wheel, heads, 0);
      var cur: ListHead := vec[0].head.next;
      while cur != vec[0].head
        invariant InScan(g, f, pos, cur, rest, end) && called == f.called
        invariant g.owners.lists.Keys == g0.owners.lists.Keys
        invariant forall x :: x in g.wheel.nodes ==> x in g0.wheel.nodes || fresh(x)
        invariant forall x :: x in g.owners.nodes ==> x in g0.owners.nodes || fresh(x)
        decreases |rest|, pos.Some?, if pos.Some? then |g.wheel.lists[0]| - pos.value else 0
      {
        var t;
        cur, rest, t, g, f, pos := FireRound(cur, rest, g, f, pos.value, end);
        if t.info.Due(now) {
          called := called + [t.info];
        }
      }
      if pos.Some? { AtHead(g.wheel, heads, 0, pos.value); }
      FiresEnd(f, now, Script(rest), end);
    }

    // One cascade, the owners' lists being left alone
    method RenewInLive(idx: nat, ghost g: Live) returns (ghost g': Live)
      requires Good(g) && 1 <= idx < 5
      modifies this`minExpiring, g.wheel.nodes`next, g.wheel.nodes`prev
      ensures Good(g') && Abs(g') == RenewFrom(old(Abs(g)), now, idx, 0, 0)
      ensures g'.owners == g.owners && g'.wheel.nodes == g.wheel.nodes
    {
      ghost var v, moves := RenewSecTimerList(idx, g.wheel, g.moves);
      g' := g.(wheel := v, moves := moves);
    }

    // The body of the second loop of scan_sec
    method CascadeRound(i: nat, ghost g: Live, ghost end: Wheel) returns (ghost g': Live)
      requires Good(g) && 1 <= i < 5 && Settles(Abs(g), now, i, end)
      modifies this`minExpiring, g.wheel.nodes`next, g.wheel.nodes`prev
      ensures Good(g') && Settles(Abs(g'), now, i + 1, end)
      ensures g'.owners == g.owners && g'.wheel.nodes == g.wheel.nodes
    {
      g' := g;
      SettlesStep(Abs(g), now, i, end);
      if minExpiring[i] - now < Interval(i) {
        g' := RenewInLive(i, g);
      }
    }

    // The second loop of scan_sec
    method CascadeAll(ghost g0: Live) returns (ghost g: Live)
      requires Good(g0)
      modifies this`minExpiring, g0.wheel.nodes`next, g0.wheel.nodes`prev
      ensures Good(g) && Abs(g) == Cascade(old(Abs(g0)), now, 1)
      ensures g.owners == g0.owners && g.wheel.nodes == g0.wheel.nodes
    {
      g := g0;
      ghost var end := Cascade(Abs(g0), now, 1);
      SettlesStart(Abs(g0), now);
      var i := 1;
      while i != 5
        invariant 1 <= i <= 5 && Good(g) && Settles(Abs(g), now, i, end)
        invariant g.owners == g0.owners && g.wheel.nodes == g0.wheel.nodes
        decreases 5 - i
      {
        g := CascadeRound(i, g, end);
        i := i + 1;
      }
      SettlesEnd(Abs(g), now, end);
    }

    /** scan_sec: fire list 0, then cascade.  The heap ends in the wheel that
        TimerWheel.ScanSec computes, and exactly its calls are made, in its order. */
    method ScanSec(outs: seq<HeapOutcome>, ghost g0: Live) returns (called: seq<Timer>, ghost g: Live)
      requires Good(g0) && OutsOk(outs, g0)
      modifies this`minExpiring
      modifies g0.wheel.nodes`next, g0.wheel.nodes`prev, g0.owners.nodes`next, g0.owners.nodes`prev
      ensures Good(g) && g.owners.lists.Keys == g0.owners.lists.Keys
      ensures Abs(g) == TimerWheel.ScanSec(old(Abs(g0)), now, Script(outs)).w
      ensures called == TimerWheel.ScanSec(old(Abs(g0)), now, Script(outs)).called
      ensures forall x :: x in g.wheel.nodes ==> x in g0.wheel.nodes || fresh(x)
      ensures forall x :: x in g.owners.nodes ==> x in g0.owners.nodes || fresh(x)
    {
      ghost var f;
      called, g, f := FireList(outs, g0);
      g := CascadeAll(g);
    }

    // scan, without the microsecond timers
    method Scan(outs: seq<HeapOutcome>, ghost g0: Live) returns (called: seq<Timer>, ghost g: Live)
      requires Good(g0) && OutsOk(outs, g0)
      modifies this`minExpiring, this`lastHandleSec
      modifies g0.wheel.nodes`next, g0.wheel.nodes`prev, g0.owners.nodes`next, g0.owners.nodes`prev
      ensures Good(g) && lastHandleSec == now && g.owners.lists.Keys == g0.owners.lists.Keys
      ensures if old(lastHandleSec) == now then g == g0 && called == [] && Abs(g) == old(Abs(g0))
              else var r := TimerWheel.ScanSec(old(Abs(g0)), now, Script(outs));
                   Abs(g) == r.w && called == r.called
      ensures forall x :: x in g.wheel.nodes ==> x in g0.wheel.nodes || fresh(x)
      ensures forall x :: x in g.owners.nodes ==> x in g0.owners.nodes || fresh(x)
    {
      called, g := [], g0;
      if lastHandleSec != now {
        ghost var w := Abs(g0);
        lastHandleSec := now;
        assert Abs(g0) == w;
        called, g := ScanSec(outs, g0);
      }
    }

    /** The wheel of `old` less the timers in `gone`, in their old order. */
    ghost predicate Pruned(old_: View<nat>, gone: set<SecTimer>, v: View<nat>) {
      && v.lists.Keys == old_.lists.Keys
      && forall i :: i in v.lists ==> v.lists[i] == Without(old_.lists[i], gone)
    }

    lemma PruneOne(v0: View<nat>, gone: set<SecTimer>, v: View<nat>, i: nat, j: nat)
      requires Pruned(v0, gone, v) && WheelOk(v) && i < 5 && j < |v.lists[i]|
      ensures Pruned(v0, gone + {v.lists[i][j]}, v.Unhook(i, j))
    {
      var t, v' := v.lists[i][j], v.Unhook(i, j);
      OnceInList(v, heads, i, j);
      CutIsWithout(v.lists[i], j);
      Found(v, heads, i, j);
      forall k | k in v'.lists ensures v'.lists[k] == Without(v0.lists[k], gone + {t}) {
        if k != i {
          OnlyHome(v, heads, t, k);
          WithoutNone(v.lists[k], {t});
        }
        WithoutTwice(v0.lists[k], gone, {t});
      }
    }

    // The timers all[n..] of owner head are still to be removed from the wheel of g0.
    ghost predicate Removing(g0: Live, g: Live, head: ListHead, all: seq<SecTimer>, n: nat) {
      && n <= |all| && head in g.owners.lists
      && g.owners.lists == g0.owners.lists[head := all[n..]]
      && Pruned(g0.wheel, Members(all[..n]), g.wheel)
    }

    lemma RemovingStep(g0: Live, g: Live, head: ListHead, all: seq<SecTimer>, n: nat, i: nat, j: nat)
      requires Good(g) && Removing(g0, g, head, all, n) && n < |all|
      requires i < 5 && j < |g.wheel.lists[i]| && g.wheel.lists[i][j] == all[n]
      ensures Removing(g0, g.Remove(i, j, head, 0), head, all, n + 1)
    {
      PruneOne(g0.wheel, Members(all[..n]), g.wheel, i, j);
      MembersSnoc(all, n);
      CutFirst(g0.owners.lists, g.owners.lists, head, all, n);
    }

    lemma MembersSnoc(all: seq<SecTimer>, n: nat)
      requires n < |all|
      ensures Members(all[..n + 1]) == Members(all[..n]) + {all[n]}
    {
      assert all[..n + 1] == all[..n] + [all[n]];
    }

    lemma CutFirst(o0: map<ListHead, seq<SecTimer>>, o: map<ListHead, seq<SecTimer>>, head: ListHead,
                   all: seq<SecTimer>, n: nat)
      requires n < |all| && o == o0[head := all[n..]]
      ensures o[head := Cut(o[head], 0)] == o0[head := all[n + 1..]]
    {
      assert Cut(all[n..], 0) == all[n + 1..];
    }

    // The body of the loop of rm_all_sec
    method RmRound(cur: ListHead, head: ListHead, ghost g0: Live, ghost g: Live, ghost all: seq<SecTimer>, ghost n: nat)
      returns (next: ListHead, ghost g': Live, ghost i: nat, ghost j: nat)
      requires Good(g) && Removing(g0, g, head, all, n) && n < |all| && cur == At(g.owners, g.owned, head, 0)
      modifies g.wheel.nodes`next, g.wheel.nodes`prev, g.owners.nodes`next, g.owners.nodes`prev
      ensures Good(g') && Removing(g0, g', head, all, n + 1) && next == At(g'.owners, g'.owned, head, 0)
      ensures OneRemoval(old(Abs(g)), (i, j), Abs(g'))
      ensures g'.wheel.nodes == g.wheel.nodes && g'.owners.nodes == g.owners.nodes
    {
      Walk(g.owners, g.owned, head, 0);
      Found(g.owners, g.owned, head, 0);
      UnhookAt(g.owners, g.owned, head, 0);
      next := cur.next;
      var t := cur.host as SecTimer;
      Homed(g.wheel, heads, t);
      i := g.wheel.home[t];
      j :| j < |g.wheel.lists[i]| && g.wheel.lists[i][j] == t;
      RemovingStep(g0, g, head, all, n, i, j);
      RmSec(t, g, i, j, head, 0);
      g' := g.Remove(i, j, head, 0);
    }

    /** rm_all_sec: exactly the timers of owner `head` leave the wheel, all others keep
        their order, and every other owner's list is unchanged. */
    method RmAllSec(head: ListHead, ghost g0: Live) returns (ghost g: Live, ghost ps: seq<(nat, nat)>)
      requires Good(g0) && head in g0.owners.lists
      modifies g0.wheel.nodes`next, g0.wheel.nodes`prev, g0.owners.nodes`next, g0.owners.nodes`prev
      ensures Good(g) && g.owners.lists == g0.owners.lists[head := []]
      ensures Pruned(g0.wheel, Members(g0.owners.lists[head]), g.wheel)
      ensures Removals(old(Abs(g0)), ps, Abs(g))
      ensures g.wheel.nodes == g0.wheel.nodes && g.owners.nodes == g0.owners.nodes
    {
      g, ps := g0, [];
      ghost var w0 := Abs(g0);
      ghost var all, n: nat := g0.owners.lists[head], 0;
      WalkFrom(g.owners, g.owned, head);
      RemovingStart(g0, head);
      var cur: ListHead := head.next;
      while cur != head
        invariant Good(g) && Removing(g0, g, head, all, n) && cur == At(g.owners, g.owned, head, 0)
        invariant Removals(w0, ps, Abs(g))
        invariant g.wheel.nodes == g0.wheel.nodes && g.owners.nodes == g0.owners.nodes
        decreases |all| - n
      {
        AtHead(g.owners, g.owned, head, 0);
        ghost var w := Abs(g);
        ghost var i, j;
        cur, g, i, j := RmRound(cur, head, g0, g, all, n);
        RemovalsSnoc(w0, ps, w, (i, j), Abs(g));
        ps := ps + [(i, j)];
        n := n + 1;
      }
      AtHead(g.owners, g.owned, head, 0);
      assert all[..n] == all;
    }

    lemma RemovingStart(g: Live, head: ListHead)
      requires Good(g) && head in g.owners.lists
      ensures Removing(g, g, head, g.owners.lists[head], 0)
    {
      forall i | i in g.wheel.lists ensures Without(g.wheel.lists[i], {}) == g.wheel.lists[i] {
        WithoutNone(g.wheel.lists[i], {});
      }
      assert g.owners.lists == g.owners.lists[head := g.owners.lists[head][0..]];
      assert Members(g.owners.lists[head][..0]) == {};
    }

    // timer_event_t(): an owner with an empty list of timers
    method NewOwner(ghost g: Live) returns (head: ListHead, ghost g': Live)
      requires Good(g)
      ensures fresh(head) && Good(g') && Abs(g') == Abs(g)
      ensures g'.wheel == g.wheel && g'.owners.lists == g.owners.lists[head := []]
      ensures g'.owners.nodes == g.owners.nodes + {head}
    {
      head := new ListHead();
      assert head !in g.owners.nodes && head !in g.wheel.nodes && head !in g.owned;
      AddListLinked(g.owners, g.owned, head, head);
      g' := g.(owners := AddList(g.owners, head, head), owned := g.owned[head := head]);
    }

    lemma BehindFirst(v: View<nat>, i: nat)
      requires WheelOk(v) && i < 5 && v.lists[i] != []
      ensures v.Unhook(i, 0).lists == v.lists[i := v.lists[i][1..]]
      ensures At(v, heads, i, 0).next == At(v.Unhook(i, 0), heads, i, 0)
    {
      Walk(v, heads, i, 0);
      UnhookAt(v, heads, i, 0);
      assert Cut(v.lists[i], 0) == v.lists[i][1..];
    }

    method DropFirst(cur: ListHead, ghost g: Live, ghost i: nat) returns (next: ListHead, ghost g': Live)
      requires Good(g) && i < 5 && g.wheel.lists[i] != [] && cur == At(g.wheel, heads, i, 0)
      modifies g.wheel.nodes`next, g.wheel.nodes`prev, g.owners.nodes`next, g.owners.nodes`prev
      ensures Good(g') && next == At(g'.wheel, heads, i, 0)
      ensures g'.wheel.lists == g.wheel.lists[i := g.wheel.lists[i][1..]]
      ensures g'.owners.lists.Keys == g.owners.lists.Keys
      ensures g'.wheel.nodes == g.wheel.nodes && g'.owners.nodes == g.owners.nodes
    {
      BehindFirst(g.wheel, i);
      Found(g.wheel, heads, i, 0);
      next := cur.next;
      g' := Drop(cur.host as SecTimer, g, i, 0);
    }

    // One list of the destructor
    method DestroyList(i: nat, ghost g0: Live) returns (ghost g: Live)
      requires Good(g0) && i < 5
      modifies g0.wheel.nodes`next, g0.wheel.nodes`prev, g0.owners.nodes`next, g0.owners.nodes`prev
      ensures Good(g) && g.wheel.lists == g0.wheel.lists[i := []]
      ensures g.owners.lists.Keys == g0.owners.lists.Keys
      ensures g.wheel.nodes == g0.wheel.nodes && g.owners.nodes == g0.owners.nodes
    {
      g := g0;
      WalkFrom(g.wheel, heads, i);
      var cur: ListHead := vec[i].head.next;
      while cur != vec[i].head
        invariant Good(g) && cur == At(g.wheel, heads, i, 0)
        invariant g.wheel.lists == g0.wheel.lists[i := g.wheel.lists[i]]
        invariant g.owners.lists.Keys == g0.owners.lists.Keys
        invariant g.wheel.nodes == g0.wheel.nodes && g.owners.nodes == g0.owners.nodes
        decreases |g.wheel.lists[i]|
      {
        AtHead(g.wheel, heads, i, 0);
        cur, g := DropFirst(cur, g, i);
      }
      AtHead(g.wheel, heads, i, 0);
    }

    /** ~timer_t(): every second-timer leaves the wheel and its owner's list. */
    method Destroy(ghost g0: Live) returns (ghost g: Live)
      requires Good(g0)
      modifies g0.wheel.nodes`next, g0.wheel.nodes`prev, g0.owners.nodes`next, g0.owners.nodes`prev
      ensures Good(g) && g.owners.lists.Keys == g0.owners.lists.Keys
      ensures forall i :: i in g.wheel.lists ==> g.wheel.lists[i] == []
      ensures forall h :: h in g.owners.lists ==> g.owners.lists[h] == []
    {
      g := g0;
      var i := 0;
      while i < 5
        invariant i <= 5 && Good(g) && g.owners.lists.Keys == g0.owners.lists.Keys
        invariant forall k :: k in g.wheel.lists && k < i ==> g.wheel.lists[k] == []
        invariant g.wheel.nodes == g0.wheel.nodes && g.owners.nodes == g0.owners.nodes
      {
        g := DestroyList(i, g);
        i := i + 1;
      }
      forall h | h in g.owners.lists ensures g.owners.lists[h] == [] {
        if g.owners.lists[h] != [] {
          Found(g.owners, g.owned, h, 0);
          Homed(g.wheel, heads, g.owners.lists[h][0]);
        }
      }
    }
  }
}
