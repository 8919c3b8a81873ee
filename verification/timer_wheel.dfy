/** The hierarchical second-timer wheel on values: what each operation of
    `timer_t` does to the five lists and their cached minima.  The loops of the
    C++ code appear here as tail recursions; module `TimerHeap` proves that the
    pointer code computes exactly these functions. */
module TimerWheel {
  import opened Wrappers

  // The payload of a `sec_t`; `fn == 0` is the NULL callback.
  datatype Timer = Timer(expire: int, fn: nat, owner: nat, data: nat) {
    predicate Armed() { fn != 0 }
    predicate Due(now: int) { Armed() && expire <= now }
  }

  // `moves` counts list-to-list moves; the code has no such counter.
  datatype WheelData = Wheel(lists: seq<seq<Timer>>, mins: seq<int>, moves: nat)

  type Wheel = w: WheelData | |w.lists| == 5 && |w.mins| == 5
    witness Wheel([[], [], [], [], []], [0, 0, 0, 0, 0], 0)

  const EMPTY: Wheel := Wheel([[], [], [], [], []], [0, 0, 0, 0, 0], 0)

  // GEN_TIME_INTERVAL
  function Interval(i: nat): (d: int)
    requires i < 5
  {
    if i == 0 then 4 else if i == 1 then 8 else if i == 2 then 16 else if i == 3 then 32 else 64
  }

  // find_root_idx: the upward search
  function RootIdx(diff: int, idx: nat): (r: nat)
    requires idx <= 4
    ensures idx <= r <= 4
    decreases 4 - idx
  {
    if idx != 4 && diff > Interval(idx) then RootIdx(diff, idx + 1) else idx
  }

  // find_min_idx: the downward search
  function MinIdx(diff: int, maxIdx: nat): (r: nat)
    requires maxIdx <= 4
    ensures r <= maxIdx
  {
    if maxIdx > 0 && Interval(maxIdx - 1) >= diff then MinIdx(diff, maxIdx - 1) else maxIdx
  }

  // set_min_exptm
  function SetMin(w: Wheel, expire: int, idx: nat): Wheel
    requires idx < 5
  {
    if expire < w.mins[idx] || w.mins[idx] == 0 then w.(mins := w.mins[idx := expire]) else w
  }

  function Append(w: Wheel, t: Timer, idx: nat): Wheel
    requires idx < 5
  {
    SetMin(w.(lists := w.lists[idx := w.lists[idx] + [t]]), t.expire, idx)
  }

  function Insert(w: Wheel, now: int, t: Timer): Wheel {
    Append(w, t, RootIdx(t.expire - now, 0))
  }

  function InsertAll(w: Wheel, now: int, ts: seq<Timer>): Wheel
    decreases |ts|
  {
    if ts == [] then w else InsertAll(Insert(w, now, ts[0]), now, ts[1..])
  }

  function RemoveAt(w: Wheel, i: nat, j: nat): Wheel
    requires i < 5 && j < |w.lists[i]|
  {
    w.(lists := w.lists[i := w.lists[i][..j] + w.lists[i][j + 1..]])
  }

  // list_del, list_add_tail and set_min_exptm on one cascading timer
  function Move(w: Wheel, i: nat, j: nat, k: nat): Wheel
    requires i < 5 && k < 5 && i != k && j < |w.lists[i]|
  {
    Append(RemoveAt(w, i, j), w.lists[i][j], k).(moves := w.moves + 1)
  }

  // One round of renew_sec_timer_list at position j: the wheel, the next position and
  // the running minimum afterwards
  function RenewRound(w: Wheel, now: int, idx: nat, j: nat, m: int): (Wheel, nat, int)
    requires idx < 5 && j < |w.lists[idx]|
  {
    var t := w.lists[idx][j];
    var k := MinIdx(t.expire - now, idx);
    if k != idx then (Move(w, idx, j, k), j, m)
    else (w, j + 1, if t.expire < m || m == 0 then t.expire else m)
  }

  // renew_sec_timer_list from position j on, with running minimum m
  function RenewFrom(w: Wheel, now: int, idx: nat, j: nat, m: int): Wheel
    requires idx < 5 && j <= |w.lists[idx]|
    decreases |w.lists[idx]| - j
  {
    if j == |w.lists[idx]| then
      w.(mins := w.mins[idx := m])
    else
      var (w', j', m') := RenewRound(w, now, idx, j, m);
      RenewFrom(w', now, idx, j', m')
  }

  // The second loop of scan_sec, from list i on
  function Cascade(w: Wheel, now: int, i: nat): Wheel
    requires 1 <= i <= 5
    decreases 5 - i
  {
    if i == 5 then w
    else if w.mins[i] - now < Interval(i) then Cascade(RenewFrom(w, now, i, 0, 0), now, i + 1)
    else Cascade(w, now, i + 1)
  }

  // What one callback does: keep or delete its timer, and add timers.
  datatype Outcome = Outcome(keep: bool, adds: seq<Timer>)

  // Callbacks beyond the end of the script keep their timer and add nothing.
  function Head(outs: seq<Outcome>): Outcome {
    if outs == [] then Outcome(true, []) else outs[0]
  }

  function Tail(outs: seq<Outcome>): seq<Outcome> {
    if outs == [] then [] else outs[1..]
  }

  // State of the firing loop: the wheel, the timers called back, removed and added so far.
  datatype Fired = Fired(w: Wheel, called: seq<Timer>, dropped: seq<Timer>, added: seq<Timer>)

  // One round of the firing loop, at position j of list 0
  function FireOne(f: Fired, now: int, j: nat, o: Outcome): Fired
    requires j < |f.w.lists[0]|
  {
    var t := f.w.lists[0][j];
    if !t.Armed() then
      f.(w := RemoveAt(f.w, 0, j), dropped := f.dropped + [t])
    else if t.expire <= now then
      var w1 := InsertAll(f.w, now, o.adds);
      InsertAllExtends(f.w, now, o.adds);
      if o.keep then
        Fired(w1, f.called + [t], f.dropped, f.added + o.adds)
      else
        Fired(RemoveAt(w1, 0, j), f.called + [t], f.dropped + [t], f.added + o.adds)
    else
      f
  }

  // Whether that round leaves its timer in place
  predicate Stays(t: Timer, now: int, o: Outcome) {
    t.Armed() && (t.expire <= now ==> o.keep)
  }

  // The outcome that the firing loop takes at timer t
  function OutcomeFor(t: Timer, now: int, outs: seq<Outcome>): Outcome {
    if t.Due(now) then Head(outs) else Outcome(true, [])
  }

  function NextPos(w: Wheel, now: int, j: nat, o: Outcome): Option<nat>
    requires j < |w.lists[0]|
  {
    if j + 1 == |w.lists[0]| then None else Some(if Stays(w.lists[0][j], now, o) then j + 1 else j)
  }

  // The script left after timer t
  function Rest(t: Timer, now: int, outs: seq<Outcome>): seq<Outcome> {
    if t.Due(now) then Tail(outs) else outs
  }

  /** The first loop of scan_sec.  `cur` is the position of `pos`, or None once
      `pos` is the list head: the next position is chosen before the callback runs,
      so what the last timer's callback appends is not visited.  The script `outs`
      is finite; module WheelTermination says when the C++ loop is not. */
  function FireFrom(f: Fired, now: int, cur: Option<nat>, outs: seq<Outcome>): Fired
    requires cur.Some? ==> cur.value < |f.w.lists[0]|
    decreases |outs|, cur.Some?, if cur.Some? then |f.w.lists[0]| - cur.value else 0
  {
    if cur.None? then f
    else
      var t := f.w.lists[0][cur.value];
      var o := OutcomeFor(t, now, outs);
      FireOneShape(f, now, cur.value, o);
      FireFrom(FireOne(f, now, cur.value, o), now, NextPos(f.w, now, cur.value, o), Rest(t, now, outs))
  }

  function First(w: Wheel): Option<nat> {
    if w.lists[0] == [] then None else Some(0)
  }

  function FireAll(w: Wheel, now: int, outs: seq<Outcome>): Fired {
    FireFrom(Fired(w, [], [], []), now, First(w), outs)
  }

  function ScanSec(w: Wheel, now: int, outs: seq<Outcome>): Fired {
    var f := FireAll(w, now, outs);
    f.(w := Cascade(f.w, now, 1))
  }

  // Shape facts the definitions above need

  // The timers of ts that land in list i when inserted at `now`
  function Landing(ts: seq<Timer>, now: int, i: nat): seq<Timer> {
    if ts == [] then []
    else (if RootIdx(ts[0].expire - now, 0) == i then [ts[0]] else []) + Landing(ts[1..], now, i)
  }

  lemma {:induction false} InsertAllExtends(w: Wheel, now: int, ts: seq<Timer>)
    ensures forall i :: 0 <= i < 5 ==>
      InsertAll(w, now, ts).lists[i] == w.lists[i] + Landing(ts, now, i)
    ensures InsertAll(w, now, ts).moves == w.moves
    decreases |ts|
  {
    if ts != [] {
      InsertAllExtends(Insert(w, now, ts[0]), now, ts[1..]);
    }
  }

  lemma FireOneShape(f: Fired, now: int, j: nat, o: Outcome)
    requires j < |f.w.lists[0]|
    ensures
      var l := f.w.lists[0];
      var extra := if l[j].Due(now) then Landing(o.adds, now, 0) else [];
      FireOne(f, now, j, o).w.lists[0] ==
        l[..j] + (if Stays(l[j], now, o) then [l[j]] else []) + l[j + 1..] + extra
  {
    InsertAllExtends(f.w, now, o.adds);
    var l := f.w.lists[0];
    assert l == l[..j] + [l[j]] + l[j + 1..];
  }
}
