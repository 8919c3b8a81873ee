/** The ring with one writer and one reader at once, as a step system.  Each load of the
    other side's index, each byte copied and each index store is one step; a memcpy may
    copy its bytes in any order; the snapshot taken by the load may be stale afterwards. */
module RingSpsc {
  import opened Bits
  import opened RingBuf

  // The writer inside write: the bytes to copy, l of them in the first piece, and the
  // offsets copied so far
  datatype Writer = WIdle | WCopying(bytes: seq<Byte>, l: nat, done: set<nat>)

  // The reader inside read: n bytes to copy, l of them in the first piece, and those
  // copied so far
  datatype Reader = RIdle | RCopying(n: nat, l: nat, got: map<nat, Byte>)

  /** `accepted` is everything published by writes, `returned` everything handed out by reads. */
  datatype State = State(
    size: U32, buf: seq<Byte>, inPos: U32, outPos: U32, w: Writer, r: Reader,
    accepted: seq<Byte>, returned: seq<Byte>)

  datatype Step =
    | WLoad(data: seq<Byte>)
    | WByte(k: nat)
    | WPublish
    | RLoad(len: U32)
    | RByte(k: nat)
    | RPublish

  ghost predicate Covers(done: set<nat>, n: nat) {
    forall k: nat :: k < n ==> k in done
  }

  ghost predicate Enabled(s: State, e: Step) {
    match e
    case WLoad(data) => s.w.WIdle? && |data| < TWO32
    case WByte(k) => s.w.WCopying? && k < |s.w.bytes| && k !in s.w.done
    case WPublish => s.w.WCopying? && Covers(s.w.done, |s.w.bytes|)
    case RLoad(_) => s.r.RIdle?
    case RByte(k) => s.r.RCopying? && k < s.r.n && k !in s.r.got
    case RPublish => s.r.RCopying? && Covers(s.r.got.Keys, s.r.n)
  }

  // Array accesses; the invariant below keeps every index in range.
  function Put(buf: seq<Byte>, p: nat, b: Byte): seq<Byte> {
    if p < |buf| then buf[p := b] else buf
  }

  function Get(buf: seq<Byte>, p: nat): Byte {
    if p < |buf| then buf[p] else 0
  }

  function WSlot(s: State, k: nat): nat
    requires s.w.WCopying?
  {
    Slot(Masked(s.inPos, s.size), s.w.l, k)
  }

  function RSlot(s: State, k: nat): nat
    requires s.r.RCopying?
  {
    Slot(Masked(s.outPos, s.size), s.r.l, k)
  }

  function AfterWLoad(s: State, data: seq<Byte>): State {
    var n := Min(Sub32(s.size, Sub32(s.inPos, s.outPos)), |data|);
    s.(w := WCopying(data[..n], Min(n, Sub32(s.size, Masked(s.inPos, s.size))), {}))
  }

  function AfterWByte(s: State, k: nat): State
    requires s.w.WCopying? && k < |s.w.bytes|
  {
    s.(buf := Put(s.buf, WSlot(s, k), s.w.bytes[k]), w := s.w.(done := s.w.done + {k}))
  }

  function AfterWPublish(s: State): State
    requires s.w.WCopying?
  {
    s.(inPos := Add32(s.inPos, |s.w.bytes|), accepted := s.accepted + s.w.bytes, w := WIdle)
  }

  function AfterRLoad(s: State, len: U32): State {
    var n := Min(Sub32(s.inPos, s.outPos), len);
    s.(r := RCopying(n, Min(n, Sub32(s.size, Masked(s.outPos, s.size))), map[]))
  }

  function AfterRByte(s: State, k: nat): State
    requires s.r.RCopying?
  {
    s.(r := s.r.(got := s.r.got[k := Get(s.buf, RSlot(s, k))]))
  }

  function AfterRPublish(s: State): State
    requires s.r.RCopying?
  {
    s.(outPos := Add32(s.outPos, s.r.n), returned := s.returned + Taken(s.r), r := RIdle)
  }

  // The bytes a read hands out
  function Taken(r: Reader): (b: seq<Byte>)
    requires r.RCopying?
    ensures |b| == r.n
  {
    seq(r.n, k requires 0 <= k < r.n => if k in r.got then r.got[k] else 0)
  }

  // The invariant

  ghost predicate Indexed(s: State) {
    && IsPowerOf2(s.size) && |s.buf| == s.size
    && |s.returned| <= |s.accepted| <= |s.returned| + s.size
    && s.inPos == |s.accepted| % TWO32 && s.outPos == |s.returned| % TWO32
  }

  // Counter c holds the c-th byte ever accepted.
  ghost predicate HoldsAt(s: State, c: nat)
    requires |s.buf| > 0 && c < |s.accepted|
  {
    s.buf[Pos(c, |s.buf|)] == s.accepted[c]
  }

  ghost predicate Stored(s: State)
    requires |s.buf| > 0
  {
    forall c :: |s.returned| <= c < |s.accepted| ==> HoldsAt(s, c)
  }

  // The k-th byte of the write in progress is in place.
  ghost predicate PutAt(s: State, k: nat)
    requires |s.buf| > 0 && s.w.WCopying? && k < |s.w.bytes|
  {
    s.buf[Pos(|s.accepted| + k, |s.buf|)] == s.w.bytes[k]
  }

  // The writer's snapshot only understates the room it has.
  ghost predicate WriterOk(s: State)
    requires |s.buf| > 0
  {
    s.w.WCopying? ==>
      var wr, n := |s.accepted|, |s.w.bytes|;
      && n <= |s.buf| - (wr - |s.returned|)
      && s.w.l == Min(n, |s.buf| - Pos(wr, |s.buf|))
      && (forall k :: k in s.w.done ==> k < n && PutAt(s, k))
  }

  // The k-th byte of the read in progress is the right one.
  ghost predicate GotRight(s: State, k: nat)
    requires s.r.RCopying? && k in s.r.got && |s.returned| + k < |s.accepted|
  {
    s.r.got[k] == s.accepted[|s.returned| + k]
  }

  // The reader's snapshot only understates the bytes it may take.
  ghost predicate ReaderOk(s: State)
    requires |s.buf| > 0 && |s.returned| <= |s.accepted|
  {
    s.r.RCopying? ==>
      var rd, n := |s.returned|, s.r.n;
      && rd + n <= |s.accepted|
      && s.r.l == Min(n, |s.buf| - Pos(rd, |s.buf|))
      && (forall k :: k in s.r.got ==> k < n && GotRight(s, k))
  }

  ghost predicate Inv(s: State) {
    && Indexed(s) && s.size > 0
    && s.returned <= s.accepted && Stored(s) && WriterOk(s) && ReaderOk(s)
  }

  lemma IndexValues(s: State)
    requires Indexed(s) && s.size > 0
    ensures Sub32(s.inPos, s.outPos) == |s.accepted| - |s.returned|
    ensures Sub32(s.size, Sub32(s.inPos, s.outPos)) == s.size - (|s.accepted| - |s.returned|)
    ensures Masked(s.inPos, s.size) == Pos(|s.accepted|, s.size)
    ensures Masked(s.outPos, s.size) == Pos(|s.returned|, s.size)
    ensures Sub32(s.size, Masked(s.inPos, s.size)) == s.size - Pos(|s.accepted|, s.size)
    ensures Sub32(s.size, Masked(s.outPos, s.size)) == s.size - Pos(|s.returned|, s.size)
  {
    DistanceIsExact(|s.accepted|, |s.returned|);
    SubNoWrap(s.size, |s.accepted| - |s.returned|);
    MaskedIsPos(|s.accepted|, s.size);
    MaskedIsPos(|s.returned|, s.size);
    SubNoWrap(s.size, Pos(|s.accepted|, s.size));
    SubNoWrap(s.size, Pos(|s.returned|, s.size));
  }

  // What a write takes on and a read asks for, in bytes

  /** A write takes on the first min(free, length) bytes of its data, free being what is left
      of the ring when it loads the reader's index. */
  lemma WriteTakes(s: State, data: seq<Byte>)
    requires Inv(s) && Enabled(s, WLoad(data))
    ensures var w, n := Next(s, WLoad(data)).w, Min(s.size - (|s.accepted| - |s.returned|), |data|);
            w.WCopying? && w.bytes == data[..n] && w.done == {}
  {
    IndexValues(s);
  }

  /** A read asks for min(used, len) bytes, used being what is in the ring when it loads the
      writer's index. */
  lemma ReadAsks(s: State, len: U32)
    requires Inv(s) && Enabled(s, RLoad(len))
    ensures var r := Next(s, RLoad(len)).r;
            r.RCopying? && r.n == Min(|s.accepted| - |s.returned|, len) && r.got == map[]
  {
    IndexValues(s);
  }

  // A finished write is accepted as a whole, a finished read hands out all it asked for.
  lemma PublishedWhole(s: State)
    requires Inv(s)
    ensures Enabled(s, WPublish) ==> Next(s, WPublish).accepted == s.accepted + s.w.bytes
    ensures Enabled(s, RPublish) ==>
      Next(s, RPublish).returned == s.accepted[..|s.returned| + s.r.n] && s.r.n <= |s.accepted| - |s.returned|
  {
    if Enabled(s, RPublish) {
      TakenIsNext(s);
    }
  }

  // Neither side ever has to wait for the other.
  lemma BothCanStep(s: State) returns (w: Step, r: Step)
    requires Inv(s)
    ensures Enabled(s, w) && (w.WLoad? || w.WByte? || w.WPublish?)
    ensures Enabled(s, r) && (r.RLoad? || r.RByte? || r.RPublish?)
  {
    if s.w.WIdle? {
      w := WLoad([]);
    } else if Covers(s.w.done, |s.w.bytes|) {
      w := WPublish;
    } else {
      var k: nat :| k < |s.w.bytes| && k !in s.w.done;
      w := WByte(k);
    }
    if s.r.RIdle? {
      r := RLoad(0);
    } else if Covers(s.r.got.Keys, s.r.n) {
      r := RPublish;
    } else {
      var k: nat :| k < s.r.n && k !in s.r.got.Keys;
      r := RByte(k);
    }
  }

  // A copied byte goes to, or comes from, the position of its counter.
  lemma WSlotValue(s: State, k: nat)
    requires Inv(s) && s.w.WCopying? && k < |s.w.bytes|
    ensures WSlot(s, k) == Pos(|s.accepted| + k, s.size)
  {
    IndexValues(s);
    SlotIsPosition(|s.accepted|, s.size, |s.w.bytes|, k);
  }

  lemma RSlotValue(s: State, k: nat)
    requires Inv(s) && s.r.RCopying? && k < s.r.n
    ensures RSlot(s, k) == Pos(|s.returned| + k, s.size)
  {
    IndexValues(s);
    SlotIsPosition(|s.returned|, s.size, s.r.n, k);
  }

  /** The regions being copied never overlap, even with stale snapshots, and lie inside the buffer. */
  lemma RegionsApart(s: State, i: nat, j: nat)
    requires Inv(s) && s.w.WCopying? && i < |s.w.bytes| && s.r.RCopying? && j < s.r.n
    ensures WSlot(s, i) != RSlot(s, j) && WSlot(s, i) < |s.buf| && RSlot(s, j) < |s.buf|
  {
    WSlotValue(s, i);
    RSlotValue(s, j);
    PositionsDiffer(|s.returned| + j, |s.accepted| + i, s.size);
  }

  // Each step keeps the invariant

  // What depends only on the buffer and on the bytes accepted and returned
  lemma StoredFrame(s: State, s': State)
    requires |s.buf| > 0 && Stored(s)
    requires s'.buf == s.buf && s'.accepted == s.accepted && |s.returned| <= |s'.returned|
    ensures Stored(s')
  {
    forall c | |s'.returned| <= c < |s'.accepted| ensures HoldsAt(s', c) {
      assert HoldsAt(s, c);
    }
  }

  // The writer does not mind the reader taking bytes.
  lemma WriterFrame(s: State, s': State)
    requires |s.buf| > 0 && WriterOk(s)
    requires s'.buf == s.buf && s'.accepted == s.accepted && s'.w == s.w && |s.returned| <= |s'.returned|
    ensures WriterOk(s')
  {
    if s.w.WCopying? {
      forall k | k in s'.w.done ensures k < |s'.w.bytes| && PutAt(s', k) {
        assert PutAt(s, k);
      }
    }
  }

  // The reader does not mind bytes being accepted behind those it takes.
  lemma ReaderFrame(s: State, s': State)
    requires |s.buf| > 0 && |s.returned| <= |s.accepted| && ReaderOk(s)
    requires |s'.buf| == |s.buf| && s.accepted <= s'.accepted && s'.returned == s.returned && s'.r == s.r
    ensures ReaderOk(s')
  {
    if s.r.RCopying? {
      forall k | k in s'.r.got ensures k < s'.r.n && GotRight(s', k) {
        assert GotRight(s, k);
      }
    }
  }

  lemma WLoadKeeps(s: State, data: seq<Byte>)
    requires Inv(s) && Enabled(s, WLoad(data))
    ensures Inv(AfterWLoad(s, data))
  {
    IndexValues(s);
    StoredFrame(s, AfterWLoad(s, data));
    ReaderFrame(s, AfterWLoad(s, data));
  }

  lemma RLoadKeeps(s: State, len: U32)
    requires Inv(s) && Enabled(s, RLoad(len))
    ensures Inv(AfterRLoad(s, len))
  {
    IndexValues(s);
    StoredFrame(s, AfterRLoad(s, len));
    WriterFrame(s, AfterRLoad(s, len));
  }

  lemma WByteKeeps(s: State, k: nat)
    requires Inv(s) && Enabled(s, WByte(k))
    ensures Inv(AfterWByte(s, k))
  {
    WSlotValue(s, k);
    WByteSpares(s, k);
    WByteStores(s, k);
    ReaderFrame(s, AfterWByte(s, k));
  }

  // Copying a byte in does not touch what is waiting to be read.
  lemma WByteSpares(s: State, k: nat)
    requires Inv(s) && Enabled(s, WByte(k)) && WSlot(s, k) == Pos(|s.accepted| + k, s.size)
    ensures Stored(AfterWByte(s, k))
  {
    var s', wr := AfterWByte(s, k), |s.accepted|;
    forall c | |s.returned| <= c < wr ensures HoldsAt(s', c) {
      assert HoldsAt(s, c);
      PositionsDiffer(c, wr + k, s.size);
    }
  }

  // Copying a byte in does not touch the bytes copied before it.
  lemma WByteLeaves(s: State, k: nat, i: nat)
    requires Inv(s) && Enabled(s, WByte(k)) && i in s.w.done
    requires WSlot(s, k) == Pos(|s.accepted| + k, s.size)
    ensures PutAt(AfterWByte(s, k), i)
  {
    assert PutAt(s, i);
    PositionsDiffer(|s.accepted| + Min(i, k), |s.accepted| + (if i < k then k else i), s.size);
  }

  lemma WByteStores(s: State, k: nat)
    requires Inv(s) && Enabled(s, WByte(k)) && WSlot(s, k) == Pos(|s.accepted| + k, s.size)
    ensures WriterOk(AfterWByte(s, k))
  {
    var s' := AfterWByte(s, k);
    forall i | i in s'.w.done ensures i < |s'.w.bytes| && PutAt(s', i) {
      if i != k {
        WByteLeaves(s, k, i);
      }
    }
  }

  lemma RByteKeeps(s: State, k: nat)
    requires Inv(s) && Enabled(s, RByte(k))
    ensures Inv(AfterRByte(s, k))
  {
    var s' := AfterRByte(s, k);
    StoredFrame(s, s');
    WriterFrame(s, s');
    RByteGets(s, k);
  }

  lemma RByteGets(s: State, k: nat)
    requires Inv(s) && Enabled(s, RByte(k))
    ensures ReaderOk(AfterRByte(s, k))
  {
    RSlotValue(s, k);
    assert HoldsAt(s, |s.returned| + k);
    var s' := AfterRByte(s, k);
    forall i | i in s'.r.got ensures i < s'.r.n && GotRight(s', i) {
      if i != k {
        assert GotRight(s, i);
      }
    }
  }

  lemma WPublishKeeps(s: State)
    requires Inv(s) && Enabled(s, WPublish)
    ensures Inv(AfterWPublish(s))
  {
    AdvanceIsExact(|s.accepted|, |s.w.bytes|);
    WPublishStores(s);
    ReaderFrame(s, AfterWPublish(s));
  }

  lemma WPublishStores(s: State)
    requires Inv(s) && Enabled(s, WPublish)
    ensures Stored(AfterWPublish(s))
  {
    var s', wr := AfterWPublish(s), |s.accepted|;
    forall c | |s'.returned| <= c < |s'.accepted| ensures HoldsAt(s', c) {
      if c < wr {
        assert HoldsAt(s, c);
      } else {
        assert PutAt(s, c - wr) && wr + (c - wr) == c;
      }
    }
  }

  lemma RPublishKeeps(s: State)
    requires Inv(s) && Enabled(s, RPublish)
    ensures Inv(AfterRPublish(s))
  {
    AdvanceIsExact(|s.returned|, s.r.n);
    TakenIsNext(s);
    StoredFrame(s, AfterRPublish(s));
    WriterFrame(s, AfterRPublish(s));
  }

  // A read hands out the bytes that come next.
  lemma TakenIsNext(s: State)
    requires Inv(s) && Enabled(s, RPublish)
    ensures s.returned + Taken(s.r) == s.accepted[..|s.returned| + s.r.n]
  {
    var rd := |s.returned|;
    forall k | 0 <= k < s.r.n ensures Taken(s.r)[k] == s.accepted[rd + k] {
      assert GotRight(s, k);
    }
    assert s.accepted[..rd + s.r.n] == s.accepted[..rd] + s.accepted[rd..rd + s.r.n];
    assert Taken(s.r) == s.accepted[rd..rd + s.r.n];
  }

  ghost function Next(s: State, e: Step): State
    requires Enabled(s, e)
  {
    match e
    case WLoad(data) => AfterWLoad(s, data)
    case WByte(k) => AfterWByte(s, k)
    case WPublish => AfterWPublish(s)
    case RLoad(len) => AfterRLoad(s, len)
    case RByte(k) => AfterRByte(s, k)
    case RPublish => AfterRPublish(s)
  }

  lemma NextKeeps(s: State, e: Step)
    requires Inv(s) && Enabled(s, e)
    ensures Inv(Next(s, e))
  {
    match e
    case WLoad(data) => WLoadKeeps(s, data);
    case WByte(k) => WByteKeeps(s, k);
    case WPublish => WPublishKeeps(s);
    case RLoad(len) => RLoadKeeps(s, len);
    case RByte(k) => RByteKeeps(s, k);
    case RPublish => RPublishKeeps(s);
  }

  // Runs

  function Boot(size: U32, buf: seq<Byte>): State {
    State(size, buf, 0, 0, WIdle, RIdle, [], [])
  }

  ghost predicate LegalRun(s: State, es: seq<Step>)
    decreases |es|
  {
    es == [] || (Enabled(s, es[0]) && LegalRun(Next(s, es[0]), es[1..]))
  }

  ghost function Exec(s: State, es: seq<Step>): State
    requires LegalRun(s, es)
    decreases |es|
  {
    if es == [] then s else Exec(Next(s, es[0]), es[1..])
  }

  lemma BootInv(size: U32, buf: seq<Byte>)
    requires IsPowerOf2(size) && |buf| == size
    ensures Inv(Boot(size, buf))
  {
  }

  lemma {:induction false} RunKeeps(s: State, es: seq<Step>)
    requires Inv(s) && LegalRun(s, es)
    ensures Inv(Exec(s, es))
    decreases |es|
  {
    if es != [] {
      NextKeeps(s, es[0]);
      RunKeeps(Next(s, es[0]), es[1..]);
    }
  }

  /** In every interleaving, the bytes all reads returned are a prefix of the bytes all
      writes accepted, never more than `size` bytes are outstanding, and what is
      outstanding sits in the buffer in order. */
  lemma FifoAlways(size: U32, buf: seq<Byte>, es: seq<Step>)
    requires IsPowerOf2(size) && |buf| == size && LegalRun(Boot(size, buf), es)
    ensures var s := Exec(Boot(size, buf), es); var rd, wr := |s.returned|, |s.accepted|;
            && s.returned <= s.accepted && wr - rd <= s.size
            && |s.buf| > 0 && Window(s.buf, rd, wr) == s.accepted[rd..]
  {
    BootInv(size, buf);
    RunKeeps(Boot(size, buf), es);
    var s := Exec(Boot(size, buf), es);
    var rd, wr := |s.returned|, |s.accepted|;
    forall i | 0 <= i < wr - rd ensures Window(s.buf, rd, wr)[i] == s.accepted[rd..][i] {
      assert HoldsAt(s, rd + i);
    }
  }

  /** In every interleaving the two copy regions stay apart and inside the buffer. */
  lemma RegionsApartAlways(size: U32, buf: seq<Byte>, es: seq<Step>, i: nat, j: nat)
    requires IsPowerOf2(size) && |buf| == size && LegalRun(Boot(size, buf), es)
    requires var s := Exec(Boot(size, buf), es);
             s.w.WCopying? && i < |s.w.bytes| && s.r.RCopying? && j < s.r.n
    ensures var s := Exec(Boot(size, buf), es);
            WSlot(s, i) != RSlot(s, j) && WSlot(s, i) < |s.buf| && RSlot(s, j) < |s.buf|
  {
    BootInv(size, buf);
    RunKeeps(Boot(size, buf), es);
    RegionsApart(Exec(Boot(size, buf), es), i, j);
  }
}
