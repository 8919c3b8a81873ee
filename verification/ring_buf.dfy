/** `ring_buf_t`: a power-of-two byte ring with free-running 32-bit indices. */
module RingBuf {
  import opened Bits

  type Byte = b: int | 0 <= b < 256

  const FAIL := -2

  /** The position of a counter in a ring of `size` bytes: its remainder.  Defined by
      recursion so that proofs use the lemmas below instead of nonlinear arithmetic. */
  ghost function Pos(c: nat, size: nat): (p: nat)
    requires size > 0
    ensures p < size
  {
    if c < size then c else Pos(c - size, size)
  }

  lemma {:induction false} PosIsRemainder(c: nat, size: nat)
    requires size > 0
    ensures Pos(c, size) == c % size
  {
    if c >= size {
      PosIsRemainder(c - size, size);
      var q := (c - size) / size;
      assert c - size == size * q + (c - size) % size;
      assert size * (q + 1) == size * q + size;
      ModIs(c, size, q + 1, (c - size) % size);
    } else {
      ModIs(c, size, 0, c);
    }
  }

  lemma MaskedIsPos(counter: nat, size: U32)
    requires IsPowerOf2(size)
    ensures Masked(counter % TWO32, size) == Pos(counter, size)
  {
    MaskedIsPosition(counter, size);
    PosIsRemainder(counter, size);
  }

  // Where the k-th byte of a two-piece copy goes that starts at position `start` with a
  // first piece of l bytes
  function Slot(start: nat, l: nat, k: nat): nat {
    if k < l then start + k else k - l
  }

  /** The two pieces follow the ring: byte k lands at the position of counter at + k. */
  lemma {:induction false} SlotIsPosition(at: nat, size: nat, n: nat, k: nat)
    requires size > 0 && k < n <= size
    ensures var start := Pos(at, size); var l := Min(n, size - start);
            Slot(start, l, k) == Pos(at + k, size)
    decreases at
  {
    if at >= size {
      SlotIsPosition(at - size, size, n, k);
      assert at + k - size == at - size + k;
    }
  }

  // Counters less than `size` apart have different positions.
  lemma {:induction false} PositionsDiffer(a: nat, b: nat, size: nat)
    requires a < b < a + size
    ensures Pos(a, size) != Pos(b, size)
    decreases a
  {
    if a >= size {
      PositionsDiffer(a - size, b - size, size);
    } else if b >= size {
      assert Pos(b, size) == Pos(b - size, size) == b - size;
    }
  }

  // The bytes between counters rd and wr
  ghost function Window(buf: seq<Byte>, rd: nat, wr: nat): (w: seq<Byte>)
    requires rd <= wr && (rd < wr ==> |buf| > 0)
    ensures |w| == wr - rd
  {
    seq(wr - rd, i requires 0 <= i < wr - rd => buf[Pos(rd + i, |buf|)])
  }

  // memcpy into an array
  method CopyIn(dst: array<Byte>, at: nat, src: seq<Byte>)
    requires at + |src| <= dst.Length
    modifies dst
    ensures forall p :: 0 <= p < dst.Length ==>
      dst[p] == if at <= p < at + |src| then src[p - at] else old(dst[p])
  {
    var i := 0;
    while i < |src|
      invariant i <= |src|
      invariant forall p :: 0 <= p < dst.Length ==>
        dst[p] == if at <= p < at + i then src[p - at] else old(dst[p])
    {
      dst[at + i] := src[i];
      i := i + 1;
    }
  }

  // buf holds `bytes` from counter `at` on.
  ghost predicate HoldsBytes(buf: seq<Byte>, at: nat, bytes: seq<Byte>)
    requires |buf| > 0
  {
    forall k :: 0 <= k < |bytes| ==> buf[Pos(at + k, |buf|)] == bytes[k]
  }

  // buf and old_ agree on the counters from rd up to wr.
  ghost predicate Agree(old_: seq<Byte>, buf: seq<Byte>, rd: nat, wr: nat)
    requires |buf| == |old_| > 0
  {
    forall c :: rd <= c < wr ==> buf[Pos(c, |buf|)] == old_[Pos(c, |buf|)]
  }

  lemma WindowAppends(old_: seq<Byte>, buf: seq<Byte>, rd: nat, wr: nat, bytes: seq<Byte>)
    requires |buf| == |old_| > 0 && rd <= wr
    requires HoldsBytes(buf, wr, bytes) && Agree(old_, buf, rd, wr)
    ensures Window(buf, rd, wr + |bytes|) == Window(old_, rd, wr) + bytes
  {
    var w := Window(buf, rd, wr + |bytes|);
    forall i | 0 <= i < |w| ensures w[i] == (Window(old_, rd, wr) + bytes)[i] {
      if i >= wr - rd {
        assert rd + i == wr + (i - (wr - rd));
      }
    }
  }

  /** What a two-piece copy of `bytes` to start and 0 does to the ring. */
  ghost predicate TwoPieces(old_: seq<Byte>, buf: seq<Byte>, start: nat, l: nat, bytes: seq<Byte>) {
    && |buf| == |old_| && l <= |bytes| && start + l <= |buf|
    && forall p :: 0 <= p < |buf| ==>
         buf[p] == if p < |bytes| - l then bytes[p + l]
                   else if start <= p < start + l then bytes[p - start] else old_[p]
  }

  lemma TwoPiecesHold(old_: seq<Byte>, buf: seq<Byte>, at: nat, l: nat, bytes: seq<Byte>)
    requires 0 < |buf| && |bytes| <= |buf| && l == Min(|bytes|, |buf| - Pos(at, |buf|))
    requires TwoPieces(old_, buf, Pos(at, |buf|), l, bytes)
    ensures HoldsBytes(buf, at, bytes)
  {
    forall k | 0 <= k < |bytes| ensures buf[Pos(at + k, |buf|)] == bytes[k] {
      SlotIsPosition(at, |buf|, |bytes|, k);
    }
  }

  lemma TwoPiecesSpare(old_: seq<Byte>, buf: seq<Byte>, rd: nat, at: nat, l: nat, bytes: seq<Byte>)
    requires 0 < |buf| && rd <= at && at - rd + |bytes| <= |buf| && l == Min(|bytes|, |buf| - Pos(at, |buf|))
    requires TwoPieces(old_, buf, Pos(at, |buf|), l, bytes)
    ensures Agree(old_, buf, rd, at)
  {
    var start, size := Pos(at, |buf|), |buf|;
    forall c | rd <= c < at ensures buf[Pos(c, size)] == old_[Pos(c, size)] {
      var p := Pos(c, size);
      if p < |bytes| - l {
        SlotIsPosition(at, size, |bytes|, p + l);
        PositionsDiffer(c, at + (p + l), size);
      } else if start <= p < start + l {
        SlotIsPosition(at, size, |bytes|, p - start);
        PositionsDiffer(c, at + (p - start), size);
      }
    }
  }

  class Ring {
    var buffer: array<Byte>
    var size: U32
    var inPos: U32
    var outPos: U32

    // Bytes ever written and ever read
    ghost var wr: nat
    ghost var rd: nat

    ghost predicate Valid()
      reads this, buffer
    {
      && (size == 0 || IsPowerOf2(size)) && buffer.Length == size
      && rd <= wr <= rd + size
      && (size == 0 ==> wr == 0)
      && inPos == wr % TWO32 && outPos == rd % TWO32
    }

    ghost function Contents(): (c: seq<Byte>)
      requires Valid()
      reads this, buffer
      ensures |c| == wr - rd
    {
      Window(buffer[..], rd, wr)
    }

    constructor ()
      ensures Valid() && size == 0 && Contents() == [] && fresh(buffer)
    {
      buffer := new Byte[0];
      size, inPos, outPos := 0, 0, 0;
      wr, rd := 0, 0;
    }

    /** create: succeeds exactly for powers of two, and a failure changes nothing.  realloc
        keeps the front of an old buffer and the indices are not reset: the contents survive
        when there are none, as on a fresh object, or when the size stays the same. */
    method Create(len: U32) returns (r: int)
      requires Valid()
      modifies this`buffer, this`size
      ensures r == 0 <==> exists k: nat :: len == Pow2(k)
      ensures r != 0 ==> r == FAIL == -2 && size == old(size) && buffer == old(buffer) && Valid()
      ensures r == 0 ==> size == len == buffer.Length && fresh(buffer)
      ensures r == 0 ==> buffer[..Min(len, old(size))] == old(buffer[..])[..Min(len, old(size))]
      ensures r != 0 || old(Contents()) == [] || len == old(size) ==> Valid() && Contents() == old(Contents())
    {
      PowerTestIsExact(len);
      if !IsPowerOf2(len) {
        return FAIL;
      }
      var grown := new Byte[len](_ => 0);
      var kept := buffer[..Min(len, size)];
      CopyIn(grown, 0, kept);
      assert grown[..|kept|] == kept;
      assert len == size ==> grown[..] == buffer[..];
      buffer, size := grown, len;
      return 0;
    }

    lemma IndexFacts()
      requires Valid()
      ensures Sub32(inPos, outPos) == wr - rd && Sub32(size, Sub32(inPos, outPos)) == size - (wr - rd)
      ensures size > 0 ==> Masked(inPos, size) == Pos(wr, size) && Masked(outPos, size) == Pos(rd, size)
      ensures size == 0 ==> Masked(inPos, size) == 0 && Masked(outPos, size) == 0
    {
      DistanceIsExact(wr, rd);
      if size > 0 {
        MaskedIsPos(wr, size);
        MaskedIsPos(rd, size);
      }
    }

    // The two memcpy calls of write
    method CopyPieces(start: nat, l: nat, bytes: seq<Byte>)
      requires l <= |bytes| && start + l <= buffer.Length && |bytes| - l <= buffer.Length
      modifies buffer
      ensures TwoPieces(old(buffer[..]), buffer[..], start, l, bytes)
    {
      CopyIn(buffer, start, bytes[..l]);
      CopyIn(buffer, 0, bytes[l..]);
    }

    static lemma PiecesAppend(before: seq<Byte>, buf: seq<Byte>, rd: nat, at: nat, bytes: seq<Byte>)
      requires 0 < |buf| && rd <= at && at - rd + |bytes| <= |buf|
      requires var start := Pos(at, |buf|);
               TwoPieces(before, buf, start, Min(|bytes|, |buf| - start), bytes)
      ensures Window(buf, rd, at + |bytes|) == Window(before, rd, at) + bytes
    {
      var l := Min(|bytes|, |buf| - Pos(at, |buf|));
      TwoPiecesHold(before, buf, at, l, bytes);
      TwoPiecesSpare(before, buf, rd, at, l, bytes);
      WindowAppends(before, buf, rd, at, bytes);
    }

    // How much write copies, to where, and in which first piece
    method PlanWrite(len: U32) returns (n: U32, start: nat, l: nat)
      requires Valid()
      ensures n == Min(size - (wr - rd), len)
      ensures if size == 0 then start == l == 0 else start == Pos(wr, size) && l == Min(n, size - start)
    {
      IndexFacts();
      n := Min(Sub32(size, Sub32(inPos, outPos)), len);
      start := Masked(inPos, size);
      SubNoWrap(size, start);
      l := Min(n, Sub32(size, start));
    }

    // in += n
    method Publish(n: U32)
      requires Valid() && wr + n <= rd + size
      modifies this`inPos, this`wr
      ensures Valid() && wr == old(wr) + n
    {
      AdvanceIsExact(wr, n);
      inPos := Add32(inPos, n);
      wr := wr + n;
    }

    /** write: appends the first min(free, len) bytes, whatever the indices have wrapped to. */
    method Write(data: seq<Byte>, len: U32) returns (n: U32)
      requires Valid() && len <= |data|
      modifies this`inPos, this`wr, buffer
      ensures Valid()
      ensures n == Min(size - |old(Contents())|, len)
      ensures Contents() == old(Contents()) + data[..n]
    {
      var start, l;
      n, start, l := PlanWrite(len);
      ghost var before, at := buffer[..], wr;
      CopyPieces(start, l, data[..n]);
      if size > 0 {
        PiecesAppend(before, buffer[..], rd, at, data[..n]);
      }
      Publish(n);
    }

    lemma ReadPieces(data: seq<Byte>, n: nat)
      requires Valid() && n <= wr - rd && n <= |data| && size > 0
      requires var start := Pos(rd, size); var l := Min(n, size - start);
               data[..n] == buffer[start..start + l] + buffer[..n - l]
      ensures data[..n] == Contents()[..n]
    {
      var start := Pos(rd, size);
      var l := Min(n, size - start);
      forall k | 0 <= k < n ensures data[..n][k] == Contents()[k] {
        SlotIsPosition(rd, size, n, k);
      }
    }

    lemma WindowDrops(n: nat)
      requires Valid() && n <= wr - rd
      ensures Window(buffer[..], rd + n, wr) == Contents()[n..]
    {
      var w := Window(buffer[..], rd + n, wr);
      forall i | 0 <= i < |w| ensures w[i] == Contents()[n..][i] {
        assert rd + n + i == rd + (n + i);
      }
    }

    // The two memcpy calls of read
    method CopyOut(data: array<Byte>, start: nat, l: nat, n: nat)
      requires l <= n <= data.Length && start + l <= buffer.Length && n - l <= buffer.Length && data != buffer
      modifies data
      ensures data[..n] == buffer[start..start + l] + buffer[..n - l]
      ensures data[n..] == old(data[n..])
    {
      CopyIn(data, 0, buffer[start..start + l]);
      CopyIn(data, l, buffer[..n - l]);
    }

    // How much read copies, from where, and in which first piece
    method PlanRead(len: U32) returns (n: U32, start: nat, l: nat)
      requires Valid()
      ensures n == Min(wr - rd, len)
      ensures if size == 0 then start == l == 0 else start == Pos(rd, size) && l == Min(n, size - start)
    {
      IndexFacts();
      n := Min(Sub32(inPos, outPos), len);
      start := Masked(outPos, size);
      SubNoWrap(size, start);
      l := Min(n, Sub32(size, start));
    }

    // out += n
    method Consume(n: U32)
      requires Valid() && rd + n <= wr
      modifies this`outPos, this`rd
      ensures Valid() && rd == old(rd) + n && Contents() == old(Contents())[n..]
    {
      WindowDrops(n);
      AdvanceIsExact(rd, n);
      outPos := Add32(outPos, n);
      rd := rd + n;
    }

    /** read: removes the first min(used, len) bytes and copies them to the front of data. */
    method Read(data: array<Byte>, len: U32) returns (n: U32)
      requires Valid() && len <= data.Length && data != buffer
      modifies this`outPos, this`rd, data
      ensures Valid()
      ensures n == Min(|old(Contents())|, len)
      ensures data[..n] == old(Contents())[..n] && Contents() == old(Contents())[n..]
      ensures data[n..] == old(data[n..])
    {
      var start, l;
      n, start, l := PlanRead(len);
      CopyOut(data, start, l, n);
      if size > 0 {
        ReadPieces(data[..], n);
      }
      Consume(n);
    }
  }
}
