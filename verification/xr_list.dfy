/** The intrusive circular doubly linked list.  A list is described by its ring: the
    sequence of nodes met when following `next` once round, starting anywhere. */
module XrList {

  /** `host` stands for the address arithmetic of `list_entry`: the object in which the
      node is embedded, or null for a list head.  No list operation touches it. */
  class ListHead {
    var next: ListHead?
    var prev: ListHead?
    var host: object?

    // INIT_LIST_HEAD
    constructor ()
      ensures Ring([this]) && host == null
    {
      next := this;
      prev := this;
      host := null;
    }
  }

  ghost function Nodes(r: seq<ListHead>): set<ListHead> {
    set x | x in r
  }

  function Succ(i: nat, n: nat): nat
    requires i < n
  {
    if i + 1 < n then i + 1 else 0
  }

  function Pred(i: nat, n: nat): nat
    requires i < n
  {
    if i == 0 then n - 1 else i - 1
  }

  // Nodes of r are distinct, and next and prev step forwards and backwards round r.
  ghost predicate Ring(r: seq<ListHead>)
    reads Nodes(r)`next, Nodes(r)`prev
    ensures Ring(r) ==> forall x {:trigger x.next} {:trigger x.prev} :: x in r ==>
      x.next != null && x.prev != null && x.next in Nodes(r) && x.prev in Nodes(r)
  {
    && r != []
    && (forall i, j :: 0 <= i < j < |r| ==> r[i] != r[j])
    && (forall i {:trigger r[i].next} :: 0 <= i < |r| ==> r[i].next == r[Succ(i, |r|)])
    && (forall i {:trigger r[i].prev} :: 0 <= i < |r| ==> r[i].prev == r[Pred(i, |r|)])
  }

  // A ring whose nodes keep their links is still a ring.
  twostate lemma RingFrame(r: seq<ListHead>)
    requires old(Ring(r))
    requires forall x :: x in r ==> x.next == old(x.next) && x.prev == old(x.prev)
    ensures Ring(r)
  {
  }

  lemma Rotate(r: seq<ListHead>, k: nat)
    requires Ring(r) && k < |r|
    ensures Ring(r[k..] + r[..k])
  {
    var q := r[k..] + r[..k];
    var n := |r|;
    forall i, j | 0 <= i < j < n ensures q[i] != q[j] {
      var i' := if i < n - k then i + k else i + k - n;
      var j' := if j < n - k then j + k else j + k - n;
      assert q[i] == r[i'] && q[j] == r[j'] && i' != j';
    }
    forall i | 0 <= i < n
      ensures q[i].next == q[Succ(i, n)] && q[i].prev == q[Pred(i, n)]
    {
      var i' := if i < n - k then i + k else i + k - n;
      assert q[i] == r[i'];
    }
  }

  // Links as after inserting entry between the last node of r and its first
  lemma RingSnoc(r: seq<ListHead>, entry: ListHead)
    requires r != [] && entry !in r && forall i, j :: 0 <= i < j < |r| ==> r[i] != r[j]
    requires forall i {:trigger r[i].next} :: 0 <= i < |r| - 1 ==> r[i].next == r[i + 1]
    requires forall i {:trigger r[i].prev} :: 0 < i < |r| ==> r[i].prev == r[i - 1]
    requires r[|r| - 1].next == entry && entry.next == r[0]
    requires r[0].prev == entry && entry.prev == r[|r| - 1]
    ensures Ring(r + [entry])
  {
    assert forall i :: 0 <= i < |r| ==> (r + [entry])[i] == r[i];
  }

  // __list_add: insert between the last node of r and its first
  method ListAddBetween(entry: ListHead, prev: ListHead, next: ListHead, ghost r: seq<ListHead>)
    requires Ring(r) && entry !in r
    requires prev == r[|r| - 1] && next == r[0]
    modifies entry`next, entry`prev, prev`next, next`prev
    ensures Ring(r + [entry])
  {
    next.prev := entry;
    entry.next := next;
    entry.prev := prev;
    prev.next := entry;
    RingSnoc(r, entry);
  }

  lemma HeadLast(head: ListHead, xs: seq<ListHead>)
    requires Ring([head] + xs)
    ensures Ring(xs + [head]) && head.next == (xs + [head])[0]
  {
    var r := [head] + xs;
    var s := Succ(0, |r|);
    Rotate(r, s);
    assert r[0].next == r[s];
    assert r[s..] + r[..s] == xs + [head];
  }

  lemma LastTwoFirst(xs: seq<ListHead>, head: ListHead, entry: ListHead)
    requires Ring(xs + [head] + [entry])
    ensures Ring([head, entry] + xs)
  {
    var q := xs + [head] + [entry];
    Rotate(q, |xs|);
    assert q[|xs|..] + q[..|xs|] == [head, entry] + xs;
  }

  // list_add
  method ListAdd(entry: ListHead, head: ListHead, ghost xs: seq<ListHead>)
    requires Ring([head] + xs) && entry !in [head] + xs
    modifies entry`next, entry`prev, head`next, head.next`prev
    ensures Ring([head, entry] + xs)
  {
    HeadLast(head, xs);
    ListAddBetween(entry, head, head.next, xs + [head]);
    LastTwoFirst(xs, head, entry);
  }

  // list_add_tail
  method ListAddTail(entry: ListHead, head: ListHead, ghost xs: seq<ListHead>)
    requires Ring([head] + xs) && entry !in [head] + xs
    modifies entry`next, entry`prev, head`prev, head.prev`next
    ensures Ring([head] + xs + [entry])
  {
    ghost var r := [head] + xs;
    assert r[0].prev == r[Pred(0, |r|)];
    ListAddBetween(entry, head.prev, head, r);
  }

  // The ring without its k-th node
  ghost function Cut<T>(r: seq<T>, k: nat): seq<T>
    requires k < |r|
  {
    r[..k] + r[k + 1..]
  }

  // Consecutive nodes of p point at each other.
  ghost predicate Chain(p: seq<ListHead>)
    reads Nodes(p)`next, Nodes(p)`prev
  {
    && (forall i {:trigger p[i].next} :: 0 <= i < |p| - 1 ==> p[i].next == p[i + 1])
    && (forall i {:trigger p[i].prev} :: 0 < i < |p| ==> p[i].prev == p[i - 1])
  }

  ghost predicate Joined(a: ListHead, b: ListHead)
    reads a`next, b`prev
  {
    a.next == b && b.prev == a
  }

  // The ring without its last node, as a chain
  lemma RingInner(q: seq<ListHead>, entry: ListHead)
    requires q != [] && Ring(q + [entry])
    ensures Chain(q) && entry.prev == q[|q| - 1] && entry.next == q[0]
    ensures forall i, j :: 0 <= i < j < |q| ==> q[i] != q[j]
  {
    var r := q + [entry];
    assert forall i :: 0 <= i < |q| ==> r[i] == q[i];
    assert r[|q|].prev == r[Pred(|q|, |r|)] && r[|q|].next == r[Succ(|q|, |r|)];
  }

  // Links as after the bypass: q's last node and first node now point at each other.
  lemma RingClosed(q: seq<ListHead>)
    requires q != [] && forall i, j :: 0 <= i < j < |q| ==> q[i] != q[j]
    requires forall i {:trigger q[i].next} :: 0 <= i < |q| - 1 ==> q[i].next == q[i + 1]
    requires forall i {:trigger q[i].prev} :: 0 < i < |q| ==> q[i].prev == q[i - 1]
    requires q[|q| - 1].next == q[0] && q[0].prev == q[|q| - 1]
    ensures Ring(q)
  {
  }

  // __list_del, with the bypassed entry last in the ring; an entry alone in its ring keeps its links
  method Bypass(prev: ListHead, next: ListHead, ghost q: seq<ListHead>, ghost entry: ListHead)
    requires Ring(q + [entry])
    requires prev == entry.prev && next == entry.next
    modifies prev`next, next`prev
    ensures if q == [] then Ring([entry]) else Ring(q)
  {
    if q == [] {
      assert [entry][0].prev == [entry][Pred(0, 1)] && [entry][0].next == [entry][Succ(0, 1)];
    } else {
      RingInner(q, entry);
    }
    next.prev := prev;
    prev.next := next;
    RingClosed(if q == [] then [entry] else q);
  }

  // The ring behind and before the k-th node of r
  ghost function Around(r: seq<ListHead>, k: nat): seq<ListHead>
    requires k < |r|
  {
    r[k + 1..] + r[..k]
  }

  lemma BringLast(r: seq<ListHead>, k: nat)
    requires Ring(r) && k < |r|
    ensures Ring(Around(r, k) + [r[k]])
  {
    Rotate(r, Succ(k, |r|));
    var s := Succ(k, |r|);
    assert Around(r, k) + [r[k]] == r[s..] + r[..s];
  }

  lemma RingOfCut(r: seq<ListHead>, k: nat)
    requires k < |r| && |r| > 1 && Ring(Around(r, k))
    ensures Ring(Cut(r, k))
  {
    var q := Around(r, k);
    if k == 0 {
      assert q == Cut(r, k);
    } else {
      Rotate(q, |r| - 1 - k);
      assert q[|r| - 1 - k..] + q[..|r| - 1 - k] == Cut(r, k);
    }
  }

  lemma CutLacks<T>(r: seq<T>, k: nat)
    requires k < |r| && forall i, j :: 0 <= i < j < |r| ==> r[i] != r[j]
    ensures r[k] !in Cut(r, k) && r[k] in r
  {
  }

  // __list_del on the k-th node of any ring
  method UnlinkAt(prev: ListHead, next: ListHead, ghost r: seq<ListHead>, ghost k: nat)
    requires Ring(r) && k < |r|
    requires prev == r[k].prev && next == r[k].next
    modifies prev`next, next`prev
    ensures if |r| > 1 then Ring(Cut(r, k)) else Ring(r)
    ensures r[k] !in Cut(r, k)
  {
    BringLast(r, k);
    CutLacks(r, k);
    Bypass(prev, next, Around(r, k), r[k]);
    if |r| > 1 { RingOfCut(r, k); }
  }

  // list_del
  method ListDel(entry: ListHead, ghost r: seq<ListHead>, ghost k: nat)
    requires Ring(r) && k < |r| && r[k] == entry
    modifies entry`next, entry`prev, entry.prev`next, entry.next`prev
    ensures |r| > 1 ==> Ring(Cut(r, k))
    ensures entry.next == null && entry.prev == null
  {
    CutLacks(r, k);
    UnlinkAt(entry.prev, entry.next, r, k);
    entry.next := null;
    entry.prev := null;
  }

  // list_del_init
  method ListDelInit(entry: ListHead, ghost r: seq<ListHead>, ghost k: nat)
    requires Ring(r) && k < |r| && r[k] == entry
    modifies entry`next, entry`prev, entry.prev`next, entry.next`prev
    ensures |r| > 1 ==> Ring(Cut(r, k))
    ensures Ring([entry])
  {
    CutLacks(r, k);
    UnlinkAt(entry.prev, entry.next, r, k);
    entry.next := entry;
    entry.prev := entry;
  }

  /** The two situations list_move meets: head's list [head] + xs is the ring r that entry
      leaves, or has no node in common with it. */
  ghost predicate SameOrApart(r: seq<ListHead>, head: ListHead, xs: seq<ListHead>) {
    [head] + xs == r || Nodes([head] + xs) !! Nodes(r)
  }

  // What is left behind head once the k-th node of r is unlinked
  ghost function Behind(r: seq<ListHead>, k: nat, head: ListHead, xs: seq<ListHead>): seq<ListHead>
    requires k < |r|
  {
    if [head] + xs == r && k > 0 then Cut(xs, k - 1) else xs
  }

  lemma CutTail(head: ListHead, xs: seq<ListHead>, k: nat)
    requires 0 < k <= |xs|
    ensures Cut([head] + xs, k) == [head] + Cut(xs, k - 1)
  {
    var r := [head] + xs;
    assert r[..k] == [head] + xs[..k - 1];
    assert r[k + 1..] == xs[k..];
  }

  // __list_del as the first half of a move
  method Leave(entry: ListHead, head: ListHead, ghost r: seq<ListHead>, ghost k: nat, ghost xs: seq<ListHead>)
    requires Ring(r) && k < |r| && r[k] == entry && entry != head
    requires Ring([head] + xs) && SameOrApart(r, head, xs)
    modifies entry.prev`next, entry.next`prev
    ensures Ring([head] + Behind(r, k, head, xs)) && entry !in [head] + Behind(r, k, head, xs)
    ensures |r| > 1 ==> Ring(Cut(r, k))
  {
    ghost var q := [head] + xs;
    assert entry in Nodes(r);
    assert entry.prev in Nodes(r) && entry.next in Nodes(r);
    UnlinkAt(entry.prev, entry.next, r, k);
    if q == r {
      CutTail(head, xs, k);
    } else {
      assert entry !in Nodes(q);
      RingFrame(q);
    }
  }

  // What a move leaves behind head, and the ring the entry came from, keep clear of each other.
  lemma BehindApart(r: seq<ListHead>, k: nat, head: ListHead, xs: seq<ListHead>)
    requires Ring(r) && k < |r| && r[k] != head && SameOrApart(r, head, xs)
    ensures Nodes([head] + Behind(r, k, head, xs)) <= Nodes([head] + xs)
    ensures [head] + xs != r ==> Nodes(Cut(r, k)) !! Nodes([head] + Behind(r, k, head, xs))
    ensures r[k] !in Cut(r, k)
  {
    CutLacks(r, k);
    assert Nodes(Cut(r, k)) <= Nodes(r);
    if [head] + xs == r && k > 0 {
      CutTail(head, xs, k);
    }
  }

  // list_move
  method ListMove(entry: ListHead, head: ListHead, ghost r: seq<ListHead>, ghost k: nat, ghost xs: seq<ListHead>)
    requires Ring(r) && k < |r| && r[k] == entry && entry != head
    requires Ring([head] + xs) && SameOrApart(r, head, xs)
    modifies Nodes(r)`next, Nodes(r)`prev, Nodes([head] + xs)`next, Nodes([head] + xs)`prev
    ensures Ring([head, entry] + Behind(r, k, head, xs))
    ensures [head] + xs != r && |r| > 1 ==> Ring(Cut(r, k))
  {
    assert entry in Nodes(r) && head in Nodes([head] + xs);
    BehindApart(r, k, head, xs);
    Leave(entry, head, r, k, xs);
    ghost var ys := Behind(r, k, head, xs);
    assert head in Nodes([head] + ys) && head.next in Nodes([head] + ys);
    ListAdd(entry, head, ys);
  }

  // list_move_tail
  method ListMoveTail(entry: ListHead, head: ListHead, ghost r: seq<ListHead>, ghost k: nat, ghost xs: seq<ListHead>)
    requires Ring(r) && k < |r| && r[k] == entry && entry != head
    requires Ring([head] + xs) && SameOrApart(r, head, xs)
    modifies Nodes(r)`next, Nodes(r)`prev, Nodes([head] + xs)`next, Nodes([head] + xs)`prev
    ensures Ring([head] + Behind(r, k, head, xs) + [entry])
    ensures [head] + xs != r && |r| > 1 ==> Ring(Cut(r, k))
  {
    assert entry in Nodes(r) && head in Nodes([head] + xs);
    BehindApart(r, k, head, xs);
    Leave(entry, head, r, k, xs);
    ghost var ys := Behind(r, k, head, xs);
    assert head in Nodes([head] + ys) && head.prev in Nodes([head] + ys);
    ListAddTail(entry, head, ys);
  }

  lemma RingChain(head: ListHead, xs: seq<ListHead>)
    requires xs != [] && Ring([head] + xs)
    ensures Chain(xs) && Joined(head, xs[0]) && Joined(xs[|xs| - 1], head)
  {
    HeadLast(head, xs);
    RingInner(xs, head);
    RingEnds(xs, head);
  }

  lemma RingEnds(q: seq<ListHead>, entry: ListHead)
    requires q != [] && Ring(q + [entry])
    ensures q[|q| - 1].next == entry && q[0].prev == entry
  {
    var r := q + [entry];
    assert r[|q| - 1].next == r[Succ(|q| - 1, |r|)] && r[0].prev == r[Pred(0, |r|)];
  }

  lemma ChainConcat(a: seq<ListHead>, b: seq<ListHead>)
    requires a != [] && b != [] && Chain(a) && Chain(b) && Joined(a[|a| - 1], b[0])
    ensures Chain(a + b)
  {
    var p := a + b;
    forall i | 0 <= i < |p| - 1 ensures p[i].next == p[i + 1] && p[i + 1].prev == p[i] {
      if i >= |a| {
        assert b[i - |a|].next == b[i - |a| + 1] && b[i - |a| + 1].prev == b[i - |a|];
      } else if i < |a| - 1 {
        assert a[i].next == a[i + 1] && a[i + 1].prev == a[i];
      }
    }
  }

  lemma DistinctConcat(a: seq<ListHead>, b: seq<ListHead>)
    requires forall i, j :: 0 <= i < j < |a| ==> a[i] != a[j]
    requires forall i, j :: 0 <= i < j < |b| ==> b[i] != b[j]
    requires Nodes(a) !! Nodes(b)
    ensures forall i, j :: 0 <= i < j < |a + b| ==> (a + b)[i] != (a + b)[j]
  {
    forall i, j | 0 <= i < j < |a + b| ensures (a + b)[i] != (a + b)[j] {
      if i < |a| <= j {
        assert (a + b)[i] in Nodes(a) && (a + b)[j] in Nodes(b);
      }
    }
  }

  // What __list_splice needs to know about its two lists
  ghost predicate SpliceReady(list: ListHead, head: ListHead, xs: seq<ListHead>, ys: seq<ListHead>)
    reads list, head, Nodes(xs)`next, Nodes(xs)`prev, Nodes(ys)`next, Nodes(ys)`prev
  {
    && xs != [] && list !in xs && list !in ys && list != head && head !in xs && head !in ys
    && Nodes(xs) !! Nodes(ys)
    && (forall i, j :: 0 <= i < j < |xs| ==> xs[i] != xs[j])
    && (forall i, j :: 0 <= i < j < |ys| ==> ys[i] != ys[j])
    && Chain(xs) && Chain(ys)
    && list.next == xs[0] && list.prev == xs[|xs| - 1]
    && head.next == (if ys == [] then head else ys[0])
    && (ys != [] ==> Joined(ys[|ys| - 1], head))
  }

  // The four writes of __list_splice
  method SpliceLinks(list: ListHead, head: ListHead, ghost xs: seq<ListHead>, ghost ys: seq<ListHead>)
    requires SpliceReady(list, head, xs, ys)
    modifies list.next`prev, head`next, list.prev`next, head.next`prev
    ensures Chain(xs) && Joined(head, xs[0])
    ensures Chain(ys) && (ys != [] ==> Joined(ys[|ys| - 1], head))
    ensures Joined(xs[|xs| - 1], if ys == [] then head else ys[0])
    ensures list.next == old(list.next) && list.prev == old(list.prev)
  {
    var first := list.next;
    var last := list.prev;
    var at := head.next;
    first.prev := head;
    head.next := first;
    last.next := at;
    at.prev := last;
    assert forall i :: 0 <= i < |xs| ==> xs[i] in Nodes(xs);
    assert forall i :: 0 <= i < |ys| ==> ys[i] in Nodes(ys);
  }

  lemma SpliceIsReady(list: ListHead, xs: seq<ListHead>, head: ListHead, ys: seq<ListHead>)
    requires xs != [] && Ring([list] + xs) && Ring([head] + ys)
    requires Nodes([list] + xs) !! Nodes([head] + ys)
    ensures SpliceReady(list, head, xs, ys)
    ensures var p := [head] + xs + ys; forall i, j :: 0 <= i < j < |p| ==> p[i] != p[j]
  {
    SpliceApart(list, xs, head, ys);
    SpliceDistinct(head, xs, ys);
    HeadLinks(list, xs);
    HeadLinks(head, ys);
  }

  // Where a head points, and the chain behind it
  lemma HeadLinks(head: ListHead, ys: seq<ListHead>)
    requires Ring([head] + ys)
    ensures Chain(ys) && head.next == (if ys == [] then head else ys[0])
    ensures ys != [] ==> ys[0].prev == head && ys[|ys| - 1].next == head
    ensures head.prev == if ys == [] then head else ys[|ys| - 1]
  {
    if ys == [] {
      assert [head][0].next == [head][Succ(0, 1)] && [head][0].prev == [head][Pred(0, 1)];
    } else {
      RingChain(head, ys);
    }
  }

  lemma SpliceRing(head: ListHead, xs: seq<ListHead>, ys: seq<ListHead>)
    requires xs != [] && Chain(xs) && Chain(ys) && Joined(head, xs[0])
    requires ys == [] ==> Joined(xs[|xs| - 1], head)
    requires ys != [] ==> Joined(xs[|xs| - 1], ys[0]) && Joined(ys[|ys| - 1], head)
    requires var p := [head] + xs + ys; forall i, j :: 0 <= i < j < |p| ==> p[i] != p[j]
    ensures Ring([head] + xs + ys)
  {
    ChainConcat([head], xs);
    if ys != [] {
      ChainConcat([head] + xs, ys);
    } else {
      assert [head] + xs + ys == [head] + xs;
    }
    RingClosed([head] + xs + ys);
  }

  lemma RingParts(head: ListHead, xs: seq<ListHead>)
    requires Ring([head] + xs)
    ensures head !in xs && Nodes([head] + xs) == {head} + Nodes(xs)
    ensures forall i, j :: 0 <= i < j < |xs| ==> xs[i] != xs[j]
  {
    var r := [head] + xs;
    assert r[0] == head;
    assert forall i :: 0 <= i < |xs| ==> xs[i] == r[i + 1];
  }

  lemma SpliceApart(list: ListHead, xs: seq<ListHead>, head: ListHead, ys: seq<ListHead>)
    requires Ring([list] + xs) && Ring([head] + ys)
    requires Nodes([list] + xs) !! Nodes([head] + ys)
    ensures list !in xs && head !in ys && list != head && list !in ys && head !in xs && Nodes(xs) !! Nodes(ys)
    ensures forall i, j :: 0 <= i < j < |xs| ==> xs[i] != xs[j]
    ensures forall i, j :: 0 <= i < j < |ys| ==> ys[i] != ys[j]
  {
    RingParts(list, xs);
    RingParts(head, ys);
    var a, b := Nodes([list] + xs), Nodes([head] + ys);
    assert list in a && head in b && Nodes(xs) <= a && Nodes(ys) <= b;
    assert forall y :: y in ys ==> y in b;
    assert forall x :: x in xs ==> x in a;
  }

  lemma SpliceDistinct(head: ListHead, xs: seq<ListHead>, ys: seq<ListHead>)
    requires head !in xs && head !in ys && Nodes(xs) !! Nodes(ys)
    requires forall i, j :: 0 <= i < j < |xs| ==> xs[i] != xs[j]
    requires forall i, j :: 0 <= i < j < |ys| ==> ys[i] != ys[j]
    ensures var p := [head] + xs + ys; forall i, j :: 0 <= i < j < |p| ==> p[i] != p[j]
  {
    DistinctConcat(xs, ys);
    assert [head] + xs + ys == [head] + (xs + ys);
    DistinctConcat([head], xs + ys);
  }

  // __list_splice
  method Splice(list: ListHead, head: ListHead, ghost xs: seq<ListHead>, ghost ys: seq<ListHead>)
    requires xs != [] && Ring([list] + xs) && Ring([head] + ys)
    requires Nodes([list] + xs) !! Nodes([head] + ys)
    modifies list.next`prev, head`next, list.prev`next, head.next`prev
    ensures Ring([head] + xs + ys) && list !in [head] + xs + ys
    ensures list.next == old(list.next) && list.prev == old(list.prev)
  {
    SpliceIsReady(list, xs, head, ys);
    SpliceLinks(list, head, xs, ys);
    SpliceRing(head, xs, ys);
  }

  // list_splice; list itself is left pointing into the joined ring
  method ListSplice(list: ListHead, head: ListHead, ghost xs: seq<ListHead>, ghost ys: seq<ListHead>)
    requires Ring([list] + xs) && Ring([head] + ys)
    requires Nodes([list] + xs) !! Nodes([head] + ys)
    modifies list.next`prev, head`next, list.prev`next, head.next`prev
    ensures Ring([head] + xs + ys)
    ensures list.next == old(list.next) && list.prev == old(list.prev)
  {
    var empty := ListEmpty(list, xs);
    if !empty {
      Splice(list, head, xs, ys);
    } else {
      assert [head] + xs + ys == [head] + ys;
    }
  }

  // INIT_LIST_HEAD on a node outside ring r
  method InitListHead(list: ListHead, ghost r: seq<ListHead>)
    requires Ring(r) && list !in r
    modifies list`next, list`prev
    ensures Ring([list]) && Ring(r)
  {
    list.next := list;
    list.prev := list;
  }

  // list_splice_init
  method ListSpliceInit(list: ListHead, head: ListHead, ghost xs: seq<ListHead>, ghost ys: seq<ListHead>)
    requires Ring([list] + xs) && Ring([head] + ys)
    requires Nodes([list] + xs) !! Nodes([head] + ys)
    modifies list`next, list`prev, list.next`prev, head`next, list.prev`next, head.next`prev
    ensures Ring([head] + xs + ys) && Ring([list])
  {
    var empty := ListEmpty(list, xs);
    if !empty {
      Splice(list, head, xs, ys);
      InitListHead(list, [head] + xs + ys);
    } else {
      assert [head] + xs + ys == [head] + ys;
      assert [list] + xs == [list];
    }
  }

  // list_empty
  method ListEmpty(head: ListHead, ghost xs: seq<ListHead>) returns (empty: bool)
    requires Ring([head] + xs)
    ensures empty <==> xs == []
  {
    ghost var r := [head] + xs;
    assert r[0].next == r[Succ(0, |r|)];
    empty := head.next == head;
  }

  // Families of lists that share no node

  ghost function AllNodes<K>(rs: map<K, seq<ListHead>>): set<ListHead> {
    set k, x | k in rs && x in rs[k] :: x
  }

  ghost predicate Apart<K>(rs: map<K, seq<ListHead>>) {
    forall k, l :: k in rs && l in rs && k != l ==> Nodes(rs[k]) !! Nodes(rs[l])
  }

  ghost predicate Rings<K>(rs: map<K, seq<ListHead>>)
    reads AllNodes(rs)`next, AllNodes(rs)`prev
  {
    Apart(rs) && forall k :: k in rs ==> Ring(rs[k])
  }

  // One list of a family replaced by a ring of its own nodes and new ones
  lemma ApartWith<K>(rs: map<K, seq<ListHead>>, key: K, r: seq<ListHead>)
    requires Apart(rs) && key in rs && forall x :: x in r ==> x in rs[key] || x !in AllNodes(rs)
    ensures Apart(rs[key := r])
  {
    forall k | k in rs && k != key ensures Nodes(rs[k]) !! Nodes(r) {
      forall x | x in r ensures x !in Nodes(rs[k]) {
        assert x in rs[k] ==> x in AllNodes(rs);
        assert x in rs[key] ==> x in Nodes(rs[key]);
      }
    }
  }

  // The other lists of a family keep their nodes apart from list `key` and from a new node.
  lemma OthersApart<K>(rs: map<K, seq<ListHead>>, key: K)
    requires Apart(rs) && key in rs
    ensures Nodes(rs[key]) <= AllNodes(rs)
    ensures forall k :: k in rs && k != key ==> Nodes(rs[k]) !! Nodes(rs[key])
    ensures forall k :: k in rs ==> Nodes(rs[k]) <= AllNodes(rs)
  {
    assert forall k, x :: k in rs && x in rs[k] ==> x in AllNodes(rs);
  }

  // list_add_tail to one list of a family: the other lists are unchanged.
  method AddTailAmong<K>(entry: ListHead, head: ListHead, ghost rs: map<K, seq<ListHead>>, ghost key: K)
    requires Rings(rs) && key in rs && rs[key][0] == head && entry !in AllNodes(rs)
    modifies entry`next, entry`prev, AllNodes(rs)`next, AllNodes(rs)`prev
    ensures Rings(rs[key := rs[key] + [entry]])
  {
    ghost var r := rs[key];
    assert [head] + r[1..] == r;
    assert r[0].prev in Nodes(r) && head in Nodes(r);
    OthersApart(rs, key);
    ApartWith(rs, key, r + [entry]);
    ListAddTail(entry, head, r[1..]);
  }

  // list_del from one list of a family
  method DelAmong<K>(entry: ListHead, ghost rs: map<K, seq<ListHead>>, ghost key: K, ghost k: nat)
    requires Rings(rs) && key in rs && 0 < k < |rs[key]| && rs[key][k] == entry
    modifies entry`next, entry`prev, AllNodes(rs)`next, AllNodes(rs)`prev
    ensures Rings(rs[key := Cut(rs[key], k)])
    ensures entry.next == null && entry.prev == null
  {
    ghost var r := rs[key];
    assert entry in Nodes(r) && entry.prev in Nodes(r) && entry.next in Nodes(r);
    OthersApart(rs, key);
    ApartWith(rs, key, Cut(r, k));
    ListDel(entry, r, k);
  }
}
