/** Second timers on the heap.  Each is linked into two families of lists at once: the
    wheel's lists through `entry`, the owners' lists through `sprite`. */
module TimerLinks {
  import opened XrList
  import opened TimerWheel

  // sec_t: a node for the wheel, a node for the owner, and the payload
  class SecTimer {
    const entry: ListHead
    const sprite: ListHead
    const info: Timer

    constructor (info: Timer)
      ensures fresh(entry) && fresh(sprite) && entry != sprite && this.info == info
      ensures Ring([entry]) && Ring([sprite])
      ensures entry.host == this && sprite.host == this
    {
      this.info := info;
      sprite := new ListHead();
      entry := new ListHead();
      new;
      entry.host := this;
      sprite.host := this;
    }
  }

  datatype Side = EntrySide | SpriteSide

  function NodeOf(t: SecTimer, side: Side): ListHead {
    if side.EntrySide? then t.entry else t.sprite
  }

  function NodesOf(ts: seq<SecTimer>, side: Side): (es: seq<ListHead>)
    ensures |es| == |ts| && forall i :: 0 <= i < |ts| ==> es[i] == NodeOf(ts[i], side)
  {
    seq(|ts|, i requires 0 <= i < |ts| => NodeOf(ts[i], side))
  }

  lemma CutMembers<T>(l: seq<T>, j: nat)
    requires j < |l|
    ensures forall u :: u in l && u != l[j] ==> u in Cut(l, j)
    ensures forall u :: u in Cut(l, j) ==> u in l
  {
    assert l == l[..j] + [l[j]] + l[j + 1..];
  }

  // A timer occurs once in the list that its ring describes.
  lemma OnceInRing(l: seq<SecTimer>, side: Side, r: seq<ListHead>, j: nat)
    requires Ring(r) && j < |l| && |r| == |l| + 1 && r[1..] == NodesOf(l, side)
    ensures l[j] !in Cut(l, j)
  {
    forall u | u in Cut(l, j) ensures u != l[j] {
      var k :| 0 <= k < |l| && k != j && u == l[k];
      assert r[k + 1] == r[1..][k] && r[j + 1] == r[1..][j];
    }
  }

  /** What a family of heap lists means: the timers of each list in order, the list of
      each timer, the rings of nodes, and the nodes in use. */
  datatype View<K(==)> = View(
    side: Side, lists: map<K, seq<SecTimer>>, home: map<SecTimer, K>,
    rings: map<K, seq<ListHead>>, nodes: set<ListHead>)
  {
    // Each timer is in exactly one list.
    ghost predicate Placed() {
      && (forall t :: t in home ==> home[t] in lists && t in lists[home[t]] && NodeOf(t, side) in nodes)
      && (forall k :: k in lists ==> forall t :: t in lists[k] ==> t in home && home[t] == k)
    }

    // The rings run through the heads and the timers' nodes.
    ghost predicate Ringed(heads: map<K, ListHead>) {
      && rings.Keys == lists.Keys && heads.Keys == lists.Keys
      && (forall k :: k in lists ==> rings[k] == [heads[k]] + NodesOf(lists[k], side))
    }

    ghost predicate Owned() {
      AllNodes(rings) <= nodes
    }

    // The ring of list k; when Ringed holds there always is one
    ghost function RingOf(k: K): seq<ListHead> {
      if k in rings then rings[k] else []
    }

    ghost function Hook(t: SecTimer, k: K): View<K>
      requires k in lists
    {
      View(side, lists[k := lists[k] + [t]], home[t := k], rings[k := RingOf(k) + [NodeOf(t, side)]],
           nodes + {NodeOf(t, side)})
    }

    ghost function Unhook(k: K, j: nat): View<K>
      requires k in lists && j < |lists[k]|
    {
      var r := RingOf(k);
      View(side, lists[k := Cut(lists[k], j)], home - {lists[k][j]},
           rings[k := if j + 1 < |r| then Cut(r, j + 1) else r], nodes)
    }

    // Unhook the j-th timer of list k and hook it to the tail of list n
    ghost function MoveTo(k: K, j: nat, n: K): View<K>
      requires k in lists && j < |lists[k]| && n in lists
    {
      Unhook(k, j).Hook(lists[k][j], n)
    }

    lemma HookKeeps(t: SecTimer, k: K, heads: map<K, ListHead>)
      requires Placed() && Ringed(heads) && Owned() && k in lists && t !in home
      ensures Hook(t, k).Placed() && Hook(t, k).Ringed(heads) && Hook(t, k).Owned()
    {
      HookPlaced(t, k);
      HookRinged(t, k, heads);
      HookOwned(t, k);
    }

    lemma HookPlaced(t: SecTimer, k: K)
      requires Placed() && k in lists && t !in home && k in rings
      ensures Hook(t, k).Placed()
    {
    }

    lemma HookRinged(t: SecTimer, k: K, heads: map<K, ListHead>)
      requires Ringed(heads) && k in lists
      ensures Hook(t, k).Ringed(heads)
    {
      assert NodesOf(lists[k] + [t], side) == NodesOf(lists[k], side) + [NodeOf(t, side)];
    }

    lemma HookOwned(t: SecTimer, k: K)
      requires Owned() && k in lists && k in rings
      ensures Hook(t, k).Owned()
    {
    }

    lemma UnhookKeeps(k: K, j: nat, heads: map<K, ListHead>)
      requires Placed() && Ringed(heads) && Owned()
      requires k in lists && j < |lists[k]| && lists[k][j] !in Cut(lists[k], j)
      ensures Unhook(k, j).Placed() && Unhook(k, j).Ringed(heads) && Unhook(k, j).Owned()
    {
      UnhookPlaced(k, j);
      UnhookRinged(k, j, heads);
      UnhookOwned(k, j);
    }

    lemma UnhookPlaced(k: K, j: nat)
      requires Placed() && k in lists && k in rings && j < |lists[k]| && j + 1 < |rings[k]|
      requires lists[k][j] !in Cut(lists[k], j)
      ensures Unhook(k, j).Placed()
    {
      CutMembers(lists[k], j);
    }

    lemma UnhookRinged(k: K, j: nat, heads: map<K, ListHead>)
      requires Ringed(heads) && k in lists && j < |lists[k]|
      ensures Unhook(k, j).Ringed(heads)
    {
      assert Cut([heads[k]] + NodesOf(lists[k], side), j + 1) == [heads[k]] + NodesOf(Cut(lists[k], j), side);
    }

    lemma UnhookOwned(k: K, j: nat)
      requires Owned() && k in lists && k in rings && j < |lists[k]| && j + 1 < |rings[k]|
      ensures Unhook(k, j).Owned()
    {
      CutMembers(rings[k], j + 1);
    }
  }

  // Every node knows its timer, and heads belong to none.
  ghost predicate Hosted<K>(v: View<K>, heads: map<K, ListHead>)
    reads v.nodes`host
  {
    && (forall k :: k in heads ==> heads[k] in v.nodes && heads[k].host == null)
    && (forall t :: t in v.home ==> NodeOf(t, v.side) in v.nodes && NodeOf(t, v.side).host == t)
  }

  // The heap holds exactly the lists of v.
  ghost predicate Holds<K>(v: View<K>, heads: map<K, ListHead>)
    reads v.nodes
  {
    v.Placed() && v.Ringed(heads) && v.Owned() && Hosted(v, heads) && Rings(v.rings)
  }

  ghost predicate Open(n: nat) { true }

  // Holds, behind a quantifier that the verifier instantiates only where `Open` is
  // mentioned: callers carry it as one fact and look inside it through lemmas.
  ghost predicate Linked<K>(v: View<K>, heads: map<K, ListHead>)
    reads v.nodes
  {
    forall n {:trigger Open(n)} :: Open(n) ==> Holds(v, heads)
  }

  lemma LookInside<K>(v: View<K>, heads: map<K, ListHead>)
    requires Linked(v, heads)
    ensures Holds(v, heads)
  {
    assert Open(0);
  }

  // A timer in none of the lists has its node on none of the rings.
  lemma OffRings<K>(v: View<K>, heads: map<K, ListHead>, t: SecTimer)
    requires v.Placed() && v.Ringed(heads) && Hosted(v, heads)
    requires t !in v.home && NodeOf(t, v.side).host == t
    ensures NodeOf(t, v.side) !in AllNodes(v.rings)
  {
    forall k, j | k in v.rings && 0 <= j < |v.rings[k]| ensures v.rings[k][j] != NodeOf(t, v.side) {
      if j > 0 {
        assert v.rings[k][j] == NodeOf(v.lists[k][j - 1], v.side) && v.lists[k][j - 1] in v.lists[k];
      }
    }
  }

  // list_add_tail(node of t, head)
  method HookTail<K>(t: SecTimer, node: ListHead, head: ListHead,
                     ghost v: View<K>, ghost heads: map<K, ListHead>, ghost k: K)
    requires Linked(v, heads) && k in v.lists && k in heads && heads[k] == head
    requires node == NodeOf(t, v.side) && t !in v.home && node.host == t
    modifies v.nodes`next, v.nodes`prev, node`next, node`prev
    ensures Linked(v.Hook(t, k), heads)
  {
    LookInside(v, heads);
    v.HookKeeps(t, k, heads);
    HookTailHeld(t, node, head, v, heads, k);
  }

  lemma HookHosted<K>(v: View<K>, heads: map<K, ListHead>, t: SecTimer, k: K)
    requires Hosted(v, heads) && k in v.lists && NodeOf(t, v.side).host == t
    ensures Hosted(v.Hook(t, k), heads)
  {
  }

  lemma UnhookHosted<K>(v: View<K>, heads: map<K, ListHead>, k: K, j: nat)
    requires Hosted(v, heads) && k in v.lists && j < |v.lists[k]|
    ensures Hosted(v.Unhook(k, j), heads)
  {
  }

  method HookTailHeld<K>(t: SecTimer, node: ListHead, head: ListHead,
                         ghost v: View<K>, ghost heads: map<K, ListHead>, ghost k: K)
    requires Holds(v, heads) && k in v.lists && k in heads && heads[k] == head
    requires node == NodeOf(t, v.side) && t !in v.home && node.host == t
    modifies v.nodes`next, v.nodes`prev, node`next, node`prev
    ensures Hosted(v.Hook(t, k), heads) && Rings(v.Hook(t, k).rings)
  {
    OffRings(v, heads, t);
    HookHosted(v, heads, t, k);
    AddTailAmong(node, head, v.rings, k);
  }

  lemma UnhookReady<K>(v: View<K>, heads: map<K, ListHead>, k: K, j: nat)
    requires Holds(v, heads) && k in v.lists && j < |v.lists[k]|
    ensures var v' := v.Unhook(k, j); v'.Placed() && v'.Ringed(heads) && v'.Owned()
    ensures v.Unhook(k, j).rings == v.rings[k := Cut(v.rings[k], j + 1)]
    ensures v.rings[k][j + 1] == NodeOf(v.lists[k][j], v.side) && NodeOf(v.lists[k][j], v.side) in v.nodes
  {
    OnceInRing(v.lists[k], v.side, v.rings[k], j);
    v.UnhookKeeps(k, j, heads);
    assert v.lists[k][j] in v.lists[k];
  }

  // list_del(node of t), t being the j-th timer of list k
  method Unhook<K>(t: SecTimer, node: ListHead,
                   ghost v: View<K>, ghost heads: map<K, ListHead>, ghost k: K, ghost j: nat)
    requires Linked(v, heads) && k in v.lists && j < |v.lists[k]| && v.lists[k][j] == t
    requires node == NodeOf(t, v.side)
    modifies v.nodes`next, v.nodes`prev
    ensures Linked(v.Unhook(k, j), heads)
    ensures node.next == null
  {
    LookInside(v, heads);
    UnhookReady(v, heads, k, j);
    UnhookHeld(node, v, heads, k, j);
  }

  method UnhookHeld<K>(node: ListHead, ghost v: View<K>, ghost heads: map<K, ListHead>, ghost k: K, ghost j: nat)
    requires Hosted(v, heads) && Rings(v.rings) && AllNodes(v.rings) <= v.nodes && node in v.nodes
    requires k in v.lists && j < |v.lists[k]| && k in v.rings && j + 1 < |v.rings[k]| && v.rings[k][j + 1] == node
    modifies v.nodes`next, v.nodes`prev
    ensures Hosted(v.Unhook(k, j), heads) && Rings(v.rings[k := Cut(v.rings[k], j + 1)])
    ensures node.next == null
  {
    UnhookHosted(v, heads, k, j);
    DelAmong(node, v.rings, k, j + 1);
  }

  // The j-th node of list k, or its head behind the last one
  ghost function At<K>(v: View<K>, heads: map<K, ListHead>, k: K, j: nat): ListHead
    requires k in v.lists && k in heads
  {
    if j < |v.lists[k]| then NodeOf(v.lists[k][j], v.side) else heads[k]
  }

  // Walking along list k with `next`
  lemma WalkFrom<K>(v: View<K>, heads: map<K, ListHead>, k: K)
    requires Linked(v, heads) && k in v.lists && k in heads
    ensures heads[k].next == At(v, heads, k, 0)
  {
    LookInside(v, heads);
    assert v.rings[k][0].next == v.rings[k][Succ(0, |v.rings[k]|)];
  }

  lemma Walk<K>(v: View<K>, heads: map<K, ListHead>, k: K, j: nat)
    requires Linked(v, heads) && k in v.lists && k in heads && j < |v.lists[k]|
    ensures At(v, heads, k, j).next == At(v, heads, k, j + 1)
  {
    LookInside(v, heads);
    RingWalk(v.rings[k], v.lists[k], v.side, heads[k], j);
  }

  lemma RingWalk(r: seq<ListHead>, l: seq<SecTimer>, side: Side, head: ListHead, j: nat)
    requires r == [head] + NodesOf(l, side) && Ring(r) && j < |l|
    ensures NodeOf(l[j], side).next == if j + 1 < |l| then NodeOf(l[j + 1], side) else head
  {
    assert r[j + 1].next == r[Succ(j + 1, |r|)];
  }

  // The j-th timer of list k: its home, and its node and host
  lemma Found<K>(v: View<K>, heads: map<K, ListHead>, k: K, j: nat)
    requires Linked(v, heads) && k in v.lists && k in heads && j < |v.lists[k]|
    ensures var t := v.lists[k][j]; var x := NodeOf(t, v.side);
      && t in v.home && v.home[t] == k && x in v.nodes && x.host == t && x != heads[k]
  {
    LookInside(v, heads);
    assert v.lists[k][j] in v.lists[k];
  }

  lemma AtHead<K>(v: View<K>, heads: map<K, ListHead>, k: K, j: nat)
    requires Linked(v, heads) && k in v.lists && k in heads && j <= |v.lists[k]|
    ensures At(v, heads, k, j) == heads[k] <==> j == |v.lists[k]|
  {
    if j < |v.lists[k]| {
      Found(v, heads, k, j);
    }
  }

  // A timer's node is in use whenever the timer is in some list.
  lemma Homed<K>(v: View<K>, heads: map<K, ListHead>, t: SecTimer)
    requires Linked(v, heads) && t in v.home
    ensures v.home[t] in v.lists && t in v.lists[v.home[t]]
    ensures NodeOf(t, v.side) in v.nodes && NodeOf(t, v.side).host == t
  {
    LookInside(v, heads);
  }

  // What moving a timer leaves in place
  lemma MoveNodes<K>(v: View<K>, heads: map<K, ListHead>, k: K, j: nat, n: K)
    requires Linked(v, heads) && k in v.lists && k in heads && n in v.lists && j < |v.lists[k]|
    ensures v.MoveTo(k, j, n).nodes == v.nodes
    ensures v.MoveTo(k, j, n).home.Keys == v.home.Keys
  {
    Found(v, heads, k, j);
  }

  lemma MoveAt<K>(v: View<K>, heads: map<K, ListHead>, k: K, j: nat, n: K)
    requires k in v.lists && n in v.lists && k in heads && k != n && j < |v.lists[k]|
    ensures var v' := v.MoveTo(k, j, n);
            && v'.lists[k] == Cut(v.lists[k], j)
            && At(v', heads, k, j) == At(v, heads, k, j + 1)
  {
  }

  lemma UnhookAt<K>(v: View<K>, heads: map<K, ListHead>, k: K, j: nat)
    requires k in v.lists && k in heads && j < |v.lists[k]|
    ensures At(v.Unhook(k, j), heads, k, j) == At(v, heads, k, j + 1)
  {
  }

  // The family with one more, empty, list
  ghost function AddList<K>(v: View<K>, k: K, head: ListHead): View<K> {
    View(v.side, v.lists[k := []], v.home, v.rings[k := [head]], v.nodes + {head})
  }

  lemma AddListLinked<K>(v: View<K>, heads: map<K, ListHead>, k: K, head: ListHead)
    requires Linked(v, heads) && k !in v.lists && head !in v.nodes && head.host == null && Ring([head])
    ensures Linked(AddList(v, k, head), heads[k := head])
  {
    LookInside(v, heads);
    AddListRinged(v, heads, k, head);
    AddListApart(v, heads, k, head);
    AddListPlaced(v, k, head);
    AddListHosted(v, heads, k, head);
  }

  lemma AddListPlaced<K>(v: View<K>, k: K, head: ListHead)
    requires v.Placed() && k !in v.lists
    ensures AddList(v, k, head).Placed()
  {
  }

  lemma AddListHosted<K>(v: View<K>, heads: map<K, ListHead>, k: K, head: ListHead)
    requires Hosted(v, heads) && head.host == null
    ensures Hosted(AddList(v, k, head), heads[k := head])
  {
  }

  lemma AddListRinged<K>(v: View<K>, heads: map<K, ListHead>, k: K, head: ListHead)
    requires v.Ringed(heads)
    ensures AddList(v, k, head).Ringed(heads[k := head])
  {
    assert [head] == [head] + NodesOf([], v.side);
  }

  lemma AddListApart<K>(v: View<K>, heads: map<K, ListHead>, k: K, head: ListHead)
    requires v.Ringed(heads) && v.Owned() && Apart(v.rings) && k !in v.lists && head !in v.nodes
    ensures Apart(AddList(v, k, head).rings) && AddList(v, k, head).Owned()
  {
    forall l | l in v.rings ensures Nodes(v.rings[l]) <= v.nodes {
      assert forall x :: x in v.rings[l] ==> x in AllNodes(v.rings);
    }
  }

  function Members(s: seq<SecTimer>): set<SecTimer> {
    set t | t in s
  }

  // s without the timers in `gone`
  ghost function Without(s: seq<SecTimer>, gone: set<SecTimer>): seq<SecTimer> {
    if s == [] then [] else (if s[0] in gone then [] else [s[0]]) + Without(s[1..], gone)
  }

  lemma {:induction false} WithoutNone(s: seq<SecTimer>, gone: set<SecTimer>)
    requires forall t :: t in s ==> t !in gone
    ensures Without(s, gone) == s
  {
    if s != [] {
      WithoutNone(s[1..], gone);
    }
  }

  lemma {:induction false} WithoutTwice(s: seq<SecTimer>, a: set<SecTimer>, b: set<SecTimer>)
    ensures Without(Without(s, a), b) == Without(s, a + b)
  {
    if s != [] {
      WithoutTwice(s[1..], a, b);
      var rest := Without(s[1..], a);
      if s[0] in a {
        assert Without(s, a) == rest;
      } else {
        assert Without(s, a) == [s[0]] + rest && ([s[0]] + rest)[1..] == rest;
      }
    }
  }

  lemma {:induction false} CutIsWithout(s: seq<SecTimer>, j: nat)
    requires j < |s| && s[j] !in Cut(s, j)
    ensures Cut(s, j) == Without(s, {s[j]})
  {
    if j == 0 {
      assert Cut(s, 0) == s[1..];
      WithoutNone(s[1..], {s[0]});
    } else {
      assert Cut(s, j) == [s[0]] + Cut(s[1..], j - 1);
      CutIsWithout(s[1..], j - 1);
    }
  }

  lemma OnceInList<K>(v: View<K>, heads: map<K, ListHead>, k: K, j: nat)
    requires Linked(v, heads) && k in v.lists && j < |v.lists[k]|
    ensures v.lists[k][j] !in Cut(v.lists[k], j)
  {
    LookInside(v, heads);
    OnceInRing(v.lists[k], v.side, v.rings[k], j);
  }

  // A timer is in no list but its home.
  lemma OnlyHome<K>(v: View<K>, heads: map<K, ListHead>, t: SecTimer, k: K)
    requires Linked(v, heads) && t in v.home && k in v.lists && k != v.home[t]
    ensures t !in v.lists[k]
  {
    LookInside(v, heads);
  }

  // No lists at all
  ghost function NoLists<K>(side: Side): View<K> {
    View(side, map[], map[], map[], {})
  }

  lemma NoListsLinked<K>(side: Side)
    ensures Linked(NoLists<K>(side), map[])
  {
  }
}
