/** The cache's recency list: a doubly linked list in two index arrays, as a sequence of slots. */
module LruList {

  const NONE: nat := 0xFFFF_FFFF

  predicate NoDuplicates(order: seq<nat>) {
    forall i, j :: 0 <= i < j < |order| ==> order[i] != order[j]
  }

  ghost predicate InRange(order: seq<nat>, cap: nat) {
    forall i :: 0 <= i < |order| ==> order[i] < cap
  }

  function Before(order: seq<nat>, i: nat): (s: nat)
    requires i < |order|
  {
    if i == 0 then NONE else order[i - 1]
  }

  function After(order: seq<nat>, i: nat): (s: nat)
    requires i < |order|
  {
    if i == |order| - 1 then NONE else order[i + 1]
  }

  /** The i-th slot of the list points at its neighbours. */
  ghost predicate Placed(prev: seq<nat>, next: seq<nat>, order: seq<nat>, i: nat)
    requires i < |order|
  {
    var s := order[i];
    s < |prev| && s < |next| && prev[s] == Before(order, i) && next[s] == After(order, i)
  }

  datatype Links = Links(prev: seq<nat>, next: seq<nat>, head: nat, tail: nat)

  /** The arrays and ends represent the sequence, most recent first. */
  ghost predicate Represents(l: Links, order: seq<nat>, cap: nat) {
    && |l.prev| == cap == |l.next| && cap < NONE
    && NoDuplicates(order) && InRange(order, cap)
    && l.head == (if order == [] then NONE else order[0])
    && l.tail == (if order == [] then NONE else order[|order| - 1])
    && forall i: nat {:trigger Placed(l.prev, l.next, order, i)} :: i < |order| ==> Placed(l.prev, l.next, order, i)
  }

  function AddHead(l: Links, s: nat): (l': Links)
    requires s < |l.prev| == |l.next| && (l.head == NONE || l.head < |l.prev|)
  {
    var prev, next := l.prev[s := NONE], l.next[s := l.head];
    Links(
      if l.head != NONE then prev[l.head := s] else prev,
      next,
      s,
      if l.tail == NONE then s else l.tail)
  }

  predicate LinkOk(x: nat, cap: nat) {
    x == NONE || x < cap
  }

  function Unlink(l: Links, s: nat): (l': Links)
    requires s < |l.prev| == |l.next| && LinkOk(l.prev[s], |l.prev|) && LinkOk(l.next[s], |l.prev|)
  {
    var p, n := l.prev[s], l.next[s];
    var next := if p != NONE then l.next[p := n] else l.next;
    var prev := if n != NONE then l.prev[n := p] else l.prev;
    Links(
      prev[s := NONE],
      next[s := NONE],
      if p != NONE then l.head else n,
      if n != NONE then l.tail else p)
  }

  lemma {:induction false} AddHeadRepresents(l: Links, order: seq<nat>, cap: nat, s: nat)
    requires Represents(l, order, cap) && s < cap && s !in order
    ensures l.head == NONE || l.head < cap
    ensures Represents(AddHead(l, s), [s] + order, cap)
  {
    var l', order' := AddHead(l, s), [s] + order;
    forall i: nat | i < |order'|
      ensures Placed(l'.prev, l'.next, order', i)
    {
      if i > 0 {
        assert Placed(l.prev, l.next, order, i - 1);
        assert order'[i] == order[i - 1] && order[i - 1] in order;
      }
    }
  }

  function Without(order: seq<nat>, i: nat): (o: seq<nat>)
    requires i < |order|
  {
    order[..i] + order[i + 1..]
  }

  lemma {:induction false} WithoutIndex(order: seq<nat>, i: nat, k: nat)
    requires i < |order| && k < |order| - 1
    ensures Without(order, i)[k] == if k < i then order[k] else order[k + 1]
  {
  }

  lemma {:induction false} LinksInRange(l: Links, order: seq<nat>, cap: nat, i: nat)
    requires Represents(l, order, cap) && i < |order|
    ensures order[i] < cap && LinkOk(l.prev[order[i]], cap) && LinkOk(l.next[order[i]], cap)
  {
    assert Placed(l.prev, l.next, order, i);
  }

  lemma {:induction false} UnlinkRepresents(l: Links, order: seq<nat>, cap: nat, i: nat)
    requires Represents(l, order, cap) && i < |order|
    ensures order[i] < cap && LinkOk(l.prev[order[i]], cap) && LinkOk(l.next[order[i]], cap)
    ensures Represents(Unlink(l, order[i]), Without(order, i), cap)
  {
    LinksInRange(l, order, cap, i);
    var l', order' := Unlink(l, order[i]), Without(order, i);
    assert Placed(l.prev, l.next, order, i);
    forall k: nat | k < |order'|
      ensures Placed(l'.prev, l'.next, order', k)
    {
      UnlinkPlaces(l, order, cap, i, k);
    }
  }

  lemma {:induction false} UnlinkPlaces(l: Links, order: seq<nat>, cap: nat, i: nat, k: nat)
    requires Represents(l, order, cap) && i < |order| && k < |order| - 1
    requires order[i] < cap && LinkOk(l.prev[order[i]], cap) && LinkOk(l.next[order[i]], cap)
    ensures
      var l', order' := Unlink(l, order[i]), Without(order, i);
      Placed(l'.prev, l'.next, order', k)
  {
    hide Represents, Unlink, Without, Before, After;
    WithoutIndex(order, i, k);
    NeighboursWithout(order, i, k);
    UnlinkLinks(l, order, cap, i, if k < i then k else k + 1);
  }

  /** The neighbours of a slot once the i-th is gone. */
  lemma {:induction false} NeighboursWithout(order: seq<nat>, i: nat, k: nat)
    requires i < |order| && k < |order| - 1
    ensures
      var m, o := if k < i then k else k + 1, Without(order, i);
      && Before(o, k) == Before(order, if m == i + 1 then i else m)
      && After(o, k) == After(order, if m + 1 == i then i else m)
  {
    if k > 0 {
      WithoutIndex(order, i, k - 1);
    }
    if k + 1 < |order| - 1 {
      WithoutIndex(order, i, k + 1);
    }
    hide Without;
  }

  /** The links of a slot once the i-th is unlinked. */
  lemma {:induction false} UnlinkLinks(l: Links, order: seq<nat>, cap: nat, i: nat, m: nat)
    requires Represents(l, order, cap) && i < |order| && m < |order| && m != i
    requires order[i] < cap && LinkOk(l.prev[order[i]], cap) && LinkOk(l.next[order[i]], cap)
    ensures
      var l', t := Unlink(l, order[i]), order[m];
      && t < |l'.prev| && t < |l'.next|
      && l'.prev[t] == Before(order, if m == i + 1 then i else m)
      && l'.next[t] == After(order, if m + 1 == i then i else m)
  {
    assert Placed(l.prev, l.next, order, i);
    assert Placed(l.prev, l.next, order, m);
    assert order[m] != order[i];
  }

  /** Moving a slot to the front. */
  ghost function Promoted(order: seq<nat>, i: nat): (o: seq<nat>)
    requires i < |order|
  {
    [order[i]] + Without(order, i)
  }

  lemma {:induction false} WithoutMembers(order: seq<nat>, i: nat, s: nat)
    requires NoDuplicates(order) && i < |order|
    ensures s in Without(order, i) <==> s in order && s != order[i]
  {
    if s in order && s != order[i] {
      var k :| 0 <= k < |order| && order[k] == s;
      WithoutIndex(order, i, if k < i then k else k - 1);
    }
  }
}
