/** The fixed-capacity cache over the bare hash table.

    The bare table is the bag of (48-bit hash, slot) pairs it stores; the order in which it visits
    the slots under a hash is a parameter of the operations that scan it. */
module LruCache {
  import opened Options
  import opened BitXor
  import opened LruList

  type Bytes = seq<nat>

  /** What the index keeps of a hash. */
  function Key48(hash: nat): (k: nat) {
    hash % 0x1_0000_0000_0000
  }

  /** It keeps the 48 low bits. */
  lemma {:induction false} KeyBits(hash: nat, j: nat)
    ensures Bit(Key48(hash), j) <==> j < 48 && Bit(hash, j)
  {
    assert Pow2(48) == 0x1_0000_0000_0000 by {
      hide Pow2;
      PowZero();
      Pow2Byte(0);
      Pow2Byte(8);
      Pow2Byte(16);
      Pow2Byte(24);
      Pow2Byte(32);
      Pow2Byte(40);
    }
    ModBit(hash, 48, j);
  }

  ghost function Pairs(hashes: seq<nat>, order: seq<nat>): (p: seq<(nat, nat)>)
    requires InRange(order, |hashes|)
    ensures |p| == |order|
  {
    seq(|order|, i requires 0 <= i < |order| => (Key48(hashes[order[i]]), order[i]))
  }

  /** The index holds one pair for every slot of the list. */
  ghost predicate Indexed(index: multiset<(nat, nat)>, hashes: seq<nat>, order: seq<nat>) {
    InRange(order, |hashes|) && index == multiset(Pairs(hashes, order))
  }

  ghost predicate LiveOk(live: seq<bool>, order: seq<nat>) {
    forall s: nat {:trigger live[s]} :: s < |live| ==> (live[s] <==> s in order)
  }

  ghost predicate IsFree(stack: seq<nat>, top: nat, s: nat)
    requires top <= |stack|
  {
    s in stack[..top]
  }

  /** Free stack and list share out the slots. */
  ghost predicate FreeOk(stack: seq<nat>, top: nat, order: seq<nat>, cap: nat) {
    && |stack| == cap && top + |order| == cap
    && NoDuplicates(stack[..top])
    && (forall s: nat {:trigger IsFree(stack, top, s)} :: IsFree(stack, top, s) <==> s < cap && s !in order)
  }

  /** Along the list, the time of the last use goes down. */
  ghost predicate Recent(stamp: seq<nat>, clock: nat, order: seq<nat>) {
    && InRange(order, |stamp|)
    && (forall i :: 0 <= i < |order| ==> stamp[order[i]] < clock)
    && forall i, j :: 0 <= i < j < |order| ==> stamp[order[j]] < stamp[order[i]]
  }

  ghost predicate Hashed(hashFn: Bytes -> nat, hashes: seq<nat>, entries: seq<Bytes>, order: seq<nat>) {
    && InRange(order, |hashes|) && InRange(order, |entries|)
    && forall i :: 0 <= i < |order| ==> hashes[order[i]] == hashFn(entries[order[i]])
  }

  ghost function EntriesOf(entries: seq<Bytes>, order: seq<nat>): (c: seq<Bytes>)
    requires InRange(order, |entries|)
    ensures |c| == |order|
  {
    seq(|order|, i requires 0 <= i < |order| => entries[order[i]])
  }

  // ---------------------------------------------------------------- putting in and taking out

  lemma {:induction false} EntriesAdd(hashFn: Bytes -> nat, hashes: seq<nat>, entries: seq<Bytes>, order: seq<nat>,
      s: nat, data: Bytes)
    requires Hashed(hashFn, hashes, entries, order) && s < |hashes| == |entries| && s !in order
    ensures Hashed(hashFn, hashes[s := 0], entries[s := data], order)
    ensures Hashed(hashFn, hashes[s := hashFn(data)], entries[s := data], [s] + order)
    ensures EntriesOf(entries[s := data], order) == EntriesOf(entries, order)
    ensures EntriesOf(entries[s := data], [s] + order) == [data] + EntriesOf(entries, order)
  {
    assert forall i :: 0 <= i < |order| ==> order[i] in order;
  }

  lemma {:induction false} EntriesRemove(hashFn: Bytes -> nat, hashes: seq<nat>, entries: seq<Bytes>, order: seq<nat>,
      i: nat)
    requires Hashed(hashFn, hashes, entries, order) && i < |order|
    ensures Hashed(hashFn, hashes, entries, Without(order, i))
    ensures EntriesOf(entries, Without(order, i)) == EntriesOf(entries, order)[..i] + EntriesOf(entries, order)[i + 1..]
  {
    forall k: nat | k < |order| - 1
      ensures Without(order, i)[k] == order[if k < i then k else k + 1]
    {
      WithoutIndex(order, i, k);
    }
  }

  lemma {:induction false} IndexedAdd(index: multiset<(nat, nat)>, hashes: seq<nat>, order: seq<nat>, s: nat, h: nat)
    requires Indexed(index, hashes, order) && s < |hashes| && s !in order
    ensures Indexed(index, hashes[s := h], order)
    ensures Indexed(index + multiset{(Key48(h), s)}, hashes[s := h], [s] + order)
  {
    var hashes' := hashes[s := h];
    assert Pairs(hashes', order) == Pairs(hashes, order) by {
      assert forall i :: 0 <= i < |order| ==> order[i] in order;
    }
    assert Pairs(hashes', [s] + order) == [(Key48(h), s)] + Pairs(hashes', order);
  }

  lemma {:induction false} IndexedRemove(index: multiset<(nat, nat)>, hashes: seq<nat>, order: seq<nat>, i: nat)
    requires Indexed(index, hashes, order) && i < |order|
    ensures (Key48(hashes[order[i]]), order[i]) in index
    ensures Indexed(index - multiset{(Key48(hashes[order[i]]), order[i])}, hashes, Without(order, i))
  {
    var p := Pairs(hashes, order);
    assert p == p[..i] + [p[i]] + p[i + 1..];
    assert Pairs(hashes, Without(order, i)) == p[..i] + p[i + 1..];
    assert multiset(p) == multiset(p[..i]) + multiset{p[i]} + multiset(p[i + 1..]);
  }

  lemma {:induction false} IndexedMember(index: multiset<(nat, nat)>, hashes: seq<nat>, order: seq<nat>, k: nat, s: nat)
    requires Indexed(index, hashes, order)
    ensures (k, s) in index <==> s in order && Key48(hashes[s]) == k
  {
    var p := Pairs(hashes, order);
    if s in order && Key48(hashes[s]) == k {
      var i :| 0 <= i < |order| && order[i] == s;
      assert p[i] == (k, s);
    }
    if (k, s) in index {
      var i :| 0 <= i < |p| && p[i] == (k, s);
    }
  }

  lemma {:induction false} FreeTake(stack: seq<nat>, top: nat, order: seq<nat>, cap: nat)
    requires FreeOk(stack, top, order, cap) && top > 0
    ensures stack[top - 1] < cap && stack[top - 1] !in order
    ensures FreeOk(stack, top - 1, [stack[top - 1]] + order, cap)
  {
    var t := stack[top - 1];
    assert stack[..top] == stack[..top - 1] + [t];
    assert stack[..top][top - 1] == t;
    assert IsFree(stack, top, t);
    assert !IsFree(stack, top - 1, t) by {
      assert forall k :: 0 <= k < top - 1 ==> stack[..top][k] != stack[..top][top - 1];
    }
    forall s: nat {:trigger IsFree(stack, top - 1, s)}
      ensures IsFree(stack, top - 1, s) <==> s < cap && s !in [t] + order
    {
      assert IsFree(stack, top, s) <==> IsFree(stack, top - 1, s) || s == t;
    }
  }

  lemma {:induction false} FreeGive(stack: seq<nat>, top: nat, order: seq<nat>, cap: nat, i: nat)
    requires FreeOk(stack, top, order, cap) && NoDuplicates(order) && InRange(order, cap) && i < |order|
    ensures FreeOk(stack[top := order[i]], top + 1, Without(order, i), cap)
  {
    var t := order[i];
    var stack' := stack[top := t];
    assert stack'[..top + 1] == stack[..top] + [t];
    assert t in order;
    forall s: nat {:trigger IsFree(stack', top + 1, s)}
      ensures IsFree(stack', top + 1, s) <==> s < cap && s !in Without(order, i)
    {
      WithoutMembers(order, i, s);
      assert IsFree(stack', top + 1, s) <==> IsFree(stack, top, s) || s == t;
    }
    assert !IsFree(stack, top, t);
    assert forall k :: 0 <= k < top ==> stack[..top][k] in stack[..top];
    assert NoDuplicates(stack'[..top + 1]);
  }

  lemma {:induction false} RecentAdd(stamp: seq<nat>, clock: nat, order: seq<nat>, s: nat)
    requires Recent(stamp, clock, order) && s < |stamp| && s !in order
    ensures Recent(stamp[s := clock], clock + 1, [s] + order)
  {
    assert forall i :: 0 <= i < |order| ==> order[i] in order;
  }

  lemma {:induction false} RecentRemove(stamp: seq<nat>, clock: nat, order: seq<nat>, i: nat)
    requires Recent(stamp, clock, order) && i < |order|
    ensures Recent(stamp, clock, Without(order, i))
  {
    forall k: nat | k < |order| - 1
      ensures Without(order, i)[k] == order[if k < i then k else k + 1]
    {
      WithoutIndex(order, i, k);
    }
  }

  lemma {:induction false} LiveAdd(live: seq<bool>, order: seq<nat>, s: nat)
    requires LiveOk(live, order) && s < |live|
    ensures LiveOk(live[s := true], [s] + order)
  {
  }

  lemma {:induction false} LiveRemove(live: seq<bool>, order: seq<nat>, i: nat)
    requires LiveOk(live, order) && NoDuplicates(order) && i < |order| && order[i] < |live|
    ensures LiveOk(live[order[i] := false], Without(order, i))
  {
    forall s: nat | s < |live|
      ensures live[order[i] := false][s] <==> s in Without(order, i)
    {
      WithoutMembers(order, i, s);
    }
  }

  /** Everything but the links. */
  datatype Parts = Parts(
    entries: seq<Bytes>, hashes: seq<nat>, live: seq<bool>, freeStack: seq<nat>, freeTop: nat, size: nat,
    index: multiset<(nat, nat)>, order: seq<nat>, stamp: seq<nat>, clock: nat)

  ghost predicate Sound(cap: nat, hashFn: Bytes -> nat, p: Parts) {
    && |p.entries| == |p.hashes| == |p.live| == |p.stamp| == cap
    && p.size == |p.order|
    && LiveOk(p.live, p.order)
    && FreeOk(p.freeStack, p.freeTop, p.order, cap)
    && Indexed(p.index, p.hashes, p.order)
    && Recent(p.stamp, p.clock, p.order)
    && Hashed(hashFn, p.hashes, p.entries, p.order)
  }

  /** The i-th listed slot given back. */
  ghost function Dropped(p: Parts, i: nat): (p': Parts)
    requires i < |p.order| && p.order[i] < |p.hashes| == |p.live| && p.freeTop < |p.freeStack| && p.size > 0
  {
    var s := p.order[i];
    p.(live := p.live[s := false], freeStack := p.freeStack[p.freeTop := s], freeTop := p.freeTop + 1,
       size := p.size - 1, index := p.index - multiset{(Key48(p.hashes[s]), s)}, order := Without(p.order, i))
  }

  lemma {:induction false} SoundSizes(cap: nat, hashFn: Bytes -> nat, p: Parts)
    requires Sound(cap, hashFn, p)
    ensures |p.entries| == |p.hashes| == |p.live| == |p.stamp| == cap && p.size == |p.order|
  {
  }

  lemma {:induction false} DroppedParts(cap: nat, hashFn: Bytes -> nat, p: Parts, i: nat)
    requires Sound(cap, hashFn, p) && NoDuplicates(p.order) && InRange(p.order, cap) && i < |p.order|
    ensures p.order[i] < cap == |p.freeStack| && p.freeTop < cap && p.size > 0
    ensures Sound(cap, hashFn, Dropped(p, i)) && InRange(p.order, |p.entries|) &&
      InRange(Without(p.order, i), |p.entries|)
    ensures EntriesOf(p.entries, Without(p.order, i))
            == EntriesOf(p.entries, p.order)[..i] + EntriesOf(p.entries, p.order)[i + 1..]
  {
    hide LiveOk, FreeOk, Indexed, Recent, Hashed, NoDuplicates, EntriesOf, Without;
    EntriesRemove(hashFn, p.hashes, p.entries, p.order, i);
    RemovedLength(p.order, i);
    IndexedRemove(p.index, p.hashes, p.order, i);
    LiveRemove(p.live, p.order, i);
    FreeGive(p.freeStack, p.freeTop, p.order, cap, i);
    RecentRemove(p.stamp, p.clock, p.order, i);
    FreeShape(p.freeStack, p.freeTop, p.order, cap);
  }

  /** A free slot filled with an entry. */
  ghost function Accepted(hashFn: Bytes -> nat, p: Parts, s: nat, data: Bytes): (p': Parts)
    requires s < |p.entries| == |p.hashes| == |p.live| == |p.stamp| && p.freeTop > 0
  {
    Parts(p.entries[s := data], p.hashes[s := hashFn(data)], p.live[s := true], p.freeStack, p.freeTop - 1, p.size + 1,
          p.index + multiset{(Key48(hashFn(data)), s)}, [s] + p.order, p.stamp[s := p.clock], p.clock + 1)
  }

  lemma {:induction false} AcceptedParts(cap: nat, hashFn: Bytes -> nat, p: Parts, s: nat, data: Bytes)
    requires Sound(cap, hashFn, p) && 0 < p.freeTop <= |p.freeStack| && s < cap && s !in p.order
    requires FreeOk(p.freeStack, p.freeTop - 1, [s] + p.order, cap)
    ensures Sound(cap, hashFn, Accepted(hashFn, p, s, data))
    ensures InRange(p.order, |p.entries|) && InRange([s] + p.order, |p.entries|)
    ensures EntriesOf(p.entries[s := data], [s] + p.order) == [data] + EntriesOf(p.entries, p.order)
  {
    hide LiveOk, FreeOk, Indexed, Recent, EntriesOf;
    EntriesAdd(hashFn, p.hashes, p.entries, p.order, s, data);
    IndexedAdd(p.index, p.hashes, p.order, s, hashFn(data));
    LiveAdd(p.live, p.order, s);
    RecentAdd(p.stamp, p.clock, p.order, s);
  }

  lemma {:induction false} PromotedMembers(order: seq<nat>, i: nat, s: nat)
    requires NoDuplicates(order) && i < |order|
    ensures s in Promoted(order, i) <==> s in order
    ensures |Promoted(order, i)| == |order|
  {
    WithoutMembers(order, i, s);
  }

  /** Moving a slot to the front and marking it as just used. */
  ghost function Touched(p: Parts, i: nat): (p': Parts)
    requires i < |p.order| && p.order[i] < |p.stamp|
  {
    p.(order := Promoted(p.order, i), stamp := p.stamp[p.order[i] := p.clock], clock := p.clock + 1)
  }

  lemma {:induction false} TouchedParts(cap: nat, hashFn: Bytes -> nat, p: Parts, i: nat)
    requires Sound(cap, hashFn, p) && NoDuplicates(p.order) && InRange(p.order, cap) && i < |p.order|
    ensures Sound(cap, hashFn, Touched(p, i))
    ensures InRange(Promoted(p.order, i), |p.entries|)
    ensures var c := EntriesOf(p.entries, p.order);
      EntriesOf(p.entries, Promoted(p.order, i)) == [c[i]] + c[..i] + c[i + 1..]
  {
    hide Indexed, Recent, Hashed, EntriesOf, NoDuplicates, LiveOk, FreeOk;
    var order, s := p.order, p.order[i];
    WithoutMembers(order, i, s);
    IndexedRemove(p.index, p.hashes, order, i);
    var pair := (Key48(p.hashes[s]), s);
    IndexedAdd(p.index - multiset{pair}, p.hashes, Without(order, i), s, p.hashes[s]);
    assert p.index - multiset{pair} + multiset{pair} == p.index;
    assert p.hashes[s := p.hashes[s]] == p.hashes;
    RecentRemove(p.stamp, p.clock, order, i);
    RecentAdd(p.stamp, p.clock, Without(order, i), s);
    TouchedSlots(cap, p, i);
    TouchedEntries(hashFn, p, i);
  }

  lemma {:induction false} TouchedEntries(hashFn: Bytes -> nat, p: Parts, i: nat)
    requires Hashed(hashFn, p.hashes, p.entries, p.order) && i < |p.order|
    ensures Hashed(hashFn, p.hashes, p.entries, Promoted(p.order, i))
    ensures var c := EntriesOf(p.entries, p.order);
      EntriesOf(p.entries, Promoted(p.order, i)) == [c[i]] + c[..i] + c[i + 1..]
  {
    EntriesRemove(hashFn, p.hashes, p.entries, p.order, i);
    var o := Without(p.order, i);
    assert EntriesOf(p.entries, [p.order[i]] + o) == [p.entries[p.order[i]]] + EntriesOf(p.entries, o);
  }

  lemma {:induction false} TouchedSlots(cap: nat, p: Parts, i: nat)
    requires LiveOk(p.live, p.order) && FreeOk(p.freeStack, p.freeTop, p.order, cap)
    requires NoDuplicates(p.order) && i < |p.order|
    ensures LiveOk(p.live, Promoted(p.order, i)) && FreeOk(p.freeStack, p.freeTop, Promoted(p.order, i), cap)
  {
    hide Promoted, NoDuplicates;
    forall s: nat ensures s in Promoted(p.order, i) <==> s in p.order {
      PromotedMembers(p.order, i, s);
    }
    PromotedMembers(p.order, i, 0);
  }

  /** The scan visits exactly the slots the index has under a hash. */
  ghost predicate Visits(scan: seq<nat>, index: multiset<(nat, nat)>, k: nat) {
    forall s: nat {:trigger s in scan} :: s in scan <==> (k, s) in index
  }

  function Equal(eqFn: (Bytes, Bytes) -> bool, key: Bytes): (test: Bytes -> bool) {
    e => eqFn(key, e)
  }

  /** Entry i of the list has the hash and satisfies the test. */
  ghost predicate Matches(p: Parts, k: nat, test: Bytes -> bool, i: nat)
    requires i < |p.order| && InRange(p.order, |p.hashes|) && InRange(p.order, |p.entries|)
  {
    Key48(p.hashes[p.order[i]]) == k && test(p.entries[p.order[i]])
  }

  class Cache {
    const capacity: nat
    const entrySize: nat
    const hashFn: Bytes -> nat
    const eqFn: (Bytes, Bytes) -> bool
    var entries: seq<Bytes>
    var hashes: seq<nat>
    var live: seq<bool>
    var lruPrev: seq<nat>
    var lruNext: seq<nat>
    var lruHead: nat
    var lruTail: nat
    var freeStack: seq<nat>
    var freeTop: nat
    var size: nat
    var index: multiset<(nat, nat)>
    ghost var order: seq<nat>
    ghost var stamp: seq<nat>
    ghost var clock: nat

    ghost predicate Valid()
      reads this
    {
      && Represents(Links(lruPrev, lruNext, lruHead, lruTail), order, capacity)
      && Sound(capacity, hashFn, State())
    }

    /** The cached entries, most recently used first. */
    ghost function Contents(): (c: seq<Bytes>)
      requires Valid()
      reads this
      ensures |c| == |order|
    {
      EntriesOf(entries, order)
    }

    constructor (capacity: nat, entrySize: nat, hashFn: Bytes -> nat, eqFn: (Bytes, Bytes) -> bool)
      requires 0 < capacity < NONE && entrySize > 0
      ensures Valid() && order == [] && this.capacity == capacity && this.entrySize == entrySize
      ensures this.hashFn == hashFn && this.eqFn == eqFn
    {
      this.capacity, this.entrySize, this.hashFn, this.eqFn := capacity, entrySize, hashFn, eqFn;
      entries := seq(capacity, i => seq(entrySize, j => 0));
      hashes := seq(capacity, i => 0);
      live := seq(capacity, i => false);
      lruPrev, lruNext := seq(capacity, i => NONE), seq(capacity, i => NONE);
      lruHead, lruTail := NONE, NONE;
      freeStack := seq(capacity, i requires 0 <= i < capacity => capacity - 1 - i);
      freeTop := capacity;
      size := 0;
      index := multiset{};
      order, stamp, clock := [], seq(capacity, i => 0), 0;
      new;
      assert freeStack[..freeTop] == freeStack;
      forall s: nat | s < capacity ensures s in freeStack {
        assert freeStack[capacity - 1 - s] == s;
      }
    }

    // -------------------------------------------------------------- the list

    ghost predicate ListOk()
      reads this
    {
      Represents(Links(lruPrev, lruNext, lruHead, lruTail), order, capacity)
    }

    method LruAddHead(s: nat)
      requires ListOk() && s < capacity && s !in order
      modifies this`lruPrev, this`lruNext, this`lruHead, this`lruTail, this`order
      ensures ListOk() && order == [s] + old(order)
    {
      hide Represents;
      ghost var l := Links(lruPrev, lruNext, lruHead, lruTail);
      AddHeadRepresents(l, order, capacity, s);
      ListShape(l, order, capacity);
      lruPrev := lruPrev[s := NONE];
      lruNext := lruNext[s := lruHead];
      if lruHead != NONE {
        lruPrev := lruPrev[lruHead := s];
      }
      lruHead := s;
      if lruTail == NONE {
        lruTail := s;
      }
      order := [s] + order;
      assert Links(lruPrev, lruNext, lruHead, lruTail) == AddHead(l, s);
    }

    method LruRemove(s: nat, ghost i: nat)
      requires ListOk() && i < |order| && order[i] == s
      modifies this`lruPrev, this`lruNext, this`lruHead, this`lruTail, this`order
      ensures ListOk() && order == Without(old(order), i)
    {
      hide Represents;
      ghost var l := Links(lruPrev, lruNext, lruHead, lruTail);
      UnlinkRepresents(l, order, capacity, i);
      ListShape(l, order, capacity);
      var prev, next := lruPrev[s], lruNext[s];
      if prev != NONE {
        lruNext := lruNext[prev := next];
      } else {
        lruHead := next;
      }
      if next != NONE {
        lruPrev := lruPrev[next := prev];
      } else {
        lruTail := prev;
      }
      lruPrev := lruPrev[s := NONE];
      lruNext := lruNext[s := NONE];
      order := Without(order, i);
      assert Links(lruPrev, lruNext, lruHead, lruTail) == Unlink(l, s);
    }

    method LruPromote(s: nat, ghost i: nat)
      requires ListOk() && i < |order| && order[i] == s
      modifies this`lruPrev, this`lruNext, this`lruHead, this`lruTail, this`order
      ensures ListOk() && order == Promoted(old(order), i)
    {
      if lruHead == s {
        assert i == 0;
        assert order == [order[0]] + order[1..];
        return;
      }
      WithoutMembers(order, i, s);
      LruRemove(s, i);
      LruAddHead(s);
    }

    // -------------------------------------------------------------- taking out

    /** Removes a slot of the list from the cache. */
    method Drop(s: nat, ghost i: nat)
      requires Valid() && i < |order| && order[i] == s
      modifies this`index, this`lruPrev, this`lruNext, this`lruHead, this`lruTail, this`order, this`live,
        this`freeStack, this`freeTop, this`size
      ensures Valid() && order == Without(old(order), i) &&
        Contents() == old(Contents())[..i] + old(Contents())[i + 1..]
    {
      hide Represents, NoDuplicates, InRange, EntriesOf, Without, Sound;
      ListShape(Links(lruPrev, lruNext, lruHead, lruTail), order, capacity);
      SoundSizes(capacity, hashFn, State());
      DroppedParts(capacity, hashFn, State(), i);
      index := index - multiset{(Key48(hashes[s]), s)};
      LruRemove(s, i);
      live := live[s := false];
      freeStack := freeStack[freeTop := s];
      freeTop := freeTop + 1;
      size := size - 1;
    }

    /** Evicts the least recently used entry; fails exactly when the cache is empty. */
    method Evict() returns (ok: bool)
      requires Valid()
      modifies this`index, this`lruPrev, this`lruNext, this`lruHead, this`lruTail, this`order, this`live,
        this`freeStack, this`freeTop, this`size
      ensures Valid() && (ok <==> old(order) != [])
      ensures !ok ==> order == old(order) && Contents() == old(Contents())
      ensures ok ==>
        var n := |old(order)| - 1;
        && order == old(order)[..n] && Contents() == old(Contents())[..n]
        && forall k :: 0 <= k <= n ==> stamp[old(order)[n]] <= stamp[old(order)[k]]
    {
      if size == 0 {
        return false;
      }
      Drop(lruTail, |order| - 1);
      return true;
    }

    // -------------------------------------------------------------- putting in

    /** Puts an entry at the front, after evicting the least recently used one from a full cache.
        insertOk is whether the bare table finds memory for the new pair; when it does not, the
        evicted entry stays evicted and nothing else changes. */
    method Put(data: Bytes, insertOk: bool) returns (r: Option<nat>)
      requires Valid() && capacity > 0
      modifies this
      ensures Valid()
      ensures |data| != entrySize ==> r == None && Contents() == old(Contents()) && order == old(order)
      ensures |data| == entrySize ==>
        var was := old(Contents());
        var kept := if |was| == capacity then was[..capacity - 1] else was;
        && (r.Some? <==> insertOk)
        && (insertOk ==> Contents() == [data] + kept && order[0] == r.value < capacity
                         && |old(stamp)| == capacity && stamp == old(stamp)[r.value := old(clock)] &&
                           clock == old(clock) + 1)
        && (!insertOk ==> Contents() == kept)
    {
      if |data| != entrySize {
        return None;
      }
      FreeShape(freeStack, freeTop, order, capacity);
      if freeTop == 0 {
        var _ := Evict();
      }
      r := Install(data, insertOk);
    }

    method Install(data: Bytes, insertOk: bool) returns (r: Option<nat>)
      requires Valid() && |order| < capacity
      modifies this
      ensures Valid() && (r.Some? <==> insertOk)
      ensures insertOk ==> Contents() == [data] + old(Contents()) && order == [r.value] + old(order)
      ensures insertOk ==>
        r.value < |old(stamp)| && stamp == old(stamp)[r.value := old(clock)] &&
        clock == old(clock) + 1
      ensures !insertOk ==> Contents() == old(Contents()) && order == old(order)
    {
      hide Represents, LiveOk, FreeOk, Indexed, Recent, NoDuplicates, Hashed, EntriesOf, InRange;
      FreeShape(freeStack, freeTop, order, capacity);
      FreeTake(freeStack, freeTop, order, capacity);
      var s := freeStack[freeTop - 1];
      if insertOk {
        Accept(s, data);
        return Some(s);
      }
      EntriesAdd(hashFn, hashes, entries, order, s, data);
      IndexedAdd(index, hashes, order, s, 0);
      entries := entries[s := data];
      hashes := hashes[s := 0];
      return None;
    }

    /** Fills the slot on top of the free stack and links it in. */
    method Accept(s: nat, data: Bytes)
      requires Valid() && 0 < freeTop <= |freeStack| && s == freeStack[freeTop - 1] && s < capacity && s !in order
      requires FreeOk(freeStack, freeTop - 1, [s] + order, capacity)
      modifies this
      ensures Valid() && order == [s] + old(order) && Contents() == [data] + old(Contents())
      ensures s < |old(stamp)| && stamp == old(stamp)[s := old(clock)] && clock == old(clock) + 1
    {
      hide Represents, LiveOk, FreeOk, Indexed, Recent, NoDuplicates, Hashed, EntriesOf, InRange;
      ghost var p := State();
      AcceptedParts(capacity, hashFn, p, s, data);
      assert |entries| == |hashes| == |live| == |stamp| == capacity;
      ghost var p' := Accepted(hashFn, p, s, data);
      hide Sound;
      LruAddHead(s);
      entries := entries[s := data];
      hashes := hashes[s := hashFn(data)];
      freeTop := freeTop - 1;
      index := index + multiset{(Key48(hashFn(data)), s)};
      live := live[s := true];
      stamp, clock := stamp[s := clock], clock + 1;
      size := size + 1;
      assert State() == p';
    }

    // -------------------------------------------------------------- looking up

    ghost function State(): (p: Parts)
      reads this
    {
      Parts(entries, hashes, live, freeStack, freeTop, size, index, order, stamp, clock)
    }

    /** The first slot in scan order whose entry passes the test. */
    method Scan(k: nat, test: Bytes -> bool, scan: seq<nat>) returns (r: Option<nat>, ghost i: nat)
      requires Valid() && Visits(scan, index, k)
      ensures r.None? <==> forall j: nat :: j < |order| ==> !Matches(State(), k, test, j)
      ensures r.Some? ==> i < |order| && order[i] == r.value && Matches(State(), k, test, i)
    {
      i := 0;
      var n := 0;
      while n < |scan|
        invariant 0 <= n <= |scan|
        invariant forall m :: 0 <= m < n ==> scan[m] < capacity && !test(entries[scan[m]])
      {
        var s := scan[n];
        IndexedMember(index, hashes, order, k, s);
        assert s in scan && s in order;
        if s < capacity && live[s] && test(entries[s]) {
          i :| i < |order| && order[i] == s;
          assert Matches(State(), k, test, i);
          return Some(s), i;
        }
        n := n + 1;
      }
      forall j: nat | j < |order|
        ensures !Matches(State(), k, test, j)
      {
        IndexedMember(index, hashes, order, k, order[j]);
        if Key48(hashes[order[j]]) == k {
          assert order[j] in order && order[j] in scan;
        }
      }
      return None, 0;
    }

    /** Marks a cached slot as just used. */
    method Touch(s: nat, ghost i: nat)
      requires Valid() && i < |order| && order[i] == s
      modifies this`lruPrev, this`lruNext, this`lruHead, this`lruTail, this`order, this`stamp, this`clock
      ensures Valid() && order == Promoted(old(order), i)
      ensures var c := old(Contents()); Contents() == [c[i]] + c[..i] + c[i + 1..]
      ensures s < |old(stamp)| && stamp == old(stamp)[s := old(clock)] && clock == old(clock) + 1
    {
      hide Represents, EntriesOf, Promoted;
      ListShape(Links(lruPrev, lruNext, lruHead, lruTail), order, capacity);
      ghost var p := State();
      TouchedParts(capacity, hashFn, p, i);
      assert |stamp| == capacity;
      hide Sound;
      LruPromote(s, i);
      stamp, clock := stamp[s := clock], clock + 1;
      assert State() == Touched(p, i);
    }

    /** Finds an entry equal to the key and moves it to the front; None exactly when there is none,
        and then nothing changes. */
    method Get(key: Bytes, scan: seq<nat>) returns (r: Option<nat>)
      requires Valid() && Visits(scan, index, Key48(hashFn(key)))
      modifies this`lruPrev, this`lruNext, this`lruHead, this`lruTail, this`order, this`stamp, this`clock
      ensures Valid()
      ensures r.None? <==> forall j: nat :: j < |old(order)| ==>
        !Matches(old(State()), Key48(hashFn(key)), Equal(eqFn, key), j)
      ensures r.None? ==> order == old(order) && Contents() == old(Contents())
      ensures r.Some? ==> exists i: nat ::
        && i < |old(order)| && old(order)[i] == r.value &&
          Matches(old(State()), Key48(hashFn(key)), Equal(eqFn, key), i)
        && order == Promoted(old(order), i)
      ensures r.Some? ==>
        r.value < |old(stamp)| && stamp == old(stamp)[r.value := old(clock)] &&
        clock == old(clock) + 1
    {
      hide Represents, EntriesOf, Promoted, Matches, Visits;
      ghost var i: nat;
      r, i := Scan(Key48(hashFn(key)), Equal(eqFn, key), scan);
      if r.Some? {
        Touch(r.value, i);
      }
    }

    /** Finds an entry under a hash for which the caller's scan stops; the order does not change. */
    method Find(hash: nat, stop: Bytes -> bool, scan: seq<nat>) returns (r: Option<nat>)
      requires Valid() && Visits(scan, index, Key48(hash))
      ensures r.None? <==> forall j: nat :: j < |order| ==> !Matches(State(), Key48(hash), stop, j)
      ensures r.Some? ==> exists i: nat :: i < |order| && order[i] == r.value && Matches(State(), Key48(hash), stop, i)
    {
      hide Valid, Matches, Visits;
      ghost var i: nat;
      r, i := Scan(Key48(hash), stop, scan);
    }

    /** Marks the entry in a slot as just used; a slot that is not cached is ignored. */
    method Promote(s: nat)
      requires Valid()
      modifies this`lruPrev, this`lruNext, this`lruHead, this`lruTail, this`order, this`stamp, this`clock
      ensures Valid()
      ensures s !in old(order) ==> order == old(order) && Contents() == old(Contents())
      ensures s in old(order) ==>
        exists i: nat :: i < |old(order)| && old(order)[i] == s && order == Promoted(old(order), i)
      ensures s in old(order) ==> s < |old(stamp)| && stamp == old(stamp)[s := old(clock)] && clock == old(clock) + 1
    {
      hide Represents, EntriesOf, Promoted;
      ListShape(Links(lruPrev, lruNext, lruHead, lruTail), order, capacity);
      if s >= capacity || !live[s] {
        return;
      }
      ghost var i: nat :| i < |order| && order[i] == s;
      Touch(s, i);
    }

    /** Removes one entry equal to the key; false exactly when there is none. */
    method Remove(key: Bytes, scan: seq<nat>) returns (ok: bool)
      requires Valid() && Visits(scan, index, Key48(hashFn(key)))
      modifies this`index, this`lruPrev, this`lruNext, this`lruHead, this`lruTail, this`order, this`live,
        this`freeStack, this`freeTop, this`size
      ensures Valid()
      ensures !ok <==> forall j: nat :: j < |old(order)| ==>
        !Matches(old(State()), Key48(hashFn(key)), Equal(eqFn, key), j)
      ensures !ok ==> order == old(order) && Contents() == old(Contents())
      ensures ok ==> exists i: nat ::
        && i < |old(order)| && Matches(old(State()), Key48(hashFn(key)), Equal(eqFn, key), i)
        && order == Without(old(order), i) && Contents() == old(Contents())[..i] + old(Contents())[i + 1..]
    {
      hide Represents, EntriesOf, Without, Matches, Visits;
      var r, i := Scan(Key48(hashFn(key)), Equal(eqFn, key), scan);
      ok := r.Some?;
      if ok {
        Drop(r.value, i);
      }
    }
  }

  lemma {:induction false} ListShape(l: Links, order: seq<nat>, cap: nat)
    requires Represents(l, order, cap)
    ensures |l.prev| == cap == |l.next| < NONE && NoDuplicates(order) && InRange(order, cap)
    ensures l.head == (if order == [] then NONE else order[0])
  {
  }

  lemma {:induction false} RemovedLength(order: seq<nat>, i: nat)
    requires i < |order|
    ensures |Without(order, i)| == |order| - 1
  {
  }

  lemma {:induction false} FreeShape(stack: seq<nat>, top: nat, order: seq<nat>, cap: nat)
    requires FreeOk(stack, top, order, cap)
    ensures |stack| == cap && top + |order| == cap
  {
  }
}
