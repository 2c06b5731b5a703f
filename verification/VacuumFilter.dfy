/** The vacuum filter: look-ahead moves before eviction, and rollback when eviction fails. */
module VacuumFilter {
  import opened Options
  import opened BitXor
  import opened PackedSets
  import opened FingerprintBag
  import opened FilterHistory
  import opened FingerprintHash
  import opened VacuumIndex

  /** What a hash stands for. */
  ghost function Kind(mix: Mixer, ar: Ranges, sh: Shape): (cls: Classify) {
    (hash: nat) => ClassOf(Alt(mix, ar), Fingerprint(hash, sh.fpBits), HashIndex(hash, sh.buckets))
  }

  /** Slot k of bucket b does not hold a fingerprint with room in its other bucket. */
  ghost predicate Immovable(alt: Alternate, sh: Shape, sets: seq<PackedSet>, b: nat, k: nat)
    requires Stored(sh, sets) && b < sh.buckets && k < sh.bucketSize
  {
    var v := Read(sh, sets, b, k);
    v > 0 && alt(b, v) < sh.buckets ==> Lacks(sh, sets, alt(b, v), 0)
  }

  ghost predicate Stuck(alt: Alternate, sh: Shape, sets: seq<PackedSet>, b: nat)
    requires Stored(sh, sets) && b < sh.buckets
  {
    forall k: nat {:trigger Immovable(alt, sh, sets, b, k)} :: k < sh.bucketSize ==> Immovable(alt, sh, sets, b, k)
  }

  ghost predicate IsFirstMovable(alt: Alternate, sh: Shape, sets: seq<PackedSet>, b: nat, k: nat)
    requires Stored(sh, sets) && b < sh.buckets && k < sh.bucketSize
  {
    && !Immovable(alt, sh, sets, b, k)
    && forall i: nat {:trigger Immovable(alt, sh, sets, b, i)} :: i < k ==> Immovable(alt, sh, sets, b, i)
  }

  lemma {:induction false} SomeMovable(alt: Alternate, sh: Shape, sets: seq<PackedSet>, b: nat, k: nat) returns (j: nat)
    requires Stored(sh, sets) && b < sh.buckets && k < sh.bucketSize && !Stuck(alt, sh, sets, b)
    requires forall i: nat {:trigger Immovable(alt, sh, sets, b, i)} :: i < k ==> Immovable(alt, sh, sets, b, i)
    ensures j < sh.bucketSize && IsFirstMovable(alt, sh, sets, b, j)
    decreases sh.bucketSize - k
  {
    hide Immovable, Packs;
    if !Immovable(alt, sh, sets, b, k) {
      j := k;
    } else {
      j := SomeMovable(alt, sh, sets, b, k + 1);
    }
  }

  lemma {:induction false} MovableExists(alt: Alternate, sh: Shape, sets: seq<PackedSet>, b: nat)
    requires Stored(sh, sets) && b < sh.buckets && !Stuck(alt, sh, sets, b)
    ensures exists k: nat :: k < sh.bucketSize && IsFirstMovable(alt, sh, sets, b, k)
  {
    hide IsFirstMovable, Packs, Stuck;
    var j := SomeMovable(alt, sh, sets, b, 0);
  }

  /** The first movable slot of bucket b. */
  ghost function FirstMovable(alt: Alternate, sh: Shape, sets: seq<PackedSet>, b: nat): (j: nat)
    requires Stored(sh, sets) && b < sh.buckets && !Stuck(alt, sh, sets, b)
    ensures j < sh.bucketSize && IsFirstMovable(alt, sh, sets, b, j)
  {
    MovableExists(alt, sh, sets, b);
    var k: nat :| k < sh.bucketSize && IsFirstMovable(alt, sh, sets, b, k);
    k
  }

  /** The look-ahead move: the first movable fingerprint of b goes to the first empty slot of its
      other bucket, and fp takes its place. */
  ghost function Shoved(alt: Alternate, sh: Shape, sets: seq<PackedSet>, b: nat, fp: nat): (s: seq<PackedSet>)
    requires Stored(sh, sets) && b < sh.buckets && !Stuck(alt, sh, sets, b)
  {
    var k := FirstMovable(alt, sh, sets, b);
    var v := Read(sh, sets, b, k);
    Write(sh, Write(sh, sets, alt(b, v), FirstSlot(sh, sets, alt(b, v), 0), v), b, k, fp)
  }

  lemma {:induction false} ShovedIs(alt: Alternate, sh: Shape, sets: seq<PackedSet>, b: nat, fp: nat, k: nat, j: nat)
    requires Stored(sh, sets) && b < sh.buckets && k < sh.bucketSize && j < sh.bucketSize && !Stuck(alt, sh, sets, b)
    requires forall i: nat :: i < k ==> Immovable(alt, sh, sets, b, i)
    requires Read(sh, sets, b, k) > 0 && alt(b, Read(sh, sets, b, k)) < sh.buckets
    requires IsFirst(sh, sets, alt(b, Read(sh, sets, b, k)), 0, j)
    ensures var v := Read(sh, sets, b, k);
      Shoved(alt, sh, sets, b, fp) == Write(sh, Write(sh, sets, alt(b, v), j, v), b, k, fp)
  {
    hide Packs, Read, Write, Table;
    OneFirst(sh, sets, alt(b, Read(sh, sets, b, k)), 0, j);
    var k' := FirstMovable(alt, sh, sets, b);
    assert !Immovable(alt, sh, sets, b, k) && !Immovable(alt, sh, sets, b, k');
  }

  /** The eviction chain with a look-ahead at every step, as for the cuckoo filter. */
  ghost function Chase(mix: Mixer, ar: Ranges, sh: Shape, sets: seq<PackedSet>, b: nat, fp: nat, n: nat,
      max: nat): (r: Option<seq<PackedSet>>)
    requires Stored(sh, sets) && Pairs(Alt(mix, ar), sh.buckets) && b < sh.buckets && n <= max
    decreases max - n
  {
    if n == max then None
    else if !Stuck(Alt(mix, ar), sh, sets, b) then Some(Shoved(Alt(mix, ar), sh, sets, b, fp))
    else
      var slot := EvictSlot(mix, n, fp, sh.bucketSize);
      var victim := Read(sh, sets, b, slot);
      PairsAt(Alt(mix, ar), sh.buckets, victim, b);
      var evicted, next := Write(sh, sets, b, slot, fp), Alt(mix, ar)(b, victim);
      if Lacks(sh, evicted, next, 0) then Chase(mix, ar, sh, evicted, next, victim, n + 1, max)
      else Some(Write(sh, evicted, next, FirstSlot(sh, evicted, next, 0), victim))
  }

  lemma {:induction false} ChaseStep(mix: Mixer, ar: Ranges, sh: Shape, sets: seq<PackedSet>, b: nat, fp: nat, n: nat,
      max: nat)
    requires Stored(sh, sets) && Pairs(Alt(mix, ar), sh.buckets) && b < sh.buckets && n < max
    ensures
      var slot := EvictSlot(mix, n, fp, sh.bucketSize);
      var victim := Read(sh, sets, b, slot);
      var evicted, next := Write(sh, sets, b, slot, fp), AltIndex(mix, ar, b, victim);
      var chain := Chase(mix, ar, sh, sets, b, fp, n, max);
      next < sh.buckets &&
      if !Stuck(Alt(mix, ar), sh, sets, b) then chain == Some(Shoved(Alt(mix, ar), sh, sets, b, fp))
      else
        && (Lacks(sh, evicted, next, 0) ==> chain == Chase(mix, ar, sh, evicted, next, victim, n + 1, max))
        && (forall j: nat :: j < sh.bucketSize && IsFirst(sh, evicted, next, 0, j)
              ==> chain == Some(Write(sh, evicted, next, j, victim)))
  {
    hide Packs, Read, Write, AltIndex, EvictSlot, Stuck, Shoved, Pairs, Table, IsFirst, FirstSlot, Lacks;
    var slot := EvictSlot(mix, n, fp, sh.bucketSize);
    var victim := Read(sh, sets, b, slot);
    PairsAt(Alt(mix, ar), sh.buckets, victim, b);
    var evicted, next := Write(sh, sets, b, slot, fp), AltIndex(mix, ar, b, victim);
    forall j: nat | j < sh.bucketSize && IsFirst(sh, evicted, next, 0, j)
      ensures !Lacks(sh, evicted, next, 0) && FirstSlot(sh, evicted, next, 0) == j
    {
      OneFirst(sh, evicted, next, 0, j);
    }
  }

  lemma {:induction false} ChaseEnd(mix: Mixer, ar: Ranges, sh: Shape, sets: seq<PackedSet>, b: nat, fp: nat, max: nat)
    requires Stored(sh, sets) && Pairs(Alt(mix, ar), sh.buckets) && b < sh.buckets
    ensures Chase(mix, ar, sh, sets, b, fp, max, max) == None
  {
  }

  /** The table after inserting fp with buckets b and a: the first empty slot of b, or of a; a look-ahead move in b,
      or in a; or what the eviction chain leaves; nothing when the filter is full for it. */
  ghost function Stores(mix: Mixer, ar: Ranges, sh: Shape, sets: seq<PackedSet>, fp: nat, b: nat, a: nat, max: nat):
      (r: Option<seq<PackedSet>>)
    requires Stored(sh, sets) && Pairs(Alt(mix, ar), sh.buckets) && b < sh.buckets && a < sh.buckets
  {
    var direct := Replaced(sh, sets, b, a, 0, fp);
    if direct.Some? then direct
    else if !Stuck(Alt(mix, ar), sh, sets, b) then Some(Shoved(Alt(mix, ar), sh, sets, b, fp))
    else if !Stuck(Alt(mix, ar), sh, sets, a) then Some(Shoved(Alt(mix, ar), sh, sets, a, fp))
    else Chase(mix, ar, sh, sets, if (b + a) % 2 == 1 then b else a, fp, 0, max)
  }

  /** The first fingerprint of bucket b, in slot k, that has room in its other bucket, in slot j. */
  method FindMove(mix: Mixer, ar: Ranges, sh: Shape, sets: seq<PackedSet>, b: nat) returns (k: nat, j: int)
    requires Stored(sh, sets) && b < sh.buckets && Pairs(Alt(mix, ar), sh.buckets)
    ensures j < 0 <==> Stuck(Alt(mix, ar), sh, sets, b)
    ensures j >= 0 ==>
      && j < sh.bucketSize && k < sh.bucketSize && Read(sh, sets, b, k) > 0
      && AltIndex(mix, ar, b, Read(sh, sets, b, k)) < sh.buckets
      && IsFirst(sh, sets, AltIndex(mix, ar, b, Read(sh, sets, b, k)), 0, j)
      && forall i: nat :: i < k ==> Immovable(Alt(mix, ar), sh, sets, b, i)
  {
    hide Immovable, IsFirst, Packs, Pairs, Alt, AltIndex, Read, Table;
    k := 0;
    while k < sh.bucketSize
      invariant k <= sh.bucketSize
      invariant forall i: nat :: i < k ==> Immovable(Alt(mix, ar), sh, sets, b, i)
    {
      j := RoomFor(mix, ar, sh, sets, b, k);
      if j >= 0 {
        return;
      }
      k := k + 1;
    }
    j := -1;
  }

  /** An empty slot in the other bucket of the fingerprint in slot k of bucket b. */
  method RoomFor(mix: Mixer, ar: Ranges, sh: Shape, sets: seq<PackedSet>, b: nat, k: nat) returns (j: int)
    requires Stored(sh, sets) && b < sh.buckets && k < sh.bucketSize && Pairs(Alt(mix, ar), sh.buckets)
    ensures j < 0 <==> Immovable(Alt(mix, ar), sh, sets, b, k)
    ensures j >= 0 ==>
      && j < sh.bucketSize && Read(sh, sets, b, k) > 0
      && AltIndex(mix, ar, b, Read(sh, sets, b, k)) < sh.buckets
      && IsFirst(sh, sets, AltIndex(mix, ar, b, Read(sh, sets, b, k)), 0, j)
  {
    hide Lacks, Packs, Pairs, AltIndex, Read, Table;
    var v := Read(sh, sets, b, k);
    if v == 0 {
      return -1;
    }
    PairsAt(Alt(mix, ar), sh.buckets, v, b);
    j := FindSlot(sh, sets, AltIndex(mix, ar, b, v), 0);
  }

  class Filter {
    const mix: Mixer
    const shape: Shape
    const ar: Ranges
    const maxEvicts: nat
    var sets: seq<PackedSet>
    var count: nat
    ghost var history: seq<Event>

    ghost predicate Valid()
      reads this
    {
      && Stored(shape, sets)
      && maxEvicts <= 255
      && count == |Bag(Alt(mix, ar), shape, sets)|
      && Legal(Kind(mix, ar, shape), history)
      && Bag(Alt(mix, ar), shape, sets) == Contents(Kind(mix, ar, shape), history)
    }

    /** The ranges fit the table, so that every alternate bucket is in it. */
    ghost predicate Usable() {
      Aligned(ar, shape.buckets)
    }

    ghost function Held(): (m: multiset<Class>)
      requires Stored(shape, sets)
      reads this
    {
      Bag(Alt(mix, ar), shape, sets)
    }

    ghost function KindOf(hash: nat): (c: Class) {
      Kind(mix, ar, shape)(hash)
    }

    constructor (mix: Mixer, shape: Shape, ar: Ranges, maxEvicts: nat)
      requires shape.Ok() && maxEvicts <= 255
      ensures Valid() && Held() == multiset{} && history == []
      ensures this.mix == mix && this.shape == shape && this.ar == ar && this.maxEvicts == maxEvicts
    {
      var perSet := PerSet(shape.fpBits);
      EnoughPerSet(shape.fpBits);
      var m := (shape.Entries() + perSet - 1) / perSet;
      RoundedUp(shape.Entries(), perSet);
      this.mix, this.shape, this.ar, this.maxEvicts := mix, shape, ar, maxEvicts;
      sets := Cleared(m);
      count := 0;
      history := [];
      ClearedBag(Alt(mix, ar), shape, m);
    }

    /** The two buckets of a hash are in range, distinct, and stand for the same class. */
    lemma {:induction false} Facts(hash: U64)
      requires shape.Ok() && Usable()
      ensures Pairs(Alt(mix, ar), shape.buckets)
      ensures 0 < Fingerprint(hash, shape.fpBits) < Pow2(shape.fpBits)
      ensures HashIndex(hash, shape.buckets) < shape.buckets
      ensures var fp, b1 := Fingerprint(hash, shape.fpBits), HashIndex(hash, shape.buckets);
        var b2 := AltIndex(mix, ar, b1, fp);
        && b2 < shape.buckets && b1 != b2 && KindOf(hash) == ClassOf(Alt(mix, ar), fp, b1)
        && KindOf(hash) == ClassOf(Alt(mix, ar), fp, b2)
    {
      hide Jump, Delta, HashIndex, Fingerprint, Pow2, ClassOf, AltIndex, Aligned, Pairs;
      var b1, fp := HashIndex(hash, shape.buckets), Fingerprint(hash, shape.fpBits);
      AltPairs(mix, ar, shape.buckets);
      FingerprintRange(hash, shape.fpBits);
      HashIndexInRange(hash, shape.buckets);
      PairsAt(Alt(mix, ar), shape.buckets, fp, b1);
      assert Alt(mix, ar)(b1, fp) != b1;
    }

    /** True exactly when the class of the hash is held; so a hash inserted and not deleted
        since is always found when only such hashes are deleted. */
    method Lookup(hash: U64) returns (r: bool)
      requires Valid() && Usable()
      ensures r <==> KindOf(hash) in Held()
      ensures Honest(history) && hash in Live(history) ==> r
      ensures forall fp: nat, b: nat, a: nat :: Places(mix, ar, shape, hash, fp, b, a) ==>
        b < shape.buckets && a < shape.buckets && (r <==> !Lacks(shape, sets, b, fp) || !Lacks(shape, sets, a, fp))
    {
      PlacesAre(mix, ar, shape, hash);
      var fp := Fingerprint(hash, shape.fpBits);
      var b1 := HashIndex(hash, shape.buckets);
      var b2 := AltIndex(mix, ar, b1, fp);
      Facts(hash);
      InEitherBucket(Alt(mix, ar), shape, sets, fp, b1);
      if Honest(history) && hash in Live(history) {
        LiveIsFound(Kind(mix, ar, shape), history, hash);
      }
      hide *;
      var k := FindSlot(shape, sets, b1, fp);
      if k >= 0 {
        return true;
      }
      k := FindSlot(shape, sets, b2, fp);
      return k >= 0;
    }

    /** An accepted insert adds exactly one copy of the class of the hash, where the bits of the hash say.  A refused
        one leaves the packed table as it was, bit for bit; it happens only when both buckets are full and
        nothing in them can move to its other bucket. */
    method Insert(hash: U64) returns (r: Status)
      requires Valid() && Usable()
      modifies this
      ensures Valid() && r in {OK, FULL} && Pairs(Alt(mix, ar), shape.buckets)
      ensures r == OK ==>
        && Held() == old(Held()) + multiset{KindOf(hash)} && count == old(count) + 1
        && history == old(history) + [Inserted(hash)]
      ensures r == FULL ==> sets == old(sets) && count == old(count) && history == old(history) + [Refused(hash)]
      ensures forall fp: nat, b: nat, a: nat :: Places(mix, ar, shape, hash, fp, b, a) ==>
        && b < shape.buckets && a < shape.buckets
        && var s := Stores(mix, ar, shape, old(sets), fp, b, a, maxEvicts);
           (r == FULL <==> s == None) && (r == OK ==> s == Some(sets))
    {
      hide Bag, ClassOf, Packs, Xor, Pow2, Fingerprint, Legal, Contents, HashIndex, AltIndex, Pairs, Kind, Aligned,
        Stores;
      hide Places;
      var fp := Fingerprint(hash, shape.fpBits);
      var b1 := HashIndex(hash, shape.buckets);
      var b2 := AltIndex(mix, ar, b1, fp);
      Facts(hash);
      PlacesAre(mix, ar, shape, hash);
      r := Place(hash, fp, b1, b2);
    }

    method Place(ghost hash: nat, fp: nat, b1: nat, b2: nat) returns (r: Status)
      requires Valid() && Pairs(Alt(mix, ar), shape.buckets)
      requires b1 < shape.buckets && b2 < shape.buckets && 0 < fp < Pow2(shape.fpBits)
      requires ClassOf(Alt(mix, ar), fp, b1) == KindOf(hash) == ClassOf(Alt(mix, ar), fp, b2)
      modifies this
      ensures Valid() && r in {OK, FULL}
      ensures r == OK ==>
        && Held() == old(Held()) + multiset{KindOf(hash)} && count == old(count) + 1
        && history == old(history) + [Inserted(hash)]
      ensures r == FULL ==> sets == old(sets) && count == old(count) && history == old(history) + [Refused(hash)]
      ensures
        var s := Stores(mix, ar, shape, old(sets), fp, b1, b2, maxEvicts);
        (r == FULL <==> s == None) && (r == OK ==> s == Some(sets))
    {
      hide Bag, ClassOf, Packs, Lacks, Stuck, Undo, Xor, Pow2, Legal, Contents, AltIndex, Pairs;
      hide Kind, Chase, Shoved, IsFirst, FirstSlot;
      var k := FindSlot(shape, sets, b1, 0);
      if k >= 0 {
        OneFirst(shape, sets, b1, 0, k);
        Settle(Alt(mix, ar), shape, sets, b1, k, fp);
        sets := Write(shape, sets, b1, k, fp);
        r := Count(hash);
        return;
      }
      k := FindSlot(shape, sets, b2, 0);
      if k >= 0 {
        OneFirst(shape, sets, b2, 0, k);
        Settle(Alt(mix, ar), shape, sets, b2, k, fp);
        sets := Write(shape, sets, b2, k, fp);
        r := Count(hash);
        return;
      }
      var moved := LookAhead(b1, fp);
      if moved {
        r := Count(hash);
        return;
      }
      moved := LookAhead(b2, fp);
      if moved {
        r := Count(hash);
        return;
      }
      var b := if (b1 + b2) % 2 == 1 then b1 else b2;
      r := Evict(hash, b, fp);
    }

    /** Booking a placement that has just been made. */
    method Count(ghost hash: nat) returns (r: Status)
      requires Stored(shape, sets) && maxEvicts <= 255
      requires Legal(Kind(mix, ar, shape), history) && count == |Contents(Kind(mix, ar, shape), history)|
      requires Held() == Contents(Kind(mix, ar, shape), history) + multiset{KindOf(hash)}
      modifies this`count, this`history
      ensures Valid() && r == OK && count == old(count) + 1 && history == old(history) + [Inserted(hash)]
    {
      hide Bag, Packs, Kind, Legal, Contents;
      Append(Kind(mix, ar, shape), history, Inserted(hash));
      count := count + 1;
      history := history + [Inserted(hash)];
      return OK;
    }

    /** Looks for a fingerprint of bucket b that has room in its other bucket; if there is one,
        moves it there and puts fp in its place. */
    method LookAhead(b: nat, fp: nat) returns (moved: bool)
      requires Stored(shape, sets) && Pairs(Alt(mix, ar), shape.buckets)
      requires b < shape.buckets && 0 < fp < Pow2(shape.fpBits)
      modifies this`sets
      ensures Stored(shape, sets)
      ensures moved <==> !Stuck(Alt(mix, ar), shape, old(sets), b)
      ensures moved ==> Held() == old(Held()) + multiset{ClassOf(Alt(mix, ar), fp, b)}
      ensures moved ==> sets == Shoved(Alt(mix, ar), shape, old(sets), b, fp)
      ensures !moved ==> sets == old(sets)
    {
      hide Bag, ClassOf, Packs, Lacks, Pow2, Pairs, AltIndex, Read, Write, Stuck, Immovable, Shoved;
      var k, j := FindMove(mix, ar, shape, sets, b);
      moved := j >= 0;
      if moved {
        var v := Read(shape, sets, b, k);
        var o := AltIndex(mix, ar, b, v);
        Shove(Alt(mix, ar), shape, sets, b, k, fp, j);
        ShovedIs(Alt(mix, ar), shape, sets, b, fp, k, j);
        sets := Write(shape, sets, o, j, v);
        sets := Write(shape, sets, b, k, fp);
      }
    }

    /** The eviction chain, starting at the full bucket b, with a look-ahead at every step. */
    method Evict(ghost hash: nat, b: nat, fp: nat) returns (r: Status)
      requires Valid() && Pairs(Alt(mix, ar), shape.buckets) && b < shape.buckets && 0 < fp < Pow2(shape.fpBits)
      requires Lacks(shape, sets, b, 0) && ClassOf(Alt(mix, ar), fp, b) == KindOf(hash)
      modifies this
      ensures Valid() && r in {OK, FULL}
      ensures r == OK ==>
        && Held() == old(Held()) + multiset{KindOf(hash)} && count == old(count) + 1
        && history == old(history) + [Inserted(hash)]
      ensures r == FULL ==> sets == old(sets) && count == old(count) && history == old(history) + [Refused(hash)]
      ensures var chain := Chase(mix, ar, shape, old(sets), b, fp, 0, maxEvicts);
        (r == FULL <==> chain == None) && (r == OK ==> chain == Some(sets))
    {
      hide Bag, ClassOf, Packs, Lacks, Undo, Xor, Pow2, Legal, Contents, AltIndex, Pairs, Write, Kind, Stuck, Chase,
        Shoved, EvictSlot, Read, Table, FirstSlot;
      ghost var alt, all := Alt(mix, ar), Held() + multiset{KindOf(hash)};
      var bucket: nat, carried: nat := b, fp;
      var log: seq<Eviction> := [];
      assert Undo(shape, sets, log) == old(sets) by { NothingToUndo(shape, sets); }
      var n: nat := 0;
      while n < maxEvicts
        invariant n <= maxEvicts && |log| == n
        invariant Stored(shape, sets) && LogOk(shape, log) && Undo(shape, sets, log) == old(sets)
        invariant bucket < shape.buckets && 0 < carried < Pow2(shape.fpBits) && Lacks(shape, sets, bucket, 0)
        invariant Bag(alt, shape, sets) + multiset{ClassOf(alt, carried, bucket)} == all
        invariant count == old(count) && history == old(history)
        invariant Chase(mix, ar, shape, sets, bucket, carried, n, maxEvicts) ==
          Chase(mix, ar, shape, old(sets), b, fp, 0, maxEvicts)
      {
        ChaseStep(mix, ar, shape, sets, bucket, carried, n, maxEvicts);
        var moved := LookAhead(bucket, carried);
        if moved {
          r := Count(hash);
          return;
        }
        var k := EvictSlot(mix, n, carried, shape.bucketSize);
        var victim := Read(shape, sets, bucket, k);
        FullSlot(shape, sets, bucket, k);
        Kick(alt, shape, sets, bucket, k, carried, all);
        UndoEvict(shape, sets, log, bucket, k, carried);
        log := log + [Eviction(bucket, k, victim)];
        sets := Write(shape, sets, bucket, k, carried);
        carried := victim;
        bucket := AltIndex(mix, ar, bucket, carried);
        var j := FindSlot(shape, sets, bucket, 0);
        if j >= 0 {
          Settle(alt, shape, sets, bucket, j, carried);
          sets := Write(shape, sets, bucket, j, carried);
          r := Count(hash);
          return;
        }
        n := n + 1;
      }
      ChaseEnd(mix, ar, shape, sets, bucket, carried, maxEvicts);
      sets := Rollback(shape, sets, log);
      history := history + [Refused(hash)];
      Append(Kind(mix, ar, shape), old(history), Refused(hash));
      return FULL;
    }

    /** A delete succeeds exactly when the class of the hash is held, and then removes exactly
        one copy of it. */
    method Delete(hash: U64) returns (r: Status)
      requires Valid() && Usable()
      modifies this
      ensures Valid() && r in {OK, NOT_FOUND}
      ensures r == OK <==> KindOf(hash) in old(Held())
      ensures r == OK ==>
        && Held() == old(Held()) - multiset{KindOf(hash)} && count == old(count) - 1
        && history == old(history) + [Deleted(hash)]
      ensures r == NOT_FOUND ==> sets == old(sets) && count == old(count) && history == old(history) + [Missed(hash)]
      ensures Honest(old(history)) && hash in Live(old(history)) ==> r == OK
      ensures forall fp: nat, b: nat, a: nat :: Places(mix, ar, shape, hash, fp, b, a) ==>
        && b < shape.buckets && a < shape.buckets
        && Replaced(shape, old(sets), b, a, fp, 0) == if r == OK then Some(sets) else None
    {
      hide Bag, ClassOf, Packs, Pow2, Fingerprint, Legal, Contents, HashIndex, AltIndex, Live, Honest, Kind, Replaced;
      hide Places, Pairs;
      var fp := Fingerprint(hash, shape.fpBits);
      var b1 := HashIndex(hash, shape.buckets);
      var b2 := AltIndex(mix, ar, b1, fp);
      Facts(hash);
      PlacesAre(mix, ar, shape, hash);
      if Honest(history) && hash in Live(history) {
        LiveIsFound(Kind(mix, ar, shape), history, hash);
      }
      r := Unplace(hash, fp, b1, b2);
    }

    method Unplace(ghost hash: nat, fp: nat, b1: nat, b2: nat) returns (r: Status)
      requires Valid() && Pairs(Alt(mix, ar), shape.buckets) && 0 < fp
      requires b1 < shape.buckets && b2 < shape.buckets && b2 == AltIndex(mix, ar, b1, fp)
      requires ClassOf(Alt(mix, ar), fp, b1) == KindOf(hash) == ClassOf(Alt(mix, ar), fp, b2)
      modifies this
      ensures Valid() && r in {OK, NOT_FOUND}
      ensures r == OK <==> KindOf(hash) in old(Held())
      ensures r == OK ==>
        && Held() == old(Held()) - multiset{KindOf(hash)} && count == old(count) - 1
        && history == old(history) + [Deleted(hash)]
      ensures r == NOT_FOUND ==> sets == old(sets) && count == old(count) && history == old(history) + [Missed(hash)]
      ensures Replaced(shape, old(sets), b1, b2, fp, 0) == if r == OK then Some(sets) else None
    {
      hide Bag, ClassOf, Packs, Lacks, Pow2, Legal, Contents, AltIndex, Kind, IsFirst, FirstSlot, Pairs;
      InEitherBucket(Alt(mix, ar), shape, sets, fp, b1);
      var k := FindSlot(shape, sets, b1, fp);
      if k >= 0 {
        OneFirst(shape, sets, b1, fp, k);
        r := Clear(hash, b1, k, fp);
        return;
      }
      k := FindSlot(shape, sets, b2, fp);
      if k >= 0 {
        OneFirst(shape, sets, b2, fp, k);
        r := Clear(hash, b2, k, fp);
        return;
      }
      Append(Kind(mix, ar, shape), history, Missed(hash));
      history := history + [Missed(hash)];
      return NOT_FOUND;
    }

    /** Emptying a slot that holds a fingerprint of the class of the hash. */
    method Clear(ghost hash: nat, b: nat, k: nat, ghost fp: nat) returns (r: Status)
      requires Valid() && b < shape.buckets && k < shape.bucketSize && fp > 0
      requires Read(shape, sets, b, k) == fp && ClassOf(Alt(mix, ar), fp, b) == KindOf(hash)
      modifies this
      ensures Valid() && r == OK && KindOf(hash) in old(Held()) && sets == Write(shape, old(sets), b, k, 0)
      ensures Held() == old(Held()) - multiset{KindOf(hash)} && count == old(count) - 1
      ensures history == old(history) + [Deleted(hash)]
    {
      hide Bag, ClassOf, Packs, Pow2, Kind, Read, Legal, Contents;
      Vacate(Alt(mix, ar), shape, sets, b, k);
      Append(Kind(mix, ar, shape), history, Deleted(hash));
      sets := Write(shape, sets, b, k, 0);
      count := count - 1;
      history := history + [Deleted(hash)];
      return OK;
    }

    /** The counter is the number of entries in use, so it never exceeds the table. */
    lemma {:induction false} CountIsUsed()
      requires Valid()
      ensures count == Used(Table(shape, sets), shape.Entries()) <= shape.Entries()
    {
      BagSize(Alt(mix, ar), shape, sets);
    }
  }
}
