/** The cuckoo filter: partial-key cuckoo hashing with eviction and rollback.

    Masks of the form 2^k - 1 are written as remainders. */
module CuckooFilter {
  import opened Options
  import opened ModArith
  import opened BitXor
  import opened WordNumber
  import opened PackedSets
  import opened FingerprintBag
  import opened FilterHistory
  import opened FingerprintHash

  /** The bucket count is 2^k. */
  function HashIndex(hash: nat, k: nat): (b: nat)
    ensures b < Pow2(k)
  {
    (hash / U32_LIMIT) % Pow2(k)
  }

  function AltIndex(mix: Mixer, k: nat, b: nat, fp: nat): (a: nat)
    ensures a < Pow2(k)
  {
    Xor(b, mix(fp)) % Pow2(k)
  }

  function Alt(mix: Mixer, k: nat): (alt: Alternate) {
    (b, fp) => AltIndex(mix, k, b, fp)
  }

  /** The alternate bucket is in range and its own inverse, for every mixer. */
  lemma {:induction false} AltPairs(mix: Mixer, k: nat)
    ensures Pairs(Alt(mix, k), Pow2(k))
  {
    var alt := Alt(mix, k);
    forall b: nat, fp: nat | b < Pow2(k)
      ensures alt(b, fp) < Pow2(k) && alt(alt(b, fp), fp) == b
    {
      MaskedXorCancels(b, mix(fp), k);
    }
  }

  lemma {:induction false} MaskedXorCancels(b: nat, h: nat, k: nat)
    requires b < Pow2(k)
    ensures Xor(Xor(b, h) % Pow2(k), h) % Pow2(k) == b
  {
    hide Xor, Pow2;
    var p := Pow2(k);
    var low, a := h % p, Xor(b, h) % p;
    XorLowBits(b, h, k);
    SmallMod(b, p);
    XorLowBits(a, h, k);
    SmallMod(a, p);
    XorCancels(b, low);
  }

  lemma {:induction false} SmallMod(a: nat, p: nat)
    requires a < p
    ensures a % p == a
  {
  }

  // ---------------------------------------------------------------- the buckets of a hash, bit by bit

  /** Bucket b is made of the k bits of the hash above its 32 low ones. */
  ghost predicate IsHome(hash: nat, k: nat, b: nat) {
    b < Pow2(k) && forall j: nat :: j < k ==> (Bit(b, j) <==> Bit(hash, 32 + j))
  }

  /** Bucket a differs from b in just the bits, among the k low ones, that are set in the mixed fingerprint. */
  ghost predicate IsOther(mix: Mixer, k: nat, b: nat, fp: nat, a: nat) {
    a < Pow2(k) && forall j: nat :: j < k ==> (Bit(a, j) <==> Bit(b, j) != Bit(mix(fp), j))
  }

  lemma {:induction false} HomeIs(hash: nat, k: nat, b: nat)
    ensures IsHome(hash, k, b) <==> b == HashIndex(hash, k)
  {
    var i := HashIndex(hash, k);
    assert Pow2(32) == U32_LIMIT by { HalfWord(); }
    forall j: nat | j < k ensures Bit(i, j) <==> Bit(hash, 32 + j) {
      ModBit(hash / U32_LIMIT, k, j);
      DivBit(hash, 32, hash / U32_LIMIT, hash % U32_LIMIT, j);
    }
    if IsHome(hash, k, b) {
      BitsDecide(b, i, k);
    }
  }

  lemma {:induction false} OtherIs(mix: Mixer, k: nat, b: nat, fp: nat, a: nat)
    ensures IsOther(mix, k, b, fp, a) <==> a == AltIndex(mix, k, b, fp)
  {
    hide Xor;
    var i := AltIndex(mix, k, b, fp);
    forall j: nat | j < k ensures Bit(i, j) <==> Bit(b, j) != Bit(mix(fp), j) {
      ModBit(Xor(b, mix(fp)), k, j);
      XorBit(b, mix(fp), j);
    }
    if IsOther(mix, k, b, fp, a) {
      BitsDecide(a, i, k);
    }
  }

  /** The other bucket is another one exactly when the mixed fingerprint has one of the k low bits set. */
  lemma {:induction false} OtherDiffersIff(mix: Mixer, k: nat, b: nat, fp: nat)
    requires b < Pow2(k)
    ensures AltIndex(mix, k, b, fp) != b <==> mix(fp) % Pow2(k) != 0
  {
    hide AltIndex, Bit;
    var a, low := AltIndex(mix, k, b, fp), mix(fp) % Pow2(k);
    OtherIs(mix, k, b, fp, a);
    forall j: nat ensures (Bit(low, j) <==> j < k && Bit(mix(fp), j)) && !Bit(0, j) {
      ModBit(mix(fp), k, j);
      NoBit(j);
    }
    if a == b {
      forall j: nat ensures Bit(low, j) <==> Bit(0, j) {
        assert j < k ==> (Bit(a, j) <==> Bit(b, j) != Bit(mix(fp), j));
      }
      SameBits(low, 0);
    } else if low == 0 {
      forall j: nat | j < k ensures Bit(a, j) <==> Bit(b, j) {
        assert !Bit(low, j);
      }
      BitsDecide(a, b, k);
    }
  }

  /** Fingerprint and buckets of a hash, as described. */
  ghost predicate Places(mix: Mixer, k: nat, f: nat, hash: nat, fp: nat, b: nat, a: nat) {
    IsFingerprint(hash, f, fp) && IsHome(hash, k, b) && IsOther(mix, k, b, fp, a)
  }

  lemma {:induction false} PlacesAre(mix: Mixer, k: nat, f: nat, hash: nat)
    requires f >= 1
    ensures forall fp: nat, b: nat, a: nat :: Places(mix, k, f, hash, fp, b, a) <==>
      fp == Fingerprint(hash, f) && b == HashIndex(hash, k) && a == AltIndex(mix, k, b, fp)
  {
    hide IsFingerprint, IsHome, IsOther, Fingerprint, HashIndex, AltIndex;
    forall fp: nat, b: nat, a: nat
      ensures Places(mix, k, f, hash, fp, b, a) <==>
        fp == Fingerprint(hash, f) && b == HashIndex(hash, k) && a == AltIndex(mix, k, b, fp)
    {
      FingerprintIs(hash, f, fp);
      HomeIs(hash, k, b);
      OtherIs(mix, k, b, fp, a);
    }
  }

  /** What a hash stands for. */
  ghost function Kind(mix: Mixer, k: nat, f: nat): (cls: Classify) {
    (hash: nat) => ClassOf(Alt(mix, k), Fingerprint(hash, f), HashIndex(hash, k))
  }

  /** The eviction chain: the n-th to last of at most max evictions, carrying fp into the full bucket
      b; the table it leaves, or nothing when every bucket it reaches is full. */
  ghost function Chase(mix: Mixer, k: nat, sh: Shape, sets: seq<PackedSet>, b: nat, fp: nat, n: nat,
      max: nat): (r: Option<seq<PackedSet>>)
    requires Stored(sh, sets) && sh.buckets == Pow2(k) && b < sh.buckets && n <= max
    decreases max - n
  {
    if n == max then None
    else
      var slot := EvictSlot(mix, n, fp, sh.bucketSize);
      var victim := Read(sh, sets, b, slot);
      var evicted, next := Write(sh, sets, b, slot, fp), AltIndex(mix, k, b, victim);
      if Lacks(sh, evicted, next, 0) then Chase(mix, k, sh, evicted, next, victim, n + 1, max)
      else Some(Write(sh, evicted, next, FirstSlot(sh, evicted, next, 0), victim))
  }

  /** One eviction of the chain, and how it ends when slot j is the first empty one. */
  lemma {:induction false} ChaseStep(mix: Mixer, k: nat, sh: Shape, sets: seq<PackedSet>, b: nat, fp: nat, n: nat,
      max: nat)
    requires Stored(sh, sets) && sh.buckets == Pow2(k) && b < sh.buckets && n < max
    ensures
      var slot := EvictSlot(mix, n, fp, sh.bucketSize);
      var victim := Read(sh, sets, b, slot);
      var evicted, next := Write(sh, sets, b, slot, fp), AltIndex(mix, k, b, victim);
      var chain := Chase(mix, k, sh, sets, b, fp, n, max);
      && (Lacks(sh, evicted, next, 0) ==> chain == Chase(mix, k, sh, evicted, next, victim, n + 1, max))
      && (forall j: nat :: j < sh.bucketSize && IsFirst(sh, evicted, next, 0, j)
            ==> chain == Some(Write(sh, evicted, next, j, victim)))
  {
    hide Pow2, Packs, Read, Write, AltIndex, EvictSlot, Table, IsFirst, FirstSlot, Lacks;
    var slot := EvictSlot(mix, n, fp, sh.bucketSize);
    var victim := Read(sh, sets, b, slot);
    var evicted, next := Write(sh, sets, b, slot, fp), AltIndex(mix, k, b, victim);
    forall j: nat | j < sh.bucketSize && IsFirst(sh, evicted, next, 0, j)
      ensures !Lacks(sh, evicted, next, 0) && FirstSlot(sh, evicted, next, 0) == j
    {
      OneFirst(sh, evicted, next, 0, j);
    }
  }

  lemma {:induction false} ChaseEnd(mix: Mixer, k: nat, sh: Shape, sets: seq<PackedSet>, b: nat, fp: nat, max: nat)
    requires Stored(sh, sets) && sh.buckets == Pow2(k) && b < sh.buckets
    ensures Chase(mix, k, sh, sets, b, fp, max, max) == None
  {
  }

  /** The table after inserting fp with buckets b and a: the first empty slot of b, or of a, or what the eviction
      chain leaves; nothing when the filter is full for it. */
  ghost function Stores(mix: Mixer, k: nat, sh: Shape, sets: seq<PackedSet>, fp: nat, b: nat, a: nat, max: nat):
      (r: Option<seq<PackedSet>>)
    requires Stored(sh, sets) && sh.buckets == Pow2(k) && b < sh.buckets && a < sh.buckets
  {
    var direct := Replaced(sh, sets, b, a, 0, fp);
    if direct.Some? then direct else Chase(mix, k, sh, sets, if (b + a) % 2 == 1 then b else a, fp, 0, max)
  }

  class Filter {
    const mix: Mixer
    const shape: Shape
    const log2: nat
    const maxKicks: nat
    var sets: seq<PackedSet>
    var count: nat
    ghost var history: seq<Event>

    ghost predicate Valid()
      reads this
    {
      && Stored(shape, sets)
      && shape.buckets == Pow2(log2)
      && maxKicks <= 255
      && count == |Bag(Alt(mix, log2), shape, sets)|
      && Legal(Kind(mix, log2, shape.fpBits), history)
      && Bag(Alt(mix, log2), shape, sets) == Contents(Kind(mix, log2, shape.fpBits), history)
    }

    ghost function Held(): (m: multiset<Class>)
      requires Stored(shape, sets)
      reads this
    {
      Bag(Alt(mix, log2), shape, sets)
    }

    ghost function KindOf(hash: nat): (c: Class) {
      Kind(mix, log2, shape.fpBits)(hash)
    }

    constructor (mix: Mixer, log2: nat, bucketSize: nat, fpBits: nat, maxKicks: nat)
      requires bucketSize >= 1 && 1 <= fpBits <= 32 && maxKicks <= 255
      ensures Valid() && Held() == multiset{} && history == []
      ensures shape == Shape(Pow2(log2), bucketSize, fpBits)
      ensures this.mix == mix && this.log2 == log2 && this.maxKicks == maxKicks
    {
      var sh := Shape(Pow2(log2), bucketSize, fpBits);
      var perSet := PerSet(fpBits);
      EnoughPerSet(fpBits);
      var m := (sh.Entries() + perSet - 1) / perSet;
      RoundedUp(sh.Entries(), perSet);
      this.mix, this.log2, this.maxKicks := mix, log2, maxKicks;
      shape := sh;
      sets := Cleared(m);
      count := 0;
      history := [];
      ClearedBag(Alt(mix, log2), sh, m);
    }

    /** True exactly when the class of the hash is held; so a hash inserted and not deleted
        since is always found when only such hashes are deleted. */
    method Lookup(hash: U64) returns (r: bool)
      requires Valid()
      ensures r <==> KindOf(hash) in Held()
      ensures Honest(history) && hash in Live(history) ==> r
      ensures forall fp: nat, b: nat, a: nat :: Places(mix, log2, shape.fpBits, hash, fp, b, a) ==>
        (r <==> !Lacks(shape, sets, b, fp) || !Lacks(shape, sets, a, fp))
    {
      PlacesAre(mix, log2, shape.fpBits, hash);
      var fp := Fingerprint(hash, shape.fpBits);
      var i1 := HashIndex(hash, log2);
      var i2 := AltIndex(mix, log2, i1, fp);
      FingerprintRange(hash, shape.fpBits);
      AltPairs(mix, log2);
      InEitherBucket(Alt(mix, log2), shape, sets, fp, i1);
      if Honest(history) && hash in Live(history) {
        LiveIsFound(Kind(mix, log2, shape.fpBits), history, hash);
      }
      hide *;
      var k := FindSlot(shape, sets, i1, fp);
      if k >= 0 {
        return true;
      }
      k := FindSlot(shape, sets, i2, fp);
      return k >= 0;
    }

    /** An accepted insert adds exactly one copy of the class of the hash, where the bits of the hash say.  A refused
        one leaves the packed table as it was, bit for bit; it happens only when both buckets are full. */
    method Insert(hash: U64) returns (r: Status)
      requires Valid()
      modifies this
      ensures Valid() && r in {OK, FULL}
      ensures r == OK ==>
        && Held() == old(Held()) + multiset{KindOf(hash)} && count == old(count) + 1
        && history == old(history) + [Inserted(hash)]
      ensures r == FULL ==> sets == old(sets) && count == old(count) && history == old(history) + [Refused(hash)]
      ensures forall fp: nat, b: nat, a: nat :: Places(mix, log2, shape.fpBits, hash, fp, b, a) ==>
        var s := Stores(mix, log2, shape, old(sets), fp, b, a, maxKicks);
        (r == FULL <==> s == None) && (r == OK ==> s == Some(sets))
    {
      hide Bag, ClassOf, Packs, Xor, Pow2, Fingerprint, Legal, Contents, HashIndex, AltIndex, Stores;
      var fp := Fingerprint(hash, shape.fpBits);
      var i1 := HashIndex(hash, log2);
      var i2 := AltIndex(mix, log2, i1, fp);
      Facts(hash);
      PlacesAre(mix, log2, shape.fpBits, hash);
      hide Places, IsFingerprint, IsHome, IsOther;
      r := Place(hash, fp, i1, i2);
    }

    method Place(ghost hash: nat, fp: nat, i1: nat, i2: nat) returns (r: Status)
      requires Valid() && i1 < shape.buckets && i2 < shape.buckets && 0 < fp < Pow2(shape.fpBits)
      requires ClassOf(Alt(mix, log2), fp, i1) == KindOf(hash) == ClassOf(Alt(mix, log2), fp, i2)
      modifies this
      ensures Valid() && r in {OK, FULL}
      ensures r == OK ==>
        && Held() == old(Held()) + multiset{KindOf(hash)} && count == old(count) + 1
        && history == old(history) + [Inserted(hash)]
      ensures r == FULL ==> sets == old(sets) && count == old(count) && history == old(history) + [Refused(hash)]
      ensures
        var s := Stores(mix, log2, shape, old(sets), fp, i1, i2, maxKicks);
        (r == FULL <==> s == None) && (r == OK ==> s == Some(sets))
    {
      hide Bag, ClassOf, Packs, Lacks, Undo, Xor, Pow2, Legal, Contents, AltIndex, Chase, Kind, IsFirst, FirstSlot;
      var k := FindSlot(shape, sets, i1, 0);
      if k >= 0 {
        OneFirst(shape, sets, i1, 0, k);
        r := Fill(hash, i1, k, fp);
        return;
      }
      k := FindSlot(shape, sets, i2, 0);
      if k >= 0 {
        OneFirst(shape, sets, i2, 0, k);
        r := Fill(hash, i2, k, fp);
        return;
      }
      var i := if (i1 + i2) % 2 == 1 then i1 else i2;
      r := Evict(hash, i, fp);
    }

    /** The two buckets of a hash are in range and stand for the same class. */
    lemma {:induction false} Facts(hash: nat)
      requires shape.Ok() && shape.buckets == Pow2(log2)
      ensures Pairs(Alt(mix, log2), shape.buckets)
      ensures 0 < Fingerprint(hash, shape.fpBits) < Pow2(shape.fpBits)
      ensures HashIndex(hash, log2) < shape.buckets
      ensures var fp, i1 := Fingerprint(hash, shape.fpBits), HashIndex(hash, log2);
        var i2 := AltIndex(mix, log2, i1, fp);
        && i2 < shape.buckets && KindOf(hash) == ClassOf(Alt(mix, log2), fp, i1)
        && KindOf(hash) == ClassOf(Alt(mix, log2), fp, i2)
    {
      AltPairs(mix, log2);
      FingerprintRange(hash, shape.fpBits);
      PairsAt(Alt(mix, log2), shape.buckets, Fingerprint(hash, shape.fpBits), HashIndex(hash, log2));
    }

    /** Placing a fingerprint of the class of the hash in an empty slot. */
    method Fill(ghost hash: nat, b: nat, k: nat, fp: nat) returns (r: Status)
      requires Valid() && b < shape.buckets && k < shape.bucketSize && 0 < fp < Pow2(shape.fpBits)
      requires Read(shape, sets, b, k) == 0 && ClassOf(Alt(mix, log2), fp, b) == KindOf(hash)
      modifies this
      ensures Valid() && r == OK && sets == Write(shape, old(sets), b, k, fp)
      ensures Held() == old(Held()) + multiset{KindOf(hash)} && count == old(count) + 1
      ensures history == old(history) + [Inserted(hash)]
    {
      hide Bag, ClassOf, Packs, Pow2, Kind, Read;
      Settle(Alt(mix, log2), shape, sets, b, k, fp);
      Append(Kind(mix, log2, shape.fpBits), history, Inserted(hash));
      sets := Write(shape, sets, b, k, fp);
      count := count + 1;
      history := history + [Inserted(hash)];
      return OK;
    }

    /** The eviction chain, starting by pushing fp into the full bucket b. */
    method Evict(ghost hash: nat, b: nat, fp: nat) returns (r: Status)
      requires Valid() && b < shape.buckets && 0 < fp < Pow2(shape.fpBits)
      requires Lacks(shape, sets, b, 0) && ClassOf(Alt(mix, log2), fp, b) == KindOf(hash)
      modifies this
      ensures Valid() && r in {OK, FULL}
      ensures r == OK ==>
        && Held() == old(Held()) + multiset{KindOf(hash)} && count == old(count) + 1
        && history == old(history) + [Inserted(hash)]
      ensures r == FULL ==> sets == old(sets) && count == old(count) && history == old(history) + [Refused(hash)]
      ensures var chain := Chase(mix, log2, shape, old(sets), b, fp, 0, maxKicks);
        (r == FULL <==> chain == None) && (r == OK ==> chain == Some(sets))
    {
      hide Bag, ClassOf, Packs, Lacks, Undo, Xor, Pow2, Legal, Contents, AltIndex, Pairs, Write, Kind, Chase;
      ghost var alt, all := Alt(mix, log2), Held() + multiset{KindOf(hash)};
      Facts(hash);
      var i: nat, carried: nat := b, fp;
      var log: seq<Eviction> := [];
      assert Undo(shape, sets, log) == old(sets) by { NothingToUndo(shape, sets); }
      var n: nat := 0;
      while n < maxKicks
        invariant n <= maxKicks && |log| == n
        invariant Stored(shape, sets) && LogOk(shape, log) && Undo(shape, sets, log) == old(sets)
        invariant i < shape.buckets && 0 < carried < Pow2(shape.fpBits) && Lacks(shape, sets, i, 0)
        invariant Bag(alt, shape, sets) + multiset{ClassOf(alt, carried, i)} == all
        invariant count == old(count) && history == old(history)
        invariant Chase(mix, log2, shape, sets, i, carried, n, maxKicks) ==
          Chase(mix, log2, shape, old(sets), b, fp, 0, maxKicks)
      {
        var k := EvictSlot(mix, n, carried, shape.bucketSize);
        var victim := Read(shape, sets, i, k);
        FullSlot(shape, sets, i, k);
        Kick(alt, shape, sets, i, k, carried, all);
        ChaseStep(mix, log2, shape, sets, i, carried, n, maxKicks);
        UndoEvict(shape, sets, log, i, k, carried);
        log := log + [Eviction(i, k, victim)];
        sets := Write(shape, sets, i, k, carried);
        carried := victim;
        i := AltIndex(mix, log2, i, carried);
        var j := FindSlot(shape, sets, i, 0);
        if j >= 0 {
          Settle(alt, shape, sets, i, j, carried);
          sets := Write(shape, sets, i, j, carried);
          count := count + 1;
          history := history + [Inserted(hash)];
          Append(Kind(mix, log2, shape.fpBits), old(history), Inserted(hash));
          return OK;
        }
        n := n + 1;
      }
      ChaseEnd(mix, log2, shape, sets, i, carried, maxKicks);
      sets := Rollback(shape, sets, log);
      history := history + [Refused(hash)];
      Append(Kind(mix, log2, shape.fpBits), old(history), Refused(hash));
      return FULL;
    }

    /** A delete succeeds exactly when the class of the hash is held, and then removes exactly
        one copy of it. */
    method Delete(hash: U64) returns (r: Status)
      requires Valid()
      modifies this
      ensures Valid() && r in {OK, NOT_FOUND}
      ensures r == OK <==> KindOf(hash) in old(Held())
      ensures r == OK ==>
        && Held() == old(Held()) - multiset{KindOf(hash)} && count == old(count) - 1
        && history == old(history) + [Deleted(hash)]
      ensures r == NOT_FOUND ==> sets == old(sets) && count == old(count) && history == old(history) + [Missed(hash)]
      ensures Honest(old(history)) && hash in Live(old(history)) ==> r == OK
      ensures forall fp: nat, b: nat, a: nat :: Places(mix, log2, shape.fpBits, hash, fp, b, a) ==>
        Replaced(shape, old(sets), b, a, fp, 0) == if r == OK then Some(sets) else None
    {
      hide Bag, ClassOf, Packs, Pow2, Fingerprint, Legal, Contents, HashIndex, AltIndex, Live, Honest, Kind, Replaced;
      hide Places;
      var fp := Fingerprint(hash, shape.fpBits);
      var i1 := HashIndex(hash, log2);
      var i2 := AltIndex(mix, log2, i1, fp);
      Facts(hash);
      PlacesAre(mix, log2, shape.fpBits, hash);
      if Honest(history) && hash in Live(history) {
        LiveIsFound(Kind(mix, log2, shape.fpBits), history, hash);
      }
      r := Unplace(hash, fp, i1, i2);
    }

    method Unplace(ghost hash: nat, fp: nat, i1: nat, i2: nat) returns (r: Status)
      requires Valid() && Pairs(Alt(mix, log2), shape.buckets) && 0 < fp
      requires i1 < shape.buckets && i2 < shape.buckets && i2 == AltIndex(mix, log2, i1, fp)
      requires ClassOf(Alt(mix, log2), fp, i1) == KindOf(hash) == ClassOf(Alt(mix, log2), fp, i2)
      modifies this
      ensures Valid() && r in {OK, NOT_FOUND}
      ensures r == OK <==> KindOf(hash) in old(Held())
      ensures r == OK ==>
        && Held() == old(Held()) - multiset{KindOf(hash)} && count == old(count) - 1
        && history == old(history) + [Deleted(hash)]
      ensures r == NOT_FOUND ==> sets == old(sets) && count == old(count) && history == old(history) + [Missed(hash)]
      ensures Replaced(shape, old(sets), i1, i2, fp, 0) == if r == OK then Some(sets) else None
    {
      hide Bag, ClassOf, Packs, Lacks, Pow2, Legal, Contents, AltIndex, Kind, IsFirst, FirstSlot, Pairs;
      InEitherBucket(Alt(mix, log2), shape, sets, fp, i1);
      var k := FindSlot(shape, sets, i1, fp);
      if k >= 0 {
        OneFirst(shape, sets, i1, fp, k);
        r := Clear(hash, i1, k, fp);
        return;
      }
      k := FindSlot(shape, sets, i2, fp);
      if k >= 0 {
        OneFirst(shape, sets, i2, fp, k);
        r := Clear(hash, i2, k, fp);
        return;
      }
      Append(Kind(mix, log2, shape.fpBits), history, Missed(hash));
      history := history + [Missed(hash)];
      return NOT_FOUND;
    }

    /** Emptying a slot that holds a fingerprint of the class of the hash. */
    method Clear(ghost hash: nat, b: nat, k: nat, ghost fp: nat) returns (r: Status)
      requires Valid() && b < shape.buckets && k < shape.bucketSize && fp > 0
      requires Read(shape, sets, b, k) == fp && ClassOf(Alt(mix, log2), fp, b) == KindOf(hash)
      modifies this
      ensures Valid() && r == OK && KindOf(hash) in old(Held()) && sets == Write(shape, old(sets), b, k, 0)
      ensures Held() == old(Held()) - multiset{KindOf(hash)} && count == old(count) - 1
      ensures history == old(history) + [Deleted(hash)]
    {
      hide Bag, ClassOf, Packs, Pow2, Kind, Read, Legal, Contents;
      Vacate(Alt(mix, log2), shape, sets, b, k);
      Append(Kind(mix, log2, shape.fpBits), history, Deleted(hash));
      sets := Write(shape, sets, b, k, 0);
      count := count - 1;
      history := history + [Deleted(hash)];
      return OK;
    }

    /** The counter is the number of entries in use, so it never exceeds the table. */
    lemma {:induction false} CountIsUsed()
      requires Valid()
      ensures count == Used(Table(shape, sets), shape.Entries()) <= shape.Entries()
    {
      BagSize(Alt(mix, log2), shape, sets);
    }
  }

  /** Halving until the derived sizes fit their 32-bit fields. */
  method CapBuckets(nb0: nat, ghost k0: nat, bucketSize: nat) returns (nb: nat, ghost k: nat)
    requires 1 <= bucketSize <= 16 && nb0 == Pow2(k0)
    ensures nb == Pow2(k) && k <= k0 && nb <= U32_MAX / 2 + 1 && nb * bucketSize <= U32_MAX
    ensures k < k0 ==> 2 * nb > U32_MAX / 2 + 1 || 2 * nb * bucketSize > U32_MAX
  {
    nb, k := nb0, k0;
    while nb > U32_MAX / 2 + 1 || nb * bucketSize > U32_MAX
      invariant nb == Pow2(k) && k <= k0
      invariant k < k0 ==> 2 * nb > U32_MAX / 2 + 1 || 2 * nb * bucketSize > U32_MAX
      decreases nb
    {
      assert k > 0;
      nb, k := nb / 2, k - 1;
    }
  }

  lemma {:induction false} LogOfPower(k: nat)
    ensures Log2(Pow2(k)) == k
  {
    if k > 0 {
      LogOfPower(k - 1);
    }
  }

  lemma {:induction false} BucketsHold(total: nat, bs: nat, nb: nat)
    requires bs > 0 && (total + bs - 1) / bs <= nb
    ensures total <= nb * bs
  {
    RoundedUp(total, bs);
    assert (total + bs - 1) / bs * bs <= nb * bs;
  }

  /** The number of buckets: the least power of two with room for total entries, capped. */
  /** Half the buckets would not hold the entries. */
  lemma {:induction false} HalfTooFew(wanted: nat, total: nat, bs: nat, k: nat, k0: nat)
    requires bs >= 1 && wanted == (total + bs - 1) / bs && 0 < k <= k0 && Pow2(k0 - 1) < wanted
    ensures Pow2(k) / 2 * bs < total
  {
    Pow2Monotone(k - 1, k0 - 1);
    assert Pow2(k) == 2 * Pow2(k - 1);
    Fewer(Pow2(k - 1), wanted, total, bs);
  }

  lemma {:induction false} Fewer(h: nat, wanted: nat, total: nat, bs: nat)
    requires bs >= 1 && wanted == (total + bs - 1) / bs && h < wanted
    ensures h * bs < total
  {
    var a := total + bs - 1;
    assert a == bs * wanted + a % bs;
    Multiples(bs, h + 1, wanted);
    assert bs * (h + 1) == h * bs + bs;
  }

  method ChooseBuckets(total: nat, bs: nat) returns (nb: nat, ghost k: nat)
    requires 1 <= bs <= 16 && total <= 2 * U32_MAX
    ensures nb == Pow2(k) && Log2(nb) == k && nb <= U32_MAX / 2 + 1 && nb * bs <= U32_MAX
    ensures nb * bs < total ==> 2 * nb > U32_MAX / 2 + 1 || 2 * nb * bs > U32_MAX
    ensures nb > 1 ==> nb / 2 * bs < total
  {
    hide Pow2, NextPowerOfTwo, Log2;
    var wanted := (total + bs - 1) / bs;
    WantedFits(total, bs);
    ghost var k0 := NextPowerIsLeast(wanted);
    nb, k := CapBuckets(NextPowerOfTwo(wanted), k0, bs);
    LogOfPower(k);
    PowZero();
    if k > 0 {
      HalfTooFew(wanted, total, bs, k, k0);
    }
    if k == k0 {
      BucketsHold(total, bs, nb);
    }
  }

  /** A filter for capacity hashes; total is the capacity divided by the target load of 0.95,
      rounded up.  The table has room for total entries unless doubling it would overflow a
      32-bit field. */
  method Create(mix: Mixer, capacity: nat, total: nat, bucketSize: nat, fpBits: nat, maxKicks: nat) returns (r: Filter?)
    requires capacity <= total <= 2 * capacity && bucketSize < 256 && fpBits < 256 && maxKicks < 256
    ensures r == null <==> capacity == 0 || capacity > U32_MAX || bucketSize > 16 || fpBits > 32
    ensures r != null ==>
      && r.Valid() && r.Held() == multiset{} && r.history == [] && r.mix == mix
      && r.shape.bucketSize == (if bucketSize == 0 then 4 else bucketSize)
      && r.shape.fpBits == (if fpBits == 0 then 10 else fpBits)
      && r.maxKicks == (if maxKicks == 0 then 200 else maxKicks) && r.shape.buckets == Pow2(r.log2)
    ensures r != null ==>
      && r.shape.Entries() <= U32_MAX && r.shape.buckets <= U32_MAX / 2 + 1
      && (r.shape.Entries() < total ==> 2 * r.shape.buckets > U32_MAX / 2 + 1 || 2 * r.shape.Entries() > U32_MAX)
      && (r.shape.buckets > 1 ==> r.shape.buckets / 2 * r.shape.bucketSize < total)
  {
    hide Pow2, NextPowerOfTwo, Log2, Bag, Legal, Contents, Kind, Packs;
    if capacity == 0 || capacity > U32_MAX || bucketSize > 16 || fpBits > 32 {
      return null;
    }
    var bs, f, kicks := Default(bucketSize, 4), Default(fpBits, 10), Default(maxKicks, 200);
    var nb, k := ChooseBuckets(total, bs);
    r := new Filter(mix, Log2(nb), bs, f, kicks);
  }

  lemma {:induction false} WantedFits(total: nat, bs: nat)
    requires 1 <= bs <= 16 && total <= 2 * U32_MAX
    ensures (total + bs - 1) / bs <= Pow2(64)
  {
    hide Pow2;
    DivShrinks(total + bs - 1, bs);
    assert Pow2(0) == 1 by { PowZero(); }
    Pow2Byte(0);
    Pow2Byte(8);
    Pow2Byte(16);
    Pow2Byte(24);
    Pow2Byte(32);
    Pow2Monotone(40, 64);
  }
}
