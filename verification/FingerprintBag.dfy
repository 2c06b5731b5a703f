/** What a cuckoo-style table of fingerprints means: a bag of classes.

    A fingerprint stored in bucket b could as well be stored in its alternate bucket, so it
    stands for the fingerprint together with the unordered pair of buckets. */
module FingerprintBag {
  import opened Options
  import opened ModArith
  import opened BitXor
  import opened PackedSets

  datatype Class = Class(fp: nat, lo: nat, hi: nat)

  /** The other bucket of a fingerprint, from one of its buckets. */
  type Alternate = (nat, nat) -> nat

  datatype Shape = Shape(buckets: nat, bucketSize: nat, fpBits: nat) {
    predicate Ok() {
      buckets >= 1 && bucketSize >= 1 && 1 <= fpBits <= 32
    }

    function Entries(): (n: nat) {
      buckets * bucketSize
    }

    /** Index of slot k of bucket b. */
    function Slot(b: nat, k: nat): (idx: nat)
      requires Ok() && b < buckets && k < bucketSize
      ensures idx < Entries()
    {
      SlotInTable(b, k, buckets, bucketSize);
      b * bucketSize + k
    }

    function BucketOf(idx: nat): (b: nat)
      requires Ok()
    {
      idx / bucketSize
    }
  }

  lemma {:induction false} SlotInTable(b: nat, k: nat, nb: nat, bs: nat)
    requires b < nb && k < bs
    ensures b * bs + k < nb * bs
  {
    assert (b + 1) * bs <= nb * bs;
  }

  lemma {:induction false} SlotBucket(sh: Shape, b: nat, k: nat)
    requires sh.Ok() && b < sh.buckets && k < sh.bucketSize
    ensures sh.BucketOf(sh.Slot(b, k)) == b
  {
    DivUnique(b * sh.bucketSize + k, b, k, sh.bucketSize);
  }

  lemma {:induction false} SlotOfIndex(sh: Shape, idx: nat)
    requires sh.Ok() && idx < sh.Entries()
    ensures sh.BucketOf(idx) < sh.buckets && idx % sh.bucketSize < sh.bucketSize
    ensures sh.Slot(sh.BucketOf(idx), idx % sh.bucketSize) == idx
  {
    SetIndex(idx, sh.buckets, sh.bucketSize);
  }

  /** The alternate bucket is in range and its own inverse. */
  ghost predicate Pairs(alt: Alternate, nb: nat) {
    forall b: nat, fp: nat {:trigger alt(b, fp)} ::
      b < nb ==> alt(b, fp) < nb && alt(alt(b, fp), fp) == b
  }

  ghost function ClassOf(alt: Alternate, fp: nat, b: nat): (c: Class) {
    var o := alt(b, fp);
    if b <= o then Class(fp, b, o) else Class(fp, o, b)
  }

  /** Two placements of a fingerprint are the same class exactly when the buckets are the
      same or each other's alternates. */
  lemma {:induction false} SameClass(alt: Alternate, nb: nat, fp: nat, b: nat, c: nat)
    requires Pairs(alt, nb) && b < nb && c < nb
    ensures ClassOf(alt, fp, b) == ClassOf(alt, fp, c) <==> c == b || c == alt(b, fp)
  {
    assert alt(alt(b, fp), fp) == b;
    assert alt(alt(c, fp), fp) == c;
  }

  ghost function One(alt: Alternate, fp: nat, b: nat): (m: multiset<Class>) {
    if fp == 0 then multiset{} else multiset{ClassOf(alt, fp, b)}
  }

  /** The bag of the first n entries. */
  ghost function Prefix(alt: Alternate, sh: Shape, t: seq<nat>, n: nat): (m: multiset<Class>)
    requires sh.Ok() && n <= |t|
  {
    if n == 0 then multiset{} else Prefix(alt, sh, t, n - 1) + One(alt, t[n - 1], sh.BucketOf(n - 1))
  }

  ghost predicate Stored(sh: Shape, sets: seq<PackedSet>) {
    sh.Ok() && Packs(sets, sh.Entries(), sh.fpBits)
  }

  ghost function Table(sh: Shape, sets: seq<PackedSet>): (t: seq<nat>)
    requires Stored(sh, sets)
    ensures |t| == sh.Entries()
  {
    Entries(sets, sh.Entries(), sh.fpBits)
  }

  ghost function Bag(alt: Alternate, sh: Shape, sets: seq<PackedSet>): (m: multiset<Class>)
    requires Stored(sh, sets)
  {
    Prefix(alt, sh, Table(sh, sets), sh.Entries())
  }

  lemma {:induction false} PrefixUpdate(alt: Alternate, sh: Shape, t: seq<nat>, n: nat, i: nat, v: nat)
    requires sh.Ok() && n <= |t| && i < |t|
    ensures n <= i ==> Prefix(alt, sh, t[i := v], n) == Prefix(alt, sh, t, n)
    ensures i < n ==>
      Prefix(alt, sh, t[i := v], n) + One(alt, t[i], sh.BucketOf(i)) ==
        Prefix(alt, sh, t, n) + One(alt, v, sh.BucketOf(i))
  {
    hide One, Shape.BucketOf, Shape.Ok;
    if n > 0 {
      PrefixUpdate(alt, sh, t, n - 1, i, v);
      var u, b := t[i := v], sh.BucketOf(n - 1);
      assert Prefix(alt, sh, u, n) == Prefix(alt, sh, u, n - 1) + One(alt, u[n - 1], b);
      assert Prefix(alt, sh, t, n) == Prefix(alt, sh, t, n - 1) + One(alt, t[n - 1], b);
      if i < n - 1 {
        assert u[n - 1] == t[n - 1];
        var z, x, y := One(alt, t[n - 1], b), One(alt, t[i], sh.BucketOf(i)), One(alt, v, sh.BucketOf(i));
        assert Prefix(alt, sh, u, n - 1) + z + x == (Prefix(alt, sh, u, n - 1) + x) + z;
        assert Prefix(alt, sh, t, n - 1) + z + y == (Prefix(alt, sh, t, n - 1) + y) + z;
      } else if i == n - 1 {
        assert u[n - 1] == v;
      }
    }
  }

  /** Entry i stands for class c. */
  ghost predicate Holds(alt: Alternate, sh: Shape, t: seq<nat>, i: nat, c: Class)
    requires sh.Ok() && i < |t|
  {
    t[i] > 0 && ClassOf(alt, t[i], sh.BucketOf(i)) == c
  }

  lemma {:induction false} PrefixMember(alt: Alternate, sh: Shape, t: seq<nat>, n: nat, c: Class)
    requires sh.Ok() && n <= |t|
    ensures c in Prefix(alt, sh, t, n) <==> exists i: nat :: i < n && Holds(alt, sh, t, i, c)
  {
    if n > 0 {
      PrefixMember(alt, sh, t, n - 1, c);
      LastMember(alt, sh, t, n, c);
      hide Holds, Prefix;
      if c in Prefix(alt, sh, t, n) && !Holds(alt, sh, t, n - 1, c) {
        var i: nat :| i < n - 1 && Holds(alt, sh, t, i, c);
      }
      if i: nat :| i < n && Holds(alt, sh, t, i, c) {
        assert i == n - 1 || i < n - 1;
      }
    }
  }

  lemma {:induction false} LastMember(alt: Alternate, sh: Shape, t: seq<nat>, n: nat, c: Class)
    requires sh.Ok() && 0 < n <= |t|
    ensures c in Prefix(alt, sh, t, n) <==> c in Prefix(alt, sh, t, n - 1) || Holds(alt, sh, t, n - 1, c)
  {
    hide Shape.BucketOf;
  }

  /** Number of entries in use. */
  ghost function Used(t: seq<nat>, n: nat): (u: nat)
    requires n <= |t|
    ensures u <= n
  {
    if n == 0 then 0 else Used(t, n - 1) + if t[n - 1] == 0 then 0 else 1
  }

  lemma {:induction false} PrefixSize(alt: Alternate, sh: Shape, t: seq<nat>, n: nat)
    requires sh.Ok() && n <= |t|
    ensures |Prefix(alt, sh, t, n)| == Used(t, n)
  {
    if n > 0 {
      PrefixSize(alt, sh, t, n - 1);
    }
  }

  /** The size of the bag is the number of entries in use. */
  lemma {:induction false} BagSize(alt: Alternate, sh: Shape, sets: seq<PackedSet>)
    requires Stored(sh, sets)
    ensures |Bag(alt, sh, sets)| == Used(Table(sh, sets), sh.Entries()) <= sh.Entries()
  {
    PrefixSize(alt, sh, Table(sh, sets), sh.Entries());
  }

  // ---------------------------------------------------------------- reading and writing slots

  function Read(sh: Shape, sets: seq<PackedSet>, b: nat, k: nat): (v: nat)
    requires Stored(sh, sets) && b < sh.buckets && k < sh.bucketSize
    ensures v == Table(sh, sets)[sh.Slot(b, k)]
  {
    Entry(sets, sh.Entries(), sh.fpBits, sh.Slot(b, k))
  }

  function Write(sh: Shape, sets: seq<PackedSet>, b: nat, k: nat, v: nat): (s: seq<PackedSet>)
    requires Stored(sh, sets) && b < sh.buckets && k < sh.bucketSize
    ensures Stored(sh, s)
  {
    WriteEntry(sets, sh.Entries(), sh.fpBits, sh.Slot(b, k), v)
  }

  lemma {:induction false} ReadBound(sh: Shape, sets: seq<PackedSet>, b: nat, k: nat)
    requires Stored(sh, sets) && b < sh.buckets && k < sh.bucketSize
    ensures Read(sh, sets, b, k) < Pow2(sh.fpBits)
  {
    EntryBound(sets, sh.Entries(), sh.fpBits, sh.Slot(b, k));
  }

  /** Writing a slot trades the class it held for the class it holds. */
  lemma {:induction false} WriteTrades(alt: Alternate, sh: Shape, sets: seq<PackedSet>, b: nat, k: nat, v: nat)
    requires Stored(sh, sets) && b < sh.buckets && k < sh.bucketSize && v < Pow2(sh.fpBits)
    ensures Bag(alt, sh, Write(sh, sets, b, k, v)) + One(alt, Read(sh, sets, b, k), b)
         == Bag(alt, sh, sets) + One(alt, v, b)
  {
    hide One, Prefix, Pow2, Entries, Entry, WriteEntry, Packs, Shape.Slot, Shape.BucketOf, Shape.Entries, Shape.Ok;
    var idx := sh.Slot(b, k);
    SlotBucket(sh, b, k);
    EntriesAfterWrite(sets, sh.Entries(), sh.fpBits, idx, v);
    PrefixUpdate(alt, sh, Table(sh, sets), sh.Entries(), idx, v);
  }

  lemma {:induction false} Cancel(a: multiset<Class>, b: multiset<Class>, c: Class)
    requires a + multiset{c} == b
    ensures c in b && a == b - multiset{c}
  {
    assert (a + multiset{c}) - multiset{c} == a;
  }

  lemma {:induction false} CancelWithin(a: multiset<Class>, b: multiset<Class>, c: Class, d: Class)
    requires a + multiset{c} == b + multiset{c} + multiset{d}
    ensures a == b + multiset{d}
  {
    Cancel(a, b + multiset{c} + multiset{d}, c);
    assert b + multiset{c} + multiset{d} == b + multiset{d} + multiset{c};
    Cancel(b + multiset{d}, b + multiset{d} + multiset{c}, c);
  }

  /** Filling an empty slot adds the class of what is written. */
  lemma {:induction false} Settle(alt: Alternate, sh: Shape, sets: seq<PackedSet>, b: nat, k: nat, fp: nat)
    requires Stored(sh, sets) && b < sh.buckets && k < sh.bucketSize && 0 < fp < Pow2(sh.fpBits)
    requires Read(sh, sets, b, k) == 0
    ensures Bag(alt, sh, Write(sh, sets, b, k, fp)) == Bag(alt, sh, sets) + multiset{ClassOf(alt, fp, b)}
  {
    hide Bag, Read, Write, ClassOf, Stored, Pow2;
    WriteTrades(alt, sh, sets, b, k, fp);
  }

  /** Clearing a slot removes one copy of the class it held. */
  lemma {:induction false} Vacate(alt: Alternate, sh: Shape, sets: seq<PackedSet>, b: nat, k: nat)
    requires Stored(sh, sets) && b < sh.buckets && k < sh.bucketSize && Read(sh, sets, b, k) > 0
    ensures ClassOf(alt, Read(sh, sets, b, k), b) in Bag(alt, sh, sets)
    ensures Bag(alt, sh, Write(sh, sets, b, k, 0)) ==
      Bag(alt, sh, sets) - multiset{ClassOf(alt, Read(sh, sets, b, k), b)}
  {
    hide Bag, Read, Write, ClassOf, Stored;
    var m, c := Bag(alt, sh, sets), ClassOf(alt, Read(sh, sets, b, k), b);
    WriteTrades(alt, sh, sets, b, k, 0);
    assert m + One(alt, 0, b) == m;
    Cancel(Bag(alt, sh, Write(sh, sets, b, k, 0)), m, c);
  }

  /** An eviction: the carried fingerprint takes the slot, and its victim is carried on to the
      victim's other bucket.  Table and carried fingerprint together stand for the same bag. */
  lemma {:induction false} Kick(alt: Alternate, sh: Shape, sets: seq<PackedSet>, b: nat, k: nat, fp: nat,
      all: multiset<Class>)
    requires Stored(sh, sets) && Pairs(alt, sh.buckets) && b < sh.buckets && k < sh.bucketSize &&
      0 < fp < Pow2(sh.fpBits)
    requires Read(sh, sets, b, k) > 0
    requires Bag(alt, sh, sets) + multiset{ClassOf(alt, fp, b)} == all
    ensures alt(b, Read(sh, sets, b, k)) < sh.buckets
    ensures var v := Read(sh, sets, b, k);
      Bag(alt, sh, Write(sh, sets, b, k, fp)) + multiset{ClassOf(alt, v, alt(b, v))} == all
  {
    hide Bag, Read, Write, ClassOf, Stored, Pow2, Pairs;
    WriteTrades(alt, sh, sets, b, k, fp);
    PairsAt(alt, sh.buckets, Read(sh, sets, b, k), b);
  }

  lemma {:induction false} ReadElsewhere(sh: Shape, sets: seq<PackedSet>, b: nat, k: nat, v: nat, b': nat, k': nat)
    requires Stored(sh, sets) && b < sh.buckets && k < sh.bucketSize && v < Pow2(sh.fpBits)
    requires b' < sh.buckets && k' < sh.bucketSize
    ensures b' == b && k' == k ==> Read(sh, Write(sh, sets, b, k, v), b', k') == v
    ensures Read(sh, sets, b', k') != Read(sh, sets, b, k)
      ==> Read(sh, Write(sh, sets, b, k, v), b', k') == Read(sh, sets, b', k')
  {
    hide Pow2, Entry, WriteEntry, Packs, Shape.Slot, Shape.Entries, Shape.Ok;
    ReadAfterWrite(sets, sh.Entries(), sh.fpBits, sh.Slot(b, k), v, sh.Slot(b', k'));
  }

  /** A look-ahead move: v leaves slot k of b for empty slot j of its alternate bucket, and fp
      takes the slot.  Exactly one class is added. */
  lemma {:induction false} Shove(alt: Alternate, sh: Shape, sets: seq<PackedSet>, b: nat, k: nat, fp: nat, j: nat)
    requires Stored(sh, sets) && Pairs(alt, sh.buckets) && b < sh.buckets && k < sh.bucketSize &&
      0 < fp < Pow2(sh.fpBits)
    requires j < sh.bucketSize
    requires var v := Read(sh, sets, b, k); v > 0 && alt(b, v) < sh.buckets && Read(sh, sets, alt(b, v), j) == 0
    ensures var v := Read(sh, sets, b, k);
      Bag(alt, sh, Write(sh, Write(sh, sets, alt(b, v), j, v), b, k, fp)) ==
        Bag(alt, sh, sets) + multiset{ClassOf(alt, fp, b)}
  {
    hide Bag, Read, Write, ClassOf, Stored, Pow2, Pairs;
    var v := Read(sh, sets, b, k);
    ReadBound(sh, sets, b, k);
    PairsAt(alt, sh.buckets, v, b);
    Settle(alt, sh, sets, alt(b, v), j, v);
    ReadElsewhere(sh, sets, alt(b, v), j, v, b, k);
    var s1 := Write(sh, sets, alt(b, v), j, v);
    WriteTrades(alt, sh, s1, b, k, fp);
    CancelWithin(Bag(alt, sh, Write(sh, s1, b, k, fp)), Bag(alt, sh, sets), ClassOf(alt, v, b), ClassOf(alt, fp, b));
  }

  /** No slot of bucket b holds v. */
  ghost predicate Lacks(sh: Shape, sets: seq<PackedSet>, b: nat, v: nat)
    requires Stored(sh, sets) && b < sh.buckets
  {
    forall k: nat {:trigger Read(sh, sets, b, k)} :: k < sh.bucketSize ==> Read(sh, sets, b, k) != v
  }

  /** Slot j is the first of bucket b that holds v. */
  ghost predicate IsFirst(sh: Shape, sets: seq<PackedSet>, b: nat, v: nat, j: nat)
    requires Stored(sh, sets) && b < sh.buckets && j < sh.bucketSize
  {
    Read(sh, sets, b, j) == v && forall i: nat {:trigger Read(sh, sets, b, i)} :: i < j ==> Read(sh, sets, b, i) != v
  }

  lemma {:induction false} SomeFirst(sh: Shape, sets: seq<PackedSet>, b: nat, v: nat, k: nat) returns (j: nat)
    requires Stored(sh, sets) && b < sh.buckets && !Lacks(sh, sets, b, v)
    requires k < sh.bucketSize && forall i: nat {:trigger Read(sh, sets, b, i)} :: i < k ==> Read(sh, sets, b, i) != v
    ensures j < sh.bucketSize && IsFirst(sh, sets, b, v, j)
    decreases sh.bucketSize - k
  {
    hide Read, Packs, Table, Entries;
    if Read(sh, sets, b, k) == v {
      j := k;
    } else {
      j := SomeFirst(sh, sets, b, v, k + 1);
    }
  }

  lemma {:induction false} OneFirst(sh: Shape, sets: seq<PackedSet>, b: nat, v: nat, j: nat)
    requires Stored(sh, sets) && b < sh.buckets && j < sh.bucketSize && IsFirst(sh, sets, b, v, j)
    ensures !Lacks(sh, sets, b, v) && FirstSlot(sh, sets, b, v) == j
  {
    hide Read, Packs, Table, Entries;
    var f := FirstSlot(sh, sets, b, v);
    assert Read(sh, sets, b, f) == v && Read(sh, sets, b, j) == v;
  }

  lemma {:induction false} FirstExists(sh: Shape, sets: seq<PackedSet>, b: nat, v: nat)
    requires Stored(sh, sets) && b < sh.buckets && !Lacks(sh, sets, b, v)
    ensures exists j: nat :: j < sh.bucketSize && IsFirst(sh, sets, b, v, j)
  {
    hide Read, Packs, Table, Entries, IsFirst;
    var j := SomeFirst(sh, sets, b, v, 0);
  }

  /** The first slot of bucket b that holds v. */
  ghost function FirstSlot(sh: Shape, sets: seq<PackedSet>, b: nat, v: nat): (j: nat)
    requires Stored(sh, sets) && b < sh.buckets && !Lacks(sh, sets, b, v)
    ensures j < sh.bucketSize && IsFirst(sh, sets, b, v, j)
  {
    FirstExists(sh, sets, b, v);
    var j: nat :| j < sh.bucketSize && IsFirst(sh, sets, b, v, j);
    j
  }

  /** Value v written over the first w of bucket b or, when b has none, of bucket a. */
  ghost function Replaced(sh: Shape, sets: seq<PackedSet>, b: nat, a: nat, w: nat, v: nat): (r: Option<seq<PackedSet>>)
    requires Stored(sh, sets) && b < sh.buckets && a < sh.buckets
  {
    if !Lacks(sh, sets, b, w) then Some(Write(sh, sets, b, FirstSlot(sh, sets, b, w), v))
    else if !Lacks(sh, sets, a, w) then Some(Write(sh, sets, a, FirstSlot(sh, sets, a, w), v))
    else None
  }

  /** find_empty_slot and find_fingerprint: the first slot of bucket b that holds v, or -1. */
  method FindSlot(sh: Shape, sets: seq<PackedSet>, b: nat, v: nat) returns (k: int)
    requires Stored(sh, sets) && b < sh.buckets
    ensures -1 <= k < sh.bucketSize
    ensures k >= 0 ==> Read(sh, sets, b, k) == v && IsFirst(sh, sets, b, v, k)
    ensures k < 0 <==> Lacks(sh, sets, b, v)
  {
    hide Entries, Read, Packs;
    var i: nat := 0;
    while i < sh.bucketSize
      invariant i <= sh.bucketSize
      invariant forall j: nat :: j < i ==> Read(sh, sets, b, j) != v
    {
      if Read(sh, sets, b, i) == v {
        return i;
      }
      i := i + 1;
    }
    return -1;
  }

  /** Every slot of a full bucket holds a fingerprint. */
  lemma {:induction false} FullSlot(sh: Shape, sets: seq<PackedSet>, b: nat, k: nat)
    requires Stored(sh, sets) && b < sh.buckets && k < sh.bucketSize && Lacks(sh, sets, b, 0)
    ensures 0 < Read(sh, sets, b, k) < Pow2(sh.fpBits)
  {
    hide Read, Pow2, Stored;
    ReadBound(sh, sets, b, k);
  }

  /** A class is in the bag exactly when its fingerprint is in one of its two buckets. */
  lemma {:induction false} InEitherBucket(alt: Alternate, sh: Shape, sets: seq<PackedSet>, fp: nat, b: nat)
    requires Stored(sh, sets) && Pairs(alt, sh.buckets) && b < sh.buckets && fp > 0
    ensures alt(b, fp) < sh.buckets
    ensures ClassOf(alt, fp, b) in Bag(alt, sh, sets) <==>
      !Lacks(sh, sets, b, fp) || !Lacks(sh, sets, alt(b, fp), fp)
  {
    hide Prefix, Shape.Slot, Shape.BucketOf, Shape.Entries, Packs, Entries, Entry, Pairs, ClassOf, Read;
    assert alt(b, fp) < sh.buckets by { PairsAt(alt, sh.buckets, fp, b); }
    var t, c, n := Table(sh, sets), ClassOf(alt, fp, b), sh.Entries();
    PrefixMember(alt, sh, t, n, c);
    if i: nat :| i < n && Holds(alt, sh, t, i, c) {
      SlotOfIndex(sh, i);
      ClassFingerprint(alt, t[i], sh.BucketOf(i), fp, b);
      SameClass(alt, sh.buckets, fp, b, sh.BucketOf(i));
      assert Read(sh, sets, sh.BucketOf(i), i % sh.bucketSize) == fp;
    }
    forall o: nat, k: nat | (o == b || o == alt(b, fp)) && k < sh.bucketSize && Read(sh, sets, o, k) == fp
      ensures c in Prefix(alt, sh, t, n)
    {
      SlotBucket(sh, o, k);
      SameClass(alt, sh.buckets, fp, b, o);
      assert Holds(alt, sh, t, sh.Slot(o, k), c);
    }
  }

  lemma {:induction false} PairsAt(alt: Alternate, nb: nat, fp: nat, b: nat)
    requires Pairs(alt, nb) && b < nb
    ensures alt(b, fp) < nb && alt(alt(b, fp), fp) == b
    ensures ClassOf(alt, fp, alt(b, fp)) == ClassOf(alt, fp, b)
  {
  }

  lemma {:induction false} ClassFingerprint(alt: Alternate, v: nat, b: nat, v': nat, b': nat)
    requires ClassOf(alt, v, b) == ClassOf(alt, v', b')
    ensures v == v'
  {
  }

  lemma {:induction false} ClearedBag(alt: Alternate, sh: Shape, m: nat)
    requires Stored(sh, Cleared(m))
    ensures Bag(alt, sh, Cleared(m)) == multiset{}
  {
    var t := Table(sh, Cleared(m));
    forall i | 0 <= i < |t| ensures t[i] == 0 {
      ClearedIsEmpty(m, sh.Entries(), sh.fpBits, i);
    }
    EmptyPrefix(alt, sh, t, sh.Entries());
  }

  lemma {:induction false} EmptyPrefix(alt: Alternate, sh: Shape, t: seq<nat>, n: nat)
    requires sh.Ok() && n <= |t| && forall i :: 0 <= i < |t| ==> t[i] == 0
    ensures Prefix(alt, sh, t, n) == multiset{}
  {
    if n > 0 {
      EmptyPrefix(alt, sh, t, n - 1);
    }
  }

  // ---------------------------------------------------------------- eviction log

  /** A slot and what it held before an eviction. */
  datatype Eviction = Eviction(b: nat, k: nat, was: nat)

  ghost predicate LogOk(sh: Shape, log: seq<Eviction>) {
    forall j :: 0 <= j < |log| ==> log[j].b < sh.buckets && log[j].k < sh.bucketSize
  }

  /** Taking the evictions back, the latest first. */
  ghost function Undo(sh: Shape, sets: seq<PackedSet>, log: seq<Eviction>): (s: seq<PackedSet>)
    requires Stored(sh, sets) && LogOk(sh, log)
    decreases |log|
  {
    if log == [] then sets
    else
      var e := log[|log| - 1];
      Undo(sh, Write(sh, sets, e.b, e.k, e.was), log[..|log| - 1])
  }

  lemma {:induction false} NothingToUndo(sh: Shape, sets: seq<PackedSet>)
    requires Stored(sh, sets)
    ensures Undo(sh, sets, []) == sets
  {
  }

  lemma {:induction false} UndoEvict(sh: Shape, sets: seq<PackedSet>, log: seq<Eviction>, b: nat, k: nat, v: nat)
    requires Stored(sh, sets) && LogOk(sh, log) && b < sh.buckets && k < sh.bucketSize && v < Pow2(sh.fpBits)
    ensures Undo(sh, Write(sh, sets, b, k, v), log + [Eviction(b, k, Read(sh, sets, b, k))]) == Undo(sh, sets, log)
  {
    hide Pow2, Entry, WriteEntry, Packs, Shape.Slot, Shape.Entries, Shape.Ok;
    var log' := log + [Eviction(b, k, Read(sh, sets, b, k))];
    assert log'[..|log'| - 1] == log;
    WriteUndone(sets, sh.Entries(), sh.fpBits, sh.Slot(b, k), v);
  }

  /** The rollback loop: the table as it was before the logged evictions. */
  method Rollback(sh: Shape, sets: seq<PackedSet>, log: seq<Eviction>) returns (s: seq<PackedSet>)
    requires Stored(sh, sets) && LogOk(sh, log)
    ensures Stored(sh, s) && s == Undo(sh, sets, log)
  {
    hide Write, Packs;
    s := sets;
    var j := |log|;
    assert log[..j] == log;
    while j > 0
      invariant 0 <= j <= |log| && Stored(sh, s) && LogOk(sh, log[..j])
      invariant Undo(sh, s, log[..j]) == Undo(sh, sets, log)
    {
      assert log[..j][..j - 1] == log[..j - 1];
      j := j - 1;
      s := Write(sh, s, log[j].b, log[j].k, log[j].was);
    }
  }
}
