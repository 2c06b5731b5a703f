/** Sizing a vacuum filter: alternate ranges, rounding the bucket count, and the cap on sizes.

    The floating-point decisions of range selection are an arbitrary function of the range. */
module VacuumCreate {
  import opened ModArith
  import opened BitXor
  import opened WordNumber
  import opened FingerprintBag
  import opened FingerprintHash
  import opened VacuumIndex
  import VacuumFilter

  ghost predicate IsPower(l: nat) {
    exists k: nat :: l == Pow2(k)
  }

  /** The first range from l on, doubling, that is accepted or reaches m. */
  function Selected(accept: nat -> bool, m: nat, l: nat): (r: nat)
    requires l >= 1
    ensures r >= l
    decreases m - l
  {
    if l < m && !accept(l) then Selected(accept, m, 2 * l) else l
  }

  /** Doubling from 1 until the range is accepted or reaches m. */
  method SelectRange(m: nat, accept: nat -> bool) returns (l: nat)
    ensures IsPower(l) && l == Selected(accept, m, 1)
    ensures l > 1 ==> l < 2 * m
    ensures l < m ==> accept(l)
    ensures forall j: nat :: Pow2(j) < l ==> !accept(Pow2(j))
  {
    l := 1;
    ghost var k: nat := 0;
    while l < m && !accept(l)
      invariant l == Pow2(k) && l >= 1 && Selected(accept, m, l) == Selected(accept, m, 1)
      invariant l > 1 ==> l < 2 * m
      invariant forall j: nat :: Pow2(j) < l ==> !accept(Pow2(j))
      decreases m - l
    {
      forall j: nat | Pow2(j) < 2 * l ensures !accept(Pow2(j)) {
        if j > k {
          Pow2Monotone(k + 1, j);
        } else if j < k {
          Pow2Monotone(j + 1, k);
        }
      }
      l, k := 2 * l, k + 1;
    }
  }

  /** A range capped to the table and raised to at least 2. */
  function FitRange(l: nat, cap: int): (r: nat)
    ensures r >= 2
  {
    var r := if l > cap then cap else l;
    if r < 2 then 2 else r
  }

  /** The four ranges for a table of n buckets. */
  function RangesFor(n: nat, accept: nat -> nat -> bool): (ar: Ranges) {
    [RangeFor(n, accept(0)), RangeFor(n, accept(1)), RangeFor(n, accept(2)), RangeFor(n, accept(3))]
  }

  function RangeFor(n: nat, accept: nat -> bool): (l: nat) {
    FitRange(Selected(accept, n, 1), PowerBelow(n))
  }

  function Larger(a: nat, b: nat): (m: nat) {
    if b > a then b else a
  }

  function Largest(ar: Ranges): (m: nat)
    ensures m in ar && forall i :: 0 <= i < 4 ==> ar[i] <= m
  {
    Larger(Larger(Larger(ar[0], ar[1]), ar[2]), ar[3])
  }

  function RoundUp(n: nat, l: nat): (m: nat)
    requires l > 0
  {
    (n + l - 1) / l * l
  }

  /** How often the cap loop halves. */
  function Halvings(nb: nat, bs: nat): (h: nat)
    requires bs < 256
    decreases nb
  {
    if FitsWords(nb, bs) then 0 else assert nb > 0; Halvings(nb / 2, bs) + 1
  }

  /** The cap loop halves no more often than it has to. */
  ghost predicate Tight(nb1: nat, bs: nat)
    requires bs < 256
  {
    forall j: nat :: j < Halvings(nb1, bs) ==> TooMany(nb1, bs, j)
  }

  /** After j halvings there are still too many buckets. */
  ghost predicate TooMany(nb1: nat, bs: nat, j: nat) {
    !FitsWords(Halved(nb1, j), bs)
  }

  function Halved(nb: nat, j: nat): (h: nat) {
    if j == 0 then nb else Halved(nb / 2, j - 1)
  }

  method CapBuckets(nb1: nat, bs: nat) returns (nb: nat)
    requires nb1 >= 1 && 1 <= bs < 256
    ensures nb == nb1 / Pow2(Halvings(nb1, bs))
    ensures 1 <= nb <= U32_MAX && nb * bs <= U32_MAX
    ensures Tight(nb1, bs)
  {
    hide Tight;
    HalvingsTight(nb1, bs);
    nb := nb1;
    ghost var h: nat := 0;
    while nb > U32_MAX || nb * bs > U32_MAX
      invariant nb >= 1 && nb == nb1 / Pow2(h) && h + Halvings(nb, bs) == Halvings(nb1, bs)
      decreases nb
    {
      HalfOfQuotient(nb1, h);
      nb, h := nb / 2, h + 1;
    }
  }

  /** So many buckets, and the entries in them, can be counted in 32 bits. */
  predicate FitsWords(nb: nat, bs: nat) {
    nb <= U32_MAX && nb * bs <= U32_MAX
  }

  /** The cap loop halves until the sizes fit, and no longer. */
  lemma {:induction false} HalvingsLeast(nb: nat, bs: nat, j: nat)
    requires bs < 256
    ensures j < Halvings(nb, bs) ==> TooMany(nb, bs, j)
    ensures j == Halvings(nb, bs) ==> !TooMany(nb, bs, j)
    decreases j
  {
    hide FitsWords, TooMany;
    TooManyHalf(nb, bs, j);
    if j > 0 && !FitsWords(nb, bs) {
      HalvingsLeast(nb / 2, bs, j - 1);
    }
  }

  lemma {:induction false} TooManyHalf(nb: nat, bs: nat, j: nat)
    ensures j == 0 ==> (TooMany(nb, bs, j) <==> !FitsWords(nb, bs))
    ensures j > 0 ==> (TooMany(nb, bs, j) <==> TooMany(nb / 2, bs, j - 1))
  {
    hide FitsWords;
  }

  lemma {:induction false} HalvingsTight(nb: nat, bs: nat)
    requires bs < 256
    ensures Tight(nb, bs)
  {
    hide FitsWords, Halvings, Pow2, TooMany;
    forall j: nat | j < Halvings(nb, bs) ensures TooMany(nb, bs, j) {
      HalvingsLeast(nb, bs, j);
    }
  }

  lemma {:induction false} HalfOfQuotient(n: nat, h: nat)
    ensures n / Pow2(h) / 2 == n / Pow2(h + 1)
  {
    var p := Pow2(h);
    HalfQuotient(n, p);
  }

  lemma {:induction false} HalfQuotient(n: nat, p: nat)
    requires p > 0
    ensures n / p / 2 == n / (2 * p)
  {
    var q, r := n / p, n % p;
    var q2, r2 := q / 2, q % 2;
    assert n == p * q + r;
    assert n == (2 * p) * q2 + (p * r2 + r);
    DivUnique(n, q2, p * r2 + r, 2 * p);
  }

  /** The range for a table of n buckets: the first power of two that is accepted or covers the table, but at most the
      largest power of two in the table, and at least 2. */
  lemma {:induction false} RangeIs(n: nat, accept: nat -> bool, k: nat, c: nat)
    requires (Pow2(k) >= n || accept(Pow2(k))) && forall j: nat :: j < k ==> Pow2(j) < n && !accept(Pow2(j))
    requires 0 < n < Pow2(64) && Pow2(c) <= n < 2 * Pow2(c)
    ensures RangeFor(n, accept) == (if k == 0 || c == 0 then 2 else Pow2(if k < c then k else c))
  {
    hide Pow2, PowerBelow;
    FirstAccepted(accept, n, 0, k);
    PowZero();
    var c' := PowerBelowIsLargest(n);
    SamePower(c, c', n);
    if k <= c {
      Pow2Monotone(k, c);
    } else {
      Pow2Monotone(c, k);
    }
    if k > 0 {
      AtLeastTwo(k);
    }
    if c > 0 {
      AtLeastTwo(c);
    }
  }

  lemma {:induction false} FirstAccepted(accept: nat -> bool, n: nat, i: nat, k: nat)
    requires i <= k && (Pow2(k) >= n || accept(Pow2(k))) && forall j: nat :: j < k ==> Pow2(j) < n && !accept(Pow2(j))
    ensures Selected(accept, n, Pow2(i)) == Pow2(k)
    decreases k - i
  {
    if i < k {
      FirstAccepted(accept, n, i + 1, k);
      assert Pow2(i + 1) == 2 * Pow2(i);
    }
  }

  lemma {:induction false} SamePower(c: nat, c': nat, n: nat)
    requires Pow2(c) <= n < 2 * Pow2(c) && Pow2(c') <= n < 2 * Pow2(c')
    ensures c == c'
  {
    if c < c' {
      Pow2Monotone(c + 1, c');
    } else if c' < c {
      Pow2Monotone(c' + 1, c);
    }
  }

  lemma {:induction false} AtLeastTwo(k: nat)
    requires k > 0
    ensures Pow2(k) >= 2
  {
  }

  // ---------------------------------------------------------------- powers of two dividing

  lemma {:induction false} PowSum(i: nat, j: nat)
    ensures Pow2(i + j) == Pow2(i) * Pow2(j)
  {
    if i > 0 {
      PowSum(i - 1, j);
      assert Pow2(i + j) == 2 * Pow2(i - 1 + j);
      assert 2 * (Pow2(i - 1) * Pow2(j)) == (2 * Pow2(i - 1)) * Pow2(j);
    }
  }

  /** A multiple of a power of two is a multiple of every smaller one. */
  lemma {:induction false} MultipleOfSmaller(i: nat, j: nat, n: nat)
    requires i <= j && n % Pow2(j) == 0
    ensures n % Pow2(i) == 0
  {
    hide Pow2;
    PowSum(i, j - i);
    var q, p, m := n / Pow2(j), Pow2(i), Pow2(j - i);
    assert n == (p * m) * q;
    assert (p * m) * q == p * (m * q);
    ModUnique(n, m * q, 0, p);
  }

  lemma {:induction false} PowersOrdered(i: nat, j: nat)
    requires Pow2(i) <= Pow2(j)
    ensures i <= j
  {
    if j < i {
      Pow2Monotone(j + 1, i);
    }
  }

  lemma {:induction false} LargestAt(ar: Ranges) returns (at: nat)
    ensures at < 4 && Largest(ar) == ar[at] && forall i :: 0 <= i < 4 ==> ar[i] <= Largest(ar)
  {
    var m := Largest(ar);
    at := if m == ar[0] then 0 else if m == ar[1] then 1 else if m == ar[2] then 2 else 3;
  }

  /** All four ranges divide the table exactly when the largest does. */
  lemma {:induction false} AlignedIffLargest(ar: Ranges, nb: nat)
    requires forall i :: 0 <= i < 4 ==> PowerRange(ar[i])
    ensures PowerRange(Largest(ar))
    ensures Aligned(ar, nb) <==> nb % Largest(ar) == 0
  {
    var m := Largest(ar);
    var at := LargestAt(ar);
    hide Largest;
    if nb % m == 0 {
      forall i | 0 <= i < 4
        ensures nb % ar[i] == 0
      {
        assert PowerRange(ar[i]) && PowerRange(ar[at]);
        var k: nat :| k >= 1 && ar[i] == Pow2(k);
        var j: nat :| j >= 1 && m == Pow2(j);
        PowersOrdered(k, j);
        MultipleOfSmaller(k, j, nb);
      }
    }
  }

  /** Halving c chunks h times leaves a whole number of chunks exactly when 2^h divides c. */
  lemma {:induction false} HalvedChunks(c: nat, k: nat, h: nat)
    requires h <= k
    ensures (c * Pow2(k) / Pow2(h)) % Pow2(k) == 0 <==> c % Pow2(h) == 0
  {
    hide Pow2;
    PowSum(h, k - h);
    Chunks(c, Pow2(h), Pow2(k - h));
  }

  lemma {:induction false} Chunks(c: nat, p: nat, m: nat)
    requires p > 0 && m > 0
    ensures p * m > 0 && ((c * (p * m) / p) % (p * m) == 0 <==> c % p == 0)
  {
    var n, q, r := c * (p * m), c / p, c % p;
    assert p * m > 0;
    assert n == p * (c * m) + 0 by {
      assert c * (p * m) == p * (c * m);
    }
    DivUnique(n, c * m, 0, p);
    assert c * m == (p * m) * q + r * m by {
      assert c == p * q + r;
      assert (p * q + r) * m == (p * m) * q + r * m;
    }
    SmallerProduct(r, p, m);
    ModUnique(c * m, q, r * m, p * m);
    assert r * m == 0 <==> r == 0;
  }

  lemma {:induction false} SmallerProduct(r: nat, p: nat, m: nat)
    requires r < p && m > 0
    ensures r * m < p * m
  {
  }

  // ---------------------------------------------------------------- the cap loop

  lemma {:induction false} HalvingsAtMost(nb: nat, bs: nat, h: nat)
    requires 1 <= bs < 256 && nb * bs < Pow2(h) * U32_LIMIT
    ensures Halvings(nb, bs) <= h
  {
    if nb > U32_MAX || nb * bs > U32_MAX {
      Product(nb, bs);
      assert h > 0;
      assert 2 * (nb / 2 * bs) <= nb * bs by {
        assert (2 * (nb / 2)) * bs <= nb * bs;
      }
      HalvingsAtMost(nb / 2, bs, h - 1);
    }
  }

  lemma {:induction false} RoundUpBound(n: nat, l: nat)
    requires l > 0
    ensures n <= RoundUp(n, l) < n + l && RoundUp(n, l) % l == 0
  {
    var a := n + l - 1;
    var q, r := a / l, a % l;
    assert a == l * q + r && l * q == q * l;
    ModUnique(q * l, q, 0, l);
  }

  /** The cap loop halves no more often than the largest range can be halved. */
  lemma {:induction false} FewHalvings(nb0: nat, bs: nat, k: nat)
    requires nb0 >= 1 && 1 <= bs < 256 && k >= 1 && (k == 1 || Pow2(k) <= nb0)
    requires 10 * ((nb0 - 1) * bs) <= 11 * U32_MAX
    ensures Halvings(RoundUp(nb0, Pow2(k)), bs) <= k
  {
    hide RoundUp, Halvings;
    var nb1 := RoundUp(nb0, Pow2(k));
    RoundUpBound(nb0, Pow2(k));
    if k == 1 {
      assert Pow2(1) == 2;
      Times(nb1, nb0 + 1, bs);
      assert (nb0 + 1) * bs == (nb0 - 1) * bs + 2 * bs;
      HalvingsAtMost(nb1, bs, 1);
    } else {
      assert Pow2(2) == 4;
      Times(nb1, 2 * nb0, bs);
      assert (2 * nb0) * bs == 2 * ((nb0 - 1) * bs) + 2 * bs;
      HalvingsAtMost(nb1, bs, 2);
    }
  }

  lemma {:induction false} Times(a: nat, b: nat, m: nat)
    requires a <= b
    ensures a * m <= b * m
  {
  }

  /** The table that survives the cap loop is a whole number of chunks exactly when the number of
      chunks before it was a multiple of the power of two it was divided by. */
  lemma {:induction false} CappedIffDivisible(nb0: nat, bs: nat, l: nat)
    requires nb0 >= 1 && 1 <= bs < 256 && PowerRange(l) && (l == 2 || l <= nb0)
    requires 10 * ((nb0 - 1) * bs) <= 11 * U32_MAX
    ensures l > 0 && (
      var nb1 := RoundUp(nb0, l);
      var p := Pow2(Halvings(nb1, bs));
      (nb1 / p) % l == 0 <==> (nb1 / l) % p == 0)
  {
    hide RoundUp, Halvings, Pow2;
    var k: nat :| k >= 1 && l == Pow2(k);
    var nb1 := RoundUp(nb0, l);
    var h := Halvings(nb1, bs);
    RoundUpBound(nb0, l);
    if l == 2 {
      TwoIsFirst(k);
    }
    FewHalvings(nb0, bs, k);
    assert nb1 == nb1 / l * l;
    HalvedChunks(nb1 / l, k, h);
  }

  lemma {:induction false} TwoIsFirst(k: nat)
    requires k >= 1 && Pow2(k) == 2
    ensures k == 1
  {
    assert Pow2(1) == 2;
    PowersOrdered(k, 1);
  }

  // ---------------------------------------------------------------- a capacity whose table is misaligned

  /** The ranges that the floating-point test settles on for 4100000000 hashes, four to a bucket. */
  function SettledOn(i: nat): (l: nat) {
    if i == 0 then 32768 else if i == 1 then 256 else if i == 2 then 64 else 16
  }

  function Settles(): (accept: nat -> nat -> bool) {
    (i: nat) => (l: nat) => l == SettledOn(i)
  }

  const BUCKETS0: nat := 1078947369

  lemma {:induction false} SelectedIs(accept: nat -> bool, m: nat, l: nat, k: nat)
    requires l >= 1 && l * Pow2(k) < m && forall x: nat :: accept(x) <==> x == l * Pow2(k)
    ensures Selected(accept, m, l) == l * Pow2(k)
    decreases k
  {
    if k > 0 {
      assert l * Pow2(k) == (2 * l) * Pow2(k - 1);
      Product(l, Pow2(k - 1));
      SelectedIs(accept, m, 2 * l, k - 1);
    }
  }

  lemma {:induction false} SettledRange(i: nat, k: nat)
    requires i < 4 && 1 <= k <= 15 && SettledOn(i) == Pow2(k) <= 32768
    ensures RangeFor(BUCKETS0, Settles()(i)) == Pow2(k)
  {
    hide PowerBelow, Pow2, SettledOn;
    SelectedIs(Settles()(i), BUCKETS0, 1, k);
    BucketsFitWord(BUCKETS0, 4);
    var j := PowerBelowIsLargest(BUCKETS0);
    SmallPowers(k);
    Pow2Monotone(1, k);
  }

  lemma {:induction false} SettledRanges()
    ensures RangesFor(BUCKETS0, Settles()) == [32768, 256, 64, 16]
  {
    LowPowers();
    hide Pow2, RangeFor;
    SettledRange(0, 15);
    SettledRange(1, 8);
    SettledRange(2, 6);
    SettledRange(3, 4);
  }

  lemma {:induction false} LowPowers()
    ensures Pow2(15) == 32768 && Pow2(8) == 256 && Pow2(6) == 64 && Pow2(4) == 16
  {
    assert Pow2(4) == 16;
    assert Pow2(6) == 64;
    assert Pow2(7) == 128;
    Pow2Byte(0);
    Pow2Byte(7);
  }

  /** For 4100000000 hashes, four to a bucket, the table is 32927 chunks of 32768 buckets and is halved once.
      32927 is odd, so the filter is not usable: the first bucket of its last, half chunk is sent to the
      bucket just past the end. */
  lemma {:induction false} HalvingMisaligns()
    ensures
      var capacity, ar := 4100000000, RangesFor(BUCKETS0, Settles());
      var l := Largest(ar);
      && 95 * (4 * (BUCKETS0 - 1)) < 100 * capacity <= 95 * (4 * BUCKETS0) && l == 32768
      && var nb1 := RoundUp(BUCKETS0, l);
         && nb1 == 32927 * l && Halvings(nb1, 4) == 1 && nb1 / Pow2(1) == 539475968
         && !Aligned(ar, 539475968) && Jump(l, 16384, 539459584) == 539475968
  {
    SettledRanges();
    hide RangesFor;
    var ar := RangesFor(BUCKETS0, Settles());
    assert Largest(ar) == 32768 && RoundUp(BUCKETS0, 32768) == 1078951936;
    assert Halvings(539475968, 4) == 0 && Halvings(1078951936, 4) == 1;
    assert Pow2(1) == 2;
    assert !Aligned(ar, 539475968) by {
      assert ar[0] == 32768 && 539475968 % 32768 != 0;
    }
    JumpOut(32768, 539475968);
    hide Pow2, Halvings, Aligned, Jump, Largest, RoundUp;
  }

  lemma {:induction false} FitRangePower(l: nat, n: nat)
    requires IsPower(l) && 0 < n < Pow2(64)
    ensures var r := FitRange(l, PowerBelow(n));
      PowerRange(r) && (r == 2 || r <= n)
  {
    hide Pow2;
    var k := PowerBelowIsLargest(n);
    var j: nat :| l == Pow2(j);
    hide PowerBelow;
    var r := FitRange(l, PowerBelow(n));
    assert r == 2 || r == Pow2(k) || r == Pow2(j);
    SmallPowers(if r == Pow2(k) then k else j);
  }

  lemma {:induction false} SmallPowers(k: nat)
    ensures Pow2(1) == 2 && (k == 0 ==> Pow2(k) == 1)
  {
  }

  /** A filter for capacity hashes.  nb0 is the capacity over bucket size times the target load
      of 0.95, rounded up and at least 1, taken to be within a tenth of the exact quotient.
      accept(i)(l) is whether range selection settles on range l for the i-th range.  The filter
      is usable exactly when the cap loop divides the number of chunks evenly; in particular
      whenever it does not run. */
  method Create(mix: Mixer, capacity: nat, nb0: nat, accept: nat -> nat -> bool, bucketSize: nat, fpBits: nat,
      maxEvicts: nat)
    returns (r: VacuumFilter.Filter?)
    requires bucketSize < 256 && fpBits < 256 && maxEvicts < 256
    requires nb0 >= 1 && 10 * ((nb0 - 1) * Default(bucketSize, 4)) <= 11 * capacity
    ensures r == null <==> capacity == 0 || capacity > U32_MAX || fpBits == 1 || fpBits > 32
    ensures r != null ==>
      && r.Valid() && r.Held() == multiset{} && r.history == [] && r.mix == mix
      && r.shape.bucketSize == (if bucketSize == 0 then 4 else bucketSize)
      && r.shape.fpBits == (if fpBits == 0 then 10 else fpBits)
      && r.maxEvicts == (if maxEvicts == 0 then 200 else maxEvicts) && r.shape.Entries() <= U32_MAX &&
        r.ar == RangesFor(nb0, accept)
    ensures r != null ==>
      var l := Largest(r.ar);
      && (forall i :: 0 <= i < 4 ==> PowerRange(r.ar[i])) && (l == 2 || 0 < l <= nb0)
      && var nb1 := RoundUp(nb0, l);
         var p := Pow2(Halvings(nb1, r.shape.bucketSize));
         && nb0 <= nb1 < nb0 + l && nb1 % l == 0 && r.shape.buckets == nb1 / p
         && Tight(nb1, r.shape.bucketSize) && (r.Usable() <==> (nb1 / l) % p == 0)
  {
    hide Pow2, Bag, PowerRange, Aligned, RoundUp, Halvings, Largest, RangesFor, Tight, FitsWords;
    if capacity == 0 || capacity > U32_MAX || fpBits == 1 || fpBits > 32 {
      return null;
    }
    var bs, f, evicts := Default(bucketSize, 4), Default(fpBits, 10), Default(maxEvicts, 200);
    BucketsFitWord(nb0, bs);
    var ar := ChooseRanges(nb0, accept);
    var l := Largest(ar);
    var nb1 := RoundUp(nb0, l);
    RoundUpBound(nb0, l);
    var nb := CapBuckets(nb1, bs);
    AlignedIffLargest(ar, nb);
    CappedIffDivisible(nb0, bs, l);
    r := new VacuumFilter.Filter(mix, Shape(nb, bs, f), ar, evicts);
  }

  lemma {:induction false} BucketsFitWord(nb0: nat, bs: nat)
    requires nb0 >= 1 && bs >= 1 && 10 * ((nb0 - 1) * bs) <= 11 * U32_MAX
    ensures nb0 < Pow2(64)
  {
    hide Pow2;
    Product(nb0 - 1, bs);
    PowZero();
    Pow2Byte(0);
    Pow2Byte(8);
    Pow2Byte(16);
    Pow2Byte(24);
    Pow2Byte(32);
    Pow2Monotone(40, 64);
  }

  method ChooseRanges(nb0: nat, accept: nat -> nat -> bool) returns (ar: Ranges)
    requires 0 < nb0 < Pow2(64)
    ensures ar == RangesFor(nb0, accept) && forall i :: 0 <= i < 4 ==> PowerRange(ar[i])
    ensures PowerRange(Largest(ar)) && (Largest(ar) == 2 || 0 < Largest(ar) <= nb0)
  {
    hide Pow2, PowerBelow, PowerRange, Largest, FitRange, IsPower, Selected;
    ar := [2, 2, 2, 2];
    var cap := PowerBelow(nb0);
    for i := 0 to 4
      invariant forall j :: 0 <= j < i ==> PowerRange(ar[j]) && (ar[j] == 2 || ar[j] <= nb0)
      invariant forall j :: 0 <= j < i ==> ar[j] == FitRange(Selected(accept(j), nb0, 1), cap)
    {
      var l := SelectRange(nb0, accept(i));
      FitRangePower(l, nb0);
      ar := ar[i := FitRange(l, cap)];
    }
    ghost var at := LargestAt(ar);
    RangePositive(ar[at]);
  }

  lemma {:induction false} RangePositive(l: nat)
    requires PowerRange(l)
    ensures l > 0
  {
  }
}
