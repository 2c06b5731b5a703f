/** Where the vacuum filter stores a fingerprint: chunks of buckets whose sizes, the alternate
    ranges, are powers of two, and an exclusive or inside the chunk. */
module VacuumIndex {
  import opened ModArith
  import opened BitXor
  import PackedSets
  import opened FingerprintBag
  import opened FingerprintHash

  /** The four alternate ranges. */
  type Ranges = a: seq<nat> | |a| == 4 witness [2, 2, 2, 2]

  function HashIndex(hash: nat, nb: nat): (b: nat) {
    (hash / U32_LIMIT) * nb / U32_LIMIT
  }

  lemma {:induction false} HashIndexInRange(hash: U64, nb: nat)
    requires nb >= 1
    ensures HashIndex(hash, nb) < nb
  {
    ScaledBelow(hash / U32_LIMIT, nb);
  }

  /** The bucket reached from b inside its chunk of l buckets. */
  function Jump(l: nat, delta: nat, b: nat): (a: nat)
    requires l >= 1
  {
    var start := b / l * l;
    start + Xor(b - start, delta)
  }

  function Delta(mix: Mixer, l: nat, fp: nat): (d: nat)
    requires l >= 2
    ensures 1 <= d < l
  {
    mix(fp) % (l - 1) + 1
  }

  function AltIndex(mix: Mixer, ar: Ranges, b: nat, fp: nat): (a: nat) {
    var l := ar[fp % 4];
    if l <= 1 then b else Jump(l, Delta(mix, l, fp), b)
  }

  function Alt(mix: Mixer, ar: Ranges): (alt: Alternate) {
    (b, fp) => AltIndex(mix, ar, b, fp)
  }

  /** A jump stays in its chunk, comes back when repeated, and never stays put. */
  lemma {:induction false} JumpInChunk(k: nat, delta: nat, b: nat)
    requires k >= 1 && 1 <= delta < Pow2(k)
    ensures var l := Pow2(k); var a := Jump(l, delta, b);
      a / l == b / l && a < b / l * l + l && Jump(l, delta, a) == b && a != b
  {
    hide Xor;
    hide Pow2;
    var l := Pow2(k);
    var q, off := b / l, b % l;
    assert b == l * q + off && q * l == l * q;
    XorBelow(off, delta, k);
    XorCancels(off, delta);
    XorMoves(off, delta);
    var a := Jump(l, delta, b);
    assert a == l * q + Xor(off, delta);
    DivUnique(a, q, Xor(off, delta), l);
  }

  /** A whole number of chunks covers the table. */
  lemma {:induction false} ChunkInTable(l: nat, nb: nat, b: nat)
    requires l >= 1 && nb % l == 0 && b < nb
    ensures b / l * l + l <= nb
  {
    var m := nb / l;
    assert nb == m * l;
    PackedSets.SetIndex(b, m, l);
    assert (b / l + 1) * l <= m * l;
  }

  /** Jumps stay inside the table, for every bucket and distance, exactly when the range divides
      the number of buckets. */
  lemma {:induction false} JumpInTableIff(k: nat, nb: nat)
    requires k >= 1
    ensures (forall b: nat, d: nat :: b < nb && 1 <= d < Pow2(k) ==> Jump(Pow2(k), d, b) < nb) <==> nb % Pow2(k) == 0
  {
    hide Pow2, Xor, Jump;
    var l := Pow2(k);
    if nb % l == 0 {
      forall b: nat, d: nat | b < nb && 1 <= d < l ensures Jump(l, d, b) < nb {
        JumpInChunk(k, d, b);
        ChunkInTable(l, nb, b);
      }
    } else {
      JumpOut(l, nb);
    }
  }

  /** With a partial last chunk, its first bucket can be sent just past the end. */
  lemma {:induction false} JumpOut(l: nat, nb: nat)
    requires l >= 1 && nb % l > 0
    ensures nb / l * l < nb && Jump(l, nb % l, nb / l * l) == nb
  {
    hide Xor;
    var q, r := nb / l, nb % l;
    var b := q * l;
    assert nb == l * q + r && b == l * q;
    DivUnique(b, q, 0, l);
    XorCommutes(0, r);
    XorZero(r);
  }

  /** Every range is a power of two, at least 2, that divides the number of buckets. */
  ghost predicate Aligned(ar: Ranges, nb: nat) {
    forall i :: 0 <= i < 4 ==> PowerRange(ar[i]) && nb % ar[i] == 0
  }

  ghost predicate PowerRange(l: nat) {
    exists k: nat :: k >= 1 && l == Pow2(k)
  }

  /** With aligned ranges the alternate bucket is in range, its own inverse, and never the bucket
      itself, for every mixer. */
  lemma {:induction false} AltPairs(mix: Mixer, ar: Ranges, nb: nat)
    requires Aligned(ar, nb)
    ensures Pairs(Alt(mix, ar), nb)
    ensures forall b: nat, fp: nat :: b < nb ==> Alt(mix, ar)(b, fp) != b
  {
    hide Jump;
    var alt := Alt(mix, ar);
    forall b: nat, fp: nat | b < nb
      ensures alt(b, fp) < nb && alt(alt(b, fp), fp) == b && alt(b, fp) != b
    {
      var l := ar[fp % 4];
      assert PowerRange(l) && nb % l == 0;
      var k: nat :| k >= 1 && l == Pow2(k);
      assert l >= 2;
      var d := Delta(mix, l, fp);
      JumpInChunk(k, d, b);
      ChunkInTable(l, nb, b);
    }
  }

  // ---------------------------------------------------------------- the buckets of a hash, bit by bit

  /** Bucket b is the upper half of the hash, scaled to nb buckets. */
  ghost predicate IsHome(hash: nat, nb: nat, b: nat) {
    exists u: nat :: (forall j: nat :: Bit(u, j) <==> Bit(hash, 32 + j)) && IsScaled(u, nb, b)
  }

  lemma {:induction false} HomeIs(hash: nat, nb: nat, b: nat)
    ensures IsHome(hash, nb, b) <==> b == HashIndex(hash, nb)
  {
    hide Bit, IsScaled;
    var h := hash / U32_LIMIT;
    HalfWord();
    forall j: nat ensures Bit(h, j) <==> Bit(hash, 32 + j) {
      DivBit(hash, 32, h, hash % U32_LIMIT, j);
    }
    ScaledIs(h, nb, b);
    if IsHome(hash, nb, b) {
      var u: nat :| (forall j: nat :: Bit(u, j) <==> Bit(hash, 32 + j)) && IsScaled(u, nb, b);
      SameBits(u, h);
    }
  }

  /** a lies in the chunk of l buckets around b, at the exclusive or of b's offset and d. */
  ghost predicate IsJump(l: nat, d: nat, b: nat, a: nat)
    requires l >= 1
  {
    exists start: nat :: start % l == 0 && start <= b < start + l && start <= a && IsXor(a - start, b - start, d)
  }

  lemma {:induction false} JumpIs(l: nat, d: nat, b: nat, a: nat)
    requires l >= 1
    ensures IsJump(l, d, b, a) <==> a == Jump(l, d, b)
  {
    hide Xor, IsXor;
    var start := b / l * l;
    ChunkStart(l, b, start);
    if a >= start {
      XorIs(a - start, b - start, d);
    }
    if IsJump(l, d, b, a) {
      var s: nat :| s % l == 0 && s <= b < s + l && s <= a && IsXor(a - s, b - s, d);
      ChunkStart(l, b, s);
    }
  }

  lemma {:induction false} ChunkStart(l: nat, b: nat, s: nat)
    requires l >= 1
    ensures s % l == 0 && s <= b < s + l <==> s == b / l * l
  {
    var q, r := b / l, b % l;
    assert b == l * q + r && l * q == q * l;
    DivUnique(q * l, q, 0, l);
    if s % l == 0 && s <= b < s + l {
      assert s == l * (s / l);
      DivUnique(b, s / l, b - s, l);
    }
  }

  /** d is one more than m modulo l - 1. */
  ghost predicate IsStep(m: nat, l: nat, d: nat)
    requires l >= 2
  {
    1 <= d < l && (m + 1 - d) % (l - 1) == 0
  }

  lemma {:induction false} DeltaIs(mix: Mixer, l: nat, fp: nat, d: nat)
    requires l >= 2
    ensures IsStep(mix(fp), l, d) <==> d == Delta(mix, l, fp)
  {
    var m, n := mix(fp), l - 1;
    if 1 <= d < l {
      SameRest(d - 1, m, n);
      assert (d - 1) % n == d - 1 by { ModUnique(d - 1, 0, d - 1, n); }
    }
  }

  /** i is the number formed by the two low bits of fp. */
  ghost predicate IsClass(fp: nat, i: nat) {
    i < 4 && (Bit(i, 0) <==> Bit(fp, 0)) && (Bit(i, 1) <==> Bit(fp, 1))
  }

  lemma {:induction false} ClassIs(fp: nat, i: nat)
    ensures IsClass(fp, i) <==> i == fp % 4
  {
    assert fp % 4 == fp % 2 + 2 * (fp / 2 % 2);
    assert Bit(fp, 1) <==> fp / 2 % 2 == 1;
    assert Bit(i, 1) <==> i / 2 % 2 == 1;
  }

  /** The other bucket: the two low bits of the fingerprint choose the range, and its mix the step inside it. */
  ghost predicate IsOther(mix: Mixer, ar: Ranges, b: nat, fp: nat, a: nat) {
    forall i: nat :: IsClass(fp, i) ==>
      if ar[i] <= 1 then a == b
      else forall d: nat :: IsStep(mix(fp), ar[i], d) ==> IsJump(ar[i], d, b, a)
  }

  lemma {:induction false} OtherIs(mix: Mixer, ar: Ranges, b: nat, fp: nat, a: nat)
    ensures IsOther(mix, ar, b, fp, a) <==> a == AltIndex(mix, ar, b, fp)
  {
    hide IsJump, IsStep, IsClass, Jump, Delta;
    var i := fp % 4;
    forall i': nat ensures IsClass(fp, i') <==> i' == i {
      ClassIs(fp, i');
    }
    var l := ar[i];
    if l >= 2 {
      forall d: nat ensures IsStep(mix(fp), l, d) <==> d == Delta(mix, l, fp) {
        DeltaIs(mix, l, fp, d);
      }
      JumpIs(l, Delta(mix, l, fp), b, a);
    }
  }

  /** Fingerprint and buckets of a hash, as described. */
  ghost predicate Places(mix: Mixer, ar: Ranges, sh: Shape, hash: nat, fp: nat, b: nat, a: nat) {
    IsFingerprint(hash, sh.fpBits, fp) && IsHome(hash, sh.buckets, b) && IsOther(mix, ar, b, fp, a)
  }

  lemma {:induction false} PlacesAre(mix: Mixer, ar: Ranges, sh: Shape, hash: nat)
    requires sh.fpBits >= 1
    ensures forall fp: nat, b: nat, a: nat :: Places(mix, ar, sh, hash, fp, b, a) <==>
      fp == Fingerprint(hash, sh.fpBits) && b == HashIndex(hash, sh.buckets) && a == AltIndex(mix, ar, b, fp)
  {
    hide IsFingerprint, IsHome, IsOther, Fingerprint, HashIndex, AltIndex;
    forall fp: nat, b: nat, a: nat
      ensures Places(mix, ar, sh, hash, fp, b, a) <==>
        fp == Fingerprint(hash, sh.fpBits) && b == HashIndex(hash, sh.buckets) && a == AltIndex(mix, ar, b, fp)
    {
      FingerprintIs(hash, sh.fpBits, fp);
      HomeIs(hash, sh.buckets, b);
      OtherIs(mix, ar, b, fp, a);
    }
  }
}
