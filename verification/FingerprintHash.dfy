/** What the cuckoo and vacuum filters take from a 64-bit hash.

    The 32-bit mixer is an arbitrary function. */
module FingerprintHash {
  import opened BitXor

  const U32_MAX: nat := 0xFFFF_FFFF
  const U32_LIMIT: nat := 0x1_0000_0000

  type U32 = x: nat | x < 0x1_0000_0000
  type U64 = x: nat | x < 0x1_0000_0000_0000_0000

  type Mixer = nat -> U32

  datatype Status = OK | FULL | NOT_FOUND

  function Fingerprint(hash: nat, f: nat): (fp: nat) {
    var low := hash % Pow2(f);
    if low == 0 then 1 else low
  }

  lemma {:induction false} FingerprintRange(hash: nat, f: nat)
    requires f >= 1
    ensures 0 < Fingerprint(hash, f) < Pow2(f)
  {
    assert Pow2(f) == 2 * Pow2(f - 1);
  }

  lemma {:induction false} HalfWord()
    ensures Pow2(32) == U32_LIMIT
  {
    hide Pow2;
    PowZero();
    Pow2Byte(0);
    Pow2Byte(8);
    Pow2Byte(16);
    Pow2Byte(24);
  }

  /** fp is made of the f low bits of the hash, or is 1 when none of them is set. */
  ghost predicate IsFingerprint(hash: nat, f: nat, fp: nat) {
    && fp < Pow2(f)
    && if exists j: nat :: j < f && Bit(hash, j) then forall j: nat :: j < f ==> (Bit(fp, j) <==> Bit(hash, j))
       else fp == 1
  }

  lemma {:induction false} FingerprintIs(hash: nat, f: nat, fp: nat)
    requires f >= 1
    ensures IsFingerprint(hash, f, fp) <==> fp == Fingerprint(hash, f)
  {
    FingerprintRange(hash, f);
    var low := hash % Pow2(f);
    forall j: nat ensures Bit(low, j) <==> j < f && Bit(hash, j) {
      ModBit(hash, f, j);
    }
    if low == 0 {
      forall j: nat ensures !Bit(low, j) {
        NoBit(j);
      }
    } else if forall j: nat :: j < f ==> !Bit(hash, j) {
      forall j: nat ensures Bit(low, j) <==> Bit(0, j) {
        NoBit(j);
      }
      SameBits(low, 0);
    } else if fp < Pow2(f) && forall j: nat :: j < f ==> (Bit(fp, j) <==> Bit(hash, j)) {
      BitsDecide(fp, low, f);
    }
  }

  /** k is the 32-bit number x scaled down to n values. */
  ghost predicate IsScaled(x: nat, n: nat, k: nat) {
    k * U32_LIMIT <= x * n < (k + 1) * U32_LIMIT
  }

  /** The slot chosen for eviction. */
  function EvictSlot(mix: Mixer, n: nat, fp: nat, bucketSize: nat): (k: nat)
    requires bucketSize >= 1
    ensures k < bucketSize
  {
    var m := mix(Xor(n, fp));
    ScaledBelow(m, bucketSize);
    m * bucketSize / U32_LIMIT
  }

  /** The eviction slot is the mixed exclusive or of step and fingerprint, scaled to the bucket. */
  lemma {:induction false} EvictSlotIs(mix: Mixer, n: nat, fp: nat, bucketSize: nat, x: nat, k: nat)
    requires bucketSize >= 1 && IsXor(x, n, fp)
    ensures IsScaled(mix(x), bucketSize, k) <==> k == EvictSlot(mix, n, fp, bucketSize)
  {
    XorIs(x, n, fp);
    hide Xor, Bit;
    ScaledIs(mix(x), bucketSize, k);
  }

  lemma {:induction false} ScaledIs(x: nat, n: nat, k: nat)
    ensures IsScaled(x, n, k) <==> k == x * n / U32_LIMIT
  {
  }

  lemma {:induction false} ScaledBelow(m: nat, s: nat)
    requires m < U32_LIMIT && s >= 1
    ensures m * s / U32_LIMIT < s
  {
    assert m * s < U32_LIMIT * s;
  }

  function Default(x: nat, standard: nat): (y: nat) {
    if x == 0 then standard else x
  }
}
