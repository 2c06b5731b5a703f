/** Words as numbers: binary notation and rounding to powers of two by smearing bits. */
module WordNumber {
  import opened BitPacking
  import opened BitXor

  function Value(s: seq<bool>): (v: nat) {
    if s == [] then 0 else (if s[0] then 1 else 0) + 2 * Value(s[1..])
  }

  function Bits(v: nat, n: nat): (s: seq<bool>)
    ensures |s| == n
  {
    if n == 0 then [] else [v % 2 == 1] + Bits(v / 2, n - 1)
  }

  lemma {:induction false} ValueOfBits(v: nat, n: nat)
    requires v < Pow2(n)
    ensures Value(Bits(v, n)) == v
  {
    if n > 0 {
      ValueOfBits(v / 2, n - 1);
      assert Bits(v, n)[1..] == Bits(v / 2, n - 1);
    }
  }

  lemma {:induction false} BitsOfValue(s: seq<bool>)
    ensures Bits(Value(s), |s|) == s
  {
    if s != [] {
      BitsOfValue(s[1..]);
      assert s == [s[0]] + s[1..];
    }
  }

  /** A number below 2^f needs only the low f bits. */
  lemma {:induction false} BitsFit(v: nat, f: nat, n: nat, i: nat)
    requires v < Pow2(f) && f <= i < n
    ensures !Bits(v, n)[i]
  {
    if i > 0 {
      BitsFit(v / 2, if f > 0 then f - 1 else 0, n - 1, i - 1);
    }
  }

  lemma {:induction false} ValueFits(s: seq<bool>, f: nat)
    requires forall i :: f <= i < |s| ==> !s[i]
    ensures Value(s) < Pow2(f)
  {
    if s != [] {
      ValueFits(s[1..], if f > 0 then f - 1 else 0);
    }
  }

  // ---------------------------------------------------------------- rounding to powers of two

  function SmearBy(w: Word, k: nat): (r: Word) {
    Or(w, Shr(w, k))
  }

  /** w |= w >> 1; w |= w >> 2; and so on up to w |= w >> 32 */
  function Smear(w: Word): (r: Word) {
    SmearBy(SmearBy(SmearBy(SmearBy(SmearBy(SmearBy(w, 1), 2), 4), 8), 16), 32)
  }

  ghost predicate AnyIn(w: Word, from: nat, len: nat) {
    exists j :: from <= j < from + len && j < 64 && w[j]
  }

  ghost predicate Covers(u: Word, w: Word, len: nat) {
    forall i {:trigger u[i]} :: 0 <= i < 64 ==> (u[i] <==> AnyIn(w, i, len))
  }

  lemma {:induction false} SmearDoubles(u: Word, w: Word, len: nat)
    requires Covers(u, w, len)
    ensures Covers(SmearBy(u, len), w, 2 * len)
  {
    var u' := SmearBy(u, len);
    forall i | 0 <= i < 64
      ensures u'[i] <==> AnyIn(w, i, 2 * len)
    {
      assert u'[i] <==> u[i] || (i + len < 64 && u[i + len]);
      assert u[i] <==> AnyIn(w, i, len);
      if i + len < 64 {
        assert u[i + len] <==> AnyIn(w, i + len, len);
      }
    }
  }

  /** Smearing fills every position up to the highest set bit. */
  lemma {:induction false} SmearIsMask(w: Word, top: nat)
    requires top < 64 && w[top] && forall i :: top < i < 64 ==> !w[i]
    ensures Smear(w) == Mask(top + 1)
  {
    hide SmearBy;
    var w1 := SmearBy(w, 1);
    var w2 := SmearBy(w1, 2);
    var w4 := SmearBy(w2, 4);
    var w8 := SmearBy(w4, 8);
    var w16 := SmearBy(w8, 16);
    assert Covers(w, w, 1) by {
      forall i | 0 <= i < 64 ensures w[i] <==> AnyIn(w, i, 1) { }
    }
    SmearDoubles(w, w, 1);
    SmearDoubles(w1, w, 2);
    SmearDoubles(w2, w, 4);
    SmearDoubles(w4, w, 8);
    SmearDoubles(w8, w, 16);
    SmearDoubles(w16, w, 32);
    var s := Smear(w);
    forall i | 0 <= i < 64
      ensures s[i] == Mask(top + 1)[i]
    {
      assert s[i] <==> AnyIn(w, i, 64);
    }
  }

  /** The position of the highest set bit of a positive number. */
  function Log2(v: nat): (k: nat)
    requires v > 0
    ensures Pow2(k) <= v < Pow2(k + 1)
  {
    if v == 1 then 0 else Log2(v / 2) + 1
  }

  lemma {:induction false} TopBit(v: nat, n: nat)
    requires 0 < v < Pow2(n)
    ensures Log2(v) < n && Bits(v, n)[Log2(v)]
    ensures forall i :: Log2(v) < i < n ==> !Bits(v, n)[i]
  {
    if v > 1 {
      TopBit(v / 2, n - 1);
    } else {
      forall i | 0 < i < n ensures !Bits(v, n)[i] {
        BitsFit(1, 1, n, i);
      }
    }
  }

  lemma {:induction false} MaskValue(m: nat)
    requires m <= 64
    ensures Value(Mask(m)) == Pow2(m) - 1
  {
    LowOnes(Mask(m), m);
  }

  lemma {:induction false} LowOnes(s: seq<bool>, m: nat)
    requires m <= |s| && forall i :: 0 <= i < |s| ==> s[i] == (i < m)
    ensures Value(s) == Pow2(m) - 1
  {
    if s != [] {
      LowOnes(s[1..], if m > 0 then m - 1 else 0);
    }
  }

  lemma {:induction false} SmearedValue(v: nat)
    requires 0 < v < Pow2(64)
    ensures Log2(v) < 64 && Smear(Bits(v, 64)) == Mask(Log2(v) + 1)
    ensures Value(Smear(Bits(v, 64))) == Pow2(Log2(v) + 1) - 1
  {
    hide Smear, Bits, Pow2;
    TopBit(v, 64);
    SmearIsMask(Bits(v, 64), Log2(v));
    MaskValue(Log2(v) + 1);
  }

  function NextPowerOfTwo(n: nat): (p: nat) {
    if n == 0 then 1 else Value(Smear(Bits(n - 1, 64))) + 1
  }

  /** The rounded size is the least power of two that is not below n. */
  lemma {:induction false} NextPowerIsLeast(n: nat) returns (k: nat)
    requires n <= Pow2(64)
    ensures NextPowerOfTwo(n) == Pow2(k) && n <= Pow2(k)
    ensures k > 0 ==> Pow2(k - 1) < n
  {
    if n <= 1 {
      k := 0;
      if n == 1 {
        SmearZero();
      }
    } else {
      SmearedValue(n - 1);
      k := Log2(n - 1) + 1;
    }
  }

  lemma {:induction false} SmearZero()
    ensures Value(Smear(Bits(0, 64))) == 0
  {
    hide Bits, SmearBy;
    var z := Bits(0, 64);
    forall i | 0 <= i < 64 ensures !z[i] {
      BitsFit(0, 0, 64, i);
    }
    assert z == Zero();
    SmearByNothing(1);
    SmearByNothing(2);
    SmearByNothing(4);
    SmearByNothing(8);
    SmearByNothing(16);
    SmearByNothing(32);
    LowOnes(z, 0);
  }

  lemma {:induction false} SmearByNothing(k: nat)
    ensures SmearBy(Zero(), k) == Zero()
  {
    assert forall i :: 0 <= i < 64 ==> !SmearBy(Zero(), k)[i];
  }

  /** c - (c >> 1) after smearing */
  function PowerBelow(n: nat): (p: int) {
    var c := Smear(Bits(n, 64));
    Value(c) - Value(Shr(c, 1))
  }

  /** The cap is the largest power of two that is not above n. */
  lemma {:induction false} PowerBelowIsLargest(n: nat) returns (k: nat)
    requires 0 < n < Pow2(64)
    ensures PowerBelow(n) == Pow2(k) && Pow2(k) <= n < 2 * Pow2(k)
  {
    hide Smear, Bits, Value;
    SmearedValue(n);
    k := Log2(n);
    assert Shr(Mask(k + 1), 1) == Mask(k);
    MaskValue(k);
  }
}
