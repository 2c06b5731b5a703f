/** Exclusive or of natural numbers, and how it respects powers of two. */
module BitXor {
  import opened ModArith

  function Pow2(k: nat): (p: nat)
    ensures p >= 1
  {
    if k == 0 then 1 else 2 * Pow2(k - 1)
  }

  lemma {:induction false} Pow2Monotone(i: nat, j: nat)
    requires i <= j
    ensures Pow2(i) <= Pow2(j)
  {
    if i < j {
      Pow2Monotone(i, j - 1);
    }
  }

  lemma {:induction false} PowZero()
    ensures Pow2(0) == 1
  {
  }

  lemma {:induction false} Pow2Byte(k: nat)
    ensures Pow2(k + 8) == 256 * Pow2(k)
  {
    assert Pow2(k + 2) == 2 * Pow2(k + 1);
    assert Pow2(k + 4) == 2 * Pow2(k + 3) && Pow2(k + 3) == 2 * Pow2(k + 2);
    assert Pow2(k + 6) == 2 * Pow2(k + 5) && Pow2(k + 5) == 2 * Pow2(k + 4);
    assert Pow2(k + 8) == 2 * Pow2(k + 7) && Pow2(k + 7) == 2 * Pow2(k + 6);
  }

  function Xor(a: nat, b: nat): (c: nat)
    decreases a + b
  {
    if a == 0 && b == 0 then 0
    else 2 * Xor(a / 2, b / 2) + if a % 2 != b % 2 then 1 else 0
  }

  lemma {:induction false} XorZero(a: nat)
    ensures Xor(a, 0) == a
  {
    if a > 0 {
      XorZero(a / 2);
    }
  }

  lemma {:induction false} XorCommutes(a: nat, b: nat)
    ensures Xor(a, b) == Xor(b, a)
    decreases a + b
  {
    if a > 0 || b > 0 {
      XorCommutes(a / 2, b / 2);
    }
  }

  /** Applying the same mask twice restores the number. */
  lemma {:induction false} XorCancels(a: nat, b: nat)
    ensures Xor(Xor(a, b), b) == a
    decreases a + b
  {
    if a > 0 || b > 0 {
      XorCancels(a / 2, b / 2);
      var c := Xor(a, b);
      assert c / 2 == Xor(a / 2, b / 2) && c % 2 == (if a % 2 != b % 2 then 1 else 0);
      if c == 0 && b == 0 {
        XorZero(a);
      }
    }
  }

  lemma {:induction false} XorBelow(a: nat, b: nat, k: nat)
    requires a < Pow2(k) && b < Pow2(k)
    ensures Xor(a, b) < Pow2(k)
    decreases k
  {
    if k > 0 && (a > 0 || b > 0) {
      XorBelow(a / 2, b / 2, k - 1);
    }
  }

  /** A mask other than zero moves every number. */
  lemma {:induction false} XorMoves(a: nat, b: nat)
    requires b > 0
    ensures Xor(a, b) != a
    decreases b
  {
    if a % 2 == b % 2 || b % 2 == 0 {
      if b / 2 > 0 {
        XorMoves(a / 2, b / 2);
      }
    }
  }

  /** The low bits of an exclusive or depend on the low bits only. */
  lemma {:induction false} XorLowBits(a: nat, b: nat, k: nat)
    ensures Xor(a, b) % Pow2(k) == Xor(a % Pow2(k), b % Pow2(k))
    decreases k
  {
    if k > 0 {
      XorLowBits(a / 2, b / 2, k - 1);
      XorLowBit(a, b, Pow2(k - 1));
    }
  }

  lemma {:induction false} XorLowBit(a: nat, b: nat, p: nat)
    requires p > 0 && Xor(a / 2, b / 2) % p == Xor((a / 2) % p, (b / 2) % p)
    ensures Xor(a, b) % (2 * p) == Xor(a % (2 * p), b % (2 * p))
  {
    hide Xor;
    var x, y := (a / 2) % p, (b / 2) % p;
    HalfMod(a, p);
    HalfMod(b, p);
    HalfMod(Xor(a, b), p);
    XorStep(a, b);
    XorOf(x, y, a % 2, b % 2);
  }

  lemma {:induction false} XorOf(x: nat, y: nat, d: nat, e: nat)
    requires d < 2 && e < 2
    ensures Xor(2 * x + d, 2 * y + e) == 2 * Xor(x, y) + if d != e then 1 else 0
  {
    XorStep(2 * x + d, 2 * y + e);
  }

  /** One bit and the rest. */
  lemma {:induction false} XorStep(a: nat, b: nat)
    ensures Xor(a, b) / 2 == Xor(a / 2, b / 2)
    ensures Xor(a, b) % 2 == if a % 2 != b % 2 then 1 else 0
    ensures Xor(a, b) == 2 * Xor(a / 2, b / 2) + if a % 2 != b % 2 then 1 else 0
  {
  }

  lemma {:induction false} HalfMod(a: nat, p: nat)
    requires p > 0
    ensures a % (2 * p) == 2 * ((a / 2) % p) + a % 2
  {
    var q, r := (a / 2) / p, (a / 2) % p;
    assert a / 2 == p * q + r;
    assert a == (2 * p) * q + (2 * r + a % 2);
    ModUnique(a, q, 2 * r + a % 2, 2 * p);
  }

  // ---------------------------------------------------------------- single bits

  /** Bit j of v, the lowest being bit 0. */
  predicate Bit(v: nat, j: nat) {
    if j == 0 then v % 2 == 1 else Bit(v / 2, j - 1)
  }

  lemma {:induction false} BitIsDigit(v: nat, j: nat)
    ensures Bit(v, j) <==> (v / Pow2(j)) % 2 == 1
  {
    if j > 0 {
      BitIsDigit(v / 2, j - 1);
      HalfDiv(v, Pow2(j - 1));
    }
  }

  lemma {:induction false} HalfDiv(v: nat, p: nat)
    requires p > 0
    ensures v / (2 * p) == (v / 2) / p
  {
    var q, r := (v / 2) / p, (v / 2) % p;
    assert v / 2 == p * q + r;
    assert v == (2 * p) * q + (2 * r + v % 2);
    DivUnique(v, q, 2 * r + v % 2, 2 * p);
  }

  lemma {:induction false} XorBit(a: nat, b: nat, j: nat)
    ensures Bit(Xor(a, b), j) <==> Bit(a, j) != Bit(b, j)
  {
    hide Xor;
    XorStep(a, b);
    if j > 0 {
      XorBit(a / 2, b / 2, j - 1);
    }
  }

  lemma {:induction false} ModBit(v: nat, k: nat, j: nat)
    ensures Bit(v % Pow2(k), j) <==> j < k && Bit(v, j)
    decreases k
  {
    if k == 0 {
      NoBit(j);
    } else {
      HalfMod(v, Pow2(k - 1));
      if j > 0 {
        ModBit(v / 2, k - 1, j - 1);
        HalfOfMod(v, Pow2(k - 1));
      }
    }
  }

  lemma {:induction false} HalfOfMod(v: nat, p: nat)
    requires p > 0
    ensures v % (2 * p) / 2 == (v / 2) % p
  {
    HalfMod(v, p);
  }

  lemma {:induction false} NoBit(j: nat)
    ensures !Bit(0, j)
  {
    if j > 0 {
      NoBit(j - 1);
    }
  }

  /** The bits from bit k on are those of the quotient by 2^k. */
  lemma {:induction false} DivBit(v: nat, k: nat, q: nat, r: nat, j: nat)
    requires v == Pow2(k) * q + r && r < Pow2(k)
    ensures Bit(q, j) <==> Bit(v, k + j)
  {
    if k > 0 {
      HalfOf(v, q, r, Pow2(k - 1));
      DivBit(v / 2, k - 1, q, r / 2, j);
    }
  }

  lemma {:induction false} HalfOf(v: nat, q: nat, r: nat, p: nat)
    requires v == (2 * p) * q + r && r < 2 * p
    ensures v / 2 == p * q + r / 2 && r / 2 < p
  {
    assert (2 * p) * q == 2 * (p * q);
  }

  /** A number below 2^k is decided by its k low bits. */
  lemma {:induction false} BitsDecide(a: nat, b: nat, k: nat)
    requires a < Pow2(k) && b < Pow2(k) && forall j: nat :: j < k ==> (Bit(a, j) <==> Bit(b, j))
    ensures a == b
    decreases k
  {
    if k > 0 {
      assert Bit(a, 0) <==> Bit(b, 0);
      forall j: nat | j < k - 1 ensures Bit(a / 2, j) <==> Bit(b / 2, j) {
        assert Bit(a, j + 1) <==> Bit(b, j + 1);
      }
      BitsDecide(a / 2, b / 2, k - 1);
    }
  }

  lemma {:induction false} BelowPow2(a: nat)
    ensures a < Pow2(a)
  {
    if a > 0 {
      BelowPow2(a - 1);
    }
  }

  /** So is every number by all its bits. */
  lemma {:induction false} SameBits(a: nat, b: nat)
    requires forall j: nat :: Bit(a, j) <==> Bit(b, j)
    ensures a == b
  {
    BelowPow2(a);
    BelowPow2(b);
    Pow2Monotone(a, a + b);
    Pow2Monotone(b, a + b);
    BitsDecide(a, b, a + b);
  }

  /** c is the exclusive or of a and b, bit by bit. */
  ghost predicate IsXor(c: nat, a: nat, b: nat) {
    forall j: nat {:trigger Bit(c, j)} :: Bit(c, j) <==> Bit(a, j) != Bit(b, j)
  }

  lemma {:induction false} XorIs(c: nat, a: nat, b: nat)
    ensures IsXor(c, a, b) <==> c == Xor(a, b)
  {
    forall j: nat ensures Bit(Xor(a, b), j) <==> Bit(a, j) != Bit(b, j) {
      XorBit(a, b, j);
    }
    if IsXor(c, a, b) {
      SameBits(c, Xor(a, b));
    }
  }
}
