/** How a quotient filter splits a hash: the low bits are the remainder, the bits above them the quotient. */
module RsqfHash {
  import opened ModArith
  import opened BitXor
  import opened BitPacking
  import opened WordNumber
  import opened RsqfLayout
  import opened RsqfHistory

  /** (hash >> r) & (n - 1), for a power of two n */
  function Quotient(hash: Word, r: nat, n: nat): (q: nat)
    requires n > 0
    ensures q < n
  {
    Value(Shr(hash, r)) % n
  }

  /** hash & ((1 << r) - 1) */
  function Remainder(hash: Word, r: nat): (x: Word) {
    And(hash, Mask(r))
  }

  /** What a filter of n slots with r-bit remainders keeps of a hash: its value modulo this number. */
  function Modulus(r: nat, n: nat): (m: nat)
    requires n > 0
    ensures m > 0
  {
    Product(Pow2(r), n);
    Pow2(r) * n
  }

  // ---------------------------------------------------------------- shifting and masking as arithmetic

  lemma {:induction false} ValueSplit(s: seq<bool>, k: nat)
    requires k <= |s|
    ensures Value(s) == Value(s[..k]) + Pow2(k) * Value(s[k..])
    ensures Value(s[..k]) < Pow2(k)
  {
    if k == 0 {
      assert s[k..] == s;
    } else {
      ValueSplit(s[1..], k - 1);
      assert s[..k][1..] == s[1..][..k - 1] && s[1..][k - 1..] == s[k..];
      assert Value(s[..k]) == (if s[0] then 1 else 0) + 2 * Value(s[1..][..k - 1]);
      assert Value(s) == (if s[0] then 1 else 0) + 2 * Value(s[1..]);
      hide Value;
      TwiceProduct(Pow2(k - 1), Value(s[k..]));
    }
  }

  lemma {:induction false} TwiceProduct(p: nat, v: nat)
    ensures (2 * p) * v == 2 * (p * v)
  {
  }

  lemma {:induction false} ValuePadded(s: seq<bool>, t: seq<bool>)
    requires |s| <= |t| && t[..|s|] == s && forall i :: |s| <= i < |t| ==> !t[i]
    ensures Value(t) == Value(s)
  {
    if s == [] {
      ValueFits(t, 0);
    } else {
      assert t[0] == t[..|s|][0] == s[0];
      assert t[1..][..|s| - 1] == t[..|s|][1..];
      ValuePadded(s[1..], t[1..]);
    }
  }

  /** A shift to the right divides, a mask takes the remainder. */
  lemma {:induction false} ShiftDivides(w: Word, r: nat)
    requires r <= 64
    ensures Value(w) == Pow2(r) * Value(Shr(w, r)) + Value(And(w, Mask(r)))
    ensures Value(And(w, Mask(r))) < Pow2(r)
  {
    hide Value, Pow2;
    ValueSplit(w, r);
    assert Shr(w, r)[..64 - r] == w[r..];
    ValuePadded(w[r..], Shr(w, r));
    assert And(w, Mask(r))[..r] == w[..r];
    ValuePadded(w[..r], And(w, Mask(r)));
  }

  // ---------------------------------------------------------------- what the two parts are

  /** Quotient and remainder are the two digits of the hash modulo 2^r * n. */
  lemma {:induction false} SplitHash(hash: Word, r: nat, n: nat)
    requires r <= 64 && n > 0
    ensures Value(Remainder(hash, r)) < Pow2(r)
    ensures Value(hash) % Modulus(r, n) == Quotient(hash, r, n) * Pow2(r) + Value(Remainder(hash, r))
  {
    hide Value, Pow2;
    ShiftDivides(hash, r);
    TwoDigits(Value(hash), Value(Shr(hash, r)), Value(Remainder(hash, r)), Pow2(r), n);
  }

  lemma {:induction false} TwoDigits(v: nat, a: nat, b: nat, p: nat, n: nat)
    requires p > 0 && n > 0 && v == p * a + b && b < p
    ensures p * n > 0 && v % (p * n) == (a % n) * p + b
  {
    var q, d := a / n, a % n;
    assert a == n * q + d;
    assert p * a == p * (n * q) + p * d && p * (n * q) == (p * n) * q;
    Below(d, n, p, b);
    assert v == (p * n) * q + (p * d + b);
    ModUnique(v, q, p * d + b, p * n);
  }

  lemma {:induction false} Below(d: nat, n: nat, p: nat, b: nat)
    requires d < n && b < p
    ensures p * d + b < p * n
  {
    assert p * n == p * d + p * (n - d);
    assert p * (n - d) == p + p * (n - d - 1);
  }

  /** For a power of two the remainder modulo n is a mask. */
  lemma {:induction false} QuotientIsMasked(hash: Word, r: nat, k: nat)
    requires k <= 64
    ensures Quotient(hash, r, Pow2(k)) == Value(And(Shr(hash, r), Mask(k)))
  {
    hide Value, Pow2;
    var w := Shr(hash, r);
    ShiftDivides(w, k);
    ModUnique(Value(w), Value(Shr(w, k)), Value(And(w, Mask(k))), Pow2(k));
  }

  /** Two hashes have the same quotient and remainder exactly when they are congruent modulo 2^r * n. */
  lemma {:induction false} SameSplitIff(g: Word, h: Word, r: nat, n: nat)
    requires r <= 64 && n > 0
    ensures Quotient(g, r, n) == Quotient(h, r, n) && Remainder(g, r) == Remainder(h, r)
            <==> Value(g) % Modulus(r, n) == Value(h) % Modulus(r, n)
  {
    hide Value, Pow2, Quotient, Remainder, Modulus;
    SplitHash(g, r, n);
    SplitHash(h, r, n);
    var p := Pow2(r);
    if Value(g) % Modulus(r, n) == Value(h) % Modulus(r, n) {
      DivUnique(Value(g) % Modulus(r, n), Quotient(g, r, n), Value(Remainder(g, r)), p);
      DivUnique(Value(h) % Modulus(r, n), Quotient(h, r, n), Value(Remainder(h, r)), p);
      BitsOfValue(Remainder(g, r));
      BitsOfValue(Remainder(h, r));
    }
  }

  // ---------------------------------------------------------------- what a filter answers about hashes

  ghost function Calls(hashes: seq<Word>, r: nat, n: nat): (ops: seq<(nat, Word)>)
    requires n > 0
    ensures |ops| == |hashes|
    ensures forall i :: 0 <= i < |ops| ==> ops[i] == (Quotient(hashes[i], r, n), Remainder(hashes[i], r))
  {
    seq(|hashes|, i requires 0 <= i < |hashes| => (Quotient(hashes[i], r, n), Remainder(hashes[i], r)))
  }

  /** The filter after a sequence of insert calls. */
  ghost function Holding(hashes: seq<Word>, r: nat, n: nat): (l: Layout<Word>)
    requires n > 0
    ensures Canonical(l, Zero()) && WellSized(l) && |l.occ| == n
  {
    After(n, Zero(), Calls(hashes, r, n))
  }

  /** Call i was accepted: there was room for it. */
  ghost predicate Accepts(hashes: seq<Word>, r: nat, n: nat, i: nat)
    requires n > 0 && i < |hashes|
  {
    HasRoom(Holding(hashes[..i], r, n), Quotient(hashes[i], r, n))
  }

  /** Some accepted hash is congruent to h modulo 2^r * n. */
  ghost predicate Seen(hashes: seq<Word>, r: nat, n: nat, h: Word)
    requires n > 0
  {
    exists i :: 0 <= i < |hashes| && Accepts(hashes, r, n, i) &&
      Value(hashes[i]) % Modulus(r, n) == Value(h) % Modulus(r, n)
  }

  lemma {:induction false} CallsPrefix(hashes: seq<Word>, r: nat, n: nat, k: nat)
    requires n > 0 && k <= |hashes|
    ensures Calls(hashes[..k], r, n) == Calls(hashes, r, n)[..k]
  {
  }

  /** One more insert call. */
  lemma {:induction false} HoldingMore(hashes: seq<Word>, r: nat, n: nat, h: Word)
    requires n > 0
    ensures Holding(hashes + [h], r, n) ==
            Attempt(Holding(hashes, r, n), Zero(), Quotient(h, r, n), Remainder(h, r))
    ensures Accepts(hashes + [h], r, n, |hashes|) <==> HasRoom(Holding(hashes, r, n), Quotient(h, r, n))
  {
    hide Canonical, Quotient, Remainder;
    var more := hashes + [h];
    assert more[..|hashes|] == hashes;
    CallsPrefix(more, r, n, |hashes|);
  }

  /** Call i was accepted and put remainder x into the run of q. */
  ghost predicate Puts(hashes: seq<Word>, r: nat, n: nat, q: nat, x: Word, i: nat)
    requires n > 0 && i < |hashes|
  {
    Accepts(hashes, r, n, i) && Quotient(hashes[i], r, n) == q && Remainder(hashes[i], r) == x
  }

  lemma {:induction false} PutsPrefix(hashes: seq<Word>, r: nat, n: nat, q: nat, x: Word, k: nat, i: nat)
    requires n > 0 && i < k <= |hashes|
    ensures Puts(hashes[..k], r, n, q, x, i) <==> Puts(hashes, r, n, q, x, i)
  {
    assert hashes[..k][..i] == hashes[..i];
  }

  /** The run of a quotient holds exactly the remainders of the accepted hashes with that quotient. */
  lemma {:induction false} RunHolds(hashes: seq<Word>, r: nat, n: nat, q: nat, x: Word)
    requires n > 0 && q < n
    ensures x in Accepted(n, Zero(), Calls(hashes, r, n), q) <==>
            exists i: nat :: i < |hashes| && Puts(hashes, r, n, q, x, i)
    decreases |hashes|
  {
    hide Quotient, Remainder, Canonical, HasRoom, Accepted, Puts;
    if hashes == [] {
      NoCalls(r, n, q);
    } else {
      var k := |hashes| - 1;
      var init := hashes[..k];
      RunHolds(init, r, n, q, x);
      LastCall(hashes, r, n, q, x);
      forall i: nat | i < k ensures Puts(init, r, n, q, x, i) <==> Puts(hashes, r, n, q, x, i) {
        PutsPrefix(hashes, r, n, q, x, k, i);
      }
    }
  }

  lemma {:induction false} NoCalls(r: nat, n: nat, q: nat)
    requires n > 0 && q < n
    ensures Accepted(n, Zero(), Calls([], r, n), q) == []
  {
  }

  /** What the last call adds to the run of q. */
  lemma {:induction false} LastCall(hashes: seq<Word>, r: nat, n: nat, q: nat, x: Word)
    requires n > 0 && q < n && hashes != []
    ensures
      var k := |hashes| - 1;
      x in Accepted(n, Zero(), Calls(hashes, r, n), q) <==>
        x in Accepted(n, Zero(), Calls(hashes[..k], r, n), q) || Puts(hashes, r, n, q, x, k)
  {
    hide Quotient, Remainder, Canonical, HasRoom;
    CallsPrefix(hashes, r, n, |hashes| - 1);
  }

  lemma {:induction false} PutsIffSeen(hashes: seq<Word>, r: nat, n: nat, h: Word)
    requires n > 0 && r <= 64
    ensures (exists i: nat :: i < |hashes| && Puts(hashes, r, n, Quotient(h, r, n), Remainder(h, r), i))
            <==> Seen(hashes, r, n, h)
  {
    hide Quotient, Remainder, Accepts, Modulus, Value;
    forall i: nat | i < |hashes|
      ensures Puts(hashes, r, n, Quotient(h, r, n), Remainder(h, r), i) <==>
              Accepts(hashes, r, n, i) && Value(hashes[i]) % Modulus(r, n) == Value(h) % Modulus(r, n)
    {
      SameSplitIff(hashes[i], h, r, n);
    }
  }

  lemma {:induction false} OccupiedIff(hashes: seq<Word>, r: nat, n: nat, q: nat)
    requires n > 0 && q < n
    ensures Holding(hashes, r, n).occ[q] <==> Run(Holding(hashes, r, n), q) != []
  {
    var l := Holding(hashes, r, n);
    if l.occ[q] {
      CanonicalRunEnd(l, Zero(), q);
    }
  }

  /** What a lookup of h is worth after the insert calls: if the quotient has a run, true means that an accepted
      hash is congruent to h modulo 2^r * n, or that the remainder is 0 and free slots lie before the run; if not,
      the run that ends on the slot, if any, answers in its place. */
  ghost predicate Answers(hashes: seq<Word>, r: nat, n: nat, h: Word)
    requires n > 0
  {
    var l, q, x := Holding(hashes, r, n), Quotient(h, r, n), Remainder(h, r);
    if l.occ[q] then
      Seen(hashes, r, n, h) || (x == Zero() && AfterPrevious(l, q) < q)
    else if l.run[q] then
      HasHome(l, Zero(), q);
      var home := Home(l, q);
      || (exists i: nat :: i < |hashes| && Puts(hashes, r, n, home, x, i))
      || (x == Zero() && AfterPrevious(l, home) < home)
    else false
  }

  /** The lookup answers exactly that; it never misses an accepted hash, and on a quotient with a run and a
      remainder other than 0 it is true exactly for the hashes congruent to an accepted one. */
  lemma {:induction false} LookupOfHash(hashes: seq<Word>, r: nat, n: nat, h: Word)
    requires n > 0 && r <= 64
    ensures
      var l, q, x := Holding(hashes, r, n), Quotient(h, r, n), Remainder(h, r);
      && (Scans(l, Zero(), q, x) <==> Answers(hashes, r, n, h))
      && (Seen(hashes, r, n, h) ==> Scans(l, Zero(), q, x))
      && (l.occ[q] && x != Zero() ==> (Scans(l, Zero(), q, x) <==> Seen(hashes, r, n, h)))
  {
    hide Quotient, Remainder, Accepts, Canonical, Holding, Seen, Home, RunEnd, AfterPrevious;
    var l, q, x := Holding(hashes, r, n), Quotient(h, r, n), Remainder(h, r);
    RunOf(hashes, r, n, q, x);
    PutsIffSeen(hashes, r, n, h);
    OccupiedIff(hashes, r, n, q);
    if l.occ[q] {
      HomeOfOccupied(l, q);
      LookupExact(l, Zero(), q, x);
    } else if l.run[q] {
      LookupExact(l, Zero(), q, x);
      RunOf(hashes, r, n, Home(l, q), x);
    }
  }

  lemma {:induction false} RunOf(hashes: seq<Word>, r: nat, n: nat, q: nat, x: Word)
    requires n > 0 && q < n
    ensures x in Run(Holding(hashes, r, n), q) <==> exists i: nat :: i < |hashes| && Puts(hashes, r, n, q, x, i)
  {
    RunHolds(hashes, r, n, q, x);
    RunsAreHistory(n, Zero(), Calls(hashes, r, n), q);
  }
}
