/** The counting quotient filter's counters: a variable-length numeral system in r-bit slots
    whose symbols skip 0 and the remainder itself. */
module CqfCodec {
  import opened BitXor

  const WORD: nat := 0x1_0000_0000_0000_0000
  const ENC_BUF: nat := 128

  /** Remainder widths for which digits pass through a signed int unharmed. */
  predicate Width(r: nat) {
    2 <= r <= 31
  }

  function Base(x: nat, r: nat): (b: int) {
    if x == 0 then Pow2(r) - 1 else Pow2(r) - 2
  }

  lemma {:induction false} BaseBound(x: nat, r: nat)
    requires Width(r)
    ensures Base(x, r) >= 2
  {
    Pow2Monotone(2, r);
    assert Pow2(2) == 4;
  }

  function Symbol(d: nat, x: nat): (s: nat) {
    if x == 0 || d + 1 < x then d + 1 else d + 2
  }

  /** Unsigned subtraction. */
  function Minus(a: nat, b: nat): (d: nat)
    requires a < WORD && b <= WORD
  {
    (a + WORD - b) % WORD
  }

  function Digit(s: nat, x: nat): (d: nat)
    requires s < WORD
  {
    if x == 0 then Minus(s, 1)
    else if s == 0 then 0
    else if s < x then s - 1
    else Minus(s, 2)
  }

  /** Symbols are never 0 and never the remainder, fit a slot, and give back their digits. */
  lemma {:induction false} SymbolFacts(d: nat, x: nat, r: nat)
    requires Width(r) && x < Pow2(r) && d < Base(x, r)
    ensures Symbol(d, x) > 0 && Symbol(d, x) != x && Symbol(d, x) < Pow2(r) < WORD
    ensures Digit(Symbol(d, x), x) == d
  {
    PowerFits(r);
  }

  lemma {:induction false} PowerFits(r: nat)
    requires r <= 31
    ensures Pow2(r) < WORD
  {
    hide Pow2;
    Pow2Monotone(r, 32);
    PowZero();
    Pow2Byte(0);
    Pow2Byte(8);
    Pow2Byte(16);
    Pow2Byte(24);
  }

  /** v without its last digit, and the last digit. */
  function Shorter(v: nat, base: nat): (q: nat)
    requires base >= 2
    ensures 2 * q <= v
  {
    QuotientShrinks(v, base);
    v / base
  }

  function Last(v: nat, base: nat): (d: nat)
    requires base >= 2
    ensures d < base
  {
    v % base
  }

  lemma {:induction false} Division(v: nat, base: nat)
    requires base >= 2
    ensures Shorter(v, base) * base + Last(v, base) == v
  {
  }

  lemma {:induction false} QuotientShrinks(v: nat, base: nat)
    requires base >= 2
    ensures 2 * (v / base) <= v
  {
    Twice(v / base, base);
  }

  lemma {:induction false} Twice(q: nat, base: nat)
    requires base >= 2
    ensures 2 * q <= base * q
  {
    assert base * q == 2 * q + (base - 2) * q;
  }

  /** The digits of v, most significant first, as symbols; none for 0. */
  function Numeral(v: nat, x: nat, base: nat): (s: seq<nat>)
    requires base >= 2
  {
    if v == 0 then []
    else
      Numeral(Shorter(v, base), x, base) + [Symbol(Last(v, base), x)]
  }

  function Raw(v: nat, x: nat, base: nat): (s: seq<nat>)
    requires base >= 2
    ensures |s| > 0
  {
    if v == 0 then [Symbol(0, x)] else Numeral(v, x, base)
  }

  /** The symbols between the markers, for a count above 2: a leading 0 is added when the first
      symbol would not be below the remainder. */
  function Encoding(C: nat, x: nat, r: nat): (s: seq<nat>)
    requires Width(r)
  {
    BaseBound(x, r);
    if C <= 2 then []
    else
      var raw := Raw(C - 3, x, Base(x, r));
      if x > 0 && raw[0] >= x then [0] + raw else raw
  }

  /** All slots of an entry. */
  function Entry(C: nat, x: nat, r: nat): (s: seq<nat>)
    requires Width(r)
  {
    if C <= 1 then [x]
    else if C == 2 then [x, x]
    else if x == 0 then [0, 0] + Encoding(C, 0, r) + [0, 0]
    else [x] + Encoding(C, x, r) + [x]
  }

  /** The number read from the first n symbols, in 64-bit arithmetic. */
  function Fold(s: seq<nat>, n: nat, x: nat, base: nat): (v: nat)
    requires n <= |s| && forall i :: 0 <= i < |s| ==> s[i] < WORD
    ensures v < WORD
  {
    if n == 0 then 0 else (Fold(s, n - 1, x, base) * base + Digit(s[n - 1], x)) % WORD
  }

  function DecodeCount(s: seq<nat>, x: nat, r: nat): (C: nat)
    requires Width(r) && forall i :: 0 <= i < |s| ==> s[i] < WORD
  {
    BaseBound(x, r);
    if |s| == 0 then 3 else (Fold(s, |s|, x, Base(x, r)) + 3) % WORD
  }

  // ---------------------------------------------------------------- numerals

  ghost predicate SymbolsOk(s: seq<nat>, x: nat, r: nat) {
    forall i :: 0 <= i < |s| ==> s[i] < Pow2(r) && s[i] != x && (x == 0 ==> s[i] != 0)
  }

  lemma {:induction false} NumeralSymbols(v: nat, x: nat, r: nat, base: nat)
    requires Width(r) && x < Pow2(r) && base == Base(x, r) >= 2
    ensures SymbolsOk(Numeral(v, x, base), x, r)
  {
    if v > 0 {
      hide Pow2, Base, Symbol, Shorter, Last;
      NumeralSymbols(Shorter(v, base), x, r, base);
      SymbolFacts(Last(v, base), x, r);
    }
  }

  /** A number below 2^k has at most k digits in any base. */
  lemma {:induction false} NumeralLength(v: nat, x: nat, base: nat, k: nat)
    requires base >= 2 && v < Pow2(k)
    ensures |Numeral(v, x, base)| <= k
  {
    if v > 0 {
      hide Shorter, Last;
      NumeralLength(Shorter(v, base), x, base, k - 1);
    }
  }

  lemma {:induction false} FoldPrefix(s: seq<nat>, t: seq<nat>, n: nat, x: nat, base: nat)
    requires n <= |s| && n <= |t| && s[..n] == t[..n]
    requires forall i :: 0 <= i < |s| ==> s[i] < WORD
    requires forall i :: 0 <= i < |t| ==> t[i] < WORD
    ensures Fold(s, n, x, base) == Fold(t, n, x, base)
  {
    if n > 0 {
      assert s[..n][n - 1] == t[..n][n - 1];
      assert s[..n - 1] == s[..n][..n - 1] == t[..n - 1];
      FoldPrefix(s, t, n - 1, x, base);
    }
  }

  lemma {:induction false} FoldAppend(s: seq<nat>, sym: nat, x: nat, base: nat)
    requires sym < WORD && forall i :: 0 <= i < |s| ==> s[i] < WORD
    ensures Fold(s + [sym], |s| + 1, x, base) == (Fold(s, |s|, x, base) * base + Digit(sym, x)) % WORD
  {
    hide Digit;
    var t := s + [sym];
    assert t[..|s|] == s == s[..|s|] && t[|s|] == sym;
    FoldPrefix(t, s, |s|, x, base);
  }

  /** Reading a numeral back gives the number, without wrapping. */
  lemma {:induction false} FoldNumeral(v: nat, x: nat, r: nat, base: nat)
    requires Width(r) && x < Pow2(r) < WORD && base == Base(x, r) >= 2 && v < WORD
    ensures var s := Numeral(v, x, base);
      (forall i :: 0 <= i < |s| ==> s[i] < WORD) && Fold(s, |s|, x, base) == v
    decreases v
  {
    hide Pow2, Base, Symbol, Digit, Shorter, Last;
    var s := Numeral(v, x, base);
    NumeralSymbols(v, x, r, base);
    if v > 0 {
      var q := Shorter(v, base);
      FoldNumeral(q, x, r, base);
      SymbolFacts(Last(v, base), x, r);
      hide Fold;
      var d := Last(v, base);
      FoldAppend(Numeral(q, x, base), Symbol(d, x), x, base);
      Division(v, base);
      assert q * base + d == v;
      hide Numeral;
      Unwrapped(Fold(Numeral(q, x, base), |Numeral(q, x, base)|, x, base), q, d, base, v);
    }
  }

  lemma {:induction false} Unwrapped(f: nat, q: nat, d: nat, base: nat, v: nat)
    requires f == q && q * base + d == v < WORD
    ensures (f * base + d) % WORD == v
  {
  }

  lemma {:induction false} FoldLeadingZero(s: seq<nat>, n: nat, x: nat, base: nat)
    requires n <= |s| && x > 0 && forall i :: 0 <= i < |s| ==> s[i] < WORD
    ensures Fold([0] + s, n + 1, x, base) == Fold(s, n, x, base)
  {
    hide Digit;
    if n > 0 {
      FoldLeadingZero(s, n - 1, x, base);
      assert ([0] + s)[n] == s[n - 1];
    } else {
      ZeroDigit(x);
      assert Fold([0] + s, 0, x, base) == 0;
    }
  }

  lemma {:induction false} ZeroDigit(x: nat)
    requires x > 0
    ensures Digit(0, x) == 0
  {
  }

  lemma {:induction false} PowerOfWord()
    ensures Pow2(64) == WORD
  {
    hide Pow2;
    PowZero();
    Pow2Byte(0);
    Pow2Byte(8);
    Pow2Byte(16);
    Pow2Byte(24);
    Pow2Byte(32);
    Pow2Byte(40);
    Pow2Byte(48);
    Pow2Byte(56);
  }

  /** The unpadded symbols read back as the number and fit 64 slots. */
  lemma {:induction false} RawRoundTrip(v: nat, x: nat, r: nat, base: nat)
    requires Width(r) && x < Pow2(r) && base == Base(x, r) >= 2 && v < WORD
    ensures var s := Raw(v, x, base);
      && SymbolsOk(s, x, r) && |s| <= 64 && s[0] != 0
      && (forall i :: 0 <= i < |s| ==> s[i] < WORD) && Fold(s, |s|, x, base) == v
  {
    hide Pow2, Base, Symbol, Digit;
    PowerFits(r);
    PowerOfWord();
    if v == 0 {
      SymbolFacts(0, x, r);
      assert Fold([Symbol(0, x)], 0, x, base) == 0;
    } else {
      NumeralSymbols(v, x, r, base);
      NumeralLength(v, x, base, 64);
      FoldNumeral(v, x, r, base);
      NumeralPositive(v, x, base);
    }
  }

  lemma {:induction false} NumeralPositive(v: nat, x: nat, base: nat)
    requires base >= 2
    ensures forall i :: 0 <= i < |Numeral(v, x, base)| ==> Numeral(v, x, base)[i] > 0
    decreases v
  {
    if v > 0 {
      hide Shorter, Last;
      NumeralPositive(Shorter(v, base), x, base);
    }
  }

  /** What is between the markers: at least one symbol and at most 65, none equal to the remainder,
      starting below the remainder when that is positive; and it reads back as the count. */
  lemma {:induction false} EncodingRoundTrip(C: nat, x: nat, r: nat)
    requires Width(r) && x < Pow2(r) && 2 < C < WORD
    ensures var s := Encoding(C, x, r);
      && 1 <= |s| <= 65 < ENC_BUF && SymbolsOk(s, x, r) && (x > 0 ==> s[0] < x)
      && (forall i :: 0 <= i < |s| ==> s[i] < WORD) && DecodeCount(s, x, r) == C
  {
    hide Pow2, Base, Symbol, Digit, Fold;
    BaseBound(x, r);
    PowerFits(r);
    var base := Base(x, r);
    var raw := Raw(C - 3, x, base);
    RawRoundTrip(C - 3, x, r, base);
    if x > 0 && raw[0] >= x {
      PowerPositive(r);
      FoldLeadingZero(raw, |raw|, x, base);
    }
  }

  lemma {:induction false} PowerPositive(r: nat)
    ensures Pow2(r) > 0
  {
  }

  // ---------------------------------------------------------------- reading an entry

  /** First slot from i to end that holds v, or end + 1. */
  function Find<T(==)>(t: seq<T>, i: nat, end: nat, v: T): (j: nat)
    requires end < |t| && i <= end + 1
    ensures i <= j <= end + 1
    ensures forall k :: i <= k < j ==> t[k] != v
    ensures j <= end ==> t[j] == v
    decreases end + 1 - i
  {
    if i == end + 1 || t[i] == v then i else Find(t, i + 1, end, v)
  }

  /** First slot from i to end that does not hold v, or end + 1. */
  function FindOther(t: seq<nat>, i: nat, end: nat, v: nat): (j: nat)
    requires end < |t| && i <= end + 1
    ensures i <= j <= end + 1
    ensures forall k :: i <= k < j ==> t[k] == v
    ensures j <= end ==> t[j] != v
    decreases end + 1 - i
  {
    if i == end + 1 || t[i] != v then i else FindOther(t, i + 1, end, v)
  }

  function Buffered(s: seq<nat>): (b: seq<nat>)
    ensures |b| <= |s| && forall i :: 0 <= i < |b| ==> b[i] == s[i]
  {
    if |s| <= ENC_BUF then s else s[..ENC_BUF]
  }

  ghost predicate SlotValues(t: seq<nat>) {
    forall i :: 0 <= i < |t| ==> t[i] < WORD
  }

  /** Count and end of an entry that starts with remainder 0. */
  ghost function ZeroEntry(t: seq<nat>, pos: nat, end: nat, r: nat): (p: (nat, nat))
    requires Width(r) && pos <= end < |t| && SlotValues(t)
  {
    var i := FindOther(t, pos + 1, end, 0);
    if i - pos > 2 then (1, pos + 1)
    else if i - pos == 2 && i <= end then
      var j := Find(t, i, end, 0);
      if j + 1 <= end && t[j + 1] == 0 then (DecodeCount(Buffered(t[i..j]), 0, r), j + 2) else (2, i)
    else (i - pos, i)
  }

  /** Count and end of an entry that starts with another remainder. */
  ghost function PlainEntry(t: seq<nat>, pos: nat, end: nat, r: nat): (p: (nat, nat))
    requires Width(r) && pos <= end < |t| && SlotValues(t)
  {
    var x := t[pos];
    var j := Find(t, pos + 1, end, x);
    if j > end then (1, pos + 1)
    else if j == pos + 1 then (2, j + 1)
    else (DecodeCount(Buffered(t[pos + 1..j]), x, r), j + 1)
  }

  ghost function EntryAt(t: seq<nat>, pos: nat, end: nat, r: nat): (p: (nat, nat))
    requires Width(r) && pos <= end < |t| && SlotValues(t)
  {
    if t[pos] == 0 then ZeroEntry(t, pos, end, r) else PlainEntry(t, pos, end, r)
  }

  lemma {:induction false} FindAt<T>(t: seq<T>, i: nat, end: nat, v: T, j: nat)
    requires end < |t| && i <= j <= end + 1 && forall k :: i <= k < j ==> t[k] != v
    requires j <= end ==> t[j] == v
    ensures Find(t, i, end, v) == j
  {
  }

  lemma {:induction false} FindOtherAt(t: seq<nat>, i: nat, end: nat, v: nat, j: nat)
    requires end < |t| && i <= j <= end + 1 && forall k :: i <= k < j ==> t[k] == v
    requires j <= end ==> t[j] != v
    ensures FindOther(t, i, end, v) == j
  {
  }

  /** The entry e stands at slot pos. */
  ghost predicate Stands(t: seq<nat>, pos: nat, e: seq<nat>) {
    pos + |e| <= |t| && t[pos..pos + |e|] == e
  }

  lemma {:induction false} StandsAt(t: seq<nat>, pos: nat, e: seq<nat>, k: nat)
    requires Stands(t, pos, e) && pos <= k < pos + |e|
    ensures pos + |e| <= |t| && t[k] == e[k - pos]
  {
    assert t[pos..pos + |e|][k - pos] == t[k];
  }

  /** What follows an entry in its run does not change how the entry reads.  Only counts 1 and 2
      can be misread: a single copy of a remainder by a later slot with the same value, copies of
      0 by later zeros. */
  ghost predicate Undisturbed(t: seq<nat>, pos: nat, end: nat, C: nat, x: nat)
    requires pos <= end < |t|
  {
    if x > 0 then C >= 2 || forall k :: pos < k <= end ==> t[k] != x
    else if C == 1 then pos == end || t[pos + 1] != 0 || (pos + 2 <= end && t[pos + 2] == 0)
    else if C == 2 then
      pos + 1 >= end || (t[pos + 2] != 0 && var j := Find(t, pos + 2, end, 0); !(j + 1 <= end && t[j + 1] == 0))
    else true
  }

  /** A written entry inside a longer run reads back, count and end, exactly when what follows does
      not disturb it. */
  lemma {:induction false} EntryReadsIff(t: seq<nat>, pos: nat, end: nat, C: nat, x: nat, r: nat)
    requires Width(r) && x < Pow2(r) && 1 <= C < WORD
    requires SlotValues(t) && Stands(t, pos, Entry(C, x, r)) && pos + |Entry(C, x, r)| <= end + 1 <= |t|
    ensures |Entry(C, x, r)| > 0 && t[pos] == x
    ensures EntryAt(t, pos, end, r) == (C, pos + |Entry(C, x, r)|) <==> Undisturbed(t, pos, end, C, x)
  {
    hide Pow2, Encoding, DecodeCount, Find, FindOther, SymbolsOk, Stands, EntryAt, Undisturbed;
    StandsAt(t, pos, Entry(C, x, r), pos);
    if C <= 2 {
      if x == 0 {
        ShortZero(t, pos, end, C, r);
      } else {
        ShortPlain(t, pos, end, C, x, r);
      }
    } else if x == 0 {
      LongZero(t, pos, end, C, r);
    } else {
      LongPlain(t, pos, end, C, x, r);
    }
  }

  lemma {:induction false} ShortPlain(t: seq<nat>, pos: nat, end: nat, C: nat, x: nat, r: nat)
    requires Width(r) && 1 <= C <= 2 && x > 0 && SlotValues(t)
    requires Stands(t, pos, Entry(C, x, r)) && pos + C <= end + 1 <= |t|
    ensures EntryAt(t, pos, end, r) == (C, pos + C) <==> Undisturbed(t, pos, end, C, x)
  {
    hide DecodeCount, Find, Stands, Encoding;
    StandsAt(t, pos, Entry(C, x, r), pos);
    if C == 2 {
      StandsAt(t, pos, Entry(C, x, r), pos + 1);
      FindAt(t, pos + 1, end, x, pos + 1);
    }
  }

  lemma {:induction false} ShortZero(t: seq<nat>, pos: nat, end: nat, C: nat, r: nat)
    requires Width(r) && 1 <= C <= 2 && SlotValues(t)
    requires Stands(t, pos, Entry(C, 0, r)) && pos + C <= end + 1 <= |t|
    ensures EntryAt(t, pos, end, r) == (C, pos + C) <==> Undisturbed(t, pos, end, C, 0)
  {
    hide DecodeCount, Find, Stands, Encoding;
    StandsAt(t, pos, Entry(C, 0, r), pos);
    if C == 2 {
      StandsAt(t, pos, Entry(C, 0, r), pos + 1);
    }
  }

  lemma {:induction false} LongZero(t: seq<nat>, pos: nat, end: nat, C: nat, r: nat)
    requires Width(r) && 2 < C < WORD && SlotValues(t)
    requires Stands(t, pos, Entry(C, 0, r)) && pos + |Entry(C, 0, r)| <= end + 1 <= |t|
    ensures EntryAt(t, pos, end, r) == (C, pos + |Entry(C, 0, r)|) && Undisturbed(t, pos, end, C, 0)
  {
    hide Pow2, Encoding, DecodeCount, Find, FindOther, Stands;
    var s, e := Encoding(C, 0, r), Entry(C, 0, r);
    PowerPositive(r);
    EncodingRoundTrip(C, 0, r);
    var i, j := pos + 2, pos + 2 + |s|;
    StandsAt(t, pos, e, pos);
    StandsAt(t, pos, e, pos + 1);
    StandsAt(t, pos, e, j);
    StandsAt(t, pos, e, j + 1);
    forall k | i <= k < j ensures t[k] == s[k - i] && t[k] != 0 {
      StandsAt(t, pos, e, k);
    }
    FindOtherAt(t, pos + 1, end, 0, i);
    FindAt(t, i, end, 0, j);
    assert t[i..j] == s;
  }

  lemma {:induction false} LongPlain(t: seq<nat>, pos: nat, end: nat, C: nat, x: nat, r: nat)
    requires Width(r) && 0 < x < Pow2(r) && 2 < C < WORD && SlotValues(t)
    requires Stands(t, pos, Entry(C, x, r)) && pos + |Entry(C, x, r)| <= end + 1 <= |t|
    ensures EntryAt(t, pos, end, r) == (C, pos + |Entry(C, x, r)|) && Undisturbed(t, pos, end, C, x)
  {
    hide Pow2, Encoding, DecodeCount, Find, FindOther, Stands;
    var s, e := Encoding(C, x, r), Entry(C, x, r);
    EncodingRoundTrip(C, x, r);
    var i, j := pos + 1, pos + 1 + |s|;
    StandsAt(t, pos, e, pos);
    StandsAt(t, pos, e, j);
    forall k | i <= k < j ensures t[k] == s[k - i] && t[k] != x {
      StandsAt(t, pos, e, k);
    }
    FindAt(t, i, end, x, j);
    assert t[i..j] == s;
  }

  datatype Reading = Bad | Read(rem: nat, count: nat, next: nat)

  /** What reading the next entry of a run gives: slots that are not in use are skipped, and an
      entry is refused when it does not have the length its count calls for. */
  ghost function Decoded(t: seq<nat>, inUse: seq<bool>, pos: nat, end: nat, r: nat): (d: Reading)
    requires Width(r) && end < |t| == |inUse| && SlotValues(t)
  {
    if pos > end then Bad
    else
      var p := Find(inUse, pos, end, true);
      if p > end then Bad
      else
        var e := EntryAt(t, p, end, r);
        if e.1 == p + |Entry(e.0, t[p], r)| then Read(t[p], e.0, e.1) else Bad
  }

  /** A written entry in a run that ends at slot end reads back as its remainder and count, and
      reading stops just after it, exactly when what follows does not disturb it. */
  lemma {:induction false} ReadBackIff(t: seq<nat>, inUse: seq<bool>, pos: nat, end: nat, C: nat, x: nat, r: nat)
    requires Width(r) && x < Pow2(r) && 1 <= C < WORD
    requires SlotValues(t) && |t| == |inUse| && Stands(t, pos, Entry(C, x, r))
    requires pos + |Entry(C, x, r)| <= end + 1 <= |t| && pos < |t| && inUse[pos]
    ensures pos <= end
    ensures Decoded(t, inUse, pos, end, r) == Read(x, C, pos + |Entry(C, x, r)|) <==> Undisturbed(t, pos, end, C, x)
  {
    hide Pow2, Encoding, EntryAt, Find, Undisturbed, Stands;
    EntryReadsIff(t, pos, end, C, x, r);
    FindAt(inUse, pos, end, true, pos);
  }

  /** The round trip: a written entry whose run ends at its last slot reads back. */
  lemma {:induction false} ReadBack(t: seq<nat>, inUse: seq<bool>, pos: nat, C: nat, x: nat, r: nat)
    requires Width(r) && x < Pow2(r) && 1 <= C < WORD
    requires SlotValues(t) && |t| == |inUse| && Stands(t, pos, Entry(C, x, r)) && pos < |t| && inUse[pos]
    ensures var n := |Entry(C, x, r)|;
      n > 0 && pos + n - 1 < |t| && Decoded(t, inUse, pos, pos + n - 1, r) == Read(x, C, pos + n)
  {
    hide Pow2, Encoding, EntryAt, Find, Decoded;
    ReadBackIff(t, inUse, pos, pos + |Entry(C, x, r)| - 1, C, x, r);
  }

  /** A run of two well-formed entries, remainder 1 once and remainder 2 three times, whose first
      entry is refused. */
  lemma {:induction false} PairMisread(r: nat)
    requires Width(r)
    ensures Entry(1, 1, r) + Entry(3, 2, r) == [1, 2, 1, 2]
    ensures Decoded([1, 2, 1, 2], [true, true, true, true], 0, 3, r) == Bad
  {
    BaseBound(2, r);
    BaseBound(1, r);
    hide Base;
    var t := [1, 2, 1, 2];
    assert Encoding(3, 2, r) == [1];
    assert Encoding(3, 1, r) == [0, 2];
    FindAt([true, true, true, true], 0, 3, true, 0);
    FindAt(t, 1, 3, 1, 2);
    assert t[1..2] == [2] == Buffered([2]);
    assert Fold([2], 0, 1, Base(1, r)) == 0;
    assert DecodeCount([2], 1, r) == 3;
  }
}
