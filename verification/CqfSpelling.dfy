/** What the counter encoding writes, without its arithmetic: the shortest numeral over the slot values other than 0 and
    the remainder, taken in ascending order as digits. */
module CqfSpelling {
  import opened BitXor
  import opened ModArith
  import opened CqfCodec

  /** A symbol is neither 0 nor the remainder. */
  predicate IsSymbol(y: nat, x: nat) {
    y != 0 && y != x
  }

  ghost function Below(n: nat, x: nat): (ys: set<nat>) {
    set y: nat | y < n && IsSymbol(y, x)
  }

  /** The values a symbol can have, next to remainder x in r-bit slots. */
  ghost function Usable(x: nat, r: nat): (ys: set<nat>) {
    Below(Pow2(r), x)
  }

  /** How many smaller values a symbol can have. */
  ghost function Rank(sym: nat, x: nat): (d: nat) {
    |Below(sym, x)|
  }

  /** The number the symbols spell, the first counting most, with as many digits as there are usable values. */
  ghost function Number(s: seq<nat>, x: nat, r: nat): (v: nat) {
    if s == [] then 0 else Number(s[..|s| - 1], x, r) * |Usable(x, r)| + Rank(s[|s| - 1], x)
  }

  /** s is the shortest way to spell v; 0 takes one symbol. */
  ghost predicate Spells(s: seq<nat>, v: nat, x: nat, r: nat) {
    && s != [] && (forall i :: 0 <= i < |s| ==> s[i] in Usable(x, r))
    && (|s| > 1 ==> Rank(s[0], x) > 0)
    && Number(s, x, r) == v
  }

  /** What is written between the markers: the count less 3, with a 0 in front when the first symbol would not be below
      a positive remainder. */
  ghost predicate IsEncoding(e: seq<nat>, C: nat, x: nat, r: nat)
    requires C > 2
  {
    exists s :: Spells(s, C - 3, x, r) && e == if x > 0 && s[0] >= x then [0] + s else s
  }

  /** All slots of an entry. */
  ghost predicate IsEntry(e: seq<nat>, C: nat, x: nat, r: nat) {
    if C <= 1 then e == [x]
    else if C == 2 then e == [x, x]
    else exists s :: IsEncoding(s, C, x, r) && e == if x == 0 then [0, 0] + s + [0, 0] else [x] + s + [x]
  }

  // ---------------------------------------------------------------- base and digits

  lemma {:induction false} HowManyBelow(n: nat, x: nat)
    ensures |Below(n, x)| == if n == 0 then 0 else n - 1 - if 0 < x < n then 1 else 0
  {
    if n <= 1 {
      assert Below(n, x) == {};
    } else {
      HowManyBelow(n - 1, x);
      assert Below(n, x) == Below(n - 1, x) + if n - 1 == x then {} else {n - 1};
    }
  }

  /** The base of the code is the number of usable values. */
  lemma {:induction false} BaseIs(x: nat, r: nat)
    requires x < Pow2(r)
    ensures Base(x, r) == |Usable(x, r)|
  {
    HowManyBelow(Pow2(r), x);
  }

  /** Symbols and digits correspond: a symbol stands for the number of smaller usable values. */
  lemma {:induction false} SymbolIs(d: nat, sym: nat, x: nat, r: nat)
    requires Width(r) && x < Pow2(r)
    ensures sym in Usable(x, r) && Rank(sym, x) == d <==> d < Base(x, r) && sym == Symbol(d, x)
  {
    HowManyBelow(sym, x);
  }

  // ---------------------------------------------------------------- numerals

  lemma {:induction false} NumberAppend(s: seq<nat>, sym: nat, x: nat, r: nat)
    ensures Number(s + [sym], x, r) == Number(s, x, r) * |Usable(x, r)| + Rank(sym, x)
  {
    assert (s + [sym])[..|s|] == s;
  }

  /** The code's numeral spells its number. */
  lemma {:induction false} NumeralSpells(v: nat, x: nat, r: nat)
    requires Width(r) && x < Pow2(r) && v > 0 && Base(x, r) >= 2
    ensures Spells(Numeral(v, x, Base(x, r)), v, x, r)
    ensures Rank(Numeral(v, x, Base(x, r))[0], x) > 0
    decreases v
  {
    hide Usable, Rank, Symbol, Base, Pow2, Shorter, Last;
    var b := Base(x, r);
    var q, d := Shorter(v, b), Last(v, b);
    Division(v, b);
    BaseIs(x, r);
    SymbolIs(d, Symbol(d, x), x, r);
    var s := Numeral(q, x, b);
    NumberAppend(s, Symbol(d, x), x, r);
    if q > 0 {
      NumeralSpells(q, x, r);
      assert Numeral(v, x, b)[0] == s[0];
    } else {
      assert s == [];
    }
  }

  lemma {:induction false} NumberPositive(s: seq<nat>, x: nat, r: nat)
    requires s != [] && Rank(s[0], x) > 0 && |Usable(x, r)| >= 1
    ensures Number(s, x, r) > 0
  {
    hide Usable, Rank;
    if |s| > 1 {
      var t := s[..|s| - 1];
      NumberPositive(t, x, r);
      Product(Number(t, x, r), |Usable(x, r)|);
    }
  }

  /** There is no other way to spell a number. */
  lemma {:induction false} SpellsOnce(s: seq<nat>, v: nat, x: nat, r: nat)
    requires Width(r) && x < Pow2(r) && Base(x, r) >= 2 && Spells(s, v, x, r)
    ensures s == Raw(v, x, Base(x, r))
    decreases |s|
  {
    hide Usable, Rank, Symbol, Base, Pow2, Shorter, Last;
    var b := Base(x, r);
    BaseIs(x, r);
    var t, sym := s[..|s| - 1], s[|s| - 1];
    var n, d := Number(t, x, r), Rank(sym, x);
    SymbolIs(d, sym, x, r);
    LastDigit(v, n, d, b);
    if |s| > 1 {
      NumberPositive(t, x, r);
      SpellsOnce(t, n, x, r);
    } else if v > 0 {
      assert Numeral(0, x, b) == [];
    }
    assert s == t + [sym];
  }

  lemma {:induction false} LastDigit(v: nat, n: nat, d: nat, b: nat)
    requires b >= 2 && d < b && v == n * b + d
    ensures Shorter(v, b) == n && Last(v, b) == d
  {
    DivUnique(v, n, d, b);
  }

  /** The code's digits are the one way to spell a number. */
  lemma {:induction false} RawIs(s: seq<nat>, v: nat, x: nat, r: nat)
    requires Width(r) && x < Pow2(r)
    ensures Base(x, r) >= 2
    ensures Spells(s, v, x, r) <==> s == Raw(v, x, Base(x, r))
  {
    BaseBound(x, r);
    hide Usable, Rank, Symbol, Base, Pow2;
    if v > 0 {
      NumeralSpells(v, x, r);
    } else {
      SymbolIs(0, Symbol(0, x), x, r);
      NumberAppend([], Symbol(0, x), x, r);
      assert [] + [Symbol(0, x)] == [Symbol(0, x)];
    }
    if Spells(s, v, x, r) {
      SpellsOnce(s, v, x, r);
    }
  }

  // ---------------------------------------------------------------- entries

  /** What the encoder writes is the encoding, and nothing else is. */
  lemma {:induction false} EncodingIs(e: seq<nat>, C: nat, x: nat, r: nat)
    requires Width(r) && x < Pow2(r) && C > 2
    ensures IsEncoding(e, C, x, r) <==> e == Encoding(C, x, r)
  {
    BaseBound(x, r);
    hide Spells, Base, Pow2, Numeral, Symbol;
    var v := C - 3;
    var raw := Raw(v, x, Base(x, r));
    forall s: seq<nat> ensures Spells(s, v, x, r) <==> s == raw {
      RawIs(s, v, x, r);
    }
  }

  lemma {:induction false} EntryIs(e: seq<nat>, C: nat, x: nat, r: nat)
    requires Width(r) && x < Pow2(r)
    ensures IsEntry(e, C, x, r) <==> e == Entry(C, x, r)
  {
    hide IsEncoding, Encoding, Pow2;
    if C > 2 {
      forall s: seq<nat> ensures IsEncoding(s, C, x, r) <==> s == Encoding(C, x, r) {
        EncodingIs(s, C, x, r);
      }
    }
  }

  // ---------------------------------------------------------------- lengths

  ghost function Power(b: nat, n: nat): (p: nat) {
    if n == 0 then 1 else b * Power(b, n - 1)
  }

  /** n symbols spell the numbers below the n-th power of the base, and those below the (n-1)-th take fewer. */
  lemma {:induction false} LengthByPowers(s: seq<nat>, v: nat, x: nat, r: nat)
    requires Width(r) && x < Pow2(r) && Spells(s, v, x, r)
    ensures
      var b := if x == 0 then Pow2(r) - 1 else Pow2(r) - 2;
      b >= 2 && v < Power(b, |s|) && (|s| > 1 ==> Power(b, |s| - 1) <= v)
    decreases |s|
  {
    hide Usable, Rank, Symbol, Pow2;
    BaseBound(x, r);
    BaseIs(x, r);
    var b := Base(x, r);
    var t, sym := s[..|s| - 1], s[|s| - 1];
    var n, d := Number(t, x, r), Rank(sym, x);
    SymbolIs(d, sym, x, r);
    if |s| > 1 {
      NumberPositive(t, x, r);
      LengthByPowers(t, n, x, r);
      Grows(n, d, b, Power(b, |t|), if |t| > 1 then Power(b, |t| - 1) else 1);
    } else {
      assert Power(b, 1) == b * Power(b, 0) && Power(b, 0) == 1;
    }
  }

  lemma {:induction false} Grows(n: nat, d: nat, b: nat, hi: nat, lo: nat)
    requires d < b && lo <= n < hi
    ensures b * lo <= n * b + d < b * hi
  {
    Multiples(b, lo, n);
    Multiples(b, n + 1, hi);
  }

  /** Counts up to the base and 2 take one symbol: the (C-2)-th usable value. */
  lemma {:induction false} OneSymbol(C: nat, x: nat, r: nat)
    requires Width(r) && x < Pow2(r) && 3 <= C < (if x == 0 then Pow2(r) + 2 else Pow2(r) + 1)
    ensures
      exists sym: nat ::
        && sym in Usable(x, r) && Rank(sym, x) == C - 3
        && Encoding(C, x, r) == if x > 0 && sym >= x then [0, sym] else [sym]
  {
    hide Pow2;
    var sym := Symbol(C - 3, x);
    SymbolIs(C - 3, sym, x, r);
    assert Number([sym], x, r) == Rank(sym, x) by {
      NumberAppend([], sym, x, r);
      assert [] + [sym] == [sym];
    }
    assert Spells([sym], C - 3, x, r);
    RawIs([sym], C - 3, x, r);
    assert [0] + [sym] == [0, sym];
  }
}
