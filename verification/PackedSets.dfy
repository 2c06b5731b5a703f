/** Fingerprint tables packed into 64-byte sets, eight words each.

    Every set holds 512 / f entries of f bits; no entry crosses into the next set.  An entry of
    value 0 is an empty slot. */
module PackedSets {
  import opened BitPacking
  import opened BitXor
  import opened WordNumber

  const SET_WORDS: nat := 8

  type PackedSet = s: seq<Word> | |s| == SET_WORDS witness seq(SET_WORDS, i => Zero())

  function SetGet(set_: PackedSet, off: nat, f: nat): (v: Word)
    requires InTable(set_, off, f)
  {
    var bp := off * f;
    var wi, bo := bp / 64, bp % 64;
    var v := Shr(set_[wi], bo);
    var v' := if wi + 1 < SET_WORDS && bo + f > 64 then Or(v, Shl(set_[wi + 1], 64 - bo)) else v;
    And(v', Mask(f))
  }

  function SetSet(set_: PackedSet, off: nat, f: nat, v: Word): (s: PackedSet)
    requires InTable(set_, off, f)
  {
    var bp := off * f;
    var wi, bo := bp / 64, bp % 64;
    var s1 := set_[wi := Or(And(set_[wi], Not(Shl(Mask(f), bo))), Shl(v, bo))];
    if wi + 1 < SET_WORDS && bo + f > 64 then
      s1[wi + 1 := Or(And(s1[wi + 1], Not(Shr(Mask(f), 64 - bo))), Shr(v, 64 - bo))]
    else s1
  }

  /** Inside a set, the guard on the last word never suppresses a needed second word, and an
      entry that fits its width needs no masking: the accesses are those of a packed table. */
  lemma {:induction false} SetAccess(set_: PackedSet, off: nat, f: nat, v: Word)
    requires InTable(set_, off, f) && Fits(v, f)
    ensures SetGet(set_, off, f) == GetAt(set_, off * f, f)
    ensures SetSet(set_, off, f, v) == SetAt(set_, off * f, f, v)
  {
    assert And(v, Mask(f)) == v;
  }

  function PerSet(f: nat): (n: nat)
    requires f > 0
  {
    512 / f
  }

  /** The set that holds an entry, and the entry's place in it. */
  function SetOf(idx: nat, f: nat): (si: nat)
    requires 1 <= f <= 32
  {
    idx / PerSet(f)
  }

  function OffsetOf(idx: nat, f: nat): (off: nat)
    requires 1 <= f <= 32
  {
    idx % PerSet(f)
  }

  /** Entries fill a set of 64 bytes as far as they go, and sets follow one another without a gap. */
  lemma {:induction false} PackedDensely(idx: nat, f: nat)
    requires 1 <= f <= 32
    ensures PerSet(f) * f <= 512 < (PerSet(f) + 1) * f
    ensures idx == SetOf(idx, f) * PerSet(f) + OffsetOf(idx, f) && OffsetOf(idx, f) < PerSet(f)
  {
    EnoughPerSet(f);
    hide PerSet;
    var e := PerSet(f);
    assert idx == e * (idx / e) + idx % e && e * (idx / e) == idx / e * e;
  }

  ghost predicate Packs(sets: seq<PackedSet>, n: nat, f: nat) {
    1 <= f <= 32 && n <= |sets| * PerSet(f)
  }

  /** Every entry of the table lies in one set, and inside it. */
  lemma {:induction false} InSet(sets: seq<PackedSet>, n: nat, f: nat, idx: nat)
    requires Packs(sets, n, f) && idx < n
    ensures SetOf(idx, f) < |sets|
    ensures InTable(sets[SetOf(idx, f)], OffsetOf(idx, f), f)
  {
    var e := PerSet(f);
    EnoughPerSet(f);
    SetIndex(idx, |sets|, e);
    EntriesDisjoint(idx % e, e, f);
  }

  lemma {:induction false} EnoughPerSet(f: nat)
    requires 1 <= f <= 32
    ensures PerSet(f) >= 16 && PerSet(f) * f <= 512
  {
  }

  lemma {:induction false} SetIndex(idx: nat, m: nat, e: nat)
    requires e > 0 && idx < m * e
    ensures idx / e < m
  {
  }

  lemma {:induction false} RoundedUp(n: nat, e: nat)
    requires e > 0
    ensures n <= (n + e - 1) / e * e
  {
  }

  function Entry(sets: seq<PackedSet>, n: nat, f: nat, idx: nat): (v: nat)
    requires Packs(sets, n, f) && idx < n
  {
    InSet(sets, n, f, idx);
    Value(SetGet(sets[SetOf(idx, f)], OffsetOf(idx, f), f))
  }

  function WriteEntry(sets: seq<PackedSet>, n: nat, f: nat, idx: nat, v: nat): (s: seq<PackedSet>)
    requires Packs(sets, n, f) && idx < n
    ensures |s| == |sets|
  {
    InSet(sets, n, f, idx);
    var si := SetOf(idx, f);
    sets[si := SetSet(sets[si], OffsetOf(idx, f), f, Bits(v, 64))]
  }

  lemma {:induction false} BitsFitWord(v: nat, f: nat)
    requires v < Pow2(f) && f <= 64
    ensures Fits(Bits(v, 64), f) && Value(Bits(v, 64)) == v
  {
    forall i | f <= i < 64 ensures !Bits(v, 64)[i] {
      BitsFit(v, f, 64, i);
    }
    Pow2Monotone(f, 64);
    ValueOfBits(v, 64);
  }

  /** Reading after writing: the value written, and every other entry unchanged. */
  lemma {:induction false} ReadAfterWrite(sets: seq<PackedSet>, n: nat, f: nat, i: nat, v: nat, j: nat)
    requires Packs(sets, n, f) && i < n && j < n && v < Pow2(f)
    ensures Entry(WriteEntry(sets, n, f, i, v), n, f, j) == if i == j then v else Entry(sets, n, f, j)
  {
    hide Pow2, Bits, Value, SetGet, SetSet, SetOf, OffsetOf, InTable, Fits, PerSet;
    InSet(sets, n, f, i);
    InSet(sets, n, f, j);
    BitsFitWord(v, f);
    var s := sets[SetOf(i, f)];
    if SetOf(i, f) == SetOf(j, f) {
      SameSet(i, j, f);
      GetAfterSetInSet(s, OffsetOf(i, f), f, Bits(v, 64), OffsetOf(j, f));
    }
  }

  lemma {:induction false} GetAfterSetInSet(s: PackedSet, i: nat, f: nat, w: Word, j: nat)
    requires InTable(s, i, f) && InTable(s, j, f) && Fits(w, f)
    ensures SetGet(SetSet(s, i, f, w), j, f) == if i == j then w else SetGet(s, j, f)
  {
    hide GetAt, SetAt, SetGet, SetSet, Fits;
    SetAccess(s, i, f, w);
    SetAccess(s, j, f, w);
    SetAccess(SetSet(s, i, f, w), j, f, w);
    GetAfterSet(s, i, f, w, j);
  }

  lemma {:induction false} SameSet(i: nat, j: nat, f: nat)
    requires 1 <= f <= 32 && SetOf(i, f) == SetOf(j, f)
    ensures OffsetOf(i, f) == OffsetOf(j, f) <==> i == j
  {
    hide PerSet;
    EnoughPerSet(f);
    var e := PerSet(f);
    assert i == e * (i / e) + i % e && j == e * (j / e) + j % e;
  }

  /** Writing back an entry's former value restores the table bit for bit. */
  lemma {:induction false} WriteUndone(sets: seq<PackedSet>, n: nat, f: nat, i: nat, v: nat)
    requires Packs(sets, n, f) && i < n && v < Pow2(f)
    ensures WriteEntry(WriteEntry(sets, n, f, i, v), n, f, i, Entry(sets, n, f, i)) == sets
  {
    hide Pow2, Bits, Value, SetGet, SetSet, SetOf, OffsetOf, InTable, Fits, PerSet;
    InSet(sets, n, f, i);
    var s, off, w := sets[SetOf(i, f)], OffsetOf(i, f), Bits(v, 64);
    BitsFitWord(v, f);
    BitsOfValue(SetGet(s, off, f));
    SetUndoneInSet(s, off, f, w);
  }

  lemma {:induction false} SetUndoneInSet(s: PackedSet, off: nat, f: nat, w: Word)
    requires InTable(s, off, f) && Fits(w, f)
    ensures SetSet(SetSet(s, off, f, w), off, f, SetGet(s, off, f)) == s
  {
    hide GetAt, SetAt, SetGet, SetSet, Fits;
    EntryBits(s, off, f);
    SetAccess(s, off, f, w);
    SetAccess(SetSet(s, off, f, w), off, f, SetGet(s, off, f));
    SetUndone(s, off * f, f, w);
  }

  lemma {:induction false} EntryBits(s: PackedSet, off: nat, f: nat)
    requires InTable(s, off, f)
    ensures Fits(SetGet(s, off, f), f)
    ensures Value(SetGet(s, off, f)) < Pow2(f)
  {
    ValueFits(SetGet(s, off, f), f);
  }

  // ---------------------------------------------------------------- the table as its entries

  ghost function Entries(sets: seq<PackedSet>, n: nat, f: nat): (t: seq<nat>)
    requires Packs(sets, n, f)
    ensures |t| == n
  {
    seq(n, i requires 0 <= i < n => Entry(sets, n, f, i))
  }

  lemma {:induction false} EntriesAfterWrite(sets: seq<PackedSet>, n: nat, f: nat, i: nat, v: nat)
    requires Packs(sets, n, f) && i < n && v < Pow2(f)
    ensures Entries(WriteEntry(sets, n, f, i, v), n, f) == Entries(sets, n, f)[i := v]
  {
    hide Pow2, Entry, WriteEntry;
    var s := WriteEntry(sets, n, f, i, v);
    forall j | 0 <= j < n
      ensures Entries(s, n, f)[j] == Entries(sets, n, f)[i := v][j]
    {
      ReadAfterWrite(sets, n, f, i, v, j);
    }
  }

  lemma {:induction false} EntryBound(sets: seq<PackedSet>, n: nat, f: nat, i: nat)
    requires Packs(sets, n, f) && i < n
    ensures Entries(sets, n, f)[i] < Pow2(f)
  {
    hide SetOf, OffsetOf;
    InSet(sets, n, f, i);
    EntryBits(sets[SetOf(i, f)], OffsetOf(i, f), f);
  }

  function Cleared(m: nat): (sets: seq<PackedSet>) {
    seq(m, i => seq(SET_WORDS, j => Zero()))
  }

  /** A cleared table holds only empty entries. */
  lemma {:induction false} ClearedIsEmpty(m: nat, n: nat, f: nat, i: nat)
    requires Packs(Cleared(m), n, f) && i < n
    ensures Entries(Cleared(m), n, f)[i] == 0
  {
    hide SetOf, OffsetOf, SetGet;
    InSet(Cleared(m), n, f, i);
    ClearedSet(OffsetOf(i, f), f);
  }

  lemma {:induction false} ClearedSet(off: nat, f: nat)
    requires InTable(seq(SET_WORDS, j => Zero()), off, f)
    ensures Value(SetGet(seq(SET_WORDS, j => Zero()), off, f)) == 0
  {
    hide Value;
    var v := SetGet(seq(SET_WORDS, j => Zero()), off, f);
    forall b | 0 <= b < 64 ensures !v[b] {
      SetAccess(seq(SET_WORDS, j => Zero()), off, f, Zero());
      GetBit(seq(SET_WORDS, j => Zero()), off * f, f, b);
    }
    ValueFits(v, 0);
  }
}
