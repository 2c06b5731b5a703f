/** The counting quotient filter's remainder slots: writing and reading counted entries. */
module CqfSlots {
  import opened BitPacking
  import opened BitXor
  import opened WordNumber
  import opened CqfCodec
  import opened CqfSpelling

  function Reversed(s: seq<nat>): (t: seq<nat>) {
    seq(|s|, i requires 0 <= i < |s| => s[|s| - 1 - i])
  }

  /** The encoder: fills the buffer from the low end, reverses it, and makes room for a leading 0.
      The buffer never runs out. */
  method Encode(C: nat, x: nat, r: nat, buf: array<nat>) returns (n: nat)
    requires Width(r) && x < Pow2(r) && C < WORD && buf.Length == ENC_BUF
    modifies buf
    ensures n <= 65 && buf[..n] == Encoding(C, x, r)
    ensures if C <= 2 then n == 0 else IsEncoding(buf[..n], C, x, r)
  {
    if C <= 2 {
      return 0;
    }
    EncodingIs(Encoding(C, x, r), C, x, r);
    n := EncodeAll(C, x, r, buf);
  }

  method EncodeAll(C: nat, x: nat, r: nat, buf: array<nat>) returns (n: nat)
    requires Width(r) && x < Pow2(r) && 2 < C < WORD && buf.Length == ENC_BUF
    modifies buf
    ensures n <= 65 && buf[..n] == Encoding(C, x, r)
  {
    hide Pow2, Base, Symbol, Numeral, Digit, DecodeCount, SymbolsOk;
    BaseBound(x, r);
    EncodingRoundTrip(C, x, r);
    RawRoundTrip(C - 3, x, r, Base(x, r));
    ghost var raw := Raw(C - 3, x, Base(x, r));
    n := FillLowFirst(C - 3, x, r, buf);
    ReverseFirst(buf, n);
    assert buf[..n] == raw by {
      ReversedTwice(raw);
    }
    if x > 0 && n > 0 && buf[0] >= x {
      Prepend(buf, n);
      n := n + 1;
    }
  }

  lemma {:induction false} ReversedTwice(s: seq<nat>)
    ensures Reversed(Reversed(s)) == s
  {
  }

  method FillLowFirst(v: nat, x: nat, r: nat, buf: array<nat>) returns (n: nat)
    requires Width(r) && Base(x, r) >= 2 && buf.Length == ENC_BUF
    requires |Raw(v, x, Base(x, r))| <= 64
    modifies buf
    ensures n <= 64 && buf[..n] == Reversed(Raw(v, x, Base(x, r)))
  {
    hide Pow2, Base, Symbol, Shorter, Last;
    var base := Base(x, r);
    ghost var raw := Raw(v, x, base);
    var val := v;
    n := 0;
    if val == 0 {
      buf[n] := Symbol(0, x);
      n := n + 1;
      assert buf[..n] == Reversed(raw);
      return;
    }
    while val > 0 && n < ENC_BUF
      invariant n + |Numeral(val, x, base)| == |raw| <= 64
      invariant Numeral(val, x, base) + Reversed(buf[..n]) == raw
      decreases val
    {
      var d := Last(val, base);
      ghost var was := buf[..n];
      buf[n] := Symbol(d, x);
      assert buf[..n + 1] == was + [Symbol(d, x)];
      assert Reversed(buf[..n + 1]) == [Symbol(d, x)] + Reversed(was);
      n := n + 1;
      val := Shorter(val, base);
    }
    ReversedTwice(buf[..n]);
  }

  method ReverseFirst(buf: array<nat>, n: nat)
    requires n <= buf.Length
    modifies buf
    ensures buf[..n] == Reversed(old(buf[..n]))
  {
    var i := 0;
    while i < n / 2
      invariant 0 <= i <= n / 2
      invariant forall k :: 0 <= k < i ==> buf[k] == old(buf[n - 1 - k]) && buf[n - 1 - k] == old(buf[k])
      invariant forall k :: i <= k < n - i ==> buf[k] == old(buf[k])
    {
      buf[i], buf[n - 1 - i] := buf[n - 1 - i], buf[i];
      i := i + 1;
    }
    forall k | 0 <= k < n
      ensures buf[k] == old(buf[..n])[n - 1 - k]
    {
      assert old(buf[..n])[n - 1 - k] == old(buf[n - 1 - k]);
    }
  }

  /** Shifts the first n entries up by one and puts 0 in front. */
  method Prepend(buf: array<nat>, n: nat)
    requires n < buf.Length
    modifies buf
    ensures buf[..n + 1] == [0] + old(buf[..n])
  {
    var i := n;
    while i > 0
      invariant 0 <= i <= n
      invariant forall k :: i < k <= n ==> buf[k] == old(buf[k - 1])
      invariant forall k :: 0 <= k <= i && k < n ==> buf[k] == old(buf[k])
    {
      buf[i] := buf[i - 1];
      i := i - 1;
    }
    buf[0] := 0;
  }

  /** The number of slots of an entry. */
  method EncSlots(C: nat, x: nat, r: nat) returns (n: nat)
    requires Width(r) && x < Pow2(r) && C < WORD
    ensures forall e: seq<nat> :: IsEntry(e, C, x, r) ==> n == |e|
    ensures n == |Entry(C, x, r)|
  {
    hide IsEntry;
    forall e: seq<nat> | IsEntry(e, C, x, r) ensures e == Entry(C, x, r) {
      EntryIs(e, C, x, r);
    }
    if C <= 1 {
      return 1;
    }
    if C == 2 {
      return 2;
    }
    var buf := new nat[ENC_BUF];
    n := Encode(C, x, r, buf);
    return if x == 0 then 4 + n else 2 + n;
  }

  method DecodeSymbols(s: seq<nat>, x: nat, r: nat) returns (C: nat)
    requires Width(r) && forall i :: 0 <= i < |s| ==> s[i] < WORD
    ensures C == DecodeCount(s, x, r)
  {
    if |s| == 0 {
      return 3;
    }
    BaseBound(x, r);
    hide Digit, Base;
    var base := Base(x, r);
    var val, i := 0, 0;
    while i < |s|
      invariant 0 <= i <= |s| && val == Fold(s, i, x, base)
    {
      val := (val * base + Digit(s[i], x)) % WORD;
      i := i + 1;
    }
    return (val + 3) % WORD;
  }

  // ---------------------------------------------------------------- the slots

  ghost function Numbers(t: seq<Word>, n: nat, r: nat): (v: seq<nat>)
    requires HoldsEntries(t, n, r)
    ensures |v| == n
  {
    seq(n, i requires 0 <= i < n => Value(Unpack(t, n, r)[i]))
  }

  lemma {:induction false} NumbersSet(t: seq<Word>, n: nat, r: nat, i: nat, v: nat)
    requires HoldsEntries(t, n, r) && i < n && Width(r) && v < Pow2(r)
    ensures InTable(t, i, r)
    ensures HoldsEntries(RemSet(t, i, r, Bits(v, 64)), n, r)
    ensures Numbers(RemSet(t, i, r, Bits(v, 64)), n, r) == Numbers(t, n, r)[i := v]
  {
    hide Pow2, Bits, Value, RemSet, Unpack, InTable, HoldsEntries;
    forall b | r <= b < 64 ensures !Bits(v, 64)[b] {
      BitsFit(v, r, 64, b);
    }
    Pow2Monotone(r, 64);
    ValueOfBits(v, 64);
    UnpackSet(t, n, r, i, Bits(v, 64));
  }

  lemma {:induction false} NumbersBound(t: seq<Word>, n: nat, r: nat)
    requires HoldsEntries(t, n, r) && Width(r)
    ensures forall i :: 0 <= i < n ==> Numbers(t, n, r)[i] < Pow2(r) < WORD
  {
    hide Pow2, Value;
    PowerFits(r);
    forall i | 0 <= i < n ensures Numbers(t, n, r)[i] < Pow2(r) {
      assert InTable(t, i, r);
      ValueFits(RemGet(t, i, r), r);
    }
  }

  ghost function Overwrite(s: seq<nat>, pos: nat, e: seq<nat>): (t: seq<nat>)
    requires pos + |e| <= |s|
    ensures |t| == |s|
  {
    s[..pos] + e + s[pos + |e|..]
  }

  lemma {:induction false} OverwriteNext(s: seq<nat>, pos: nat, e: seq<nat>, v: nat)
    requires pos + |e| < |s|
    ensures Overwrite(s, pos, e)[pos + |e| := v] == Overwrite(s, pos, e + [v])
  {
  }

  lemma {:induction false} OverwriteStands(s: seq<nat>, pos: nat, e: seq<nat>)
    requires pos + |e| <= |s|
    ensures Stands(Overwrite(s, pos, e), pos, e)
    ensures forall i :: 0 <= i < |s| && !(pos <= i < pos + |e|) ==> Overwrite(s, pos, e)[i] == s[i]
  {
  }

  class Slots {
    const r: nat
    const size: nat
    var rem: seq<Word>
    var inUse: seq<bool>

    ghost predicate Valid()
      reads this
    {
      Width(r) && HoldsEntries(rem, size, r) && |inUse| == size
    }

    /** The remainders as numbers. */
    ghost function Values(): (v: seq<nat>)
      requires Valid()
      reads this
      ensures |v| == size && SlotValues(v)
    {
      NumbersBound(rem, size, r);
      Numbers(rem, size, r)
    }

    constructor (r: nat, size: nat)
      requires Width(r)
      ensures Valid() && this.r == r && this.size == size && inUse == seq(size, i => false)
    {
      this.r, this.size := r, size;
      rem := seq((size * r + 63) / 64, i => Zero());
      inUse := seq(size, i => false);
      new;
      SizedTable(rem, size, r);
    }

    method Get(i: nat) returns (v: nat)
      requires Valid() && i < size
      ensures v == Values()[i] && v < Pow2(r)
    {
      hide Pow2, Value, Bits;
      assert InTable(rem, i, r);
      NumbersBound(rem, size, r);
      v := Value(RemGet(rem, i, r));
    }

    method Put(i: nat, v: nat)
      requires Valid() && i < size && v < Pow2(r)
      modifies this`rem
      ensures Valid() && Values() == old(Values())[i := v]
    {
      hide Pow2, Value, Bits, RemSet;
      NumbersSet(rem, size, r, i, v);
      rem := RemSet(rem, i, r, Bits(v, 64));
    }

    /** Writes all symbols of s from slot pos on. */
    method PutAll(pos: nat, s: seq<nat>, ghost before: seq<nat>, ghost start: nat, ghost done: seq<nat>)
      requires Valid() && pos + |s| <= size && forall i :: 0 <= i < |s| ==> s[i] < Pow2(r)
      requires |before| == size && start + |done| == pos && Values() == Overwrite(before, start, done)
      modifies this`rem
      ensures Valid() && Values() == Overwrite(before, start, done + s)
    {
      hide Pow2, HoldsEntries, Overwrite;
      var i := 0;
      assert done + s[..0] == done;
      while i < |s|
        invariant 0 <= i <= |s| && Valid() && inUse == old(inUse)
        invariant Values() == Overwrite(before, start, done + s[..i])
      {
        OverwriteNext(before, start, done + s[..i], s[i]);
        assert done + s[..i] + [s[i]] == done + s[..i + 1];
        Put(pos + i, s[i]);
        i := i + 1;
      }
      assert s[..|s|] == s;
    }

    /** Writes the entry for count C of remainder x at slot pos, and nothing else. */
    method WriteEntry(pos: nat, x: nat, C: nat) returns (n: nat)
      requires Valid() && x < Pow2(r) && 1 <= C < WORD && pos + |Entry(C, x, r)| <= size
      modifies this`rem
      ensures Valid() && n == |Entry(C, x, r)| && Values() == Overwrite(old(Values()), pos, Entry(C, x, r))
      ensures forall e: seq<nat> :: IsEntry(e, C, x, r) ==>
        n == |e| && pos + |e| <= |old(Values())| && Values() == Overwrite(old(Values()), pos, e)
    {
      hide Pow2, Encoding, HoldsEntries, Overwrite, IsEntry;
      forall e: seq<nat> | IsEntry(e, C, x, r) ensures e == Entry(C, x, r) {
        EntryIs(e, C, x, r);
      }
      if C <= 2 {
        var copies := if C == 1 then [x] else [x, x];
        OverwriteNothing(Values(), pos);
        assert [] + copies == Entry(C, x, r);
        PutAll(pos, copies, Values(), pos, []);
        return C;
      }
      var buf := new nat[ENC_BUF];
      var k := Encode(C, x, r, buf);
      EncodingFits(C, x, r);
      if x == 0 {
        WriteParts(pos, [0, 0], buf[..k], [0, 0]);
        return 4 + k;
      }
      WriteParts(pos, [x], buf[..k], [x]);
      return 2 + k;
    }

    method WriteParts(pos: nat, head: seq<nat>, enc: seq<nat>, tail: seq<nat>)
      requires Valid() && pos + |head| + |enc| + |tail| <= size
      requires forall i :: 0 <= i < |head| ==> head[i] < Pow2(r)
      requires forall i :: 0 <= i < |enc| ==> enc[i] < Pow2(r)
      requires forall i :: 0 <= i < |tail| ==> tail[i] < Pow2(r)
      modifies this`rem
      ensures Valid() && Values() == Overwrite(old(Values()), pos, head + enc + tail)
    {
      hide Pow2, HoldsEntries, Overwrite;
      ghost var was := Values();
      OverwriteNothing(was, pos);
      assert [] + head == head;
      PutAll(pos, head, was, pos, []);
      PutAll(pos + |head|, enc, was, pos, head);
      PutAll(pos + |head| + |enc|, tail, was, pos, head + enc);
    }

    /** Writes an entry and reads it back from a run that ends with it. */
    method WriteAndRead(pos: nat, x: nat, C: nat) returns (rem_: nat, count: nat, next: nat)
      requires Valid() && x < Pow2(r) && 1 <= C < WORD && pos + |Entry(C, x, r)| <= size && pos < size && inUse[pos]
      modifies this`rem
      ensures Valid() && rem_ == x && count == C && next == pos + |Entry(C, x, r)|
    {
      hide Pow2, Entry, HoldsEntries, Overwrite, Decoded;
      ghost var was := Values();
      var n := WriteEntry(pos, x, C);
      OverwriteStands(was, pos, Entry(C, x, r));
      ReadBack(Values(), inUse, pos, C, x, r);
      var ok;
      ok, rem_, count, next := DecodeEntry(pos, pos + n - 1);
    }

    /** Reads the entry at or after pos in a run that ends at slot end. */
    method DecodeEntry(pos: nat, end: nat) returns (ok: bool, rem_: nat, count: nat, next: nat)
      requires Valid() && end < size
      ensures ok <==> Decoded(Values(), inUse, pos, end, r).Read?
      ensures ok ==> Decoded(Values(), inUse, pos, end, r) == Read(rem_, count, next)
    {
      hide Pow2, Encoding, HoldsEntries, EntryAt, DecodeCount;
      ok, rem_, count, next := false, 0, 0, pos;
      if pos > end {
        return;
      }
      while next <= end && !inUse[next]
        invariant pos <= next <= end + 1
        invariant forall k :: pos <= k < next ==> !inUse[k]
      {
        next := next + 1;
      }
      FindAt(inUse, pos, end, true, next);
      if next > end {
        return;
      }
      var x := Get(next);
      var i: nat;
      if x == 0 {
        count, i := DecodeZero(next, end);
      } else {
        count, i := DecodePlain(next, end);
      }
      var expected := EncSlots(count, x, r);
      if i - next != expected {
        return;
      }
      ok, rem_, next := true, x, i;
    }

    method DecodePlain(pos: nat, end: nat) returns (count: nat, i: nat)
      requires Valid() && pos <= end < size && Values()[pos] != 0
      ensures (count, i) == EntryAt(Values(), pos, end, r) && count < WORD
    {
      hide Values, Pow2, HoldsEntries, DecodeCount, Encoding, Find, FindOther, Buffered, ZeroEntry;
      var x := Get(pos);
      var j := FirstEqual(pos + 1, end, x);
      if j > end {
        return 1, pos + 1;
      }
      if j == pos + 1 {
        return 2, j + 1;
      }
      count := CollectCount(pos + 1, j, x);
      i := j + 1;
    }

    method DecodeZero(pos: nat, end: nat) returns (count: nat, i: nat)
      requires Valid() && pos <= end < size && Values()[pos] == 0
      ensures (count, i) == EntryAt(Values(), pos, end, r) && count < WORD
    {
      hide Values, Pow2, HoldsEntries, DecodeCount, Encoding, Find, FindOther, Buffered, PlainEntry;
      i := FirstNonzero(pos + 1, end);
      count := i - pos;
      if count > 2 {
        return 1, pos + 1;
      }
      if count == 2 && i <= end {
        var j := FirstEqual(i, end, 0);
        if j + 1 <= end {
          var after := Get(j + 1);
          if after == 0 {
            count := CollectCount(i, j, 0);
            i := j + 2;
          }
        }
      }
    }

    /** The count that the symbols from slot i up to j stand for. */
    method CollectCount(i: nat, j: nat, x: nat) returns (count: nat)
      requires Valid() && i <= j <= size
      ensures forall k :: 0 <= k < |Buffered(Values()[i..j])| ==> Buffered(Values()[i..j])[k] < WORD
      ensures count == DecodeCount(Buffered(Values()[i..j]), x, r) && count < WORD
    {
      hide Values, Pow2, HoldsEntries, DecodeCount, Buffered;
      var enc := Collect(i, j);
      CountBelow(enc, x, r);
      count := DecodeSymbols(enc, x, r);
    }

    method FirstNonzero(from: nat, end: nat) returns (i: nat)
      requires Valid() && from <= end + 1 && end < size
      ensures i == FindOther(Values(), from, end, 0)
    {
      hide Values, Pow2, HoldsEntries;
      ghost var t := Values();
      i := from;
      while i <= end
        invariant from <= i <= end + 1
        invariant forall k :: from <= k < i ==> t[k] == 0
      {
        var v := Get(i);
        if v != 0 {
          break;
        }
        i := i + 1;
      }
      FindOtherAt(t, from, end, 0, i);
    }

    method FirstEqual(from: nat, end: nat, x: nat) returns (i: nat)
      requires Valid() && from <= end + 1 && end < size
      ensures i == Find(Values(), from, end, x)
    {
      hide Values, Pow2, HoldsEntries;
      ghost var t := Values();
      i := from;
      while i <= end
        invariant from <= i <= end + 1
        invariant forall k :: from <= k < i ==> t[k] != x
      {
        var v := Get(i);
        if v == x {
          break;
        }
        i := i + 1;
      }
      FindAt(t, from, end, x, i);
    }

    /** The symbols from slot i up to j, as far as the buffer holds them. */
    method Collect(i: nat, j: nat) returns (enc: seq<nat>)
      requires Valid() && i <= j <= size
      ensures enc == Buffered(Values()[i..j])
    {
      hide Values, Pow2, HoldsEntries;
      ghost var t := Values();
      var k := i;
      enc := [];
      while k < j
        invariant i <= k <= j && enc == Buffered(t[i..k])
      {
        var v := Get(k);
        if |enc| < ENC_BUF {
          enc := enc + [v];
        }
        assert t[i..k + 1] == t[i..k] + [v];
        k := k + 1;
      }
    }
  }

  lemma {:induction false} OverwriteNothing(s: seq<nat>, pos: nat)
    requires pos <= |s|
    ensures Overwrite(s, pos, []) == s
  {
  }

  lemma {:induction false} EncodingFits(C: nat, x: nat, r: nat)
    requires Width(r) && x < Pow2(r) && 2 < C < WORD
    ensures 0 < Pow2(r) && forall i :: 0 <= i < |Encoding(C, x, r)| ==> Encoding(C, x, r)[i] < Pow2(r)
  {
    hide Encoding, DecodeCount, Pow2;
    EncodingRoundTrip(C, x, r);
    PowerPositive(r);
  }

  lemma {:induction false} CountBelow(s: seq<nat>, x: nat, r: nat)
    requires Width(r) && forall i :: 0 <= i < |s| ==> s[i] < WORD
    ensures DecodeCount(s, x, r) < WORD
  {
  }
}
