/** Fixed-width entries packed into 64-bit words.

    A machine word is its 64 bits, least significant first; the C operators used by the
    packed tables are defined on those bits. */
module BitPacking {

  type Word = w: seq<bool> | |w| == 64 witness seq(64, i => false)

  function Zero(): (w: Word) {
    seq(64, i => false)
  }

  /** w >> k */
  function Shr(w: Word, k: nat): (r: Word) {
    seq(64, i requires 0 <= i < 64 => i + k < 64 && w[i + k])
  }

  /** w << k */
  function Shl(w: Word, k: nat): (r: Word) {
    seq(64, i requires 0 <= i < 64 => k <= i && w[i - k])
  }

  function And(a: Word, b: Word): (r: Word) {
    seq(64, i requires 0 <= i < 64 => a[i] && b[i])
  }

  function Or(a: Word, b: Word): (r: Word) {
    seq(64, i requires 0 <= i < 64 => a[i] || b[i])
  }

  function Not(a: Word): (r: Word) {
    seq(64, i requires 0 <= i < 64 => !a[i])
  }

  /** (1 << r) - 1 */
  function Mask(r: nat): (w: Word) {
    seq(64, i => i < r)
  }

  /** The word fits in r bits. */
  predicate Fits(w: Word, r: nat) {
    forall i :: r <= i < 64 ==> !w[i]
  }

  /** The r bits from bit position bp on lie inside the table. */
  predicate BitsInTable(t: seq<Word>, bp: nat, r: nat) {
    1 <= r <= 64 && bp + r <= 64 * |t|
  }

  /** Entry idx of width r lies inside the table. */
  predicate InTable(t: seq<Word>, idx: nat, r: nat) {
    BitsInTable(t, idx * r, r)
  }

  function GetAt(t: seq<Word>, bp: nat, r: nat): (v: Word)
    requires BitsInTable(t, bp, r)
  {
    var wi, bo := bp / 64, bp % 64;
    var v := Shr(t[wi], bo);
    var v' := if bo + r > 64 then Or(v, Shl(t[wi + 1], 64 - bo)) else v;
    And(v', Mask(r))
  }

  function SetAt(t: seq<Word>, bp: nat, r: nat, v: Word): (t': seq<Word>)
    requires BitsInTable(t, bp, r)
    ensures |t'| == |t|
  {
    var wi, bo := bp / 64, bp % 64;
    var x := And(v, Mask(r));
    var t1 := t[wi := Or(And(t[wi], Not(Shl(Mask(r), bo))), Shl(x, bo))];
    if bo + r > 64 then
      t1[wi + 1 := Or(And(t1[wi + 1], Not(Shr(Mask(r), 64 - bo))), Shr(x, 64 - bo))]
    else t1
  }

  function RemGet(t: seq<Word>, idx: nat, r: nat): (v: Word)
    requires InTable(t, idx, r)
  {
    GetAt(t, idx * r, r)
  }

  function RemSet(t: seq<Word>, idx: nat, r: nat, v: Word): (t': seq<Word>)
    requires InTable(t, idx, r)
    ensures |t'| == |t|
  {
    SetAt(t, idx * r, r, v)
  }

  // ---------------------------------------------------------------- the table as one bit string

  function TableBit(t: seq<Word>, j: nat): (b: bool)
    requires j < 64 * |t|
  {
    t[j / 64][j % 64]
  }

  lemma {:induction false} GetBit(t: seq<Word>, bp: nat, r: nat, i: nat)
    requires BitsInTable(t, bp, r) && i < 64
    ensures GetAt(t, bp, r)[i] <==> i < r && TableBit(t, bp + i)
  {
    if i < r {
      WordOfBit(bp, i);
    }
  }

  lemma {:induction false} WordOfBit(bp: nat, i: nat)
    requires i < 64
    ensures
      var wi, bo := bp / 64, bp % 64;
      if bo + i < 64 then (bp + i) / 64 == wi && (bp + i) % 64 == bo + i
      else (bp + i) / 64 == wi + 1 && (bp + i) % 64 == bo + i - 64
  {
  }

  lemma {:induction false} SetBit(t: seq<Word>, bp: nat, r: nat, v: Word, j: nat)
    requires BitsInTable(t, bp, r) && j < 64 * |t|
    ensures TableBit(SetAt(t, bp, r, v), j) == if bp <= j < bp + r then v[j - bp] else TableBit(t, j)
  {
    var wi, bo, b := bp / 64, bp % 64, j % 64;
    var x := And(v, Mask(r));
    if j / 64 == wi {
      assert Or(And(t[wi], Not(Shl(Mask(r), bo))), Shl(x, bo))[b] == if bo <= b < bo + r then v[b - bo] else t[wi][b];
    } else if j / 64 == wi + 1 && bo + r > 64 {
      assert Or(And(t[wi + 1], Not(Shr(Mask(r), 64 - bo))), Shr(x, 64 - bo))[b]
          == if b + 64 - bo < r then v[b + 64 - bo] else t[wi + 1][b];
    }
  }

  /** Distinct entries occupy disjoint bit ranges. */
  lemma {:induction false} EntriesDisjoint(i: nat, j: nat, r: nat)
    requires i < j
    ensures i * r + r <= j * r
  {
    if i + 1 < j {
      EntriesDisjoint(i, j - 1, r);
    }
    assert j * r == (j - 1) * r + r;
  }

  lemma {:induction false} GetAfterSetAt(t: seq<Word>, bp: nat, r: nat, v: Word, bq: nat)
    requires BitsInTable(t, bp, r) && BitsInTable(t, bq, r) && Fits(v, r)
    requires bp == bq || bp + r <= bq || bq + r <= bp
    ensures GetAt(SetAt(t, bp, r, v), bq, r) == if bp == bq then v else GetAt(t, bq, r)
  {
    hide GetAt, SetAt, TableBit;
    var t' := SetAt(t, bp, r, v);
    forall b | 0 <= b < 64
      ensures GetAt(t', bq, r)[b] == if bp == bq then v[b] else GetAt(t, bq, r)[b]
    {
      GetBit(t', bq, r, b);
      GetBit(t, bq, r, b);
      if b < r {
        SetBit(t, bp, r, v, bq + b);
      }
    }
  }

  /** Writing back what an entry held before restores the table bit for bit. */
  lemma {:induction false} SetUndone(t: seq<Word>, bp: nat, r: nat, v: Word)
    requires BitsInTable(t, bp, r)
    ensures SetAt(SetAt(t, bp, r, v), bp, r, GetAt(t, bp, r)) == t
  {
    hide GetAt, SetAt;
    var t1 := SetAt(t, bp, r, v);
    var x := GetAt(t, bp, r);
    var t2 := SetAt(t1, bp, r, x);
    forall i, b | 0 <= i < |t| && 0 <= b < 64
      ensures t2[i][b] == t[i][b]
    {
      var j := 64 * i + b;
      assert j / 64 == i && j % 64 == b;
      SetBit(t1, bp, r, x, j);
      SetBit(t, bp, r, v, j);
      if bp <= j < bp + r {
        GetBit(t, bp, r, j - bp);
      }
    }
    forall i | 0 <= i < |t| ensures t2[i] == t[i] {
      assert forall b :: 0 <= b < 64 ==> t2[i][b] == t[i][b];
    }
  }

  /** Reading after writing: the written entry, and every other entry unchanged. */
  lemma {:induction false} GetAfterSet(t: seq<Word>, i: nat, r: nat, v: Word, j: nat)
    requires InTable(t, i, r) && InTable(t, j, r) && Fits(v, r)
    ensures RemGet(RemSet(t, i, r, v), j, r) == if i == j then v else RemGet(t, j, r)
  {
    if i < j {
      EntriesDisjoint(i, j, r);
    } else if j < i {
      EntriesDisjoint(j, i, r);
    }
    GetAfterSetAt(t, i * r, r, v, j * r);
  }

  ghost predicate HoldsEntries(t: seq<Word>, n: nat, r: nat) {
    forall i {:trigger InTable(t, i, r)} :: 0 <= i < n ==> InTable(t, i, r)
  }

  /** The table as the sequence of its entries. */
  ghost function Unpack(t: seq<Word>, n: nat, r: nat): (es: seq<Word>)
    requires HoldsEntries(t, n, r)
    ensures |es| == n
  {
    seq(n, i requires 0 <= i < n => assert InTable(t, i, r); RemGet(t, i, r))
  }

  /** A table sized by rounding up to whole words holds all its entries. */
  lemma {:induction false} SizedTable(t: seq<Word>, n: nat, r: nat)
    requires 1 <= r <= 64 && |t| == (n * r + 63) / 64
    ensures HoldsEntries(t, n, r)
  {
    forall i | 0 <= i < n ensures InTable(t, i, r) {
      EntriesDisjoint(i, n, r);
    }
  }

  /** Writing one packed entry updates exactly that element of the sequence of entries. */
  lemma {:induction false} UnpackSet(t: seq<Word>, n: nat, r: nat, i: nat, v: Word)
    requires HoldsEntries(t, n, r) && i < n && Fits(v, r)
    ensures InTable(t, i, r)
    ensures HoldsEntries(RemSet(t, i, r, v), n, r)
    ensures Unpack(RemSet(t, i, r, v), n, r) == Unpack(t, n, r)[i := v]
  {
    assert InTable(t, i, r);
    var t' := RemSet(t, i, r, v);
    forall j | 0 <= j < n ensures InTable(t', j, r) {
      assert InTable(t, j, r);
    }
    forall j | 0 <= j < n ensures Unpack(t', n, r)[j] == if i == j then v else Unpack(t, n, r)[j] {
      assert InTable(t, j, r) && InTable(t', j, r);
      GetAfterSet(t, i, r, v, j);
    }
  }
}
