/** The acceleration structures of the quotient filter: block prefix sums and clamped block
    offsets, defined from scratch, and how little of them an insertion changes. */
module RsqfMetadata {
  import opened BitCount
  import opened RsqfLayout

  const BLOCK := 64

  /** Number of set bits before each block boundary. */
  ghost function Prefix(bv: seq<bool>, nb: nat): (ps: seq<nat>)
    requires |bv| == BLOCK * nb
    ensures |ps| == nb + 1
    ensures forall b :: 0 <= b <= nb ==> ps[b] == Count(bv, BLOCK * b)
  {
    seq(nb + 1, b requires 0 <= b <= nb => Count(bv, BLOCK * b))
  }

  /** select_run: rank 0 gives slot 0 and a rank beyond the last run gives the last slot. */
  ghost function SelectRunSpec(run: seq<bool>, k: nat): (p: int)
  {
    if k == 0 then 0
    else if k > Count(run, |run|) then |run| - 1
    else Select(run, k)
  }

  /** The distance from the start of block b to the end of its first run, clamped to 255. */
  ghost function OffsetOf(occ: seq<bool>, run: seq<bool>, b: nat): (o: nat)
    requires |occ| == |run| && BLOCK * b + BLOCK <= |occ|
  {
    if Count(occ, BLOCK * b + BLOCK) > Count(occ, BLOCK * b) then
      var e := SelectRunSpec(run, Count(occ, BLOCK * b) + 1);
      if e - BLOCK * b > 254 then 255 else if e > BLOCK * b then e - BLOCK * b else 0
    else 0
  }

  ghost function Offsets(occ: seq<bool>, run: seq<bool>, nb: nat): (os: seq<nat>)
    requires |occ| == |run| == BLOCK * nb
    ensures |os| == nb
    ensures forall b :: 0 <= b < nb ==> os[b] == OffsetOf(occ, run, b)
  {
    seq(nb, b requires 0 <= b < nb => OffsetOf(occ, run, b))
  }

  /** Prefix sums up to the block of the quotient survive an insertion. */
  lemma {:induction false} PrefixKept<T>(l: Layout<T>, l': Layout<T>, zero: T, q: nat, s: nat, n: nat, b: nat)
    requires Opens(l, l', zero, q, s, n) && BLOCK * b <= q
    ensures Count(l'.occ, BLOCK * b) == Count(l.occ, BLOCK * b)
    ensures Count(l'.run, BLOCK * b) == Count(l.run, BLOCK * b)
  {
    assert CountsAfter(l, l', q, s, n, BLOCK * b);
  }

  /** The k-th runend survives an insertion when k counts only quotients before q. */
  lemma {:induction false} EarlyRunendKept<T>(l: Layout<T>, l': Layout<T>, zero: T, q: nat, s: nat, n: nat, k: nat)
    requires Opens(l, l', zero, q, s, n) && 1 <= k <= Count(l.occ, q)
    requires forall p :: 0 <= p < s && (p < s - 1 || !l.occ[q]) ==> l'.run[p] == l.run[p]
    ensures k <= Count(l.run, |l.run|) && k <= Count(l'.run, |l'.run|)
    ensures Select(l'.run, k) == Select(l.run, k)
  {
    hide UsedByCount, Ordered, SelectIn, Select;
    CountMonotone(l.occ, q, |l.occ|);
    var e := Select(l.run, k);
    SelectSide(l.run, k, s);
    if l.occ[q] {
      SelectSide(l.run, k, s - 1);
    }
    assert CountsAfter(l, l', q, s, n, e);
    SelectUnique(l'.run, e);
  }

  /** Refreshing from the block of the quotient on is as good as recomputing everything: the
      offsets of earlier blocks do not change, although their runs may end in later blocks. */
  lemma {:induction false} OffsetKept<T>(l: Layout<T>, l': Layout<T>, zero: T, q: nat, s: nat, n: nat, b: nat)
    requires Opens(l, l', zero, q, s, n) && BLOCK * b + BLOCK <= q
    requires forall p :: 0 <= p < s && (p < s - 1 || !l.occ[q]) ==> l'.run[p] == l.run[p]
    ensures OffsetOf(l'.occ, l'.run, b) == OffsetOf(l.occ, l.run, b)
  {
    hide Count, CountsAfter, Select, OffsetOf, Canonical;
    CanonicalMatched(l, zero);
    CanonicalMatched(l', zero);
    PrefixKept(l, l', zero, q, s, n, b);
    PrefixKept(l, l', zero, q, s, n, b + 1);
    if Count(l.occ, BLOCK * b + BLOCK) > Count(l.occ, BLOCK * b) {
      CountMonotone(l.occ, BLOCK * b + BLOCK, q);
      EarlyRunendKept(l, l', zero, q, s, n, Count(l.occ, BLOCK * b) + 1);
    }
    SameOffset(l.occ, l.run, l'.occ, l'.run, b);
  }

  /** An offset depends on two prefix counts and one runend. */
  lemma {:induction false} SameOffset(occ: seq<bool>, run: seq<bool>, occ': seq<bool>, run': seq<bool>, b: nat)
    requires |occ| == |run| == |occ'| == |run'| && BLOCK * b + BLOCK <= |occ|
    requires Count(occ', BLOCK * b) == Count(occ, BLOCK * b)
    requires Count(occ', BLOCK * b + BLOCK) == Count(occ, BLOCK * b + BLOCK)
    requires
      var k := Count(occ, BLOCK * b);
      Count(occ, BLOCK * b + BLOCK) > k ==> SelectRunSpec(run', k + 1) == SelectRunSpec(run, k + 1)
    ensures OffsetOf(occ', run', b) == OffsetOf(occ, run, b)
  {
    hide Count, SelectRunSpec;
  }

  /** The same, for the insertion of the filter. */
  lemma {:induction false} RefreshIsLocal<T>(l: Layout<T>, zero: T, q: nat, x: T, nb: nat)
    requires Canonical(l, zero) && q < |l.occ| == BLOCK * nb && HasRoom(l, q)
    ensures
      var l' := Inserted(l, zero, q, x);
      && (forall b :: 0 <= b <= q / BLOCK ==> Prefix(l'.occ, nb)[b] == Prefix(l.occ, nb)[b])
      && (forall b :: 0 <= b <= q / BLOCK ==> Prefix(l'.run, nb)[b] == Prefix(l.run, nb)[b])
      && (forall b :: 0 <= b < q / BLOCK ==> Offsets(l'.occ, l'.run, nb)[b] == Offsets(l.occ, l.run, nb)[b])
  {
    var l' := Inserted(l, zero, q, x);
    var s, n := InsertPos(l, zero, q), FirstFree(l.phys, q);
    InsertedOpens(l, zero, q, x);
    forall b | 0 <= b <= q / BLOCK
      ensures Prefix(l'.occ, nb)[b] == Prefix(l.occ, nb)[b] && Prefix(l'.run, nb)[b] == Prefix(l.run, nb)[b]
    {
      PrefixKept(l, l', zero, q, s, n, b);
    }
    forall b | 0 <= b < q / BLOCK
      ensures Offsets(l'.occ, l'.run, nb)[b] == Offsets(l.occ, l.run, nb)[b]
    {
      OffsetKept(l, l', zero, q, s, n, b);
    }
  }

  /** Everything the code needs after an insertion: what stays true of the metadata of the
      blocks that are not refreshed, and the invariants of the new layout. */
  lemma {:induction false} InsertedFacts<T>(l: Layout<T>, zero: T, q: nat, x: T, nb: nat)
    requires Canonical(l, zero) && q < |l.occ| == BLOCK * nb && HasRoom(l, q)
    ensures
      var l' := Inserted(l, zero, q, x);
      && Canonical(l', zero) && q <= InsertPos(l, zero, q)
      && Count(l'.phys, |l.phys|) == Count(l.phys, |l.phys|) + 1
      && (forall b :: 0 <= b <= q / BLOCK ==>
            Prefix(l.occ, nb)[b] == Count(l'.occ, BLOCK * b) && Prefix(l.run, nb)[b] == Count(l'.run, BLOCK * b))
      && (forall b :: 0 <= b < q / BLOCK ==> Offsets(l.occ, l.run, nb)[b] == OffsetOf(l'.occ, l'.run, b))
  {
    InsertKeepsCanonical(l, zero, q, x);
    InsertPosInCluster(l, zero, q);
    InsertedOne(l, zero, q, x);
    RefreshIsLocal(l, zero, q, x, nb);
  }

  /** In a canonical layout the offset of a block with a quotient leads to the end of the
      run of its first quotient, unless it is the clamp. */
  lemma {:induction false} OffsetLeadsToRunend<T>(l: Layout<T>, zero: T, b: nat)
    requires Canonical(l, zero) && BLOCK * b + BLOCK <= |l.occ|
    requires Count(l.occ, BLOCK * b + BLOCK) > Count(l.occ, BLOCK * b)
    ensures Count(l.occ, BLOCK * b) + 1 <= Count(l.run, |l.run|)
    ensures OffsetOf(l.occ, l.run, b) <= 255
    ensures OffsetOf(l.occ, l.run, b) != 255 ==>
            BLOCK * b + OffsetOf(l.occ, l.run, b) == Select(l.run, Count(l.occ, BLOCK * b) + 1)
  {
    var k := Count(l.occ, BLOCK * b) + 1;
    CountMonotone(l.occ, BLOCK * b + BLOCK, |l.occ|);
    var e := Select(l.run, k);
    assert Ordered(l, BLOCK * b);
    SelectSide(l.run, k, BLOCK * b);
  }

  /** The same from the point of view of an occupied quotient of the block. */
  lemma {:induction false} OffsetOfQuotient<T>(l: Layout<T>, zero: T, q: nat, b: nat)
    requires Canonical(l, zero) && q < |l.occ| && l.occ[q]
    requires BLOCK * b <= q < BLOCK * b + BLOCK <= |l.occ|
    ensures
      var e := BLOCK * b + OffsetOf(l.occ, l.run, b);
      OffsetOf(l.occ, l.run, b) != 255 ==>
        && e < |l.run| && l.run[e]
        && Count(l.run, e) == Count(l.occ, BLOCK * b) <= Count(l.occ, q)
  {
    CountMonotone(l.occ, BLOCK * b, q);
    CountAfterSet(l.occ, q, BLOCK * b + BLOCK);
    OffsetLeadsToRunend(l, zero, b);
  }
}
