/** The slot layout of the rank-and-select quotient filter, as a value.

    `occ[q]` says that quotient q has a run, `run[p]` that a run ends at slot p, `phys[p]`
    that slot p holds data, and `rem[p]` is the remainder kept there.  Everything below is
    stated over prefix counts of `occ` and `run`; `TilesIffCanonical` shows that this is the
    layout drawn in section 3.2 of Pandey et al., SIGMOD 2017. */
module RsqfLayout {
  import opened BitCount

  datatype Layout<T> = Layout(occ: seq<bool>, run: seq<bool>, phys: seq<bool>, rem: seq<T>)

  ghost predicate WellSized<T>(l: Layout<T>) {
    |l.occ| == |l.run| == |l.phys| == |l.rem|
  }

  /** Runs end no earlier than their quotient, runs and quotients are equally many, and a
      slot holds data exactly when more quotients have been opened up to it than runs closed
      before it.  Free slots hold `zero`. */
  ghost predicate Canonical<T>(l: Layout<T>, zero: T) {
    && WellSized(l)
    && (forall p {:trigger Ordered(l, p)} :: 0 <= p <= |l.occ| ==> Ordered(l, p))
    && Count(l.run, |l.run|) == Count(l.occ, |l.occ|)
    && (forall p {:trigger UsedByCount(l, p)} :: 0 <= p < |l.phys| ==> UsedByCount(l, p))
    && (forall p :: 0 <= p < |l.phys| && !l.phys[p] ==> l.rem[p] == zero)
  }

  ghost predicate Ordered<T>(l: Layout<T>, p: nat)
    requires WellSized(l) && p <= |l.occ|
  {
    Count(l.run, p) <= Count(l.occ, p)
  }

  ghost predicate UsedByCount<T>(l: Layout<T>, p: nat)
    requires WellSized(l) && p < |l.occ|
  {
    l.phys[p] <==> Count(l.occ, p + 1) > Count(l.run, p)
  }

  ghost predicate Matched<T>(l: Layout<T>) {
    WellSized(l) && Count(l.run, |l.run|) == Count(l.occ, |l.occ|)
  }

  lemma {:induction false} CanonicalMatched<T>(l: Layout<T>, zero: T)
    requires Canonical(l, zero)
    ensures Matched(l)
  {
  }

  // ---------------------------------------------------------------- runs

  /** The slot where the run of an occupied quotient ends. */
  ghost function RunEnd<T>(l: Layout<T>, q: nat): (e: nat)
    requires Matched(l) && q < |l.occ| && l.occ[q]
    ensures e < |l.run| && l.run[e] && Count(l.run, e) == Count(l.occ, q)
  {
    CountAfterSet(l.occ, q, |l.occ|);
    Select(l.run, Count(l.occ, q) + 1)
  }

  lemma {:induction false} RunEndIs<T>(l: Layout<T>, q: nat, e: nat)
    requires Matched(l) && q < |l.occ| && l.occ[q] && e < |l.run|
    requires l.run[e] && Count(l.run, e) == Count(l.occ, q)
    ensures RunEnd(l, q) == e
  {
    SelectUnique(l.run, e);
  }

  /** One past the end of the run before the run of q; 0 for the first run. */
  ghost function AfterPrevious<T>(l: Layout<T>, q: nat): (s: nat)
    requires Matched(l) && q < |l.occ|
    ensures s <= |l.run| && Count(l.run, s) == Count(l.occ, q)
  {
    CountMonotone(l.occ, q, |l.occ|);
    if Count(l.occ, q) == 0 then 0 else Select(l.run, Count(l.occ, q)) + 1
  }

  lemma {:induction false} AfterPreviousIs<T>(l: Layout<T>, q: nat, s: nat)
    requires Matched(l) && q < |l.occ|
    requires s == if Count(l.occ, q) == 0 then 0 else SelectRunOr0(l.run, Count(l.occ, q)) + 1
    ensures AfterPrevious(l, q) == s
  {
    CountMonotone(l.occ, q, |l.occ|);
  }

  ghost function SelectRunOr0(bv: seq<bool>, k: nat): (p: nat) {
    if 1 <= k <= Count(bv, |bv|) then Select(bv, k) else 0
  }

  ghost function RunStart<T>(l: Layout<T>, q: nat): (s: nat)
    requires Matched(l) && q < |l.occ|
  {
    if AfterPrevious(l, q) <= q then q else AfterPrevious(l, q)
  }

  /** The remainders stored for quotient q, in slot order. */
  ghost function Run<T>(l: Layout<T>, q: nat): (xs: seq<T>)
    requires Matched(l) && |l.rem| == |l.run| && q < |l.occ|
  {
    if l.occ[q] && RunStart(l, q) <= RunEnd(l, q) then l.rem[RunStart(l, q)..RunEnd(l, q) + 1] else []
  }

  /** The layout read run by run: run i occupies exactly [max(q_i, e_{i-1} + 1), e_i]. */
  ghost predicate Tiles<T>(l: Layout<T>, zero: T) {
    && Matched(l)
    && (forall q :: 0 <= q < |l.occ| && l.occ[q] ==> q <= RunEnd(l, q))
    && (forall p :: 0 <= p < |l.phys| ==> (l.phys[p] <==> InSomeRun(l, p)))
    && (forall p :: 0 <= p < |l.phys| && !l.phys[p] ==> l.rem[p] == zero)
  }

  ghost predicate InRun<T>(l: Layout<T>, p: nat, q: nat)
    requires Matched(l) && q < |l.occ|
  {
    l.occ[q] && RunStart(l, q) <= p <= RunEnd(l, q)
  }

  ghost predicate InSomeRun<T>(l: Layout<T>, p: nat)
    requires Matched(l)
  {
    exists q :: 0 <= q < |l.occ| && InRun(l, p, q)
  }

  /** Slot p lies in the run of q exactly when q is the quotient whose rank is one more than
      the number of runs closed before p. */
  lemma {:induction false} InRunByCount<T>(l: Layout<T>, p: nat, q: nat)
    requires Matched(l) && p < |l.run| && q < |l.occ| && l.occ[q]
    ensures InRun(l, p, q) <==> q <= p && Count(l.run, p) == Count(l.occ, q)
  {
    var e := RunEnd(l, q);
    var a := AfterPrevious(l, q);
    if a <= p <= e {
      CountMonotone(l.run, a, p);
      CountMonotone(l.run, p, e);
    } else if p < a {
      CountAfterSet(l.run, a - 1, a);
      CountMonotone(l.run, p, a - 1);
    } else {
      CountAfterSet(l.run, e, p);
    }
  }

  lemma {:induction false} CanonicalRunEnd<T>(l: Layout<T>, zero: T, q: nat)
    requires Canonical(l, zero) && q < |l.occ| && l.occ[q]
    ensures q <= RunEnd(l, q) && RunStart(l, q) <= RunEnd(l, q)
  {
    var e := RunEnd(l, q);
    assert Ordered(l, e + 1);
    if e < q {
      CountMonotone(l.occ, e + 1, q);
    }
    InRunByCount(l, e, q);
  }

  /** The quotient that owns a used slot. */
  lemma {:induction false} OwnerOf<T>(l: Layout<T>, zero: T, p: nat) returns (q: nat)
    requires Canonical(l, zero) && p < |l.phys| && l.phys[p]
    ensures q <= p && l.occ[q] && InRun(l, p, q)
  {
    assert UsedByCount(l, p);
    var c := Count(l.run, p);
    CountMonotone(l.occ, p + 1, |l.occ|);
    q := Select(l.occ, c + 1);
    SelectSide(l.occ, c + 1, p + 1);
    InRunByCount(l, p, q);
  }

  /** The counting form of the layout and the run-by-run form are the same predicate. */
  lemma {:induction false} TilesIffCanonical<T>(l: Layout<T>, zero: T)
    ensures Canonical(l, zero) <==> Tiles(l, zero)
  {
    if Canonical(l, zero) {
      forall q | 0 <= q < |l.occ| && l.occ[q] ensures q <= RunEnd(l, q) {
        CanonicalRunEnd(l, zero, q);
      }
      forall p | 0 <= p < |l.phys| ensures l.phys[p] <==> InSomeRun(l, p) {
        UsedIffInRun(l, zero, p);
      }
    }
    if Tiles(l, zero) {
      forall p | 0 <= p <= |l.occ| ensures Ordered(l, p) {
        TilesOrdered(l, zero, p);
      }
      forall p | 0 <= p < |l.phys| ensures UsedByCount(l, p) {
        TilesUsed(l, zero, p);
      }
    }
  }

  lemma {:induction false} UsedIffInRun<T>(l: Layout<T>, zero: T, p: nat)
    requires Canonical(l, zero) && p < |l.phys|
    ensures l.phys[p] <==> InSomeRun(l, p)
  {
    assert UsedByCount(l, p);
    if l.phys[p] {
      var q := OwnerOf(l, zero, p);
    } else if InSomeRun(l, p) {
      var q :| 0 <= q < |l.occ| && InRun(l, p, q);
      InRunByCount(l, p, q);
      CountAfterSet(l.occ, q, p + 1);
    }
  }

  lemma {:induction false} TilesOrdered<T>(l: Layout<T>, zero: T, p: nat)
    requires Tiles(l, zero) && p <= |l.occ|
    ensures Count(l.run, p) <= Count(l.occ, p)
  {
    hide Count, Select, InSomeRun, RunEnd;
    var c := Count(l.occ, p);
    if c < Count(l.run, p) {
      CountMonotone(l.run, p, |l.run|);
      var q := Select(l.occ, c + 1);
      SelectSide(l.occ, c + 1, p);
      CountMonotone(l.run, p, RunEnd(l, q));
    }
  }

  lemma {:induction false} TilesUsed<T>(l: Layout<T>, zero: T, p: nat)
    requires Tiles(l, zero) && p < |l.phys|
    ensures l.phys[p] <==> Count(l.occ, p + 1) > Count(l.run, p)
  {
    hide Count, Select;
    if l.phys[p] {
      var q :| 0 <= q < |l.occ| && InRun(l, p, q);
      InRunByCount(l, p, q);
      CountAfterSet(l.occ, q, p + 1);
    } else if Count(l.occ, p + 1) > Count(l.run, p) {
      CountMonotone(l.occ, p + 1, |l.occ|);
      var q := Select(l.occ, Count(l.run, p) + 1);
      SelectSide(l.occ, Count(l.run, p) + 1, p + 1);
      InRunByCount(l, p, q);
    }
  }

  // ---------------------------------------------------------------- insertion

  /** The first free slot at or after p, or the number of slots when there is none. */
  ghost function FirstFree(phys: seq<bool>, p: nat): (f: nat)
    requires p <= |phys|
    ensures p <= f <= |phys|
    ensures f < |phys| ==> !phys[f]
    ensures forall i :: p <= i < f ==> phys[i]
    decreases |phys| - p
  {
    if p == |phys| || !phys[p] then p else FirstFree(phys, p + 1)
  }

  lemma {:induction false} FirstFreeUnique(phys: seq<bool>, p: nat, f: nat)
    requires p <= f <= |phys|
    requires f < |phys| ==> !phys[f]
    requires forall i :: p <= i < f ==> phys[i]
    ensures FirstFree(phys, p) == f
  {
  }

  /** Open a gap at i by moving [i, n) one slot to the right, over the slot n. */
  ghost function OpenGap<S>(s: seq<S>, i: nat, n: nat, z: S): (r: seq<S>)
    requires i <= n < |s|
    ensures |r| == |s|
    ensures forall j :: 0 <= j < |s| ==>
      r[j] == if j < i || j > n then s[j] else if j == i then z else s[j - 1]
  {
    s[..i] + [z] + s[i..n] + s[n + 1..]
  }

  /** Where a new remainder for q goes: on slot q itself when that slot and the quotient are
      both unused, otherwise just after the last run that was opened at or before q. */
  ghost function InsertPos<T>(l: Layout<T>, zero: T, q: nat): (s: nat)
    requires Canonical(l, zero) && q < |l.occ|
    ensures s <= |l.run|
    ensures l.occ[q] || l.phys[q] ==>
      s > 0 && l.run[s - 1] && Count(l.run, s) == Count(l.occ, q + 1)
  {
    if !l.occ[q] && !l.phys[q] then q
    else
      assert UsedByCount(l, q);
      CountMonotone(l.occ, q + 1, |l.occ|);
      Select(l.run, Count(l.occ, q + 1)) + 1
  }

  /** Every slot from q up to the insertion point is used, and the insertion point is not
      past the first free slot. */
  lemma {:induction false} InsertPosInCluster<T>(l: Layout<T>, zero: T, q: nat)
    requires Canonical(l, zero) && q < |l.occ|
    ensures q <= InsertPos(l, zero, q) <= FirstFree(l.phys, q)
    ensures l.occ[q] || l.phys[q] ==> q < InsertPos(l, zero, q)
    ensures FirstFree(l.phys, InsertPos(l, zero, q)) == FirstFree(l.phys, q)
  {
    var s, n := InsertPos(l, zero, q), FirstFree(l.phys, q);
    if l.occ[q] || l.phys[q] {
      assert Count(l.run, s) == Count(l.occ, q + 1);
      assert q < s by {
        if s <= q {
          assert Ordered(l, s) && UsedByCount(l, q);
          CountMonotone(l.occ, s, q);
          CountMonotone(l.run, s, q);
        }
      }
      forall i | q <= i < s ensures l.phys[i] {
        assert UsedByCount(l, i);
        CountMonotone(l.run, i, s - 1);
        CountMonotone(l.occ, q + 1, i + 1);
      }
    }
    FirstFreeUnique(l.phys, s, n);
  }

  ghost predicate HasRoom<T>(l: Layout<T>, q: nat)
    requires q <= |l.phys|
  {
    FirstFree(l.phys, q) < |l.phys|
  }

  /** The layout after adding remainder x to quotient q. */
  ghost function Inserted<T>(l: Layout<T>, zero: T, q: nat, x: T): (l': Layout<T>)
    requires Canonical(l, zero) && q < |l.occ| && HasRoom(l, q)
    ensures WellSized(l') && |l'.occ| == |l.occ|
  {
    InsertPosInCluster(l, zero, q);
    var s, n := InsertPos(l, zero, q), FirstFree(l.phys, q);
    var closed := if l.occ[q] then l.run[s - 1 := false] else l.run;
    Layout(l.occ[q := true], OpenGap(closed, s, n, true), l.phys[n := true], OpenGap(l.rem, s, n, x))
  }

  function Bit(b: bool): nat {
    if b then 1 else 0
  }

  lemma {:induction false} UpdateCount(a: seq<bool>, i: nat, b: bool, p: nat)
    requires i < |a| && p <= |a|
    ensures Count(a[i := b], p) == Count(a, p) + if i < p then Bit(b) - Bit(a[i]) else 0
  {
    if p > 0 {
      UpdateCount(a, i, b, p - 1);
    }
  }

  lemma {:induction false} OpenGapCount(a: seq<bool>, s: nat, n: nat, z: bool, p: nat)
    requires s <= n < |a| && p <= |a|
    ensures Count(OpenGap(a, s, n, z), p) ==
      if p <= s then Count(a, p)
      else if p <= n then Count(a, p - 1) + Bit(z)
      else Count(a, p) + Bit(z) - Bit(a[n])
  {
    if p > 0 {
      OpenGapCount(a, s, n, z, p - 1);
    }
  }

  /** The prefix counts after an insertion, in terms of those before it: with `d` 1 when the
      quotient is new and 0 when its run is extended. */
  lemma {:induction false} InsertedCounts<T>(l: Layout<T>, zero: T, q: nat, x: T, p: nat)
    requires Canonical(l, zero) && q < |l.occ| && HasRoom(l, q) && p <= |l.occ|
    ensures
      var l' := Inserted(l, zero, q, x);
      var s, n := InsertPos(l, zero, q), FirstFree(l.phys, q);
      var d := Bit(!l.occ[q]);
      && q <= s <= n
      && Count(l'.occ, p) == Count(l.occ, p) + (if q < p then d else 0)
      && Count(l'.run, p) ==
         (if p < s then Count(l.run, p)
          else if p == s then Count(l.run, p) - 1 + d
          else if p <= n then Count(l.run, p - 1) + d
          else Count(l.run, p) + d)
  {
    InsertPosInCluster(l, zero, q);
    var s, n := InsertPos(l, zero, q), FirstFree(l.phys, q);
    assert !l.run[n] by {
      assert UsedByCount(l, n) && Ordered(l, n + 1);
    }
    hide Count, UsedByCount, Ordered, OpenGap, FirstFree, InsertPos;
    UpdateCount(l.occ, q, true, p);
    RunCounts(l.run, l.occ[q], s, n, p);
  }

  /** The prefix counts of the runends after a run's end has moved to s, or a run has started there. */
  lemma {:induction false} RunCounts(run: seq<bool>, extends_: bool, s: nat, n: nat, p: nat)
    requires s <= n < |run| && p <= |run| && !run[n] && (extends_ ==> s > 0 && run[s - 1])
    ensures
      var closed := if extends_ then run[s - 1 := false] else run;
      var d := Bit(!extends_);
      Count(OpenGap(closed, s, n, true), p) ==
        (if p < s then Count(run, p)
         else if p == s then Count(run, p) - 1 + d
         else if p <= n then Count(run, p - 1) + d
         else Count(run, p) + d)
  {
    hide Count, OpenGap;
    if extends_ {
      OpenGapCount(run[s - 1 := false], s, n, true, p);
      UpdateCount(run, s - 1, false, p);
      if p > 0 {
        UpdateCount(run, s - 1, false, p - 1);
      }
    } else {
      OpenGapCount(run, s, n, true, p);
    }
  }

  lemma {:induction false} InsertedOrdered<T>(l: Layout<T>, zero: T, q: nat, x: T, p: nat)
    requires Canonical(l, zero) && q < |l.occ| && HasRoom(l, q) && p <= |l.occ|
    ensures Ordered(Inserted(l, zero, q, x), p)
  {
    InsertedCounts(l, zero, q, x, p);
    InsertPosInCluster(l, zero, q);
    assert Ordered(l, p);
    if InsertPos(l, zero, q) < p <= FirstFree(l.phys, q) {
      assert UsedByCount(l, p - 1);
    }
  }

  lemma {:induction false} InsertedUsed<T>(l: Layout<T>, zero: T, q: nat, x: T, p: nat)
    requires Canonical(l, zero) && q < |l.occ| && HasRoom(l, q) && p < |l.occ|
    ensures UsedByCount(Inserted(l, zero, q, x), p)
  {
    hide Count, InsertPos, FirstFree;
    InsertedCounts(l, zero, q, x, p);
    InsertedCounts(l, zero, q, x, p + 1);
    InsertPosInCluster(l, zero, q);
    CountStep(l.occ, p);
    CountStep(l.run, p);
    assert UsedByCount(l, p) && Ordered(l, p);
    if InsertPos(l, zero, q) < p <= FirstFree(l.phys, q) {
      assert UsedByCount(l, p - 1);
    }
  }

  lemma {:induction false} InsertedFree<T>(l: Layout<T>, zero: T, q: nat, x: T, p: nat)
    requires Canonical(l, zero) && q < |l.occ| && HasRoom(l, q) && p < |l.occ|
    ensures !Inserted(l, zero, q, x).phys[p] ==> Inserted(l, zero, q, x).rem[p] == zero
  {
    InsertPosInCluster(l, zero, q);
  }

  lemma {:induction false} InsertedOne<T>(l: Layout<T>, zero: T, q: nat, x: T)
    requires Canonical(l, zero) && q < |l.occ| && HasRoom(l, q)
    ensures Count(Inserted(l, zero, q, x).phys, |l.phys|) == Count(l.phys, |l.phys|) + 1
  {
    UpdateCount(l.phys, FirstFree(l.phys, q), true, |l.phys|);
  }

  /** Insertion keeps the canonical layout. */
  lemma {:induction false} InsertKeepsCanonical<T>(l: Layout<T>, zero: T, q: nat, x: T)
    requires Canonical(l, zero) && q < |l.occ| && HasRoom(l, q)
    ensures Canonical(Inserted(l, zero, q, x), zero)
  {
    var l' := Inserted(l, zero, q, x);
    forall p | 0 <= p <= |l'.occ| ensures Ordered(l', p) {
      InsertedOrdered(l, zero, q, x, p);
    }
    forall p | 0 <= p < |l'.phys| ensures UsedByCount(l', p) {
      InsertedUsed(l, zero, q, x, p);
    }
    forall p | 0 <= p < |l'.phys| && !l'.phys[p] ensures l'.rem[p] == zero {
      InsertedFree(l, zero, q, x, p);
    }
    InsertedCounts(l, zero, q, x, |l.occ|);
  }

  // ---------------------------------------------------------------- what insertion does to runs

  /** Where the content of slot p is found after the gap at s has swallowed the free slot n. */
  function Moved(p: nat, s: nat, n: nat): (p': nat) {
    if s <= p < n then p + 1 else p
  }

  ghost predicate Owned<T>(l: Layout<T>, p: nat, q: nat)
    requires WellSized(l) && p < |l.occ| && q < |l.occ|
  {
    q <= p && Count(l.run, p) == Count(l.occ, q)
  }

  /** The prefix counts at p after opening a gap at s for quotient q. */
  ghost predicate CountsAfter<T>(l: Layout<T>, l': Layout<T>, q: nat, s: nat, n: nat, p: nat)
    requires WellSized(l) && WellSized(l') && |l'.occ| == |l.occ| && q < |l.occ| && p <= |l.occ|
  {
    var d := Bit(!l.occ[q]);
    && Count(l'.occ, p) == Count(l.occ, p) + (if q < p then d else 0)
    && Count(l'.run, p) ==
       (if p < s then Count(l.run, p)
        else if p == s then Count(l.run, p) - 1 + d
        else if p <= n then Count(l.run, p - 1) + d
        else Count(l.run, p) + d)
  }

  /** What the proofs about ownership need to know of an insertion. */
  ghost predicate Opens<T>(l: Layout<T>, l': Layout<T>, zero: T, q: nat, s: nat, n: nat) {
    && Canonical(l, zero) && Canonical(l', zero) && |l'.occ| == |l.occ|
    && q <= s <= n < |l.occ| && !l.phys[n] && l'.occ == l.occ[q := true]
    && Count(l.run, s) == Count(l.occ, q + 1)
    && (if q < s then l.run[s - 1] else !l.occ[q] && n == s)
    && (forall p :: q <= p < n ==> l.phys[p])
    && (forall p {:trigger CountsAfter(l, l', q, s, n, p)} :: 0 <= p <= |l.occ| ==> CountsAfter(l, l', q, s, n, p))
  }

  lemma {:induction false} InsertedOpens<T>(l: Layout<T>, zero: T, q: nat, x: T)
    requires Canonical(l, zero) && q < |l.occ| && HasRoom(l, q)
    ensures Opens(l, Inserted(l, zero, q, x), zero, q, InsertPos(l, zero, q), FirstFree(l.phys, q))
  {
    var l' := Inserted(l, zero, q, x);
    var s, n := InsertPos(l, zero, q), FirstFree(l.phys, q);
    InsertKeepsCanonical(l, zero, q, x);
    InsertPosInCluster(l, zero, q);
    if !l.occ[q] && !l.phys[q] {
      assert UsedByCount(l, q) && Ordered(l, q);
    }
    forall p | 0 <= p <= |l.occ| ensures CountsAfter(l, l', q, s, n, p) {
      InsertedCounts(l, zero, q, x, p);
    }
  }

  /** Slots that belong to another quotient keep their owner. */
  lemma {:induction false} OwnerKept<T>(l: Layout<T>, l': Layout<T>, zero: T, q: nat, s: nat, n: nat, p: nat, q': nat)
    requires Opens(l, l', zero, q, s, n)
    requires q' < |l.occ| && l.occ[q'] && q' != q
    requires p < |l.occ| && p != n
    ensures Moved(p, s, n) < |l.occ|
    ensures Owned(l, p, q') <==> Owned(l', Moved(p, s, n), q')
  {
    hide Count;
    assert CountsAfter(l, l', q, s, n, Moved(p, s, n)) && CountsAfter(l, l', q, s, n, q');
    CountStep(l.occ, q);
    if p < s {
      if q < s {
        CountStep(l.run, s - 1);
        CountMonotone(l.run, p, s - 1);
      }
    } else {
      CountMonotone(l.run, s, p);
      if p < n {
        assert l.phys[p] && UsedByCount(l, p);
      }
    }
    if q < q' {
      CountMonotone(l.occ, q + 1, q');
    } else {
      CountAfterSet(l.occ, q', q);
    }
  }

  /** The gap belongs to q, and the slots before it keep belonging to q. */
  lemma {:induction false} GapOwner<T>(l: Layout<T>, l': Layout<T>, zero: T, q: nat, s: nat, n: nat, p: nat)
    requires Opens(l, l', zero, q, s, n) && p < |l.occ|
    ensures Owned(l', p, q) <==> p == s || (p < s && l.occ[q] && Owned(l, p, q))
  {
    assert CountsAfter(l, l', q, s, n, p) && CountsAfter(l, l', q, s, n, q);
    if p < s {
      if q < s {
        CountMonotone(l.run, p, s - 1);
      }
    } else if s < p {
      CountMonotone(l.run, s, p - 1);
    }
  }

  /** The gap belongs to no other quotient. */
  lemma {:induction false} GapNotOwned<T>(l: Layout<T>, l': Layout<T>, zero: T, q: nat, s: nat, n: nat, q': nat)
    requires Opens(l, l', zero, q, s, n) && q' < |l.occ| && l.occ[q'] && q' != q
    ensures !Owned(l', s, q')
  {
    GapOwner(l, l', zero, q, s, n, s);
    if q < q' {
      CountAfterSet(l'.occ, q, q');
    } else {
      CountAfterSet(l'.occ, q', q);
    }
  }

  /** RunStart and RunEnd are the extreme owned slots, hence determined by ownership. */
  lemma {:induction false} RunBounds<T>(l: Layout<T>, zero: T, q: nat, a: nat, b: nat)
    requires Canonical(l, zero) && q < |l.occ| && l.occ[q] && a <= b < |l.occ|
    requires Owned(l, a, q) && Owned(l, b, q)
    requires a > q ==> !Owned(l, a - 1, q)
    requires b + 1 < |l.occ| ==> !Owned(l, b + 1, q)
    ensures RunStart(l, q) == a && RunEnd(l, q) == b
  {
    CanonicalRunEnd(l, zero, q);
    InRunByCount(l, a, q);
    InRunByCount(l, b, q);
    if a > q {
      InRunByCount(l, a - 1, q);
    }
    if b + 1 < |l.occ| {
      InRunByCount(l, b + 1, q);
    }
  }

  /** Conversely, the slots of a run are those its quotient owns. */
  ghost predicate ExactBounds<T>(l: Layout<T>, q: nat, a: nat, b: nat)
    requires WellSized(l) && q < |l.occ|
  {
    && q <= a <= b < |l.occ|
    && Owned(l, a, q) && Owned(l, b, q)
    && (a > q ==> !Owned(l, a - 1, q))
    && (b + 1 < |l.occ| ==> !Owned(l, b + 1, q))
    && (forall p :: a <= p <= b ==> l.phys[p])
  }

  lemma {:induction false} RunBoundsOwned<T>(l: Layout<T>, zero: T, q: nat)
    requires Canonical(l, zero) && q < |l.occ| && l.occ[q]
    ensures ExactBounds(l, q, RunStart(l, q), RunEnd(l, q))
  {
    CanonicalRunEnd(l, zero, q);
    var a, b := RunStart(l, q), RunEnd(l, q);
    InRunByCount(l, a, q);
    InRunByCount(l, b, q);
    if a > q {
      InRunByCount(l, a - 1, q);
    }
    if b + 1 < |l.occ| {
      InRunByCount(l, b + 1, q);
    }
    forall p | a <= p <= b ensures l.phys[p] {
      InRunByCount(l, p, q);
      CountAfterSet(l.occ, q, p + 1);
      assert UsedByCount(l, p);
    }
  }

  /** A run of another quotient lies wholly before the gap, in the moved stretch, or after it. */
  lemma {:induction false} RunNotSplit<T>(l: Layout<T>, l': Layout<T>, zero: T, q: nat, s: nat, n: nat, q': nat,
      a: nat, b: nat)
    requires Opens(l, l', zero, q, s, n)
    requires q' < |l.occ| && l.occ[q'] && q' != q && ExactBounds(l, q', a, b)
    ensures b < s || s <= a <= b < n || n < a
  {
    if a < s <= b && q < s {
      CountMonotone(l.run, a, s - 1);
      CountMonotone(l.run, s, b);
    }
  }

  lemma {:induction false} LeftOfRun<T>(l: Layout<T>, l': Layout<T>, zero: T, q: nat, s: nat, n: nat, q': nat, a: nat,
      b: nat)
    requires Opens(l, l', zero, q, s, n)
    requires q' < |l.occ| && l.occ[q'] && q' != q && ExactBounds(l, q', a, b)
    ensures q' < Moved(a, s, n) < |l.occ| ==> !Owned(l', Moved(a, s, n) - 1, q')
  {
    RunNotSplit(l, l', zero, q, s, n, q', a, b);
    GapNotOwned(l, l', zero, q, s, n, q');
    var a' := Moved(a, s, n);
    if q' < a' && a' - 1 != s {
      OwnerKept(l, l', zero, q, s, n, if s < a' - 1 <= n then a' - 2 else a' - 1, q');
    }
  }

  lemma {:induction false} RightOfRun<T>(l: Layout<T>, l': Layout<T>, zero: T, q: nat, s: nat, n: nat, q': nat,
      a: nat, b: nat)
    requires Opens(l, l', zero, q, s, n)
    requires q' < |l.occ| && l.occ[q'] && q' != q && ExactBounds(l, q', a, b)
    ensures Moved(b, s, n) + 1 < |l.occ| ==> !Owned(l', Moved(b, s, n) + 1, q')
  {
    RunNotSplit(l, l', zero, q, s, n, q', a, b);
    GapNotOwned(l, l', zero, q, s, n, q');
    var b' := Moved(b, s, n);
    if b' + 1 < |l.occ| && b' + 1 != s {
      OwnerKept(l, l', zero, q, s, n, if s < b' + 1 <= n then b' else b' + 1, q');
    }
  }

  lemma {:induction false} OtherRunBounds<T>(l: Layout<T>, l': Layout<T>, zero: T, q: nat, s: nat, n: nat, q': nat,
      a: nat, b: nat)
    requires Opens(l, l', zero, q, s, n)
    requires q' < |l.occ| && l.occ[q'] && q' != q && ExactBounds(l, q', a, b)
    ensures RunStart(l', q') == Moved(a, s, n) && RunEnd(l', q') == Moved(b, s, n)
  {
    hide Count, CountsAfter, Owned, RunStart, RunEnd;
    RunNotSplit(l, l', zero, q, s, n, q', a, b);
    OwnerKept(l, l', zero, q, s, n, a, q');
    OwnerKept(l, l', zero, q, s, n, b, q');
    LeftOfRun(l, l', zero, q, s, n, q', a, b);
    RightOfRun(l, l', zero, q, s, n, q', a, b);
    RunBounds(l', zero, q', Moved(a, s, n), Moved(b, s, n));
  }

  lemma {:induction false} RunEndsBeforeGap<T>(l: Layout<T>, l': Layout<T>, zero: T, q: nat, s: nat, n: nat)
    requires Opens(l, l', zero, q, s, n) && l.occ[q]
    ensures RunEnd(l, q) == s - 1
  {
    RunEndIs(l, q, s - 1);
  }

  lemma {:induction false} OwnRunBounds<T>(l: Layout<T>, l': Layout<T>, zero: T, q: nat, s: nat, n: nat)
    requires Opens(l, l', zero, q, s, n)
    ensures RunEnd(l', q) == s
    ensures RunStart(l', q) == if l.occ[q] then RunStart(l, q) else s
    ensures l.occ[q] ==> RunEnd(l, q) == s - 1 && RunStart(l, q) <= RunEnd(l, q)
  {
    hide Count, CountsAfter, UsedByCount, Ordered, Owned, RunStart, RunEnd;
    GapOwner(l, l', zero, q, s, n, s);
    if s + 1 < |l.occ| {
      GapOwner(l, l', zero, q, s, n, s + 1);
    }
    if l.occ[q] {
      RunBoundsOwned(l, zero, q);
      RunEndsBeforeGap(l, l', zero, q, s, n);
      var a := RunStart(l, q);
      GapOwner(l, l', zero, q, s, n, a);
      if a > q {
        GapOwner(l, l', zero, q, s, n, a - 1);
      }
      RunBounds(l', zero, q, a, s);
    } else {
      if s > q {
        GapOwner(l, l', zero, q, s, n, s - 1);
      }
      RunBounds(l', zero, q, s, s);
    }
  }

  lemma {:induction false} SliceMoved<S>(r: seq<S>, s: nat, n: nat, x: S, a: nat, b: nat)
    requires s <= n < |r| && a <= b < |r|
    requires b < s || s <= a <= b < n || n < a
    ensures Moved(b, s, n) < |r|
    ensures OpenGap(r, s, n, x)[Moved(a, s, n)..Moved(b, s, n) + 1] == r[a..b + 1]
  {
    var d, e := Moved(a, s, n), Moved(b, s, n) + 1;
    var open := OpenGap(r, s, n, x);
    assert e - d == b + 1 - a;
    forall i | 0 <= i < e - d ensures open[d..e][i] == r[a..b + 1][i] {
      assert open[d + i] == r[a + i];
    }
  }

  lemma {:induction false} SliceExtended<S>(r: seq<S>, s: nat, n: nat, x: S, a: nat)
    requires a <= s <= n < |r|
    ensures OpenGap(r, s, n, x)[a..s + 1] == r[a..s] + [x]
  {
  }

  /** Insertion appends x to the run of q and leaves the run of every other quotient alone. */
  lemma {:induction false} InsertedRuns<T>(l: Layout<T>, zero: T, q: nat, x: T, q': nat)
    requires Canonical(l, zero) && q < |l.occ| && HasRoom(l, q) && q' < |l.occ|
    ensures Canonical(Inserted(l, zero, q, x), zero)
    ensures Run(Inserted(l, zero, q, x), q') == if q' == q then Run(l, q) + [x] else Run(l, q')
  {
    InsertedOpens(l, zero, q, x);
    RunsAfter(l, Inserted(l, zero, q, x), zero, q, InsertPos(l, zero, q), FirstFree(l.phys, q), x, q');
  }

  lemma {:induction false} RunsAfter<T>(l: Layout<T>, l': Layout<T>, zero: T, q: nat, s: nat, n: nat, x: T, q': nat)
    requires Opens(l, l', zero, q, s, n) && q' < |l.occ|
    requires l'.rem == OpenGap(l.rem, s, n, x)
    ensures Run(l', q') == if q' == q then Run(l, q) + [x] else Run(l, q')
  {
    if q' == q {
      OwnRunAfter(l, l', zero, q, s, n, x);
    } else if l.occ[q'] {
      OtherRunAfter(l, l', zero, q, s, n, x, q');
    }
  }

  lemma {:induction false} OwnRunAfter<T>(l: Layout<T>, l': Layout<T>, zero: T, q: nat, s: nat, n: nat, x: T)
    requires Opens(l, l', zero, q, s, n)
    requires l'.rem == OpenGap(l.rem, s, n, x)
    ensures Run(l', q) == Run(l, q) + [x]
  {
    OwnRunBounds(l, l', zero, q, s, n);
    var a := if l.occ[q] then RunStart(l, q) else s;
    SliceExtended(l.rem, s, n, x, a);
    assert Run(l', q) == l'.rem[a..s + 1];
  }

  lemma {:induction false} OtherRunAfter<T>(l: Layout<T>, l': Layout<T>, zero: T, q: nat, s: nat, n: nat, x: T, q': nat)
    requires Opens(l, l', zero, q, s, n) && q' < |l.occ| && q' != q && l.occ[q']
    requires l'.rem == OpenGap(l.rem, s, n, x)
    ensures Run(l', q') == Run(l, q')
  {
    hide Count, CountsAfter, Owned, OpenGap;
    var a, b := RunStart(l, q'), RunEnd(l, q');
    RunBoundsOwned(l, zero, q');
    hide RunStart, RunEnd;
    RunNotSplit(l, l', zero, q, s, n, q', a, b);
    OtherRunBounds(l, l', zero, q, s, n, q', a, b);
    SliceMoved(l.rem, s, n, x, a, b);
    assert Run(l', q') == l'.rem[Moved(a, s, n)..Moved(b, s, n) + 1];
  }

  // ---------------------------------------------------------------- facts the filter's code relies on

  lemma {:induction false} FreeSlot<T>(l: Layout<T>, zero: T, n: nat)
    requires Canonical(l, zero) && n < |l.phys| && !l.phys[n]
    ensures !l.occ[n] && !l.run[n] && l.rem[n] == zero
  {
    assert UsedByCount(l, n) && Ordered(l, n) && Ordered(l, n + 1);
  }

  lemma {:induction false} OpensCluster<T>(l: Layout<T>, l': Layout<T>, zero: T, q: nat, s: nat, n: nat)
    requires Opens(l, l', zero, q, s, n)
    ensures q <= s <= n < |l.occ| && (q < s || !l.occ[q])
    ensures forall i :: q <= i < n ==> l.phys[i]
  {
  }

  lemma {:induction false} InsertPosIs<T>(l: Layout<T>, zero: T, q: nat)
    requires Canonical(l, zero) && q < |l.occ| && (l.occ[q] || l.phys[q])
    ensures 1 <= Count(l.occ, q + 1) <= Count(l.run, |l.run|)
    ensures InsertPos(l, zero, q) == Select(l.run, Count(l.occ, q + 1)) + 1
  {
    assert UsedByCount(l, q);
    CountMonotone(l.occ, q + 1, |l.occ|);
  }

  /** When the last slot is used, the last run ends there: no run ever wraps. */
  lemma {:induction false} LastSlotClosesRun<T>(l: Layout<T>, zero: T)
    requires Canonical(l, zero) && 0 < |l.phys| && l.phys[|l.phys| - 1]
    ensures l.run[|l.phys| - 1]
  {
    assert UsedByCount(l, |l.phys| - 1);
  }
}
