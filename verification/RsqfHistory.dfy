/** What a quotient filter answers after any sequence of insertions. */
module RsqfHistory {
  import opened BitCount
  import opened RsqfLayout

  // ---------------------------------------------------------------- lookup

  /** The nearest occupied quotient at or before q: the one whose run a lookup of q scans. */
  ghost function Home<T>(l: Layout<T>, q: nat): (h: nat)
    requires WellSized(l) && q < |l.occ| && Count(l.occ, q + 1) >= 1
    ensures h <= q && l.occ[h] && Count(l.occ, h) + 1 == Count(l.occ, q + 1)
    ensures forall i :: h < i <= q ==> !l.occ[i]
  {
    CountMonotone(l.occ, q + 1, |l.occ|);
    var h := Select(l.occ, Count(l.occ, q + 1));
    SelectSide(l.occ, Count(l.occ, q + 1), q + 1);
    assert forall i :: h < i <= q ==> !l.occ[i] by {
      forall i | h < i <= q ensures !l.occ[i] {
        if l.occ[i] {
          CountAfterSet(l.occ, i, q + 1);
          CountAfterSet(l.occ, h, i);
        }
      }
    }
    h
  }

  /** A slot at or before which no quotient is occupied is neither used nor a runend. */
  lemma {:induction false} HasHome<T>(l: Layout<T>, zero: T, q: nat)
    requires Canonical(l, zero) && q < |l.occ|
    ensures l.occ[q] || l.run[q] || l.phys[q] ==> Count(l.occ, q + 1) >= 1
  {
    assert UsedByCount(l, q) && Ordered(l, q + 1);
    CountMonotone(l.run, 0, q);
  }

  /** The lookup scan, slot by slot: from just after the previous run to the end of the run. */
  ghost predicate Scans<T>(l: Layout<T>, zero: T, q: nat, x: T)
    requires Canonical(l, zero) && q < |l.occ|
  {
    && (l.occ[q] || l.run[q])
    && (HasHome(l, zero, q);
        exists i :: AfterPrevious(l, Home(l, q)) <= i <= RunEnd(l, Home(l, q)) && l.rem[i] == x)
  }

  /** A lookup answers true exactly for the remainders of the scanned run and, because the
      scan starts at the end of the previous run rather than at the quotient, for `zero`
      whenever free slots lie in between.  Quotients with no run of their own are answered
      from the run that ends on their slot. */
  lemma {:induction false} LookupExact<T>(l: Layout<T>, zero: T, q: nat, x: T)
    requires Canonical(l, zero) && q < |l.occ| && (l.occ[q] || l.run[q])
    ensures Count(l.occ, q + 1) >= 1
    ensures Scans(l, zero, q, x) <==>
            x in Run(l, Home(l, q)) || (x == zero && AfterPrevious(l, Home(l, q)) < Home(l, q))
  {
    hide Count, Ordered, UsedByCount, Home, RunEnd, AfterPrevious;
    HasHome(l, zero, q);
    CanonicalMatched(l, zero);
    var h := Home(l, q);
    var a, s, e := AfterPrevious(l, h), RunStart(l, h), RunEnd(l, h);
    CanonicalRunEnd(l, zero, h);
    GapHoldsZero(l, zero, h);
    assert Run(l, h) == l.rem[s..e + 1];
    ScanSplits(l.rem, zero, a, s, e, x);
  }

  /** The slots between the previous run and the start of a run are free. */
  lemma {:induction false} GapHoldsZero<T>(l: Layout<T>, zero: T, h: nat)
    requires Canonical(l, zero) && h < |l.occ| && l.occ[h]
    ensures RunStart(l, h) <= |l.rem|
    ensures forall i :: AfterPrevious(l, h) <= i < RunStart(l, h) ==> l.rem[i] == zero
  {
    CanonicalRunEnd(l, zero, h);
    var a := AfterPrevious(l, h);
    forall i | a <= i < RunStart(l, h) ensures l.rem[i] == zero {
      CountMonotone(l.run, a, i);
      CountMonotone(l.occ, i + 1, h);
      assert UsedByCount(l, i);
    }
  }

  lemma {:induction false} ScanSplits<S>(r: seq<S>, zero: S, a: nat, s: nat, e: nat, x: S)
    requires a <= s <= e < |r|
    requires forall i :: a <= i < s ==> r[i] == zero
    ensures (exists i :: a <= i <= e && r[i] == x) <==> x in r[s..e + 1] || (x == zero && a < s)
  {
    if x in r[s..e + 1] {
      var j :| 0 <= j < e + 1 - s && r[s..e + 1][j] == x;
      assert r[s + j] == x;
    } else if x == zero && a < s {
      assert r[a] == x;
    }
  }

  lemma {:induction false} HomeOfOccupied<T>(l: Layout<T>, q: nat)
    requires WellSized(l) && q < |l.occ| && l.occ[q]
    ensures Count(l.occ, q + 1) >= 1 && Home(l, q) == q
  {
  }

  /** The run a lookup scans is the one an insertion appends to, or after. */
  lemma {:induction false} InsertPosOfFound<T>(l: Layout<T>, zero: T, q: nat, e: nat)
    requires Canonical(l, zero) && q < |l.occ| && (l.occ[q] || l.run[q])
    requires Count(l.occ, q + 1) >= 1 && e == RunEnd(l, Home(l, q))
    ensures e + 1 == InsertPos(l, zero, q)
  {
    assert UsedByCount(l, q) && Ordered(l, q + 1);
    InsertPosIs(l, zero, q);
  }

  // ---------------------------------------------------------------- histories

  ghost function Empty<T>(n: nat, zero: T): (l: Layout<T>)
    ensures WellSized(l) && |l.occ| == n
  {
    Layout(seq(n, i => false), seq(n, i => false), seq(n, i => false), seq(n, i => zero))
  }

  lemma {:induction false} EmptyCanonical<T>(n: nat, zero: T)
    ensures Canonical(Empty(n, zero), zero)
    ensures Count(Empty(n, zero).phys, n) == 0
    ensures forall q :: 0 <= q < n ==> Run(Empty(n, zero), q) == []
  {
    var l := Empty(n, zero);
    forall p | 0 <= p <= n ensures Count(l.run, p) == Count(l.occ, p) == Count(l.phys, p) == 0 {
      CountNone(l.run, 0, p);
      CountNone(l.occ, 0, p);
      CountNone(l.phys, 0, p);
    }
    forall p | 0 <= p <= n ensures Ordered(l, p) {
    }
    forall p | 0 <= p < n ensures UsedByCount(l, p) {
    }
  }

  /** One call of insert: rejected calls change nothing. */
  ghost function Attempt<T>(l: Layout<T>, zero: T, q: nat, x: T): (l': Layout<T>)
    requires Canonical(l, zero) && q < |l.occ|
    ensures Canonical(l', zero) && |l'.occ| == |l.occ|
  {
    if HasRoom(l, q) then
      InsertKeepsCanonical(l, zero, q, x);
      Inserted(l, zero, q, x)
    else l
  }

  /** The filter of n slots after a sequence of insert calls (quotient, remainder). */
  ghost function After<T>(n: nat, zero: T, ops: seq<(nat, T)>): (l: Layout<T>)
    requires forall i :: 0 <= i < |ops| ==> ops[i].0 < n
    ensures Canonical(l, zero) && |l.occ| == n
  {
    if ops == [] then
      EmptyCanonical(n, zero);
      Empty(n, zero)
    else
      var last := ops[|ops| - 1];
      Attempt(After(n, zero, ops[..|ops| - 1]), zero, last.0, last.1)
  }

  /** The remainders of the accepted calls for quotient q, in call order. */
  ghost function Accepted<T>(n: nat, zero: T, ops: seq<(nat, T)>, q: nat): (xs: seq<T>)
    requires forall i :: 0 <= i < |ops| ==> ops[i].0 < n
  {
    if ops == [] then [] else
      var init, last := ops[..|ops| - 1], ops[|ops| - 1];
      Accepted(n, zero, init, q)
      + if last.0 == q && HasRoom(After(n, zero, init), q) then [last.1] else []
  }

  /** After every sequence of insertions, each run is exactly the accepted remainders of its
      quotient in the order they were inserted. */
  lemma {:induction false} RunsAreHistory<T>(n: nat, zero: T, ops: seq<(nat, T)>, q: nat)
    requires forall i :: 0 <= i < |ops| ==> ops[i].0 < n
    requires q < n
    ensures Run(After(n, zero, ops), q) == Accepted(n, zero, ops, q)
  {
    if ops == [] {
      EmptyCanonical(n, zero);
    } else {
      var init, last := ops[..|ops| - 1], ops[|ops| - 1];
      var l := After(n, zero, init);
      RunsAreHistory(n, zero, init, q);
      if HasRoom(l, last.0) {
        InsertedRuns(l, zero, last.0, last.1, q);
      }
    }
  }

  /** Every accepted insertion is found by lookup at the end of the history. */
  lemma {:induction false} NoFalseNegatives<T>(n: nat, zero: T, ops: seq<(nat, T)>, i: nat)
    requires forall j :: 0 <= j < |ops| ==> ops[j].0 < n
    requires i < |ops| && HasRoom(After(n, zero, ops[..i]), ops[i].0)
    ensures Scans(After(n, zero, ops), zero, ops[i].0, ops[i].1)
  {
    var l, q, x := After(n, zero, ops), ops[i].0, ops[i].1;
    AcceptedKept(n, zero, ops, i);
    RunsAreHistory(n, zero, ops, q);
    assert l.occ[q];
    HomeOfOccupied(l, q);
    LookupExact(l, zero, q, x);
  }

  lemma {:induction false} AcceptedKept<T>(n: nat, zero: T, ops: seq<(nat, T)>, i: nat)
    requires forall j :: 0 <= j < |ops| ==> ops[j].0 < n
    requires i < |ops| && HasRoom(After(n, zero, ops[..i]), ops[i].0)
    ensures ops[i].1 in Accepted(n, zero, ops, ops[i].0)
  {
    var init := ops[..|ops| - 1];
    if i < |ops| - 1 {
      assert init[..i] == ops[..i];
      AcceptedKept(n, zero, init, i);
    }
  }

  // ---------------------------------------------------------------- limits of the design

  /** Insertion is refused exactly when no slot from the quotient to the end of the table is
      free; free slots before the quotient are never used, so clusters do not wrap. */
  lemma {:induction false} RefusedIffTailUsed<T>(l: Layout<T>, q: nat)
    requires q <= |l.phys|
    ensures !HasRoom(l, q) <==> forall p :: q <= p < |l.phys| ==> l.phys[p]
  {
    if forall p :: q <= p < |l.phys| ==> l.phys[p] {
      FirstFreeUnique(l.phys, q, |l.phys|);
    }
  }

  lemma {:induction false} AfterOne<T>(n: nat, zero: T, q: nat, x: T)
    requires q < n
    ensures After(n, zero, [(q, x)]) == Inserted(Empty(n, zero), zero, q, x)
    ensures Empty(n, zero).phys == seq(n, i => false) && FirstFree(Empty(n, zero).phys, q) == q
    ensures Run(After(n, zero, [(q, x)]), q) == [x]
  {
    var l, ops := Empty(n, zero), [(q, x)];
    EmptyCanonical(n, zero);
    FirstFreeUnique(l.phys, q, q);
    assert ops[..|ops| - 1] == [];
    assert After(n, zero, ops) == Attempt(l, zero, q, x);
    InsertedRuns(l, zero, q, x, q);
  }

  /** A filter that holds a single entry, in its last quotient, refuses a second one there. */
  lemma {:induction false} FullWithOneEntry<T>(n: nat, zero: T, x: T)
    requires n > 0
    ensures !HasRoom(After(n, zero, [(n - 1, x)]), n - 1)
  {
    AfterOne(n, zero, n - 1, x);
    FirstFreeUnique(After(n, zero, [(n - 1, x)]).phys, n - 1, n);
  }

  /** A filter that holds a single entry, in a quotient other than 0, reports the remainder
      `zero` for that quotient whatever was inserted. */
  lemma {:induction false} ZeroReported<T>(n: nat, zero: T, q: nat, x: T)
    requires 0 < q < n
    ensures Scans(After(n, zero, [(q, x)]), zero, q, zero)
  {
    var l := After(n, zero, [(q, x)]);
    AfterOne(n, zero, q, x);
    assert l.occ[q];
    HomeOfOccupied(l, q);
    CountNone(l.occ, 0, q);
    LookupExact(l, zero, q, zero);
  }
}
