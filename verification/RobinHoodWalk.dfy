/** The walk of a Robin-Hood insertion over a ring that may have no empty slot, and the exact
    condition under which it leaves every distance exact.

    The ideal slot of the carried entry never moves back.  In the first turn the walk ends at the first slot
    that can take the new hash; if there is none it goes round again and ends at the first slot that
    holds no entry. */
module RobinHoodWalk {
  import opened ModArith
  import opened RobinHood

  /** Every entry that crosses w has its ideal slot at or after i. */
  ghost predicate Clears(s: seq<Slot>, w: int, i: int)
    requires |s| > 0
  {
    forall z {:trigger Nth(s, z)} ::
      w < z < w + |s| && Nth(s, z).Live? && z - Nth(s, z).pd <= w ==> i <= z - Nth(s, z).pd
  }

  /** Slot w, less than a turn from the ideal slot of h, can take h: it holds no entry, and no entry whose
      probe starts before the ideal slot of h lies beyond it. */
  ghost predicate Lands(s: seq<Slot>, h: int, w: int) {
    |s| > 0 && h <= w < h + |s| && !Nth(s, w).Live? && Clears(s, w, h)
  }

  /** The first slot from the ideal slot of h on that holds no entry. */
  ghost predicate FirstGap(s: seq<Slot>, h: int, w: int) {
    && |s| > 0 && h <= w < h + |s| && !Nth(s, w).Live?
    && forall y {:trigger Nth(s, y)} :: h <= y < w ==> Nth(s, y).Live?
  }

  /** Some entry's probe path avoids slot t. */
  ghost predicate Spared(s: seq<Slot>, t: int)
    requires |s| > 0
  {
    exists y :: t < y < t + |s| && Nth(s, y).Live? && y - Nth(s, y).pd > t
  }

  /** Inserting h leaves every distance exact: some slot can take h, or every slot from the ideal
      slot of h to the first gap is avoided by some entry. */
  ghost predicate Settles(s: seq<Slot>, h: int) {
    || (exists w :: Lands(s, h, w))
    || (exists w :: FirstGap(s, h, w) && forall t {:trigger Spared(s, t)} :: h <= t <= w ==> Spared(s, t))
  }

  // ---------------------------------------------------------------- coordinates

  lemma {:induction false} NthTurn(s: seq<Slot>, y: int)
    requires |s| > 0
    ensures Nth(s, y + |s|) == Nth(s, y)
  {
    ModShift(y, 1, |s|);
    NthSame(s, y + |s|, y);
  }

  /** A changed slot, seen from less than a turn away. */
  lemma {:induction false} PutNear(s: seq<Slot>, x: int, v: Slot, y: int)
    requires |s| > 0 && x - |s| < y < x + |s|
    ensures Nth(Put(s, x, v), y) == if y == x then v else Nth(s, y)
  {
    if y % |s| == x % |s| {
      ModInjective(x, y, |s|);
    }
  }

  lemma {:induction false} ExactAt(s: seq<Slot>, x: int)
    requires |s| > 0 && Exact(s) && Nth(s, x).Live?
    ensures Nth(s, x).pd < |s|
  {
  }

  lemma {:induction false} ExactPut(s: seq<Slot>, x: int, v: Slot)
    requires |s| > 0 && v.Live?
    ensures Exact(s) && v.pd < |s| ==> Exact(Put(s, x, v))
    ensures v.pd >= |s| ==> !Exact(Put(s, x, v))
  {
    assert Put(s, x, v)[x % |s|] == v;
  }

  // ---------------------------------------------------------------- the state of the walk

  /** Slot y as the walk has left it: as it was, or holding an earlier carried entry. */
  ghost predicate Passed(s0: seq<Slot>, s: seq<Slot>, h: int, y: int)
    requires |s0| == |s| > 0
  {
    var a, b := Nth(s0, y), Nth(s, y);
    a == b || (a.Live? && b.Live? && a.pd <= b.pd && h <= y - b.pd)
  }

  /** What the carried ideal slot i owes to the entries met so far. */
  ghost predicate Leads(s0: seq<Slot>, h: int, x: int, i: int)
    requires |s0| > 0
  {
    && (forall y {:trigger Nth(s0, y)} :: h <= y < x && Nth(s0, y).Live? ==>
          y - Nth(s0, y).pd <= i || h + |s0| <= i)
    && (i == h || exists y :: h <= y < x && Nth(s0, y).Live? && i <= y - Nth(s0, y).pd)
  }

  /** Slots met for the second time so far: avoided by some entry, or now holding a full turn. */
  ghost predicate Repeats(s0: seq<Slot>, s: seq<Slot>, h: int, x: int)
    requires |s0| == |s| > 0
  {
    && (forall t {:trigger Spared(s0, t)} :: h <= t < x - |s| ==>
          Spared(s0, t) || (Nth(s, t).Live? && Nth(s, t).pd == |s|))
    && ((forall t {:trigger Spared(s0, t)} :: h <= t < x - |s| ==> Spared(s0, t)) ==> Exact(s))
  }

  ghost predicate Bounds(s: seq<Slot>, h: int, x: int, i: int, w: int) {
    |s| > 0 && h <= i <= x <= w < h + 2 * |s| && x <= i + |s|
  }

  /** Where the walk must end: w can take the carried entry, and a second turn meets only entries
      before it. */
  ghost predicate Ahead(s: seq<Slot>, h: int, x: int, i: int, w: int)
    requires |s| > 0
  {
    && !Nth(s, w).Live? && Clears(s, w, i)
    && forall y {:trigger Nth(s, y)} :: x <= y < w && h + |s| <= y ==> Nth(s, y).Live? && Nth(s, y).pd < |s|
  }

  ghost predicate Trace(s0: seq<Slot>, s: seq<Slot>, h: int, x: int)
    requires |s0| == |s| > 0
  {
    && (forall y {:trigger Nth(s, y)} :: x <= y < h + |s| ==> Nth(s, y) == Nth(s0, y))
    && (forall y {:trigger Passed(s0, s, h, y)} :: x - |s| <= y < x && h <= y < h + |s| ==> Passed(s0, s, h, y))
  }

  /** A walk for h that stands at x and carries an entry with ideal slot i. */
  ghost predicate Walk(s0: seq<Slot>, s: seq<Slot>, h: int, x: int, i: int, w: int) {
    && |s0| == |s| && Bounds(s, h, x, i, w)
    && Ahead(s, h, x, i, w) && Trace(s0, s, h, x) && Leads(s0, h, x, i) && Repeats(s0, s, h, x)
    && (w < h + |s| || FirstGap(s0, h, w - |s|))
  }

  // ---------------------------------------------------------------- starting

  lemma {:induction false} StartFirstTurn(s: seq<Slot>, h: int, w: int)
    requires Inv(s) && Lands(s, h, w)
    ensures Walk(s, s, h, h, h, w)
  {
    hide Inv;
    assert Exact(s) by { InvExact(s); }
  }

  lemma {:induction false} InvExact(s: seq<Slot>)
    requires Inv(s)
    ensures |s| > 0 && Reach(s) && Exact(s)
  {
  }

  lemma {:induction false} StartSecondTurn(s: seq<Slot>, h: int, g: int)
    requires Inv(s) && FirstGap(s, h, g)
    ensures Walk(s, s, h, h, h, g + |s|)
  {
    InvExact(s);
    hide Inv, Reach, Nth;
    var w := g + |s|;
    NthTurn(s, g);
    forall z | w < z < w + |s| && Nth(s, z).Live? ensures h <= z - Nth(s, z).pd {
      ExactAt(s, z);
    }
    forall y | h + |s| <= y < w ensures Nth(s, y).Live? && Nth(s, y).pd < |s| {
      NthTurn(s, y - |s|);
      assert Nth(s, y - |s|).Live?;
      ExactAt(s, y);
    }
  }

  // ---------------------------------------------------------------- stepping

  /** What stands at x in a second turn, in terms of the original ring. */
  lemma {:induction false} SecondLook(s0: seq<Slot>, s: seq<Slot>, h: int, x: int)
    requires |s0| == |s| > 0 && Trace(s0, s, h, x) && h + |s| <= x < h + 2 * |s|
    ensures Nth(s, x) == Nth(s0, x) ||
      (Nth(s0, x).Live? && Nth(s, x).Live? && Nth(s0, x).pd <= Nth(s, x).pd && h + |s| <= x - Nth(s, x).pd)
  {
    hide Nth;
    NthTurn(s, x - |s|);
    NthTurn(s0, x - |s|);
    assert Passed(s0, s, h, x - |s|);
  }

  /** A full turn behind x, the carried entry has been overtaken exactly when some entry avoids the slot. */
  lemma {:induction false} SparedIff(s0: seq<Slot>, h: int, x: int, i: int)
    requires |s0| > 0 && Leads(s0, h, x, i) && h + |s0| <= x < h + 2 * |s0| && h <= i <= x <= i + |s0|
    ensures Spared(s0, x - |s0|) <==> x < i + |s0|
  {
    hide Nth;
    if y :| x - |s0| < y < x && Nth(s0, y).Live? && y - Nth(s0, y).pd > x - |s0| {
      assert h <= y < x;
    }
    if i != h {
      var y :| h <= y < x && Nth(s0, y).Live? && i <= y - Nth(s0, y).pd;
    }
  }

  lemma {:induction false} AdvanceLeads(s0: seq<Slot>, s: seq<Slot>, h: int, x: int, i: int)
    requires |s0| == |s| > 0 && Trace(s0, s, h, x) && Leads(s0, h, x, i) && h <= x < h + 2 * |s|
    requires Passable(Nth(s, x), x - i)
    ensures Leads(s0, h, x + 1, i)
  {
    hide Nth;
    if x < h + |s| {
      assert Nth(s, x) == Nth(s0, x);
    } else {
      SecondLook(s0, s, h, x);
    }
  }

  lemma {:induction false} SwapLeads(s0: seq<Slot>, s: seq<Slot>, h: int, x: int, i: int)
    requires |s0| == |s| > 0 && Trace(s0, s, h, x) && Leads(s0, h, x, i) && h <= x < h + 2 * |s|
    requires Nth(s, x).Live? && Nth(s, x).pd < x - i
    ensures Leads(s0, h, x + 1, x - Nth(s, x).pd)
  {
    hide Nth;
    if x < h + |s| {
      assert Nth(s, x) == Nth(s0, x);
    } else {
      SecondLook(s0, s, h, x);
    }
    assert Nth(s0, x).Live?;
  }

  /** Passing a slot without a swap. */
  lemma {:induction false} WalkOn(s0: seq<Slot>, s: seq<Slot>, h: int, x: int, i: int, w: int)
    requires Walk(s0, s, h, x, i, w) && x < w && Passable(Nth(s, x), x - i)
    ensures x < i + |s| && Walk(s0, s, h, x + 1, i, w)
  {
    hide Nth, Spared, Leads, FirstGap, Clears, Exact;
    assert h + |s| <= x ==> Nth(s, x).Live? && Nth(s, x).pd < |s|;
    AdvanceLeads(s0, s, h, x, i);
    if x < h + |s| {
      assert Nth(s, x) == Nth(s0, x);
      assert Passed(s0, s, h, x);
    } else {
      SparedIff(s0, h, x, i);
    }
  }

  /** Swapping does not let anyone new across w. */
  lemma {:induction false} SwapClears(s: seq<Slot>, h: int, x: int, i: int, w: int, v: Slot)
    requires Reach(s) && Bounds(s, h, x, i, w) && x < w && Clears(s, w, i)
    requires Nth(s, x).Live? && Nth(s, x).pd < x - i && v.Live? && v.pd == x - i
    ensures Clears(Put(s, x, v), w, x - Nth(s, x).pd)
  {
    hide Nth, Put;
    var s' := Put(s, x, v);
    var e := Nth(s, x);
    forall z | w < z < w + |s| && Nth(s', z).Live? && z - Nth(s', z).pd <= w
      ensures x - e.pd <= z - Nth(s', z).pd
    {
      if z % |s| == x % |s| {
        SameSlot(z, x, w, |s|);
      } else if z - Nth(s, z).pd <= x {
        Crosses(s, x, z);
      }
    }
  }

  /** Coordinates of slot x just beyond w: one turn on when x is less than a turn before w, or two. */
  lemma {:induction false} SameSlot(z: int, x: int, w: int, n: nat)
    requires n > 0 && z % n == x % n && w < z < w + n && x < w < x + 2 * n
    ensures z == x + n || (z == x + 2 * n && x + n <= w)
  {
    ModShift(x, 1, n);
    ModShift(x, 2, n);
    if x + n > w {
      ModInjective(z, x + n, n);
    } else {
      ModInjective(z, x + 2 * n, n);
    }
  }

  lemma {:induction false} SwapAhead(s: seq<Slot>, h: int, x: int, i: int, w: int, v: Slot)
    requires Reach(s) && Bounds(s, h, x, i, w) && x < w && Ahead(s, h, x, i, w)
    requires Nth(s, x).Live? && Nth(s, x).pd < x - i && v.Live? && v.pd == x - i
    requires x < h + |s| ==> !Nth(s, w).Live?
    ensures Ahead(Put(s, x, v), h, x + 1, x - Nth(s, x).pd, w)
  {
    SwapClears(s, h, x, i, w, v);
    hide Nth, Put, Clears, Reach;
    var s' := Put(s, x, v);
    if w % |s| == x % |s| {
      NthSame(s, w, x);
    }
    forall y | x + 1 <= y < w && h + |s| <= y ensures Nth(s', y).Live? && Nth(s', y).pd < |s| {
      if y % |s| == x % |s| && x >= h + |s| {
        ModInjective(y, x, |s|);
      }
    }
  }

  lemma {:induction false} SwapTrace(s0: seq<Slot>, s: seq<Slot>, h: int, x: int, i: int, v: Slot)
    requires |s0| == |s| > 0 && Trace(s0, s, h, x) && h <= i <= x
    requires Nth(s, x).Live? && Nth(s, x).pd < x - i && v.Live? && v.pd == x - i
    ensures Trace(s0, Put(s, x, v), h, x + 1)
  {
    hide Nth, Put;
    var s' := Put(s, x, v);
    forall y | x + 1 <= y < h + |s| ensures Nth(s', y) == Nth(s0, y) {
      PutNear(s, x, v, y);
    }
    forall y | x + 1 - |s| <= y < x + 1 && h <= y < h + |s| ensures Passed(s0, s', h, y) {
      PutNear(s, x, v, y);
      if y < x {
        assert Passed(s0, s, h, y);
      } else {
        assert Nth(s, x) == Nth(s0, x);
      }
    }
  }

  lemma {:induction false} SwapRepeats(s0: seq<Slot>, s: seq<Slot>, h: int, x: int, i: int, w: int, v: Slot)
    requires |s0| == |s| && Bounds(s, h, x, i, w) && x < w && Leads(s0, h, x, i) && Repeats(s0, s, h, x)
    requires Nth(s, x).Live? && v.Live? && v.pd == x - i
    ensures Repeats(s0, Put(s, x, v), h, x + 1)
  {
    hide Nth, Put, Spared, Exact, Leads;
    var s' := Put(s, x, v);
    ExactPut(s, x, v);
    if h + |s| <= x {
      SparedIff(s0, h, x, i);
      NthTurn(s', x - |s|);
      PutNear(s, x, v, x);
    }
    forall t | h <= t < x + 1 - |s| ensures Spared(s0, t) || (Nth(s', t).Live? && Nth(s', t).pd == |s|) {
      if t < x - |s| {
        NthTurn(s', t);
        NthTurn(s, t);
        PutNear(s, x, v, t + |s|);
      }
    }
  }

  /** Swapping the carried entry into slot x. */
  lemma {:induction false} WalkSwap(s0: seq<Slot>, s: seq<Slot>, h: int, x: int, i: int, w: int, v: Slot)
    requires Walk(s0, s, h, x, i, w) && Reach(s) && x < w
    requires Nth(s, x).Live? && Nth(s, x).pd < x - i && v.Live? && v.pd == x - i
    ensures Walk(s0, Put(s, x, v), h, x + 1, x - Nth(s, x).pd, w)
  {
    hide Nth, Put, Leads, Repeats, Trace, Ahead, Reach, FirstGap;
    assert !Nth(s, w).Live? by { AheadGap(s, h, x, i, w); }
    SwapAhead(s, h, x, i, w, v);
    SwapTrace(s0, s, h, x, i, v);
    SwapLeads(s0, s, h, x, i);
    SwapRepeats(s0, s, h, x, i, w, v);
  }

  lemma {:induction false} AheadGap(s: seq<Slot>, h: int, x: int, i: int, w: int)
    requires |s| > 0 && Ahead(s, h, x, i, w)
    ensures !Nth(s, w).Live?
  {
  }

  // ---------------------------------------------------------------- stopping

  /** At w the carried entry is let in. */
  lemma {:induction false} WalkEnds(s0: seq<Slot>, s: seq<Slot>, h: int, x: int, i: int, w: int, v: Slot)
    requires Walk(s0, s, h, x, i, w) && v.Live? && v.pd == w - i
    ensures Crossable(s, w, v)
  {
    hide Nth;
  }

  /** Before a full turn, where the carried entry is let in the new hash could have been put. */
  lemma {:induction false} StopLands(s0: seq<Slot>, s: seq<Slot>, h: int, x: int, i: int, w: int, v: Slot)
    requires Walk(s0, s, h, x, i, w) && x < h + |s|
    requires !Nth(s, x).Live? && Crossable(s, x, v) && v.Live? && v.pd == x - i
    ensures Lands(s0, h, x)
  {
    hide Nth, Leads, Repeats, Ahead, FirstGap;
    assert Nth(s, x) == Nth(s0, x);
    forall z | x < z < x + |s| && Nth(s0, z).Live? && z - Nth(s0, z).pd <= x
      ensures h <= z - Nth(s0, z).pd
    {
      if z < h + |s| {
        assert Nth(s, z) == Nth(s0, z);
      } else {
        NthTurn(s, z - |s|);
        NthTurn(s0, z - |s|);
        assert Passed(s0, s, h, z - |s|);
      }
    }
  }

  lemma {:induction false} FirstGapUnique(s: seq<Slot>, h: int, g: int, g': int)
    requires FirstGap(s, h, g) && FirstGap(s, h, g')
    ensures g == g'
  {
    hide Nth;
    assert !Nth(s, g).Live? && !Nth(s, g').Live?;
  }

  /** The ring that the walk leaves has exact distances exactly when the hash settles in the
      original ring. */
  lemma {:induction false} WalkStop(s0: seq<Slot>, s: seq<Slot>, h: int, x: int, i: int, w: int, v: Slot)
    requires Walk(s0, s, h, x, i, w) && (h + |s| <= w ==> forall g :: !Lands(s0, h, g))
    requires !Nth(s, x).Live? && Crossable(s, x, v) && v.Live? && v.pd == x - i
    ensures Exact(Put(s, x, v)) <==> Settles(s0, h)
  {
    hide Nth, Put, Crossable, Exact, Spared, Lands;
    ExactPut(s, x, v);
    if x < h + |s| {
      StopLands(s0, s, h, x, i, w, v);
    } else {
      assert x == w;
      SparedIff(s0, h, x, i);
      StopSecondTurn(s0, s, h, x, i, v);
    }
  }

  lemma {:induction false} StopSecondTurn(s0: seq<Slot>, s: seq<Slot>, h: int, x: int, i: int, v: Slot)
    requires |s0| == |s| > 0 && Repeats(s0, s, h, x) && FirstGap(s0, h, x - |s|)
    requires v.Live? && v.pd == x - i && h <= i <= x <= i + |s|
    requires Spared(s0, x - |s|) <==> x < i + |s|
    requires forall g :: !Lands(s0, h, g)
    ensures Exact(Put(s, x, v)) <==> Settles(s0, h)
  {
    hide Nth, Put, Spared, Lands;
    var g, s' := x - |s|, Put(s, x, v);
    ExactPut(s, x, v);
    if Exact(s') {
      forall t | h <= t <= g ensures Spared(s0, t) {
        if t < g {
          NthTurn(s', t);
          NthTurn(s, t);
          PutNear(s, x, v, t + |s|);
          if Nth(s', t).Live? {
            ExactAt(s', t);
          }
        }
      }
    }
    if Settles(s0, h) {
      var g' :| FirstGap(s0, h, g') && forall t {:trigger Spared(s0, t)} :: h <= t <= g' ==> Spared(s0, t);
      FirstGapUnique(s0, h, g, g');
    }
  }

  // ---------------------------------------------------------------- simple sufficient conditions

  /** An empty slot can take any hash. */
  lemma {:induction false} EmptyLands(s: seq<Slot>, h: int, w: int)
    requires Reach(s) && h <= w < h + |s| && Nth(s, w).Empty?
    ensures Lands(s, h, w) && Settles(s, h)
  {
    hide Nth;
    forall z | w < z < w + |s| && Nth(s, z).Live? && z - Nth(s, z).pd <= w ensures false {
      Crosses(s, w, z);
    }
  }

  /** So can any slot that holds no entry and that no entry crosses. */
  lemma {:induction false} UncrossedLands(s: seq<Slot>, h: int, w: int)
    requires |s| > 0 && h <= w < h + |s| && !Nth(s, w).Live?
    requires forall z :: w < z < w + |s| && Nth(s, z).Live? ==> w < z - Nth(s, z).pd
    ensures Lands(s, h, w) && Settles(s, h)
  {
    assert Lands(s, h, w);
  }

  /** From any slot that holds no entry to the first one after the ideal slot of h. */
  lemma {:induction false} SomeFirstGap(s: seq<Slot>, h: int, from: int, z: int) returns (g: int)
    requires |s| > 0 && h <= from <= z < h + |s| && !Nth(s, z).Live?
    requires forall y {:trigger Nth(s, y)} :: h <= y < from ==> Nth(s, y).Live?
    ensures FirstGap(s, h, g)
    decreases z - from
  {
    hide Nth;
    if Nth(s, from).Live? {
      g := SomeFirstGap(s, h, from + 1, z);
    } else {
      g := from;
    }
  }

  // ---------------------------------------------------------------- a ring where the hash does not settle

  /** One tombstone, which the entry behind it crosses. */
  function CrossedTomb(): (s: seq<Slot>) {
    [Tomb, Live(7, 2, 1), Live(4, 2, 2), Live(8, 3, 3)]
  }

  /** Every entry's probe passes the tombstone, so hash 12, whose ideal slot it is, goes all the way
      round and comes to rest there with distance 4 in a ring of 4. */
  lemma {:induction false} CrossedTombUnsettled()
    ensures
      var s := CrossedTomb();
      && Inv(s) && NoTombRun(s) && !Settles(s, 12)
      && !Exact(Put(s, 12, Live(12, 4, 9)))
  {
    var s := CrossedTomb();
    forall x: int ensures EntryOk(s, x) {
      CrossedTombEntry(x);
    }
    forall x: int | Nth(s, x).Tomb? ensures SeenPast(s, x) {
      assert x % 4 == 0 && (x + 1) % 4 == 1;
      assert !Nth(s, x + 1).Tomb?;
    }
    assert Nth(s, 13) == Live(7, 2, 1);
    assert forall w :: !Lands(s, 12, w);
    assert !Spared(s, 12);
    ExactPut(s, 12, Live(12, 4, 9));
  }

  lemma {:induction false} CrossedTombEntry(x: int)
    ensures EntryOk(CrossedTomb(), x)
  {
    var s := CrossedTomb();
    if x % 4 == 1 {
      assert (x - 2) % 4 == 3 && (x - 1) % 4 == 0;
      assert Passable(Nth(s, x - 2), 0) && Passable(Nth(s, x - 1), 1);
    } else if x % 4 == 2 {
      assert (x - 2) % 4 == 0 && (x - 1) % 4 == 1;
      assert Passable(Nth(s, x - 2), 0) && Passable(Nth(s, x - 1), 1);
    } else if x % 4 == 3 {
      assert (x - 3) % 4 == 0 && (x - 2) % 4 == 1 && (x - 1) % 4 == 2;
      assert Passable(Nth(s, x - 3), 0) && Passable(Nth(s, x - 2), 1) && Passable(Nth(s, x - 1), 2);
    }
  }
}
