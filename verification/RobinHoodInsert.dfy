/** The steps of a Robin-Hood insertion, as the table makes them: what each does to the ring, its contents and
    its counters. */
module RobinHoodInsert {
  import opened RobinHood
  import opened RobinHoodWalk
  import opened RobinHoodRange
  import opened RingIndex

  lemma {:induction false} ReachableStart(s: seq<Slot>, h: nat)
    requires |s| > 0
    ensures Reachable(s, h, h, 0)
  {
  }

  /** An entry beyond x that comes from farther back than one carried to x would be hidden behind it. */
  lemma {:induction false} Hides(s: seq<Slot>, x: int, z: int, v: Slot)
    requires Reach(s) && x < z && Nth(s, z).Live? && v.Live? && Nth(s, z).pd > v.pd + (z - x)
    ensures !Crossable(s, x, v)
  {
    hide Nth;
    assert EntryOk(s, z);
  }

  lemma {:induction false} WalkGap(s0: seq<Slot>, s: seq<Slot>, h: int, x: int, i: int, w: int)
    requires Walk(s0, s, h, x, i, w)
    ensures |s| > 0 && !Nth(s, w).Live?
  {
  }

  /** In the first turn every distance is exact. */
  lemma {:induction false} WalkExact(s0: seq<Slot>, s: seq<Slot>, h: int, x: int, i: int, w: int)
    requires Walk(s0, s, h, x, i, w) && x <= h + |s|
    ensures Exact(s)
  {
  }

  lemma {:induction false} PlaceEntry(s: seq<Slot>, x: int, h: nat, d: nat, val: nat)
    requires Reach(s) && Reachable(s, x, h, d) && !Nth(s, x).Live?
    requires Nth(s, x).Tomb? ==> Crossable(s, x, Live(h, d, val))
    ensures Crossable(s, x, Live(h, d, val))
    ensures
      var i := x % |s|;
      var s' := s[i := Live(h, d, val)];
      && s' == Put(s, x, Live(h, d, val)) && Reach(s') && Entries(s') == Entries(s) + multiset{(h, val)}
      && Tombs(s') + (if s[i].Tomb? then 1 else 0) == Tombs(s)
  {
    hide Entries, Tombs, Reach, Crossable, Reachable;
    var v := Live(h, d, val);
    ReachNonempty(s);
    if Nth(s, x).Empty? {
      EmptyUncrossed(s, x, v);
    }
    PutKeepsReach(s, x, v);
    UpdateContents(s, x % |s|, v);
  }

  /** The carried entry comes to rest in the slot at x. */
  lemma {:induction false} PlaceStep(s0: seq<Slot>, s: seq<Slot>, h: nat, x: int, idx: nat, i: int, w: int, v: Slot,
      b: nat)
    requires At(idx, x, |s|)
    requires Walk(s0, s, h, x, i, w) && NoneBefore(s0, h, w) && Inv(s0) && Ends(s0, h) && Near(s0, h, x)
    requires |s| > 0 && Reach(s) && v.Live? && v.pd == x - i && Reachable(s, x, v.h, v.pd) && !Nth(s, x).Live?
    requires Nth(s, x).Tomb? ==> Crossable(s, x, v)
    ensures
      var s' := s[idx := v];
      && Reach(s') && (Exact(s') <==> Fits(s0, h)) && Entries(s') == Entries(s) + multiset{(v.h, v.val)}
      && Tombs(s') + (if Nth(s, x).Tomb? then 1 else 0) == Tombs(s) && (NoTombRun(s) ==> NoTombRun(s'))
      && (Within(s, b) && v.h >= 2 && v.pd <= b ==> Within(s', b))
  {
    hide Reach, Exact, Put, Entries, Tombs, Reachable, Crossable, Walk, Settles, Within, Lands, Fits, Near, Ends;
    PlaceEntry(s, x, v.h, v.pd, v.val);
    FitsAtStop(s0, s, h, x, i, w, v);
    NoLandingLeft(s0, s, h, x, i, w);
    if NoTombRun(s) {
      FewerTombs(s, x, v);
    }
    WalkStop(s0, s, h, x, i, w, v);
    if Within(s, b) && v.h >= 2 && v.pd <= b {
      WithinPlaced(s, x % |s|, v, b);
    }
  }

  /** The carried entry takes the slot at x, and its occupant is carried on. */
  lemma {:induction false} SwapStep(s0: seq<Slot>, s: seq<Slot>, h: nat, x: int, idx: nat, i: int, w: int, v: Slot,
      b: nat)
    requires At(idx, x, |s|)
    requires Walk(s0, s, h, x, i, w) && x < w && NoTombRun(s)
    requires |s| > 0 && Reach(s) && v.Live? && v.pd == x - i && Reachable(s, x, v.h, v.pd)
    requires Nth(s, x).Live? && Nth(s, x).pd < v.pd
    ensures
      var e, s' := Nth(s, x), s[idx := v];
      && Reach(s') && NoTombRun(s') && Tombs(s') == Tombs(s) && Reachable(s', x + 1, e.h, e.pd + 1)
      && Entries(s') + multiset{(e.h, e.val)} == Entries(s) + multiset{(v.h, v.val)}
      && Walk(s0, s', h, x + 1, x - e.pd, w)
      && (Within(s, b) && v.h >= 2 && v.pd <= b ==> Within(s', b) && e.h >= 2)
  {
    hide Reach, Put, Entries, Tombs, Reachable, Walk, Within, NoTombRun;
    SwapCarry(s, x, v.h, v.pd, v.val);
    SwapContents(s, x, v.h, v.pd, v.val);
    WalkSwap(s0, s, h, x, i, w, v);
    if Within(s, b) && v.h >= 2 && v.pd <= b {
      WithinPlaced(s, x % |s|, v, b);
    }
  }

  /** The same when the walk is lost. */
  lemma {:induction false} LostPlace(s: seq<Slot>, h: nat, x: int, idx: nat, i: int, z: int, v: Slot, b: nat)
    requires At(idx, x, |s|) && v.Live? && Lost(s, h, x, i, v.h, v.pd, z) && |s| > 0 && !Nth(s, x).Live?
    ensures
      var s' := s[idx := v];
      && !Reach(s') && Entries(s') == Entries(s) + multiset{(v.h, v.val)}
      && Tombs(s') + (if Nth(s, x).Tomb? then 1 else 0) == Tombs(s) && (NoTombRun(s) ==> NoTombRun(s'))
      && (Within(s, b) && v.h >= 2 && v.pd <= b ==> Within(s', b))
  {
    hide Reach, Entries, Tombs, Within, Lost, Ruined, NoTombRun;
    LostPut(s, h, x, i, v.h, v.pd, z, v);
    RuinedUnreachable(Put(s, x, v), h, x + 1);
    if NoTombRun(s) {
      FewerTombs(s, x, v);
    }
    UpdateContents(s, idx, v);
    if Within(s, b) && v.h >= 2 && v.pd <= b {
      WithinPlaced(s, idx, v, b);
    }
  }

  lemma {:induction false} LostSwapStep(s: seq<Slot>, h: nat, x: int, idx: nat, i: int, z: int, v: Slot, b: nat)
    requires At(idx, x, |s|) && v.Live? && Lost(s, h, x, i, v.h, v.pd, z) && NoTombRun(s)
    requires |s| > 0 && Nth(s, x).Live? && Nth(s, x).pd < v.pd
    ensures
      var e, s' := Nth(s, x), s[idx := v];
      && NoTombRun(s') && Tombs(s') == Tombs(s)
      && Entries(s') + multiset{(e.h, e.val)} == Entries(s) + multiset{(v.h, v.val)}
      && x < z && Lost(s', h, x + 1, x - e.pd, e.h, e.pd + 1, z)
      && (Within(s, b) && v.h >= 2 && v.pd <= b ==> Within(s', b) && e.h >= 2)
  {
    hide Entries, Tombs, Within, Lost, NoTombRun;
    SwapContents(s, x, v.h, v.pd, v.val);
    LostSwap(s, h, x, i, v.h, v.pd, z, v, x - Nth(s, x).pd, Nth(s, x).h, Nth(s, x).pd + 1);
    if Within(s, b) && v.h >= 2 && v.pd <= b {
      WithinPlaced(s, idx, v, b);
    }
  }

  /** The step on which the distance wraps. */
  lemma {:induction false} GetLost(s: seq<Slot>, h: nat, x: int, i: int, cur: nat, dist: nat, z: int)
    requires |s| > DIST_RANGE && Reachable(s, x, cur, dist) && dist == x - i == MAX_DIST && h <= i
    requires x + 1 <= z < h + |s| && Nth(s, z).Empty?
    ensures Lost(s, h, x + 1, i, cur, NextDist(dist), z)
  {
  }

  lemma {:induction false} NextInRange(d: nat)
    ensures NextDist(d) <= MAX_DIST && (d < MAX_DIST ==> NextDist(d) == d + 1)
  {
  }

  lemma {:induction false} SwapContents(s: seq<Slot>, x: int, h: nat, d: nat, val: nat)
    requires |s| > 0 && Nth(s, x).Live? && NoTombRun(s)
    ensures
      var i, e := x % |s|, Nth(s, x);
      var s' := s[i := Live(h, d, val)];
      && s' == Put(s, x, Live(h, d, val)) && NoTombRun(s') && Tombs(s') == Tombs(s)
      && Entries(s') + multiset{(e.h, e.val)} == Entries(s) + multiset{(h, val)}
  {
    hide Entries, Tombs;
    var v := Live(h, d, val);
    UpdateContents(s, x % |s|, v);
    FewerTombs(s, x, v);
  }

  lemma {:induction false} FewerTombs(s: seq<Slot>, x: int, v: Slot)
    requires |s| > 0 && NoTombRun(s) && !v.Tomb?
    ensures NoTombRun(Put(s, x, v))
  {
    hide Nth, Put;
    var s' := Put(s, x, v);
    forall y: int | Nth(s', y).Tomb? ensures SeenPast(s', y) {
      assert Nth(s, y).Tomb? && SeenPast(s, y);
      var w :| y < w <= y + LOOKAHEAD && !Nth(s, w).Tomb?;
      assert !Nth(s', w).Tomb?;
    }
  }

  /** The first empty slot from x on. */
  lemma {:induction false} NextEmpty(s: seq<Slot>, h: int, x: int, y: int) returns (w: int)
    requires |s| > 0 && h <= x <= y && Nth(s, y).Empty?
    requires forall z {:trigger Nth(s, z)} :: h <= z < x ==> !Nth(s, z).Empty?
    ensures x <= w <= y && Nth(s, w).Empty? && forall z {:trigger Nth(s, z)} :: h <= z < w ==> !Nth(s, z).Empty?
    decreases y - x
  {
    hide Nth;
    if Nth(s, x).Empty? {
      w := x;
    } else {
      w := NextEmpty(s, h, x + 1, y);
    }
  }

  /** An empty slot, within the range of 16-bit distances from everywhere. */
  ghost predicate Room(s: seq<Slot>) {
    |Entries(s)| + Tombs(s) < |s| && (|s| <= DIST_RANGE || |Entries(s)| + Tombs(s) <= MAX_DIST)
  }

  lemma {:induction false} RoomLands(s: seq<Slot>, h: nat) returns (w: int)
    requires Inv(s) && Room(s)
    ensures Lands(s, h, w) && w <= h + MAX_DIST && !Nth(s, w).Live?
    ensures Fits(s, h) && Ends(s, h) && exists z :: 0 <= z < |s| && !s[z].Live?
  {
    hide Entries, Tombs, Lands, Settles, Exact, Near;
    SomeEmpty(s);
    var z :| 0 <= z < |s| && s[z].Empty?;
    var y := GapInTurn(s, h, z);
    w := NextEmpty(s, h, h, y);
    FilledRun(s, h, w - h);
    EmptyLands(s, h, w);
    CloseFits(s, h, w);
  }

  /** Every slot within the bound of the ideal slot of h is taken by entries that have come as far, or must be passed:
      a probe for h gets beyond the bound. */
  ghost predicate PastBound(s: seq<Slot>, h: nat, bound: nat) {
    |s| > 0 && exists x: int, d: nat :: d > bound && Reachable(s, x, h, d)
  }

  lemma {:induction false} PastHere(s: seq<Slot>, x: int, h: nat, d: nat, bound: nat)
    requires |s| > 0 && Reachable(s, x, h, d) && d > bound
    ensures PastBound(s, h, bound)
  {
  }

  // ---------------------------------------------------------------- past blocked tombstones

  /** An entry at x or beyond comes from before i. */
  ghost predicate Trailing(s: seq<Slot>, x: int, i: int) {
    |s| > 0 && exists z :: x <= z < x - 1 + |s| && Nth(s, z).Live? && z - Nth(s, z).pd < i
  }

  /** A tombstone is blocked by an entry beyond it. */
  lemma {:induction false} BlockedTrails(s: seq<Slot>, x: int, i: int, v: Slot)
    requires |s| > 0 && v.Live? && v.pd == x - i && !Crossable(s, x, v)
    ensures Trailing(s, x + 1, i)
  {
    hide Nth;
    var z :| x < z < x + |s| && Nth(s, z).Live? && z - Nth(s, z).pd <= x && !Passable(v, x - (z - Nth(s, z).pd));
    assert Nth(s, z).Live?;
  }

  /** So the distance carried past it is less than that entry's. */
  lemma {:induction false} TrailingWithin(s: seq<Slot>, x: int, i: int, b: nat)
    requires Trailing(s, x, i) && Within(s, b)
    ensures x - i < b
  {
    var z :| x <= z < x - 1 + |s| && Nth(s, z).Live? && z - Nth(s, z).pd < i;
    assert s[z % |s|].pd <= b;
  }

  /** And the next slot is not free for the carried entry either. */
  lemma {:induction false} TrailingBlocks(s: seq<Slot>, x: int, i: int, v: Slot)
    requires Reach(s) && Trailing(s, x, i) && i <= x && v.Live? && v.pd == x - i && !Nth(s, x).Live?
    ensures Nth(s, x).Tomb? && !Crossable(s, x, v)
  {
    hide Nth, Reach;
    var z :| x <= z < x - 1 + |s| && Nth(s, z).Live? && z - Nth(s, z).pd < i;
    Crosses(s, x, z);
    assert !Passable(v, x - (z - Nth(s, z).pd));
  }

  /** The walk steps past an entry or a blocked tombstone. */
  lemma {:induction false} OnStep(s0: seq<Slot>, s: seq<Slot>, h: int, x: int, i: int, w: int, v: Slot, blocked: bool,
      b: nat)
    requires Walk(s0, s, h, x, i, w) && x < w <= h + MAX_DIST && |s| > 0 && Passable(Nth(s, x), x - i) && Within(s, b)
    requires v.Live? && v.pd == x - i && Reachable(s, x, v.h, v.pd) && (blocked ==> !Crossable(s, x, v))
    ensures Walk(s0, s, h, x + 1, i, w) && Reachable(s, x + 1, v.h, v.pd + 1) && NextDist(v.pd) == v.pd + 1
    ensures blocked ==> Trailing(s, x + 1, i) && v.pd + 1 <= b
  {
    hide Walk, Nth, Reachable, Crossable, Within, Trailing;
    WalkOn(s0, s, h, x, i, w);
    Advance(s, x, v.h, v.pd);
    if blocked {
      BlockedTrails(s, x, i, v);
      TrailingWithin(s, x + 1, i, b);
    }
    StaysInRange(s0, s, h, x + 1, i, w);
    NextInRange(v.pd);
  }
}
