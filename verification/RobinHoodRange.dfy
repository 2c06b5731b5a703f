/** What 16-bit distances do to a Robin-Hood insertion.

    The walk of an insertion counts the distance of the entry it carries in 16 bits.  Where the counter wraps, the
    carried entry loses its ideal slot, and whatever slot it comes to rest in then breaks the invariant. */
module RobinHoodRange {
  import opened ModArith
  import opened RobinHood
  import opened RobinHoodWalk

  /** Distances are 16 bits wide. */
  const DIST_RANGE := 0x1_0000
  const MAX_DIST := 0xFFFF

  /** A distance as the 16-bit counter shows it. */
  function Wrapped(d: nat): (r: nat) {
    d % DIST_RANGE
  }

  function NextDist(r: nat): (r': nat) {
    (r + 1) % DIST_RANGE
  }

  lemma {:induction false} WrappedNext(d: nat)
    ensures Wrapped(0) == 0 && Wrapped(d) <= d && Wrapped(d + 1) == NextDist(Wrapped(d))
  {
    ModStep(d, DIST_RANGE);
  }

  /** Among the entries from the ideal slot of h to x there is one whose ideal slot is in the range of a 16-bit
      distance from x. */
  ghost predicate NearAt(s: seq<Slot>, h: int, x: int)
    requires |s| > 0
  {
    exists y :: h <= y < x && Nth(s, y).Live? && x - MAX_DIST <= y - Nth(s, y).pd
  }

  /** On its way to w an insertion of h never carries an entry farther than 16 bits can tell. */
  ghost predicate Near(s: seq<Slot>, h: int, w: int) {
    |s| > 0 && forall x {:trigger NearAt(s, h, x)} :: h + MAX_DIST < x <= w ==> NearAt(s, h, x)
  }

  /** Inserting h leaves every entry reachable and every distance exact.  In a ring of at most 65536 slots h has to
      settle; in a larger one the walk must come to a slot that can take h before a distance wraps. */
  ghost predicate Fits(s: seq<Slot>, h: int) {
    if |s| <= DIST_RANGE then Settles(s, h) else exists w :: Lands(s, h, w) && Near(s, h, w)
  }

  ghost predicate SomeSlotEmpty(s: seq<Slot>) {
    exists z :: 0 <= z < |s| && s[z].Empty?
  }

  /** The walk is sure to end in a slot that holds no entry. */
  ghost predicate Ends(s: seq<Slot>, h: int) {
    |s| <= MAX_DIST || Fits(s, h) || SomeSlotEmpty(s)
  }

  // ---------------------------------------------------------------- where the walk ends

  /** No slot before w can take h. */
  ghost predicate NoneBefore(s: seq<Slot>, h: int, w: int) {
    forall g {:trigger Lands(s, h, g)} :: Lands(s, h, g) ==> w <= g
  }

  lemma {:induction false} FirstLanding(s: seq<Slot>, h: int, g: int) returns (w: int)
    requires Lands(s, h, g)
    ensures Lands(s, h, w) && NoneBefore(s, h, w)
    decreases g - h
  {
    if g' :| Lands(s, h, g') && g' < g {
      w := FirstLanding(s, h, g');
    } else {
      w := g;
    }
  }

  /** Where an insertion of h must end: the first slot that can take h, or the first gap a turn later. */
  lemma {:induction false} Destination(s: seq<Slot>, h: nat) returns (w: int)
    requires Inv(s) && exists z :: 0 <= z < |s| && !s[z].Live?
    ensures h <= w && Walk(s, s, h, h, h, w) && NoneBefore(s, h, w)
  {
    hide Inv, Walk, NoneBefore;
    if g :| Lands(s, h, g) {
      w := FirstLanding(s, h, g);
      StartFirstTurn(s, h, w);
    } else {
      var z :| 0 <= z < |s| && !s[z].Live?;
      var y := GapInTurn(s, h, z);
      var g := SomeFirstGap(s, h, h, y);
      w := g + |s|;
      StartSecondTurn(s, h, g);
      assert NoneBefore(s, h, w) by { NoLanding(s, h, w); }
    }
  }

  lemma {:induction false} NoLanding(s: seq<Slot>, h: int, w: int)
    requires forall g :: !Lands(s, h, g)
    ensures NoneBefore(s, h, w)
  {
  }

  lemma {:induction false} GapInTurn(s: seq<Slot>, h: int, z: nat) returns (y: int)
    requires z < |s|
    ensures h <= y < h + |s| && Nth(s, y) == s[z]
  {
    y := h + (z - h) % |s|;
    assert z - h == |s| * ((z - h) / |s|) + (z - h) % |s|;
    ModShift(y, (z - h) / |s|, |s|);
    ModUnique(z, 0, z, |s|);
  }

  lemma {:induction false} NoLandingLeft(s0: seq<Slot>, s: seq<Slot>, h: int, x: int, i: int, w: int)
    requires Walk(s0, s, h, x, i, w) && NoneBefore(s0, h, w)
    ensures h + |s| <= w ==> forall g :: !Lands(s0, h, g)
  {
  }

  // ---------------------------------------------------------------- as long as no distance wraps

  lemma {:induction false} NearAtFirst(s: seq<Slot>, h: int, x: int)
    requires |s| > 0 && x <= h + MAX_DIST
    ensures Near(s, h, x)
  {
  }

  /** A slot within the range of a distance will do. */
  lemma {:induction false} CloseFits(s: seq<Slot>, h: int, w: int)
    requires Lands(s, h, w) && w <= h + MAX_DIST
    ensures Near(s, h, w) && Fits(s, h)
  {
  }

  /** While the carried distance fits 16 bits, the walk stays near. */
  lemma {:induction false} NearStep(s0: seq<Slot>, s: seq<Slot>, h: int, x: int, i: int, w: int)
    requires Walk(s0, s, h, x + 1, i, w) && Near(s0, h, x) && x + 1 - i <= MAX_DIST
    ensures Near(s0, h, x + 1)
  {
    hide Nth, Trace, Repeats, Ahead, FirstGap;
    if h + MAX_DIST < x + 1 {
      var y :| h <= y < x + 1 && Nth(s0, y).Live? && i <= y - Nth(s0, y).pd;
      assert NearAt(s0, h, x + 1);
    }
  }

  /** Where the walk stops without a wrap, settling is all that matters. */
  lemma {:induction false} FitsAtStop(s0: seq<Slot>, s: seq<Slot>, h: int, x: int, i: int, w: int, v: Slot)
    requires Walk(s0, s, h, x, i, w) && NoneBefore(s0, h, w) && Inv(s0) && Ends(s0, h) && Near(s0, h, x)
    requires !Nth(s, x).Live? && Crossable(s, x, v) && v.Live? && v.pd == x - i
    ensures Settles(s0, h) <==> Fits(s0, h)
  {
    hide Nth, Crossable, Inv, Near, NearAt;
    if |s| > DIST_RANGE {
      if x < h + |s| {
        StopLands(s0, s, h, x, i, w, v);
      } else {
        SomeLanding(s0, h);
        assert false;
      }
    }
  }

  lemma {:induction false} SomeLanding(s: seq<Slot>, h: int)
    requires Inv(s) && Ends(s, h) && |s| > DIST_RANGE
    ensures exists w :: Lands(s, h, w)
  {
    hide Nth, Settles, Lands, Near;
    if !Fits(s, h) {
      var w := EmptyAhead(s, h);
    }
  }

  lemma {:induction false} EmptyAhead(s: seq<Slot>, h: int) returns (w: int)
    requires Inv(s) && SomeSlotEmpty(s)
    ensures Lands(s, h, w) && Nth(s, w).Empty?
  {
    hide Settles, Lands;
    var z :| 0 <= z < |s| && s[z].Empty?;
    w := GapInTurn(s, h, z);
    EmptyLands(s, h, w);
  }

  lemma {:induction false} FirstIsNear(s: seq<Slot>, h: int, w: int, g: int)
    requires NoneBefore(s, h, w) && Lands(s, h, g) && g <= h + MAX_DIST
    ensures w <= h + MAX_DIST && w < h + |s|
  {
  }

  lemma {:induction false} StaysInRange(s0: seq<Slot>, s: seq<Slot>, h: int, x: int, i: int, w: int)
    requires Walk(s0, s, h, x, i, w) && w <= h + MAX_DIST
    ensures x - i <= MAX_DIST
  {
  }

  // ---------------------------------------------------------------- when a distance wraps

  /** In a ring of at most 65536 slots a hash that settles never wraps. */
  lemma {:induction false} SettledInRange(s0: seq<Slot>, s: seq<Slot>, h: int, x: int, i: int, w: int)
    requires Walk(s0, s, h, x, i, w) && NoneBefore(s0, h, w) && |s| <= DIST_RANGE && Ends(s0, h) && Inv(s0)
    ensures x - i <= MAX_DIST
  {
    hide Nth, Spared, Trace, Repeats, Ahead, Inv, Lands;
    if x == i + |s| && |s| == DIST_RANGE {
      SparedIff(s0, h, x, i);
      if g :| Lands(s0, h, g) {
        LandsInTurn(s0, h, g);
      } else {
        assert SomeSlotEmpty(s0) ==> false by {
          if SomeSlotEmpty(s0) {
            var g := EmptyAhead(s0, h);
          }
        }
        var g :| FirstGap(s0, h, g) && forall t {:trigger Spared(s0, t)} :: h <= t <= g ==> Spared(s0, t);
        FirstGapUnique(s0, h, g, w - |s|);
      }
    }
  }

  lemma {:induction false} LandsInTurn(s: seq<Slot>, h: int, g: int)
    requires Lands(s, h, g)
    ensures g < h + |s|
  {
  }

  /** Where the distance wraps, h does not fit, and an empty slot lies ahead. */
  lemma {:induction false} OutOfRange(s0: seq<Slot>, s: seq<Slot>, h: int, x: int, i: int, w: int) returns (z: int)
    requires Walk(s0, s, h, x, i, w) && NoneBefore(s0, h, w) && Inv(s0) && Ends(s0, h) && x - i == DIST_RANGE
    ensures !Fits(s0, h) && |s| > DIST_RANGE && h <= i && x <= z < h + |s| && Nth(s, z).Empty?
  {
    hide Nth, Repeats, Ahead, Inv, Settles;
    if |s| <= DIST_RANGE {
      SettledInRange(s0, s, h, x, i, w);
    }
    SomeLanding(s0, h);
    assert x <= w < h + |s|;
    assert !NearAt(s0, h, x) by {
      assert forall y {:trigger Nth(s0, y)} :: h <= y < x && Nth(s0, y).Live? ==> y - Nth(s0, y).pd <= i;
    }
    forall g | Lands(s0, h, g) ensures !Near(s0, h, g) {
      assert w <= g;
    }
    z := EmptyAhead(s0, h);
    assert Nth(s, z) == Nth(s0, z);
  }

  /** Some entry from the ideal slot of h to x does not lie at its distance from its ideal slot. */
  ghost predicate Ruined(s: seq<Slot>, h: int, x: int)
    requires |s| > 0
  {
    exists y :: h <= y < x && Nth(s, y).Live? && (y - Nth(s, y).pd) % |s| != Nth(s, y).h % |s|
  }

  /** A walk that has let a distance wrap: an entry before x is misplaced, or the carried one, with ideal slot i,
      claims less than its distance; and the walk will end at the empty slot z at the latest. */
  ghost predicate Lost(s: seq<Slot>, h: int, x: int, i: int, cur: nat, dist: nat, z: int) {
    && |s| > DIST_RANGE && h <= x <= z < h + |s| && Nth(s, z).Empty?
    && (Ruined(s, h, x) || (h <= i && i % |s| == cur % |s| && dist < x - i))
  }

  lemma {:induction false} RuinedUnreachable(s: seq<Slot>, h: int, x: int)
    requires |s| > 0 && Ruined(s, h, x)
    ensures !Reach(s)
  {
    var y :| h <= y < x && Nth(s, y).Live? && (y - Nth(s, y).pd) % |s| != Nth(s, y).h % |s|;
    assert !EntryOk(s, y);
  }

  lemma {:induction false} LostOn(s: seq<Slot>, h: int, x: int, i: int, cur: nat, dist: nat, z: int)
    requires Lost(s, h, x, i, cur, dist, z) && !Nth(s, x).Empty?
    ensures x < z && Lost(s, h, x + 1, i, cur, NextDist(dist), z)
  {
    hide Nth;
    assert NextDist(dist) <= dist + 1;
  }

  /** Wherever a lost walk leaves its entry, the ring is ruined. */
  lemma {:induction false} LostPut(s: seq<Slot>, h: int, x: int, i: int, cur: nat, dist: nat, z: int, v: Slot)
    requires Lost(s, h, x, i, cur, dist, z) && v.Live? && v.h == cur && v.pd == dist
    ensures Ruined(Put(s, x, v), h, x + 1)
    ensures x < z ==> Nth(Put(s, x, v), z).Empty?
  {
    hide Nth, Put;
    var s' := Put(s, x, v);
    PutNear(s, x, v, z);
    if Ruined(s, h, x) {
      var y :| h <= y < x && Nth(s, y).Live? && (y - Nth(s, y).pd) % |s| != Nth(s, y).h % |s|;
      PutNear(s, x, v, y);
      assert Nth(s', y) == Nth(s, y);
    } else {
      PutNear(s, x, v, x);
      if (x - dist) % |s| == i % |s| {
        ModInjective(x - dist, i, |s|);
      }
      assert Nth(s', x) == v;
    }
  }

  /** A lost walk that swaps stays lost. */
  lemma {:induction false} LostSwap(s: seq<Slot>, h: int, x: int, i: int, cur: nat, dist: nat, z: int, v: Slot,
      i': int, cur': nat, dist': nat)
    requires Lost(s, h, x, i, cur, dist, z) && v.Live? && v.h == cur && v.pd == dist && !Nth(s, x).Empty?
    ensures x < z && Lost(Put(s, x, v), h, x + 1, i', cur', dist', z)
  {
    hide Nth, Put, Ruined;
    LostPut(s, h, x, i, cur, dist, z, v);
  }

  // ---------------------------------------------------------------- why distances must stay within 16 bits

  /** As many entries of one hash as there are 16-bit distances, in a ring of twice the size. */
  function FullRange(): (s: seq<Slot>)
    ensures |s| == 2 * DIST_RANGE
    ensures forall i :: 0 <= i < |s| ==> s[i] == if i < DIST_RANGE then Live(|s|, i, i) else Empty
  {
    seq(2 * DIST_RANGE, i => if 0 <= i < DIST_RANGE then Live(2 * DIST_RANGE, i, i) else Empty)
  }

  /** One more entry of that hash does not fit, although half the ring is empty. */
  lemma {:induction false} DistanceWraps()
    ensures
      var s, h := FullRange(), 2 * DIST_RANGE;
      Inv(s) && Tombs(s) == 0 && NoTombRun(s) && s[DIST_RANGE].Empty? && Settles(s, h) && !Fits(s, h)
  {
    var s, n := FullRange(), 2 * DIST_RANGE;
    var x := n + DIST_RANGE;
    FullRangeInv();
    FullRangeNoTombs(s);
    assert NoTombRun(s);
    assert Nth(s, x).Empty? by { FullRangeAt(x); }
    forall y | n <= y < x ensures Nth(s, y) == Live(n, y - n, y - n) {
      FullRangeAt(y);
    }
    assert !NearAt(s, n, x);
    hide Nth, FullRange, Tombs, NoTombRun;
    EmptyLands(s, n, x);
    forall w | Lands(s, n, w) ensures !Near(s, n, w) {
      assert w >= x;
    }
  }

  lemma {:induction false} FullRangeAt(x: int)
    requires 2 * DIST_RANGE <= x < 4 * DIST_RANGE
    ensures
      var r := x - 2 * DIST_RANGE;
      Nth(FullRange(), x) == if r < DIST_RANGE then Live(2 * DIST_RANGE, r, r) else Empty
  {
    ModUnique(x, 1, x - 2 * DIST_RANGE, 2 * DIST_RANGE);
  }

  lemma {:induction false} FullRangeInv()
    ensures Inv(FullRange())
  {
    var s, n := FullRange(), 2 * DIST_RANGE;
    forall x: int ensures EntryOk(s, x) {
      var r := x % n;
      if r < DIST_RANGE {
        assert (x - r) % n == 0;
        forall z | x - r <= z < x ensures Passable(Nth(s, z), z - (x - r)) {
          assert z % n == z - (x - r);
        }
      }
    }
  }

  lemma {:induction false} FullRangeNoTombs(s: seq<Slot>)
    requires forall i :: 0 <= i < |s| ==> !s[i].Tomb?
    ensures Tombs(s) == 0
  {
    if s != [] {
      FullRangeNoTombs(s[..|s| - 1]);
    }
  }
}
