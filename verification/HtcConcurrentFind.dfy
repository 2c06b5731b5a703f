/** Find without locks, over both buckets of a key and its stash.

    Each bucket scan answers for one instant, and so do the remap decision and the stash scan; between these
    instants the table may change.  A history is the states the table goes through. */
module HtcConcurrentFind {
  import opened Options
  import opened HtcModel
  import opened HtcDisplacement
  import opened HtcSearch
  import opened HtcTable

  ghost predicate InPrimary(g: Geometry, st: State, h: nat) {
    var ph := g.place(h);
    exists p: nat :: p / BUCKET == g.primary(ph) && Matches(st, p, h, g.tag(ph), false)
  }

  ghost predicate InSecondary(g: Geometry, st: State, h: nat) {
    var ph := g.place(h);
    exists p: nat :: p / BUCKET == g.secondary(ph) && Matches(st, p, h, g.tag(ph), true)
  }

  ghost predicate InStash(st: State, h: nat) {
    exists k: nat :: |st.slots| <= k && Holds(Cells(st), st.arena, k, h)
  }

  /** The answer of a find that scans the primary bucket at instant a, reads the remap hints at b, scans the
      secondary bucket at c if they ask for it, and the stash at d. */
  ghost predicate Finds(g: Geometry, hist: seq<State>, a: nat, b: nat, c: nat, d: nat, h: nat)
    requires a <= b <= c <= d < |hist| && g.primary(g.place(h)) < |hist[b].remap|
  {
    || InPrimary(g, hist[a], h)
    || (MustCheckSecondary(hist[b].remap[g.primary(g.place(h))], g.tag(g.place(h))) && InSecondary(g, hist[c], h))
    || InStash(hist[d], h)
  }

  ghost predicate History(g: Geometry, hist: seq<State>) {
    forall k {:trigger hist[k]} :: 0 <= k < |hist| ==> Inv(g, hist[k])
  }

  /** Bucket b has the same slots, and the same records in them, in both states. */
  ghost predicate SameBucket(st: State, st': State, b: nat) {
    && |st.slots| == |st'.slots|
    && forall p: nat {:trigger st.slots[p]} :: p < |st.slots| && p / BUCKET == b ==>
         && st.slots[p] == st'.slots[p]
         && (st.slots[p].Live? && st.slots[p].idx in st'.arena ==>
               st.slots[p].idx in st.arena && st.arena[st.slots[p].idx] == st'.arena[st.slots[p].idx])
  }

  lemma {:induction false} CellIn(g: Geometry, st: State, h: nat, k: nat)
    requires Inv(g, st) && Holds(Cells(st), st.arena, k, h)
    ensures InStash(st, h) || InPrimary(g, st, h) ||
      (InSecondary(g, st, h) && g.primary(g.place(h)) < |st.remap|
       && MustCheckSecondary(st.remap[g.primary(g.place(h))], g.tag(g.place(h))))
  {
    WhereKeysAre(g, st, k, h);
    if k < |st.slots| {
      assert Cells(st)[k] == st.slots[k];
      assert Matches(st, k, h, g.tag(g.place(h)), st.slots[k].sec);
    }
  }

  /** A key that stays in one cell is found, whatever else changes. */
  lemma {:induction false} UnmovedKeyFound(g: Geometry, hist: seq<State>, a: nat, b: nat, c: nat, d: nat, h: nat,
      k: nat)
    requires History(g, hist) && a <= b <= c <= d < |hist|
    requires forall i {:trigger hist[i]} :: a <= i <= d ==>
      Holds(Cells(hist[i]), hist[i].arena, k, h) && |hist[i].slots| == |hist[a].slots|
    ensures g.primary(g.place(h)) < |hist[b].remap| && Finds(g, hist, a, b, c, d, h)
  {
    assert Inv(g, hist[a]) && Inv(g, hist[b]) && Inv(g, hist[c]) && Inv(g, hist[d]);
    hide Inv;
    StashOf(g, hist[b]);
    if k < |hist[a].slots| {
      CellMatches(g, hist[a], h, k);
      CellMatches(g, hist[b], h, k);
      CellMatches(g, hist[c], h, k);
      WhereKeysAre(g, hist[b], k, h);
    }
  }

  /** The cell of a key matches in the scan of its bucket, under the flag of that bucket. */
  lemma {:induction false} CellMatches(g: Geometry, st: State, h: nat, k: nat)
    requires Inv(g, st) && Holds(Cells(st), st.arena, k, h) && k < |st.slots|
    ensures
      var ph := g.place(h);
      var sec := k / BUCKET != g.primary(ph);
      Matches(st, k, h, g.tag(ph), sec) && (sec ==> k / BUCKET == g.secondary(ph))
  {
    WhereKeysAre(g, st, k, h);
    InvBucket(g, st, k);
    assert Cells(st)[k] == st.slots[k];
  }

  /** A key that is present when the secondary bucket is scanned is found, if the primary bucket has not
      changed since its own scan, nor its remap hints since they were read, and the key does not leave
      the stash in between. */
  lemma {:induction false} FindComplete(g: Geometry, hist: seq<State>, a: nat, b: nat, c: nat, d: nat, h: nat)
    requires History(g, hist) && a <= b <= c <= d < |hist| && Lookup(hist[c], h).Some?
    requires SameBucket(hist[a], hist[c], g.primary(g.place(h)))
    requires g.primary(g.place(h)) < |hist[b].remap| && g.primary(g.place(h)) < |hist[c].remap|
    requires hist[b].remap[g.primary(g.place(h))] == hist[c].remap[g.primary(g.place(h))]
    requires InStash(hist[c], h) ==> InStash(hist[d], h)
    ensures Finds(g, hist, a, b, c, d, h)
  {
    hide Inv;
    var st := hist[c];
    AbsentIffNone(st, h);
    var k: nat :| Holds(Cells(st), st.arena, k, h);
    CellIn(g, st, h, k);
    if InPrimary(g, st, h) {
      var ph := g.place(h);
      var p: nat :| p / BUCKET == g.primary(ph) && Matches(st, p, h, g.tag(ph), false);
      assert hist[a].slots[p] == st.slots[p];
      assert Matches(hist[a], p, h, g.tag(ph), false);
    }
  }

  lemma {:induction false} MatchHolds(st: State, p: nat, h: nat, tag: nat, sec: bool)
    requires Matches(st, p, h, tag, sec)
    ensures Holds(Cells(st), st.arena, p, h)
  {
    assert Cells(st)[p] == st.slots[p];
  }

  /** The cell k a find settles on at instant `when`: the first scan with a match decides. */
  ghost predicate Settles(g: Geometry, hist: seq<State>, a: nat, b: nat, c: nat, d: nat, h: nat, k: nat, when: nat)
    requires a <= b <= c <= d < |hist| && g.primary(g.place(h)) < |hist[b].remap|
  {
    var ph := g.place(h);
    if InPrimary(g, hist[a], h) then
      when == a && k / BUCKET == g.primary(ph) && Matches(hist[a], k, h, g.tag(ph), false)
    else if MustCheckSecondary(hist[b].remap[g.primary(ph)], g.tag(ph)) && InSecondary(g, hist[c], h) then
      when == c && k / BUCKET == g.secondary(ph) && Matches(hist[c], k, h, g.tag(ph), true)
    else
      when == d && |hist[d].slots| <= k && Holds(Cells(hist[d]), hist[d].arena, k, h)
  }

  /** What is found was there at the instant it was found, and find settles on some cell exactly when it finds. */
  lemma {:induction false} FindSound(g: Geometry, hist: seq<State>, a: nat, b: nat, c: nat, d: nat, h: nat)
    requires History(g, hist) && a <= b <= c <= d < |hist| && g.primary(g.place(h)) < |hist[b].remap|
    ensures Finds(g, hist, a, b, c, d, h) <==> exists k: nat, when: nat :: Settles(g, hist, a, b, c, d, h, k, when)
    ensures forall k: nat, when: nat :: Settles(g, hist, a, b, c, d, h, k, when) ==>
      when < |hist| && Holds(Cells(hist[when]), hist[when].arena, k, h) && Lookup(hist[when], h).Some?
  {
    hide Inv;
    if Finds(g, hist, a, b, c, d, h) {
      SettlesSomewhere(g, hist, a, b, c, d, h);
    }
    forall k: nat, when: nat | Settles(g, hist, a, b, c, d, h, k, when)
      ensures when < |hist| && Holds(Cells(hist[when]), hist[when].arena, k, h) && Lookup(hist[when], h).Some?
      ensures Finds(g, hist, a, b, c, d, h)
    {
      if when == a && InPrimary(g, hist[a], h) {
        MatchHolds(hist[a], k, h, g.tag(g.place(h)), false);
      } else if |hist[when].slots| > k {
        MatchHolds(hist[when], k, h, g.tag(g.place(h)), true);
      }
      AbsentIffNone(hist[when], h);
    }
  }

  lemma {:induction false} SettlesSomewhere(g: Geometry, hist: seq<State>, a: nat, b: nat, c: nat, d: nat, h: nat)
    requires a <= b <= c <= d < |hist| && g.primary(g.place(h)) < |hist[b].remap| && Finds(g, hist, a, b, c, d, h)
    ensures exists k: nat, when: nat :: Settles(g, hist, a, b, c, d, h, k, when)
  {
    var ph := g.place(h);
    if InPrimary(g, hist[a], h) {
      var k: nat :| k / BUCKET == g.primary(ph) && Matches(hist[a], k, h, g.tag(ph), false);
      assert Settles(g, hist, a, b, c, d, h, k, a);
    } else if MustCheckSecondary(hist[b].remap[g.primary(ph)], g.tag(ph)) && InSecondary(g, hist[c], h) {
      var k: nat :| k / BUCKET == g.secondary(ph) && Matches(hist[c], k, h, g.tag(ph), true);
      assert Settles(g, hist, a, b, c, d, h, k, c);
    } else {
      var k: nat :| |hist[d].slots| <= k && Holds(Cells(hist[d]), hist[d].arena, k, h);
      assert Settles(g, hist, a, b, c, d, h, k, d);
    }
  }

  // ---------------------------------------------------------------- a key that find misses

  /** A key that goes from its secondary to its primary bucket after the primary has been scanned is missed,
      whether the remap hints are read before the move or after it: the window lasts until the secondary
      bucket is scanned.  The key is in the table before and after. */
  lemma {:induction false} MovedKeyMissed(g: Geometry, st: State, st': State, h: nat, p: nat, p': nat, b: nat)
    requires Inv(g, st) && Inv(g, st') && b < 2 && p < |st.slots| && p' < |st'.slots|
    requires Matches(st, p, h, g.tag(g.place(h)), true) && Matches(st', p', h, g.tag(g.place(h)), false)
    ensures
      && History(g, [st, st']) && g.primary(g.place(h)) < |st.remap| == |st'.remap|
      && Lookup(st, h).Some? && Lookup(st', h).Some?
      && !Finds(g, [st, st'], 0, b, 1, 1, h)
  {
    UniqueCell(g, st, p, h);
    UniqueCell(g, st', p', h);
    hide Inv, Lookup, Cells;
    StashOf(g, st);
    StashOf(g, st');
    forall q: nat | Matches(st, q, h, g.tag(g.place(h)), false) ensures q == p {
      MatchHolds(st, q, h, g.tag(g.place(h)), false);
    }
    forall q: nat | Matches(st', q, h, g.tag(g.place(h)), true) ensures q == p' {
      MatchHolds(st', q, h, g.tag(g.place(h)), true);
    }
  }

  lemma {:induction false} UniqueCell(g: Geometry, st: State, p: nat, h: nat)
    requires Inv(g, st) && p < |st.slots| && st.slots[p].Live? && st.slots[p].idx in st.arena
    requires st.arena[st.slots[p].idx].identity == h
    ensures Lookup(st, h) == Some(st.slots[p].idx) && g.place(h) == st.arena[st.slots[p].idx].placement
    ensures forall k: nat :: Holds(Cells(st), st.arena, k, h) ==> k == p
  {
    assert Cells(st)[p] == st.slots[p];
    assert Holds(Cells(st), st.arena, p, h);
    assert BucketOk(g, st, p);
    LookupAt(st, p, h);
  }

  /** What one move does to the slots. */
  lemma {:induction false} MoveSlots(g: Geometry, st: State, moves: seq<Move>, ins: nat, n: nat)
    requires PathOk(g, st, moves, ins) && n < |moves|
    ensures
      var prev, next, m := Displace(g, st, moves, ins, n), Displace(g, st, moves, ins, n + 1), moves[n];
      && Legal(g, st, m) && |prev.slots| == |next.slots| == |st.slots| && m.from != m.to
      && next.slots == prev.slots[m.to := Filed(g, st.arena, st.slots[m.from].idx, m.to / BUCKET)][m.from := Empty]
  {
    MoveParts(g, st, moves, ins, n);
  }

  /** A later move leaves the destination of move n alone. */
  lemma {:induction false} LaterMoveElsewhere(g: Geometry, st: State, moves: seq<Move>, ins: nat, n: nat, k: nat)
    requires PathOk(g, st, moves, ins) && n < k < |moves| && moves[n].from != moves[n].to
    ensures moves[k].from != moves[n].to && moves[k].to != moves[n].to
  {
    hide Inv, Shaped;
    ShapeAt(moves, ins, n);
    ShapeAt(moves, ins, k - 1);
  }

  /** Once move n is made, its destination holds the record for good. */
  lemma {:induction false} ArrivedStays(g: Geometry, st: State, moves: seq<Move>, ins: nat, n: nat, k: nat)
    requires PathOk(g, st, moves, ins) && n < k <= |moves|
    ensures Legal(g, st, moves[n]) && |Displace(g, st, moves, ins, k).slots| == |st.slots|
    ensures Displace(g, st, moves, ins, k).slots[moves[n].to]
            == Filed(g, st.arena, st.slots[moves[n].from].idx, moves[n].to / BUCKET)
  {
    hide Inv, Shaped, PathOk, Halfway, Displace, Filed;
    MoveSlots(g, st, moves, ins, k - 1);
    if n < k - 1 {
      ArrivedStays(g, st, moves, ins, n, k - 1);
      MoveSlots(g, st, moves, ins, n);
      LaterMoveElsewhere(g, st, moves, ins, n, k - 1);
    }
  }

  /** Committing a path makes find miss every key it moves back to its primary bucket. */
  lemma {:induction false} CommitHidesKey(g: Geometry, st: State, moves: seq<Move>, ins: nat, idx: nat, n: nat, b: nat)
    requires PathOk(g, st, moves, ins) && CanFile(g, st, idx, ins / BUCKET) && n < |moves| && b < 2
    requires Legal(g, st, moves[n]) && moves[n].to / BUCKET == PrimaryOf(g, st.arena, st.slots[moves[n].from])
    ensures
      var h, st' := st.arena[st.slots[moves[n].from].idx].identity, Committed(g, st, moves, ins, idx);
      && History(g, [st, st']) && g.primary(g.place(h)) < |st.remap| == |st'.remap|
      && Lookup(st, h) == Lookup(st', h) == Some(st.slots[moves[n].from].idx)
      && !Finds(g, [st, st'], 0, b, 1, 1, h)
  {
    var m, st' := moves[n], Committed(g, st, moves, ins, idx);
    var h := st.arena[st.slots[m.from].idx].identity;
    hide Finds, Lookup, Cells;
    CommitAddsOne(g, st, moves, ins, idx);
    ArrivedStays(g, st, moves, ins, n, |moves|);
    ShapeAt(moves, ins, |moves| - 1);
    ShapeAt(moves, ins, n);
    InvBucket(g, st, m.from);
    UniqueCell(g, st, m.from, h);
    hide Inv;
    assert st'.slots[m.to] == Displace(g, st, moves, ins, |moves|).slots[m.to];
    MovedKeyMissed(g, st, st', h, m.from, m.to, b);
  }

  /** It does happen: a new key whose two buckets are full, one of them with a displaced key in it whose primary
      bucket has room. */
  lemma {:induction false} MissHappens() returns (g: Geometry, st: State, idx: nat, m: Move)
    ensures PathOk(g, st, [m], m.from) && CanFile(g, st, idx, m.from / BUCKET) && Legal(g, st, m)
    ensures BucketFull(st, g.primary(st.arena[idx].placement)) && BucketFull(st, g.secondary(st.arena[idx].placement))
    ensures m.to / BUCKET == PrimaryOf(g, st.arena, st.slots[m.from])
  {
    g, st, idx, m := CrowdedGeometry(), CrowdedState(), 24, Move(8, 0);
    CrowdedInv();
    forall k: nat ensures !Holds(Cells(st), st.arena, k, 24) {
      assert k < 24 ==> Cells(st)[k] == st.slots[k];
    }
  }

  /** Three buckets; key 8 belongs to the first, keys 16 to 23 to the last, all others to the middle one. */
  ghost function CrowdedGeometry(): (g: Geometry) {
    Geometry(3, 1, h => h, ph => if ph == 8 then 0 else if 16 <= ph < 24 then 2 else 1,
             ph => if ph < 16 then 1 else 2, ph => ph, t => 1)
  }

  /** The middle and the last bucket are full of keys 8 to 23, and key 8 is displaced. */
  ghost function CrowdedState(): (st: State) {
    State(seq(24, p requires 0 <= p => if p < 8 then Empty else Live(p, p, p == 8)),
          seq(3, b => if b == 0 then seq(8, j => 0) else seq(8, j => 1)),
          seq(3, b => if b == 0 then Remap(1, {8}) else Remap(0, {})),
          seq(32, i => Empty), [0], map i: nat | 8 <= i < 25 :: Record(i, i, 0, false, i))
  }

  lemma {:induction false} CrowdedInv()
    ensures Inv(CrowdedGeometry(), CrowdedState())
  {
    var g, st := CrowdedGeometry(), CrowdedState();
    forall b | 0 <= b < 3 ensures RemapOk(g, st, b) {
      assert Displaced(g, st, b) == if b == 0 then {8} else {};
    }
    assert StashedIn(st, 0) == {};
    forall j: nat, k: nat, h: nat | Holds(Cells(st), st.arena, j, h) && Holds(Cells(st), st.arena, k, h)
      ensures j == k
    {
      assert j < 24 ==> Cells(st)[j] == st.slots[j];
      assert k < 24 ==> Cells(st)[k] == st.slots[k];
    }
  }
}
