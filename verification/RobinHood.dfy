/** Robin-Hood probing on a ring of slots, as a value.

    Slots are addressed by unrolled coordinates: coordinate x names slot x mod capacity, so that
    probe paths are intervals of integers and never wrap. */
module RobinHood {
  import opened ModArith

  datatype Slot = Empty | Tomb | Live(h: nat, pd: nat, val: nat)

  // ---------------------------------------------------------------- coordinates

  function Nth(s: seq<Slot>, x: int): (slot: Slot)
    requires |s| > 0
  {
    s[x % |s|]
  }

  lemma {:induction false} NthSame(s: seq<Slot>, x: int, y: int)
    requires |s| > 0 && x % |s| == y % |s|
    ensures Nth(s, x) == Nth(s, y)
  {
  }

  // ---------------------------------------------------------------- the invariant

  /** A probe that has come d steps may pass this slot: it is not empty, and the entry in it, if
      any, has come at least as far. */
  predicate Passable(slot: Slot, d: int) {
    !slot.Empty? && (slot.Live? ==> slot.pd >= d)
  }

  /** An entry records a distance from its ideal slot, and a probe for it gets there. */
  ghost predicate EntryOk(s: seq<Slot>, x: int)
    requires |s| > 0
  {
    var e := Nth(s, x);
    e.Live? ==>
      && e.pd <= |s|
      && (x - e.pd) % |s| == e.h % |s|
      && (forall z {:trigger Nth(s, z)} :: x - e.pd <= z < x ==> Passable(Nth(s, z), z - (x - e.pd)))
  }

  /** Every entry is reachable. */
  ghost predicate Reach(s: seq<Slot>) {
    |s| > 0 && forall x: int {:trigger EntryOk(s, x)} :: EntryOk(s, x)
  }

  /** Every distance is exact: less than a turn. */
  ghost predicate Exact(s: seq<Slot>) {
    forall i :: 0 <= i < |s| && s[i].Live? ==> s[i].pd < |s|
  }

  /** What the repository's own checker checks. */
  ghost predicate Inv(s: seq<Slot>) {
    Reach(s) && Exact(s)
  }

  /** Entries whose probe path crosses coordinate x could still cross it if it held v. */
  ghost predicate Crossable(s: seq<Slot>, x: int, v: Slot)
    requires |s| > 0
  {
    forall z {:trigger Nth(s, z)} ::
      x < z < x + |s| && Nth(s, z).Live? && z - Nth(s, z).pd <= x ==> Passable(v, x - (z - Nth(s, z).pd))
  }

  /** An entry put at coordinate x would be reachable. */
  ghost predicate Reachable(s: seq<Slot>, x: int, h: nat, pd: nat)
    requires |s| > 0
  {
    && pd <= |s| && (x - pd) % |s| == h % |s|
    && (forall z {:trigger Nth(s, z)} :: x - pd <= z < x ==> Passable(Nth(s, z), z - (x - pd)))
  }

  ghost function Put(s: seq<Slot>, x: int, v: Slot): (s': seq<Slot>)
    requires |s| > 0
    ensures |s'| == |s|
    ensures forall y: int {:trigger Nth(s', y)} :: Nth(s', y) == if y % |s| == x % |s| then v else Nth(s, y)
  {
    s[x % |s| := v]
  }

  /** One slot can change when what it becomes is reachable itself and crossable for others. */
  lemma {:induction false} PutKeepsReach(s: seq<Slot>, x: int, v: Slot)
    requires Reach(s) && Crossable(s, x, v)
    requires v.Live? ==> Reachable(s, x, v.h, v.pd)
    ensures Reach(Put(s, x, v))
  {
    var s' := Put(s, x, v);
    forall y: int ensures EntryOk(s', y) {
      if y % |s| == x % |s| {
        PutEntryItself(s, x, v, y);
      } else {
        PutOtherEntry(s, x, v, y);
      }
    }
  }

  lemma {:induction false} PutKeepsInv(s: seq<Slot>, x: int, v: Slot)
    requires Inv(s) && Crossable(s, x, v)
    requires v.Live? ==> Reachable(s, x, v.h, v.pd) && v.pd < |s|
    ensures Inv(Put(s, x, v))
  {
    hide Reach, Crossable, Reachable;
    PutKeepsReach(s, x, v);
  }

  lemma {:induction false} PutEntryItself(s: seq<Slot>, x: int, v: Slot, y: int)
    requires |s| > 0 && y % |s| == x % |s|
    requires v.Live? ==> Reachable(s, x, v.h, v.pd)
    ensures EntryOk(Put(s, x, v), y)
  {
    hide Nth, Put;
    var s' := Put(s, x, v);
    if v.Live? {
      ModTranslate(y, x, 0 - v.pd, |s|);
      forall z | y - v.pd <= z < y ensures Passable(Nth(s', z), z - (y - v.pd)) {
        ModTranslate(y, x, z - y, |s|);
        NthSame(s, z, x + (z - y));
        if z % |s| == x % |s| && y < z + |s| {
          ModInjective(z, y, |s|);
        }
        assert Passable(Nth(s, x + (z - y)), z - (y - v.pd));
      }
    }
  }

  lemma {:induction false} PutOtherEntry(s: seq<Slot>, x: int, v: Slot, y: int)
    requires Reach(s) && Crossable(s, x, v) && y % |s| != x % |s|
    ensures EntryOk(Put(s, x, v), y)
  {
    hide Nth, Put;
    var s' := Put(s, x, v);
    var e := Nth(s, y);
    assert EntryOk(s, y);
    if e.Live? {
      forall z | y - e.pd <= z < y ensures Passable(Nth(s', z), z - (y - e.pd)) {
        assert Passable(Nth(s, z), z - (y - e.pd));
        if z % |s| == x % |s| {
          if y == z + |s| {
            ModShift(z, 1, |s|);
          }
          ModTranslate(z, x, y - z, |s|);
          NthSame(s, y, x + (y - z));
        }
      }
    }
  }

  // ---------------------------------------------------------------- contents

  ghost function Content(slot: Slot): (m: multiset<(nat, nat)>) {
    if slot.Live? then multiset{(slot.h, slot.val)} else multiset{}
  }

  /** The bag of (hash, value) pairs in the ring. */
  ghost function Entries(s: seq<Slot>): (m: multiset<(nat, nat)>) {
    if s == [] then multiset{} else Entries(s[..|s| - 1]) + Content(s[|s| - 1])
  }

  ghost function Tombs(s: seq<Slot>): (n: nat) {
    if s == [] then 0 else Tombs(s[..|s| - 1]) + if s[|s| - 1].Tomb? then 1 else 0
  }

  lemma {:induction false} UpdateContents(s: seq<Slot>, i: nat, v: Slot)
    requires i < |s|
    ensures Entries(s[i := v]) + Content(s[i]) == Entries(s) + Content(v)
    ensures Tombs(s[i := v]) + (if s[i].Tomb? then 1 else 0) == Tombs(s) + if v.Tomb? then 1 else 0
  {
    hide Entries, Tombs, Content;
    UpdateEntries(s, i, v);
    UpdateTombs(s, i, v);
  }

  lemma {:induction false} UpdateEntries(s: seq<Slot>, i: nat, v: Slot)
    requires i < |s|
    ensures Entries(s[i := v]) + Content(s[i]) == Entries(s) + Content(v)
  {
    hide Content;
    var n := |s| - 1;
    if i == n {
      assert s[i := v][..n] == s[..n];
    } else {
      UpdateEntries(s[..n], i, v);
      assert s[i := v][..n] == s[..n][i := v];
      var a, b, c := Entries(s[..n][i := v]), Entries(s[..n]), Content(s[n]);
      assert Entries(s[i := v]) == a + c && Entries(s) == b + c;
      assert a + c + Content(s[i]) == a + Content(s[i]) + c;
    }
  }

  lemma {:induction false} UpdateTombs(s: seq<Slot>, i: nat, v: Slot)
    requires i < |s|
    ensures Tombs(s[i := v]) + (if s[i].Tomb? then 1 else 0) == Tombs(s) + if v.Tomb? then 1 else 0
  {
    var n := |s| - 1;
    if i == n {
      assert s[i := v][..n] == s[..n];
    } else {
      UpdateTombs(s[..n], i, v);
      assert s[i := v][..n] == s[..n][i := v];
    }
  }

  /** Replacing a slot by one with the same content. */
  lemma {:induction false} SameContents(s: seq<Slot>, i: nat, v: Slot)
    requires i < |s| && Content(v) == Content(s[i])
    ensures Entries(s[i := v]) == Entries(s)
    ensures Tombs(s[i := v]) + (if s[i].Tomb? then 1 else 0) == Tombs(s) + if v.Tomb? then 1 else 0
  {
    hide Entries, Tombs;
    UpdateContents(s, i, v);
    assert Entries(s[i := v]) == Entries(s[i := v]) + Content(v) - Content(v);
    assert Entries(s) == Entries(s) + Content(v) - Content(v);
  }

  /** Moving an entry to a slot that holds none. */
  lemma {:induction false} MovedContents(s: seq<Slot>, to: nat, from: nat, v: Slot)
    requires to < |s| && from < |s| && to != from && !s[to].Live? && v.Live? && Content(v) == Content(s[from])
    ensures Entries(s[to := v][from := Empty]) == Entries(s)
    ensures Tombs(s[to := v][from := Empty]) + (if s[to].Tomb? then 1 else 0) == Tombs(s)
  {
    hide Entries, Tombs;
    var mid := s[to := v];
    UpdateContents(s, to, v);
    UpdateContents(mid, from, Empty);
    var a, b, c := Entries(mid[from := Empty]), Entries(mid), Entries(s);
    assert a + Content(v) == b && b == c + Content(v);
    assert a == a + Content(v) - Content(v);
    assert c == c + Content(v) - Content(v);
  }

  lemma {:induction false} EntryAt(s: seq<Slot>, h: nat, v: nat)
    ensures (h, v) in Entries(s) <==> exists i :: 0 <= i < |s| && s[i].Live? && s[i].h == h && s[i].val == v
  {
    if s != [] {
      var n := |s| - 1;
      EntryAt(s[..n], h, v);
      if i :| 0 <= i < n && s[..n][i].Live? && s[..n][i].h == h && s[..n][i].val == v {
        assert s[i] == s[..n][i];
      }
      if i :| 0 <= i < |s| && s[i].Live? && s[i].h == h && s[i].val == v {
        assert i == n || s[..n][i] == s[i];
      }
    }
  }

  // ---------------------------------------------------------------- probing

  const LOOKAHEAD := 16

  /** An entry with hash h and distance d sits d steps after the ideal slot of h. */
  lemma {:induction false} EntryPlace(s: seq<Slot>, i: nat)
    requires Inv(s) && i < |s| && s[i].Live?
    ensures s[i].pd < |s| && (s[i].h + s[i].pd) % |s| == i
  {
    assert Nth(s, i) == s[i] by {
      ModUnique(i, 0, i, |s|);
    }
    assert EntryOk(s, i);
    ModTranslate(i - s[i].pd, s[i].h, s[i].pd, |s|);
    ModUnique(i, 0, i, |s|);
  }

  /** Where a probe for h stops early, no entry of h lies at or beyond. */
  lemma {:induction false} ProbeStops(s: seq<Slot>, h: nat, d: nat, i: nat)
    requires Inv(s) && i < |s| && s[i].Live? && s[i].h == h && s[i].pd >= d
    ensures Passable(Nth(s, h + d), d)
  {
    EntryPlace(s, i);
    var x, pd := h + s[i].pd, s[i].pd;
    assert Nth(s, x) == s[i];
    assert EntryOk(s, x);
    assert Passable(Nth(s, h + d), d);
  }

  /** The slot a probe stands on, seen again later by an entry of the same hash. */
  lemma {:induction false} ProbeSees(s: seq<Slot>, h: nat, d: nat, i: nat)
    requires Inv(s) && i < |s| && s[i].Live? && s[i].h == h && s[i].pd == d
    ensures Nth(s, h + d) == s[i]
  {
    EntryPlace(s, i);
  }

  /** A carried entry that has been let through a slot is reachable one step on. */
  lemma {:induction false} Advance(s: seq<Slot>, x: int, h: nat, d: nat)
    requires |s| > d && Reachable(s, x, h, d) && Passable(Nth(s, x), d)
    ensures Reachable(s, x + 1, h, d + 1)
  {
  }

  /** After a swap the displaced entry is carried on from the next slot. */
  lemma {:induction false} SwapCarry(s: seq<Slot>, x: int, h: nat, d: nat, val: nat)
    requires Reach(s) && Reachable(s, x, h, d) && Nth(s, x).Live? && Nth(s, x).pd < d
    ensures
      var e, s' := Nth(s, x), Put(s, x, Live(h, d, val));
      Reach(s') && Reachable(s', x + 1, e.h, e.pd + 1)
  {
    hide Nth, Put;
    var e, v := Nth(s, x), Live(h, d, val);
    var s' := Put(s, x, v);
    assert EntryOk(s, x);
    forall y | x < y < x + |s| && Nth(s, y).Live? && y - Nth(s, y).pd <= x
      ensures Passable(v, x - (y - Nth(s, y).pd))
    {
      assert EntryOk(s, y);
      assert Passable(Nth(s, x), x - (y - Nth(s, y).pd));
    }
    PutKeepsReach(s, x, v);
    assert Nth(s', x) == v;
    forall y | x - e.pd <= y < x ensures Passable(Nth(s', y), y - (x - e.pd)) {
      assert Passable(Nth(s, y), y - (x - e.pd));
      if y % |s| == x % |s| {
        ModInjective(y, x, |s|);
      }
    }
    assert Reachable(s', x, e.h, e.pd);
    Advance(s', x, e.h, e.pd);
  }

  /** No tombstone is followed by a full look-ahead of tombstones. */
  ghost predicate NoTombRun(s: seq<Slot>) {
    |s| > 0 && forall x: int {:trigger Nth(s, x)} :: Nth(s, x).Tomb? ==> SeenPast(s, x)
  }

  ghost predicate SeenPast(s: seq<Slot>, x: int)
    requires |s| > 0
  {
    exists y :: x < y <= x + LOOKAHEAD && !Nth(s, y).Tomb?
  }

  /** The bounded look-ahead settles who may still cross the tombstone at x: it has met an empty
      slot, or a live entry that speaks for everything behind it. */
  lemma {:induction false} LookaheadSuffices(s: seq<Slot>, x: int, v: Slot, k: nat)
    requires Reach(s) && v.Live? && 1 <= k <= LOOKAHEAD + 1
    requires forall z :: x < z < x + k ==> !Nth(s, z).Empty? && (Nth(s, z).Live? ==> Nth(s, z).pd <= v.pd + (z - x))
    requires Nth(s, x + k).Empty? || exists y :: x < y < x + k && Nth(s, y).Live?
    requires k <= LOOKAHEAD ==> Nth(s, x + k).Empty?
    ensures Crossable(s, x, v)
  {
    hide Nth;
    forall z | x < z < x + |s| && Nth(s, z).Live? && z - Nth(s, z).pd <= x
      ensures Passable(v, x - (z - Nth(s, z).pd))
    {
      assert EntryOk(s, z);
      if z >= x + k {
        if Nth(s, x + k).Empty? {
          assert false;
        } else {
          var y :| x < y < x + k && Nth(s, y).Live?;
          assert Passable(Nth(s, y), y - (z - Nth(s, z).pd));
        }
      }
    }
  }

  /** Nobody crosses an empty slot. */
  lemma {:induction false} EmptyUncrossed(s: seq<Slot>, x: int, v: Slot)
    requires Reach(s) && Nth(s, x).Empty?
    ensures Crossable(s, x, v)
  {
    hide Nth;
    forall z | x < z < x + |s| && Nth(s, z).Live? && z - Nth(s, z).pd <= x
      ensures false
    {
      Crosses(s, x, z);
    }
  }

  lemma {:induction false} Crosses(s: seq<Slot>, x: int, z: int)
    requires Reach(s) && x < z && Nth(s, z).Live? && z - Nth(s, z).pd <= x
    ensures Passable(Nth(s, x), x - (z - Nth(s, z).pd))
  {
    assert EntryOk(s, z);
  }

  /** Clearing an entry to a tombstone hinders nobody. */
  lemma {:induction false} TombKeepsInv(s: seq<Slot>, x: int)
    requires Inv(s)
    ensures Inv(Put(s, x, Tomb))
  {
    PutKeepsInv(s, x, Tomb);
  }

  // ---------------------------------------------------------------- why the look-ahead needs NoTombRun

  /** Eighteen tombstones in front of an entry that is 18 slots from home, and one behind it.  It arises
      from nineteen entries of one ideal slot and one at home behind them, by removing the first
      eighteen and then the last: none of these removals finds a chain it can close. */
  function LongTombRun(): (s: seq<Slot>)
    ensures |s| == 32
    ensures forall i :: 0 <= i < 18 ==> s[i] == Tomb
    ensures s[18] == Live(32, 18, 7) && s[19] == Tomb
    ensures forall i :: 20 <= i < 32 ==> s[i] == Empty
  {
    seq(32, i => if i < 18 || i == 19 then Tomb else if i == 18 then Live(32, 18, 7) else Empty)
  }

  /** After 16 tombstones the look-ahead gives up and lets an entry take the tombstone, although
      the invariant holds and the entry behind becomes unreachable. */
  lemma {:induction false} LongTombRunMisleads()
    ensures
      var s := LongTombRun();
      && Inv(s) && Reachable(s, 1, 33, 0) && Nth(s, 1).Tomb?
      && (forall z :: 1 < z <= 1 + LOOKAHEAD ==> Nth(s, z).Tomb?)
      && !Inv(Put(s, 1, Live(33, 0, 9)))
  {
    var s := LongTombRun();
    forall x: int ensures EntryOk(s, x) {
      if Nth(s, x).Live? {
        forall z | x - 18 <= z < x ensures Passable(Nth(s, z), z - (x - 18)) {
          assert z % 32 == 18 - (x - z);
        }
      }
    }
    var s' := Put(s, 1, Live(33, 0, 9));
    assert Nth(s', 18) == Live(32, 18, 7) && Nth(s', 1) == Live(33, 0, 9);
    assert !Passable(Nth(s', 1), 1);
    assert !EntryOk(s', 18);
  }
}
