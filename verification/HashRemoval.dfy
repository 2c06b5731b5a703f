/** Removing every entry of a hash: how far the search gets, and what it leaves behind. */
module HashRemoval {
  import opened ModArith
  import opened RobinHood
  import opened RobinHoodWalk
  import opened RingIndex

  /** The entries of hash g are between d and far steps from home. */
  ghost predicate Span(s: seq<Slot>, g: nat, d: nat, far: nat) {
    forall i :: 0 <= i < |s| && s[i].Live? && s[i].h == g ==> d <= s[i].pd <= far
  }

  /** No slot in the reach of a compaction after idx is empty. */
  ghost predicate FilledAhead(s: seq<Slot>, idx: nat) {
    |s| > 0 && forall z {:trigger Nth(s, z)} :: idx < z <= idx + LOOKAHEAD ==> !Nth(s, z).Empty?
  }

  lemma {:induction false} StillFilled(s: seq<Slot>, i: nat, v: Slot)
    requires i < |s| && !v.Empty?
    ensures FilledAhead(s, i) ==> FilledAhead(s[i := v], i)
  {
    if FilledAhead(s, i) {
      forall z {:trigger Nth(s[i := v], z)} | i < z <= i + LOOKAHEAD ensures !Nth(s[i := v], z).Empty? {
        assert !Nth(s, z).Empty?;
      }
    }
  }

  /** A bound on the distances of a hash. */
  ghost function FarthestIn(s: seq<Slot>, g: nat): (far: nat)
    ensures Span(s, g, 0, far)
  {
    if s == [] then 0
    else
      var n := |s| - 1;
      var far := FarthestIn(s[..n], g);
      assert forall i :: 0 <= i < n ==> s[i] == s[..n][i];
      if s[n].Live? && s[n].pd > far then s[n].pd else far
  }

  lemma {:induction false} SpanMoved(s: seq<Slot>, to: nat, from: nat, v: Slot, g: nat, d: nat, far: nat)
    requires to < |s| && from < |s| && s[from].Live? && v.Live? && v.h == s[from].h && v.pd <= s[from].pd
    requires Span(s, g, d, far) && (v.h == g ==> d <= v.pd)
    ensures Span(s[to := v][from := Empty], g, d, far)
  {
  }

  lemma {:induction false} SpanCleared(s: seq<Slot>, i: nat, v: Slot, g: nat, d: nat, far: nat)
    requires i < |s| && !v.Live? && Span(s, g, d, far)
    ensures Span(s[i := v], g, d, far)
  {
  }

  /** An entry of g that lies k slots beyond the one d steps from home is k steps farther. */
  lemma {:induction false} Beyond(s: seq<Slot>, g: nat, d: nat, far: nat, x: int, k: nat)
    requires Inv(s) && Span(s, g, d, far) && x % |s| == (g + d) % |s| && 0 < k < |s|
    requires Nth(s, x + k).Live? && Nth(s, x + k).h == g
    ensures d + k <= Nth(s, x + k).pd
  {
    var e, n := Nth(s, x + k), |s|;
    assert d <= e.pd;
    assert EntryOk(s, x + k);
    ExactAt(s, x + k);
    hide Nth, Inv, Span;
    ModTranslate(x, g + d, k - e.pd, n);
    ModTranslate(g, x + k - e.pd, 0, n);
    ModTranslate(g + d + k - e.pd, g, e.pd - d - g, n);
    ModInjective(k, e.pd - d, n) by {
      assert g + d + k - e.pd + (e.pd - d - g) == k && g + (e.pd - d - g) == e.pd - d;
    }
  }

  ghost predicate OfHash(q: multiset<(nat, nat)>, h: nat) {
    forall p :: p in q ==> p.0 == h
  }

  /** There are at most m pairs of hash h. */
  ghost predicate AtMost(e: multiset<(nat, nat)>, h: nat, m: nat) {
    forall q: multiset<(nat, nat)> {:trigger OfHash(q, h)} :: q <= e && OfHash(q, h) ==> |q| <= m
  }

  lemma {:induction false} LaneGone(e: multiset<(nat, nat)>, rest: multiset<(nat, nat)>, gone: multiset<(nat, nat)>,
      o: multiset<(nat, nat)>)
    ensures e + rest + o + gone == e + (rest + gone) + o
  {
  }

  lemma {:induction false} RingAndStashGone(e: multiset<(nat, nat)>, g1: multiset<(nat, nat)>, sp: multiset<(nat, nat)>,
                                            rest: multiset<(nat, nat)>, g2: multiset<(nat, nat)>, h: nat)
    requires OfHash(g1, h) && OfHash(g2, h)
    ensures e + sp + rest + (g1 + g2) == (e + g1) + sp + (rest + g2) && OfHash(g1 + g2, h)
    ensures |g1 + g2| == |g1| + |g2|
  {
  }

  lemma {:induction false} NowhereLeft(e: multiset<(nat, nat)>, sp: seq<(nat, nat)>, rest: seq<(nat, nat)>, h: nat)
    requires h >= 2 && (forall i :: 0 <= i < |sp| ==> sp[i].0 < 2) && (forall x :: x in rest ==> x.0 != h)
    ensures (forall v :: (h, v) !in e) ==> forall v :: (h, v) !in e + multiset(sp) + multiset(rest)
  {
    forall v ensures (h, v) !in multiset(sp) && (h, v) !in multiset(rest) {
      assert (h, v) !in sp && (h, v) !in rest;
    }
  }

  lemma {:induction false} GoneSize(e: multiset<(nat, nat)>, gone: multiset<(nat, nat)>, all: multiset<(nat, nat)>)
    requires e + gone == all
    ensures |e| + |gone| == |all|
  {
  }

  lemma {:induction false} NoneOfHash(h: nat)
    ensures OfHash(multiset{}, h)
  {
  }

  lemma {:induction false} OneMoreGone(was: multiset<(nat, nat)>, now: multiset<(nat, nat)>, gone: multiset<(nat, nat)>,
                                       all: multiset<(nat, nat)>, h: nat, v: nat)
    requires (h, v) in was && now == was - multiset{(h, v)} && was + gone == all && OfHash(gone, h)
    ensures now + (gone + multiset{(h, v)}) == all && OfHash(gone + multiset{(h, v)}, h)
  {
  }

  /** When the loop has used all its steps, nothing of h is left if they suffice. */
  lemma {:induction false} StepsSuffice(s: seq<Slot>, gone: multiset<(nat, nat)>, all: multiset<(nat, nat)>, h: nat,
      d: nat, far: nat, m: nat, removed: nat)
    requires Span(s, h, d, far) && Entries(s) + gone == all && |gone| == removed && OfHash(gone, h)
    requires d + removed == |s| + 1
    ensures AtMost(all, h, m) && far + m <= |s| + 1 ==> forall v :: (h, v) !in Entries(s)
  {
    hide Entries;
    forall v: nat ensures AtMost(all, h, m) && far + m <= |s| + 1 ==> (h, v) !in Entries(s) {
      EntryAt(s, h, v);
      var q := gone + multiset{(h, v)};
      assert OfHash(q, h) && ((h, v) in Entries(s) ==> q <= all);
    }
  }

  /** When a probe for h stops at distance d, nothing of h is left. */
  lemma {:induction false} SpanNone(s: seq<Slot>, h: nat, d: nat, far: nat)
    requires Inv(s) && Span(s, h, d, far) && !Passable(Nth(s, h + d), d)
    ensures forall v :: (h, v) !in Entries(s)
  {
    NoneBeyond(s, h, d, true, 0);
  }

  lemma {:induction false} SpanPassed(s: seq<Slot>, h: nat, d: nat, far: nat)
    requires Inv(s) && Span(s, h, d, far) && (Nth(s, h + d).Live? ==> Nth(s, h + d).h != h)
    ensures Span(s, h, d + 1, far)
  {
    hide Nth, Inv;
    forall i | 0 <= i < |s| && s[i].Live? && s[i].h == h ensures d + 1 <= s[i].pd {
      if s[i].pd == d {
        ProbeSees(s, h, d, i);
      }
    }
  }

  ghost predicate NoEmpty(s: seq<Slot>) {
    forall i :: 0 <= i < |s| ==> !s[i].Empty?
  }

  /** No slot is empty, and some entry of h is as far from home as far. */
  ghost predicate Crowded(s: seq<Slot>, h: nat, far: nat) {
    NoEmpty(s) && far < |s| && Nth(s, h + far).Live? && Nth(s, h + far).h == h
  }

  /** The farthest entry is still ahead, or it was the last to go. */
  ghost predicate Lasting(s0: seq<Slot>, s: seq<Slot>, h: nat, d: nat, far: nat, removed: nat) {
    |s0| == |s| && (Crowded(s0, h, far) ==>
      && NoEmpty(s)
      && (|| (d <= far && Nth(s, h + far) == Nth(s0, h + far))
          || (far + removed <= |s| + 1 && forall i :: 0 <= i < |s| && s[i].Live? ==> s[i].h != h)))
  }

  /** What is known of the loop, for the two exact statements about it. */
  ghost predicate Progress(s0: seq<Slot>, s: seq<Slot>, h: nat, d: nat, far: nat, removed: nat) {
    (Floods(s0, h) ==> Clearing(s0, s, h, d, removed)) && Lasting(s0, s, h, d, far, removed)
  }

  lemma {:induction false} ProgressStart(s: seq<Slot>, h: nat, far: nat)
    requires |s| > 0
    ensures Progress(s, s, h, 0, far, 0)
  {
    ClearingStart(s, h);
    LastingStart(s, h, far);
  }

  lemma {:induction false} ProgressPass(s0: seq<Slot>, s: seq<Slot>, h: nat, d: nat, far: nat, removed: nat)
    requires |s| > 0 && Progress(s0, s, h, d, far, removed) && d + removed <= |s|
    requires Nth(s, h + d).Live? ==> Nth(s, h + d).h != h
    ensures Progress(s0, s, h, d + 1, far, removed)
  {
    hide Nth, Floods, Clearing, Lasting;
    if Floods(s0, h) {
      ClearingPass(s0, s, h, d, removed);
    }
    LastingPass(s0, s, h, d, far, removed);
  }

  lemma {:induction false} ProgressDelete(s0: seq<Slot>, s: seq<Slot>, s': seq<Slot>, idx: nat, h: nat, d: nat,
      far: nat,
      removed: nat)
    requires Inv(s) && Span(s, h, d, far) && Progress(s0, s, h, d, far, removed) && d + removed <= |s| == |s'|
    requires At(idx, h + d, |s|) && s[idx].Live? && s[idx].h == h
    requires FilledAhead(s, idx) ==> s' == s[idx := Tomb]
    ensures Progress(s0, s', h, d, far, removed + 1)
  {
    hide Nth, Floods, Clearing, Lasting, Span, Inv, FilledAhead, Crowded;
    AtSlot(s, idx, h + d);
    if Floods(s0, h) {
      ClearingStep(s0, s, s', idx, h, d, removed);
    }
    LastingDelete(s0, s, s', idx, h, d, far, removed);
  }

  /** A probe that stops early has not stopped too early. */
  lemma {:induction false} ProgressStops(s0: seq<Slot>, s: seq<Slot>, h: nat, d: nat, far: nat, removed: nat)
    requires |s| > 0 && Progress(s0, s, h, d, far, removed) && Span(s, h, d, far) && d + removed <= |s|
    requires !Passable(Nth(s, h + d), d)
    ensures !Floods(s0, h)
    ensures Crowded(s0, h, far) && (forall v :: (h, v) !in Entries(s)) ==> far + removed <= |s| + 1
  {
    hide Nth, Floods, Clearing, Lasting, Span, Entries, Crowded;
    if Floods(s0, h) {
      ClearingGoesOn(s0, s, h, d, far, removed);
    }
    LastingEnd(s0, s, h, d, far, removed);
  }

  lemma {:induction false} ProgressEnd(s0: seq<Slot>, s: seq<Slot>, h: nat, d: nat, far: nat, removed: nat)
    requires |s| > 0 && Progress(s0, s, h, d, far, removed) && d + removed == |s| + 1
    ensures Floods(s0, h) ==> removed == |s| / 2 + 1
    ensures Crowded(s0, h, far) && (forall v :: (h, v) !in Entries(s)) ==> far + removed <= |s| + 1
  {
    hide Nth, Floods, Clearing, Lasting, Entries, Crowded;
    if Floods(s0, h) {
      ClearingEnd(s0, s, h, d, removed);
    }
    LastingEnd(s0, s, h, d, far, removed);
  }

  lemma {:induction false} LastingStart(s: seq<Slot>, h: nat, far: nat)
    ensures Lasting(s, s, h, 0, far, 0)
  {
  }

  lemma {:induction false} LastingPass(s0: seq<Slot>, s: seq<Slot>, h: nat, d: nat, far: nat, removed: nat)
    requires |s| > 0 && Lasting(s0, s, h, d, far, removed) && (Nth(s, h + d).Live? ==> Nth(s, h + d).h != h)
    ensures Lasting(s0, s, h, d + 1, far, removed)
  {
    hide Nth;
  }

  /** Removing an entry where nothing is empty leaves everything else; the farthest one is the last. */
  lemma {:induction false} LastingDelete(s0: seq<Slot>, s: seq<Slot>, s': seq<Slot>, idx: nat, h: nat, d: nat, far: nat,
      removed: nat)
    requires Inv(s) && Span(s, h, d, far) && Lasting(s0, s, h, d, far, removed) && d + removed <= |s| == |s'|
    requires At(idx, h + d, |s|) && s[idx].Live? && s[idx].h == h
    requires FilledAhead(s, idx) ==> s' == s[idx := Tomb]
    ensures Lasting(s0, s', h, d, far, removed + 1)
  {
    if Crowded(s0, h, far) {
      assert FilledAhead(s, idx);
      if d < far {
        PutIs(s, h + d, Tomb);
        PutNear(s, h + d, Tomb, h + far);
      } else {
        forall i | 0 <= i < |s| && s'[i].Live? ensures s'[i].h != h {
          if s'[i].h == h {
            ProbeSees(s, h, d, i);
            EntryPlace(s, i);
          }
        }
      }
    }
  }

  lemma {:induction false} LastingEnd(s0: seq<Slot>, s: seq<Slot>, h: nat, d: nat, far: nat, removed: nat)
    requires |s| > 0 && Lasting(s0, s, h, d, far, removed)
    ensures Crowded(s0, h, far) && (forall v :: (h, v) !in Entries(s)) ==> far + removed <= |s| + 1
  {
    hide Entries;
    if Crowded(s0, h, far) && Nth(s, h + far) == Nth(s0, h + far) {
      EntryAt(s, h, Nth(s, h + far).val);
    }
  }

  /** The hash fills half the ring and a look-ahead more, from its ideal slot on. */
  ghost predicate Floods(s: seq<Slot>, h: nat) {
    && |s| % 2 == 0 && 2 * LOOKAHEAD <= |s|
    && forall k {:trigger Nth(s, k)} :: h <= k < h + |s| / 2 + LOOKAHEAD ==> Nth(s, k).Live? && Nth(s, k).h == h
  }

  /** A flooded ring while the loop runs: tombstones as far as it has removed, the rest untouched. */
  ghost predicate Clearing(s0: seq<Slot>, s: seq<Slot>, h: nat, d: nat, removed: nat) {
    && |s0| == |s| > 0 && removed <= |s| / 2 + 1
    && (removed == d || removed == d + 1)
    && (removed <= |s| / 2 ==> forall k {:trigger Nth(s, k)} :: h <= k < h + |s| / 2 + LOOKAHEAD ==>
          Nth(s, k) == if k < h + removed then Tomb else Nth(s0, k))
    && (removed == |s| / 2 + 1 ==> d == |s| / 2)
  }

  lemma {:induction false} ClearingStart(s: seq<Slot>, h: nat)
    requires |s| > 0
    ensures Clearing(s, s, h, 0, 0)
  {
    hide Nth;
  }

  lemma {:induction false} ClearingGoesOn(s0: seq<Slot>, s: seq<Slot>, h: nat, d: nat, far: nat, removed: nat)
    requires Floods(s0, h) && Clearing(s0, s, h, d, removed) && Span(s, h, d, far) && d + removed <= |s|
    ensures Passable(Nth(s, h + d), d)
  {
  }

  lemma {:induction false} ClearingPass(s0: seq<Slot>, s: seq<Slot>, h: nat, d: nat, removed: nat)
    requires Floods(s0, h) && Clearing(s0, s, h, d, removed) && d + removed <= |s|
    requires Nth(s, h + d).Live? ==> Nth(s, h + d).h != h
    ensures Clearing(s0, s, h, d + 1, removed)
  {
    hide Nth;
    assert Nth(s0, h + d).Live? && Nth(s0, h + d).h == h;
  }

  /** Until half the ring has gone, removing an entry does not set off a compaction. */
  lemma {:induction false} ClearingStep(s0: seq<Slot>, s: seq<Slot>, s': seq<Slot>, idx: nat, h: nat, d: nat,
      removed: nat)
    requires Floods(s0, h) && Clearing(s0, s, h, d, removed) && d + removed <= |s| == |s'|
    requires At(idx, h + d, |s|) && Nth(s, h + d).Live?
    requires FilledAhead(s, idx) ==> s' == s[idx := Tomb]
    ensures Clearing(s0, s', h, d, removed + 1)
  {
    hide Nth;
    var n, x := |s|, h + d;
    if removed < n / 2 {
      forall z {:trigger Nth(s, z)} | idx < z <= idx + LOOKAHEAD ensures !Nth(s, z).Empty? {
        var k := x + (z - idx);
        ModUnique(idx, 0, idx, n);
        ModTranslate(idx, x, z - idx, n);
        NthSame(s, z, k);
        assert Nth(s, k) == Nth(s0, k);
      }
      PutIs(s, x, Tomb);
      forall k {:trigger Nth(s', k)} | h <= k < h + n / 2 + LOOKAHEAD
        ensures Nth(s', k) == if k < h + (removed + 1) then Tomb else Nth(s0, k)
      {
        PutNear(s, x, Tomb, k);
      }
    }
  }

  lemma {:induction false} ClearingEnd(s0: seq<Slot>, s: seq<Slot>, h: nat, d: nat, removed: nat)
    requires Floods(s0, h) && Clearing(s0, s, h, d, removed) && d + removed == |s| + 1
    ensures removed == |s| / 2 + 1
  {
  }

  /** Forty-eight pairs of one hash in a ring of 64. */
  function FloodedRing(): (s: seq<Slot>)
    ensures |s| == 64
    ensures forall i :: 0 <= i < 64 ==> s[i] == if i < 48 then Live(64, i, i) else Empty
  {
    seq(64, i => if 0 <= i < 48 then Live(64, i, i) else Empty)
  }

  /** Removing that hash takes 33 of the 48 pairs and leaves 15. */
  lemma {:induction false} FloodedRingKeepsSome()
    ensures
      var s := FloodedRing();
      Inv(s) && Tombs(s) == 0 && Floods(s, 64) && |Entries(s)| == 48 && |s| / 2 + 1 == 33
  {
    var s := FloodedRing();
    FloodedInv();
    FloodedEntries(s, 64);
    assert s[..64] == s;
    hide Entries, Tombs, Inv;
    forall k | 64 <= k < 112 ensures Nth(s, k) == Live(64, k - 64, k - 64) {
      assert k % 64 == k - 64;
    }
  }

  lemma {:induction false} FloodedInv()
    ensures Inv(FloodedRing())
  {
    var s := FloodedRing();
    forall x: int ensures EntryOk(s, x) {
      var r := x % 64;
      if r < 48 {
        assert (x - r) % 64 == 0;
        forall z | x - r <= z < x ensures Passable(Nth(s, z), z - (x - r)) {
          assert z % 64 == z - (x - r);
        }
      }
    }
  }

  lemma {:induction false} FloodedEntries(s: seq<Slot>, n: nat)
    requires n <= |s| == 64 && forall i :: 0 <= i < 64 ==> s[i] == if i < 48 then Live(64, i, i) else Empty
    ensures |Entries(s[..n])| == (if n < 48 then n else 48) && Tombs(s[..n]) == 0
  {
    if n > 0 {
      FloodedEntries(s, n - 1);
      EntriesSnoc(s, n - 1);
      TombsSnoc(s, n - 1);
      hide Entries, Tombs;
      var e := Content(s[n - 1]);
      assert |Entries(s[..n - 1]) + e| == |Entries(s[..n - 1])| + |e|;
    }
  }
}
