/** Indices, probe bounds and contents of a Robin-Hood ring. */
module RingIndex {
  import opened ModArith
  import opened RobinHood
  import opened RobinHoodWalk
  import opened RobinHoodRange

  /** The index of coordinate x + k, computed from the index of x. */
  function Step(i: nat, k: nat, n: nat): (j: nat)
    requires i < n
    ensures j < n
  {
    (i + k) % n
  }

  /** Index i is the slot at coordinate x. */
  ghost predicate At(i: nat, x: int, n: nat) {
    i < n && i == x % n
  }

  lemma {:induction false} AtHome(h: nat, n: nat)
    requires n > 0
    ensures At(h % n, h, n)
  {
  }

  lemma {:induction false} AtSelf(i: nat, n: nat)
    requires i < n
    ensures At(i, i, n)
  {
    ModUnique(i, 0, i, n);
  }

  lemma {:induction false} AtNext(i: nat, x: int, n: nat)
    requires i < n && At(i, x, n)
    ensures At(Step(i, 1, n), x + 1, n)
  {
    StepIs(i, 1, n, x);
  }

  lemma {:induction false} AtSlot(s: seq<Slot>, i: nat, x: int)
    requires At(i, x, |s|)
    ensures i < |s| && Nth(s, x) == s[i]
  {
  }

  lemma {:induction false} StepIs(i: nat, k: nat, n: nat, x: int)
    requires i < n && i == x % n
    ensures Step(i, k, n) == (x + k) % n
  {
    ModUnique(i, 0, i, n);
    ModTranslate(i, x, k, n);
  }

  /** Entries of the ring have unreserved hashes and are at most b steps from home. */
  ghost predicate Within(s: seq<Slot>, b: nat) {
    forall i :: 0 <= i < |s| && s[i].Live? ==> s[i].h >= 2 && s[i].pd <= b
  }

  lemma {:induction false} InvNonempty(s: seq<Slot>)
    requires Inv(s)
    ensures |s| > 0
  {
  }

  lemma {:induction false} NthIs(s: seq<Slot>, x: int)
    requires |s| > 0
    ensures Nth(s, x) == s[x % |s|]
  {
  }

  /** When the probe gives up at distance d, the ring holds no entry of h. */
  lemma {:induction false} NoneBeyond(s: seq<Slot>, h: nat, d: nat, violated: bool, maxProbe: nat)
    requires Inv(s)
    requires forall i :: 0 <= i < |s| && s[i].Live? && s[i].h == h ==> s[i].pd >= d
    requires !violated ==> Within(s, maxProbe)
    requires !Passable(Nth(s, h + d), d) || (!violated && d > maxProbe) || d > |s|
    ensures forall v :: (h, v) !in Entries(s)
  {
    forall v: nat ensures (h, v) !in Entries(s) {
      EntryAt(s, h, v);
      if i :| 0 <= i < |s| && s[i].Live? && s[i].h == h && s[i].val == v {
        EntryPlace(s, i);
        ProbeStops(s, h, d, i);
      }
    }
  }

  lemma {:induction false} ReachNonempty(s: seq<Slot>)
    requires Reach(s)
    ensures |s| > 0
  {
  }

  lemma {:induction false} WithinMoved(s: seq<Slot>, to: nat, from: nat, v: Slot)
    requires to < |s| && from < |s| && s[from].Live? && v.Live? && v.h == s[from].h && v.pd <= s[from].pd
    ensures forall b: nat {:trigger Within(s[to := v][from := Empty], b)} :: Within(s, b) ==>
      Within(s[to := v][from := Empty], b)
  {
  }

  lemma {:induction false} WithinCleared(s: seq<Slot>, i: nat, v: Slot)
    requires i < |s| && !v.Live?
    ensures forall b: nat {:trigger Within(s[i := v], b)} :: Within(s, b) ==> Within(s[i := v], b)
  {
  }

  lemma {:induction false} SomeEmpty(s: seq<Slot>)
    requires |Entries(s)| + Tombs(s) < |s|
    ensures exists i :: 0 <= i < |s| && s[i].Empty?
  {
    var n := |s| - 1;
    if !s[n].Empty? {
      SomeEmpty(s[..n]);
      var i :| 0 <= i < n && s[..n][i].Empty?;
      assert s[i].Empty?;
    }
  }

  lemma {:induction false} TombFree(s: seq<Slot>, i: nat)
    requires Tombs(s) == 0 && i < |s|
    ensures !s[i].Tomb?
  {
    if i < |s| - 1 {
      TombFree(s[..|s| - 1], i);
    }
  }

  lemma {:induction false} NoTombs(s: seq<Slot>)
    requires Tombs(s) == 0 && |s| > 0
    ensures NoTombRun(s)
  {
    forall x: int ensures !Nth(s, x).Tomb? {
      TombFree(s, x % |s|);
    }
  }

  lemma {:induction false} WithinPlaced(s: seq<Slot>, i: nat, v: Slot, b: nat)
    requires i < |s| && Within(s, b) && v.Live? && v.h >= 2 && v.pd <= b
    ensures Within(s[i := v], b)
    ensures s[i].Live? ==> s[i].h >= 2
  {
  }

  lemma {:induction false} WithinMore(s: seq<Slot>, b: nat)
    requires Within(s, b) && b <= MAX_DIST
    ensures Within(s, MAX_DIST)
  {
  }

  /** Consecutive slots that are not empty are that many entries and tombstones. */
  lemma {:induction false} FilledRun(s: seq<Slot>, x: int, k: nat)
    requires k <= |s| && |s| > 0 && forall y {:trigger Nth(s, y)} :: x <= y < x + k ==> !Nth(s, y).Empty?
    ensures k <= |Entries(s)| + Tombs(s)
    decreases k
  {
    hide Entries, Tombs, Nth, Put;
    if k > 0 {
      var y := x + (k - 1);
      assert !Nth(s, y).Empty?;
      var s' := Put(s, y, Empty);
      forall z | x <= z < x + (k - 1) ensures !Nth(s', z).Empty? {
        PutNear(s, y, Empty, z);
      }
      FilledRun(s', x, k - 1);
      RunShorter(s, y);
    }
  }

  lemma {:induction false} RunShorter(s: seq<Slot>, y: int)
    requires |s| > 0 && !Nth(s, y).Empty?
    ensures |Entries(Put(s, y, Empty))| + Tombs(Put(s, y, Empty)) + 1 == |Entries(s)| + Tombs(s)
  {
    hide Entries, Tombs;
    UpdateContents(s, y % |s|, Empty);
    var e, s' := Nth(s, y), Put(s, y, Empty);
    assert Entries(s') + Content(e) == Entries(s) + multiset{};
    assert |Entries(s') + Content(e)| == |Entries(s')| + |Content(e)|;
    assert |Entries(s) + multiset{}| == |Entries(s)|;
  }

  lemma {:induction false} EntriesPrefix(s: seq<Slot>, n: nat)
    requires n <= |s|
    ensures |Entries(s[..n])| <= |Entries(s)|
    decreases |s| - n
  {
    if n < |s| {
      EntriesPrefix(s, n + 1);
      EntriesSnoc(s, n);
    } else {
      assert s[..n] == s;
    }
  }

  lemma {:induction false} EntriesSnocStart(s: seq<Slot>)
    ensures Entries(s[..0]) == multiset{}
  {
  }

  lemma {:induction false} EntriesSnoc(s: seq<Slot>, i: nat)
    requires i < |s|
    ensures Entries(s[..i + 1]) == Entries(s[..i]) + Content(s[i])
  {
    assert s[..i + 1][..i] == s[..i];
  }

  lemma {:induction false} PutIs(s: seq<Slot>, x: int, v: Slot)
    requires |s| > 0
    ensures Put(s, x, v) == s[x % |s| := v]
  {
  }

  lemma {:induction false} TombsSnoc(s: seq<Slot>, i: nat)
    requires i < |s|
    ensures Tombs(s[..i + 1]) == Tombs(s[..i]) + if s[i].Tomb? then 1 else 0
  {
    assert s[..i + 1][..i] == s[..i];
  }
}
