/** The value a find without locks returns.

    Having settled on a slot, find loads it again, and takes the value of the record it names then; it starts over
    when that record is marked dead. */
module HtcFindValue {
  import opened Options
  import opened HtcModel
  import opened HtcDisplacement
  import opened HtcTable
  import opened HtcConcurrentFind

  /** The instants at which find loads the slot it settled on again, the value of the record the slot names then,
      and the flags of that record. */
  datatype Reload = Reload(slot: nat, value: nat, flags: nat)

  datatype Answer = Retry | Hit(value: nat)

  /** The index bits of a slot word; an empty word has none set. */
  function IndexOf(s: Slot): (idx: nat) {
    if s.Live? then s.idx else 0
  }

  /** A record that was never allocated is all zeros. */
  function RecordAt(st: State, idx: nat): (r: Record) {
    if idx in st.arena then st.arena[idx] else Record(0, 0, 0, false, 0)
  }

  ghost predicate InOrder(hist: seq<State>, r: Reload) {
    r.slot <= r.value <= r.flags < |hist|
  }

  ghost function Reread(hist: seq<State>, k: nat, r: Reload): (ans: Answer)
    requires InOrder(hist, r) && k < |Cells(hist[r.slot])|
  {
    var idx := IndexOf(Cells(hist[r.slot])[k]);
    if RecordAt(hist[r.flags], idx).dead then Retry else Hit(RecordAt(hist[r.value], idx).value)
  }

  /** What writers promise: a key keeps its record until the record is marked dead. */
  ghost predicate Keeps(st: State, st': State) {
    forall h {:trigger Lookup(st, h)} :: Lookup(st, h).Some? ==>
      var idx := Lookup(st, h).value;
      idx in st'.arena && st'.arena[idx].identity == h && (st'.arena[idx].dead || Lookup(st', h) == Some(idx))
  }

  /** What the epochs promise: a record a reader may hold stays dead. */
  ghost predicate NotReused(st: State, st': State, idx: nat) {
    idx in st.arena && st.arena[idx].dead ==>
      idx in st'.arena && st'.arena[idx].dead && st'.arena[idx].identity == st.arena[idx].identity
  }

  ghost predicate WriterStep(hist: seq<State>, i: nat, idx: nat)
    requires i + 1 < |hist|
  {
    Keeps(hist[i], hist[i + 1]) && NotReused(hist[i], hist[i + 1], idx)
  }

  ghost predicate Writers(hist: seq<State>, from: nat, idx: nat) {
    forall i: nat {:trigger WriterStep(hist, i, idx)} :: from <= i && i + 1 < |hist| ==> WriterStep(hist, i, idx)
  }

  lemma {:induction false} StaysUntilDead(hist: seq<State>, i: nat, j: nat, h: nat, idx: nat)
    requires Writers(hist, i, idx) && i <= j < |hist| && Lookup(hist[i], h) == Some(idx)
    ensures idx in hist[j].arena && hist[j].arena[idx].identity == h
    ensures hist[j].arena[idx].dead || Lookup(hist[j], h) == Some(idx)
    decreases j
  {
    if i < j {
      StaysUntilDead(hist, i, j - 1, h, idx);
      assert WriterStep(hist, j - 1, idx);
    }
  }

  lemma {:induction false} StaysDead(hist: seq<State>, i: nat, j: nat, idx: nat)
    requires Writers(hist, i, idx) && i <= j < |hist| && idx in hist[i].arena && hist[i].arena[idx].dead
    ensures idx in hist[j].arena && hist[j].arena[idx].dead
    decreases j
  {
    if i < j {
      StaysDead(hist, i, j - 1, idx);
      assert WriterStep(hist, j - 1, idx);
    }
  }

  lemma {:induction false} WritersLater(hist: seq<State>, i: nat, j: nat, idx: nat)
    requires Writers(hist, i, idx) && i <= j
    ensures Writers(hist, j, idx)
  {
  }

  /** Find returns the value, at the instant it is loaded, of the key whose record is in the slot when it is loaded
      again, and starts over when that key has been removed since.  So the record is that of the key sought exactly
      when the slot still holds that key, which find does not check. */
  lemma {:induction false} ValueOfReloadedKey(g: Geometry, hist: seq<State>, k: nat, r: Reload, h: nat, h': nat)
    requires History(g, hist) && InOrder(hist, r) && Holds(Cells(hist[r.slot]), hist[r.slot].arena, k, h')
    requires Writers(hist, r.slot, Cells(hist[r.slot])[k].idx)
    ensures
      var idx, ans := Cells(hist[r.slot])[k].idx, Reread(hist, k, r);
      && (ans.Hit? ==> Get(hist[r.value], h') == Some(ans.value))
      && (ans.Hit? <==> Lookup(hist[r.flags], h') == Some(idx))
      && (ans.Hit? ==> (Lookup(hist[r.value], h) == Some(idx) <==>
        Holds(Cells(hist[r.slot]), hist[r.slot].arena, k, h)))
  {
    var idx := Cells(hist[r.slot])[k].idx;
    assert Inv(g, hist[r.slot]) && Inv(g, hist[r.flags]);
    hide Inv;
    StashOf(g, hist[r.slot]);
    LookupAt(hist[r.slot], k, h');
    StaysUntilDead(hist, r.slot, r.value, h', idx);
    StaysUntilDead(hist, r.slot, r.flags, h', idx);
    WritersLater(hist, r.slot, r.value, idx);
    if hist[r.value].arena[idx].dead {
      StaysDead(hist, r.value, r.flags, idx);
    }
    if Lookup(hist[r.flags], h') == Some(idx) {
      LookedUpAlive(g, hist[r.flags], h');
    }
  }

  /** A find whose slot is the same when it is loaded again returns the value of its key. */
  lemma {:induction false} FindReturnsValue(g: Geometry, hist: seq<State>, a: nat, b: nat, c: nat, d: nat, h: nat,
      k: nat, when: nat, r: Reload)
    requires History(g, hist) && a <= b <= c <= d < |hist| && g.primary(g.place(h)) < |hist[b].remap|
    requires Settles(g, hist, a, b, c, d, h, k, when) && when <= r.slot && InOrder(hist, r)
    requires k < |Cells(hist[when])| == |Cells(hist[r.slot])| && Cells(hist[when])[k] == Cells(hist[r.slot])[k]
    requires Writers(hist, when, IndexOf(Cells(hist[when])[k]))
    ensures
      var ans := Reread(hist, k, r);
      && (ans.Hit? ==> Get(hist[r.value], h) == Some(ans.value))
      && (ans.Retry? <==> Lookup(hist[r.flags], h) != Lookup(hist[when], h))
  {
    hide Settles, Lookup;
    FindSound(g, hist, a, b, c, d, h);
    var idx := Cells(hist[when])[k].idx;
    assert Inv(g, hist[when]);
    StashOf(g, hist[when]);
    hide Inv;
    LookupAt(hist[when], k, h);
    StaysUntilDead(hist, when, r.slot, h, idx);
    WritersLater(hist, when, r.slot, idx);
    ValueOfReloadedKey(g, hist, k, r, h, h);
  }

  lemma {:induction false} LookedUpAlive(g: Geometry, st: State, h: nat)
    requires Inv(g, st) && Lookup(st, h).Some?
    ensures !st.arena[Lookup(st, h).value].dead
  {
    AbsentIffNone(st, h);
    var k: nat :| Holds(Cells(st), st.arena, k, h);
    LookupAt(st, k, h);
    WhereKeysAre(g, st, k, h);
  }

  // ---------------------------------------------------------------- writers keep their promise

  lemma {:induction false} FillPromise(g: Geometry, st: State, p: nat, idx: nat, held: nat)
    requires Inv(g, st) && p < |st.slots| && st.slots[p].Empty? && CanFile(g, st, idx, p / BUCKET)
    ensures Keeps(st, Fill(g, st, p, idx)) && NotReused(st, Fill(g, st, p, idx), held)
  {
    StashOf(g, st);
    hide Inv;
    AbsentIffNone(st, st.arena[idx].identity);
    forall h | Lookup(st, h).Some? ensures Lookup(Fill(g, st, p, idx), h) == Lookup(st, h) {
      FillLookup(g, st, p, idx, h);
    }
  }

  lemma {:induction false} CommitPromise(g: Geometry, st: State, moves: seq<Move>, ins: nat, idx: nat, held: nat)
    requires PathOk(g, st, moves, ins) && CanFile(g, st, idx, ins / BUCKET)
    ensures
      Keeps(st, Committed(g, st, moves, ins, idx)) && NotReused(st, Committed(g, st, moves, ins, idx), held)
  {
    hide Inv;
    AbsentIffNone(st, st.arena[idx].identity);
    CommitAddsOne(g, st, moves, ins, idx);
  }

  /** The state after the key in cell k has been removed. */
  ghost function Removed(g: Geometry, st: State, k: nat): (st': State)
    requires Sized(g, st) && k < |Cells(st)| && Cells(st)[k].Live? && Cells(st)[k].idx in st.arena
    requires k >= |st.slots| ==> st.stashLive[(k - |st.slots|) / STASH] > 0
  {
    var idx := Cells(st)[k].idx;
    Emptied(g, st, k).(arena := st.arena[idx := st.arena[idx].(dead := true)])
  }

  lemma {:induction false} RemovePromise(g: Geometry, st: State, k: nat, h: nat, held: nat)
    requires Inv(g, st) && Holds(Cells(st), st.arena, k, h)
    ensures k >= |st.slots| ==> st.stashLive[(k - |st.slots|) / STASH] > 0
    ensures
      var st' := Removed(g, st, k);
      Inv(g, st') && Keeps(st, st') && NotReused(st, st', held) && Lookup(st', h) == None
  {
    hide Inv;
    StashOf(g, st);
    EmptiedKeeps(g, st, k, h);
    var idx, mid := Cells(st)[k].idx, Emptied(g, st, k);
    var r := st.arena[idx].(dead := true);
    ArenaKeepsInv(g, mid, idx, r);
    LookupAt(st, k, h);
    forall h' ensures Lookup(Removed(g, st, k), h') == if h' == h then None else Lookup(st, h') {
      ArenaLookup(g, mid, idx, r, h');
    }
  }

  /** Changing a value, filling in a fresh record, and taking back one that is not the reader's. */
  lemma {:induction false} ArenaPromise(g: Geometry, st: State, idx: nat, r: Record, held: nat)
    requires Inv(g, st) && Harmless(st, idx, r)
    requires idx == held && idx in st.arena && st.arena[idx].dead ==> r.dead && r.identity == st.arena[idx].identity
    ensures
      var st' := st.(arena := st.arena[idx := r]);
      Keeps(st, st') && NotReused(st, st', held)
  {
    var st' := st.(arena := st.arena[idx := r]);
    hide Inv;
    forall h | Lookup(st, h).Some? ensures
      Lookup(st', h) == Lookup(st, h)
    {
      ArenaLookup(g, st, idx, r, h);
    }
  }

  // ---------------------------------------------------------------- another key's value

  /** If, after the scan, the key is removed and another is published in its lane, find returns the other key's
      value; if nothing is published yet, it returns the value of record 0. */
  lemma {:induction false} ReusedLaneMisread(g: Geometry, st: State, p: nat, h: nat, idx: nat)
    requires Inv(g, st) && p < |st.slots| && Holds(Cells(st), st.arena, p, h)
    requires CanFile(g, Removed(g, st, p), idx, p / BUCKET) && st.arena[idx].identity != h
    ensures
      var st1 := Removed(g, st, p);
      var st2 := Fill(g, st1, p, idx);
      var hist := [st, st1, st2];
      && History(g, hist) && Writers(hist, 0, idx) && |Cells(st2)| == |Cells(st1)| == |Cells(st)|
      && Reread(hist, p, Reload(2, 2, 2)) == Hit(st.arena[idx].value)
      && Get(st2, h) == None && Get(st2, st.arena[idx].identity) == Some(st.arena[idx].value)
      && Reread(hist, p, Reload(1, 1, 1)) ==
         (if RecordAt(st1, 0).dead then Retry else Hit(RecordAt(st1, 0).value))
  {
    StashOf(g, st);
    hide Inv;
    RemovePromise(g, st, p, h, idx);
    var st1 := Removed(g, st, p);
    StashOf(g, st1);
    var st2 := Fill(g, st1, p, idx);
    FillPromise(g, st1, p, idx, idx);
    FillKeepsInv(g, st1, p, idx);
    FillLookup(g, st1, p, idx, h);
    FillLookup(g, st1, p, idx, st.arena[idx].identity);
    assert WriterStep([st, st1, st2], 0, idx) && WriterStep([st, st1, st2], 1, idx);
  }

  /** One bucket; key 5 is removed and key 6 takes its lane, and find of 5 returns the 60 stored under 6. */
  lemma {:induction false} MisreadHappens() returns (g: Geometry, st: State)
    ensures Inv(g, st) && InPrimary(g, st, 5) && Holds(Cells(st), st.arena, 0, 5)
    ensures CanFile(g, Removed(g, st, 0), 2, 0) && st.arena[2].identity == 6 && st.arena[2].value == 60
  {
    g := Geometry(1, 1, h => h, ph => 0, ph => 0, ph => 1, t => 7);
    var none := State(seq(8, i => Empty), [seq(8, i => 0)], [Remap(0, {})], seq(32, i => Empty), [0],
                      map[1 := Record(5, 5, 0, false, 50), 2 := Record(6, 6, 0, false, 60)]);
    assert forall k :: 0 <= k < |Cells(none)| ==> Cells(none)[k].Empty?;
    EmptyInv(g, none);
    assert CanFile(g, none, 1, 0);
    FillKeepsInv(g, none, 0, 1);
    st := Fill(g, none, 0, 1);
    assert Cells(st)[0] == st.slots[0];
    assert Matches(st, 0, 5, 1, false);
    var st1 := Removed(g, st, 0);
    assert forall k :: 0 <= k < |Cells(st1)| ==> Cells(st1)[k].Empty?;
  }
}
