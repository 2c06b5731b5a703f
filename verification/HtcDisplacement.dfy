/** Cuckoo displacement: a validated path of moves, committed from the vacancy backward. */
module HtcDisplacement {
  import opened Options
  import opened HtcModel

  /** The record in slot `from` goes to slot `to`. */
  datatype Move = Move(from: nat, to: nat)

  /** A source must be live and sit in one of its two buckets; the destination must be the other. */
  ghost predicate Legal(g: Geometry, st: State, m: Move) {
    && m.from < |st.slots| && m.to < |st.slots|
    && st.slots[m.from].Live? && st.slots[m.from].idx in st.arena
    && var p, s := PrimaryOf(g, st.arena, st.slots[m.from]), SecondaryOf(g, st.arena, st.slots[m.from]);
       && (m.from / BUCKET == p || m.from / BUCKET == s)
       && (m.to / BUCKET == p || m.to / BUCKET == s)
       && m.from / BUCKET != m.to / BUCKET
  }

  /** The shape build_path gives a path: each move fills the slot the previous one freed, the
      new entry takes the last freed slot, and no bucket is visited twice. */
  ghost predicate Shaped(moves: seq<Move>, ins: nat) {
    && (forall i {:trigger moves[i]} :: 0 < i < |moves| ==> moves[i].to == moves[i - 1].from)
    && (|moves| > 0 ==> ins == moves[|moves| - 1].from)
    && (forall i, j :: 0 <= i < j < |moves| ==> moves[i].from / BUCKET != moves[j].from / BUCKET)
    && (forall i :: 0 <= i < |moves| ==> moves[i].from / BUCKET != moves[0].to / BUCKET)
  }

  /** What validate_path_locked checks. */
  ghost predicate Validated(g: Geometry, st: State, moves: seq<Move>, ins: nat) {
    && ins < |st.slots|
    && (if moves == [] then st.slots[ins].Empty?
        else moves[0].to < |st.slots| && st.slots[moves[0].to].Empty?)
    && (forall i :: 0 <= i < |moves| ==> Legal(g, st, moves[i]))
  }

  ghost function Relocate(g: Geometry, st: State, m: Move): (st': State)
    requires Sized(g, st) && Legal(g, st, m)
    ensures Sized(g, st') && st'.arena == st.arena
  {
    Fill(g, Vacate(g, st, m.from), m.to, st.slots[m.from].idx)
  }

  /** One move keeps the invariant and the map. */
  lemma {:induction false} RelocateKeeps(g: Geometry, st: State, m: Move)
    requires Inv(g, st) && Legal(g, st, m) && st.slots[m.to].Empty?
    ensures Inv(g, Relocate(g, st, m))
    ensures forall h :: Lookup(Relocate(g, st, m), h) == Lookup(st, h)
  {
    hide Inv;
    StashOf(g, st);
    InvBucket(g, st, m.from);
    var idx := st.slots[m.from].idx;
    var key := st.arena[idx].identity;
    var mid := Vacate(g, st, m.from);
    VacateKeepsInv(g, st, m.from);
    VacateLookup(g, st, m.from, key);
    FillKeepsInv(g, mid, m.to, idx);
    assert Holds(Cells(st), st.arena, m.from, key);
    LookupAt(st, m.from, key);
    forall h ensures Lookup(Relocate(g, st, m), h) == Lookup(st, h) {
      VacateLookup(g, st, m.from, h);
      FillLookup(g, mid, m.to, idx, h);
    }
  }

  lemma {:induction false} InvBucket(g: Geometry, st: State, p: nat)
    requires Inv(g, st) && p < |st.slots|
    ensures Sized(g, st) && BucketOk(g, st, p)
  {
  }

  lemma {:induction false} RelocateFrame(g: Geometry, st: State, m: Move)
    requires Sized(g, st) && Legal(g, st, m)
    ensures
      var st' := Relocate(g, st, m);
      && st'.slots == st.slots[m.from := Empty][m.to := st'.slots[m.to]]
      && st'.stash == st.stash && st'.stashLive == st.stashLive && st'.arena == st.arena
  {
  }

  lemma {:induction false} LegalKept(g: Geometry, st: State, st': State, m: Move)
    requires Legal(g, st, m) && |st'.slots| == |st.slots| && st'.arena == st.arena
    requires st'.slots[m.from] == st.slots[m.from]
    ensures Legal(g, st', m)
  {
  }

  ghost predicate PathOk(g: Geometry, st: State, moves: seq<Move>, ins: nat) {
    Inv(g, st) && Validated(g, st, moves, ins) && Shaped(moves, ins)
  }

  /** What holds after n moves: the map is as before, the sources still to be moved have not
      been touched, and the slot the next move (or the new entry) goes to is empty. */
  ghost predicate Halfway(g: Geometry, st: State, moves: seq<Move>, ins: nat, n: nat, st': State) {
    && Inv(g, st') && Sized(g, st') && st'.arena == st.arena && |st'.slots| == |st.slots|
    && st'.stash == st.stash && st'.stashLive == st.stashLive
    && (forall h :: Lookup(st', h) == Lookup(st, h))
    && n <= |moves|
    && (forall i :: n <= i < |moves| ==>
      moves[i].from < |st.slots| && st'.slots[moves[i].from] == st.slots[moves[i].from])
    && var next := if n < |moves| then moves[n].to else ins; next < |st'.slots| && st'.slots[next].Empty?
  }

  lemma {:induction false} HalfwayStart(g: Geometry, st: State, moves: seq<Move>, ins: nat)
    requires PathOk(g, st, moves, ins)
    ensures Halfway(g, st, moves, ins, 0, st)
  {
    hide Inv;
    StashOf(g, st);
    forall i | 0 <= i < |moves| ensures moves[i].from < |st.slots| {
      assert Legal(g, st, moves[i]);
    }
  }

  lemma {:induction false} ShapeAt(moves: seq<Move>, ins: nat, n: nat)
    requires Shaped(moves, ins) && n < |moves|
    ensures (if n + 1 < |moves| then moves[n + 1].to else ins) == moves[n].from
    ensures forall i :: n < i < |moves| ==> moves[i].from != moves[n].from && moves[i].from != moves[n].to
  {
    assert n > 0 ==> moves[n].to == moves[n - 1].from;
  }

  lemma {:induction false} HalfwayStep(g: Geometry, st: State, moves: seq<Move>, ins: nat, n: nat, st': State)
    requires PathOk(g, st, moves, ins) && n < |moves| && Halfway(g, st, moves, ins, n, st')
    ensures Sized(g, st') && Legal(g, st', moves[n])
    ensures Halfway(g, st, moves, ins, n + 1, Relocate(g, st', moves[n]))
  {
    hide Inv, Relocate, Lookup, Shaped;
    var m := moves[n];
    assert Legal(g, st, m);
    LegalKept(g, st, st', m);
    RelocateKeeps(g, st', m);
    RelocateFrame(g, st', m);
    ShapeAt(moves, ins, n);
  }

  /** The state after the first n moves. */
  ghost function Displace(g: Geometry, st: State, moves: seq<Move>, ins: nat, n: nat): (st': State)
    requires PathOk(g, st, moves, ins) && n <= |moves|
    ensures Halfway(g, st, moves, ins, n, st')
  {
    hide PathOk, Halfway, Relocate;
    if n == 0 then
      HalfwayStart(g, st, moves, ins);
      st
    else
      var prev := Displace(g, st, moves, ins, n - 1);
      HalfwayStep(g, st, moves, ins, n - 1, prev);
      Relocate(g, prev, moves[n - 1])
  }

  /** The state after committing the whole path and filing the new record. */
  ghost function Committed(g: Geometry, st: State, moves: seq<Move>, ins: nat, idx: nat): (st': State)
    requires PathOk(g, st, moves, ins) && idx in st.arena
  {
    Fill(g, Displace(g, st, moves, ins, |moves|), ins, idx)
  }

  /** Committing a validated path keeps every old key findable with its value, adds the new
      key once, and keeps control bytes, remap hints and secondary flags right. */
  lemma {:induction false} CommitAddsOne(g: Geometry, st: State, moves: seq<Move>, ins: nat, idx: nat)
    requires PathOk(g, st, moves, ins) && CanFile(g, st, idx, ins / BUCKET)
    ensures Inv(g, Committed(g, st, moves, ins, idx))
    ensures forall h :: Lookup(Committed(g, st, moves, ins, idx), h)
                        == (if h == st.arena[idx].identity then Some(idx) else Lookup(st, h))
  {
    hide Inv;
    var mid := Displace(g, st, moves, ins, |moves|);
    var key := st.arena[idx].identity;
    AbsentIffNone(st, key);
    AbsentIffNone(mid, key);
    FillKeepsInv(g, mid, ins, idx);
    forall h ensures Lookup(Committed(g, st, moves, ins, idx), h) ==
      if h == key then Some(idx) else Lookup(st, h)
    {
      FillLookup(g, mid, ins, idx, h);
    }
  }
}
