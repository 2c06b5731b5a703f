/** The concurrent cuckoo table inside one generation, as a value: buckets of eight slots with
    control words and remap hints, per-shard stashes, and a record arena. */
module HtcModel {
  import opened Options
  import opened HtcControl

  const BUCKET := 8
  const STASH := 32
  const SATURATED := 255

  datatype Slot = Empty | Live(idx: nat, tag: nat, sec: bool)

  datatype Record = Record(identity: nat, placement: nat, generation: nat, dead: bool, value: nat)

  /** The saturating counter and 16-bit tag filter a bucket keeps about its displaced keys. */
  datatype Remap = Remap(count: nat, filter: set<nat>)

  /** How a generation places keys; the mixing functions are arbitrary. */
  datatype Geometry = Geometry(
    numBuckets: nat, shards: nat,
    place: nat -> nat, primary: nat -> nat, secondary: nat -> nat, tag: nat -> nat, partial: nat -> bv8)
  {
    ghost predicate Ok() {
      && numBuckets > 0 && shards > 0
      && (forall ph :: primary(ph) < numBuckets) && (forall ph :: secondary(ph) < numBuckets)
      && (forall t :: partial(t) != 0)
    }
  }

  datatype State = State(
    slots: seq<Slot>, ctrl: seq<Ctrl>, remap: seq<Remap>,
    stash: seq<Slot>, stashLive: seq<nat>, arena: map<nat, Record>)

  // ---------------------------------------------------------------- the invariant

  ghost predicate Sized(g: Geometry, st: State) {
    && g.Ok()
    && |st.slots| == BUCKET * g.numBuckets && |st.ctrl| == |st.remap| == g.numBuckets
    && |st.stash| == STASH * g.shards && |st.stashLive| == g.shards
  }

  /** A live slot names a live record that was placed by this generation, under its tag. */
  ghost predicate GoodRef(g: Geometry, arena: map<nat, Record>, s: Slot) {
    s.Live? ==>
      && s.idx in arena
      && !arena[s.idx].dead
      && arena[s.idx].placement == g.place(arena[s.idx].identity)
      && s.tag == g.tag(arena[s.idx].placement)
  }

  ghost function PrimaryOf(g: Geometry, arena: map<nat, Record>, s: Slot): (b: nat)
    requires s.Live? && s.idx in arena
  {
    g.primary(arena[s.idx].placement)
  }

  ghost function SecondaryOf(g: Geometry, arena: map<nat, Record>, s: Slot): (b: nat)
    requires s.Live? && s.idx in arena
  {
    g.secondary(arena[s.idx].placement)
  }

  /** A bucket slot sits in the primary bucket of its key, or, flagged, in the secondary one. */
  ghost predicate BucketOk(g: Geometry, st: State, p: nat)
    requires p < |st.slots|
  {
    var s := st.slots[p];
    && GoodRef(g, st.arena, s)
    && (s.Live? ==>
          if s.sec then p / BUCKET == SecondaryOf(g, st.arena, s) != PrimaryOf(g, st.arena, s)
          else p / BUCKET == PrimaryOf(g, st.arena, s))
  }

  ghost predicate CtrlOk(g: Geometry, st: State, p: nat)
    requires Sized(g, st) && p < |st.slots|
  {
    st.ctrl[p / BUCKET][p % BUCKET] == if st.slots[p].Live? then g.partial(st.slots[p].tag) else 0
  }

  ghost predicate StashOk(g: Geometry, st: State, i: nat)
    requires Sized(g, st) && i < |st.stash|
  {
    var s := st.stash[i];
    && GoodRef(g, st.arena, s)
    && (s.Live? ==> i / STASH == PrimaryOf(g, st.arena, s) % g.shards)
  }

  ghost predicate DisplacedFrom(g: Geometry, arena: map<nat, Record>, s: Slot, b: nat) {
    s.Live? && s.sec && s.idx in arena && PrimaryOf(g, arena, s) == b
  }

  /** The slots that hold keys whose primary bucket is b, away from b. */
  ghost function Displaced(g: Geometry, st: State, b: nat): (ps: set<nat>) {
    set p: nat | p < |st.slots| && DisplacedFrom(g, st.arena, st.slots[p], b)
  }

  ghost predicate RemapOk(g: Geometry, st: State, b: nat)
    requires b < |st.remap|
  {
    && st.remap[b].count <= SATURATED
    && (st.remap[b].count == SATURATED || st.remap[b].count == |Displaced(g, st, b)|)
    && (forall p :: p in Displaced(g, st, b) ==> st.slots[p].tag % 16 in st.remap[b].filter)
  }

  ghost function StashedIn(st: State, s: nat): (places: set<nat>) {
    set i: nat | i < |st.stash| && i / STASH == s && st.stash[i].Live?
  }

  ghost predicate StashCountOk(st: State, s: nat)
    requires s < |st.stashLive|
  {
    st.stashLive[s] == |StashedIn(st, s)|
  }

  /** All places a record can be referenced from. */
  ghost function Cells(st: State): (cs: seq<Slot>) {
    st.slots + st.stash
  }

  ghost predicate Holds(cs: seq<Slot>, arena: map<nat, Record>, k: nat, h: nat) {
    k < |cs| && cs[k].Live? && cs[k].idx in arena && arena[cs[k].idx].identity == h
  }

  ghost predicate Distinct(cs: seq<Slot>, arena: map<nat, Record>) {
    forall j: nat, k: nat, h: nat {:trigger Holds(cs, arena, j, h), Holds(cs, arena, k, h)} ::
      Holds(cs, arena, j, h) && Holds(cs, arena, k, h) ==> j == k
  }

  ghost predicate Inv(g: Geometry, st: State) {
    && Sized(g, st)
    && (forall p {:trigger BucketOk(g, st, p)} :: 0 <= p < |st.slots| ==> BucketOk(g, st, p))
    && (forall p {:trigger CtrlOk(g, st, p)} :: 0 <= p < |st.slots| ==> CtrlOk(g, st, p))
    && (forall b {:trigger RemapOk(g, st, b)} :: 0 <= b < g.numBuckets ==> RemapOk(g, st, b))
    && (forall i {:trigger StashOk(g, st, i)} :: 0 <= i < |st.stash| ==> StashOk(g, st, i))
    && (forall s {:trigger StashCountOk(st, s)} :: 0 <= s < g.shards ==> StashCountOk(st, s))
    && Distinct(Cells(st), st.arena)
  }

  // ---------------------------------------------------------------- the abstract map

  /** The record stored under a key. */
  ghost function Lookup(st: State, h: nat): (idx: Option<nat>)
    ensures idx.Some? ==> idx.value in st.arena && st.arena[idx.value].identity == h
  {
    if k: nat :| Holds(Cells(st), st.arena, k, h) then Some(Cells(st)[k].idx) else None
  }

  /** The value stored under a key: the plain map the table stands for. */
  ghost function Get(st: State, h: nat): (v: Option<nat>) {
    if Lookup(st, h).Some? then Some(st.arena[Lookup(st, h).value].value) else None
  }

  lemma {:induction false} LookupAt(st: State, k: nat, h: nat)
    requires Distinct(Cells(st), st.arena) && Holds(Cells(st), st.arena, k, h)
    ensures Lookup(st, h) == Some(Cells(st)[k].idx)
  {
  }

  // ---------------------------------------------------------------- hints never hide a key

  predicate MustCheckSecondary(r: Remap, tag: nat) {
    if r.count == 0 then false
    else if r.count == SATURATED then true
    else tag % 16 in r.filter
  }

  /** Where a key can be: its primary bucket; its secondary bucket, flagged and announced by
      the remap hints of the primary; or the stash of its shard, which is then not empty. */
  lemma {:induction false} WhereKeysAre(g: Geometry, st: State, k: nat, h: nat)
    requires Inv(g, st) && Holds(Cells(st), st.arena, k, h)
    ensures
      var ph, s := g.place(h), Cells(st)[k];
      var b1, b2 := g.primary(ph), g.secondary(ph);
      && s.tag == g.tag(ph) && !st.arena[s.idx].dead
      && (if k < |st.slots| then
            if s.sec then k / BUCKET == b2 && MustCheckSecondary(st.remap[b1], s.tag)
            else k / BUCKET == b1
          else
            (k - |st.slots|) / STASH == b1 % g.shards && st.stashLive[b1 % g.shards] > 0)
  {
    var s := Cells(st)[k];
    if k < |st.slots| {
      assert BucketOk(g, st, k);
      if s.sec {
        var b1 := PrimaryOf(g, st.arena, s);
        assert RemapOk(g, st, b1);
        assert k in Displaced(g, st, b1);
      }
    } else {
      var i := k - |st.slots|;
      assert StashOk(g, st, i);
      var sh := PrimaryOf(g, st.arena, s) % g.shards;
      assert StashCountOk(st, sh);
      assert i in StashedIn(st, sh);
    }
  }

  // ---------------------------------------------------------------- elementary updates

  function RemapInc(r: Remap, tag: nat): (r': Remap) {
    Remap(if r.count >= SATURATED - 1 then SATURATED else r.count + 1, r.filter + {tag % 16})
  }

  function RemapDec(r: Remap): (r': Remap) {
    if r.count == 0 || r.count == SATURATED then r else r.(count := r.count - 1)
  }

  /** The slot word under which record idx is filed in bucket b. */
  ghost function Filed(g: Geometry, arena: map<nat, Record>, idx: nat, b: nat): (s: Slot)
    requires idx in arena
  {
    Live(idx, g.tag(arena[idx].placement), b != g.primary(arena[idx].placement))
  }

  /** Fill the empty bucket slot p with record idx. */
  ghost function Fill(g: Geometry, st: State, p: nat, idx: nat): (st': State)
    requires Sized(g, st) && p < |st.slots| && idx in st.arena
    ensures Sized(g, st')
  {
    var s := Filed(g, st.arena, idx, p / BUCKET);
    var b1 := PrimaryOf(g, st.arena, s);
    st.(slots := st.slots[p := s],
        ctrl := st.ctrl[p / BUCKET := CtrlSet(st.ctrl[p / BUCKET], p % BUCKET, g.partial(s.tag))],
        remap := if s.sec then st.remap[b1 := RemapInc(st.remap[b1], s.tag)] else st.remap)
  }

  /** Empty the live bucket slot p. */
  ghost function Vacate(g: Geometry, st: State, p: nat): (st': State)
    requires Sized(g, st) && p < |st.slots| && st.slots[p].Live? && st.slots[p].idx in st.arena
    ensures Sized(g, st')
  {
    var s := st.slots[p];
    var b1 := PrimaryOf(g, st.arena, s);
    st.(slots := st.slots[p := Empty],
        ctrl := st.ctrl[p / BUCKET := CtrlClear(st.ctrl[p / BUCKET], p % BUCKET)],
        remap := if s.sec then st.remap[b1 := RemapDec(st.remap[b1])] else st.remap)
  }

  /** Record idx may be filed in bucket b and its key is not stored anywhere. */
  ghost predicate CanFile(g: Geometry, st: State, idx: nat, b: nat) {
    && idx in st.arena && !st.arena[idx].dead
    && st.arena[idx].placement == g.place(st.arena[idx].identity)
    && (b == g.primary(st.arena[idx].placement) || b == g.secondary(st.arena[idx].placement))
    && (forall k: nat {:trigger Holds(Cells(st), st.arena, k, st.arena[idx].identity)} ::
          !Holds(Cells(st), st.arena, k, st.arena[idx].identity))
  }

  lemma {:induction false} FillSlotsOk(g: Geometry, st: State, p: nat, idx: nat, q: nat)
    requires Inv(g, st) && p < |st.slots| && st.slots[p].Empty? && CanFile(g, st, idx, p / BUCKET)
    requires q < |st.slots|
    ensures BucketOk(g, Fill(g, st, p, idx), q) && CtrlOk(g, Fill(g, st, p, idx), q)
  {
    assert BucketOk(g, st, q) && CtrlOk(g, st, q);
  }

  lemma {:induction false} FillRemapOk(g: Geometry, st: State, p: nat, idx: nat, b: nat)
    requires Inv(g, st) && p < |st.slots| && st.slots[p].Empty? && idx in st.arena
    requires b < g.numBuckets
    ensures RemapOk(g, Fill(g, st, p, idx), b)
  {
    hide Inv, Displaced, RemapOk;
    RemapOf(g, st, b);
    RemapOneMore(g, st, Fill(g, st, p, idx), p, b);
  }

  lemma {:induction false} RemapOneMore(g: Geometry, st: State, st': State, p: nat, b: nat)
    requires p < |st.slots| == |st'.slots| && st'.slots == st.slots[p := st'.slots[p]] && st'.arena == st.arena
    requires st.slots[p].Empty? && b < |st.remap| == |st'.remap| && RemapOk(g, st, b)
    requires st'.remap[b] == if DisplacedFrom(g, st.arena, st'.slots[p], b)
                             then RemapInc(st.remap[b], st'.slots[p].tag) else st.remap[b]
    ensures RemapOk(g, st', b)
  {
    hide Displaced;
    DisplacedAfter(g, st, st', p, b);
  }

  /** One bucket slot is written. */
  lemma {:induction false} DisplacedAfter(g: Geometry, st: State, st': State, p: nat, b: nat)
    requires p < |st.slots| == |st'.slots| && st'.slots == st.slots[p := st'.slots[p]] && st'.arena == st.arena
    ensures p in Displaced(g, st, b) <==> DisplacedFrom(g, st.arena, st.slots[p], b)
    ensures Displaced(g, st', b) ==
            if DisplacedFrom(g, st.arena, st'.slots[p], b) then Displaced(g, st, b) + {p} else Displaced(g, st, b) - {p}
    ensures forall k :: k in Displaced(g, st', b) && k != p ==>
      k in Displaced(g, st, b) && 0 <= k < |st.slots| && st'.slots[k] == st.slots[k]
  {
    hide DisplacedFrom;
  }

  /** A remap counter that is exact stays so as long as fewer than 255 keys of its bucket are displaced at once. */
  lemma {:induction false} RemapStaysExact(g: Geometry, st: State, p: nat, idx: nat, b: nat)
    requires Inv(g, st) && p < |st.slots| && b < g.numBuckets && st.remap[b].count == |Displaced(g, st, b)| < SATURATED
    ensures st.slots[p].Empty? && idx in st.arena && |Displaced(g, Fill(g, st, p, idx), b)| < SATURATED ==>
      Fill(g, st, p, idx).remap[b].count == |Displaced(g, Fill(g, st, p, idx), b)|
    ensures st.slots[p].Live? && st.slots[p].idx in st.arena ==>
      Vacate(g, st, p).remap[b].count == |Displaced(g, Vacate(g, st, p), b)|
  {
    hide Inv, Displaced;
    RemapOf(g, st, b);
    if st.slots[p].Empty? && idx in st.arena {
      DisplacedAfter(g, st, Fill(g, st, p, idx), p, b);
    }
    if st.slots[p].Live? && st.slots[p].idx in st.arena {
      DisplacedAfter(g, st, Vacate(g, st, p), p, b);
    }
  }

  /** The hints of a bucket from which keys with these tags have been displaced. */
  ghost function Hints(tags: seq<nat>): (r: Remap) {
    if tags == [] then Remap(0, {}) else RemapInc(Hints(tags[..|tags| - 1]), tags[|tags| - 1])
  }

  /** Up to 254 displacements, the secondary bucket is searched exactly for the tags that share their low four bits
      with one of them; from then on always. */
  lemma {:induction false} HintsAre(tags: seq<nat>, tag: nat)
    ensures Hints(tags).count == if |tags| < SATURATED then |tags| else SATURATED
    ensures MustCheckSecondary(Hints(tags), tag) <==>
      |tags| >= SATURATED || exists i :: 0 <= i < |tags| && tags[i] % 16 == tag % 16
  {
    HintsFilter(tags, tag);
  }

  lemma {:induction false} HintsFilter(tags: seq<nat>, tag: nat)
    ensures Hints(tags).count == if |tags| < SATURATED then |tags| else SATURATED
    ensures tag % 16 in Hints(tags).filter <==> exists i :: 0 <= i < |tags| && tags[i] % 16 == tag % 16
  {
    if tags != [] {
      var n := |tags| - 1;
      HintsFilter(tags[..n], tag);
      if i :| 0 <= i < |tags| && tags[i] % 16 == tag % 16 {
        assert i < n ==> tags[..n][i] == tags[i];
      }
    }
  }

  /** With an exact counter the secondary bucket is not searched when nothing is displaced, and it is when a key with
      the same low tag bits is. */
  lemma {:induction false} HintFollowsDisplaced(g: Geometry, st: State, b: nat, tag: nat)
    requires Inv(g, st) && b < g.numBuckets && st.remap[b].count == |Displaced(g, st, b)| < SATURATED
    ensures Displaced(g, st, b) == {} ==> !MustCheckSecondary(st.remap[b], tag)
    ensures (exists p :: p in Displaced(g, st, b) && st.slots[p].tag % 16 == tag % 16) ==>
      MustCheckSecondary(st.remap[b], tag)
  {
    hide Inv;
    RemapOf(g, st, b);
    if p :| p in Displaced(g, st, b) && st.slots[p].tag % 16 == tag % 16 {
      assert Displaced(g, st, b) != {};
    }
  }

  lemma {:induction false} RemapOf(g: Geometry, st: State, b: nat)
    requires Inv(g, st) && b < g.numBuckets
    ensures Sized(g, st) && RemapOk(g, st, b)
  {
  }

  lemma {:induction false} StashOf(g: Geometry, st: State)
    requires Inv(g, st)
    ensures Sized(g, st)
    ensures forall i {:trigger StashOk(g, st, i)} :: 0 <= i < |st.stash| ==> StashOk(g, st, i)
    ensures forall s {:trigger StashCountOk(st, s)} :: 0 <= s < g.shards ==> StashCountOk(st, s)
    ensures Distinct(Cells(st), st.arena)
  {
  }

  /** Changes to the bucket region leave the stash in order. */
  lemma {:induction false} StashUntouched(g: Geometry, st: State, st': State)
    requires Inv(g, st) && Sized(g, st')
    requires st'.stash == st.stash && st'.stashLive == st.stashLive && st'.arena == st.arena
    ensures forall i {:trigger StashOk(g, st', i)} :: 0 <= i < |st'.stash| ==> StashOk(g, st', i)
    ensures forall s {:trigger StashCountOk(st', s)} :: 0 <= s < g.shards ==> StashCountOk(st', s)
  {
    forall i | 0 <= i < |st'.stash| ensures StashOk(g, st', i) {
      assert StashOk(g, st, i);
    }
    forall s | 0 <= s < g.shards ensures StashCountOk(st', s) {
      assert StashCountOk(st, s);
      assert StashedIn(st', s) == StashedIn(st, s);
    }
  }

  lemma {:induction false} FillKeepsInv(g: Geometry, st: State, p: nat, idx: nat)
    requires Inv(g, st) && p < |st.slots| && st.slots[p].Empty? && CanFile(g, st, idx, p / BUCKET)
    ensures Inv(g, Fill(g, st, p, idx))
  {
    var st' := Fill(g, st, p, idx);
    forall q | 0 <= q < |st'.slots| ensures BucketOk(g, st', q) && CtrlOk(g, st', q) {
      FillSlotsOk(g, st, p, idx, q);
    }
    forall b | 0 <= b < g.numBuckets ensures RemapOk(g, st', b) {
      FillRemapOk(g, st, p, idx, b);
    }
    StashUntouched(g, st, st');
    DistinctAdd(Cells(st), Cells(st'), st.arena, p, st.arena[idx].identity);
  }

  /** Adding one cell for an absent key keeps keys distinct. */
  lemma {:induction false} DistinctAdd(cs: seq<Slot>, cs': seq<Slot>, arena: map<nat, Record>, p: nat, h: nat)
    requires Distinct(cs, arena) && |cs'| == |cs|
    requires forall k: nat {:trigger Holds(cs, arena, k, h)} :: !Holds(cs, arena, k, h)
    requires p < |cs| && cs' == cs[p := cs'[p]] &&
      (cs'[p].Live? && cs'[p].idx in arena ==> arena[cs'[p].idx].identity == h)
    ensures Distinct(cs', arena)
  {
    forall j: nat, k: nat, h': nat | Holds(cs', arena, j, h') && Holds(cs', arena, k, h') ensures j == k {
      assert j == p || Holds(cs, arena, j, h');
      assert k == p || Holds(cs, arena, k, h');
    }
  }

  lemma {:induction false} VacateSlotsOk(g: Geometry, st: State, p: nat, q: nat)
    requires Inv(g, st) && p < |st.slots| && st.slots[p].Live? && st.slots[p].idx in st.arena
    requires q < |st.slots|
    ensures BucketOk(g, Vacate(g, st, p), q) && CtrlOk(g, Vacate(g, st, p), q)
  {
    assert BucketOk(g, st, q) && CtrlOk(g, st, q);
  }

  lemma {:induction false} VacateRemapOk(g: Geometry, st: State, p: nat, b: nat)
    requires Inv(g, st) && p < |st.slots| && st.slots[p].Live? && st.slots[p].idx in st.arena
    requires b < g.numBuckets
    ensures RemapOk(g, Vacate(g, st, p), b)
  {
    hide Inv, Displaced;
    RemapOf(g, st, b);
    DisplacedAfter(g, st, Vacate(g, st, p), p, b);
  }

  lemma {:induction false} VacateKeepsInv(g: Geometry, st: State, p: nat)
    requires Inv(g, st) && p < |st.slots| && st.slots[p].Live? && st.slots[p].idx in st.arena
    ensures Inv(g, Vacate(g, st, p))
  {
    var st' := Vacate(g, st, p);
    forall q | 0 <= q < |st'.slots| ensures BucketOk(g, st', q) && CtrlOk(g, st', q) {
      VacateSlotsOk(g, st, p, q);
    }
    forall b | 0 <= b < g.numBuckets ensures RemapOk(g, st', b) {
      VacateRemapOk(g, st, p, b);
    }
    StashUntouched(g, st, st');
    DistinctRemove(Cells(st), Cells(st'), st.arena, p);
  }

  /** Emptying one cell keeps keys distinct. */
  lemma {:induction false} DistinctRemove(cs: seq<Slot>, cs': seq<Slot>, arena: map<nat, Record>, p: nat)
    requires Distinct(cs, arena) && p < |cs| && cs' == cs[p := Empty]
    ensures Distinct(cs', arena)
  {
    forall j: nat, k: nat, h: nat | Holds(cs', arena, j, h) && Holds(cs', arena, k, h) ensures j == k {
      assert Holds(cs, arena, j, h) && Holds(cs, arena, k, h);
    }
  }

  // ---------------------------------------------------------------- what the updates do to the map

  ghost predicate Absent(st: State, h: nat) {
    forall k: nat {:trigger Holds(Cells(st), st.arena, k, h)} :: !Holds(Cells(st), st.arena, k, h)
  }

  lemma {:induction false} AbsentIffNone(st: State, h: nat)
    ensures Absent(st, h) <==> Lookup(st, h) == None
  {
  }

  /** Changing one cell does not affect keys that neither the old nor the new content holds. */
  lemma {:induction false} LookupElsewhere(st: State, st': State, p: nat, h: nat)
    requires Distinct(Cells(st), st.arena) && Distinct(Cells(st'), st'.arena)
    requires p < |Cells(st)| == |Cells(st')| && Cells(st') == Cells(st)[p := Cells(st')[p]] && st'.arena == st.arena
    requires !Holds(Cells(st), st.arena, p, h) && !Holds(Cells(st'), st.arena, p, h)
    ensures Lookup(st', h) == Lookup(st, h)
  {
    if k: nat :| Holds(Cells(st), st.arena, k, h) {
      assert Holds(Cells(st'), st.arena, k, h);
      LookupAt(st, k, h);
      LookupAt(st', k, h);
    } else {
      assert forall k: nat :: Holds(Cells(st'), st.arena, k, h) ==> Holds(Cells(st), st.arena, k, h);
    }
  }

  lemma {:induction false} FillLookup(g: Geometry, st: State, p: nat, idx: nat, h: nat)
    requires Inv(g, st) && p < |st.slots| && st.slots[p].Empty? && CanFile(g, st, idx, p / BUCKET)
    ensures Lookup(Fill(g, st, p, idx), h) ==
            if h == st.arena[idx].identity then Some(idx) else Lookup(st, h)
  {
    hide Inv;
    StashOf(g, st);
    var st' := Fill(g, st, p, idx);
    FillKeepsInv(g, st, p, idx);
    StashOf(g, st');
    assert Cells(st') == Cells(st)[p := Cells(st')[p]];
    if h == st.arena[idx].identity {
      assert Holds(Cells(st'), st'.arena, p, h);
      LookupAt(st', p, h);
    } else {
      LookupElsewhere(st, st', p, h);
    }
  }

  lemma {:induction false} VacateLookup(g: Geometry, st: State, p: nat, h: nat)
    requires Inv(g, st) && p < |st.slots| && st.slots[p].Live? && st.slots[p].idx in st.arena
    ensures Lookup(Vacate(g, st, p), h) ==
            if h == st.arena[st.slots[p].idx].identity then None else Lookup(st, h)
    ensures h == st.arena[st.slots[p].idx].identity ==> Absent(Vacate(g, st, p), h)
  {
    hide Inv;
    StashOf(g, st);
    var st' := Vacate(g, st, p);
    VacateKeepsInv(g, st, p);
    StashOf(g, st');
    assert Cells(st') == Cells(st)[p := Cells(st')[p]];
    if h == st.arena[st.slots[p].idx].identity {
      assert Holds(Cells(st), st.arena, p, h);
      assert forall k: nat :: Holds(Cells(st'), st.arena, k, h) ==> Holds(Cells(st), st.arena, k, h) && k != p;
    } else {
      LookupElsewhere(st, st', p, h);
    }
  }

  // ---------------------------------------------------------------- arena and stash updates

  ghost predicate Unreferenced(st: State, idx: nat) {
    forall k {:trigger Cells(st)[k]} :: 0 <= k < |Cells(st)| && Cells(st)[k].Live? ==> Cells(st)[k].idx != idx
  }

  /** Whether a change of one record is invisible to the invariant: nobody refers to it, or
      only its value changed. */
  ghost predicate Harmless(st: State, idx: nat, r: Record) {
    || Unreferenced(st, idx)
    || (idx in st.arena && r == st.arena[idx].(value := r.value))
  }

  lemma {:induction false} ArenaKeepsBuckets(g: Geometry, st: State, idx: nat, r: Record)
    requires Inv(g, st) && Harmless(st, idx, r)
    ensures
      var st' := st.(arena := st.arena[idx := r]);
      && Sized(g, st')
      && (forall p {:trigger BucketOk(g, st', p)} :: 0 <= p < |st'.slots| ==> BucketOk(g, st', p))
      && (forall p {:trigger CtrlOk(g, st', p)} :: 0 <= p < |st'.slots| ==> CtrlOk(g, st', p))
  {
    var st' := st.(arena := st.arena[idx := r]);
    forall p | 0 <= p < |st'.slots| ensures BucketOk(g, st', p) && CtrlOk(g, st', p) {
      assert BucketOk(g, st, p) && CtrlOk(g, st, p);
      assert Cells(st)[p] == st.slots[p];
    }
  }

  lemma {:induction false} ArenaKeepsRemap(g: Geometry, st: State, idx: nat, r: Record, b: nat)
    requires Inv(g, st) && Harmless(st, idx, r) && b < g.numBuckets
    ensures RemapOk(g, st.(arena := st.arena[idx := r]), b)
  {
    var st' := st.(arena := st.arena[idx := r]);
    assert RemapOk(g, st, b);
    forall p: nat | p < |st.slots|
      ensures DisplacedFrom(g, st'.arena, st.slots[p], b) <==> DisplacedFrom(g, st.arena, st.slots[p], b)
    {
      assert BucketOk(g, st, p);
      assert Cells(st)[p] == st.slots[p];
    }
    assert Displaced(g, st', b) == Displaced(g, st, b);
  }

  lemma {:induction false} ArenaKeepsStash(g: Geometry, st: State, idx: nat, r: Record)
    requires Inv(g, st) && Harmless(st, idx, r)
    ensures
      var st' := st.(arena := st.arena[idx := r]);
      && Sized(g, st')
      && (forall i {:trigger StashOk(g, st', i)} :: 0 <= i < |st'.stash| ==> StashOk(g, st', i))
      && (forall s {:trigger StashCountOk(st', s)} :: 0 <= s < g.shards ==> StashCountOk(st', s))
  {
    var st' := st.(arena := st.arena[idx := r]);
    forall i | 0 <= i < |st'.stash| ensures StashOk(g, st', i) {
      assert StashOk(g, st, i);
      assert Cells(st)[|st.slots| + i] == st.stash[i];
    }
    forall s | 0 <= s < g.shards ensures StashCountOk(st', s) {
      assert StashCountOk(st, s);
      assert StashedIn(st', s) == StashedIn(st, s);
    }
  }

  /** Every live cell names an allocated record. */
  lemma {:induction false} CellsAllocated(g: Geometry, st: State, k: nat)
    requires Inv(g, st) && k < |Cells(st)|
    ensures GoodRef(g, st.arena, Cells(st)[k])
  {
    if k < |st.slots| {
      assert BucketOk(g, st, k);
    } else {
      assert StashOk(g, st, k - |st.slots|);
    }
  }

  lemma {:induction false} ArenaHolds(g: Geometry, st: State, idx: nat, r: Record, k: nat, h: nat)
    requires Inv(g, st) && Harmless(st, idx, r)
    ensures Holds(Cells(st), st.arena[idx := r], k, h) <==> Holds(Cells(st), st.arena, k, h)
  {
    if k < |Cells(st)| {
      CellsAllocated(g, st, k);
    }
  }

  lemma {:induction false} ArenaKeepsInv(g: Geometry, st: State, idx: nat, r: Record)
    requires Inv(g, st) && Harmless(st, idx, r)
    ensures Inv(g, st.(arena := st.arena[idx := r]))
  {
    var st' := st.(arena := st.arena[idx := r]);
    ArenaKeepsBuckets(g, st, idx, r);
    ArenaKeepsStash(g, st, idx, r);
    forall b | 0 <= b < g.numBuckets ensures RemapOk(g, st', b) {
      ArenaKeepsRemap(g, st, idx, r, b);
    }
    forall j: nat, k: nat, h: nat | Holds(Cells(st'), st'.arena, j, h) && Holds(Cells(st'), st'.arena, k, h)
      ensures j == k
    {
      assert Cells(st') == Cells(st);
      ArenaHolds(g, st, idx, r, j, h);
      ArenaHolds(g, st, idx, r, k, h);
    }
  }

  /** Rewriting a record nobody refers to, or its value, moves no key. */
  lemma {:induction false} ArenaLookup(g: Geometry, st: State, idx: nat, r: Record, h: nat)
    requires Inv(g, st) && Harmless(st, idx, r)
    ensures Lookup(st.(arena := st.arena[idx := r]), h) == Lookup(st, h)
  {
    hide Inv;
    var st' := st.(arena := st.arena[idx := r]);
    ArenaKeepsInv(g, st, idx, r);
    StashOf(g, st);
    StashOf(g, st');
    assert Cells(st') == Cells(st);
    forall k: nat ensures Holds(Cells(st), st'.arena, k, h) <==> Holds(Cells(st), st.arena, k, h) {
      ArenaHolds(g, st, idx, r, k, h);
    }
    if k: nat :| Holds(Cells(st), st.arena, k, h) {
      LookupAt(st, k, h);
      LookupAt(st', k, h);
    }
  }

  /** Emptying the only cell of a key leaves its record unreferenced. */
  lemma {:induction false} LastReference(st: State, st': State, k: nat)
    requires Distinct(Cells(st), st.arena) && k < |Cells(st)| == |Cells(st')|
    requires Cells(st)[k].Live? && Cells(st)[k].idx in st.arena && Cells(st') == Cells(st)[k := Empty]
    ensures Unreferenced(st', Cells(st)[k].idx)
  {
    var idx := Cells(st)[k].idx;
    var h := st.arena[idx].identity;
    assert Holds(Cells(st), st.arena, k, h);
    forall j: nat | j < |Cells(st')| && Cells(st')[j].Live? ensures Cells(st')[j].idx != idx {
      if Cells(st)[j].idx == idx {
        assert Holds(Cells(st), st.arena, j, h);
      }
    }
  }

  /** File record idx in the empty stash cell i. */
  ghost function StashFill(g: Geometry, st: State, i: nat, idx: nat): (st': State)
    requires Sized(g, st) && i < |st.stash| && idx in st.arena
    ensures Sized(g, st')
  {
    st.(stash := st.stash[i := Live(idx, g.tag(st.arena[idx].placement), false)],
        stashLive := st.stashLive[i / STASH := st.stashLive[i / STASH] + 1])
  }

  ghost function StashVacate(g: Geometry, st: State, i: nat): (st': State)
    requires Sized(g, st) && i < |st.stash| && st.stashLive[i / STASH] > 0
    ensures Sized(g, st')
  {
    st.(stash := st.stash[i := Empty],
        stashLive := st.stashLive[i / STASH := st.stashLive[i / STASH] - 1])
  }

  /** Changes to the stash leave the buckets in order. */
  lemma {:induction false} BucketsUntouched(g: Geometry, st: State, st': State)
    requires Inv(g, st) && Sized(g, st')
    requires st'.slots == st.slots && st'.ctrl == st.ctrl && st'.remap == st.remap && st'.arena == st.arena
    ensures forall p {:trigger BucketOk(g, st', p)} :: 0 <= p < |st'.slots| ==> BucketOk(g, st', p)
    ensures forall p {:trigger CtrlOk(g, st', p)} :: 0 <= p < |st'.slots| ==> CtrlOk(g, st', p)
    ensures forall b {:trigger RemapOk(g, st', b)} :: 0 <= b < g.numBuckets ==> RemapOk(g, st', b)
  {
    forall p | 0 <= p < |st'.slots| ensures BucketOk(g, st', p) && CtrlOk(g, st', p) {
      assert BucketOk(g, st, p) && CtrlOk(g, st, p);
    }
    forall b | 0 <= b < g.numBuckets ensures RemapOk(g, st', b) {
      assert RemapOk(g, st, b);
      assert Displaced(g, st', b) == Displaced(g, st, b);
    }
  }

  /** One stash cell is written. */
  lemma {:induction false} StashedAfter(st: State, st': State, i: nat, s: nat)
    requires i < |st.stash| == |st'.stash| && st'.stash == st.stash[i := st'.stash[i]]
    ensures i in StashedIn(st, s) <==> s == i / STASH && st.stash[i].Live?
    ensures StashedIn(st', s) ==
            if s == i / STASH && st'.stash[i].Live? then StashedIn(st, s) + {i} else StashedIn(st, s) - {i}
  {
  }

  lemma {:induction false} StashFillCount(g: Geometry, st: State, i: nat, idx: nat, s: nat)
    requires Sized(g, st) && i < |st.stash| && st.stash[i].Empty? && idx in st.arena
    requires s < g.shards && StashCountOk(st, s)
    ensures StashCountOk(StashFill(g, st, i, idx), s)
  {
    StashedAfter(st, StashFill(g, st, i, idx), i, s);
    hide StashedIn;
  }

  lemma {:induction false} StashFillKeepsInv(g: Geometry, st: State, i: nat, idx: nat)
    requires Inv(g, st) && i < |st.stash| && st.stash[i].Empty?
    requires idx in st.arena && CanFile(g, st, idx, g.primary(st.arena[idx].placement))
    requires i / STASH == g.primary(st.arena[idx].placement) % g.shards
    ensures Inv(g, StashFill(g, st, i, idx))
  {
    var st' := StashFill(g, st, i, idx);
    BucketsUntouched(g, st, st');
    forall j | 0 <= j < |st'.stash| ensures StashOk(g, st', j) {
      assert StashOk(g, st, j);
    }
    forall s | 0 <= s < g.shards ensures StashCountOk(st', s) {
      assert StashCountOk(st, s);
      StashFillCount(g, st, i, idx, s);
    }
    hide RemapOk, StashCountOk, BucketOk, CtrlOk, StashOk;
    DistinctAdd(Cells(st), Cells(st'), st.arena, |st.slots| + i, st.arena[idx].identity);
  }

  lemma {:induction false} StashVacateCount(g: Geometry, st: State, i: nat, s: nat)
    requires Sized(g, st) && i < |st.stash| && st.stash[i].Live? && st.stashLive[i / STASH] > 0
    requires s < g.shards && StashCountOk(st, s)
    ensures StashCountOk(StashVacate(g, st, i), s)
  {
    StashedAfter(st, StashVacate(g, st, i), i, s);
    hide StashedIn;
  }

  lemma {:induction false} StashVacateKeepsInv(g: Geometry, st: State, i: nat)
    requires Inv(g, st) && i < |st.stash| && st.stash[i].Live?
    ensures st.stashLive[i / STASH] > 0
    ensures Inv(g, StashVacate(g, st, i))
  {
    assert StashCountOk(st, i / STASH) && i in StashedIn(st, i / STASH);
    var st' := StashVacate(g, st, i);
    BucketsUntouched(g, st, st');
    forall j | 0 <= j < |st'.stash| ensures StashOk(g, st', j) {
      assert StashOk(g, st, j);
    }
    forall s | 0 <= s < g.shards ensures StashCountOk(st', s) {
      assert StashCountOk(st, s);
      StashVacateCount(g, st, i, s);
    }
    hide RemapOk, StashCountOk, BucketOk, CtrlOk, StashOk;
    DistinctRemove(Cells(st), Cells(st'), st.arena, |st.slots| + i);
  }

  lemma {:induction false} StashFillLookup(g: Geometry, st: State, i: nat, idx: nat, h: nat)
    requires Inv(g, st) && i < |st.stash| && st.stash[i].Empty?
    requires idx in st.arena && CanFile(g, st, idx, g.primary(st.arena[idx].placement))
    requires i / STASH == g.primary(st.arena[idx].placement) % g.shards
    ensures Lookup(StashFill(g, st, i, idx), h) ==
            if h == st.arena[idx].identity then Some(idx) else Lookup(st, h)
  {
    hide Inv;
    StashOf(g, st);
    var st', k := StashFill(g, st, i, idx), |st.slots| + i;
    StashFillKeepsInv(g, st, i, idx);
    StashOf(g, st');
    assert Cells(st') == Cells(st)[k := Cells(st')[k]];
    if h == st.arena[idx].identity {
      assert Holds(Cells(st'), st'.arena, k, h);
      LookupAt(st', k, h);
    } else {
      LookupElsewhere(st, st', k, h);
    }
  }

  lemma {:induction false} StashVacateLookup(g: Geometry, st: State, i: nat, h: nat)
    requires Inv(g, st) && i < |st.stash| && st.stash[i].Live? && st.stash[i].idx in st.arena
    requires st.stashLive[i / STASH] > 0
    ensures Lookup(StashVacate(g, st, i), h) ==
            if h == st.arena[st.stash[i].idx].identity then None else Lookup(st, h)
  {
    hide Inv;
    StashOf(g, st);
    var st', k := StashVacate(g, st, i), |st.slots| + i;
    StashVacateKeepsInv(g, st, i);
    StashOf(g, st');
    assert Cells(st') == Cells(st)[k := Cells(st')[k]];
    if h == st.arena[st.stash[i].idx].identity {
      assert Holds(Cells(st), st.arena, k, h);
      assert forall j: nat :: Holds(Cells(st'), st.arena, j, h) ==> Holds(Cells(st), st.arena, j, h) && j != k;
    } else {
      LookupElsewhere(st, st', k, h);
    }
  }
}
