/** The bare Robin-Hood table: main ring, spill lane and overflow stash. */
module BareTable {
  import opened Options
  import opened ModArith
  import opened BitXor
  import opened RobinHood
  import opened RobinHoodWalk
  import opened RobinHoodRange
  import opened RingIndex
  import opened RobinHoodInsert
  import opened BackwardShift
  import opened HashRemoval

  const STASH_CAP := 32

  const HASH_RANGE := 0x1_0000_0000_0000

  /** The value that marks an unused slot. */
  const VAL_NONE := 0xFFFF_FFFF

  class Table {
    const maxProbe: nat
    var slots: seq<Slot>
    var size: nat
    var tombCount: nat
    var spill: seq<(nat, nat)>
    var overflow: seq<(nat, nat)>
    var violated: bool

    /** The repository's own checker, plus what it leaves implicit about the side lanes: reserved
        hashes 0 and 1 live in the spill lane only, and unless the probe bound has been given up
        no entry of the ring is farther than it. */
    ghost predicate Valid()
      reads this
    {
      && Inv(slots) && 0 < maxProbe <= MAX_DIST
      && tombCount == Tombs(slots)
      && size == |Entries(slots)| + |spill| + |overflow|
      && |overflow| <= STASH_CAP
      && Within(slots, if violated then MAX_DIST else maxProbe)
      && (forall i :: 0 <= i < |spill| ==> spill[i].0 < 2)
      && (forall i :: 0 <= i < |overflow| ==> overflow[i].0 >= 2)
    }

    /** An empty table; a capacity below 4 becomes 4, and no probe bound becomes 255. */
    constructor (capacity: nat, probeBound: nat)
      ensures Valid() && Bag() == multiset{} && tombCount == 0 && !violated
      ensures |slots| == CapacityOf(capacity) && forall i :: 0 <= i < |slots| ==> slots[i].Empty?
      ensures maxProbe == (if probeBound == 0 then 255 else if probeBound > MAX_DIST then MAX_DIST else probeBound)
    {
      maxProbe := if probeBound == 0 then 255 else if probeBound > MAX_DIST then MAX_DIST else probeBound;
      slots := seq(CapacityOf(capacity), i => Empty);
      size, tombCount, spill, overflow, violated := 0, 0, [], [], false;
      new;
      EmptyRing(slots, maxProbe);
    }

    /** The bag of (hash, value) pairs the table stands for. */
    ghost function Bag(): (m: multiset<(nat, nat)>)
      reads this
    {
      Entries(slots) + multiset(spill) + multiset(overflow)
    }

    // -------------------------------------------------------------- find

    method FindIn(lane: seq<(nat, nat)>, h: nat) returns (r: Option<nat>)
      ensures r.Some? ==> (h, r.value) in lane && FirstIn(lane, h, r.value)
      ensures r.None? ==> forall v :: (h, v) !in lane
    {
      var i := 0;
      while i < |lane|
        invariant 0 <= i <= |lane|
        invariant forall j :: 0 <= j < i ==> lane[j].0 != h
      {
        if lane[i].0 == h {
          assert lane[i] == (h, lane[i].1);
          assert FirstIn(lane, h, lane[i].1);
          return Some(lane[i].1);
        }
        i := i + 1;
      }
      return None;
    }

    /** The early-terminating probe of the ring. */
    method Probe(h: nat) returns (r: Option<nat>)
      requires Valid()
      ensures r.Some? ==> (h, r.value) in Entries(slots) && Nearest(slots, h, r.value)
      ensures r.None? ==> forall v :: (h, v) !in Entries(slots)
    {
      hide Inv, Nth, Entries, Tombs, Wrapped, NextDist, Span, At, Step;
      var cap := |slots|;
      assert cap > 0 by { InvNonempty(slots); }
      AtHome(h, cap);
      WrappedNext(0);
      var idx: nat, dist: nat, steps: nat := h % cap, 0, 0;
      while steps <= cap
        invariant 0 <= steps <= cap + 1 && dist == Wrapped(steps)
        invariant idx < cap && At(idx, h + steps, cap)
        invariant forall i :: 0 <= i < cap && slots[i].Live? && slots[i].h == h ==> slots[i].pd >= steps
      {
        var slot := slots[idx];
        AtSlot(slots, idx, h + steps);
        WrappedNext(steps);
        if slot.Empty? || (slot.Live? && slot.pd < dist)
           || (slot.Live? && !violated && maxProbe > 0 && dist > maxProbe) {
          break;
        }
        if slot.Live? && slot.h == h {
          EntryAt(slots, h, slot.val);
          NearestHere(slots, h, steps, idx);
          return Some(slot.val);
        }
        forall i | 0 <= i < cap && slots[i].Live? && slots[i].h == h ensures slots[i].pd >= steps + 1 {
          if slots[i].pd == steps {
            ProbeSees(slots, h, steps, i);
          }
        }
        AtNext(idx, h + steps, cap);
        idx, dist, steps := Step(idx, 1, cap), NextDist(dist), steps + 1;
      }
      NoneBeyond(slots, h, steps, violated, maxProbe);
      return None;
    }

    /** Find in the spill lane for reserved hashes, otherwise in the ring and then the stash. */
    method Find(hash: nat) returns (r: Option<nat>)
      requires Valid()
      ensures r.Some? ==> (hash % HASH_RANGE, r.value) in Bag()
      ensures r.None? ==> forall v :: (hash % HASH_RANGE, v) !in Bag()
      ensures r.Some? ==>
        var h := hash % HASH_RANGE;
        if h < 2 then FirstIn(spill, h, r.value)
        else
          || Nearest(slots, h, r.value)
          || ((forall v :: (h, v) !in Entries(slots)) && FirstIn(overflow, h, r.value))
    {
      hide Inv, Entries, Tombs, FirstIn, Nearest;
      var h := hash % HASH_RANGE;
      if h < 2 {
        r := FindIn(spill, h);
        NotInRing(slots, h);
        assert forall v :: (h, v) in overflow ==> false;
        return;
      }
      r := Probe(h);
      if r.None? {
        r := FindIn(overflow, h);
        assert forall v :: (h, v) in spill ==> false;
      }
    }

    // -------------------------------------------------------------- insert

    /** A reserved hash goes to the spill lane; grown is whether that lane finds memory when it is full. */
    method SpillInsert(h: nat, val: nat, grown: bool) returns (ok: bool)
      requires Valid() && h < 2
      modifies this`spill, this`size
      ensures Valid() && ok == grown
      ensures Bag() == old(Bag()) + if ok then multiset{(h, val)} else multiset{}
    {
      hide Inv, Entries, Tombs, Within;
      if !grown {
        return false;
      }
      spill := spill + [(h, val)];
      size := size + 1;
      return true;
    }

    /** Whether the entry carried at distance dist must not take the tombstone at idx.  A tombstone reported
        blocked would hide an entry; one not reported would not, when tombstones do not fill the
        look-ahead. */
    method Blocked(idx: nat, dist: nat, ghost x: int) returns (blocked: bool)
      requires |slots| > 0 && At(idx, x, |slots|) && Nth(slots, x).Tomb?
      ensures Reach(slots) && blocked ==> forall v: Slot :: v.Live? && v.pd == dist ==> !Crossable(slots, x, v)
      ensures Reach(slots) && !blocked && NoTombRun(slots) ==>
        forall v: Slot :: v.Live? && v.pd == dist ==> Crossable(slots, x, v)
    {
      hide Reach, Nth, Crossable;
      var cap := |slots|;
      var k := 1;
      while k <= LOOKAHEAD
        invariant 1 <= k <= LOOKAHEAD + 1
        invariant forall z :: x < z < x + k ==>
          !Nth(slots, z).Empty? && (Nth(slots, z).Live? ==> Nth(slots, z).pd <= dist + (z - x))
      {
        StepIs(idx, k, cap, x);
        NthIs(slots, x + k);
        var chk := slots[Step(idx, k, cap)];
        if chk.Empty? {
          break;
        }
        if chk.Live? && chk.pd > dist + k {
          forall v: Slot | Reach(slots) && v.Live? && v.pd == dist ensures !Crossable(slots, x, v) {
            Hides(slots, x, x + k, v);
          }
          return true;
        }
        k := k + 1;
      }
      assert k <= LOOKAHEAD ==> Nth(slots, x + k).Empty?;
      if NoTombRun(slots) {
        assert Nth(slots, x + k).Empty? || exists y :: x < y < x + k && Nth(slots, y).Live? by {
          assert SeenPast(slots, x);
        }
        forall v: Slot | Reach(slots) && v.Live? && v.pd == dist ensures Crossable(slots, x, v) {
          LookaheadSuffices(slots, x, v, k);
        }
      }
      return false;
    }

    /** Robin-Hood insertion without a probe bound: swap with entries that are nearer to home, step over
        blocked tombstones, and stop in the first slot that can be taken.  One pair is added; the invariant
        survives exactly when the hash fits.  In a ring whose slots 16-bit distances can tell apart, every entry
        stays reachable even when the hash does not settle. */
    method InsertUnbounded(h: nat, val: nat)
      requires Inv(slots) && tombCount == Tombs(slots) && NoTombRun(slots)
      requires (exists z :: 0 <= z < |slots| && !slots[z].Live?) && Ends(slots, h)
      modifies this`slots, this`size, this`tombCount
      ensures Inv(slots) <==> Fits(old(slots), h)
      ensures |slots| <= MAX_DIST ==> Reach(slots)
      ensures |slots| == old(|slots|) && tombCount == Tombs(slots) <= old(tombCount) && NoTombRun(slots)
      ensures Entries(slots) == old(Entries(slots)) + multiset{(h, val)}
      ensures size == old(size) + 1
      ensures h >= 2 && Within(old(slots), MAX_DIST) ==> Within(slots, MAX_DIST)
    {
      hide Reach, Exact, Nth, Put, Entries, Tombs, Reachable, Crossable, Walk, Settles, Within, Lands, Near, NoTombRun,
        At, Step, Fits, Ends, Lost, NoneBefore, NextDist;
      var cap := |slots|;
      AtHome(h, cap);
      ghost var s0 := slots;
      ghost var all := Entries(slots) + multiset{(h, val)};
      ghost var w := Destination(slots, h);
      ghost var x: int, i: int := h, h;
      ghost var lost: bool, z: int := false, 0;
      var curH, curVal := h, val;
      var idx: nat := h % cap;
      var dist: nat := 0;
      ReachableStart(slots, h);
      NearAtFirst(slots, h, h);
      while true
        invariant |slots| == cap && NoTombRun(slots) && tombCount == Tombs(slots) == old(tombCount)
        invariant size == old(size) && Entries(slots) + multiset{(curH, curVal)} == all
        invariant idx < cap && At(idx, x, cap) && dist <= MAX_DIST
        invariant !lost ==> Reach(slots) && Reachable(slots, x, curH, dist) && dist == x - i && Near(s0, h, x)
        invariant !lost ==> x <= w && Walk(s0, slots, h, x, i, w)
        invariant lost ==> !Fits(s0, h) && cap > DIST_RANGE && x <= z && Lost(slots, h, x, i, curH, dist, z)
        invariant h >= 2 && Within(s0, MAX_DIST) ==> Within(slots, MAX_DIST) && curH >= 2
        decreases !lost, if lost then z - x else w - x
      {
        AtSlot(slots, idx, x);
        var slot := slots[idx];
        var blocked := false;
        if slot.Tomb? {
          blocked := Blocked(idx, dist, x);
        }
        if !lost && x == w {
          WalkEnds(s0, slots, h, x, i, w, Live(curH, dist, curVal));
          WalkGap(s0, slots, h, x, i, w);
        }
        if !slot.Live? && !blocked {
          if lost {
            LostPlace(slots, h, x, idx, i, z, Live(curH, dist, curVal), MAX_DIST);
          } else {
            PlaceStep(s0, slots, h, x, idx, i, w, Live(curH, dist, curVal), MAX_DIST);
          }
          if slot.Tomb? {
            tombCount := tombCount - 1;
          }
          slots := slots[idx := Live(curH, dist, curVal)];
          size := size + 1;
          return;
        }
        if slot.Live? && slot.pd < dist {
          if lost {
            LostSwapStep(slots, h, x, idx, i, z, Live(curH, dist, curVal), MAX_DIST);
          } else {
            SwapStep(s0, slots, h, x, idx, i, w, Live(curH, dist, curVal), MAX_DIST);
            NearStep(s0, slots[idx := Live(curH, dist, curVal)], h, x, x - slot.pd, w);
          }
          slots := slots[idx := Live(curH, dist, curVal)];
          i := x - slot.pd;
          curH, curVal, dist := slot.h, slot.val, slot.pd + 1;
        } else {
          if lost {
            LostOn(slots, h, x, i, curH, dist, z);
          } else {
            WalkOn(s0, slots, h, x, i, w);
            if dist < MAX_DIST {
              Advance(slots, x, curH, dist);
              NearStep(s0, slots, h, x, i, w);
            } else {
              z := OutOfRange(s0, slots, h, x + 1, i, w);
              GetLost(slots, h, x, i, curH, dist, z);
              lost := true;
            }
          }
          NextInRange(dist);
          dist := NextDist(dist);
        }
        AtNext(idx, x, cap);
        idx := Step(idx, 1, cap);
        x := x + 1;
      }
    }

    // -------------------------------------------------------------- remove

    /** The chain after idx: up to 16 slots that are tombstones or displaced entries, and whether
        an empty slot closes it. */
    method ScanChain(idx: nat, ghost x: int) returns (len: nat, live: nat, ends: bool)
      requires Inv(slots) && idx < |slots| && idx == x % |slots|
      ensures len <= LOOKAHEAD && live <= len
      ensures forall z :: x < z <= x + len ==> !Nth(slots, z).Empty?
      ensures live > 0 ==> exists z :: x < z <= x + len && Nth(slots, z).Live?
      ensures ends ==> len < LOOKAHEAD && Nth(slots, x + len + 1).Empty?
      ensures ends && live > 0 ==> Closes(slots, x, len)
      ensures !ends || live == 0 ==> forall n: nat :: !Closes(slots, x, n)
    {
      hide Inv, Nth, Step, Closes, Chain;
      var cap := |slots|;
      assert cap > 0 by { InvNonempty(slots); }
      len, live, ends := 0, 0, false;
      ChainStart(slots, x);
      while len < LOOKAHEAD
        invariant len <= LOOKAHEAD && Chain(slots, x, len, live)
      {
        StepIs(idx, len + 1, cap, x);
        NthIs(slots, x + (len + 1));
        var slot := slots[Step(idx, len + 1, cap)];
        if slot.Empty? {
          ends := true;
          break;
        }
        if slot.Live? && slot.pd == 0 {
          break;
        }
        ChainNext(slots, x, len, live);
        if slot.Live? {
          live := live + 1;
        }
        len := len + 1;
      }
      ChainEnds(slots, x, len, live, ends);
    }

    /** Whether every entry of the chain may move back as far as the shift would take it.  A refusal means that
        one may not, or would still be more than half a turn from home. */
    method ShiftSafe(idx: nat, len: nat) returns (ok: bool)
      requires Inv(slots) && idx < |slots|
      ensures ok ==> CanShift(slots, idx, len)
      ensures !ok ==> exists j: nat :: j < len && (!ShiftOk(slots, idx, j) || StaysFar(slots, idx, j))
    {
      hide Inv, Nth, Step, LivesBefore, StaysFar;
      var cap := |slots|;
      assert cap > 0 by { InvNonempty(slots); }
      LivesFrom(slots, idx);
      var w: nat, i: nat := 0, 0;
      while i < len
        invariant w <= i <= len
        invariant w == LivesBefore(slots, idx, i)
        invariant forall j :: 0 <= j < i ==> ShiftOk(slots, idx, j)
      {
        StepIs(idx, i + 1, cap, idx) by { ModUnique(idx, 0, idx, cap); }
        NthIs(slots, idx + (i + 1));
        var slot := slots[Step(idx, i + 1, cap)];
        LivesNext(slots, idx, i);
        if slot.Live? {
          var target, ideal := Step(idx, w, cap), slot.h % cap;
          if ideal > target && ideal - target < cap / 2 {
            FarFromHome(slots, idx, i);
            return false;
          }
          if i + 1 - w > slot.pd {
            assert !ShiftOk(slots, idx, i);
            return false;
          }
          w := w + 1;
        }
        i := i + 1;
      }
      return true;
    }

    /** Close the gap at idx: the live entries of the chain move back in order, each losing the
        distance it moved, and the slots they leave become empty. */
    method CommitShift(idx: nat, len: nat, ghost x: int, ghost g: nat, ghost d: nat, ghost far: nat)
      requires Inv(slots) && idx < |slots| && idx == x % |slots| && tombCount == Tombs(slots)
      requires Nth(slots, x).Tomb? && Nth(slots, x + len + 1).Empty?
      requires forall z :: x < z <= x + len ==> !Nth(slots, z).Empty?
      requires CanShift(slots, x, len) && exists z :: x < z <= x + len && Nth(slots, z).Live?
      requires Span(slots, g, d, far) && x % |slots| == (g + d) % |slots|
      modifies this`slots, this`tombCount
      ensures Span(slots, g, d, far)
      ensures Inv(slots) && |slots| == old(|slots|) && tombCount == Tombs(slots)
      ensures forall b: nat {:trigger Within(slots, b)} :: Within(old(slots), b) ==> Within(slots, b)
      ensures Entries(slots) == old(Entries(slots)) && Shifted(old(slots), slots, x, len)
    {
      hide Inv, Nth, Put, Entries, Tombs, ShiftState, Step, CanShift, Span, Shifted;
      ghost var s0 := slots;
      ghost var gs := slots;
      var cap := |slots|;
      ChainFits(slots, x, len);
      var w, i := 0, 0;
      ShiftStart(s0, x);
      while i < len
        invariant 0 <= w <= i <= len && |slots| == |gs| == cap
        invariant ShiftState(s0, slots, gs, x, w, i)
        invariant forall b: nat {:trigger Within(slots, b)} :: Within(s0, b) ==> Within(slots, b)
        invariant tombCount == Tombs(slots) + (if w > 0 then 1 else 0) && Span(slots, g, d, far)
      {
        var readPos, writePos := Step(idx, i + 1, cap), Step(idx, w, cap);
        StepIs(idx, i + 1, cap, x);
        StepIs(idx, w, cap, x);
        var slot := slots[readPos];
        ShiftRead(s0, slots, gs, x, w, i, slot);
        if slot.Live? {
          ShiftLive(s0, slots, gs, x, w, i, len, slot);
          var v := Live(slot.h, slot.pd - (i + 1 - w), slot.val);
          WithinMoved(slots, writePos, readPos, v);
          if slot.h == g {
            Beyond(s0, g, d, far, x, i + 1);
          }
          SpanMoved(slots, writePos, readPos, v, g, d, far);
          slots := slots[writePos := v];
          gs := Put(Put(gs, x + w, v), x + (i + 1), Tomb);
          w := w + 1;
        } else {
          ShiftTomb(s0, slots, gs, x, w, i);
          WithinCleared(slots, readPos, Empty);
          SpanCleared(slots, readPos, Empty, g, d, far);
          tombCount := tombCount - 1;
        }
        slots := slots[readPos := Empty];
        i := i + 1;
      }
      ShiftEnd(s0, slots, gs, x, w, len);
      tombCount := tombCount - 1;
    }

    /** After a deletion at idx, shift the chain back when it is closed by an empty slot within the
        look-ahead and no entry would overshoot its ideal slot.  Entries only come nearer to home, and
        those of a hash that a probe has followed to idx do not pass idx. */
    method DeleteCompact(idx: nat, ghost g: nat, ghost d: nat, ghost far: nat)
      requires Inv(slots) && idx < |slots| && slots[idx].Tomb? && tombCount == Tombs(slots)
      requires Span(slots, g, d, far) && At(idx, g + d, |slots|)
      modifies this`slots, this`tombCount
      ensures Inv(slots) && |slots| == old(|slots|) && tombCount == Tombs(slots)
      ensures forall b: nat {:trigger Within(slots, b)} :: Within(old(slots), b) ==> Within(slots, b)
      ensures Entries(slots) == old(Entries(slots)) && Span(slots, g, d, far)
      ensures FilledAhead(old(slots), idx) ==> slots == old(slots)
      ensures Compacted(old(slots), slots, idx)
    {
      hide Inv, Nth, Entries, Tombs, Span, Shifted, CanShift, ShiftOk, StaysFar;
      ModUnique(idx, 0, idx, |slots|);
      NthIs(slots, idx);
      var len, live, ends := ScanChain(idx, idx);
      if ends && live > 0 {
        forall n: nat | Closes(slots, idx, n) ensures n == len {
          ClosesOnce(slots, idx, n, len);
        }
        var safe := ShiftSafe(idx, len);
        if safe {
          CommitShift(idx, len, idx, g, d, far);
        }
      }
    }

    /** Turn the entry at idx into a tombstone and compact. */
    method DeleteAt(idx: nat, ghost g: nat, ghost d: nat, ghost far: nat)
      requires Inv(slots) && idx < |slots| && slots[idx].Live? && tombCount == Tombs(slots) && size >= |Entries(slots)|
      requires Span(slots, g, d, far) && At(idx, g + d, |slots|)
      modifies this`slots, this`size, this`tombCount
      ensures Inv(slots) && |slots| == old(|slots|) && tombCount == Tombs(slots)
      ensures forall b: nat {:trigger Within(slots, b)} :: Within(old(slots), b) ==> Within(slots, b)
      ensures
        var e := old(slots)[idx];
        (e.h, e.val) in old(Entries(slots)) && Entries(slots) == old(Entries(slots)) - multiset{(e.h, e.val)}
      ensures size == old(size) - 1 && size >= |Entries(slots)| && Span(slots, g, d, far)
      ensures FilledAhead(old(slots), idx) ==> slots == old(slots)[idx := Tomb]
      ensures Compacted(old(slots)[idx := Tomb], slots, idx)
    {
      hide Inv, Nth, Entries, Tombs, Span, Within, Compacted;
      ModUnique(idx, 0, idx, |slots|);
      NthIs(slots, idx);
      DeletedContents(slots, idx);
      WithinCleared(slots, idx, Tomb);
      SpanCleared(slots, idx, Tomb, g, d, far);
      StillFilled(slots, idx, Tomb);
      size := size - 1;
      slots := slots[idx := Tomb];
      tombCount := tombCount + 1;
      DeleteCompact(idx, g, d, far);
    }

    /** Remove one (hash, value) pair from the ring: find it by the early-terminating probe, leave
        a tombstone, compact. */
    method RemoveFromRing(h: nat, val: nat) returns (removed: bool)
      requires Inv(slots) && tombCount == Tombs(slots) && size >= |Entries(slots)|
      modifies this`slots, this`size, this`tombCount
      ensures Inv(slots) && |slots| == old(|slots|) && tombCount == Tombs(slots)
      ensures forall b: nat {:trigger Within(slots, b)} :: Within(old(slots), b) ==> Within(slots, b)
      ensures removed <==> (h, val) in old(Entries(slots))
      ensures Entries(slots) == old(Entries(slots)) - multiset{(h, val)}
      ensures size == old(size) - if removed then 1 else 0
      ensures if removed then ClearedAt(old(slots), slots, h, val) else slots == old(slots)
    {
      hide Inv, Nth, Entries, Tombs, Wrapped, NextDist, Span, At, Step, Compacted;
      var cap := |slots|;
      assert cap > 0 by { InvNonempty(slots); }
      AtHome(h, cap);
      WrappedNext(0);
      var idx: nat, dist: nat, steps: nat := h % cap, 0, 0;
      while steps <= cap
        invariant slots == old(slots) && size == old(size) && tombCount == old(tombCount)
        invariant 0 <= steps <= cap + 1 && dist == Wrapped(steps)
        invariant idx < cap && At(idx, h + steps, cap)
        invariant forall i :: 0 <= i < cap && slots[i].Live? && slots[i].h == h && slots[i].val == val ==>
          slots[i].pd >= steps
      {
        var slot := slots[idx];
        AtSlot(slots, idx, h + steps);
        WrappedNext(steps);
        if slot.Empty? || (slot.Live? && slot.pd < dist) {
          break;
        }
        if slot.Live? && slot.h == h && slot.val == val {
          AtSelf(idx, cap);
          DeleteAt(idx, idx, 0, FarthestIn(slots, idx));
          assert ClearedAt(old(slots), slots, h, val);
          return true;
        }
        forall i | 0 <= i < cap && slots[i].Live? && slots[i].h == h && slots[i].val == val
          ensures slots[i].pd >= steps + 1
        {
          if slots[i].pd == steps {
            ProbeSees(slots, h, steps, i);
          }
        }
        AtNext(idx, h + steps, cap);
        idx, dist, steps := Step(idx, 1, cap), NextDist(dist), steps + 1;
      }
      NotBeyond(slots, h, val, steps);
      return false;
    }

    method RemoveFromLane(lane: seq<(nat, nat)>, h: nat, val: nat) returns (removed: bool, lane': seq<(nat, nat)>)
      ensures removed <==> (h, val) in lane
      ensures multiset(lane') == multiset(lane) - multiset{(h, val)}
      ensures |lane'| == |lane| - if removed then 1 else 0
      ensures forall e :: e in lane' ==> e in lane
    {
      var i := 0;
      while i < |lane|
        invariant 0 <= i <= |lane|
        invariant (h, val) !in lane[..i]
      {
        if lane[i] == (h, val) {
          lane' := lane[..i] + lane[i + 1..];
          assert lane == lane[..i] + [lane[i]] + lane[i + 1..];
          return true, lane';
        }
        i := i + 1;
      }
      assert lane[..|lane|] == lane;
      return false, lane;
    }

    /** The stash fills the hole with its last entry. */
    method RemoveFromStash(lane: seq<(nat, nat)>, h: nat, val: nat) returns (removed: bool, lane': seq<(nat, nat)>)
      ensures removed <==> (h, val) in lane
      ensures multiset(lane') == multiset(lane) - multiset{(h, val)}
      ensures |lane'| == |lane| - if removed then 1 else 0
      ensures forall e :: e in lane' ==> e in lane
    {
      var i := 0;
      while i < |lane|
        invariant 0 <= i <= |lane|
        invariant (h, val) !in lane[..i]
      {
        if lane[i] == (h, val) {
          var n := |lane| - 1;
          lane' := lane[i := lane[n]][..n];
          SwapRemove(lane, i);
          SwapSubset(lane, i);
          return true, lane';
        }
        i := i + 1;
      }
      assert lane[..|lane|] == lane;
      return false, lane;
    }

    method RemoveReserved(h: nat, val: nat) returns (removed: bool)
      requires Valid() && h < 2
      modifies this`spill, this`size
      ensures Valid()
      ensures removed <==> (h, val) in old(Bag())
      ensures Bag() == old(Bag()) - multiset{(h, val)}
    {
      hide Inv, Entries, Tombs, Within;
      RemoveOne(Entries(slots), multiset(spill), multiset(overflow), (h, val));
      NotInRing(slots, h);
      assert (h, val) !in multiset(overflow);
      var rest;
      removed, rest := RemoveFromLane(spill, h, val);
      assert forall i :: 0 <= i < |rest| ==> rest[i] in rest;
      spill := rest;
      size := if removed then size - 1 else size;
    }

    method RemoveFromOverflow(h: nat, val: nat) returns (removed: bool)
      requires Valid() && h >= 2 && (h, val) !in Entries(slots)
      modifies this`overflow, this`size
      ensures Valid()
      ensures removed <==> (h, val) in old(Bag())
      ensures Bag() == old(Bag()) - multiset{(h, val)}
    {
      hide Inv, Entries, Tombs, Within;
      RemoveOne(Entries(slots), multiset(spill), multiset(overflow), (h, val));
      assert (h, val) !in multiset(spill);
      NotThere(Entries(slots), (h, val));
      var rest;
      removed, rest := RemoveFromStash(overflow, h, val);
      assert forall i :: 0 <= i < |rest| ==> rest[i] in rest;
      overflow := rest;
      size := if removed then size - 1 else size;
    }

    /** Remove exactly one (hash, value) pair, wherever it is kept. */
    method RemoveVal(hash: nat, val: nat) returns (removed: bool)
      requires Valid()
      modifies this
      ensures Valid()
      ensures removed <==> (hash % HASH_RANGE, val) in old(Bag())
      ensures Bag() == old(Bag()) - multiset{(hash % HASH_RANGE, val)}
    {
      hide Inv, Entries, Tombs, Within;
      var h := hash % HASH_RANGE;
      if h < 2 {
        removed := RemoveReserved(h, val);
        return;
      }
      ghost var e0 := Entries(slots);
      RemoveOne(e0, multiset(spill), multiset(overflow), (h, val));
      removed := RemoveFromRing(h, val);
      assert |Entries(slots)| == |e0| - if removed then 1 else 0;
      if !removed {
        assert Entries(slots) == e0;
        removed := RemoveFromOverflow(h, val);
      }
    }

    // -------------------------------------------------------------- remove all values of a hash

    /** Remove the entries of a hash from the ring.  The loop spends a step on every slot it passes and
        another on every entry it removes, and has one more step than the ring has slots.  So it is complete when
        the farthest entry's distance and the number of entries together do not exceed its steps, and only then in
        a ring that has no empty slot to set off a compaction; and a hash that fills half the ring and a look-ahead
        more loses exactly half the ring and one. */
    method RemoveHash(h: nat, ghost far: nat, ghost m: nat) returns (removed: nat, ghost gone: multiset<(nat, nat)>)
      requires Inv(slots) && tombCount == Tombs(slots) && size >= |Entries(slots)| && Span(slots, h, 0, far)
      modifies this`slots, this`size, this`tombCount
      ensures Inv(slots) && |slots| == old(|slots|) && tombCount == Tombs(slots)
      ensures forall b: nat {:trigger Within(slots, b)} :: Within(old(slots), b) ==> Within(slots, b)
      ensures Entries(slots) + gone == old(Entries(slots)) && |gone| == removed && OfHash(gone, h)
      ensures size == old(size) - removed
      ensures AtMost(old(Entries(slots)), h, m) && far + m <= |slots| + 1 ==> forall v :: (h, v) !in Entries(slots)
      ensures Crowded(old(slots), h, far) && (forall v :: (h, v) !in Entries(slots)) ==> far + removed <= |slots| + 1
      ensures Floods(old(slots), h) ==> removed == |slots| / 2 + 1
    {
      hide Inv, Nth, Entries, Tombs, Wrapped, NextDist, Span, Floods, OfHash, Within, Crowded, Progress,
        FilledAhead, At, Step, AtMost;
      var cap := |slots|;
      assert cap > 0 by { InvNonempty(slots); }
      AtHome(h, cap);
      ghost var s0, all := slots, Entries(slots);
      ghost var d: nat := 0;
      var idx: nat, dist: nat, steps: nat := h % cap, 0, 0;
      removed, gone := 0, multiset{};
      WrappedNext(0);
      NoneOfHash(h);
      ProgressStart(s0, h, far);
      while steps <= cap
        invariant steps == d + removed <= cap + 1 && dist == Wrapped(d) && |slots| == cap
        invariant idx < cap && At(idx, h + d, cap) && Span(slots, h, d, far)
        invariant Inv(slots) && tombCount == Tombs(slots) && size == old(size) - removed && size >= |Entries(slots)|
        invariant forall b: nat {:trigger Within(slots, b)} :: Within(s0, b) ==> Within(slots, b)
        invariant Entries(slots) + gone == all && |gone| == removed && OfHash(gone, h)
        invariant Progress(s0, slots, h, d, far, removed)
      {
        var slot := slots[idx];
        AtSlot(slots, idx, h + d);
        WrappedNext(d);
        if slot.Empty? || (slot.Live? && slot.pd < dist) {
          SpanNone(slots, h, d, far);
          ProgressStops(s0, slots, h, d, far, removed);
          return;
        }
        if slot.Live? && slot.h == h {
          ghost var was := slots;
          DeleteAt(idx, h, d, far);
          ProgressDelete(s0, was, slots, idx, h, d, far, removed);
          OneMoreGone(Entries(was), Entries(slots), gone, all, h, slot.val);
          gone := gone + multiset{(h, slot.val)};
          removed := removed + 1;
        } else {
          SpanPassed(slots, h, d, far);
          ProgressPass(s0, slots, h, d, far, removed);
          AtNext(idx, h + d, cap);
          idx, dist, d := Step(idx, 1, cap), NextDist(dist), d + 1;
        }
        steps := steps + 1;
      }
      ProgressEnd(s0, slots, h, d, far, removed);
      StepsSuffice(slots, gone, all, h, d, far, m, removed);
    }

    /** Remove every pair of a hash from a side lane. */
    method RemoveLaneHash(lane: seq<(nat, nat)>, h: nat)
      returns (removed: nat, lane': seq<(nat, nat)>, ghost gone: multiset<(nat, nat)>)
      ensures multiset(lane') + gone == multiset(lane) && |gone| == removed && OfHash(gone, h)
      ensures |lane'| == |lane| - removed && (forall e :: e in lane' ==> e in lane && e.0 != h)
    {
      removed, lane', gone := 0, [], multiset{};
      var i := 0;
      while i < |lane|
        invariant 0 <= i <= |lane| && |lane'| == i - removed
        invariant multiset(lane') + gone == multiset(lane[..i]) && |gone| == removed && OfHash(gone, h)
        invariant forall e :: e in lane' ==> e in lane && e.0 != h
      {
        assert lane[..i + 1] == lane[..i] + [lane[i]];
        if lane[i].0 == h {
          gone := gone + multiset{lane[i]};
          removed := removed + 1;
        } else {
          lane' := lane' + [lane[i]];
        }
        i := i + 1;
      }
      assert lane[..|lane|] == lane;
    }

    /** Remove all values of a hash: only pairs of that hash go, and all of them when it is reserved or when
        the steps of the ring's loop suffice. */
    method RemoveAll(hash: nat, ghost far: nat, ghost m: nat) returns (removed: nat, ghost gone: multiset<(nat, nat)>)
      requires Valid() && Span(slots, hash % HASH_RANGE, 0, far)
      modifies this
      ensures Valid() && Bag() + gone == old(Bag()) && |gone| == removed && OfHash(gone, hash % HASH_RANGE)
      ensures
        var h := hash % HASH_RANGE;
        h < 2 || (AtMost(old(Entries(slots)), h, m) && far + m <= old(|slots|) + 1) ==> forall v :: (h, v) !in Bag()
    {
      hide Inv, Entries, Tombs, Within, Span, OfHash, AtMost, Floods, Crowded;
      var h := hash % HASH_RANGE;
      if h < 2 {
        removed, gone := RemoveAllReserved(h);
      } else {
        removed, gone := RemoveAllPlain(h, far, m);
      }
    }

    method RemoveAllReserved(h: nat) returns (removed: nat, ghost gone: multiset<(nat, nat)>)
      requires Valid() && h < 2
      modifies this`spill, this`size
      ensures Valid() && Bag() + gone == old(Bag()) && |gone| == removed && OfHash(gone, h)
      ensures forall v :: (h, v) !in Bag()
    {
      hide Inv, Entries, Tombs, Within, OfHash;
      var rest;
      removed, rest, gone := RemoveLaneHash(spill, h);
      NotInRing(slots, h);
      assert forall i :: 0 <= i < |rest| ==> rest[i] in rest;
      LaneGone(Entries(slots), multiset(rest), gone, multiset(overflow));
      spill := rest;
      size := size - removed;
      assert forall v :: (h, v) in multiset(overflow) ==> false;
    }

    method RemoveAllPlain(h: nat, ghost far: nat, ghost m: nat)
      returns (removed: nat, ghost gone: multiset<(nat, nat)>)
      requires Valid() && h >= 2 && Span(slots, h, 0, far)
      modifies this`slots, this`size, this`tombCount, this`overflow
      ensures Valid() && Bag() + gone == old(Bag()) && |gone| == removed && OfHash(gone, h)
      ensures AtMost(old(Entries(slots)), h, m) && far + m <= old(|slots|) + 1 ==> forall v :: (h, v) !in Bag()
    {
      hide Inv, Entries, Tombs, Within, Span, OfHash, AtMost, Floods, Crowded;
      ghost var e0 := Entries(slots);
      var n, g1 := RemoveHash(h, far, m);
      var k, rest, g2 := RemoveLaneHash(overflow, h);
      assert forall i :: 0 <= i < |rest| ==> rest[i] in rest;
      RingAndStashGone(Entries(slots), g1, multiset(spill), multiset(rest), g2, h);
      GoneSize(Entries(slots), g1, e0);
      NowhereLeft(Entries(slots), spill, rest, h);
      overflow := rest;
      size := size - k;
      removed, gone := n + k, g1 + g2;
    }

    // -------------------------------------------------------------- rebuild

    /** A table under reconstruction: no tombstones yet. */
    ghost predicate Rebuilding()
      reads this
    {
      Valid() && tombCount == 0
    }

    /** Put an entry that ran past the probe bound into the stash or, when that is full, into the
        ring after all, giving up the bound. */
    method Overflow(h: nat, val: nat)
      requires Valid() && NoTombRun(slots) && Room(slots) && h >= 2
      modifies this`slots, this`size, this`tombCount, this`overflow, this`violated
      ensures Valid() && NoTombRun(slots) && |slots| == old(|slots|) && tombCount <= old(tombCount)
      ensures Bag() == old(Bag()) + multiset{(h, val)}
      ensures |Entries(slots)| <= old(|Entries(slots)|) + 1
      ensures
        if old(|overflow|) < STASH_CAP then
          slots == old(slots) && overflow == old(overflow) + [(h, val)] && violated == old(violated)
        else overflow == old(overflow) && violated
    {
      hide Inv, Entries, Tombs, Within, Settles, Lands, NoTombRun, Room, Fits, Ends;
      if |overflow| < STASH_CAP {
        overflow := overflow + [(h, val)];
        size := size + 1;
      } else {
        ghost var w := RoomLands(slots, h);
        WithinMore(slots, if violated then MAX_DIST else maxProbe);
        InsertUnbounded(h, val);
        violated := true;
      }
    }

    /** Robin-Hood insertion with the probe bound: one more pair, in the ring or in the stash. */
    method InsertBounded(h: nat, val: nat)
      requires Valid() && NoTombRun(slots) && Room(slots) && h >= 2
      modifies this`slots, this`size, this`tombCount, this`overflow, this`violated
      ensures Valid() && NoTombRun(slots) && |slots| == old(|slots|) && tombCount <= old(tombCount)
      ensures Bag() == old(Bag()) + multiset{(h, val)}
      ensures |Entries(slots)| <= old(|Entries(slots)|) + 1
      ensures overflow == old(overflow) || StashedPast(old(overflow), overflow, slots, maxProbe)
      ensures violated ==> old(violated) || |old(overflow)| == STASH_CAP
    {
      hide Inv, Entries, Tombs, Within, NoTombRun, Room, PastBound, StashedPast;
      ghost var all := Entries(slots) + multiset{(h, val)};
      ghost var s0 := slots;
      var placed, curH, curVal := WalkBounded(h, val, if violated then MAX_DIST else maxProbe);
      if !placed {
        SameRoom(s0, slots, (h, val), (curH, curVal));
        CarryOut(Entries(slots), multiset(spill), multiset(overflow), all, (curH, curVal));
        Overflow(curH, curVal);
        if old(|overflow|) < STASH_CAP {
          StashedOne(old(overflow), (curH, curVal), slots, maxProbe);
        }
      }
    }

    /** The walk of a bounded insertion: it ends in a slot that can be taken, or carries an entry past the bound.
        Blocked tombstones are passed without a look at the bound, but the distance has not reached it then unless
        the bound has been given up; and the slot after one is never free, so where the walk stops the distance is
        within the bound: the code's last test of it, after the tombstone has been counted off, never fires. */
    method WalkBounded(h: nat, val: nat, ghost bound: nat) returns (placed: bool, curH: nat, curVal: nat)
      requires Inv(slots) && tombCount == Tombs(slots) && NoTombRun(slots) && Room(slots) && h >= 2
      requires maxProbe <= bound <= MAX_DIST && Within(slots, bound)
      modifies this`slots, this`size, this`tombCount
      ensures Inv(slots) && |slots| == old(|slots|) && Within(slots, bound) && NoTombRun(slots)
      ensures tombCount == Tombs(slots) <= old(tombCount) && (!placed ==> tombCount == old(tombCount))
      ensures placed ==> Entries(slots) == old(Entries(slots)) + multiset{(h, val)} && size == old(size) + 1
      ensures !placed ==> curH >= 2 && size == old(size) && PastBound(slots, curH, maxProbe)
      ensures !placed ==> Entries(slots) + multiset{(curH, curVal)} == old(Entries(slots)) + multiset{(h, val)}
    {
      hide Reach, Exact, Nth, Put, Entries, Tombs, Reachable, Crossable, Walk, Settles, Within, Lands, NoTombRun, At,
        Near,
        Step, Fits, Ends, NoneBefore, NextDist, Trailing, Room, PastBound;
      var cap := |slots|;
      assert cap > 0 by { InvNonempty(slots); }
      AtHome(h, cap);
      ghost var s0 := slots;
      ghost var near := RoomLands(slots, h);
      ghost var w := Destination(slots, h);
      FirstIsNear(slots, h, w, near);
      ghost var all := Entries(slots) + multiset{(h, val)};
      ghost var x: int, i: int := h, h;
      curH, curVal := h, val;
      var idx: nat := h % cap;
      var dist: nat := 0;
      ReachableStart(slots, h);
      while true
        invariant Reach(slots) && |slots| == cap && NoTombRun(slots) && tombCount == Tombs(slots) == old(tombCount)
        invariant size == old(size) && Entries(slots) + multiset{(curH, curVal)} == all
        invariant Within(slots, bound) && curH >= 2 && dist <= bound
        invariant idx < cap && At(idx, x, cap) && Reachable(slots, x, curH, dist)
        invariant dist == x - i && x <= w && Walk(s0, slots, h, x, i, w)
        invariant dist <= maxProbe || Trailing(slots, x, i)
        decreases w - x
      {
        AtSlot(slots, idx, x);
        var slot := slots[idx];
        var blocked := false;
        if slot.Tomb? {
          blocked := Blocked(idx, dist, x);
        }
        if x == w {
          WalkEnds(s0, slots, h, x, i, w, Live(curH, dist, curVal));
          WalkGap(s0, slots, h, x, i, w);
        }
        if !slot.Live? && !blocked {
          NearAtFirst(s0, h, x);
          PlaceStep(s0, slots, h, x, idx, i, w, Live(curH, dist, curVal), bound);
          assert dist <= maxProbe by {
            if Trailing(slots, x, i) {
              TrailingBlocks(slots, x, i, Live(curH, dist, curVal));
            }
          }
          if slot.Tomb? {
            tombCount := tombCount - 1;
          }
          slots := slots[idx := Live(curH, dist, curVal)];
          size := size + 1;
          return true, curH, curVal;
        }
        if slot.Live? && slot.pd < dist {
          SwapStep(s0, slots, h, x, idx, i, w, Live(curH, dist, curVal), bound);
          slots := slots[idx := Live(curH, dist, curVal)];
          i := x - slot.pd;
          curH, curVal, dist := slot.h, slot.val, slot.pd + 1;
        } else {
          OnStep(s0, slots, h, x, i, w, Live(curH, dist, curVal), blocked, bound);
          dist := NextDist(dist);
        }
        if !blocked && dist > maxProbe {
          WalkExact(s0, slots, h, x + 1, i, w);
          PastHere(slots, x + 1, curH, dist, maxProbe);
          return false, curH, curVal;
        }
        AtNext(idx, x, cap);
        idx := Step(idx, 1, cap);
        x := x + 1;
      }
    }

    /** The same while the table is rebuilt. */
    method Reinsert(h: nat, val: nat)
      requires Rebuilding() && h >= 2 && |Entries(slots)| < |slots| && |Entries(slots)| <= MAX_DIST
      modifies this`slots, this`size, this`tombCount, this`overflow, this`violated
      ensures Rebuilding() && |slots| == old(|slots|)
      ensures Bag() == old(Bag()) + multiset{(h, val)}
      ensures |Entries(slots)| <= old(|Entries(slots)|) + 1
    {
      hide Inv, Entries, Tombs, Within, NoTombRun;
      NoTombs(slots);
      InsertBounded(h, val);
    }

    /** Re-insert every live slot of the old ring. */
    method ReinsertRing(ring: seq<Slot>)
      requires Rebuilding() && (exists b :: Within(ring, b))
      requires |Entries(slots)| + |Entries(ring)| < |slots| && |Entries(slots)| + |Entries(ring)| <= MAX_DIST
      modifies this`slots, this`size, this`tombCount, this`overflow, this`violated
      ensures Rebuilding() && |slots| == old(|slots|)
      ensures Bag() == old(Bag()) + Entries(ring)
      ensures |Entries(slots)| <= old(|Entries(slots)|) + |Entries(ring)|
    {
      hide Rebuilding, Bag, Entries;
      EntriesSnocStart(ring);
      var i := 0;
      while i < |ring|
        invariant 0 <= i <= |ring| && Rebuilding() && |slots| == old(|slots|)
        invariant Bag() == old(Bag()) + Entries(ring[..i])
        invariant |Entries(slots)| <= old(|Entries(slots)|) + |Entries(ring[..i])|
      {
        EntriesPrefix(ring, i + 1);
        EntriesSnoc(ring, i);
        if ring[i].Live? {
          Reinsert(ring[i].h, ring[i].val);
        }
        i := i + 1;
      }
      assert ring[..|ring|] == ring;
    }

    method ReinsertStash(lane: seq<(nat, nat)>)
      requires Rebuilding() && forall i :: 0 <= i < |lane| ==> lane[i].0 >= 2
      requires |Entries(slots)| + |lane| < |slots| && |Entries(slots)| + |lane| <= MAX_DIST
      modifies this`slots, this`size, this`tombCount, this`overflow, this`violated
      ensures Rebuilding() && |slots| == old(|slots|)
      ensures Bag() == old(Bag()) + multiset(lane)
      ensures |Entries(slots)| <= old(|Entries(slots)|) + |lane|
    {
      hide Rebuilding, Bag, Entries;
      var i := 0;
      while i < |lane|
        invariant 0 <= i <= |lane| && Rebuilding() && |slots| == old(|slots|)
        invariant Bag() == old(Bag()) + multiset(lane[..i])
        invariant |Entries(slots)| <= old(|Entries(slots)|) + i
      {
        Reinsert(lane[i].0, lane[i].1);
        assert lane[..i + 1] == lane[..i] + [lane[i]];
        i := i + 1;
      }
      assert lane[..|lane|] == lane;
    }

    method ReinsertSpill(lane: seq<(nat, nat)>)
      requires Rebuilding() && spill == [] && forall i :: 0 <= i < |lane| ==> lane[i].0 < 2
      modifies this`spill, this`size
      ensures Rebuilding() && Bag() == old(Bag()) + multiset(lane)
    {
      hide Inv, Entries, Tombs, Within;
      spill := lane;
      size := size + |lane|;
    }

    /** Tombstones in every spacing-th slot that is empty, as room for later insertions. */
    method PlaceProphylacticTombstones(spacing: nat)
      requires Rebuilding() && spacing >= 4
      modifies this`slots, this`tombCount
      ensures Valid() && |slots| == old(|slots|) && Entries(slots) == old(Entries(slots))
      ensures tombCount <= (|slots| + 3) / 4
      ensures forall i :: 0 <= i < |slots| ==>
        slots[i] == if old(slots)[i].Empty? && i % spacing == 0 then Tomb else old(slots)[i]
      ensures forall i :: 0 <= i < |slots| && slots[i].Tomb? ==> i % spacing == 0
    {
      hide Inv, Tombs, Entries, Seeded;
      ghost var s0 := slots;
      NothingSeeded(slots, spacing);
      var pos := 0;
      while pos < |slots|
        invariant 0 <= pos && pos % spacing == 0 && tombCount * 4 <= pos <= |slots| + spacing - 1
        invariant tombCount <= (if pos <= |slots| then (pos + 3) / 4 else (|slots| + 3) / 4)
        invariant Valid() && |slots| == old(|slots|) && Entries(slots) == old(Entries(slots))
        invariant Seeded(s0, slots, spacing, pos)
      {
        SeedNext(s0, slots, spacing, pos);
        if slots[pos].Empty? {
          ModUnique(pos, 0, pos, |slots|);
          TombKeepsInv(slots, pos);
          SameContents(slots, pos, Tomb);
          WithinCleared(slots, pos, Tomb);
          slots := slots[pos := Tomb];
          tombCount := tombCount + 1;
        }
        ModShift(pos, 1, spacing);
        pos := pos + spacing;
      }
      SeededAll(s0, slots, spacing, pos);
    }

    /** Rebuild into a fresh ring of at least twice the number of entries: the same bag, every
        entry findable, an empty slot left and no long run of tombstones. */
    method Resize(spacing: nat)
      requires Valid() && spacing >= 4 && size < DIST_RANGE
      modifies this
      ensures Valid() && Bag() == old(Bag()) && size == old(size) && |slots| == CapacityFor(size)
      ensures NoTombRun(slots) && exists i :: 0 <= i < |slots| && slots[i].Empty?
      ensures old(size) <= DIST_RANGE / 2 ==> Room(slots)
      ensures forall i :: 0 <= i < |slots| ==> if i % spacing == 0 then !slots[i].Empty? else !slots[i].Tomb?
    {
      hide Inv, Tombs, Entries, Within;
      BagSize(Entries(slots), spill, overflow);
      Reload(CapacityFor(size));
      BagSize(Entries(slots), spill, overflow);
      ghost var e := |Entries(slots)|;
      PlaceProphylacticTombstones(spacing);
      SpacedTombs(slots, spacing);
      RoomLeft(e, tombCount, |slots|);
      SomeEmpty(slots);
      if size <= DIST_RANGE / 2 {
        CapacityInRange(size);
      }
    }

    /** The table's insertion.  Whether the load calls for a rebuild and whether a full spill lane finds memory are
        inputs; a full stash calls for a rebuild too. */
    method Insert(hash: nat, val: nat, overloaded: bool, grown: bool, spacing: nat) returns (ok: bool)
      requires Valid() && spacing >= 4
      requires val != VAL_NONE && hash % HASH_RANGE >= 2 ==>
        if overloaded || |overflow| == STASH_CAP then size <= DIST_RANGE / 2 else NoTombRun(slots) && Room(slots)
      modifies this
      ensures Valid() && (ok && hash % HASH_RANGE >= 2 ==> NoTombRun(slots))
      ensures ok <==> val != VAL_NONE && (hash % HASH_RANGE < 2 ==> grown)
      ensures Bag() == old(Bag()) + if ok then multiset{(hash % HASH_RANGE, val)} else multiset{}
    {
      hide Inv, Tombs, Entries, Within, NoTombRun, Room;
      var h := hash % HASH_RANGE;
      if val == VAL_NONE {
        return false;
      }
      if h < 2 {
        ok := SpillInsert(h, val, grown);
        return;
      }
      if overloaded {
        Resize(spacing);
      }
      if |overflow| == STASH_CAP {
        Resize(spacing);
      }
      InsertBounded(h, val);
      return true;
    }

    /** Empty the table into a fresh ring of the given capacity. */
    method Reload(cap: nat)
      requires Valid() && size < DIST_RANGE && cap >= 4 && cap >= 2 * size
      modifies this
      ensures Rebuilding() && Bag() == old(Bag()) && |slots| == cap && 2 * |Entries(slots)| <= cap
    {
      hide Inv, Tombs, Entries, Within;
      var ring, oldSpill, oldOverflow := slots, spill, overflow;
      slots := seq(cap, i => Empty);
      size, tombCount, spill, overflow, violated := 0, 0, [], [], false;
      EmptyRing(slots, maxProbe);
      ReinsertRing(ring);
      ReinsertSpill(oldSpill);
      ReinsertStash(oldOverflow);
      RebuiltBag(Entries(ring), multiset(oldSpill), multiset(oldOverflow));
    }
  }

  /** One entry of the pair has become a tombstone, and the chain after it has been compacted. */
  ghost predicate ClearedAt(s0: seq<Slot>, s: seq<Slot>, h: nat, val: nat) {
    exists idx: nat {:trigger s0[idx]} :: idx < |s0| && s0[idx].Live? && s0[idx].h == h && s0[idx].val == val
      && Compacted(s0[idx := Tomb], s, idx)
  }

  /** The first pair of the hash in a side lane has this value. */
  ghost predicate FirstIn(lane: seq<(nat, nat)>, h: nat, v: nat) {
    exists i :: 0 <= i < |lane| && lane[i] == (h, v) && forall j :: 0 <= j < i ==> lane[j].0 != h
  }

  /** The entry of the hash that is nearest to home has this value. */
  ghost predicate Nearest(s: seq<Slot>, h: nat, v: nat) {
    exists i :: 0 <= i < |s| && s[i].Live? && s[i].h == h && s[i].val == v
      && forall j :: 0 <= j < |s| && s[j].Live? && s[j].h == h ==> s[i].pd <= s[j].pd
  }

  lemma {:induction false} NearestHere(s: seq<Slot>, h: nat, d: nat, idx: nat)
    requires Inv(s) && At(idx, h + d, |s|) && idx < |s| && s[idx].Live? && s[idx].h == h && d <= |s|
    requires forall j :: 0 <= j < |s| && s[j].Live? && s[j].h == h ==> s[j].pd >= d
    ensures Nearest(s, h, s[idx].val)
  {
    EntryPlace(s, idx);
    ModInjective(h + s[idx].pd, h + d, |s|);
  }

  /** Half the ring for entries and a quarter for tombstones leave room. */
  lemma {:induction false} RoomLeft(e: nat, t: nat, cap: nat)
    requires cap >= 4 && 2 * e <= cap && t <= (cap + 3) / 4
    ensures e + t < cap
  {
  }

  lemma {:induction false} NotInRing(s: seq<Slot>, h: nat)
    requires h < 2 && exists b :: Within(s, b)
    ensures forall v :: (h, v) !in Entries(s)
  {
    forall v: nat ensures (h, v) !in Entries(s) {
      EntryAt(s, h, v);
    }
  }

  lemma {:induction false} DeletedContents(s: seq<Slot>, x: int)
    requires Inv(s) && Nth(s, x).Live?
    ensures
      var e, s' := Nth(s, x), s[x % |s| := Tomb];
      && Inv(s') && Tombs(s') == Tombs(s) + 1
      && (e.h, e.val) in Entries(s) && Entries(s') == Entries(s) - multiset{(e.h, e.val)}
      && |Entries(s)| > 0
  {
    hide Entries, Tombs, Inv;
    InvNonempty(s);
    TombKeepsInv(s, x);
    UpdateContents(s, x % |s|, Tomb);
    EntryAt(s, Nth(s, x).h, Nth(s, x).val);
    var e, s' := Nth(s, x), s[x % |s| := Tomb];
    assert Entries(s') + multiset{(e.h, e.val)} == Entries(s);
  }

  lemma {:induction false} NotBeyond(s: seq<Slot>, h: nat, val: nat, d: nat)
    requires Inv(s)
    requires forall i :: 0 <= i < |s| && s[i].Live? && s[i].h == h && s[i].val == val ==> s[i].pd >= d
    requires !Passable(Nth(s, h + d), d) || d > |s|
    ensures (h, val) !in Entries(s)
  {
    EntryAt(s, h, val);
    if i :| 0 <= i < |s| && s[i].Live? && s[i].h == h && s[i].val == val {
      EntryPlace(s, i);
      ProbeStops(s, h, d, i);
    }
  }

  /** Removing a pair from the one lane that can hold it removes it from the bag. */
  lemma {:induction false} RemoveOne(e: multiset<(nat, nat)>, s: multiset<(nat, nat)>, o: multiset<(nat, nat)>,
      p: (nat, nat))
    ensures p in e ==> e - multiset{p} + s + o == e + s + o - multiset{p}
    ensures p !in e && p !in o ==> e + (s - multiset{p}) + o == e + s + o - multiset{p}
    ensures p !in e && p !in s ==> e - multiset{p} + s + (o - multiset{p}) == e + s + o - multiset{p}
  {
  }

  lemma {:induction false} NotThere(e: multiset<(nat, nat)>, p: (nat, nat))
    requires p !in e
    ensures e - multiset{p} == e
  {
  }

  lemma {:induction false} SwapRemove(lane: seq<(nat, nat)>, i: nat)
    requires i < |lane|
    ensures
      var n := |lane| - 1;
      multiset(lane[i := lane[n]][..n]) == multiset(lane) - multiset{lane[i]}
  {
    var n := |lane| - 1;
    if i == n {
      assert lane[i := lane[n]][..n] == lane[..n];
      assert lane == lane[..n] + [lane[n]];
    } else {
      assert lane == lane[..i] + [lane[i]] + lane[i + 1..n] + [lane[n]];
      assert lane[i := lane[n]][..n] == lane[..i] + [lane[n]] + lane[i + 1..n];
      SwapParts(lane[..i], lane[i], lane[i + 1..n], lane[n]);
    }
  }

  lemma {:induction false} SwapSubset(lane: seq<(nat, nat)>, i: nat)
    requires i < |lane|
    ensures forall e :: e in lane[i := lane[|lane| - 1]][..|lane| - 1] ==> e in lane
  {
    var n := |lane| - 1;
    var rest := lane[i := lane[n]][..n];
    forall e | e in rest ensures e in lane {
      var k :| 0 <= k < n && rest[k] == e;
      assert e == lane[k] || e == lane[n];
    }
  }

  lemma {:induction false} SwapParts(a: seq<(nat, nat)>, x: (nat, nat), b: seq<(nat, nat)>, y: (nat, nat))
    ensures multiset(a + [y] + b) == multiset(a + [x] + b + [y]) - multiset{x}
  {
    assert multiset(a + [y] + b) == multiset(a) + multiset{y} + multiset(b);
    assert multiset(a + [x] + b + [y]) == multiset(a) + multiset{x} + multiset(b) + multiset{y};
  }

  /** One entry has come to the stash, whose probe gets beyond the bound. */
  ghost predicate StashedPast(was: seq<(nat, nat)>, now: seq<(nat, nat)>, s: seq<Slot>, bound: nat) {
    |now| == |was| + 1 && now[..|was|] == was && PastBound(s, now[|was|].0, bound)
  }

  lemma {:induction false} StashedOne(was: seq<(nat, nat)>, e: (nat, nat), s: seq<Slot>, bound: nat)
    requires PastBound(s, e.0, bound)
    ensures StashedPast(was, was + [e], s, bound)
  {
  }

  lemma {:induction false} SameRoom(s: seq<Slot>, s': seq<Slot>, p: (nat, nat), p': (nat, nat))
    requires Room(s) && |s'| == |s| && Tombs(s') == Tombs(s) && Entries(s') + multiset{p'} == Entries(s) + multiset{p}
    ensures Room(s')
  {
    assert |Entries(s') + multiset{p'}| == |Entries(s')| + 1;
    assert |Entries(s) + multiset{p}| == |Entries(s)| + 1;
  }

  lemma {:induction false} CarryOut(e: multiset<(nat, nat)>, s: multiset<(nat, nat)>, o: multiset<(nat, nat)>,
      all: multiset<(nat, nat)>, p: (nat, nat))
    requires e + multiset{p} == all
    ensures e + s + o + multiset{p} == all + s + o && |e| + 1 == |all|
  {
  }

  function Pow2Above(p: nat, n: nat): (r: nat)
    requires p >= 4
    ensures r >= p && r >= n
    decreases n - p
  {
    if p >= n then p else Pow2Above(2 * p, n)
  }

  /** Doubling stops at the least power of two that is large enough. */
  lemma {:induction false} Pow2AboveIs(k: nat, n: nat)
    requires Pow2(k) >= 4
    ensures
      var r := Pow2Above(Pow2(k), n);
      && (r == Pow2(k) || r < 2 * n) && exists m: nat :: m >= k && r == Pow2(m)
    decreases n - Pow2(k)
  {
    if Pow2(k) < n {
      assert Pow2(k + 1) == 2 * Pow2(k);
      Pow2AboveIs(k + 1, n);
      var m: nat :| m >= k + 1 && Pow2Above(Pow2(k + 1), n) == Pow2(m);
    }
  }

  /** The least power of two that is at least 4 and not below the capacity asked for. */
  function CapacityOf(capacity: nat): (cap: nat)
    ensures cap >= 4 && cap >= capacity && (cap == 4 || cap < 2 * capacity)
    ensures exists m: nat :: cap == Pow2(m)
  {
    assert Pow2(2) == 4;
    Pow2AboveIs(2, capacity);
    Pow2Above(4, capacity)
  }

  /** next_pow2(2 * size), at least 4. */
  function CapacityFor(size: nat): (cap: nat)
    ensures cap >= 4 && cap >= 2 * size && (cap == 4 || cap < 4 * size)
    ensures exists m: nat :: cap == Pow2(m)
  {
    CapacityOf(2 * size)
  }

  lemma {:induction false} CapacityInRange(size: nat)
    requires size <= DIST_RANGE / 2
    ensures CapacityFor(size) <= DIST_RANGE
  {
    hide Pow2;
    PowZero();
    Pow2Byte(0);
    Pow2Byte(8);
    var m: nat :| CapacityFor(size) == Pow2(m);
    if m >= 17 {
      Pow2Monotone(17, m);
      TwicePow2(16);
    } else {
      Pow2Monotone(m, 16);
    }
  }

  lemma {:induction false} TwicePow2(k: nat)
    ensures Pow2(k + 1) == 2 * Pow2(k)
  {
  }

  lemma {:induction false} BagSize(e: multiset<(nat, nat)>, s: seq<(nat, nat)>, o: seq<(nat, nat)>)
    ensures |e + multiset(s) + multiset(o)| == |e| + |s| + |o|
  {
  }

  lemma {:induction false} EmptyRing(s: seq<Slot>, b: nat)
    requires |s| > 0 && forall i :: 0 <= i < |s| ==> s[i].Empty?
    ensures Inv(s) && Entries(s) == multiset{} && Tombs(s) == 0 && Within(s, b)
  {
    NothingInside(s);
    forall x: int ensures EntryOk(s, x) {
      assert s[x % |s|].Empty?;
    }
  }

  lemma {:induction false} NothingInside(s: seq<Slot>)
    requires forall i :: 0 <= i < |s| ==> s[i].Empty?
    ensures Entries(s) == multiset{} && Tombs(s) == 0
  {
    if s != [] {
      NothingInside(s[..|s| - 1]);
    }
  }

  lemma {:induction false} RebuiltBag(e: multiset<(nat, nat)>, s: multiset<(nat, nat)>, o: multiset<(nat, nat)>)
    ensures e + s + o == multiset{} + multiset{} + multiset{} + e + s + o
  {
  }

  /** Tombstones four or more slots apart never fill a look-ahead, not even across the seam. */
  lemma {:induction false} SpacedTombs(s: seq<Slot>, spacing: nat)
    requires |s| >= 4 && spacing >= 4 && forall i :: 0 <= i < |s| && s[i].Tomb? ==> i % spacing == 0
    ensures NoTombRun(s)
  {
    forall x: int | Nth(s, x).Tomb? ensures SeenPast(s, x) {
      var i := x % |s|;
      ModStep(x, |s|);
      if i + 1 < |s| {
        ModUnique(i + 1, 0, i + 1, |s|);
        NextNotMultiple(i, spacing);
        assert !Nth(s, x + 1).Tomb?;
      } else {
        ModStep(x + 1, |s|);
        ModUnique(|s|, 1, 0, |s|);
        ModUnique(1, 0, 1, |s|);
        ModUnique(1, 0, 1, spacing);
        assert !Nth(s, x + 2).Tomb?;
      }
    }
  }

  /** Every empty slot before pos whose index is a multiple of the spacing has become a tombstone. */
  ghost predicate Seeded(s0: seq<Slot>, s: seq<Slot>, spacing: nat, pos: nat)
    requires spacing > 0
  {
    |s| == |s0| && forall i :: 0 <= i < |s| ==>
      s[i] == if i < pos && s0[i].Empty? && i % spacing == 0 then Tomb else s0[i]
  }

  lemma {:induction false} NothingSeeded(s: seq<Slot>, spacing: nat)
    requires spacing > 0
    ensures Seeded(s, s, spacing, 0)
  {
  }

  lemma {:induction false} SeedNext(s0: seq<Slot>, s: seq<Slot>, spacing: nat, pos: nat)
    requires spacing > 0 && Seeded(s0, s, spacing, pos) && pos < |s| && pos % spacing == 0
    ensures Seeded(s0, if s[pos].Empty? then s[pos := Tomb] else s, spacing, pos + spacing)
  {
    forall i | pos < i < pos + spacing ensures i % spacing != 0 {
      ModUnique(i, pos / spacing, i - pos, spacing);
    }
  }

  lemma {:induction false} SeededAll(s0: seq<Slot>, s: seq<Slot>, spacing: nat, pos: nat)
    requires spacing > 0 && Seeded(s0, s, spacing, pos) && pos >= |s| && Tombs(s0) == 0
    ensures forall i :: 0 <= i < |s| ==> s[i] == if s0[i].Empty? && i % spacing == 0 then Tomb else s0[i]
    ensures forall i :: 0 <= i < |s| && s[i].Tomb? ==> i % spacing == 0
  {
    forall i | 0 <= i < |s| ensures !s0[i].Tomb? {
      TombFree(s0, i);
    }
  }

  lemma {:induction false} NextNotMultiple(i: nat, n: nat)
    requires n >= 4 && i % n == 0
    ensures (i + 1) % n == 1
  {
    ModStep(i, n);
    ModUnique(1, 0, 1, n);
  }
}
