/** The table operations inside one generation, with the hints that let them skip work:
    control bytes, remap counters, stash live counts and the front cache. */
module HtcTable {
  import opened Options
  import opened HtcControl
  import opened HtcModel
  import opened HtcDisplacement
  import opened HtcSearch

  datatype Status = OK | DUPLICATE | NOT_FOUND | OOM | STASH_FULL

  datatype CacheEntry = Invalid | Cached(hash: nat, idx: nat, generation: nat)

  /** Where a key was found. */
  datatype Location = InBucket(p: nat) | InStash(i: nat) | Missing

  const FRONT_CACHE := 128
  /** The slot a scan looks for: the key's record, live, under its tag, with the wanted flag. */
  ghost predicate Matches(st: State, p: nat, h: nat, tag: nat, sec: bool) {
    && p < |st.slots| && st.slots[p].Live? && st.slots[p].tag == tag && st.slots[p].sec == sec
    && st.slots[p].idx in st.arena && st.arena[st.slots[p].idx].identity == h
    && !st.arena[st.slots[p].idx].dead
  }

  /** An entry of the front cache whose generation is current names the record of its key,
      unless that record has been deleted. */
  ghost predicate CacheOk(st: State, e: CacheEntry) {
    e.Cached? ==>
      && e.idx in st.arena && e.generation <= st.arena[e.idx].generation
      && (e.generation == st.arena[e.idx].generation ==>
            && st.arena[e.idx].identity == e.hash
            && (st.arena[e.idx].dead || Lookup(st, e.hash) == Some(e.idx)))
  }

  /** The entry is for h and still current. */
  predicate Hits(arena: map<nat, Record>, e: CacheEntry, h: nat) {
    && e.Cached? && e.hash == h && e.idx in arena
    && arena[e.idx].generation == e.generation && arena[e.idx].identity == h && !arena[e.idx].dead
  }

  /** How operations may change records: a record either gets a new generation, or keeps its
      key, stays deleted once deleted, and stays filed while it is not. */
  ghost predicate Evolves(st: State, st': State) {
    forall i {:trigger i in st.arena} :: i in st.arena ==>
      && i in st'.arena
      && var r, r' := st.arena[i], st'.arena[i];
         || r'.generation > r.generation
         || (&& r'.generation == r.generation && r'.identity == r.identity && (r.dead ==> r'.dead)
             && (!r'.dead && Lookup(st, r.identity) == Some(i) ==> Lookup(st', r.identity) == Some(i)))
  }

  lemma {:induction false} CacheKept(st: State, st': State, e: CacheEntry)
    requires CacheOk(st, e) && Evolves(st, st')
    ensures CacheOk(st', e)
  {
  }

  class Table {
    const g: Geometry

    var slots: seq<Slot>
    var ctrl: seq<Ctrl>
    var remap: seq<Remap>
    var stash: seq<Slot>
    var stashLive: seq<nat>
    var arena: map<nat, Record>
    var cache: seq<CacheEntry>
    var cachePos: nat

    constructor (g: Geometry)
      requires g.Ok()
      ensures this.g == g && Valid() && forall h :: Get(View(), h) == None
    {
      this.g := g;
      slots := seq(BUCKET * g.numBuckets, i => Empty);
      ctrl := seq(g.numBuckets, i => seq(8, j => 0));
      remap := seq(g.numBuckets, i => Remap(0, {}));
      stash := seq(STASH * g.shards, i => Empty);
      stashLive := seq(g.shards, i => 0);
      arena := map[];
      cache := seq(FRONT_CACHE, i => Invalid);
      cachePos := 0;
      new;
      EmptyInv(g, View());
    }

    /** The epoch collector returns a retired record to the arena: its generation moves on. */
    method Reclaim(idx: nat)
      requires Valid() && idx in arena && Unreferenced(View(), idx)
      modifies this`arena
      ensures Valid() && forall h :: Get(View(), h) == old(Get(View(), h))
      ensures
        var r := old(arena)[idx];
        arena == old(arena)[idx := r.(identity := 0, placement := 0, value := 0, generation := r.generation + 1)]
    {
      hide Inv;
      ghost var s0 := View();
      var r := arena[idx];
      var freed := Record(0, 0, r.generation + 1, r.dead, 0);
      arena := arena[idx := freed];
      ArenaKeepsInv(g, s0, idx, freed);
      forall h ensures Lookup(View(), h) == Lookup(s0, h) && Get(View(), h) == Get(s0, h) {
        ArenaLookup(g, s0, idx, freed, h);
        NotLookedUp(s0, idx, h);
      }
      KeepCache(s0);
    }

    ghost function View(): (st: State)
      reads this
    {
      State(slots, ctrl, remap, stash, stashLive, arena)
    }

    ghost predicate Valid()
      reads this
    {
      && Inv(g, View())
      && |cache| == FRONT_CACHE
      && (forall i :: 0 <= i < |cache| ==> CacheOk(View(), cache[i]))
    }

    // -------------------------------------------------------------- scans

    /** The first slot of bucket b that matches, found through the control word. */
    method BucketScan(b: nat, h: nat, tag: nat, sec: bool) returns (r: Option<nat>)
      requires Inv(g, View()) && b < g.numBuckets
      ensures r.None? ==> forall p :: BUCKET * b <= p < BUCKET * b + BUCKET ==> !Matches(View(), p, h, tag, sec)
      ensures r.Some? ==> r.value < BUCKET && Matches(View(), BUCKET * b + r.value, h, tag, sec)
      ensures r.Some? ==> forall p :: BUCKET * b <= p < BUCKET * b + r.value ==> !Matches(View(), p, h, tag, sec)
    {
      hide Inv, Match8, Cells, Lowest;
      StashOf(g, View());
      var mask := Match8(ctrl[b], g.partial(tag));
      forall p | BUCKET * b <= p < BUCKET * b + BUCKET && Matches(View(), p, h, tag, sec)
        ensures p - BUCKET * b in mask
      {
        InvSlot(g, View(), p);
        MatchNeverMisses(ctrl[b], g.partial(tag), p - BUCKET * b);
      }
      ghost var lo := 0;
      while mask != {}
        invariant 0 <= lo <= BUCKET
        invariant forall i :: i in mask ==> lo <= i < BUCKET
        invariant forall p :: BUCKET * b <= p < BUCKET * b + BUCKET && Matches(View(), p, h, tag, sec) ==>
          p - BUCKET * b in mask
        decreases BUCKET - lo
      {
        var c :| c in mask;
        var i := Lowest(mask, 0);
        mask := mask - {i};
        var w := slots[BUCKET * b + i];
        InvSlot(g, View(), BUCKET * b + i);
        if w.Live? && w.sec == sec && w.tag == tag && arena[w.idx].identity == h && !arena[w.idx].dead {
          return Some(i);
        }
        lo := i + 1;
      }
      return None;
    }

    method StashFind(sh: nat, h: nat, tag: nat) returns (r: Option<nat>)
      requires Inv(g, View()) && sh < g.shards
      ensures r.Some? ==>
        r.value < |stash| && r.value / STASH == sh &&
        Holds(Cells(View()), arena, |slots| + r.value, h)
      ensures r.None? ==> forall i :: STASH * sh <= i < STASH * sh + STASH && stash[i].Live? && stash[i].tag == tag ==>
        !Holds(Cells(View()), arena, |slots| + i, h)
    {
      hide Inv;
      StashOf(g, View());
      if stashLive[sh] == 0 {
        NoneStashed(g, View(), sh);
        return None;
      }
      var i := 0;
      while i < STASH
        invariant 0 <= i <= STASH
        invariant forall j :: STASH * sh <= j < STASH * sh + i && stash[j].Live? && stash[j].tag == tag ==>
          !Holds(Cells(View()), arena, |slots| + j, h)
      {
        var w := stash[STASH * sh + i];
        assert StashOk(g, View(), STASH * sh + i);
        assert Cells(View())[|slots| + (STASH * sh + i)] == w;
        if w.Live? && w.tag == tag && arena[w.idx].identity == h && !arena[w.idx].dead {
          return Some(STASH * sh + i);
        }
        i := i + 1;
      }
      return None;
    }

    /** The search all operations share: primary bucket, secondary bucket only if the remap
        hints ask for it, then the stash of the shard. */
    method Locate(h: nat) returns (loc: Location)
      requires Inv(g, View())
      ensures loc.InBucket? ==> loc.p < |slots| && Holds(Cells(View()), arena, loc.p, h)
      ensures loc.InStash? ==> loc.i < |stash| && Holds(Cells(View()), arena, |slots| + loc.i, h)
      ensures loc.Missing? ==> Absent(View(), h)
    {
      hide Inv;
      StashOf(g, View());
      var ph := g.place(h);
      var tag, b1, b2 := g.tag(ph), g.primary(ph), g.secondary(ph);
      var r := BucketScan(b1, h, tag, false);
      if r.Some? {
        return InBucket(BUCKET * b1 + r.value);
      }
      if MustCheckSecondary(remap[b1], tag) {
        r := BucketScan(b2, h, tag, true);
        if r.Some? {
          return InBucket(BUCKET * b2 + r.value);
        }
      }
      r := StashFind(b1 % g.shards, h, tag);
      if r.Some? {
        return InStash(r.value);
      }
      NotMissed(g, View(), h);
      return Missing;
    }

    /** The reference search that ignores every hint. */
    method SlowLocate(h: nat) returns (loc: Location)
      requires Inv(g, View())
      ensures loc.InBucket? ==> loc.p < |slots| && Holds(Cells(View()), arena, loc.p, h)
      ensures loc.InStash? ==> loc.i < |stash| && Holds(Cells(View()), arena, |slots| + loc.i, h)
      ensures loc.Missing? ==> Absent(View(), h)
    {
      hide Inv;
      StashOf(g, View());
      var ph := g.place(h);
      var tag, b1, b2 := g.tag(ph), g.primary(ph), g.secondary(ph);
      var r := PlainScan(b1, h, tag, false);
      if r.Some? {
        return InBucket(BUCKET * b1 + r.value);
      }
      r := PlainScan(b2, h, tag, true);
      if r.Some? {
        return InBucket(BUCKET * b2 + r.value);
      }
      var sh, i := b1 % g.shards, 0;
      while i < STASH
        invariant 0 <= i <= STASH
        invariant forall j :: STASH * sh <= j < STASH * sh + i && stash[j].Live? && stash[j].tag == tag ==>
          !Holds(Cells(View()), arena, |slots| + j, h)
      {
        var w := stash[STASH * sh + i];
        assert StashOk(g, View(), STASH * sh + i);
        assert Cells(View())[|slots| + (STASH * sh + i)] == w;
        if w.Live? && w.tag == tag && arena[w.idx].identity == h && !arena[w.idx].dead {
          return InStash(STASH * sh + i);
        }
        i := i + 1;
      }
      NotMissed(g, View(), h);
      return Missing;
    }

    method PlainScan(b: nat, h: nat, tag: nat, sec: bool) returns (r: Option<nat>)
      requires Inv(g, View()) && b < g.numBuckets
      ensures r.None? ==> forall p :: BUCKET * b <= p < BUCKET * b + BUCKET ==> !Matches(View(), p, h, tag, sec)
      ensures r.Some? ==> r.value < BUCKET && Matches(View(), BUCKET * b + r.value, h, tag, sec)
      ensures r.Some? ==> forall p :: BUCKET * b <= p < BUCKET * b + r.value ==> !Matches(View(), p, h, tag, sec)
    {
      hide Inv;
      StashOf(g, View());
      var i := 0;
      while i < BUCKET
        invariant 0 <= i <= BUCKET
        invariant forall p :: BUCKET * b <= p < BUCKET * b + i ==> !Matches(View(), p, h, tag, sec)
      {
        var w := slots[BUCKET * b + i];
        InvSlot(g, View(), BUCKET * b + i);
        if w.Live? && w.tag == tag && w.sec == sec && arena[w.idx].identity == h && !arena[w.idx].dead {
          return Some(i);
        }
        i := i + 1;
      }
      return None;
    }

    // -------------------------------------------------------------- find

    method FrontCacheLookup(h: nat) returns (r: Option<nat>)
      requires Valid()
      ensures r.Some? ==> r == Get(View(), h)
      ensures r.Some? <==> exists i: nat :: i < |cache| && Hits(arena, cache[i], h)
    {
      hide Inv;
      var i: nat := 0;
      while i < FRONT_CACHE
        invariant i <= FRONT_CACHE
        invariant forall j: nat :: j < i ==> !Hits(arena, cache[j], h)
      {
        var e := cache[i];
        if e.Cached? && e.hash == h && e.idx in arena {
          assert CacheOk(View(), e);
          var rec := arena[e.idx];
          if rec.generation == e.generation && rec.identity == h && !rec.dead {
            assert Hits(arena, cache[i], h);
            return Some(rec.value);
          }
        }
        i := i + 1;
      }
      return None;
    }

    method FrontCacheInsert(h: nat, idx: nat)
      requires Valid() && Lookup(View(), h) == Some(idx)
      modifies this`cache, this`cachePos
      ensures Valid() && cachePos == old(cachePos) + 1
      ensures cache == old(cache)[old(cachePos) % FRONT_CACHE := Cached(h, idx, arena[idx].generation)]
    {
      hide Inv;
      cache := cache[cachePos % FRONT_CACHE := Cached(h, idx, arena[idx].generation)];
      cachePos := cachePos + 1;
    }

    method Find(h: nat) returns (r: Option<nat>)
      requires Valid()
      modifies this`cache, this`cachePos
      ensures Valid()
      ensures r == Get(View(), h)
      ensures r.Some? ==> exists i: nat :: i < |cache| && Hits(arena, cache[i], h)
    {
      hide Inv;
      r := FrontCacheLookup(h);
      if r.Some? {
        return;
      }
      var loc := Locate(h);
      StashOf(g, View());
      AbsentIffNone(View(), h);
      if loc.Missing? {
        return None;
      }
      var k := if loc.InBucket? then loc.p else |slots| + loc.i;
      LookupAt(View(), k, h);
      var w := if loc.InBucket? then slots[loc.p] else stash[loc.i];
      WhereKeysAre(g, View(), k, h);
      ghost var pos := cachePos % FRONT_CACHE;
      FrontCacheInsert(h, w.idx);
      assert Hits(arena, cache[pos], h);
      return Some(arena[w.idx].value);
    }

    /** The oracle: no control bytes, no remap hints, no cache. */
    method SlowFind(h: nat) returns (r: Option<nat>)
      requires Inv(g, View())
      ensures r == Get(View(), h)
    {
      hide Inv;
      var loc := SlowLocate(h);
      StashOf(g, View());
      AbsentIffNone(View(), h);
      if loc.Missing? {
        return None;
      }
      var k := if loc.InBucket? then loc.p else |slots| + loc.i;
      LookupAt(View(), k, h);
      var w := if loc.InBucket? then slots[loc.p] else stash[loc.i];
      return Some(arena[w.idx].value);
    }

    // -------------------------------------------------------------- update and remove

    method Update(h: nat, v: nat) returns (st: Status)
      requires Valid()
      modifies this`arena
      ensures Valid()
      ensures st == (if old(Get(View(), h)).Some? then OK else NOT_FOUND)
      ensures st == NOT_FOUND ==> arena == old(arena)
      ensures forall h' :: Get(View(), h') == if h' == h && st == OK then Some(v) else old(Get(View(), h'))
    {
      hide Inv;
      ghost var s0 := View();
      var loc := Locate(h);
      StashOf(g, s0);
      AbsentIffNone(s0, h);
      if loc.Missing? {
        return NOT_FOUND;
      }
      ghost var k := if loc.InBucket? then loc.p else |slots| + loc.i;
      LookupAt(s0, k, h);
      var w := if loc.InBucket? then slots[loc.p] else stash[loc.i];
      var rec := arena[w.idx].(value := v);
      arena := arena[w.idx := rec];
      ArenaKeepsInv(g, s0, w.idx, rec);
      forall h' ensures Lookup(View(), h') == Lookup(s0, h') {
        ArenaLookup(g, s0, w.idx, rec, h');
      }
      assert Evolves(s0, View());
      forall i | 0 <= i < |cache| ensures CacheOk(View(), cache[i]) {
        CacheKept(s0, View(), cache[i]);
      }
      return OK;
    }

    /** Mark the record deleted, clear its slot, control byte and remap count, and drop it from
        the front cache. */
    method Remove(h: nat) returns (st: Status)
      requires Valid()
      modifies this
      ensures Valid()
      ensures st == (if old(Get(View(), h)).Some? then OK else NOT_FOUND)
      ensures forall h' :: Get(View(), h') == if h' == h then None else old(Get(View(), h'))
      ensures st == OK ==> TakenOut(g, old(View()), View(), h) && |cache| == |old(cache)|
      ensures st == OK ==> forall i :: 0 <= i < |cache| ==>
        cache[i] == if old(cache)[i].Cached? && old(cache)[i].hash == h then Invalid else old(cache)[i]
      ensures st == NOT_FOUND ==> View() == old(View()) && cache == old(cache)
    {
      hide Inv, TakenOut, Cells, Emptied, Lookup;
      ghost var s0 := View();
      var loc := Locate(h);
      StashOf(g, s0);
      AbsentIffNone(s0, h);
      if loc.Missing? {
        return NOT_FOUND;
      }
      ghost var k := if loc.InBucket? then loc.p else |slots| + loc.i;
      LookupAt(s0, k, h);
      TakeOut(loc, k, h);
      RemovedState(g, s0, View(), k, h);
      TakenFrom(g, s0, View(), k, h);
      FrontCacheRemove(h, s0);
      return OK;
    }

    /** Mark the record of the key dead and empty its cell, with the control byte, remap counter or stash count that
        goes with it. */
    method TakeOut(loc: Location, ghost k: nat, ghost h: nat)
      requires Inv(g, View()) && !loc.Missing? && Holds(Cells(View()), arena, k, h)
      requires if loc.InBucket? then loc.p < |slots| && k == loc.p else loc.i < |stash| && k == |slots| + loc.i
      modifies this`slots, this`ctrl, this`remap, this`stash, this`stashLive, this`arena
      ensures
        var s0 := old(View());
        && Sized(g, s0) && (k >= |s0.slots| ==> s0.stashLive[(k - |s0.slots|) / STASH] > 0)
        && var idx := Cells(s0)[k].idx;
           View() == Emptied(g, s0, k).(arena := s0.arena[idx := s0.arena[idx].(dead := true)])
    {
      hide Inv;
      ghost var s0 := View();
      StashOf(g, s0);
      CellsAllocated(g, s0, k);
      var w := if loc.InBucket? then slots[loc.p] else stash[loc.i];
      arena := arena[w.idx := arena[w.idx].(dead := true)];
      if loc.InBucket? {
        var p := loc.p;
        slots := slots[p := Empty];
        ctrl := ctrl[p / BUCKET := CtrlClear(ctrl[p / BUCKET], p % BUCKET)];
        if w.sec {
          var b1 := g.primary(arena[w.idx].placement);
          remap := remap[b1 := RemapDec(remap[b1])];
        }
      } else {
        StashVacateKeepsInv(g, s0, loc.i);
        stash := stash[loc.i := Empty];
        stashLive := stashLive[loc.i / STASH := stashLive[loc.i / STASH] - 1];
      }
    }

    method FrontCacheRemove(h: nat, ghost s0: State)
      requires Inv(g, View()) && |cache| == FRONT_CACHE && Evolves(s0, View())
      requires forall i :: 0 <= i < |cache| ==> CacheOk(s0, cache[i])
      modifies this`cache
      ensures Valid()
      ensures forall i :: 0 <= i < |cache| ==>
        cache[i] == if old(cache)[i].Cached? && old(cache)[i].hash == h then Invalid else old(cache)[i]
    {
      hide Inv, Evolves, CacheOk;
      forall i | 0 <= i < |cache| ensures CacheOk(View(), cache[i]) {
        CacheKept(s0, View(), cache[i]);
      }
      var i := 0;
      while i < FRONT_CACHE
        invariant 0 <= i <= FRONT_CACHE == |cache|
        invariant forall j :: 0 <= j < |cache| ==> CacheOk(View(), cache[j])
        invariant forall j :: 0 <= j < |cache| ==>
          cache[j] == if j < i && old(cache)[j].Cached? && old(cache)[j].hash == h then Invalid else old(cache)[j]
      {
        InvalidOk(View());
        if cache[i].Cached? && cache[i].hash == h {
          cache := cache[i := Invalid];
        }
        i := i + 1;
      }
    }

    // -------------------------------------------------------------- displacement

    /** Follow parents from node ni up to a root, collecting moves in commit order: the first
        goes to the empty slot, each later one to the slot freed before it. */
    method BuildPath(nodes: seq<Node>, start: nat, emptySlot: nat, b1: nat, b2: nat) returns (path: Path)
      requires Inv(g, View()) && TreeOk(g, View(), nodes, b1, b2)
      requires start < |nodes| && emptySlot < BUCKET && BUCKET * nodes[start].bucket + emptySlot < |slots|
      requires slots[BUCKET * nodes[start].bucket + emptySlot].Empty?
      ensures GoodPath(g, View(), path, b1, b2) && |path.moves| == nodes[start].depth
      ensures Vacancy(path) == BUCKET * nodes[start].bucket + emptySlot
    {
      hide Inv, TreeOk, Climb, GoodPath;
      var moves: seq<Move> := [];
      var ni: nat, to: nat := start, BUCKET * nodes[start].bucket + emptySlot;
      ghost var trail: seq<nat> := [start];
      ClimbStart(g, View(), nodes, b1, b2, start, emptySlot);
      NodeOf(g, View(), nodes, b1, b2, start);
      while nodes[ni].parent >= 0
        invariant ni < |nodes| &&
          Climb(g, View(), nodes, moves, trail, ni, to, BUCKET * nodes[start].bucket + emptySlot)
        invariant |moves| + nodes[ni].depth == nodes[start].depth <= BFS_MAX_DEPTH
        invariant Vacancy(Path(moves, to)) == BUCKET * nodes[start].bucket + emptySlot
        decreases ni
      {
        NodeOf(g, View(), nodes, b1, b2, ni);
        assert |moves| < BFS_MAX_PATH;  // so the path always fits its buffer
        var parent := nodes[ni].parent;
        var from := BUCKET * nodes[parent].bucket + nodes[ni].parentSlot;
        ClimbStep(g, View(), nodes, b1, b2, moves, trail, ni, to, BUCKET * nodes[start].bucket + emptySlot);
        moves := moves + [Move(from, to)];
        trail := trail + [parent];
        ni, to := parent, from;
      }
      ClimbEnd(g, View(), nodes, b1, b2, moves, trail, ni, to, BUCKET * nodes[start].bucket + emptySlot);
      NodeOf(g, View(), nodes, b1, b2, ni);
      return Path(moves, to);
    }

    /** Breadth-first search over buckets for an empty slot, without changing anything; hot(p) is whether
        slot p carries the heat bit.  It finds the first bucket with room, or gives up. */
    method BfsFindPath(b1: nat, b2: nat, hot: nat -> bool) returns (r: Option<Path>, ghost seen: seq<Node>)
      requires Inv(g, View()) && b1 < g.numBuckets && b2 < g.numBuckets
      ensures r.Some? ==> FoundPath(g, View(), seen, b1, b2, hot, r.value)
      ensures r.None? ==> GaveUp(g, View(), seen, b1, b2, hot)
    {
      hide Inv, Explored, GoodPath, TreeOk, Reached, ByLevel, Followed, BucketFull, LeadsTo;
      StashOf(g, View());
      var nodes := [Node(b1, -1, 0, 0)];
      if b2 != b1 {
        nodes := nodes + [Node(b2, -1, 0, 0)];
      }
      assert nodes == if b2 != b1 then [Node(b1, -1, 0, 0), Node(b2, -1, 0, 0)] else [Node(b1, -1, 0, 0)];
      SearchStart(g, View(), nodes, b1, b2);
      var head: nat := 0;
      while head < |nodes| && |nodes| < BFS_BUDGET
        invariant head <= |nodes| && ByLevel(nodes, head)
        invariant Searched(g, View(), nodes, b1, b2)
        invariant |nodes| >= BFS_BUDGET || forall k: nat :: k < head ==> Explored(g, View(), nodes, k, hot)
        decreases BFS_BUDGET - |nodes|, |nodes| - head
      {
        var n := nodes[head];
        NodeOf(g, View(), nodes, b1, b2, head);
        var e := FindEmpty(n.bucket);
        if e.Some? {
          var path := BuildPath(nodes, head, e.value, b1, b2);
          LeadsHere(g, View(), nodes, path, head, hot);
          return Some(path), nodes;
        }
        ghost var before := nodes;
        if n.depth < BFS_MAX_DEPTH {
          nodes := Expand(nodes, head, b1, b2, hot);
        }
        if |nodes| < BFS_BUDGET {
          MoreExplored(g, View(), before, nodes, head, hot);
        }
        MoreReached(before, nodes);
        NextLevel(nodes, head);
        head := head + 1;
      }
      return None, nodes;
    }

    method FindEmpty(b: nat) returns (r: Option<nat>)
      requires Inv(g, View()) && b < g.numBuckets
      ensures r.Some? ==> r.value < BUCKET && BUCKET * b + r.value < |slots| && slots[BUCKET * b + r.value].Empty?
      ensures r.None? ==> BucketFull(View(), b)
    {
      hide Inv;
      StashOf(g, View());
      var i := 0;
      while i < BUCKET
        invariant 0 <= i <= BUCKET
        invariant forall p :: BUCKET * b <= p < BUCKET * b + i ==> slots[p].Live?
      {
        if slots[BUCKET * b + i].Empty? {
          return Some(i);
        }
        i := i + 1;
      }
      return None;
    }

    /** Whether some occupant of bucket b does not carry the heat bit. */
    method HasCold(b: nat, hot: nat -> bool) returns (cold: bool)
      requires Inv(g, View()) && b < g.numBuckets
      ensures cold <==> SomeCold(View(), b, hot)
    {
      hide Inv;
      StashOf(g, View());
      var i := 0;
      while i < BUCKET
        invariant 0 <= i <= BUCKET
        invariant forall p :: BUCKET * b <= p < BUCKET * b + i ==> !slots[p].Live? || hot(p)
      {
        if slots[BUCKET * b + i].Live? && !hot(BUCKET * b + i) {
          return true;
        }
        i := i + 1;
      }
      return false;
    }

    /** Add the unseen alternate buckets of the occupants of node `at`, the hot ones only when there are no
        others. */
    method Expand(nodes0: seq<Node>, at: nat, b1: nat, b2: nat, hot: nat -> bool) returns (nodes: seq<Node>)
      requires Inv(g, View()) && TreeOk(g, View(), nodes0, b1, b2) && ByLevel(nodes0, at)
      requires at < |nodes0| && nodes0[at].depth < BFS_MAX_DEPTH
      ensures TreeOk(g, View(), nodes, b1, b2) && ByLevel(nodes, at)
      ensures |nodes0| <= |nodes| && nodes[..|nodes0|] == nodes0
      ensures |nodes| < BFS_BUDGET ==>
        forall p: nat {:trigger Followed(g, View(), nodes, p, nodes0[at].depth + 1, hot)} ::
          p / BUCKET == nodes0[at].bucket ==> Followed(g, View(), nodes, p, nodes0[at].depth + 1, hot)
    {
      hide Inv, TreeOk, Followed, ByLevel;
      StashOf(g, View());
      nodes := nodes0;
      var b := nodes0[at].bucket;
      ghost var depth := nodes0[at].depth + 1;
      NodeOf(g, View(), nodes0, b1, b2, at);
      var cold := HasCold(b, hot);
      var i: nat := 0;
      while i < BUCKET && |nodes| < BFS_BUDGET
        invariant i <= BUCKET && |nodes0| <= |nodes| && nodes[..|nodes0|] == nodes0
        invariant TreeOk(g, View(), nodes, b1, b2) && ByLevel(nodes, at)
        invariant |nodes| < BFS_BUDGET ==>
          forall p: nat :: BUCKET * b <= p < BUCKET * b + i ==> Followed(g, View(), nodes, p, depth, hot)
      {
        assert nodes[at] == nodes[..|nodes0|][at];
        ghost var before := nodes;
        nodes := Follow(nodes, at, i, b1, b2, cold, hot);
        forall p: nat | BUCKET * b <= p < BUCKET * b + i && Followed(g, View(), before, p, depth, hot)
          ensures Followed(g, View(), nodes, p, depth, hot)
        {
          StillFollowed(g, View(), before, nodes, p, depth, hot);
        }
        assert nodes[..|nodes0|] == nodes[..|before|][..|nodes0|];
        i := i + 1;
      }
      if |nodes| < BFS_BUDGET {
        forall p: nat {:trigger Followed(g, View(), nodes, p, depth, hot)} | p / BUCKET == b
          ensures Followed(g, View(), nodes, p, depth, hot)
        {
          assert BUCKET * b <= p < BUCKET * b + BUCKET;
        }
      }
    }

    /** Consider evicting slot i of node `at`. */
    method Follow(nodes0: seq<Node>, at: nat, i: nat, b1: nat, b2: nat, cold: bool, hot: nat -> bool)
      returns (nodes: seq<Node>)
      requires Inv(g, View()) && TreeOk(g, View(), nodes0, b1, b2) && ByLevel(nodes0, at)
      requires at < |nodes0| && nodes0[at].depth < BFS_MAX_DEPTH
      requires i < BUCKET && (cold <==> SomeCold(View(), nodes0[at].bucket, hot))
      ensures TreeOk(g, View(), nodes, b1, b2) && ByLevel(nodes, at)
      ensures |nodes0| <= |nodes| && nodes[..|nodes0|] == nodes0
      ensures Followed(g, View(), nodes, BUCKET * nodes0[at].bucket + i, nodes0[at].depth + 1, hot)
    {
      hide Inv, TreeOk, Followed, SomeCold, ByLevel, Reached;
      StashOf(g, View());
      NodeOf(g, View(), nodes0, b1, b2, at);
      nodes := nodes0;
      var b, depth := nodes0[at].bucket, nodes0[at].depth;
      var p := BUCKET * b + i;
      var w := slots[p];
      InvSlot(g, View(), p);
      assert p / BUCKET == b;
      if !w.Live? || (hot(p) && cold) {
        NothingToFollow(g, View(), nodes, p, depth + 1, hot);
        return;
      }
      var ph := arena[w.idx].placement;
      var vp, vs := g.primary(ph), g.secondary(ph);
      var alt := if b == vp then vs else vp;
      AtLevel(nodes, at, at);
      if alt != b {
        var seen := Seen(nodes, alt);
        if seen {
          ghost var k: nat :| k < |nodes| && nodes[k].bucket == alt;
          AtLevel(nodes, at, k);
        } else {
          GrowTree(g, View(), nodes, b1, b2, at, i, alt, depth);
          GrowLevel(nodes0, at, Node(alt, at, i, depth + 1));
          nodes := nodes + [Node(alt, at, i, depth + 1)];
          MoreReached(nodes0, nodes);
          AtLevel(nodes, at, |nodes0|);
        }
      }
      BothReached(g, View(), nodes, p, depth + 1, hot);
    }

    /** Every check of validate_path_locked, with the source words it returns. */
    method ValidatePath(path: Path) returns (ok: bool, src: seq<Slot>)
      requires Inv(g, View()) && path.ins < |slots|
      requires forall i :: 0 <= i < |path.moves| ==> path.moves[i].from < |slots| && path.moves[i].to < |slots|
      ensures ok <==> Validated(g, View(), path.moves, path.ins)
      ensures ok ==> |src| == |path.moves| && forall i :: 0 <= i < |src| ==> src[i] == slots[path.moves[i].from]
    {
      hide Inv;
      StashOf(g, View());
      src := [];
      if path.moves == [] {
        return slots[path.ins].Empty?, [];
      }
      if !slots[path.moves[0].to].Empty? {
        return false, [];
      }
      var i := 0;
      while i < |path.moves|
        invariant 0 <= i <= |path.moves| && |src| == i
        invariant forall j :: 0 <= j < i ==> Legal(g, View(), path.moves[j]) && src[j] == slots[path.moves[j].from]
      {
        var m := path.moves[i];
        var w := slots[m.from];
        InvSlot(g, View(), m.from);
        if !w.Live? {
          assert !Legal(g, View(), m);
          return false, [];
        }
        var ph := arena[w.idx].placement;
        var p, s := g.primary(ph), g.secondary(ph);
        var fb, tb := m.from / BUCKET, m.to / BUCKET;
        if !((fb == p || fb == s) && (tb == p || tb == s) && fb != tb) {
          assert !Legal(g, View(), m);
          return false, [];
        }
        src := src + [w];
        i := i + 1;
      }
      return true, src;
    }

    /** Apply a validated path in three phases: all slots, then all control bytes, then all remap
        counters; the new entry last in each. */
    method CommitPath(path: Path, src: seq<Slot>, idx: nat)
      requires PathOk(g, View(), path.moves, path.ins) && CanFile(g, View(), idx, path.ins / BUCKET)
      requires Sources(View(), path.moves, src)
      modifies this`slots, this`ctrl, this`remap
      ensures View() == Committed(g, old(View()), path.moves, path.ins, idx)
    {
      hide Inv, PathOk, Halfway, Shaped, CanFile, Lookup, Cells, Displace;
      ghost var s0 := View();
      var moves, ins := path.moves, path.ins;
      CanFileFacts(g, s0, idx, ins / BUCKET);
      CommitBounds(g, s0, moves, ins);
      var ph := arena[idx].placement;
      var ntag, nsec, nprim := g.tag(ph), ins / BUCKET != g.primary(ph), g.primary(ph);
      CommitSlots(moves, src, ins);
      slots := slots[ins := Live(idx, ntag, nsec)];
      CommitCtrl(moves, src, ins, s0);
      ctrl := ctrl[ins / BUCKET := CtrlSet(ctrl[ins / BUCKET], ins % BUCKET, g.partial(ntag))];
      CommitRemap(moves, src, ins, s0);
      if nsec {
        remap := remap[nprim := RemapInc(remap[nprim], ntag)];
      }
    }

    method CommitSlots(moves: seq<Move>, src: seq<Slot>, ins: nat)
      requires PathOk(g, View(), moves, ins) && Sources(View(), moves, src)
      modifies this`slots
      ensures slots == Displace(g, old(View()), moves, ins, |moves|).slots
    {
      hide Inv, PathOk, Halfway, Shaped, Lookup, Cells, Displace, Relocate;
      ghost var s0 := View();
      NoMoves(g, s0, moves, ins);
      var i := 0;
      while i < |moves|
        invariant 0 <= i <= |moves|
        invariant slots == Displace(g, s0, moves, ins, i).slots
      {
        MoveParts(g, s0, moves, ins, i);
        var m, rec := moves[i], arena[src[i].idx];
        slots := slots[m.to := Live(src[i].idx, g.tag(rec.placement), m.to / BUCKET != g.primary(rec.placement))];
        slots := slots[m.from := Empty];
        i := i + 1;
      }
    }

    method CommitCtrl(moves: seq<Move>, src: seq<Slot>, ins: nat, ghost s0: State)
      requires PathOk(g, s0, moves, ins) && Sources(s0, moves, src)
      requires ctrl == s0.ctrl && arena == s0.arena
      modifies this`ctrl
      ensures ctrl == Displace(g, s0, moves, ins, |moves|).ctrl
    {
      hide Inv, PathOk, Halfway, Shaped, Lookup, Cells, Displace, Relocate;
      NoMoves(g, s0, moves, ins);
      var i := 0;
      while i < |moves|
        invariant 0 <= i <= |moves|
        invariant ctrl == Displace(g, s0, moves, ins, i).ctrl
      {
        MoveParts(g, s0, moves, ins, i);
        var m, rec := moves[i], arena[src[i].idx];
        var tb, fb := m.to / BUCKET, m.from / BUCKET;
        ctrl := ctrl[tb := CtrlSet(ctrl[tb], m.to % BUCKET, g.partial(g.tag(rec.placement)))];
        ctrl := ctrl[fb := CtrlClear(ctrl[fb], m.from % BUCKET)];
        i := i + 1;
      }
    }

    method CommitRemap(moves: seq<Move>, src: seq<Slot>, ins: nat, ghost s0: State)
      requires PathOk(g, s0, moves, ins) && Sources(s0, moves, src)
      requires remap == s0.remap && arena == s0.arena
      modifies this`remap
      ensures remap == Displace(g, s0, moves, ins, |moves|).remap
    {
      hide Inv, PathOk, Halfway, Shaped, Lookup, Cells, Displace, Relocate;
      NoMoves(g, s0, moves, ins);
      var i := 0;
      while i < |moves|
        invariant 0 <= i <= |moves|
        invariant remap == Displace(g, s0, moves, ins, i).remap
      {
        MoveParts(g, s0, moves, ins, i);
        var m, rec := moves[i], arena[src[i].idx];
        var p := g.primary(rec.placement);
        var inSec := m.to / BUCKET != p;
        if src[i].sec && !inSec {
          remap := remap[p := RemapDec(remap[p])];
        } else if !src[i].sec && inSec {
          remap := remap[p := RemapInc(remap[p], g.tag(rec.placement))];
        }
        i := i + 1;
      }
    }

    // -------------------------------------------------------------- insert

    /** The lowest lane the control word reports empty is an empty slot, so the publishing
        compare-and-swap succeeds at the first candidate. */
    method EmptyLane(b: nat) returns (r: Option<nat>)
      requires Inv(g, View()) && b < g.numBuckets
      ensures r.Some? ==> FirstEmpty(View(), b, BUCKET * b + r.value)
      ensures r.None? <==> BucketFull(View(), b)
    {
      hide Inv;
      StashOf(g, View());
      var mask := Match8(ctrl[b], 0);
      EmptyReported(g, View(), b);
      if mask == {} {
        return None;
      }
      var c :| c in mask;
      var i := Lowest(mask, 0);
      LowestIsExact(ctrl[b], 0, i);
      InvSlot(g, View(), BUCKET * b + i);
      return Some(i);
    }

    /** Publish record idx in the empty slot p. */
    method Publish(p: nat, idx: nat)
      requires Inv(g, View()) && p < |slots| && slots[p].Empty? && CanFile(g, View(), idx, p / BUCKET)
      modifies this`slots, this`ctrl, this`remap
      ensures View() == Fill(g, old(View()), p, idx)
    {
      hide Inv;
      StashOf(g, View());
      var ph := arena[idx].placement;
      var tag, b1 := g.tag(ph), g.primary(ph);
      var sec := p / BUCKET != b1;
      if sec {
        remap := remap[b1 := RemapInc(remap[b1], tag)];
      }
      slots := slots[p := Live(idx, tag, sec)];
      ctrl := ctrl[p / BUCKET := CtrlSet(ctrl[p / BUCKET], p % BUCKET, g.partial(tag))];
    }

    /** Search for a path, validate it and commit it, unless it touches too many shards. */
    method Displacing(idx: nat, b1: nat, b2: nat, hot: nat -> bool) returns (ok: bool)
      requires Inv(g, View()) && b1 < g.numBuckets && b2 < g.numBuckets
      requires CanFile(g, View(), idx, b1) && CanFile(g, View(), idx, b2)
      modifies this`slots, this`ctrl, this`remap
      ensures Inv(g, View()) && (!ok ==> View() == old(View()) && Undisplaceable(g, View(), b1, b2, hot))
      ensures ok ==> DisplacedTo(g, old(View()), View(), idx, b1, b2, hot)
      ensures ok ==> forall h :: Lookup(View(), h)
                       == (if h == arena[idx].identity then Some(idx) else old(Lookup(View(), h)))
    {
      hide Inv, Cells, Shaped, Searched, LeadsTo, GaveUp, ShardsTouched, MaxShards, TooManyShards;
      ghost var s0 := View();
      StashOf(g, s0);
      var path, seen := BfsFindPath(b1, b2, hot);
      if path.Some? {
        ShardLimit(g, path.value, b1, b2);
      }
      if path.None? || |ShardsTouched(g, path.value, b1, b2)| > MaxShards(g) {
        return false;
      }
      PathBounds(g, s0, path.value.moves, path.value.ins);
      var valid, src := ValidatePath(path.value);
      if !valid {
        return false;
      }
      assert PathOk(g, s0, path.value.moves, path.value.ins);
      CommitPath(path.value, src, idx);
      CommitAddsOne(g, s0, path.value.moves, path.value.ins, idx);
      return true;
    }

    method StashInsert(sh: nat, idx: nat) returns (ok: bool)
      requires Inv(g, View()) && sh < g.shards && idx in arena
      requires CanFile(g, View(), idx, g.primary(arena[idx].placement))
      requires sh == g.primary(arena[idx].placement) % g.shards
      modifies this`stash, this`stashLive
      ensures Inv(g, View()) && (!ok ==> View() == old(View()) && StashFull(View(), sh))
      ensures ok ==> exists i: nat :: FirstStash(old(View()), sh, i) && View() == StashFill(g, old(View()), i, idx)
      ensures ok ==> forall h :: Lookup(View(), h)
                       == (if h == arena[idx].identity then Some(idx) else old(Lookup(View(), h)))
    {
      hide Inv, Cells;
      ghost var s0 := View();
      StashOf(g, s0);
      var i := 0;
      while i < STASH
        invariant 0 <= i <= STASH && View() == s0
        invariant forall j :: STASH * sh <= j < STASH * sh + i ==> stash[j].Live?
      {
        var at := STASH * sh + i;
        if stash[at].Empty? {
          stash := stash[at := Live(idx, g.tag(arena[idx].placement), false)];
          stashLive := stashLive[sh := stashLive[sh] + 1];
          StashFillKeepsInv(g, s0, at, idx);
          assert FirstStash(s0, sh, at) && View() == StashFill(g, s0, at, idx);
          forall h ensures Lookup(View(), h) == if h == arena[idx].identity then Some(idx) else Lookup(s0, h) {
            StashFillLookup(g, s0, at, idx, h);
          }
          return true;
        }
        i := i + 1;
      }
      return false;
    }

    /** File a fresh record: directly in the primary or secondary bucket, by displacement, or in
        the stash. */
    method FileRecord(idx: nat, hot: nat -> bool) returns (ok: bool)
      requires Inv(g, View()) && idx in arena
      requires CanFile(g, View(), idx, g.primary(arena[idx].placement))
      modifies this`slots, this`ctrl, this`remap, this`stash, this`stashLive
      ensures Inv(g, View()) && (!ok ==> View() == old(View()) && NoRoom(g, View(), arena[idx].placement, hot))
      ensures ok ==> Files(g, old(View()), View(), idx, hot)
      ensures ok ==> forall h :: Lookup(View(), h)
                       == (if h == arena[idx].identity then Some(idx) else old(Lookup(View(), h)))
    {
      hide Inv, Cells, Undisplaceable, DisplacedTo, BucketFull;
      ghost var s0 := View();
      StashOf(g, s0);
      var ph := arena[idx].placement;
      var b1, b2 := g.primary(ph), g.secondary(ph);
      var b := b1;
      var e := EmptyLane(b1);
      if e.None? {
        b := b2;
        e := EmptyLane(b2);
      }
      if e.Some? {
        var p := BUCKET * b + e.value;
        Publish(p, idx);
        FillKeepsInv(g, s0, p, idx);
        forall h ensures Lookup(View(), h) == if h == arena[idx].identity then Some(idx) else Lookup(s0, h) {
          FillLookup(g, s0, p, idx, h);
        }
        return true;
      }
      ok := Displacing(idx, b1, b2, hot);
      if !ok {
        ok := StashInsert(b1 % g.shards, idx);
      }
    }

    /** Insert a new key.  `slot` is the record index the arena hands out, if it has one; `hot` says which
        slots carry the heat bit. */
    method Insert(h: nat, v: nat, slot: Option<nat>, hot: nat -> bool) returns (st: Status)
      requires Valid()
      requires slot.Some? ==> Unreferenced(View(), slot.value)
      modifies this
      ensures Valid()
      ensures st == DUPLICATE <==> old(Get(View(), h)).Some?
      ensures st == OOM <==> old(Get(View(), h)).None? && slot.None?
      ensures st in {OK, DUPLICATE, OOM, STASH_FULL}
      ensures st == STASH_FULL ==> NoRoom(g, View(), g.place(h), hot)
      ensures forall h' :: Get(View(), h') == if h' == h && st == OK then Some(v) else old(Get(View(), h'))
      ensures st == OK ==>
        var s1 := old(View()).(arena := arena);
        slot.Some? && slot.value in arena && Inv(g, s1) && Files(g, s1, View(), slot.value, hot)
    {
      hide Inv, Cells, Lookup, Files, NoRoom;
      ghost var s0 := View();
      var loc := Locate(h);
      StashOf(g, s0);
      AbsentIffNone(s0, h);
      if !loc.Missing? {
        ghost var k := if loc.InBucket? then loc.p else |slots| + loc.i;
        LookupAt(s0, k, h);
        return DUPLICATE;
      }
      if slot.None? {
        return OOM;
      }
      var idx := slot.value;
      var generation := if idx in arena then arena[idx].generation + 1 else 0;
      var rec := Record(h, g.place(h), generation, false, v);
      arena := arena[idx := rec];
      AllocState(g, s0, idx, rec);
      ghost var s1 := View();
      var ok := FileRecord(idx, hot);
      if ok {
        InsertedState(s0, s1, View(), idx, rec);
        KeepCache(s0);
        return OK;
      }
      var freed := Record(0, 0, generation + 1, false, 0);
      arena := arena[idx := freed];
      FreedState(g, s0, idx, rec, freed);
      FreedPlaces(s0, idx, rec, freed);
      SameNoRoom(g, s1, View(), g.place(h), hot);
      KeepCache(s0);
      return STASH_FULL;
    }

    method Upsert(h: nat, v: nat, slot: Option<nat>, hot: nat -> bool) returns (st: Status)
      requires Valid()
      requires slot.Some? ==> Unreferenced(View(), slot.value)
      modifies this
      ensures Valid()
      ensures old(Get(View(), h)).Some? ==> st == OK
      ensures st in {OK, OOM, STASH_FULL}
      ensures st == OOM ==> slot.None?
      ensures st == STASH_FULL ==> NoRoom(g, View(), g.place(h), hot)
      ensures forall h' :: Get(View(), h') == if h' == h && st == OK then Some(v) else old(Get(View(), h'))
      ensures st == OK && old(Get(View(), h)).None? ==>
        var s1 := old(View()).(arena := arena);
        slot.Some? && slot.value in arena && Inv(g, s1) && Files(g, s1, View(), slot.value, hot)
    {
      hide Inv, Files, NoRoom;
      ghost var cells := Cells(View());
      st := Update(h, v);
      if st == NOT_FOUND {
        assert Cells(View()) == cells;
        st := Insert(h, v, slot, hot);
      }
    }

    lemma {:induction false} KeepCache(s0: State)
      requires Evolves(s0, View())
      requires |cache| == FRONT_CACHE && forall i :: 0 <= i < |cache| ==> CacheOk(s0, cache[i])
      ensures forall i :: 0 <= i < |cache| ==> CacheOk(View(), cache[i])
    {
      hide Evolves, CacheOk;
      forall i | 0 <= i < |cache| ensures CacheOk(View(), cache[i]) {
        CacheKept(s0, View(), cache[i]);
      }
    }
  }

  lemma {:induction false} InvSlot(g: Geometry, st: State, p: nat)
    requires Inv(g, st) && p < |st.slots|
    ensures Sized(g, st) && BucketOk(g, st, p) && CtrlOk(g, st, p)
  {
  }

  lemma {:induction false} NoneStashed(g: Geometry, st: State, sh: nat)
    requires Sized(g, st) && sh < g.shards && StashCountOk(st, sh) && st.stashLive[sh] == 0
    ensures forall i :: STASH * sh <= i < STASH * sh + STASH ==> !st.stash[i].Live?
  {
    forall i: nat | STASH * sh <= i < STASH * sh + STASH ensures !st.stash[i].Live? {
      assert i !in StashedIn(st, sh);
    }
  }

  /** A key that none of the three places shows is nowhere. */
  lemma {:induction false} NotMissed(g: Geometry, st: State, h: nat)
    requires Inv(g, st)
    requires
      var ph := g.place(h);
      var tag, b1, b2 := g.tag(ph), g.primary(ph), g.secondary(ph);
      && (forall p :: BUCKET * b1 <= p < BUCKET * b1 + BUCKET ==> !Matches(st, p, h, tag, false))
      && (MustCheckSecondary(st.remap[b1], tag) ==>
            forall p :: BUCKET * b2 <= p < BUCKET * b2 + BUCKET ==> !Matches(st, p, h, tag, true))
      && var sh := b1 % g.shards;
         forall i :: STASH * sh <= i < STASH * sh + STASH && st.stash[i].Live? && st.stash[i].tag == tag ==>
           !Holds(Cells(st), st.arena, |st.slots| + i, h)
    ensures Absent(st, h)
  {
    hide Inv;
    StashOf(g, st);
    forall k: nat | Holds(Cells(st), st.arena, k, h) ensures false {
      ShowsSomewhere(g, st, h, k);
    }
  }

  /** A held key shows in one of the three places. */
  lemma {:induction false} ShowsSomewhere(g: Geometry, st: State, h: nat, k: nat)
    requires Inv(g, st) && Holds(Cells(st), st.arena, k, h)
    ensures
      var ph := g.place(h);
      var tag, b1, b2 := g.tag(ph), g.primary(ph), g.secondary(ph);
      var sh := b1 % g.shards;
      || (BUCKET * b1 <= k < BUCKET * b1 + BUCKET && Matches(st, k, h, tag, false))
      || (MustCheckSecondary(st.remap[b1], tag) && BUCKET * b2 <= k < BUCKET * b2 + BUCKET &&
        Matches(st, k, h, tag, true))
      || (var i := k - |st.slots|;
          && 0 <= i < |st.stash| && STASH * sh <= i < STASH * sh + STASH
          && st.stash[i].Live? && st.stash[i].tag == tag && |st.slots| + i == k)
  {
    hide Inv;
    StashOf(g, st);
    WhereKeysAre(g, st, k, h);
  }

  /** The state after vacating cell k. */
  ghost function Emptied(g: Geometry, st: State, k: nat): (st': State)
    requires Sized(g, st) && k < |Cells(st)| && Cells(st)[k].Live? && Cells(st)[k].idx in st.arena
    requires k >= |st.slots| ==> st.stashLive[(k - |st.slots|) / STASH] > 0
    ensures Sized(g, st')
  {
    if k < |st.slots| then Vacate(g, st, k) else StashVacate(g, st, k - |st.slots|)
  }

  lemma {:induction false} EmptiedKeeps(g: Geometry, st: State, k: nat, h: nat)
    requires Inv(g, st) && Holds(Cells(st), st.arena, k, h)
    ensures k >= |st.slots| ==> st.stashLive[(k - |st.slots|) / STASH] > 0
    ensures
      var st' := Emptied(g, st, k);
      && Inv(g, st') && st'.arena == st.arena && Unreferenced(st', Cells(st)[k].idx)
      && (forall h' :: Lookup(st', h') == if h' == h then None else Lookup(st, h'))
  {
    hide Inv;
    StashOf(g, st);
    if k < |st.slots| {
      VacateKeepsInv(g, st, k);
      forall h' ensures Lookup(Vacate(g, st, k), h') == if h' == h then None else Lookup(st, h') {
        VacateLookup(g, st, k, h');
      }
    } else {
      var i := k - |st.slots|;
      StashVacateKeepsInv(g, st, i);
      forall h' ensures Lookup(StashVacate(g, st, i), h') == if h' == h then None else Lookup(st, h') {
        StashVacateLookup(g, st, i, h');
      }
    }
    LastReference(st, Emptied(g, st, k), k);
  }

  /** The cell of the key has been emptied and its record marked dead, and nothing else has changed. */
  ghost predicate TakenOut(g: Geometry, st: State, st': State, h: nat) {
    Sized(g, st) && exists k: nat ::
      && Holds(Cells(st), st.arena, k, h)
      && (k >= |st.slots| ==> st.stashLive[(k - |st.slots|) / STASH] > 0)
      && var idx := Cells(st)[k].idx;
         st' == Emptied(g, st, k).(arena := st.arena[idx := st.arena[idx].(dead := true)])
  }

  lemma {:induction false} TakenFrom(g: Geometry, st: State, st': State, k: nat, h: nat)
    requires Sized(g, st) && Holds(Cells(st), st.arena, k, h)
    requires k >= |st.slots| ==> st.stashLive[(k - |st.slots|) / STASH] > 0
    requires
      var idx := Cells(st)[k].idx;
      st' == Emptied(g, st, k).(arena := st.arena[idx := st.arena[idx].(dead := true)])
    ensures TakenOut(g, st, st', h)
  {
  }

  lemma {:induction false} InvalidOk(st: State)
    ensures CacheOk(st, Invalid)
  {
  }

  /** Deleting the record of an emptied cell: one key disappears, all others stay. */
  lemma {:induction false} RemovedState(g: Geometry, st: State, st': State, k: nat, h: nat)
    requires Inv(g, st) && Holds(Cells(st), st.arena, k, h)
    requires k >= |st.slots| ==> st.stashLive[(k - |st.slots|) / STASH] > 0
    requires
      var idx := Cells(st)[k].idx;
      st' == Emptied(g, st, k).(arena := st.arena[idx := st.arena[idx].(dead := true)])
    ensures Inv(g, st') && Evolves(st, st')
    ensures forall h' :: Get(st', h') == if h' == h then None else Get(st, h')
  {
    hide Inv;
    StashOf(g, st);
    EmptiedKeeps(g, st, k, h);
    var idx, mid := Cells(st)[k].idx, Emptied(g, st, k);
    var r := st.arena[idx].(dead := true);
    ArenaKeepsInv(g, mid, idx, r);
    forall h' ensures Lookup(st', h') == if h' == h then None else Lookup(st, h') {
      ArenaLookup(g, mid, idx, r, h');
    }
  }

  // ---------------------------------------------------------------- the commit, component by component

  lemma {:induction false} CanFileFacts(g: Geometry, st: State, idx: nat, b: nat)
    requires CanFile(g, st, idx, b)
    ensures idx in st.arena
  {
  }

  /** The words the validation read, one per move. */
  ghost predicate Sources(st: State, moves: seq<Move>, src: seq<Slot>) {
    && |src| == |moves|
    && (forall i {:trigger src[i]} :: 0 <= i < |src| ==>
      moves[i].from < |st.slots| && src[i] == st.slots[moves[i].from])
  }

  lemma {:induction false} CommitBounds(g: Geometry, st: State, moves: seq<Move>, ins: nat)
    requires PathOk(g, st, moves, ins)
    ensures Sized(g, st) && ins < |st.slots|
    ensures
      var mid := Displace(g, st, moves, ins, |moves|);
      && Sized(g, mid) && mid.arena == st.arena && mid.stash == st.stash && mid.stashLive == st.stashLive
      && |mid.slots| == |st.slots|
      && mid == State(mid.slots, mid.ctrl, mid.remap, st.stash, st.stashLive, st.arena)
  {
    hide Inv;
    StashOf(g, st);
  }

  lemma {:induction false} RelocateParts(g: Geometry, prev: State, m: Move)
    requires Sized(g, prev) && Legal(g, prev, m)
    requires prev.slots[m.from].sec <==> m.to / BUCKET == PrimaryOf(g, prev.arena, prev.slots[m.from])
    ensures
      var next, w := Relocate(g, prev, m), prev.slots[m.from];
      var rec := prev.arena[w.idx];
      var tag, p, inSec := g.tag(rec.placement), g.primary(rec.placement), m.to / BUCKET != g.primary(rec.placement);
      var tb, fb := m.to / BUCKET, m.from / BUCKET;
      && next.slots == prev.slots[m.to := Live(w.idx, tag, inSec)][m.from := Empty]
      && next.ctrl == prev.ctrl[tb := CtrlSet(prev.ctrl[tb], m.to % BUCKET, g.partial(tag))]
                               [fb := CtrlClear(prev.ctrl[fb], m.from % BUCKET)]
      && next.remap == (if w.sec && !inSec then prev.remap[p := RemapDec(prev.remap[p])]
                        else if !w.sec && inSec then prev.remap[p := RemapInc(prev.remap[p], tag)]
                        else prev.remap)
  {
  }

  /** What move n does to each component, in the order the commit writes it. */
  lemma {:induction false} NoMoves(g: Geometry, st: State, moves: seq<Move>, ins: nat)
    requires PathOk(g, st, moves, ins)
    ensures Displace(g, st, moves, ins, 0) == st
  {
  }

  lemma {:induction false} MoveParts(g: Geometry, st: State, moves: seq<Move>, ins: nat, n: nat)
    requires PathOk(g, st, moves, ins) && n < |moves|
    ensures Legal(g, st, moves[n]) && Sized(g, st)
    ensures
      var prev, next, m, w := Displace(g, st, moves, ins, n), Displace(g, st, moves, ins, n + 1), moves[n],
        st.slots[moves[n].from];
      var rec := st.arena[w.idx];
      var tag, p, inSec := g.tag(rec.placement), g.primary(rec.placement), m.to / BUCKET != g.primary(rec.placement);
      var tb, fb := m.to / BUCKET, m.from / BUCKET;
      && |prev.slots| == |st.slots| && |prev.ctrl| == |prev.remap| == g.numBuckets
      && tb < g.numBuckets && fb < g.numBuckets && tb != fb
      && next.slots == prev.slots[m.to := Live(w.idx, tag, inSec)][m.from := Empty]
      && next.ctrl == prev.ctrl[tb := CtrlSet(prev.ctrl[tb], m.to % BUCKET, g.partial(tag))]
                               [fb := CtrlClear(prev.ctrl[fb], m.from % BUCKET)]
      && next.remap == (if w.sec && !inSec then prev.remap[p := RemapDec(prev.remap[p])]
                        else if !w.sec && inSec then prev.remap[p := RemapInc(prev.remap[p], tag)]
                        else prev.remap)
  {
    hide Inv, Lookup, Shaped, Relocate, Cells;
    assert Legal(g, st, moves[n]);
    StashOf(g, st);
    var prev := Displace(g, st, moves, ins, n);
    HalfwayStep(g, st, moves, ins, n, prev);
    FlagToggles(g, st, moves[n]);
    RelocateParts(g, prev, moves[n]);
  }

  /** A move between the two buckets of a key always toggles its secondary flag. */
  lemma {:induction false} FlagToggles(g: Geometry, st: State, m: Move)
    requires Inv(g, st) && Legal(g, st, m)
    ensures
      var w := st.slots[m.from];
      w.sec <==> m.to / BUCKET == PrimaryOf(g, st.arena, w)
  {
    assert BucketOk(g, st, m.from);
  }

  // ---------------------------------------------------------------- insertion as a whole

  lemma {:induction false} PathBounds(g: Geometry, st: State, moves: seq<Move>, ins: nat)
    requires Validated(g, st, moves, ins)
    ensures ins < |st.slots|
    ensures forall i :: 0 <= i < |moves| ==> moves[i].from < |st.slots| && moves[i].to < |st.slots|
  {
    forall i | 0 <= i < |moves| ensures moves[i].from < |st.slots| && moves[i].to < |st.slots| {
      assert Legal(g, st, moves[i]);
    }
  }

  /** Writing the new record changes no key and makes it ready to be filed. */
  lemma {:induction false} AllocState(g: Geometry, st: State, idx: nat, r: Record)
    requires Inv(g, st) && Unreferenced(st, idx) && Absent(st, r.identity)
    requires !r.dead && r.placement == g.place(r.identity)
    ensures
      var st' := st.(arena := st.arena[idx := r]);
      && Inv(g, st')
      && (forall h :: Lookup(st', h) == Lookup(st, h))
      && CanFile(g, st', idx, g.primary(r.placement)) && CanFile(g, st', idx, g.secondary(r.placement))
  {
    hide Inv, Cells;
    var st' := st.(arena := st.arena[idx := r]);
    ArenaKeepsInv(g, st, idx, r);
    forall h ensures Lookup(st', h) == Lookup(st, h) {
      ArenaLookup(g, st, idx, r, h);
    }
    AbsentIffNone(st, r.identity);
    AbsentIffNone(st', r.identity);
  }

  /** Unreferenced records are looked up under no key. */
  lemma {:induction false} NotLookedUp(st: State, idx: nat, h: nat)
    requires Unreferenced(st, idx)
    ensures Lookup(st, h) != Some(idx)
  {
  }

  lemma {:induction false} InsertedState(s0: State, s1: State, st: State, idx: nat, r: Record)
    requires Unreferenced(s0, idx) && Absent(s0, r.identity)
    requires s1 == s0.(arena := s0.arena[idx := r]) && st.arena == s1.arena
    requires forall h :: Lookup(s1, h) == Lookup(s0, h)
    requires forall h :: Lookup(st, h) == if h == r.identity then Some(idx) else Lookup(s1, h)
    requires idx in s0.arena ==> r.generation > s0.arena[idx].generation
    ensures Evolves(s0, st)
    ensures forall h :: Get(st, h) == if h == r.identity then Some(r.value) else Get(s0, h)
  {
    hide Cells;
    AbsentIffNone(s0, r.identity);
    forall h ensures Get(st, h) == if h == r.identity then Some(r.value) else Get(s0, h) {
      NotLookedUp(s0, idx, h);
    }
  }

  /** When the stash is full the record goes back to the arena and the map is as before. */
  lemma {:induction false} FreedState(g: Geometry, st: State, idx: nat, r: Record, freed: Record)
    requires Inv(g, st) && Unreferenced(st, idx) && freed.generation > r.generation
    requires idx in st.arena ==> r.generation > st.arena[idx].generation
    ensures
      var st' := st.(arena := st.arena[idx := r][idx := freed]);
      && Inv(g, st') && Evolves(st, st')
      && (forall h :: Get(st', h) == Get(st, h))
  {
    hide Inv, Cells;
    var st' := st.(arena := st.arena[idx := freed]);
    assert st.arena[idx := r][idx := freed] == st.arena[idx := freed];
    ArenaKeepsInv(g, st, idx, freed);
    forall h ensures Lookup(st', h) == Lookup(st, h) && Get(st', h) == Get(st, h) {
      ArenaLookup(g, st, idx, freed, h);
      NotLookedUp(st, idx, h);
    }
  }

  /** The control word reports every empty slot of its bucket. */
  lemma {:induction false} EmptyReported(g: Geometry, st: State, b: nat)
    requires Inv(g, st) && b < g.numBuckets
    ensures Sized(g, st)
    ensures forall q :: BUCKET * b <= q < BUCKET * b + BUCKET && st.slots[q].Empty? ==>
      q - BUCKET * b in Match8(st.ctrl[b], 0)
  {
    hide Inv;
    StashOf(g, st);
    forall q | BUCKET * b <= q < BUCKET * b + BUCKET &&
      st.slots[q].Empty? ensures q - BUCKET * b in Match8(st.ctrl[b], 0) {
      InvSlot(g, st, q);
      MatchNeverMisses(st.ctrl[b], 0, q - BUCKET * b);
    }
  }

  lemma {:induction false} FreedPlaces(st: State, idx: nat, r: Record, freed: Record)
    requires Unreferenced(st, idx)
    ensures SamePlaces(st.(arena := st.arena[idx := r]), st.(arena := st.arena[idx := r][idx := freed]))
  {
    forall p: nat | p < |st.slots| && st.slots[p].Live? ensures st.slots[p].idx != idx {
      assert Cells(st)[p] == st.slots[p];
    }
  }

  lemma {:induction false} EmptyInv(g: Geometry, st: State)
    requires Sized(g, st)
    requires forall k :: 0 <= k < |Cells(st)| ==> Cells(st)[k].Empty?
    requires forall b :: 0 <= b < g.numBuckets ==> st.remap[b] == Remap(0, {}) && st.ctrl[b] == seq(8, j => 0)
    requires forall t :: 0 <= t < g.shards ==> st.stashLive[t] == 0
    ensures Inv(g, st) && forall h :: Get(st, h) == None
  {
    forall p | 0 <= p < |st.slots| ensures BucketOk(g, st, p) && CtrlOk(g, st, p) {
      assert Cells(st)[p] == st.slots[p];
    }
    forall i | 0 <= i < |st.stash| ensures StashOk(g, st, i) && st.stash[i].Empty? {
      assert Cells(st)[|st.slots| + i] == st.stash[i];
    }
    forall b | 0 <= b < g.numBuckets ensures RemapOk(g, st, b) {
      assert forall p: nat :: p < |st.slots| ==> st.slots[p] == Cells(st)[p];
      assert Displaced(g, st, b) == {};
    }
    forall t | 0 <= t < g.shards ensures StashCountOk(st, t) {
      assert StashedIn(st, t) == {};
    }
  }
}
