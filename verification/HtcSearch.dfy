/** The breadth-first search for a cuckoo path: what its nodes are, what a path it finds is worth, and what it
    means that it finds none. */
module HtcSearch {
  import opened HtcModel
  import opened HtcDisplacement

  datatype Node = Node(bucket: nat, parent: int, parentSlot: nat, depth: nat)

  datatype Path = Path(moves: seq<Move>, ins: nat)

  const BFS_BUDGET := 64
  const BFS_MAX_DEPTH := 5
  const BFS_MAX_PATH := 8
  const BFS_MAX_SHARDS := 8

  /** Node i hangs under an earlier node: the occupant of `parentSlot` there could move here. */
  ghost predicate NodeOk(g: Geometry, st: State, nodes: seq<Node>, b1: nat, b2: nat, i: nat)
    requires i < |nodes|
  {
    var n := nodes[i];
    && n.bucket < g.numBuckets && BUCKET * n.bucket + BUCKET <= |st.slots|
    && n.parent < i && n.depth <= BFS_MAX_DEPTH
    && (if n.parent < 0 then n.depth == 0 && (n.bucket == b1 || n.bucket == b2)
        else
          && n.depth == nodes[n.parent].depth + 1
          && n.parentSlot < BUCKET
          && var pb := nodes[n.parent].bucket;
             && pb < g.numBuckets && BUCKET * pb + BUCKET <= |st.slots|
             && var w := st.slots[BUCKET * pb + n.parentSlot];
                && w.Live? && w.idx in st.arena && pb != n.bucket
                && (|| (pb == PrimaryOf(g, st.arena, w) && n.bucket == SecondaryOf(g, st.arena, w))
                    || (pb == SecondaryOf(g, st.arena, w) && n.bucket == PrimaryOf(g, st.arena, w))))
  }

  ghost predicate TreeOk(g: Geometry, st: State, nodes: seq<Node>, b1: nat, b2: nat) {
    && (forall i {:trigger NodeOk(g, st, nodes, b1, b2, i)} :: 0 <= i < |nodes| ==> NodeOk(g, st, nodes, b1, b2, i))
    && (forall i, j :: 0 <= i < j < |nodes| ==> nodes[i].bucket != nodes[j].bucket)
  }

  lemma {:induction false} NodeOf(g: Geometry, st: State, nodes: seq<Node>, b1: nat, b2: nat, i: nat)
    requires TreeOk(g, st, nodes, b1, b2) && i < |nodes|
    ensures NodeOk(g, st, nodes, b1, b2, i)
  {
  }

  ghost predicate BucketFull(st: State, b: nat) {
    forall p :: BUCKET * b <= p < BUCKET * b + BUCKET && p < |st.slots| ==> st.slots[p].Live?
  }

  ghost predicate StashFull(st: State, sh: nat) {
    forall i :: STASH * sh <= i < STASH * sh + STASH && i < |st.stash| ==> st.stash[i].Live?
  }

  /** A path as the search promises it: validated now, shaped for commit, ending in a bucket of
      the new key. */
  ghost predicate GoodPath(g: Geometry, st: State, path: Path, b1: nat, b2: nat) {
    && Validated(g, st, path.moves, path.ins) && Shaped(path.moves, path.ins)
    && (path.ins / BUCKET == b1 || path.ins / BUCKET == b2)
  }

  method Seen(nodes: seq<Node>, b: nat) returns (r: bool)
    ensures r <==> exists i :: 0 <= i < |nodes| && nodes[i].bucket == b
  {
    var i := 0;
    while i < |nodes|
      invariant 0 <= i <= |nodes|
      invariant forall j :: 0 <= j < i ==> nodes[j].bucket != b
    {
      if nodes[i].bucket == b {
        return true;
      }
      i := i + 1;
    }
    return false;
  }

  /** Bucket b is among the nodes, at depth d or less. */
  ghost predicate Reached(nodes: seq<Node>, b: nat, d: int) {
    exists k: nat :: k < |nodes| && nodes[k].bucket == b && nodes[k].depth <= d
  }

  ghost predicate SomeCold(st: State, b: nat, hot: nat -> bool) {
    exists p :: BUCKET * b <= p < BUCKET * b + BUCKET && p < |st.slots| && st.slots[p].Live? && !hot(p)
  }

  /** The occupant of slot p is passed over: it is hot and others in its bucket are not. */
  ghost predicate PassedOver(st: State, p: nat, hot: nat -> bool) {
    hot(p) && SomeCold(st, p / BUCKET, hot)
  }

  /** The other bucket of the occupant of slot p is among the nodes, at depth d or less, unless it is passed over. */
  ghost predicate Followed(g: Geometry, st: State, nodes: seq<Node>, p: nat, d: int, hot: nat -> bool) {
    p < |st.slots| && st.slots[p].Live? && st.slots[p].idx in st.arena && !PassedOver(st, p, hot) ==>
      && Reached(nodes, PrimaryOf(g, st.arena, st.slots[p]), d)
      && Reached(nodes, SecondaryOf(g, st.arena, st.slots[p]), d)
  }

  /** Node k is full, and its occupants have been followed if it is not at the last depth. */
  ghost predicate Explored(g: Geometry, st: State, nodes: seq<Node>, k: nat, hot: nat -> bool)
    requires k < |nodes|
  {
    && BucketFull(st, nodes[k].bucket)
    && (nodes[k].depth < BFS_MAX_DEPTH ==>
          forall p: nat {:trigger Followed(g, st, nodes, p, nodes[k].depth + 1, hot)} ::
            p / BUCKET == nodes[k].bucket ==> Followed(g, st, nodes, p, nodes[k].depth + 1, hot))
  }

  /** Nodes are in order of depth, and at most one level below the node at `head`. */
  ghost predicate ByLevel(nodes: seq<Node>, head: nat) {
    && (forall i, j :: 0 <= i < j < |nodes| ==> nodes[i].depth <= nodes[j].depth)
    && (head < |nodes| ==> forall k :: 0 <= k < |nodes| ==> nodes[k].depth <= nodes[head].depth + 1)
  }

  /** The search from b1 and b2 has seen these nodes. */
  ghost predicate Searched(g: Geometry, st: State, nodes: seq<Node>, b1: nat, b2: nat) {
    TreeOk(g, st, nodes, b1, b2) && Reached(nodes, b1, 0) && Reached(nodes, b2, 0)
  }

  lemma {:induction false} SearchStart(g: Geometry, st: State, nodes: seq<Node>, b1: nat, b2: nat)
    requires Sized(g, st) && b1 < g.numBuckets && b2 < g.numBuckets
    requires nodes == if b2 != b1 then [Node(b1, -1, 0, 0), Node(b2, -1, 0, 0)] else [Node(b1, -1, 0, 0)]
    ensures Searched(g, st, nodes, b1, b2) && ByLevel(nodes, 0)
  {
    assert nodes[0].bucket == b1 && nodes[|nodes| - 1].bucket == b2;
  }

  lemma {:induction false} LeadsHere(g: Geometry, st: State, nodes: seq<Node>, path: Path, k: nat, hot: nat -> bool)
    requires k < |nodes| && |path.moves| == nodes[k].depth && Vacancy(path) / BUCKET == nodes[k].bucket
    requires forall j: nat :: j < k ==> Explored(g, st, nodes, j, hot)
    ensures LeadsTo(g, st, nodes, path, k, hot)
  {
  }

  lemma {:induction false} NextLevel(nodes: seq<Node>, head: nat)
    requires ByLevel(nodes, head) && head < |nodes|
    ensures ByLevel(nodes, head + 1)
  {
  }

  lemma {:induction false} AtLevel(nodes: seq<Node>, at: nat, k: nat)
    requires ByLevel(nodes, at) && at < |nodes| && k < |nodes|
    ensures Reached(nodes, nodes[k].bucket, nodes[at].depth + 1)
  {
  }

  lemma {:induction false} GrowLevel(nodes: seq<Node>, at: nat, n: Node)
    requires ByLevel(nodes, at) && at < |nodes| && n.depth == nodes[at].depth + 1
    ensures ByLevel(nodes + [n], at)
  {
  }

  lemma {:induction false} NothingToFollow(g: Geometry, st: State, nodes: seq<Node>, p: nat, d: int, hot: nat -> bool)
    requires p < |st.slots| && (!st.slots[p].Live? || PassedOver(st, p, hot))
    ensures Followed(g, st, nodes, p, d, hot)
  {
  }

  lemma {:induction false} BothReached(g: Geometry, st: State, nodes: seq<Node>, p: nat, d: int, hot: nat -> bool)
    requires p < |st.slots| && st.slots[p].Live? && st.slots[p].idx in st.arena
    requires Reached(nodes, PrimaryOf(g, st.arena, st.slots[p]), d)
    requires Reached(nodes, SecondaryOf(g, st.arena, st.slots[p]), d)
    ensures Followed(g, st, nodes, p, d, hot)
  {
  }

  lemma {:induction false} MoreReached(nodes: seq<Node>, nodes': seq<Node>)
    requires |nodes| <= |nodes'| && nodes'[..|nodes|] == nodes
    ensures forall b: nat, d: int :: Reached(nodes, b, d) ==> Reached(nodes', b, d)
  {
    assert forall k: nat :: k < |nodes| ==> nodes[k] == nodes'[k];
  }

  lemma {:induction false} StillFollowed(g: Geometry, st: State, nodes: seq<Node>, nodes': seq<Node>, p: nat, d: int,
      hot: nat -> bool)
    requires |nodes| <= |nodes'| && nodes'[..|nodes|] == nodes && Followed(g, st, nodes, p, d, hot)
    ensures Followed(g, st, nodes', p, d, hot)
  {
    hide Reached;
    MoreReached(nodes, nodes');
  }

  /** One more node explored; the earlier ones stay so. */
  lemma {:induction false} MoreExplored(g: Geometry, st: State, nodes: seq<Node>, nodes': seq<Node>, head: nat,
      hot: nat -> bool)
    requires head < |nodes| <= |nodes'| && nodes'[..|nodes|] == nodes
    requires forall k: nat :: k < head ==> Explored(g, st, nodes, k, hot)
    requires BucketFull(st, nodes[head].bucket)
    requires nodes[head].depth < BFS_MAX_DEPTH ==>
      forall p: nat {:trigger Followed(g, st, nodes', p, nodes[head].depth + 1, hot)} ::
        p / BUCKET == nodes[head].bucket ==> Followed(g, st, nodes', p, nodes[head].depth + 1, hot)
    ensures forall k: nat :: k <= head ==> Explored(g, st, nodes', k, hot)
  {
    hide Followed, BucketFull;
    forall k: nat | k <= head ensures Explored(g, st, nodes', k, hot) {
      assert nodes'[k] == nodes'[..|nodes|][k];
      assert k < head ==> Explored(g, st, nodes, k, hot);
      if nodes[k].depth < BFS_MAX_DEPTH {
        forall p: nat | p / BUCKET == nodes'[k].bucket ensures Followed(g, st, nodes', p, nodes'[k].depth + 1, hot) {
          if k < head {
            assert Followed(g, st, nodes, p, nodes[k].depth + 1, hot);
            StillFollowed(g, st, nodes, nodes', p, nodes[k].depth + 1, hot);
          } else {
            assert Followed(g, st, nodes', p, nodes[head].depth + 1, hot);
          }
        }
      }
    }
  }

  // ---------------------------------------------------------------- how a search ends

  /** The search gave up: its budget of buckets is used, or every bucket it could get to is full. */
  ghost predicate GaveUp(g: Geometry, st: State, nodes: seq<Node>, b1: nat, b2: nat, hot: nat -> bool) {
    && Searched(g, st, nodes, b1, b2)
    && (|nodes| >= BFS_BUDGET || forall k: nat :: k < |nodes| ==> Explored(g, st, nodes, k, hot))
  }

  /** The slot a path fills first. */
  function Vacancy(path: Path): (p: nat) {
    if path.moves == [] then path.ins else path.moves[0].to
  }

  /** The path leads to the bucket of node k, which is as far as it is long; the search has found no room before. */
  ghost predicate LeadsTo(g: Geometry, st: State, nodes: seq<Node>, path: Path, k: nat, hot: nat -> bool) {
    && k < |nodes| && |path.moves| == nodes[k].depth && Vacancy(path) / BUCKET == nodes[k].bucket
    && forall j: nat :: j < k ==> Explored(g, st, nodes, j, hot)
  }

  /** The search found this path. */
  ghost predicate FoundPath(g: Geometry, st: State, nodes: seq<Node>, b1: nat, b2: nat, hot: nat -> bool, path: Path) {
    && Searched(g, st, nodes, b1, b2) && GoodPath(g, st, path, b1, b2)
    && exists k: nat :: LeadsTo(g, st, nodes, path, k, hot)
  }

  /** None of the moves of a path is of an occupant that is passed over. */
  ghost predicate Cool(st: State, moves: seq<Move>, hot: nat -> bool) {
    forall j :: 0 <= j < |moves| ==> !PassedOver(st, moves[j].from, hot)
  }

  /** The bucket from which move j, or the new entry, takes its slot is reached within as many steps as moves
      follow. */
  lemma {:induction false} PathReached(g: Geometry, st: State, nodes: seq<Node>, b1: nat, b2: nat, hot: nat -> bool,
      path: Path, j: nat)
    requires GaveUp(g, st, nodes, b1, b2, hot) && |nodes| < BFS_BUDGET && GoodPath(g, st, path, b1, b2)
    requires Cool(st, path.moves, hot) && |path.moves| <= BFS_MAX_DEPTH && j <= |path.moves|
    ensures Reached(nodes, (if j < |path.moves| then path.moves[j].to else path.ins) / BUCKET, |path.moves| - j)
    decreases |path.moves| - j
  {
    hide TreeOk, BucketFull;
    if j < |path.moves| {
      PathReached(g, st, nodes, b1, b2, hot, path, j + 1);
      var m := path.moves[j];
      assert Legal(g, st, m);
      ShapeAt(path.moves, path.ins, j);
      var k: nat :| k < |nodes| && nodes[k].bucket == m.from / BUCKET && nodes[k].depth <= |path.moves| - (j + 1);
      assert Explored(g, st, nodes, k, hot);
      assert Followed(g, st, nodes, m.from, nodes[k].depth + 1, hot);
      Deeper(nodes, m.to / BUCKET, nodes[k].depth + 1, |path.moves| - j);
    }
  }

  lemma {:induction false} Deeper(nodes: seq<Node>, b: nat, d: int, d': int)
    requires Reached(nodes, b, d) && d <= d'
    ensures Reached(nodes, b, d')
  {
  }

  /** Giving up before the budget is used is right: every path of at most five moves that passes over no one
      leads nowhere. */
  lemma {:induction false} NoPathMissed(g: Geometry, st: State, nodes: seq<Node>, b1: nat, b2: nat, hot: nat -> bool,
      path: Path)
    requires GaveUp(g, st, nodes, b1, b2, hot) && |nodes| < BFS_BUDGET
    requires GoodPath(g, st, path, b1, b2) && Cool(st, path.moves, hot)
    ensures |path.moves| > BFS_MAX_DEPTH
  {
    assert Vacancy(path) < |st.slots| && st.slots[Vacancy(path)].Empty?;
    if |path.moves| <= BFS_MAX_DEPTH {
      PathReached(g, st, nodes, b1, b2, hot, path, 0);
      ReachedIsFull(g, st, nodes, b1, b2, hot, Vacancy(path), |path.moves|);
    }
  }

  lemma {:induction false} ReachedIsFull(g: Geometry, st: State, nodes: seq<Node>, b1: nat, b2: nat, hot: nat -> bool,
      p: nat, d: nat)
    requires GaveUp(g, st, nodes, b1, b2, hot) && |nodes| < BFS_BUDGET && Reached(nodes, p / BUCKET, d)
    ensures p < |st.slots| ==> st.slots[p].Live?
  {
    var k: nat :| k < |nodes| && nodes[k].bucket == p / BUCKET && nodes[k].depth <= d;
    assert Explored(g, st, nodes, k, hot);
  }

  /** The shards whose locks a path needs. */
  function ShardsTouched(g: Geometry, path: Path, b1: nat, b2: nat): (shards: set<nat>)
    requires g.shards > 0
  {
    {b1 % g.shards, b2 % g.shards, path.ins / BUCKET % g.shards}
    + (set m | m in path.moves :: m.from / BUCKET % g.shards) + (set m | m in path.moves :: m.to / BUCKET % g.shards)
  }

  /** Bucket b is one whose shard a path needs: a bucket of the new key, or one that a move leaves or enters. */
  ghost predicate Touches(path: Path, b1: nat, b2: nat, b: nat) {
    || b == b1 || b == b2 || b == path.ins / BUCKET
    || exists i :: 0 <= i < |path.moves| && (b == path.moves[i].from / BUCKET || b == path.moves[i].to / BUCKET)
  }

  lemma {:induction false} ShardsAre(g: Geometry, path: Path, b1: nat, b2: nat, s: nat)
    requires g.shards > 0
    ensures s in ShardsTouched(g, path, b1, b2) <==> exists b: nat :: Touches(path, b1, b2, b) && s == b % g.shards
  {
    if b: nat :| Touches(path, b1, b2, b) && s == b % g.shards {
      if i :| 0 <= i < |path.moves| && (b == path.moves[i].from / BUCKET || b == path.moves[i].to / BUCKET) {
        assert path.moves[i] in path.moves;
      }
    }
    if s in ShardsTouched(g, path, b1, b2) {
      if m :| m in path.moves && (s == m.from / BUCKET % g.shards || s == m.to / BUCKET % g.shards) {
        var i :| 0 <= i < |path.moves| && path.moves[i] == m;
        assert Touches(path, b1, b2, m.from / BUCKET) && Touches(path, b1, b2, m.to / BUCKET);
      } else {
        assert Touches(path, b1, b2, b1) && Touches(path, b1, b2, b2) && Touches(path, b1, b2, path.ins / BUCKET);
      }
    }
  }

  function MaxShards(g: Geometry): (n: nat) {
    if g.shards < 2 * BFS_MAX_SHARDS then g.shards else BFS_MAX_SHARDS
  }

  /** More than eight shards, in a table of at least sixteen. */
  ghost predicate TooManyShards(g: Geometry, path: Path, b1: nat, b2: nat)
    requires g.shards > 0
  {
    g.shards >= 16 && |ShardsTouched(g, path, b1, b2)| > 8
  }

  /** In a smaller table the limit never binds. */
  lemma {:induction false} ShardLimit(g: Geometry, path: Path, b1: nat, b2: nat)
    requires g.shards > 0
    ensures |ShardsTouched(g, path, b1, b2)| > MaxShards(g) <==> TooManyShards(g, path, b1, b2)
  {
    FewBelow(ShardsTouched(g, path, b1, b2), g.shards);
  }

  lemma {:induction false} FewBelow(a: set<nat>, n: nat)
    requires forall x :: x in a ==> x < n
    ensures |a| <= n
    decreases n
  {
    if n == 0 {
      assert a == {};
    } else {
      FewBelow(a - {n - 1}, n - 1);
    }
  }

  /** Displacement is not possible: the search gives up, or its path touches too many shards. */
  ghost predicate Undisplaceable(g: Geometry, st: State, b1: nat, b2: nat, hot: nat -> bool)
    requires g.shards > 0
  {
    || (exists nodes :: GaveUp(g, st, nodes, b1, b2, hot))
    || (exists nodes, path ::
          FoundPath(g, st, nodes, b1, b2, hot, path) && TooManyShards(g, path, b1, b2))
  }

  /** The path the search found has been committed, with record idx in the slot it frees. */
  ghost predicate DisplacedTo(g: Geometry, st: State, st': State, idx: nat, b1: nat, b2: nat, hot: nat -> bool)
    requires g.shards > 0 && Inv(g, st) && idx in st.arena
  {
    exists nodes, path ::
      && FoundPath(g, st, nodes, b1, b2, hot, path) && !TooManyShards(g, path, b1, b2)
      && st' == Committed(g, st, path.moves, path.ins, idx)
  }

  lemma {:induction false} GrowTree(g: Geometry, st: State, nodes: seq<Node>, b1: nat, b2: nat, at: nat, slot: nat,
      alt: nat, depth: nat)
    requires Sized(g, st) && TreeOk(g, st, nodes, b1, b2) && at < |nodes| && slot < BUCKET
    requires nodes[at].bucket < g.numBuckets && alt != nodes[at].bucket
    requires depth == nodes[at].depth < BFS_MAX_DEPTH
    requires
      var w := st.slots[BUCKET * nodes[at].bucket + slot];
      && w.Live? && w.idx in st.arena
      && (|| (nodes[at].bucket == PrimaryOf(g, st.arena, w) && alt == SecondaryOf(g, st.arena, w))
          || (nodes[at].bucket == SecondaryOf(g, st.arena, w) && alt == PrimaryOf(g, st.arena, w)))
    requires forall i :: 0 <= i < |nodes| ==> nodes[i].bucket != alt
    ensures TreeOk(g, st, nodes + [Node(alt, at, slot, depth + 1)], b1, b2)
  {
    var nodes' := nodes + [Node(alt, at, slot, depth + 1)];
    forall i | 0 <= i < |nodes'| ensures NodeOk(g, st, nodes', b1, b2, i) {
      if i < |nodes| {
        assert NodeOk(g, st, nodes, b1, b2, i);
      }
    }
  }

  /** The state of the climb: `trail` lists the nodes passed, in decreasing order. */
  ghost predicate Climb(g: Geometry, st: State, nodes: seq<Node>, moves: seq<Move>, trail: seq<nat>, ni: nat, to: nat,
      empty: nat) {
    && |trail| == |moves| + 1 && ni < |nodes| && trail[|moves|] == ni
    && (forall k :: 0 <= k < |trail| ==> trail[k] < |nodes|)
    && (forall j, k :: 0 <= j < k < |trail| ==> trail[k] < trail[j])
    && empty / BUCKET == nodes[trail[0]].bucket
    && to / BUCKET == nodes[ni].bucket && to < |st.slots|
    && to == (if moves == [] then empty else moves[|moves| - 1].from)
    && (forall k :: 0 <= k < |moves| ==> Legal(g, st, moves[k]) && moves[k].from / BUCKET == nodes[trail[k + 1]].bucket)
    && (forall k: nat {:trigger Follows(moves, empty, k)} :: k < |moves| ==> Follows(moves, empty, k))
  }

  /** Move k fills the slot the move before it freed; the first fills the empty one. */
  ghost predicate Follows(moves: seq<Move>, empty: nat, k: nat)
    requires k < |moves|
  {
    moves[k].to == if k == 0 then empty else moves[k - 1].from
  }

  lemma {:induction false} ClimbStart(g: Geometry, st: State, nodes: seq<Node>, b1: nat, b2: nat, start: nat,
      emptySlot: nat)
    requires TreeOk(g, st, nodes, b1, b2) && start < |nodes| && emptySlot < BUCKET
    ensures
      var empty := BUCKET * nodes[start].bucket + emptySlot;
      Climb(g, st, nodes, [], [start], start, empty, empty)
  {
    NodeOf(g, st, nodes, b1, b2, start);
  }

  lemma {:induction false} ClimbStep(g: Geometry, st: State, nodes: seq<Node>, b1: nat, b2: nat, moves: seq<Move>,
      trail: seq<nat>, ni: nat, to: nat, empty: nat)
    requires TreeOk(g, st, nodes, b1, b2) && Climb(g, st, nodes, moves, trail, ni, to, empty)
    requires nodes[ni].parent >= 0
    ensures nodes[ni].parent < |nodes|
    ensures
      var parent := nodes[ni].parent;
      var from := BUCKET * nodes[parent].bucket + nodes[ni].parentSlot;
      Climb(g, st, nodes, moves + [Move(from, to)], trail + [parent], parent, from, empty)
  {
    ParentMove(g, st, nodes, b1, b2, ni, to);
    hide Legal, TreeOk;
    var parent := nodes[ni].parent;
    var from := BUCKET * nodes[parent].bucket + nodes[ni].parentSlot;
    var moves', trail' := moves + [Move(from, to)], trail + [parent];
    forall k | 0 <= k < |moves'|
      ensures Legal(g, st, moves'[k]) && moves'[k].from / BUCKET == nodes[trail'[k + 1]].bucket
    {
      if k < |moves| {
        assert moves'[k] == moves[k] && trail'[k + 1] == trail[k + 1];
      }
    }
    forall j, k | 0 <= j < k < |trail'|
      ensures trail'[k] < trail'[j]
    {
      assert k == |trail| ==> trail[|moves|] <= trail[j];
    }
    forall k: nat | k < |moves'|
      ensures Follows(moves', empty, k)
    {
      if k < |moves| {
        assert Follows(moves, empty, k);
      }
    }
  }

  lemma {:induction false} ParentMove(g: Geometry, st: State, nodes: seq<Node>, b1: nat, b2: nat, ni: nat, to: nat)
    requires TreeOk(g, st, nodes, b1, b2) && ni < |nodes| && nodes[ni].parent >= 0
    requires to < |st.slots| && to / BUCKET == nodes[ni].bucket
    ensures nodes[ni].parent < ni && nodes[ni].parentSlot < BUCKET
    ensures
      var from := BUCKET * nodes[nodes[ni].parent].bucket + nodes[ni].parentSlot;
      Legal(g, st, Move(from, to)) && from / BUCKET == nodes[nodes[ni].parent].bucket
  {
    NodeOf(g, st, nodes, b1, b2, ni);
  }

  lemma {:induction false} ClimbEnd(g: Geometry, st: State, nodes: seq<Node>, b1: nat, b2: nat, moves: seq<Move>,
      trail: seq<nat>, ni: nat, to: nat, empty: nat)
    requires TreeOk(g, st, nodes, b1, b2) && Climb(g, st, nodes, moves, trail, ni, to, empty)
    requires nodes[ni].parent < 0 && empty < |st.slots| && st.slots[empty].Empty?
    ensures GoodPath(g, st, Path(moves, to), b1, b2)
  {
    NodeOf(g, st, nodes, b1, b2, ni);
    forall i: nat | 0 < i < |moves| ensures moves[i].to == moves[i - 1].from {
      assert Follows(moves, empty, i);
    }
    if |moves| > 0 {
      assert Follows(moves, empty, 0);
    }
    forall i, j | 0 <= i < j < |moves| ensures moves[i].from / BUCKET != moves[j].from / BUCKET {
      assert trail[j + 1] < trail[i + 1];
    }
    forall i | 0 <= i < |moves| ensures moves[i].from / BUCKET != moves[0].to / BUCKET {
      assert trail[i + 1] < trail[0];
    }
  }

  // ---------------------------------------------------------------- where a new record goes

  /** Slot p is the first empty one of bucket b. */
  ghost predicate FirstEmpty(st: State, b: nat, p: nat) {
    && BUCKET * b <= p < BUCKET * b + BUCKET && p < |st.slots| && st.slots[p].Empty?
    && forall q :: BUCKET * b <= q < p ==> st.slots[q].Live?
  }

  /** Cell i is the first empty one of the stash of shard sh. */
  ghost predicate FirstStash(st: State, sh: nat, i: nat) {
    && STASH * sh <= i < STASH * sh + STASH && i < |st.stash| && st.stash[i].Empty?
    && forall j :: STASH * sh <= j < i ==> st.stash[j].Live?
  }

  /** Filing record idx leads from st to st': into the first empty slot of its primary bucket, if there is one, or
      of its secondary bucket; otherwise by displacement; only when that is not possible, into the stash. */
  ghost predicate Files(g: Geometry, st: State, st': State, idx: nat, hot: nat -> bool)
    requires Inv(g, st) && idx in st.arena
  {
    var b1, b2 := g.primary(st.arena[idx].placement), g.secondary(st.arena[idx].placement);
    if !BucketFull(st, b1) then exists p: nat :: FirstEmpty(st, b1, p) && st' == Fill(g, st, p, idx)
    else if !BucketFull(st, b2) then exists p: nat :: FirstEmpty(st, b2, p) && st' == Fill(g, st, p, idx)
    else
      || DisplacedTo(g, st, st', idx, b1, b2, hot)
      || (&& Undisplaceable(g, st, b1, b2, hot)
          && exists i: nat :: FirstStash(st, b1 % g.shards, i) && st' == StashFill(g, st, i, idx))
  }

  /** No room for a record with placement hash ph: its buckets and its shard's stash are full, and displacement is
      not possible. */
  ghost predicate NoRoom(g: Geometry, st: State, ph: nat, hot: nat -> bool) {
    && g.shards > 0 && BucketFull(st, g.primary(ph)) && BucketFull(st, g.secondary(ph))
    && StashFull(st, g.primary(ph) % g.shards) && Undisplaceable(g, st, g.primary(ph), g.secondary(ph), hot)
  }

  /** The slots are the same and refer to records that are placed the same. */
  ghost predicate SamePlaces(st: State, st': State) {
    && st'.slots == st.slots && st'.stash == st.stash
    && forall p: nat {:trigger st.slots[p]} :: p < |st.slots| && st.slots[p].Live? ==>
         && (st.slots[p].idx in st.arena <==> st.slots[p].idx in st'.arena)
         && (st.slots[p].idx in st.arena ==>
               st'.arena[st.slots[p].idx].placement == st.arena[st.slots[p].idx].placement)
  }

  lemma {:induction false} SameTree(g: Geometry, st: State, st': State, nodes: seq<Node>, b1: nat, b2: nat)
    requires SamePlaces(st, st') && TreeOk(g, st, nodes, b1, b2)
    ensures TreeOk(g, st', nodes, b1, b2)
  {
    forall i | 0 <= i < |nodes| ensures NodeOk(g, st', nodes, b1, b2, i) {
      assert NodeOk(g, st, nodes, b1, b2, i);
    }
  }

  lemma {:induction false} SameExplored(g: Geometry, st: State, st': State, nodes: seq<Node>, k: nat, hot: nat -> bool)
    requires SamePlaces(st, st') && k < |nodes| && Explored(g, st, nodes, k, hot)
    ensures Explored(g, st', nodes, k, hot)
  {
    var d := nodes[k].depth + 1;
    if nodes[k].depth < BFS_MAX_DEPTH {
      forall p: nat | p / BUCKET == nodes[k].bucket ensures Followed(g, st', nodes, p, d, hot) {
        assert Followed(g, st, nodes, p, d, hot);
        assert SomeCold(st', p / BUCKET, hot) <==> SomeCold(st, p / BUCKET, hot);
      }
    }
  }

  lemma {:induction false} SamePath(g: Geometry, st: State, st': State, path: Path, b1: nat, b2: nat)
    requires SamePlaces(st, st') && GoodPath(g, st, path, b1, b2)
    ensures GoodPath(g, st', path, b1, b2)
  {
    hide Shaped;
    forall i | 0 <= i < |path.moves| ensures Legal(g, st', path.moves[i]) {
      assert Legal(g, st, path.moves[i]);
    }
  }

  lemma {:induction false} SameGaveUp(g: Geometry, st: State, st': State, nodes: seq<Node>, b1: nat, b2: nat,
      hot: nat -> bool)
    requires SamePlaces(st, st') && GaveUp(g, st, nodes, b1, b2, hot)
    ensures GaveUp(g, st', nodes, b1, b2, hot)
  {
    hide Explored, TreeOk, Reached, SamePlaces;
    SameTree(g, st, st', nodes, b1, b2);
    if |nodes| < BFS_BUDGET {
      forall k: nat | k < |nodes| ensures Explored(g, st', nodes, k, hot) {
        SameExplored(g, st, st', nodes, k, hot);
      }
    }
  }

  lemma {:induction false} SameFound(g: Geometry, st: State, st': State, nodes: seq<Node>, b1: nat, b2: nat,
      hot: nat -> bool, path: Path)
    requires SamePlaces(st, st') && FoundPath(g, st, nodes, b1, b2, hot, path)
    ensures FoundPath(g, st', nodes, b1, b2, hot, path)
  {
    hide Explored, TreeOk, Reached, SamePlaces, GoodPath;
    SameTree(g, st, st', nodes, b1, b2);
    SamePath(g, st, st', path, b1, b2);
    var k: nat :| LeadsTo(g, st, nodes, path, k, hot);
    forall j: nat | j < k ensures Explored(g, st', nodes, j, hot) {
      SameExplored(g, st, st', nodes, j, hot);
    }
    assert LeadsTo(g, st', nodes, path, k, hot);
  }

  /** Records nobody refers to do not matter to the search. */
  lemma {:induction false} SameNoRoom(g: Geometry, st: State, st': State, ph: nat, hot: nat -> bool)
    requires SamePlaces(st, st') && NoRoom(g, st, ph, hot)
    ensures NoRoom(g, st', ph, hot)
  {
    hide GaveUp, FoundPath, TooManyShards;
    var b1, b2 := g.primary(ph), g.secondary(ph);
    if nodes :| GaveUp(g, st, nodes, b1, b2, hot) {
      SameGaveUp(g, st, st', nodes, b1, b2, hot);
    } else {
      var nodes, path :| FoundPath(g, st, nodes, b1, b2, hot, path) && TooManyShards(g, path, b1, b2);
      SameFound(g, st, st', nodes, b1, b2, hot, path);
    }
  }
}
