/** The backward shift that closes a tombstone: the chain after it moves back, if everybody in it may. */
module BackwardShift {
  import opened ModArith
  import opened RobinHood
  import opened RobinHoodWalk
  import opened RingIndex

  /** The number of live entries among the first i slots after idx. */
  ghost function LivesBefore(s: seq<Slot>, idx: int, i: nat): (n: nat)
    requires |s| > 0
    ensures n <= i
  {
    if i == 0 then 0 else LivesBefore(s, idx, i - 1) + if Nth(s, idx + i).Live? then 1 else 0
  }

  /** The entry i + 1 slots after idx is displaced at least as far as the shift moves it back. */
  ghost predicate ShiftOk(s: seq<Slot>, idx: int, i: nat)
    requires |s| > 0
  {
    Nth(s, idx + (i + 1)).Live? ==> i + 1 - LivesBefore(s, idx, i) <= Nth(s, idx + (i + 1)).pd
  }

  /** Shifted back, it would still be more than half a turn from home. */
  ghost predicate StaysFar(s: seq<Slot>, idx: int, i: nat)
    requires |s| > 0
  {
    var e := Nth(s, idx + (i + 1));
    e.Live? && e.pd - (i + 1 - LivesBefore(s, idx, i)) > |s| / 2
  }

  /** An ideal slot that shows up just after the target lies behind it by more than half a turn. */
  lemma {:induction false} FarFromHome(s: seq<Slot>, idx: nat, i: nat)
    requires Inv(s) && idx < |s| && Nth(s, idx + (i + 1)).Live?
    requires
      var target, ideal := Step(idx, LivesBefore(s, idx, i), |s|), Nth(s, idx + (i + 1)).h % |s|;
      target < ideal < target + |s| / 2
    ensures !ShiftOk(s, idx, i) || StaysFar(s, idx, i)
  {
    hide Nth, LivesBefore;
    var n, e, w := |s|, Nth(s, idx + (i + 1)), LivesBefore(s, idx, i);
    var shift := i + 1 - w;
    if shift <= e.pd {
      assert EntryOk(s, idx + (i + 1));
      assert e.pd < n by { ExactAt(s, idx + (i + 1)); }
      ModTranslate(idx + (i + 1) - e.pd, e.h, e.pd - shift, n);
      ModTranslate(e.h, e.h % n, e.pd - shift, n) by { ModUnique(e.h % n, 0, e.h % n, n); }
      Overshoot(e.h % n, e.pd - shift, Step(idx, w, n), n);
    }
  }

  lemma {:induction false} Overshoot(ideal: nat, d: nat, target: nat, n: nat)
    requires target < ideal < n && d < n && (ideal + d) % n == target
    ensures ideal + d == target + n
  {
    if ideal + d < n {
      ModUnique(ideal + d, 0, ideal + d, n);
    } else {
      ModUnique(ideal + d, 1, ideal + d - n, n);
    }
  }

  lemma {:induction false} LivesFrom(s: seq<Slot>, idx: int)
    requires |s| > 0
    ensures LivesBefore(s, idx, 0) == 0
  {
  }

  lemma {:induction false} LivesNext(s: seq<Slot>, idx: int, i: nat)
    requires |s| > 0
    ensures LivesBefore(s, idx, i + 1) == LivesBefore(s, idx, i) + if Nth(s, idx + (i + 1)).Live? then 1 else 0
  {
  }

  ghost predicate CanShift(s: seq<Slot>, idx: int, len: nat)
    requires |s| > 0
  {
    forall j {:trigger ShiftOk(s, idx, j)} :: 0 <= j < len ==> ShiftOk(s, idx, j)
  }

  /** Moving the next live entry back into a tombstone, leaving a tombstone, keeps the invariant:
      nobody behind it is nearer to home. */
  lemma {:induction false} MoveBack(s: seq<Slot>, w: int, r: int)
    requires Inv(s) && w < r < w + |s| && Nth(s, r).Live? && r - w <= Nth(s, r).pd
    requires forall z :: w <= z < r ==> Nth(s, z).Tomb?
    ensures
      var e := Nth(s, r);
      Inv(Put(Put(s, w, Live(e.h, e.pd - (r - w), e.val)), r, Tomb))
  {
    hide Nth, Put;
    var e := Nth(s, r);
    var v := Live(e.h, e.pd - (r - w), e.val);
    assert EntryOk(s, r);
    assert Reachable(s, w, v.h, v.pd) by {
      forall z | w - v.pd <= z < w ensures Passable(Nth(s, z), z - (w - v.pd)) {
        assert Passable(Nth(s, z), z - (r - e.pd));
      }
    }
    forall z | w < z < w + |s| && Nth(s, z).Live? && z - Nth(s, z).pd <= w
      ensures Passable(v, w - (z - Nth(s, z).pd))
    {
      if z > r {
        Crosses(s, r, z);
      }
    }
    PutKeepsInv(s, w, v);
    TombKeepsInv(Put(s, w, v), r);
  }

  /** A tombstone right before an empty slot can be emptied: nobody crosses it. */
  lemma {:induction false} ClearLast(s: seq<Slot>, x: int)
    requires Inv(s) && Nth(s, x + 1).Empty? && !Nth(s, x).Live?
    ensures Inv(Put(s, x, Empty))
  {
    hide Nth, Put;
    forall z | x < z < x + |s| && Nth(s, z).Live? && z - Nth(s, z).pd <= x ensures false {
      Crosses(s, x + 1, z);
    }
    PutKeepsInv(s, x, Empty);
  }

  /** A chain closed by an empty slot is shorter than the ring. */
  lemma {:induction false} ChainFits(s: seq<Slot>, x: int, len: nat)
    requires |s| > 0 && !Nth(s, x).Empty? && Nth(s, x + len + 1).Empty?
    requires forall z :: x < z <= x + len ==> !Nth(s, z).Empty?
    ensures len + 1 < |s|
  {
    if len + 1 >= |s| {
      NthTurn(s, x + len + 1 - |s|);
    }
  }

  /** The shift in progress, over one turn from x: `s` is the real ring, `gs` the same ring with
      tombstones where the real one already has empty slots. */
  ghost predicate Shifting(s0: seq<Slot>, s: seq<Slot>, gs: seq<Slot>, x: int, w: nat, i: nat) {
    && |s0| == |s| == |gs| > 0 && w <= i && i + 1 < |s|
    && (forall y {:trigger Nth(s, y)} :: x <= y < x + |s| ==>
          Nth(s, y) == if x + w <= y <= x + i then (if y == x then Tomb else Empty) else Nth(gs, y))
    && (forall y {:trigger Nth(gs, y)} :: x <= y < x + |s| ==>
          if x + w <= y <= x + i then Nth(gs, y).Tomb?
          else x + i < y ==> Nth(gs, y) == Nth(s0, y))
  }

  /** The entry that was i + 1 slots after x, pulled back over the gaps before it. */
  ghost function Pulled(s0: seq<Slot>, x: int, i: nat): (v: Slot)
    requires |s0| > 0 && Nth(s0, x + (i + 1)).Live? && ShiftOk(s0, x, i)
  {
    var e := Nth(s0, x + (i + 1));
    Live(e.h, e.pd - (i + 1 - LivesBefore(s0, x, i)), e.val)
  }

  /** Entry j of the chain stands right after the ones before it. */
  ghost predicate PackedAt(s0: seq<Slot>, s: seq<Slot>, x: int, j: nat)
    requires |s0| == |s| > 0
  {
    Nth(s0, x + (j + 1)).Live? && ShiftOk(s0, x, j) ==> Nth(s, x + LivesBefore(s0, x, j)) == Pulled(s0, x, j)
  }

  ghost predicate Packed(s0: seq<Slot>, s: seq<Slot>, x: int, n: nat)
    requires |s0| == |s| > 0
  {
    forall j: nat {:trigger PackedAt(s0, s, x, j)} :: j < n ==> PackedAt(s0, s, x, j)
  }

  lemma {:induction false} NothingPacked(s: seq<Slot>, x: int)
    requires |s| > 0
    ensures Packed(s, s, x, 0)
  {
  }

  lemma {:induction false} LivesGrow(s: seq<Slot>, x: int, j: nat, i: nat)
    requires |s| > 0 && j < i && Nth(s, x + (j + 1)).Live?
    ensures LivesBefore(s, x, j) < LivesBefore(s, x, i)
    decreases i
  {
    hide Nth;
    if j < i - 1 {
      LivesGrow(s, x, j, i - 1);
    } else {
      assert Nth(s, x + i).Live?;
    }
  }

  /** One more entry is pulled back, or one more tombstone emptied. */
  lemma {:induction false} PackNext(s0: seq<Slot>, s: seq<Slot>, s': seq<Slot>, x: int, i: nat)
    requires |s0| == |s| == |s'| > 0 && i + 2 < |s| && Packed(s0, s, x, i) && ShiftOk(s0, x, i)
    requires forall y {:trigger Nth(s', y)} :: x <= y < x + |s| ==>
      Nth(s', y) == (
        if y == x + (i + 1) then Empty
        else if Nth(s0, x + (i + 1)).Live? && y == x + LivesBefore(s0, x, i) then Pulled(s0, x, i) else Nth(s, y))
    ensures Packed(s0, s', x, i + 1)
  {
    hide Nth, ShiftOk, Pulled;
    forall j: nat | j < i + 1 ensures PackedAt(s0, s', x, j) {
      if j < i && Nth(s0, x + (j + 1)).Live? {
        assert PackedAt(s0, s, x, j);
        LivesGrow(s0, x, j, i);
      }
    }
  }

  /** The loop invariant of the shift. */
  ghost predicate ShiftState(s0: seq<Slot>, s: seq<Slot>, gs: seq<Slot>, x: int, w: nat, i: nat) {
    && Shifting(s0, s, gs, x, w, i) && Inv(gs) && w == LivesBefore(s0, x, i) && Entries(s) == Entries(s0)
    && Packed(s0, s, x, i)
  }

  lemma {:induction false} ShiftStart(s: seq<Slot>, x: int)
    requires Inv(s) && |s| > 1 && Nth(s, x).Tomb?
    ensures ShiftState(s, s, s, x, 0, 0)
  {
    hide Inv, Entries, Nth;
    NothingPacked(s, x);
  }

  lemma {:induction false} ShiftSame(s0: seq<Slot>, s: seq<Slot>, gs: seq<Slot>, x: int, w: nat, i: nat)
    requires Shifting(s0, s, gs, x, w, i) && i + 2 < |s|
    ensures Nth(s, x + (i + 1)) == Nth(gs, x + (i + 1)) == Nth(s0, x + (i + 1))
    ensures Nth(s, x + w) == if w == 0 then Tomb else Empty
  {
    hide Nth;
    var a, b := Nth(s, x + (i + 1)), Nth(s, x + w);
  }

  lemma {:induction false} ShiftRead(s0: seq<Slot>, s: seq<Slot>, gs: seq<Slot>, x: int, w: nat, i: nat, slot: Slot)
    requires ShiftState(s0, s, gs, x, w, i) && i + 2 < |s| && slot == s[(x + (i + 1)) % |s|]
    requires !Nth(s0, x + (i + 1)).Empty?
    ensures slot == Nth(s0, x + (i + 1)) && !slot.Empty?
  {
    ShiftSame(s0, s, gs, x, w, i);
  }

  lemma {:induction false} ShiftLive(s0: seq<Slot>, s: seq<Slot>, gs: seq<Slot>, x: int, w: nat, i: nat, len: nat,
      e: Slot)
    requires ShiftState(s0, s, gs, x, w, i) && i + 2 < |s| && CanShift(s0, x, len) && i < len
    requires e == Nth(s0, x + (i + 1)) && e.Live?
    ensures e.pd >= i + 1 - w >= 0
    ensures
      var v := Live(e.h, e.pd - (i + 1 - w), e.val);
      var s' := s[(x + w) % |s| := v][(x + (i + 1)) % |s| := Empty];
      && ShiftState(s0, s', Put(Put(gs, x + w, v), x + (i + 1), Tomb), x, w + 1, i + 1)
      && Tombs(s') + (if w == 0 then 1 else 0) == Tombs(s)
  {
    hide Inv, Put, Entries, Tombs, Shifting, Nth, LivesBefore, Packed;
    ShiftingFacts(s0, s, gs, x, w, i);
    assert ShiftOk(s0, x, i);
    ShiftStep(s0, s, gs, x, w, i);
    PackLive(s0, s, gs, x, w, i);
    ShiftSame(s0, s, gs, x, w, i);
    NthIs(s, x + w);
    NthIs(s, x + (i + 1));
    MovedContents(s, (x + w) % |s|, (x + (i + 1)) % |s|, Live(e.h, e.pd - (i + 1 - w), e.val));
  }

  lemma {:induction false} ShiftingFacts(s0: seq<Slot>, s: seq<Slot>, gs: seq<Slot>, x: int, w: nat, i: nat)
    requires Shifting(s0, s, gs, x, w, i)
    ensures |s0| == |s| == |gs| > 0 && w <= i
  {
  }

  lemma {:induction false} ShiftTomb(s0: seq<Slot>, s: seq<Slot>, gs: seq<Slot>, x: int, w: nat, i: nat)
    requires ShiftState(s0, s, gs, x, w, i) && i + 2 < |s| && Nth(s0, x + (i + 1)).Tomb?
    ensures
      var s' := s[(x + (i + 1)) % |s| := Empty];
      ShiftState(s0, s', gs, x, w, i + 1) && Tombs(s') + 1 == Tombs(s)
  {
    hide Inv, Put, Entries, Tombs, Shifting, Nth, LivesBefore, Packed;
    ShiftingFacts(s0, s, gs, x, w, i);
    assert ShiftOk(s0, x, i);
    ShiftStep(s0, s, gs, x, w, i);
    PackTomb(s0, s, gs, x, w, i);
    ShiftSame(s0, s, gs, x, w, i);
    NthIs(s, x + (i + 1));
    SameContents(s, (x + (i + 1)) % |s|, Empty);
  }

  /** Coordinates of one turn name different slots. */
  lemma {:induction false} TurnApart(y: int, z: int, x: int, n: nat)
    requires n > 0 && x <= y < x + n && x <= z < x + n
    ensures y % n == z % n <==> y == z
  {
    if y % n == z % n {
      ModInjective(y, z, n);
    }
  }

  lemma {:induction false} PutTurn(s: seq<Slot>, z: int, v: Slot, x: int)
    requires |s| > 0 && x <= z < x + |s|
    ensures forall y {:trigger Nth(Put(s, z, v), y)} :: x <= y < x + |s| ==>
      Nth(Put(s, z, v), y) == if y == z then v else Nth(s, y)
    ensures Put(s, z, v) == s[z % |s| := v]
  {
    forall y | x <= y < x + |s| ensures Nth(Put(s, z, v), y) == if y == z then v else Nth(s, y) {
      TurnApart(y, z, x, |s|);
    }
  }

  /** One iteration of the shift. */
  lemma {:induction false} ShiftStep(s0: seq<Slot>, s: seq<Slot>, gs: seq<Slot>, x: int, w: nat, i: nat)
    requires Shifting(s0, s, gs, x, w, i) && Inv(gs) && i + 2 < |s| && w == LivesBefore(s0, x, i) && ShiftOk(s0, x, i)
    requires !Nth(s0, x + (i + 1)).Empty?
    ensures
      var r, e := x + (i + 1), Nth(s0, x + (i + 1));
      if e.Live? then
        && e.pd >= i + 1 - w
        && var v := Live(e.h, e.pd - (i + 1 - w), e.val);
           var gs' := Put(Put(gs, x + w, v), r, Tomb);
           && Inv(gs') && Shifting(s0, s[(x + w) % |s| := v][r % |s| := Empty], gs', x, w + 1, i + 1)
           && w + 1 == LivesBefore(s0, x, i + 1) && (x + w) % |s| != r % |s|
      else
        Shifting(s0, s[r % |s| := Empty], gs, x, w, i + 1) && w == LivesBefore(s0, x, i + 1)
  {
    hide Nth, Put, Inv;
    ShiftSame(s0, s, gs, x, w, i);
    var r, e := x + (i + 1), Nth(s0, x + (i + 1));
    if e.Live? {
      var v := Live(e.h, e.pd - (i + 1 - w), e.val);
      MoveBack(gs, x + w, r);
      TurnApart(x + w, r, x, |s|);
      PutTurn(s, x + w, v, x);
      PutTurn(Put(s, x + w, v), r, Empty, x);
      PutTurn(gs, x + w, v, x);
      PutTurn(Put(gs, x + w, v), r, Tomb, x);
    } else {
      PutTurn(s, r, Empty, x);
    }
  }

  lemma {:induction false} PackLive(s0: seq<Slot>, s: seq<Slot>, gs: seq<Slot>, x: int, w: nat, i: nat)
    requires Shifting(s0, s, gs, x, w, i) && w == LivesBefore(s0, x, i) && i + 2 < |s|
    requires Packed(s0, s, x, i) && ShiftOk(s0, x, i)
    requires Nth(s0, x + (i + 1)).Live?
    ensures Packed(s0, s[(x + w) % |s| := Pulled(s0, x, i)][(x + (i + 1)) % |s| := Empty], x, i + 1)
  {
    hide Nth, Put, Inv, Entries, Packed, Pulled, ShiftOk;
    var v := Pulled(s0, x, i);
    PutTurn(s, x + w, v, x);
    PutTurn(Put(s, x + w, v), x + (i + 1), Empty, x);
    PackNext(s0, s, Put(Put(s, x + w, v), x + (i + 1), Empty), x, i);
  }

  lemma {:induction false} PackTomb(s0: seq<Slot>, s: seq<Slot>, gs: seq<Slot>, x: int, w: nat, i: nat)
    requires Shifting(s0, s, gs, x, w, i) && w == LivesBefore(s0, x, i) && i + 2 < |s|
    requires Packed(s0, s, x, i) && Nth(s0, x + (i + 1)).Tomb?
    ensures Packed(s0, s[(x + (i + 1)) % |s| := Empty], x, i + 1)
  {
    hide Nth, Put, Inv, Entries, Packed;
    PutTurn(s, x + (i + 1), Empty, x);
    PackNext(s0, s, Put(s, x + (i + 1), Empty), x, i);
  }

  lemma {:induction false} SomeLive(s: seq<Slot>, x: int, len: nat)
    requires |s| > 0 && exists z :: x < z <= x + len && Nth(s, z).Live?
    ensures LivesBefore(s, x, len) > 0
  {
    hide Nth;
    if !Nth(s, x + len).Live? {
      SomeLive(s, x, len - 1);
    }
  }

  /** Empty a run of tombstones that ends before an empty slot, from the right. */
  lemma {:induction false} ClearRun(s: seq<Slot>, x: int, a: int, b: int) returns (s': seq<Slot>)
    requires Inv(s) && x <= a <= b + 1 < x + |s|
    requires forall y :: a <= y <= b ==> Nth(s, y).Tomb?
    requires Nth(s, b + 1).Empty?
    ensures Inv(s') && |s'| == |s|
    ensures forall y {:trigger Nth(s', y)} :: x <= y < x + |s| ==>
      Nth(s', y) == if a <= y <= b then Empty else Nth(s, y)
    decreases b + 1 - a
  {
    hide Nth, Put, Inv;
    if a == b + 1 {
      s' := s;
    } else {
      ClearLast(s, b);
      PutTurn(s, b, Empty, x);
      s' := ClearRun(Put(s, b, Empty), x, a, b - 1);
    }
  }

  lemma {:induction false} TurnEqual(s: seq<Slot>, t: seq<Slot>, x: int)
    requires |s| == |t| > 0 && forall y :: x <= y < x + |s| ==> Nth(s, y) == Nth(t, y)
    ensures s == t
  {
    forall i | 0 <= i < |s| ensures s[i] == t[i] {
      var y := x + (i - x) % |s|;
      assert i - x == |s| * ((i - x) / |s|) + (i - x) % |s|;
      ModShift(y, (i - x) / |s|, |s|);
      ModUnique(i, 0, i, |s|);
      assert Nth(s, y) == Nth(t, y);
    }
  }

  lemma {:induction false} ShiftEnd(s0: seq<Slot>, s: seq<Slot>, gs: seq<Slot>, x: int, w: nat, len: nat)
    requires ShiftState(s0, s, gs, x, w, len) && Nth(s0, x + len + 1).Empty?
    requires exists z :: x < z <= x + len && Nth(s0, z).Live?
    ensures w > 0 && Inv(s) && Entries(s) == Entries(s0) && Shifted(s0, s, x, len)
  {
    hide Nth, Inv, Entries, Packed, Shifted;
    SomeLive(s0, x, len);
    ShiftedWhole(s0, s, gs, x, w, len);
    assert Nth(gs, x + len + 1).Empty?;
    var t := ClearRun(gs, x, x + w, x + len);
    TurnEqual(s, t, x);
  }

  /** The chain of len slots after x has been shifted back: its entries stand at x and after it, without gaps and in
      order, each that much nearer to home; the slots they leave are empty, and the rest of the ring is unchanged. */
  ghost predicate Shifted(s0: seq<Slot>, s: seq<Slot>, x: int, len: nat) {
    && |s0| == |s| > 0 && Packed(s0, s, x, len)
    && forall y {:trigger Nth(s, y)} :: x <= y < x + |s| ==>
         && (x + LivesBefore(s0, x, len) <= y <= x + len ==> Nth(s, y).Empty?)
         && (x + len < y ==> Nth(s, y) == Nth(s0, y))
  }

  lemma {:induction false} ShiftedWhole(s0: seq<Slot>, s: seq<Slot>, gs: seq<Slot>, x: int, w: nat, len: nat)
    requires ShiftState(s0, s, gs, x, w, len) && w > 0
    ensures Shifted(s0, s, x, len)
  {
    hide Nth, Inv, Entries, Packed;
  }

  /** The chain after x that a removal may close: up to 16 tombstones and displaced entries, at least one entry, and
      an empty slot behind. */
  ghost predicate Closes(s: seq<Slot>, x: int, len: nat) {
    && |s| > 0 && len < LOOKAHEAD && Nth(s, x + len + 1).Empty?
    && (forall z {:trigger Nth(s, z)} :: x < z <= x + len ==>
          !Nth(s, z).Empty? && (Nth(s, z).Live? ==> Nth(s, z).pd > 0))
    && exists z :: x < z <= x + len && Nth(s, z).Live?
  }

  lemma {:induction false} ClosesOnce(s: seq<Slot>, x: int, len: nat, len': nat)
    requires Closes(s, x, len) && Closes(s, x, len')
    ensures len == len'
  {
    hide Nth;
    assert Nth(s, x + len + 1).Empty? && Nth(s, x + len' + 1).Empty?;
  }

  /** The scan has passed len tombstones and displaced entries after x, `live` of them entries. */
  ghost predicate Chain(s: seq<Slot>, x: int, len: nat, live: nat)
    requires |s| > 0
  {
    && live <= len && (live > 0 <==> exists z :: x < z <= x + len && Nth(s, z).Live?)
    && forall z {:trigger Nth(s, z)} :: x < z <= x + len ==>
         !Nth(s, z).Empty? && (Nth(s, z).Live? ==> Nth(s, z).pd > 0)
  }

  lemma {:induction false} ChainStart(s: seq<Slot>, x: int)
    requires |s| > 0
    ensures Chain(s, x, 0, 0)
  {
  }

  lemma {:induction false} ChainNext(s: seq<Slot>, x: int, len: nat, live: nat)
    requires |s| > 0 && Chain(s, x, len, live)
    requires var e := Nth(s, x + (len + 1)); !e.Empty? && (e.Live? ==> e.pd > 0)
    ensures Chain(s, x, len + 1, live + if Nth(s, x + (len + 1)).Live? then 1 else 0)
  {
    hide Nth;
  }

  /** The scan has stopped: at an empty slot, at an entry that is at home, or at the end of the look-ahead. */
  lemma {:induction false} ChainEnds(s: seq<Slot>, x: int, len: nat, live: nat, ends: bool)
    requires |s| > 0 && Chain(s, x, len, live) && len <= LOOKAHEAD
    requires
      var e := Nth(s, x + (len + 1));
      if ends then len < LOOKAHEAD && e.Empty? else len == LOOKAHEAD || (e.Live? && e.pd == 0)
    ensures live <= len
    ensures forall z :: x < z <= x + len ==> !Nth(s, z).Empty?
    ensures live > 0 ==> exists z :: x < z <= x + len && Nth(s, z).Live?
    ensures ends ==> Nth(s, x + len + 1).Empty?
    ensures ends && live > 0 ==> Closes(s, x, len)
    ensures !ends || live == 0 ==> forall n: nat :: !Closes(s, x, n)
  {
    hide Nth;
    assert x + len + 1 == x + (len + 1);
    var e := Nth(s, x + (len + 1));
    forall n: nat | Closes(s, x, n) ensures ends && live > 0 {
      assert Nth(s, x + n + 1).Empty?;
    }
  }

  /** What compaction makes of the tombstone at idx: the chain it can close is shifted, unless an entry could not be or
      would stay more than half a turn from home. */
  ghost predicate Compacted(s0: seq<Slot>, s: seq<Slot>, idx: int) {
    && |s0| == |s| > 0
    && (forall len: nat :: Closes(s0, idx, len) ==>
          || (CanShift(s0, idx, len) && Shifted(s0, s, idx, len))
          || (s == s0 && exists j: nat :: j < len && (!ShiftOk(s, idx, j) || StaysFar(s, idx, j))))
    && ((forall len: nat :: !Closes(s0, idx, len)) ==> s == s0)
  }
}
