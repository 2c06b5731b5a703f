/** The sequence-counter read protocol of one bucket, as interleaved atomic steps of one writer
    at a time and one reader, under sequential consistency. */
module HtcSeqlock {
  import opened Options
  import opened HtcControl
  import opened HtcModel
  import opened ModArith

  const WRAP: nat := 0x1_0000_0000

  /** The shared words of a bucket.  `dead` is the set of records flagged as deleted. */
  datatype Memory = Memory(slots: seq<Slot>, ctrl: Ctrl, dead: set<nat>)

  /** What the scan looks for; record identities do not change while it runs. */
  datatype Query = Query(h: nat, tag: nat, sec: bool, p8: bv8, identity: nat -> nat, partial: nat -> bv8)

  type Lanes = c: set<nat> | forall i :: i in c ==> i < 8

  /** The reader's program counter and registers.  `s0` is the sequence word it read;
      `since` is the number of writer sections completed at that moment (a proof aid). */
  datatype Reader =
    | Idle
    | GotSeq(s0: nat, since: nat)
    | Scanning(s0: nat, since: nat, cands: Lanes)
    | Checking(s0: nat, since: nat, cands: Lanes, lane: nat, idx: nat)
    | Validating(s0: nat, since: nat, result: Option<nat>)
    | Done(result: Option<nat>)

  /** `sections` counts completed writer sections; the shared 32-bit word wraps.  `entry` is the memory when
      the last section began (a proof aid). */
  datatype State = State(mem: Memory, sections: nat, busy: bool, reader: Reader, entry: Memory)

  function SeqWord(sections: nat, busy: bool): (w: nat) {
    (2 * sections) % WRAP + if busy then 1 else 0
  }

  ghost predicate CtrlMatches(q: Query, m: Memory) {
    && |m.slots| == 8
    && forall i :: 0 <= i < 8 && m.slots[i].Live? ==> m.ctrl[i] == q.partial(m.slots[i].tag)
  }

  predicate LaneMatches(q: Query, m: Memory, i: nat)
    requires i < |m.slots|
  {
    var w := m.slots[i];
    w.Live? && w.tag == q.tag && w.sec == q.sec && q.identity(w.idx) == q.h && w.idx !in m.dead
  }

  /** The scan of all eight slots at one instant. */
  function FullScan(q: Query, m: Memory, from: nat): (r: Option<nat>)
    requires from <= |m.slots|
    ensures r.Some? ==> from <= r.value < |m.slots| && LaneMatches(q, m, r.value)
    ensures forall i :: from <= i < |m.slots| && (r.Some? ==> i < r.value) ==> !LaneMatches(q, m, i)
    decreases |m.slots| - from
  {
    if from == |m.slots| then None
    else if LaneMatches(q, m, from) then Some(from)
    else FullScan(q, m, from + 1)
  }

  // ---------------------------------------------------------------- steps

  ghost predicate Init(q: Query, s: State) {
    CtrlMatches(q, s.mem) && !s.busy && s.reader == Idle && q.p8 == q.partial(q.tag)
  }

  /** The atomic steps: of the writer that holds the bucket's lock, of deleters elsewhere, and
      of the reader. */
  datatype Step = Begin | WriteSlot(i: nat, w: Slot) | WriteCtrl(i: nat, b: bv8) | Delete(idx: nat) | End | Read

  ghost predicate Named(m: Memory, idx: nat) {
    exists i :: 0 <= i < |m.slots| && m.slots[i].Live? && m.slots[i].idx == idx
  }

  /** Slots, control bytes and the records this bucket names change only inside a section; a
      section ends with the control word matching the slots again. */
  ghost predicate Next(q: Query, s: State, step: Step, s': State) {
    && |s.mem.slots| == 8
    && match step
       case Begin => !s.busy && s' == s.(busy := true, entry := s.mem)
       case WriteSlot(i, w) => s.busy && i < 8 && s' == s.(mem := s.mem.(slots := s.mem.slots[i := w]))
       case WriteCtrl(i, b) => s.busy && i < 8 && s' == s.(mem := s.mem.(ctrl := s.mem.ctrl[i := b]))
       case Delete(idx) => (s.busy || !Named(s.mem, idx)) && s' == s.(mem := s.mem.(dead := s.mem.dead + {idx}))
       case End => s.busy && CtrlMatches(q, s.mem) && s' == s.(busy := false, sections := s.sections + 1)
       case Read => s' == s.(reader := ReaderNext(q, s))
  }

  /** The reader's next atomic step. */
  ghost function ReaderNext(q: Query, s: State): (r: Reader)
    requires |s.mem.slots| == 8
  {
    match s.reader
    case Idle => if s.busy then Idle else GotSeq(SeqWord(s.sections, s.busy), s.sections)
    case GotSeq(s0, since) => Scanning(s0, since, Match8(s.mem.ctrl, q.p8))
    case Scanning(s0, since, cands) =>
      if cands == {} then Validating(s0, since, None)
      else
        assert exists c :: c in cands;
        var i := Lowest(cands, 0);
        var w := s.mem.slots[i];
        if w.Live? && w.tag == q.tag && w.sec == q.sec && q.identity(w.idx) == q.h
        then Checking(s0, since, cands - {i}, i, w.idx)
        else Scanning(s0, since, cands - {i})
    case Checking(s0, since, cands, lane, idx) =>
      if idx in s.mem.dead then Scanning(s0, since, cands) else Validating(s0, since, Some(lane))
    case Validating(s0, since, result) =>
      if SeqWord(s.sections, s.busy) == s0 && !s.busy then Done(result) else Idle
    case Done(result) => s.reader
  }

  // ---------------------------------------------------------------- the invariant

  ghost predicate Started(r: Reader) {
    !r.Idle? && !r.Done?
  }

  /** No section has begun since the reader took its sequence number. */
  ghost predicate Quiet(s: State) {
    Started(s.reader) && s.sections == s.reader.since && !s.busy
  }

  /** While it is quiet, everything the reader has concluded holds of the memory right now. */
  ghost predicate SoFar(q: Query, m: Memory, r: Reader)
    requires |m.slots| == 8
  {
    match r
    case Scanning(_, _, cands) =>
      forall i :: 0 <= i < 8 && LaneMatches(q, m, i) ==> i in cands
    case Checking(_, _, cands, lane, idx) =>
      && lane < 8 && m.slots[lane].Live? && m.slots[lane].idx == idx
      && m.slots[lane].tag == q.tag && m.slots[lane].sec == q.sec && q.identity(idx) == q.h
      && (forall c :: c in cands ==> lane < c)
      && (forall i :: 0 <= i < 8 && LaneMatches(q, m, i) ==> i == lane || i in cands)
    case Validating(_, _, result) =>
      result == FullScan(q, m, 0)
    case _ => true
  }

  ghost predicate Inv(q: Query, s: State) {
    && |s.mem.slots| == 8 && q.p8 == q.partial(q.tag)
    && (!s.busy ==> CtrlMatches(q, s.mem))
    && (Started(s.reader) ==> s.reader.s0 == SeqWord(s.reader.since, false) && s.reader.since <= s.sections)
    && (Quiet(s) ==> SoFar(q, s.mem, s.reader))
  }

  lemma {:induction false} InitInv(q: Query, s: State)
    requires Init(q, s)
    ensures Inv(q, s)
  {
  }

  lemma {:induction false} FullScanIs(q: Query, m: Memory, i: nat, from: nat)
    requires from <= i < |m.slots| && LaneMatches(q, m, i)
    requires forall j :: from <= j < i ==> !LaneMatches(q, m, j)
    ensures FullScan(q, m, from) == Some(i)
  {
  }

  lemma {:induction false} ReadKeepsInv(q: Query, s: State, s': State)
    requires Inv(q, s) && Next(q, s, Read, s')
    ensures Inv(q, s')
  {
    if Quiet(s') && Quiet(s) {
      match s.reader
      case GotSeq(_, _) =>
        forall i | 0 <= i < 8 && LaneMatches(q, s.mem, i) ensures i in Match8(s.mem.ctrl, q.p8) {
          MatchNeverMisses(s.mem.ctrl, q.p8, i);
        }
      case Checking(_, _, _, lane, idx) =>
        if idx !in s.mem.dead {
          FullScanIs(q, s.mem, lane, 0);
        }
      case _ =>
    }
  }

  lemma {:induction false} NextKeepsInv(q: Query, s: State, step: Step, s': State)
    requires Inv(q, s) && Next(q, s, step, s')
    ensures Inv(q, s')
  {
    match step
    case Read => ReadKeepsInv(q, s, s');
    case Delete(idx) =>
      if Quiet(s) {
        assert !Named(s.mem, idx);
        forall i | 0 <= i < 8 ensures LaneMatches(q, s'.mem, i) <==> LaneMatches(q, s.mem, i) {
        }
        SameScan(q, s.mem, s'.mem, 0);
      }
    case _ =>
  }

  lemma {:induction false} SameScan(q: Query, m: Memory, m': Memory, from: nat)
    requires |m.slots| == |m'.slots| && from <= |m.slots|
    requires forall i :: 0 <= i < |m.slots| ==> (LaneMatches(q, m, i) <==> LaneMatches(q, m', i))
    ensures FullScan(q, m, from) == FullScan(q, m', from)
    decreases |m.slots| - from
  {
    if from < |m.slots| {
      SameScan(q, m, m', from + 1);
    }
  }

  // ---------------------------------------------------------------- every run

  ghost predicate Run(q: Query, ss: seq<State>, steps: seq<Step>) {
    && |ss| == |steps| + 1 && Init(q, ss[0])
    && (forall k {:trigger steps[k]} :: 0 <= k < |steps| ==> Next(q, ss[k], steps[k], ss[k + 1]))
  }

  lemma {:induction false} RunInv(q: Query, ss: seq<State>, steps: seq<Step>, k: nat)
    requires Run(q, ss, steps) && k < |ss|
    ensures Inv(q, ss[k])
  {
    if k == 0 {
      InitInv(q, ss[0]);
    } else {
      RunInv(q, ss, steps, k - 1);
      assert Next(q, ss[k - 1], steps[k - 1], ss[k]);
      NextKeepsInv(q, ss[k - 1], steps[k - 1], ss[k]);
    }
  }

  /** In every run, a scan that validates has answered with the full scan of the bucket at the
      instant of its last read, provided fewer than 2^31 writer sections completed since its
      first. */
  lemma {:induction false} ValidatedScanIsAtomic(q: Query, ss: seq<State>, steps: seq<Step>, k: nat)
    requires Run(q, ss, steps) && k < |steps| && steps[k] == Read
    requires ss[k].reader.Validating? && ss[k + 1].reader.Done?
    requires ss[k].sections - ss[k].reader.since < WRAP / 2
    ensures |ss[k].mem.slots| == 8
    ensures ss[k + 1].reader.result == FullScan(q, ss[k].mem, 0)
  {
    RunInv(q, ss, steps, k);
    assert Next(q, ss[k], steps[k], ss[k + 1]);
    SeqWordRepeats(ss[k].reader.since, ss[k].sections);
  }

  /** The sequence word repeats exactly after every 2^31 sections, so the bound above is what
      the 32-bit counter needs. */
  lemma {:induction false} SeqWordRepeats(a: nat, b: nat)
    requires a <= b
    ensures SeqWord(a, false) == SeqWord(b, false) <==> (b - a) % (WRAP / 2) == 0
  {
    WordOfTwice(a);
    WordOfTwice(b);
    SameRest(a, b, WRAP / 2);
  }

  lemma {:induction false} WordOfTwice(a: nat)
    ensures SeqWord(a, false) == 2 * (a % (WRAP / 2))
  {
    ModUnique(2 * a, a / (WRAP / 2), 2 * (a % (WRAP / 2)), WRAP);
  }

  // ---------------------------------------------------------------- what the writers of the table do

  /** The key is in the bucket. */
  ghost predicate Found(q: Query, m: Memory) {
    exists i: nat :: i < |m.slots| && LaneMatches(q, m, i)
  }

  ghost predicate AtMostOne(q: Query, m: Memory) {
    forall i: nat, j: nat {:trigger LaneMatches(q, m, i), LaneMatches(q, m, j)} ::
      i < |m.slots| && j < |m.slots| && LaneMatches(q, m, i) && LaneMatches(q, m, j) ==> i == j
  }

  /** Insert, remove and displacement publish a key in a bucket only if it was in none of its lanes, now and when
      their section began; and they leave the control byte of a lane alone while the key it held when their
      section began is still there. */
  ghost predicate Disciplined(q: Query, s: State, step: Step)
    requires |s.mem.slots| == 8
  {
    match step
    case WriteSlot(i, w) =>
      i < 8 && w != s.mem.slots[i] && LaneMatches(q, s.mem.(slots := s.mem.slots[i := w]), i) ==>
        !Found(q, s.mem) && !Found(q, s.entry)
    case WriteCtrl(i, b) =>
      i < 8 && LaneMatches(q, s.mem, i) && i < |s.entry.slots| && LaneMatches(q, s.entry, i) ==> b == s.mem.ctrl[i]
    case _ => true
  }

  /** The state after a writer's step. */
  ghost function Do(s: State, step: Step): (s': State)
    requires |s.mem.slots| == 8
    ensures |s'.mem.slots| == 8
  {
    match step
    case Begin => s.(busy := true, entry := s.mem)
    case WriteSlot(i, w) => if i < 8 then s.(mem := s.mem.(slots := s.mem.slots[i := w])) else s
    case WriteCtrl(i, b) => if i < 8 then s.(mem := s.mem.(ctrl := s.mem.ctrl[i := b])) else s
    case Delete(idx) => s.(mem := s.mem.(dead := s.mem.dead + {idx}))
    case End => s.(busy := false, sections := s.sections + 1)
    case Read => s
  }

  ghost predicate AllDisciplined(q: Query, s: State, steps: seq<Step>)
    requires |s.mem.slots| == 8
    decreases |steps|
  {
    steps == [] || (Disciplined(q, s, steps[0]) && AllDisciplined(q, Do(s, steps[0]), steps[1..]))
  }

  /** The word names the key of the query. */
  ghost predicate IsKey(q: Query, w: Slot) {
    w.Live? && w.tag == q.tag && w.sec == q.sec && q.identity(w.idx) == q.h
  }

  /** A bucket's part in a displacement: the occupant of lane i leaves, the one before it in the path comes.
      With nothing leaving it is an insertion, and with nothing coming a removal. */
  lemma {:induction false} SectionDisciplined(q: Query, s: State, i: nat, w: Slot, p: bv8, idx: nat)
    requires |s.mem.slots| == 8 && i < 8 && (IsKey(q, w) ==> !Found(q, s.mem))
    ensures AllDisciplined(q, s, [Begin, WriteSlot(i, Empty), WriteSlot(i, w), WriteCtrl(i, 0), WriteCtrl(i, p), End])
    ensures s.mem.slots[i].Empty? ==> AllDisciplined(q, s, [Begin, WriteSlot(i, w), WriteCtrl(i, p), End])
    ensures AllDisciplined(q, s, [Begin, Delete(idx), WriteSlot(i, Empty), WriteCtrl(i, 0), End])
  {
    DisplaceDisciplined(q, s, i, w, p);
    InsertDisciplined(q, s, i, w, p);
    RemoveDisciplined(q, s, i, idx);
  }

  lemma {:induction false} Unroll(q: Query, s: State, step: Step, rest: seq<Step>, all: seq<Step>)
    requires |s.mem.slots| == 8 && Disciplined(q, s, step) && AllDisciplined(q, Do(s, step), rest)
    requires all == [step] + rest
    ensures AllDisciplined(q, s, all)
  {
    assert all[1..] == rest;
  }

  lemma {:induction false} DisplaceDisciplined(q: Query, s: State, i: nat, w: Slot, p: bv8)
    requires |s.mem.slots| == 8 && i < 8 && (IsKey(q, w) ==> !Found(q, s.mem))
    ensures AllDisciplined(q, s, [Begin, WriteSlot(i, Empty), WriteSlot(i, w), WriteCtrl(i, 0), WriteCtrl(i, p), End])
  {
    hide AllDisciplined;
    var a := Do(s, Begin);
    var b := Do(a, WriteSlot(i, Empty));
    var c := Do(b, WriteSlot(i, w));
    var d := Do(c, WriteCtrl(i, 0));
    var e := Do(d, WriteCtrl(i, p));
    assert IsKey(q, w) ==> !Found(q, b.mem) by {
      if j: nat :| j < 8 && LaneMatches(q, b.mem, j) {
        assert LaneMatches(q, s.mem, j);
      }
    }
    assert !IsKey(q, w) || !LaneMatches(q, c.entry, i);
    LastStep(q, e, End);
    Unroll(q, d, WriteCtrl(i, p), [End], [WriteCtrl(i, p), End]);
    Unroll(q, c, WriteCtrl(i, 0), [WriteCtrl(i, p), End], [WriteCtrl(i, 0), WriteCtrl(i, p), End]);
    Unroll(q, b, WriteSlot(i, w), [WriteCtrl(i, 0), WriteCtrl(i, p), End],
      [WriteSlot(i, w), WriteCtrl(i, 0), WriteCtrl(i, p), End]);
    Unroll(q, a, WriteSlot(i, Empty), [WriteSlot(i, w), WriteCtrl(i, 0), WriteCtrl(i, p), End],
      [WriteSlot(i, Empty), WriteSlot(i, w), WriteCtrl(i, 0), WriteCtrl(i, p), End]);
    Unroll(q, s, Begin, [WriteSlot(i, Empty), WriteSlot(i, w), WriteCtrl(i, 0), WriteCtrl(i, p), End],
      [Begin, WriteSlot(i, Empty), WriteSlot(i, w), WriteCtrl(i, 0), WriteCtrl(i, p), End]);
  }

  lemma {:induction false} InsertDisciplined(q: Query, s: State, i: nat, w: Slot, p: bv8)
    requires |s.mem.slots| == 8 && i < 8 && (IsKey(q, w) ==> !Found(q, s.mem))
    ensures s.mem.slots[i].Empty? ==> AllDisciplined(q, s, [Begin, WriteSlot(i, w), WriteCtrl(i, p), End])
  {
    hide AllDisciplined;
    if s.mem.slots[i].Empty? {
      var a := Do(s, Begin);
      var b := Do(a, WriteSlot(i, w));
      LastStep(q, Do(b, WriteCtrl(i, p)), End);
      Unroll(q, b, WriteCtrl(i, p), [End], [WriteCtrl(i, p), End]);
      Unroll(q, a, WriteSlot(i, w), [WriteCtrl(i, p), End], [WriteSlot(i, w), WriteCtrl(i, p), End]);
      Unroll(q, s, Begin, [WriteSlot(i, w), WriteCtrl(i, p), End], [Begin, WriteSlot(i, w), WriteCtrl(i, p), End]);
    }
  }

  lemma {:induction false} RemoveDisciplined(q: Query, s: State, i: nat, idx: nat)
    requires |s.mem.slots| == 8 && i < 8
    ensures AllDisciplined(q, s, [Begin, Delete(idx), WriteSlot(i, Empty), WriteCtrl(i, 0), End])
  {
    hide AllDisciplined;
    var a := Do(s, Begin);
    var b := Do(a, Delete(idx));
    var c := Do(b, WriteSlot(i, Empty));
    LastStep(q, Do(c, WriteCtrl(i, 0)), End);
    Unroll(q, c, WriteCtrl(i, 0), [End], [WriteCtrl(i, 0), End]);
    Unroll(q, b, WriteSlot(i, Empty), [WriteCtrl(i, 0), End], [WriteSlot(i, Empty), WriteCtrl(i, 0), End]);
    Unroll(q, a, Delete(idx), [WriteSlot(i, Empty), WriteCtrl(i, 0), End],
      [Delete(idx), WriteSlot(i, Empty), WriteCtrl(i, 0), End]);
    Unroll(q, s, Begin, [Delete(idx), WriteSlot(i, Empty), WriteCtrl(i, 0), End],
      [Begin, Delete(idx), WriteSlot(i, Empty), WriteCtrl(i, 0), End]);
  }

  lemma {:induction false} LastStep(q: Query, s: State, step: Step)
    requires |s.mem.slots| == 8 && Disciplined(q, s, step)
    ensures AllDisciplined(q, s, [step])
  {
    assert [step][1..] == [];
  }

  ghost predicate DisciplinedRun(q: Query, ss: seq<State>, steps: seq<Step>) {
    && Run(q, ss, steps) && AtMostOne(q, ss[0].mem)
    && (forall k {:trigger steps[k]} :: 0 <= k < |steps| ==> |ss[k].mem.slots| == 8 && Disciplined(q, ss[k], steps[k]))
  }

  lemma {:induction false} StepKeepsOne(q: Query, s: State, step: Step, s': State)
    requires Next(q, s, step, s') && Disciplined(q, s, step) && AtMostOne(q, s.mem)
    ensures |s'.mem.slots| == 8 && AtMostOne(q, s'.mem)
  {
    forall i: nat, j: nat | i < 8 && j < 8 && LaneMatches(q, s'.mem, i) && LaneMatches(q, s'.mem, j)
      ensures i == j
    {
      if step.WriteSlot? && step.w != s.mem.slots[step.i] && (step.i == i || step.i == j) {
        assert i != step.i ==> LaneMatches(q, s.mem, i);
        assert j != step.i ==> LaneMatches(q, s.mem, j);
      } else {
        assert LaneMatches(q, s.mem, i) && LaneMatches(q, s.mem, j);
      }
    }
  }

  lemma {:induction false} AlwaysOne(q: Query, ss: seq<State>, steps: seq<Step>, k: nat)
    requires DisciplinedRun(q, ss, steps) && k < |ss|
    ensures |ss[k].mem.slots| == 8 && AtMostOne(q, ss[k].mem)
  {
    RunInv(q, ss, steps, k);
    if k > 0 {
      AlwaysOne(q, ss, steps, k - 1);
      hide Run, Inv, AtMostOne, Disciplined;
      assert Next(q, ss[k - 1], steps[k - 1], ss[k]) by { RunStep(q, ss, steps, k - 1); }
      StepKeepsOne(q, ss[k - 1], steps[k - 1], ss[k]);
    }
  }

  lemma {:induction false} RunStep(q: Query, ss: seq<State>, steps: seq<Step>, k: nat)
    requires Run(q, ss, steps) && k < |steps|
    ensures k + 1 < |ss| && Next(q, ss[k], steps[k], ss[k + 1])
  {
    assert Next(q, ss[k], steps[k], ss[k + 1]);
  }

  /** Lane i holds the key under word w, tagged. */
  ghost predicate Holding(q: Query, s: State, i: nat, w: Slot) {
    && |s.mem.slots| == 8 && i < 8 && s.mem.slots[i] == w && LaneMatches(q, s.mem, i) && s.mem.ctrl[i] == q.p8
    && (s.busy ==> i < |s.entry.slots| && LaneMatches(q, s.entry, i))
  }

  /** As long as the key is in the bucket it stays in its lane. */
  lemma {:induction false} HoldingStep(q: Query, s: State, step: Step, s': State, i: nat, w: Slot)
    requires Inv(q, s) && Next(q, s, step, s') && Disciplined(q, s, step) && AtMostOne(q, s.mem)
    requires Holding(q, s, i, w) && Found(q, s'.mem)
    ensures Holding(q, s', i, w)
  {
    var j: nat :| j < |s'.mem.slots| && LaneMatches(q, s'.mem, j);
    assert Found(q, s.mem);
    match step
    case WriteSlot(n, v) =>
      assert s.busy ==> Found(q, s.entry);
      assert j != n ==> LaneMatches(q, s.mem, j);
    case Delete(idx) =>
      assert LaneMatches(q, s.mem, j);
    case _ =>
  }

  /** The key is in the bucket from instant a to instant k. */
  ghost predicate Stays(q: Query, ss: seq<State>, a: nat, k: nat) {
    a <= k < |ss| && forall j {:trigger ss[j]} :: a <= j <= k ==> Found(q, ss[j].mem)
  }

  lemma {:induction false} HoldsOn(q: Query, ss: seq<State>, steps: seq<Step>, a: nat, k: nat, i: nat, w: Slot)
    requires DisciplinedRun(q, ss, steps) && Stays(q, ss, a, k) && Holding(q, ss[a], i, w)
    ensures Holding(q, ss[k], i, w)
    decreases k
  {
    if a < k {
      hide Holding, Found, Inv, Run, AtMostOne;
      HoldsOn(q, ss, steps, a, k - 1, i, w);
      AlwaysOne(q, ss, steps, k - 1);
      RunInv(q, ss, steps, k - 1);
      RunStep(q, ss, steps, k - 1);
      assert Disciplined(q, ss[k - 1], steps[k - 1]);
      assert Found(q, ss[k].mem);
      HoldingStep(q, ss[k - 1], steps[k - 1], ss[k], i, w);
    }
  }

  /** One attempt of the reader: it takes the sequence word at a, and has not retried or finished up to k. */
  ghost predicate Attempt(ss: seq<State>, a: nat, k: nat) {
    && a <= k < |ss| && ss[a].reader.GotSeq? && !ss[a].busy
    && forall j {:trigger ss[j]} :: a <= j <= k ==> Started(ss[j].reader)
  }

  /** A reader that cannot miss lane i: it has it among its candidates or has just read it. */
  ghost predicate CannotMiss(r: Reader, i: nat, w: Slot) {
    match r
    case Scanning(_, _, cands) => i in cands
    case Checking(_, _, cands, lane, idx) => i in cands || (lane == i && w.Live? && idx == w.idx)
    case Validating(_, _, result) => result.Some?
    case _ => true
  }

  lemma {:induction false} CannotMissStep(q: Query, s: State, step: Step, s': State, i: nat, w: Slot)
    requires Next(q, s, step, s') && Holding(q, s, i, w) && CannotMiss(s.reader, i, w) && Started(s.reader) &&
      Started(s'.reader)
    ensures CannotMiss(s'.reader, i, w)
  {
    if step == Read {
      match s.reader
      case GotSeq(_, _) => MatchNeverMisses(s.mem.ctrl, q.p8, i);
      case _ =>
    }
  }

  lemma {:induction false} CannotMissOn(q: Query, ss: seq<State>, steps: seq<Step>, a: nat, k: nat, i: nat, w: Slot)
    requires DisciplinedRun(q, ss, steps) && Attempt(ss, a, k) && Stays(q, ss, a, k) && Holding(q, ss[a], i, w)
    ensures CannotMiss(ss[k].reader, i, w)
    decreases k
  {
    if a < k {
      hide Holding, Found, Run, CannotMiss;
      CannotMissOn(q, ss, steps, a, k - 1, i, w);
      HoldsOn(q, ss, steps, a, k - 1, i, w);
      RunStep(q, ss, steps, k - 1);
      assert Started(ss[k - 1].reader) && Started(ss[k].reader);
      CannotMissStep(q, ss[k - 1], steps[k - 1], ss[k], i, w);
    }
  }

  /** What the reader has found in a lane was there at some instant of the attempt, by a record not deleted
      when it looked at its flag. */
  ghost predicate Grounded(q: Query, ss: seq<State>, a: nat, k: nat)
    requires k < |ss|
  {
    match ss[k].reader
    case Checking(_, _, _, lane, idx) =>
      exists j: nat :: a <= j <= k && |ss[j].mem.slots| == 8 && lane < 8 && WordMatches(q, ss[j].mem, lane, idx)
    case Validating(_, _, Some(lane)) =>
      exists j: nat :: a <= j <= k && |ss[j].mem.slots| == 8 && lane < 8 && LaneMatches(q, ss[j].mem, lane)
    case _ => true
  }

  ghost predicate WordMatches(q: Query, m: Memory, i: nat, idx: nat)
    requires i < |m.slots|
  {
    var w := m.slots[i];
    w.Live? && w.tag == q.tag && w.sec == q.sec && q.identity(w.idx) == q.h && w.idx == idx
  }

  lemma {:induction false} DeadStaysDead(q: Query, ss: seq<State>, steps: seq<Step>, j: nat, k: nat, idx: nat)
    requires Run(q, ss, steps) && j <= k < |ss| && idx !in ss[k].mem.dead
    ensures idx !in ss[j].mem.dead
    decreases k
  {
    if j < k {
      RunStep(q, ss, steps, k - 1);
      DeadStaysDead(q, ss, steps, j, k - 1, idx);
    }
  }

  lemma {:induction false} GroundedOn(q: Query, ss: seq<State>, steps: seq<Step>, a: nat, k: nat)
    requires Run(q, ss, steps) && Attempt(ss, a, k)
    ensures Grounded(q, ss, a, k)
    decreases k
  {
    if a < k {
      GroundedOn(q, ss, steps, a, k - 1);
      RunStep(q, ss, steps, k - 1);
      var s, s' := ss[k - 1], ss[k];
      assert Started(s.reader) && Started(s'.reader);
      if steps[k - 1] == Read {
        if s'.reader.Checking? {
          assert WordMatches(q, s.mem, s'.reader.lane, s'.reader.idx);
        } else if s.reader.Checking? && s'.reader.Validating? {
          var idx := s.reader.idx;
          var j: nat :| a <= j <= k - 1 && |ss[j].mem.slots| == 8 && WordMatches(q, ss[j].mem, s.reader.lane, idx);
          DeadStaysDead(q, ss, steps, j, k - 1, idx);
          assert LaneMatches(q, ss[j].mem, s.reader.lane);
        }
      }
    }
  }

  /** With the writers of the table, whatever a scan answers was the full scan of the bucket at some instant of
      its attempt: for any number of sections, and before it validates. */
  lemma {:induction false} AnswerHeldOnce(q: Query, ss: seq<State>, steps: seq<Step>, a: nat, k: nat)
    requires DisciplinedRun(q, ss, steps) && Attempt(ss, a, k) && ss[k].reader.Validating?
    ensures exists j: nat :: a <= j <= k && |ss[j].mem.slots| == 8 && ss[k].reader.result == FullScan(q, ss[j].mem, 0)
  {
    GroundedOn(q, ss, steps, a, k);
    if ss[k].reader.result.Some? {
      var lane := ss[k].reader.result.value;
      var j: nat :| a <= j <= k && |ss[j].mem.slots| == 8 && lane < 8 && LaneMatches(q, ss[j].mem, lane);
      AlwaysOne(q, ss, steps, j);
      assert FullScan(q, ss[j].mem, 0) == Some(lane);
    } else {
      MissedOnce(q, ss, steps, a, k);
    }
  }

  /** A key that is in the bucket at every instant of the attempt is not missed. */
  lemma {:induction false} MissedOnce(q: Query, ss: seq<State>, steps: seq<Step>, a: nat, k: nat)
    requires DisciplinedRun(q, ss, steps) && Attempt(ss, a, k) && ss[k].reader.Validating? &&
      ss[k].reader.result == None
    ensures exists j: nat :: a <= j <= k && |ss[j].mem.slots| == 8 && FullScan(q, ss[j].mem, 0) == None
  {
    if Stays(q, ss, a, k) {
      RunInv(q, ss, steps, a);
      var i: nat :| i < |ss[a].mem.slots| && LaneMatches(q, ss[a].mem, i);
      CannotMissOn(q, ss, steps, a, k, i, ss[a].mem.slots[i]);
      assert false;
    } else {
      var j: nat :| a <= j <= k && !Found(q, ss[j].mem);
      AlwaysOne(q, ss, steps, j);
      assert FullScan(q, ss[j].mem, 0) == None;
    }
  }
}
