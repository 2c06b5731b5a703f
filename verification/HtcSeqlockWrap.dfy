/** A run in which the sequence word comes round during a scan.

    The reader takes the control word while the key is not in the bucket, and a section then publishes it.
    After 2^31 sections in all the sequence word is what the reader first saw, and it validates the answer that
    the key is not there. */
module HtcSeqlockWrap {
  import opened Options
  import opened HtcControl
  import HtcModel
  import opened HtcSeqlock

  const KEY: HtcModel.Slot := HtcModel.Live(5, 1, false)

  function TheQuery(): (q: Query) {
    Query(0, 1, false, 7, idx => 0, tag => 7)
  }

  /** The key in lane 0 or not, and its control byte there or not. */
  function Bucket(key: bool, tagged: bool): (m: Memory)
    ensures |m.slots| == 8
  {
    Memory(seq(8, i => if i == 0 && key then KEY else HtcModel.Empty),
           seq(8, i => if i == 0 && tagged then 7 else 0), {})
  }

  lemma {:induction false} KeyIn(key: bool, tagged: bool)
    ensures Found(TheQuery(), Bucket(key, tagged)) <==> key
    ensures FullScan(TheQuery(), Bucket(key, tagged), 0) == if key then Some(0) else None
    ensures AtMostOne(TheQuery(), Bucket(key, tagged))
  {
    assert LaneMatches(TheQuery(), Bucket(key, tagged), 0) <==> key;
  }

  lemma {:induction false} Consistent(key: bool)
    ensures CtrlMatches(TheQuery(), Bucket(key, key))
  {
  }

  ghost predicate Reaches(ss: seq<State>, steps: seq<Step>, s: State) {
    DisciplinedRun(TheQuery(), ss, steps) && ss[|steps|] == s
  }

  /** One more step, as the table's writers make it. */
  lemma {:induction false} Extend(ss: seq<State>, steps: seq<Step>, s: State, step: Step, s': State)
    returns (ss': seq<State>, steps': seq<Step>)
    requires Reaches(ss, steps, s) && Next(TheQuery(), s, step, s') && Disciplined(TheQuery(), s, step)
    ensures Reaches(ss', steps', s') && ss' == ss + [s'] && steps' == steps + [step]
  {
    hide Next, Disciplined, Init, AtMostOne;
    ss', steps' := ss + [s'], steps + [step];
    assert |s.mem.slots| == 8 by { NextSize(s, step, s'); }
    forall k | 0 <= k < |steps'|
      ensures Next(TheQuery(), ss'[k], steps'[k], ss'[k + 1])
      ensures |ss'[k].mem.slots| == 8 && Disciplined(TheQuery(), ss'[k], steps'[k])
    {
      if k < |steps| {
        assert ss'[k] == ss[k] && ss'[k + 1] == ss[k + 1] && steps'[k] == steps[k];
        assert Next(TheQuery(), ss[k], steps[k], ss[k + 1]);
      }
    }
  }

  lemma {:induction false} NextSize(s: State, step: Step, s': State)
    requires Next(TheQuery(), s, step, s')
    ensures |s.mem.slots| == 8
  {
  }

  lemma {:induction false} NoCandidates()
    ensures Match8(Bucket(false, false).ctrl, 7) == {}
  {
    var x := Differences(Bucket(false, false).ctrl, 7);
    forall i: nat | i < 8 ensures !Reported(x, i) {
      assert x[i] == 7;
      ByteReported(x[i], Borrows(x, i));
    }
  }

  /** The reader takes the control word while the key is absent. */
  lemma {:induction false} TakeControlWord() returns (ss: seq<State>, steps: seq<Step>)
    ensures
      var m := Bucket(false, false);
      Reaches(ss, steps, State(m, 0, false, Scanning(0, 0, {}), m))
  {
    var m := Bucket(false, false);
    var s0 := State(m, 0, false, Idle, m);
    var s1 := s0.(reader := GotSeq(0, 0));
    ss, steps := [s0], [];
    KeyIn(false, false);
    Consistent(false);
    ss, steps := Extend(ss, steps, s0, Read, s1);
    NoCandidates();
    ss, steps := Extend(ss, steps, s1, Read, s1.(reader := Scanning(0, 0, {})));
  }

  /** A section publishes the key in lane 0. */
  lemma {:induction false} PublishKey(ss0: seq<State>, steps0: seq<Step>, r: Reader)
    returns (ss: seq<State>, steps: seq<Step>)
    requires Reaches(ss0, steps0, State(Bucket(false, false), 0, false, r, Bucket(false, false)))
    ensures Reaches(ss, steps, State(Bucket(true, true), 1, false, r, Bucket(false, false)))
  {
    hide Reaches;
    var a := State(Bucket(false, false), 0, false, r, Bucket(false, false));
    var b := a.(busy := true);
    ss, steps := Extend(ss0, steps0, a, Begin, b);
    var c := b.(mem := Bucket(true, false));
    assert b.mem.slots[0 := KEY] == c.mem.slots;
    KeyIn(false, false);
    ss, steps := Extend(ss, steps, b, WriteSlot(0, KEY), c);
    var d := c.(mem := Bucket(true, true));
    assert c.mem.ctrl[0 := 7] == d.mem.ctrl;
    assert !LaneMatches(TheQuery(), c.entry, 0);
    ss, steps := Extend(ss, steps, c, WriteCtrl(0, 7), d);
    Consistent(true);
    ss, steps := Extend(ss, steps, d, End, d.(busy := false, sections := 1));
  }

  /** Sections that publish in another bucket of their key leave this one as it is. */
  lemma {:induction false} Sections(ss0: seq<State>, steps0: seq<Step>, n: nat, m: nat, entry: Memory)
    returns (ss: seq<State>, steps: seq<Step>, entry': Memory)
    requires n <= m && Reaches(ss0, steps0, State(Bucket(true, true), n, false, Validating(0, 0, None), entry))
    ensures Reaches(ss, steps, State(Bucket(true, true), m, false, Validating(0, 0, None), entry'))
    decreases m - n
  {
    hide Reaches, Bucket;
    ss, steps, entry' := ss0, steps0, entry;
    if n < m {
      var a := State(Bucket(true, true), n, false, Validating(0, 0, None), entry);
      var b := a.(busy := true, entry := a.mem);
      Consistent(true);
      ss, steps := Extend(ss, steps, a, Begin, b);
      ss, steps := Extend(ss, steps, b, End, b.(busy := false, sections := n + 1));
      ss, steps, entry' := Sections(ss, steps, n + 1, m, b.entry);
    }
  }

  /** With 2^31 sections during the scan, a scan can validate the answer that a key is missing although it is in
      the bucket at the instant of its last read, and has been since the first of these sections. */
  lemma {:induction false} ValidatedScanIsLate() returns (ss: seq<State>, steps: seq<Step>)
    ensures DisciplinedRun(TheQuery(), ss, steps) && |steps| > 0 && steps[|steps| - 1] == Read
    ensures
      var k := |steps| - 1;
      && ss[k].reader.Validating? && ss[k].sections - ss[k].reader.since == WRAP / 2
      && ss[k + 1].reader == Done(None) && |ss[k].mem.slots| == 8 && FullScan(TheQuery(), ss[k].mem, 0) == Some(0)
  {
    ss, steps := TakeControlWord();
    ss, steps := PublishKey(ss, steps, Scanning(0, 0, {}));
    var a := State(Bucket(true, true), 1, false, Scanning(0, 0, {}), Bucket(false, false));
    KeyIn(true, true);
    assert SeqWord(WRAP / 2, false) == 0;
    hide Bucket, FullScan;
    ss, steps := Extend(ss, steps, a, Read, a.(reader := Validating(0, 0, None)));
    var entry;
    ss, steps, entry := Sections(ss, steps, 1, WRAP / 2, a.entry);
    var b := State(Bucket(true, true), WRAP / 2, false, Validating(0, 0, None), entry);
    ss, steps := Extend(ss, steps, b, Read, b.(reader := Done(None)));
  }
}
