/** A run that leaves the segment's 16-bit counter wrong.

    Sixty-four jobs each take the whole segment and get as far as having returned all their slots,
    but not yet corrected the counter; one more allocation then makes the counter wrap. */
module SegmentOverflow {
  import opened SegmentAlloc
  import opened SegmentSolo

  /** Slots from j on are free. */
  function FreeFrom(j: nat): (bits: seq<bool>) {
    seq(64 * WORDS, x => x >= j)
  }

  /** Slots outside i to SLOTS are free. */
  function TakenFrom(i: nat): (bits: seq<bool>) {
    seq(64 * WORDS, x => x < i || x >= SLOTS)
  }

  lemma {:induction false} ReturnNext(i: nat)
    requires i < SLOTS
    ensures TakenFrom(i)[i := true] == TakenFrom(i + 1)
  {
  }

  lemma {:induction false} Edges()
    ensures TakenFrom(SLOTS) == FreeFrom(0) == Start().bits && TakenFrom(0) == FreeFrom(SLOTS)
  {
  }

  lemma {:induction false} ReturnAll(run: seq<Action>, used: nat, js: seq<Job>, i: nat) returns (run': seq<Action>)
    requires i <= SLOTS && After(run) == State(TakenFrom(i), used, js + [FreeLoad(0, SLOTS, i)])
    ensures After(run') == State(FreeFrom(0), used, js + [UncountLoad(0, SLOTS)])
    decreases SLOTS - i
  {
    hide After;
    if i < SLOTS {
      var word := WordAt(TakenFrom(i), i);
      hide WordAt;
      run' := TickLast(run, TakenFrom(i), used, js, FreeLoad(0, SLOTS, i));
      ReturnNext(i);
      run' := TickLast(run', TakenFrom(i), used, js, FreeSwap(0, SLOTS, i, word));
      run' := ReturnAll(run', used, js, i + 1);
    } else {
      Edges();
      run' := TickLast(run, TakenFrom(i), used, js, FreeLoad(0, SLOTS, SLOTS));
    }
  }

  /** A new job allocates the whole free segment. */
  lemma {:induction false} AllocateAll(run: seq<Action>, used: nat, js: seq<Job>) returns (run': seq<Action>)
    requires After(run) == State(FreeFrom(0), used, js)
    ensures After(run') == State(FreeFrom(SLOTS), (used + SLOTS) % COUNTER, js + [Held(0, SLOTS)])
  {
    hide After;
    var found, s;
    run', found, s := SoloAllocation(run, SLOTS * GRANULARITY);
    assert SlotsFor(SLOTS * GRANULARITY) == SLOTS;
    assert Room(FreeFrom(0), 0, SLOTS);
    assert Cut(FreeFrom(0), 0, SLOTS) == FreeFrom(SLOTS);
  }

  /** It then frees it, up to the correction of the counter. */
  lemma {:induction false} ReleaseAll(run: seq<Action>, used: nat, js: seq<Job>) returns (run': seq<Action>)
    requires After(run) == State(FreeFrom(SLOTS), used, js + [Held(0, SLOTS)])
    ensures After(run') == State(FreeFrom(0), used, js + [UncountLoad(0, SLOTS)])
  {
    run' := run + [Free(|js|)];
    assert run'[..|run'| - 1] == run;
    Edges();
    assert (js + [Held(0, SLOTS)])[|js| := FreeLoad(0, SLOTS, 0)] == js + [FreeLoad(0, SLOTS, 0)];
    assert After(run') == State(TakenFrom(0), used, js + [FreeLoad(0, SLOTS, 0)]);
    hide After;
    run' := ReturnAll(run', used, js, 0);
  }

  function Pending(k: nat): (js: seq<Job>) {
    seq(k, i => UncountLoad(0, SLOTS))
  }

  lemma {:induction false} Pile(k: nat) returns (run: seq<Action>)
    requires k <= 64
    ensures After(run) == State(FreeFrom(0), SLOTS * k, Pending(k))
  {
    if k == 0 {
      run := [];
      Edges();
    } else {
      run := Pile(k - 1);
      assert Pending(k) == Pending(k - 1) + [UncountLoad(0, SLOTS)];
      hide After, Pending;
      run := AllocateAll(run, SLOTS * (k - 1), Pending(k - 1));
      run := ReleaseAll(run, SLOTS * k, Pending(k - 1));
    }
  }

  /** The first 64 - k of the 64 jobs are done. */
  function Finishing(k: nat): (js: seq<Job>) {
    seq(64, i => if i + k < 64 then Gone else UncountLoad(0, SLOTS))
  }

  lemma {:induction false} TickAt(run: seq<Action>, s: State, id: nat) returns (run': seq<Action>)
    requires After(run) == s && |s.bits| == 64 * WORDS && id < |s.jobs| && JobOk(s.jobs[id])
    ensures var r := Act(s.jobs[id], s.bits, s.used); After(run') == State(r.1, r.2, s.jobs[id := r.0])
  {
    hide Act, JobOk;
    run' := run + [Tick(id)];
    assert run'[..|run'| - 1] == run;
  }

  /** The pending frees finish one by one; the counter does not go below zero. */
  lemma {:induction false} Finish(run: seq<Action>, bits: seq<bool>, used: nat, k: nat, last: Job)
    returns (run': seq<Action>)
    requires k <= 64 && used < SLOTS && |bits| == 64 * WORDS && After(run) == State(bits, used, Finishing(k) + [last])
    ensures After(run') == State(bits, if k == 0 then used else 0, Finishing(0) + [last])
    decreases k
  {
    hide After;
    run' := run;
    if k > 0 {
      var id, js := 64 - k, Finishing(k) + [last];
      var js' := js[id := UncountSwap(0, SLOTS, used)];
      run' := TickAt(run', State(bits, used, js), id);
      run' := TickAt(run', State(bits, used, js'), id);
      assert js'[id := Gone] == Finishing(k - 1) + [last];
      run' := Finish(run', bits, 0, k - 1, last);
    }
  }

  lemma {:induction false} ClearedFrom(j: nat, n: nat)
    requires n <= 64 * WORDS
    ensures Cleared(FreeFrom(j), n) == if n <= j then n else j
  {
    if n > 0 {
      ClearedFrom(j, n - 1);
    }
  }

  /** After this run no call is in flight and all slots are taken, but the counter shows zero. */
  lemma {:induction false} CounterGoesWrong() returns (run: seq<Action>)
    ensures forall a: nat :: a < |After(run).jobs| ==> !InFlight(After(run).jobs[a])
    ensures |After(run).bits| == 64 * WORDS
    ensures After(run).used == 0 && Cleared(After(run).bits, 64 * WORDS) == SLOTS
  {
    run := Pile(64);
    ClearedFrom(SLOTS, 64 * WORDS);
    assert Pending(64) == Finishing(64);
    hide After;
    run := AllocateAll(run, SLOTS * 64, Pending(64));
    run := Finish(run, FreeFrom(SLOTS), 829, 64, Held(0, SLOTS));
  }
}
