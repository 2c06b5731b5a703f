/** An allocation that runs undisturbed, from any state other jobs may have left. */
module SegmentSolo {
  import opened SegmentAlloc

  /** The slots from s on hold room for need. */
  ghost predicate Room(bits: seq<bool>, s: nat, need: nat)
    requires |bits| == 64 * WORDS
  {
    s + need <= SLOTS && forall x: nat :: s <= x < s + need ==> bits[x]
  }

  function Cut(bits: seq<bool>, lo: nat, hi: nat): (b: seq<bool>)
    ensures |b| == |bits|
  {
    seq(|bits|, x requires 0 <= x < |bits| => bits[x] && !(lo <= x < hi))
  }

  lemma {:induction false} CutNext(bits: seq<bool>, lo: nat, hi: nat)
    requires lo <= hi < |bits|
    ensures Cut(bits, lo, hi)[hi := false] == Cut(bits, lo, hi + 1)
  {
  }

  /** The last job takes one step. */
  lemma {:induction false} TickLast(run: seq<Action>, bits: seq<bool>, used: nat, js: seq<Job>, job: Job)
    returns (run': seq<Action>)
    requires After(run) == State(bits, used, js + [job]) && |bits| == 64 * WORDS && JobOk(job)
    ensures var r := Act(job, bits, used); After(run') == State(r.1, r.2, js + [r.0])
  {
    hide Act, JobOk;
    run' := run + [Tick(|js|)];
    assert run'[..|run'| - 1] == run;
    var r := Act(job, bits, used);
    assert (js + [job])[|js|] == job && (js + [job])[|js| := r.0] == js + [r.0];
  }

  /** The state of a scan at slot i: its run of c free slots is as long as it can be, and no room
      ends at or before i. */
  ghost predicate Scanned(bits: seq<bool>, need: nat, i: nat, c: nat)
    requires |bits| == 64 * WORDS
  {
    && c < need && c <= i <= SLOTS
    && (forall x: nat :: i - c <= x < i ==> bits[x])
    && (c < i ==> !bits[i - c - 1])
    && (forall s: nat {:trigger Room(bits, s, need)} :: Room(bits, s, need) ==> i < s + need)
  }

  lemma {:induction false} ScannedStep(bits: seq<bool>, need: nat, i: nat, c: nat)
    requires |bits| == 64 * WORDS && Scanned(bits, need, i, c) && i < SLOTS
    ensures !bits[i] ==> Scanned(bits, need, i + 1, 0)
    ensures bits[i] && c + 1 < need ==> Scanned(bits, need, i + 1, c + 1)
    ensures bits[i] && c + 1 == need ==> Room(bits, i - c, need) && forall s: nat :: Room(bits, s, need) ==> i - c <= s
  {
    forall s: nat | Room(bits, s, need)
      ensures !bits[i] || c + 1 < need ==> i + 1 < s + need
    {
      if s + need == i + 1 {
        assert bits[i];
      }
    }
  }

  /** The scan of an undisturbed allocation ends at the first room, or fails when there is none. */
  lemma {:induction false} ScanOn(run: seq<Action>, bits: seq<bool>, used: nat, js: seq<Job>, i: nat, c: nat,
      start: nat, need: nat)
    returns (run': seq<Action>, found: bool, at: nat, s: nat)
    requires |bits| == 64 * WORDS && Scanned(bits, need, i, c) && (c > 0 ==> start == i - c)
    requires After(run) == State(bits, used, js + [Scan(i, c, start, need)])
    ensures found ==> Room(bits, s, need) && forall s': nat :: Room(bits, s', need) ==> s <= s'
    ensures found ==> After(run') == State(bits, used, js + [Load(Claim(at, s, need), s)])
    ensures !found ==> After(run') == State(bits, used, js + [Failed]) && forall s': nat :: !Room(bits, s', need)
    decreases SLOTS - i
  {
    hide After, Room;
    run' := TickLast(run, bits, used, js, Scan(i, c, start, need));
    if i == SLOTS {
      found, at, s := false, 0, 0;
      forall s': nat ensures !Room(bits, s', need) {
        RoomBound(bits, s', need);
      }
    } else {
      ScannedStep(bits, need, i, c);
      if bits[i] && c + 1 == need {
        found, at, s := true, i, i - c;
      } else if bits[i] {
        run', found, at, s := ScanOn(run', bits, used, js, i + 1, c + 1, if c == 0 then i else start, need);
      } else {
        run', found, at, s := ScanOn(run', bits, used, js, i + 1, 0, start, need);
      }
    }
  }

  lemma {:induction false} StartScanned(st: State, need: nat)
    requires Inv(st) && need > 0
    ensures |st.bits| == 64 * WORDS && Scanned(st.bits, need, 0, 0)
  {
  }

  lemma {:induction false} RoomBound(bits: seq<bool>, s: nat, need: nat)
    requires |bits| == 64 * WORDS
    ensures Room(bits, s, need) ==> s + need <= SLOTS
  {
  }

  lemma {:induction false} ClaimOn(run: seq<Action>, bits: seq<bool>, used: nat, js: seq<Job>, c: Claim, j: nat)
    returns (run': seq<Action>)
    requires |bits| == 64 * WORDS && Room(bits, c.start, c.need) && c.start <= j <= c.start + c.need
    requires After(run) == State(Cut(bits, c.start, j), used, js + [Load(c, j)])
    ensures After(run') == State(Cut(bits, c.start, c.start + c.need), used, js + [Load(c, c.start + c.need)])
    decreases c.start + c.need - j
  {
    hide After;
    run' := run;
    if j < c.start + c.need {
      var now := Cut(bits, c.start, j);
      assert now[j];
      WordBit(now, j);
      var word := WordAt(now, j);
      hide WordAt;
      run' := TickLast(run', now, used, js, Load(c, j));
      CutNext(bits, c.start, j);
      run' := TickLast(run', now, used, js, Swap(c, j, word));
      run' := ClaimOn(run', bits, used, js, c, j + 1);
    }
  }

  /** An undisturbed allocation takes the first room there is, clears exactly its bits and counts
      them; it fails exactly when there is no room, and then changes nothing. */
  lemma {:induction false} SoloAllocation(run: seq<Action>, size: nat) returns (run': seq<Action>, found: bool, s: nat)
    requires size > 0
    ensures |After(run).bits| == 64 * WORDS
    ensures var was, need := After(run), SlotsFor(size);
      size <= need * GRANULARITY < size + GRANULARITY &&
      if found then
        && Room(was.bits, s, need) && (forall s': nat :: Room(was.bits, s', need) ==> s <= s')
        && After(run') == State(Cut(was.bits, s, s + need), (was.used + need) % COUNTER, was.jobs + [Held(s, need)])
      else
        && (forall s': nat :: !Room(was.bits, s', need))
        && After(run') == State(was.bits, was.used, was.jobs + [Failed])
  {
    var was, need := After(run), SlotsFor(size);
    RunInv(run);
    run' := run + [Alloc(size)];
    assert run'[..|run'| - 1] == run;
    assert After(run') == State(was.bits, was.used, was.jobs + [Scan(0, 0, 0, need)]);
    StartScanned(was, need);
    hide After, Inv, Room, Cut, Scanned, SlotsFor;
    var at: nat;
    run', found, at, s := ScanOn(run', was.bits, was.used, was.jobs, 0, 0, 0, need);
    if found {
      run' := TakeOn(run', was.bits, was.used, was.jobs, Claim(at, s, need));
    }
  }

  lemma {:induction false} TakeOn(run: seq<Action>, bits: seq<bool>, used: nat, js: seq<Job>, c: Claim)
    returns (run': seq<Action>)
    requires |bits| == 64 * WORDS && Room(bits, c.start, c.need)
    requires After(run) == State(bits, used, js + [Load(c, c.start)])
    ensures After(run') == State(Cut(bits, c.start, c.start + c.need), (used + c.need) % COUNTER,
      js + [Held(c.start, c.need)])
  {
    hide After;
    assert Cut(bits, c.start, c.start) == bits;
    run' := ClaimOn(run, bits, used, js, c, c.start);
    run' := CountOn(run', Cut(bits, c.start, c.start + c.need), used, js, c);
  }

  lemma {:induction false} CountOn(run: seq<Action>, bits: seq<bool>, used: nat, js: seq<Job>, c: Claim)
    returns (run': seq<Action>)
    requires |bits| == 64 * WORDS && c.start + c.need <= SLOTS
    requires After(run) == State(bits, used, js + [Load(c, c.start + c.need)])
    ensures After(run') == State(bits, (used + c.need) % COUNTER, js + [Held(c.start, c.need)])
  {
    hide After;
    run' := TickLast(run, bits, used, js, Load(c, c.start + c.need));
    run' := TickLast(run', bits, used, js, CountLoad(c.start, c.need));
    run' := TickLast(run', bits, used, js, CountSwap(c.start, c.need, used));
  }
}
