/** The cold-tier segment allocator: multi-slot claims by per-bit compare-and-swap, under every
    interleaving of allocations and frees.

    Every atomic access is one step; memory is sequentially consistent.  A job is one allocation
    from its call to seg_alloc until the matching call to seg_free has returned. */
module SegmentAlloc {

  const SEG_SIZE: nat := 65536
  const HDR_SIZE: nat := 152
  const GRANULARITY: nat := 64

  /** (SEG_SIZE - HDR_SIZE) / GRANULARITY, and as many words as hold them. */
  const SLOTS: nat := 1021
  const WORDS: nat := 16

  const COUNTER: nat := 0x1_0000

  /** No further slot fits the segment, and no word of the bitmap is superfluous. */
  lemma {:induction false} SlotsFillSegment()
    ensures HDR_SIZE + SLOTS * GRANULARITY <= SEG_SIZE < HDR_SIZE + (SLOTS + 1) * GRANULARITY
    ensures 64 * (WORDS - 1) < SLOTS <= 64 * WORDS
  {
  }

  datatype Claim = Claim(i: nat, start: nat, need: nat)

  datatype Job =
    | Scan(i: nat, consecutive: nat, start: nat, need: nat)
    | Load(c: Claim, j: nat)
    | Swap(c: Claim, j: nat, word: seq<bool>)
    | Return(c: Claim, k: nat, j: nat)
    | CountLoad(start: nat, need: nat)
    | CountSwap(start: nat, need: nat, seen: nat)
    | Held(start: nat, need: nat)
    | FreeLoad(start: nat, need: nat, i: nat)
    | FreeSwap(start: nat, need: nat, i: nat, word: seq<bool>)
    | UncountLoad(start: nat, need: nat)
    | UncountSwap(start: nat, need: nat, seen: nat)
    | Gone
    | Failed

  /** The bitmap has a set bit for every free slot. */
  datatype State = State(bits: seq<bool>, used: nat, jobs: seq<Job>)

  function WordAt(bits: seq<bool>, slot: nat): (w: seq<bool>)
    requires |bits| == 64 * WORDS && slot < |bits|
  {
    bits[slot / 64 * 64..slot / 64 * 64 + 64]
  }

  /** The next slot of the scan, or the start of a claim. */
  function ScanStep(i: nat, consecutive: nat, start: nat, need: nat, set_: bool): (job: Job) {
    if !set_ then Scan(i + 1, 0, start, need)
    else
      var start' := if consecutive == 0 then i else start;
      if consecutive + 1 >= need then Load(Claim(i, start', need), start')
      else Scan(i + 1, consecutive + 1, start', need)
  }

  /** One atomic step of a job: the new job, bitmap and counter. */
  function Act(job: Job, bits: seq<bool>, used: nat): (r: (Job, seq<bool>, nat))
    requires |bits| == 64 * WORDS && JobOk(job)
  {
    match job
    case Scan(i, consecutive, start, need) =>
      if i >= SLOTS then (Failed, bits, used)
      else (ScanStep(i, consecutive, start, need, bits[i]), bits, used)
    case Load(c, j) =>
      if j == c.start + c.need then (CountLoad(c.start, c.need), bits, used)
      else if !bits[j] then (Return(c, c.start, j), bits, used)
      else (Swap(c, j, WordAt(bits, j)), bits, used)
    case Swap(c, j, word) =>
      if WordAt(bits, j) == word then (Load(c, j + 1), bits[j := false], used)
      else (Load(c, j), bits, used)
    case Return(c, k, j) =>
      if k == j then (Scan(c.i + 1, 0, c.start, c.need), bits, used)
      else (Return(c, k + 1, j), bits[k := true], used)
    case CountLoad(start, need) => (CountSwap(start, need, used), bits, used)
    case CountSwap(start, need, seen) =>
      if used == seen then (Held(start, need), bits, (seen + need) % COUNTER)
      else (CountSwap(start, need, used), bits, used)
    case Held(_, _) => (job, bits, used)
    case FreeLoad(start, need, i) =>
      if i == start + need then (UncountLoad(start, need), bits, used)
      else (FreeSwap(start, need, i, WordAt(bits, i)), bits, used)
    case FreeSwap(start, need, i, word) =>
      if WordAt(bits, i) == word then (FreeLoad(start, need, i + 1), bits[i := true], used)
      else (FreeLoad(start, need, i), bits, used)
    case UncountLoad(start, need) => (UncountSwap(start, need, used), bits, used)
    case UncountSwap(start, need, seen) =>
      if used == seen then (Gone, bits, if seen >= need then seen - need else 0)
      else (UncountSwap(start, need, used), bits, used)
    case Gone => (job, bits, used)
    case Failed => (job, bits, used)
  }

  /** The step of job id. */
  function Step(s: State, id: nat): (s': State)
    requires |s.bits| == 64 * WORDS && id < |s.jobs| && JobOk(s.jobs[id])
  {
    var r := Act(s.jobs[id], s.bits, s.used);
    State(r.1, r.2, s.jobs[id := r.0])
  }

  /** The fewest slots that hold size bytes. */
  function SlotsFor(size: nat): (n: nat)
    ensures size <= n * GRANULARITY < size + GRANULARITY
  {
    (size + GRANULARITY - 1) / GRANULARITY
  }

  /** A call to seg_alloc. */
  function Call(s: State, size: nat): (s': State) {
    s.(jobs := s.jobs + [Scan(0, 0, 0, SlotsFor(size))])
  }

  /** A call to seg_free on a completed allocation, with its own size. */
  function Release(s: State, id: nat): (s': State)
    requires id < |s.jobs| && s.jobs[id].Held?
  {
    var h := s.jobs[id];
    s.(jobs := s.jobs[id := FreeLoad(h.start, h.need, h.start)])
  }

  // ---------------------------------------------------------------- what a job owns

  /** The slots a job has taken and not returned: lo up to hi. */
  function Lo(job: Job): (lo: nat) {
    match job
    case Load(c, _) => c.start
    case Swap(c, _, _) => c.start
    case Return(_, k, _) => k
    case CountLoad(start, _) => start
    case CountSwap(start, _, _) => start
    case Held(start, _) => start
    case FreeLoad(_, _, i) => i
    case FreeSwap(_, _, i, _) => i
    case _ => 0
  }

  function Hi(job: Job): (hi: nat) {
    match job
    case Load(_, j) => j
    case Swap(_, j, _) => j
    case Return(_, _, j) => j
    case CountLoad(start, need) => start + need
    case CountSwap(start, need, _) => start + need
    case Held(start, need) => start + need
    case FreeLoad(start, need, _) => start + need
    case FreeSwap(start, need, _, _) => start + need
    case _ => 0
  }

  predicate Owns(job: Job, x: nat) {
    Lo(job) <= x < Hi(job)
  }

  function Size(job: Job): (n: nat) {
    if Lo(job) <= Hi(job) then Hi(job) - Lo(job) else 0
  }

  /** The slots the counter shows for a job. */
  function Counted(job: Job): (n: nat) {
    match job
    case Held(_, need) => need
    case FreeLoad(_, need, _) => need
    case FreeSwap(_, need, _, _) => need
    case UncountLoad(_, need) => need
    case UncountSwap(_, need, _) => need
    case _ => 0
  }

  predicate JobOk(job: Job) {
    match job
    case Scan(i, consecutive, start, need) => consecutive > 0 ==> start + consecutive == i && consecutive < need
    case Load(c, j) => c.start <= j <= c.start + c.need <= SLOTS
    case Swap(c, j, word) => c.start <= j < c.start + c.need <= SLOTS && |word| == 64 && word[j % 64]
    case Return(c, k, j) => c.start <= k <= j < c.start + c.need <= SLOTS
    case CountLoad(start, need) => start + need <= SLOTS
    case CountSwap(start, need, _) => start + need <= SLOTS
    case Held(start, need) => start + need <= SLOTS
    case FreeLoad(start, need, i) => start <= i <= start + need <= SLOTS
    case FreeSwap(start, need, i, _) => start <= i < start + need <= SLOTS
    case UncountLoad(start, need) => start + need <= SLOTS
    case UncountSwap(start, need, _) => start + need <= SLOTS
    case _ => true
  }

  // ---------------------------------------------------------------- invariant

  ghost predicate Disjoint(jobs: seq<Job>) {
    forall a: nat, b: nat, x: nat {:trigger Owns(jobs[a], x), Owns(jobs[b], x)} ::
      a < |jobs| && b < |jobs| && Owns(jobs[a], x) && Owns(jobs[b], x) ==> a == b
  }

  ghost predicate Taken(jobs: seq<Job>, x: nat) {
    exists a: nat :: a < |jobs| && Owns(jobs[a], x)
  }

  /** A slot is free exactly when no job owns it. */
  ghost predicate Exact(bits: seq<bool>, jobs: seq<Job>)
    requires |bits| == 64 * WORDS
  {
    forall x: nat {:trigger bits[x]} :: x < |bits| ==> (bits[x] <==> !Taken(jobs, x))
  }

  ghost function Cleared(bits: seq<bool>, n: nat): (c: nat)
    requires n <= |bits|
  {
    if n == 0 then 0 else Cleared(bits, n - 1) + if bits[n - 1] then 0 else 1
  }

  ghost function OwnedBy(jobs: seq<Job>, n: nat): (c: nat)
    requires n <= |jobs|
  {
    if n == 0 then 0 else OwnedBy(jobs, n - 1) + Size(jobs[n - 1])
  }

  ghost function CountedBy(jobs: seq<Job>, n: nat): (c: nat)
    requires n <= |jobs|
  {
    if n == 0 then 0 else CountedBy(jobs, n - 1) + Counted(jobs[n - 1])
  }

  ghost predicate JobsOk(jobs: seq<Job>) {
    forall a: nat {:trigger JobOk(jobs[a])} :: a < |jobs| ==> JobOk(jobs[a])
  }

  ghost predicate Inv(s: State) {
    && |s.bits| == 64 * WORDS
    && JobsOk(s.jobs)
    && Disjoint(s.jobs)
    && Exact(s.bits, s.jobs)
    && Cleared(s.bits, |s.bits|) == OwnedBy(s.jobs, |s.jobs|)
  }

  // ---------------------------------------------------------------- one step

  /** What a step does to the bitmap: nothing, take slot x, or return slot x. */
  datatype Effect = Nothing | Takes(x: nat) | Returns(x: nat)

  ghost predicate Has(job: Job, bits: seq<bool>, job': Job, bits': seq<bool>, e: Effect)
    requires |bits| == 64 * WORDS
  {
    match e
    case Nothing => bits' == bits && Size(job') == Size(job) && forall y: nat :: Owns(job', y) == Owns(job, y)
    case Takes(x) =>
      && x < SLOTS && bits[x] && bits' == bits[x := false] && !Owns(job, x) && Size(job') == Size(job) + 1
      && forall y: nat :: Owns(job', y) == (Owns(job, y) || y == x)
    case Returns(x) =>
      && x < SLOTS && Owns(job, x) && bits' == bits[x := true] && Size(job') == Size(job) - 1
      && forall y: nat :: Owns(job', y) == (Owns(job, y) && y != x)
  }

  lemma {:induction false} WordBit(bits: seq<bool>, j: nat)
    requires |bits| == 64 * WORDS && j < |bits|
    ensures |WordAt(bits, j)| == 64 && WordAt(bits, j)[j % 64] == bits[j]
  {
  }

  lemma {:induction false} OwnsSame(job: Job, bits: seq<bool>, job': Job)
    requires |bits| == 64 * WORDS
    requires (Lo(job') == Lo(job) && Hi(job') == Hi(job)) || (Lo(job) >= Hi(job) && Lo(job') >= Hi(job'))
    ensures Has(job, bits, job', bits, Nothing)
  {
    hide Lo, Hi;
  }

  lemma {:induction false} OwnsMore(job: Job, bits: seq<bool>, job': Job)
    requires |bits| == 64 * WORDS && Lo(job) <= Hi(job) < SLOTS && bits[Hi(job)]
    requires Lo(job') == Lo(job) && Hi(job') == Hi(job) + 1
    ensures Has(job, bits, job', bits[Hi(job) := false], Takes(Hi(job)))
  {
    hide Lo, Hi;
  }

  lemma {:induction false} OwnsLess(job: Job, bits: seq<bool>, job': Job)
    requires |bits| == 64 * WORDS && Lo(job) < Hi(job) <= SLOTS
    requires Lo(job') == Lo(job) + 1 && Hi(job') == Hi(job)
    ensures Has(job, bits, job', bits[Lo(job) := true], Returns(Lo(job)))
  {
    hide Lo, Hi;
  }

  function EffectOf(job: Job, bits: seq<bool>): (e: Effect)
    requires |bits| == 64 * WORDS && JobOk(job)
  {
    match job
    case Swap(c, j, word) => if WordAt(bits, j) == word then Takes(j) else Nothing
    case Return(c, k, j) => if k < j then Returns(k) else Nothing
    case FreeSwap(start, need, i, word) => if WordAt(bits, i) == word then Returns(i) else Nothing
    case _ => Nothing
  }

  /** Every atomic step leaves what the job owns as it is, or adds one slot whose bit it clears, or
      drops one slot it owns whose bit it sets. */
  lemma {:induction false} ActEffect(job: Job, bits: seq<bool>, used: nat)
    requires |bits| == 64 * WORDS && JobOk(job)
    ensures var r := Act(job, bits, used); JobOk(r.0) && Has(job, bits, r.0, r.1, EffectOf(job, bits))
  {
    hide WordAt, Has;
    var job', e := Act(job, bits, used).0, EffectOf(job, bits);
    if e.Takes? {
      WordBit(bits, job.j);
      OwnsMore(job, bits, job');
    } else if e.Returns? {
      OwnsLess(job, bits, job');
    } else {
      if job.Load? && job.j < job.c.start + job.c.need {
        WordBit(bits, job.j);
      }
      OwnsSame(job, bits, job');
    }
  }

  lemma {:induction false} ClearedUpdate(bits: seq<bool>, n: nat, x: nat, v: bool)
    requires n <= |bits| && x < |bits|
    ensures n <= x ==> Cleared(bits[x := v], n) == Cleared(bits, n)
    ensures x < n ==> Cleared(bits[x := v], n) + (if bits[x] then 0 else 1) == Cleared(bits, n) + if v then 0 else 1
  {
    if n > 0 {
      ClearedUpdate(bits, n - 1, x, v);
    }
  }

  lemma {:induction false} OwnedUpdate(jobs: seq<Job>, n: nat, id: nat, job: Job)
    requires n <= |jobs| && id < |jobs|
    ensures n <= id ==> OwnedBy(jobs[id := job], n) == OwnedBy(jobs, n)
    ensures id < n ==> OwnedBy(jobs[id := job], n) + Size(jobs[id]) == OwnedBy(jobs, n) + Size(job)
  {
    hide Size;
    if n > 0 {
      OwnedUpdate(jobs, n - 1, id, job);
    }
  }

  lemma {:induction false} CountedUpdate(jobs: seq<Job>, n: nat, id: nat, job: Job)
    requires n <= |jobs| && id < |jobs|
    ensures n <= id ==> CountedBy(jobs[id := job], n) == CountedBy(jobs, n)
    ensures id < n ==> CountedBy(jobs[id := job], n) + Counted(jobs[id]) == CountedBy(jobs, n) + Counted(job)
  {
    hide Counted;
    if n > 0 {
      CountedUpdate(jobs, n - 1, id, job);
    }
  }

  /** The invariant survives any change of one job that has one of the three effects. */
  lemma {:induction false} EffectKeepsInv(s: State, id: nat, job: Job, bits: seq<bool>, used: nat, e: Effect)
    requires Inv(s) && id < |s.jobs| && JobOk(job) && Has(s.jobs[id], s.bits, job, bits, e)
    ensures Inv(State(bits, used, s.jobs[id := job]))
  {
    hide JobOk, Owns, Size, Cleared, OwnedBy;
    var jobs := s.jobs[id := job];
    OwnedUpdate(s.jobs, |s.jobs|, id, job);
    DisjointKept(s, id, job, bits, e);
    ExactKept(s, id, job, bits, e);
    if !e.Nothing? {
      assert s.bits[e.x] <==> e.Takes? by {
        assert e.Returns? ==> Taken(s.jobs, e.x);
      }
      ClearedUpdate(s.bits, |s.bits|, e.x, e.Returns?);
    }
  }

  lemma {:induction false} DisjointKept(s: State, id: nat, job: Job, bits: seq<bool>, e: Effect)
    requires Inv(s) && id < |s.jobs| && Has(s.jobs[id], s.bits, job, bits, e)
    ensures Disjoint(s.jobs[id := job])
  {
    hide JobsOk, Owns, Size, Cleared, OwnedBy;
    var jobs := s.jobs[id := job];
    forall a: nat, b: nat, x: nat | a < |jobs| && b < |jobs| && Owns(jobs[a], x) && Owns(jobs[b], x)
      ensures a == b
    {
      if e.Takes? && x == e.x {
        assert s.bits[x];
        assert !Taken(s.jobs, x);
      }
    }
  }

  lemma {:induction false} ExactKept(s: State, id: nat, job: Job, bits: seq<bool>, e: Effect)
    requires Inv(s) && id < |s.jobs| && Has(s.jobs[id], s.bits, job, bits, e)
    ensures |bits| == 64 * WORDS && Exact(bits, s.jobs[id := job])
  {
    hide JobsOk, Owns, Size, Cleared, OwnedBy;
    var jobs := s.jobs[id := job];
    forall x: nat | x < |bits|
      ensures bits[x] <==> !Taken(jobs, x)
    {
      assert s.bits[x] <==> !Taken(s.jobs, x);
      if a: nat :| a < |s.jobs| && Owns(s.jobs[a], x) {
        if a != id {
          assert Owns(jobs[a], x);
        } else {
          assert Owns(jobs[id], x) || (e.Returns? && e.x == x);
        }
      }
      if a: nat :| a < |jobs| && Owns(jobs[a], x) {
        if a != id {
          assert Owns(s.jobs[a], x);
        }
      }
      if e.Takes? && e.x == x {
        assert Owns(jobs[id], x);
      }
      if e.Returns? && e.x == x {
        assert Owns(s.jobs[id], x);
      }
    }
  }

  // ---------------------------------------------------------------- runs

  datatype Action = Alloc(size: nat) | Free(id: nat) | Tick(id: nat)

  function Start(): (s: State) {
    State(seq(64 * WORDS, i => true), 0, [])
  }

  /** An action that is not possible leaves the state alone: only a completed allocation can be
      freed, and only jobs that exist can step. */
  function Apply(s: State, a: Action): (s': State) {
    match a
    case Alloc(size) => Call(s, size)
    case Free(id) => if id < |s.jobs| && s.jobs[id].Held? then Release(s, id) else s
    case Tick(id) => if |s.bits| == 64 * WORDS && id < |s.jobs| && JobOk(s.jobs[id]) then Step(s, id) else s
  }

  function After(run: seq<Action>): (s: State) {
    if run == [] then Start() else Apply(After(run[..|run| - 1]), run[|run| - 1])
  }

  lemma {:induction false} CallKeepsInv(s: State, size: nat)
    requires Inv(s)
    ensures Inv(Call(s, size))
    ensures CountedBy(Call(s, size).jobs, |s.jobs| + 1) == CountedBy(s.jobs, |s.jobs|)
  {
    hide Cleared;
    var s' := Call(s, size);
    var new_ := Scan(0, 0, 0, SlotsFor(size));
    assert forall a: nat :: a < |s.jobs| ==> s'.jobs[a] == s.jobs[a];
    OwnedPrefix(s.jobs, s'.jobs, |s.jobs|);
    forall x: nat ensures Taken(s'.jobs, x) <==> Taken(s.jobs, x) {
      if a: nat :| a < |s'.jobs| && Owns(s'.jobs[a], x) {
        assert a < |s.jobs|;
      }
      if a: nat :| a < |s.jobs| && Owns(s.jobs[a], x) {
        assert Owns(s'.jobs[a], x);
      }
    }
  }

  lemma {:induction false} OwnedPrefix(jobs: seq<Job>, jobs': seq<Job>, n: nat)
    requires n <= |jobs| && n <= |jobs'| && forall a :: 0 <= a < n ==> jobs[a] == jobs'[a]
    ensures OwnedBy(jobs, n) == OwnedBy(jobs', n) && CountedBy(jobs, n) == CountedBy(jobs', n)
  {
    if n > 0 {
      OwnedPrefix(jobs, jobs', n - 1);
    }
  }

  lemma {:induction false} ApplyKeepsInv(s: State, a: Action)
    requires Inv(s)
    ensures Inv(Apply(s, a))
  {
    hide Inv;
    match a
    case Alloc(size) => CallKeepsInv(s, size);
    case Free(id) =>
      if id < |s.jobs| && s.jobs[id].Held? {
        ReleaseKeepsInv(s, id);
      }
    case Tick(id) =>
      if |s.bits| == 64 * WORDS && id < |s.jobs| && JobOk(s.jobs[id]) {
        StepKeepsInv(s, id);
      }
  }

  lemma {:induction false} ReleaseKeepsInv(s: State, id: nat)
    requires Inv(s) && id < |s.jobs| && s.jobs[id].Held?
    ensures Inv(Release(s, id))
  {
    hide Has, Cleared, OwnedBy, Disjoint, Exact;
    var h := s.jobs[id];
    var f := FreeLoad(h.start, h.need, h.start);
    assert JobOk(h);
    OwnsSame(h, s.bits, f);
    EffectKeepsInv(s, id, f, s.bits, s.used, Nothing);
  }

  lemma {:induction false} StepKeepsInv(s: State, id: nat)
    requires Inv(s) && |s.bits| == 64 * WORDS && id < |s.jobs| && JobOk(s.jobs[id])
    ensures Inv(Step(s, id))
  {
    hide Inv, Act, Has, EffectOf, JobOk;
    var job := s.jobs[id];
    var r := Act(job, s.bits, s.used);
    ActEffect(job, s.bits, s.used);
    EffectKeepsInv(s, id, r.0, r.1, r.2, EffectOf(job, s.bits));
  }

  /** The invariant holds after every run, whatever the interleaving. */
  lemma {:induction false} RunInv(run: seq<Action>)
    ensures Inv(After(run))
    decreases |run|
  {
    if run == [] {
      StartInv();
    } else {
      hide Inv, Apply;
      RunInv(run[..|run| - 1]);
      ApplyKeepsInv(After(run[..|run| - 1]), run[|run| - 1]);
    }
  }

  lemma {:induction false} StartInv()
    ensures Inv(Start())
  {
    NoneCleared(Start().bits, 64 * WORDS);
  }

  lemma {:induction false} NoneCleared(bits: seq<bool>, n: nat)
    requires n <= |bits| && forall i :: 0 <= i < |bits| ==> bits[i]
    ensures Cleared(bits, n) == 0
  {
    if n > 0 {
      NoneCleared(bits, n - 1);
    }
  }

  /** After every run, completed allocations occupy disjoint slot ranges inside the segment, and
      no slot of theirs is marked free. */
  lemma {:induction false} AllocationsDisjoint(run: seq<Action>, a: nat, b: nat)
    requires a < |After(run).jobs| && b < |After(run).jobs| && a != b
    requires After(run).jobs[a].Held? && After(run).jobs[b].Held?
    ensures var x, y := After(run).jobs[a], After(run).jobs[b];
      && HDR_SIZE + (x.start + x.need) * GRANULARITY <= SEG_SIZE
      && (x.need == 0 || y.need == 0 || x.start + x.need <= y.start || y.start + y.need <= x.start)
      && |After(run).bits| == 64 * WORDS
      && forall i: nat :: x.start <= i < x.start + x.need ==> !After(run).bits[i]
  {
    hide After, Cleared, OwnedBy;
    RunInv(run);
    var s := After(run);
    var x, y := s.jobs[a], s.jobs[b];
    assert JobOk(x) && JobOk(y);
    var m := if x.start < y.start then y.start else x.start;
    assert !(Owns(s.jobs[a], m) && Owns(s.jobs[b], m));
    forall i: nat | x.start <= i < x.start + x.need
      ensures !s.bits[i]
    {
      assert Owns(s.jobs[a], i);
    }
  }

  // ---------------------------------------------------------------- bytes

  /** The sizes asked for, one for each job. */
  ghost function Asked(run: seq<Action>): (sizes: seq<nat>) {
    if run == [] then []
    else
      var last := run[|run| - 1];
      Asked(run[..|run| - 1]) + if last.Alloc? then [last.size] else []
  }

  /** The number of slots a job is about. */
  function NeedOf(job: Job): (n: nat)
    requires !job.Gone? && !job.Failed?
  {
    match job
    case Scan(_, _, _, need) => need
    case Load(c, _) => c.need
    case Swap(c, _, _) => c.need
    case Return(c, _, _) => c.need
    case CountLoad(_, need) => need
    case CountSwap(_, need, _) => need
    case Held(_, need) => need
    case FreeLoad(_, need, _) => need
    case FreeSwap(_, need, _, _) => need
    case UncountLoad(_, need) => need
    case UncountSwap(_, need, _) => need
  }

  /** The job is about the fewest slots that hold size bytes, or it is over. */
  ghost predicate IsFor(job: Job, size: nat) {
    job.Gone? || job.Failed? || size <= NeedOf(job) * GRANULARITY < size + GRANULARITY
  }

  lemma {:induction false} ActKeepsNeed(job: Job, bits: seq<bool>, used: nat, size: nat)
    requires |bits| == 64 * WORDS && JobOk(job) && IsFor(job, size)
    ensures IsFor(Act(job, bits, used).0, size)
  {
  }

  lemma {:induction false} JobsAreFor(run: seq<Action>)
    ensures |After(run).jobs| == |Asked(run)|
    ensures forall id: nat :: id < |Asked(run)| ==> IsFor(After(run).jobs[id], Asked(run)[id])
  {
    if run != [] {
      var init, last := run[..|run| - 1], run[|run| - 1];
      JobsAreFor(init);
      var s := After(init);
      if last.Tick? && |s.bits| == 64 * WORDS && last.id < |s.jobs| && JobOk(s.jobs[last.id]) {
        ActKeepsNeed(s.jobs[last.id], s.bits, s.used, Asked(init)[last.id]);
      }
    }
  }

  /** After every run, the bytes of completed allocations are disjoint and end inside the segment, and no allocation
      holds a slot that its size does not need. */
  lemma {:induction false} BytesDisjoint(run: seq<Action>, a: nat, b: nat)
    requires a < |After(run).jobs| && b < |After(run).jobs| && a != b
    requires After(run).jobs[a].Held? && After(run).jobs[b].Held?
    ensures a < |Asked(run)| && b < |Asked(run)|
    ensures
      var x, y, m, n := After(run).jobs[a], After(run).jobs[b], Asked(run)[a], Asked(run)[b];
      && HDR_SIZE + x.start * GRANULARITY + m <= SEG_SIZE
      && (|| m == 0 || n == 0
          || x.start * GRANULARITY + m <= y.start * GRANULARITY || y.start * GRANULARITY + n <= x.start * GRANULARITY)
      && m <= x.need * GRANULARITY < m + GRANULARITY
  {
    hide After, Asked;
    JobsAreFor(run);
    AllocationsDisjoint(run, a, b);
    assert IsFor(After(run).jobs[a], Asked(run)[a]) && IsFor(After(run).jobs[b], Asked(run)[b]);
  }

  // ---------------------------------------------------------------- losing claims

  /** How often job id has taken slot x, less how often it has returned it. */
  ghost function Net(run: seq<Action>, id: nat, x: nat): (n: int)
    decreases |run|
  {
    if run == [] then 0
    else
      var s, a := After(run[..|run| - 1]), run[|run| - 1];
      var before := Net(run[..|run| - 1], id, x);
      if a.Tick? && a.id == id && |s.bits| == 64 * WORDS && id < |s.jobs| && JobOk(s.jobs[id]) then
        before + (match EffectOf(s.jobs[id], s.bits)
                  case Nothing => 0
                  case Takes(y) => if x == y then 1 else 0
                  case Returns(y) => if x == y then -1 else 0)
      else before
  }

  predicate OwnsNow(s: State, id: nat, x: nat) {
    id < |s.jobs| && Owns(s.jobs[id], x)
  }

  /** What a job owns is what it took and has not returned.  So a claim that lost, back in its
      scan or given up, has returned exactly the slots it took. */
  lemma {:induction false} NetIsOwned(run: seq<Action>, id: nat, x: nat)
    ensures Net(run, id, x) == if OwnsNow(After(run), id, x) then 1 else 0
    decreases |run|
  {
    if run != [] {
      var p, a := run[..|run| - 1], run[|run| - 1];
      NetIsOwned(p, id, x);
      var s := After(p);
      hide After, Act, EffectOf, JobOk;
      if a.Tick? && |s.bits| == 64 * WORDS && a.id < |s.jobs| && JobOk(s.jobs[a.id]) {
        ActEffect(s.jobs[a.id], s.bits, s.used);
      }
    }
  }

  // ---------------------------------------------------------------- the counter

  ghost function Total(s: State): (n: nat) {
    CountedBy(s.jobs, |s.jobs|)
  }

  /** The 16-bit counter never has to show more than it can hold. */
  ghost predicate Fits(run: seq<Action>)
    decreases |run|
  {
    Total(After(run)) < COUNTER && (run != [] ==> Fits(run[..|run| - 1]))
  }

  /** As long as the total fits 16 bits, the counter is exact after every run: it shows the slots of
      the allocations that have been counted and whose free has not yet been. */
  lemma {:induction false} CounterExact(run: seq<Action>)
    requires Fits(run)
    ensures After(run).used == Total(After(run))
    decreases |run|
  {
    if run != [] {
      var p, a := run[..|run| - 1], run[|run| - 1];
      CounterExact(p);
      RunInv(p);
      hide Fits, Inv;
      ApplyCounts(After(p), a);
    }
  }

  lemma {:induction false} ApplyCounts(s: State, a: Action)
    requires Inv(s) && s.used == Total(s) && Total(Apply(s, a)) < COUNTER
    ensures Apply(s, a).used == Total(Apply(s, a))
  {
    match a
    case Alloc(size) => CallKeepsInv(s, size);
    case Free(id) =>
      if id < |s.jobs| && s.jobs[id].Held? {
        var h := s.jobs[id];
        CountedUpdate(s.jobs, |s.jobs|, id, FreeLoad(h.start, h.need, h.start));
      }
    case Tick(id) =>
      if id < |s.jobs| && JobOk(s.jobs[id]) {
        StepCounts(s, id);
      }
  }

  /** The step in which job id adds itself to the counter. */
  predicate Counts(s: State, id: nat)
    requires id < |s.jobs|
  {
    s.jobs[id].CountSwap? && s.jobs[id].seen == s.used
  }

  /** From an exact counter every step leads to an exact counter, except that an allocation that
      brings the total to 2^16 or more leaves it wrong. */
  lemma {:induction false} StepCounts(s: State, id: nat)
    requires Inv(s) && id < |s.jobs| && JobOk(s.jobs[id]) && s.used == Total(s)
    ensures Step(s, id).used == Total(Step(s, id)) <==> (Counts(s, id) ==> Total(Step(s, id)) < COUNTER)
  {
    hide CountedBy, JobOk, Disjoint, Exact, Cleared, OwnedBy, JobsOk;
    var job := s.jobs[id];
    var r := Act(job, s.bits, s.used);
    CountedUpdate(s.jobs, |s.jobs|, id, r.0);
    CountedMember(s.jobs, |s.jobs|, id);
  }

  lemma {:induction false} CountedMember(jobs: seq<Job>, n: nat, id: nat)
    requires id < n <= |jobs|
    ensures Counted(jobs[id]) <= CountedBy(jobs, n)
  {
    hide Counted;
    if id < n - 1 {
      CountedMember(jobs, n - 1, id);
    }
  }

  predicate Freeing(job: Job) {
    job.FreeLoad? || job.FreeSwap? || job.UncountLoad? || job.UncountSwap?
  }

  ghost function FreesInFlight(jobs: seq<Job>, n: nat): (c: nat)
    requires n <= |jobs|
  {
    if n == 0 then 0 else FreesInFlight(jobs, n - 1) + if Freeing(jobs[n - 1]) then 1 else 0
  }

  lemma {:induction false} CountedBound(jobs: seq<Job>, n: nat)
    requires n <= |jobs| && JobsOk(jobs)
    ensures CountedBy(jobs, n) <= OwnedBy(jobs, n) + SLOTS * FreesInFlight(jobs, n)
  {
    if n > 0 {
      CountedBound(jobs, n - 1);
      assert JobOk(jobs[n - 1]);
    }
  }

  lemma {:induction false} ClearedBound(bits: seq<bool>, n: nat)
    requires n <= |bits|
    ensures Cleared(bits, n) <= n
  {
    if n > 0 {
      ClearedBound(bits, n - 1);
    }
  }

  /** Fewer than 64 frees in flight at every moment. */
  ghost predicate FewFrees(run: seq<Action>)
    decreases |run|
  {
    && FreesInFlight(After(run).jobs, |After(run).jobs|) < 64
    && (run != [] ==> FewFrees(run[..|run| - 1]))
  }

  lemma {:induction false} FewFreesFit(run: seq<Action>)
    requires FewFrees(run)
    ensures Fits(run)
    decreases |run|
  {
    var s := After(run);
    RunInv(run);
    if run != [] {
      FewFreesFit(run[..|run| - 1]);
    }
    hide After, JobsOk, Disjoint, Exact;
    CountedBound(s.jobs, |s.jobs|);
    ClearedBound(s.bits, |s.bits|);
  }

  predicate InFlight(job: Job) {
    !job.Held? && !job.Gone? && !job.Failed?
  }

  /** With no call in flight, the counter is the number of slots marked as taken, if no more than
      63 frees were ever in flight at once. */
  lemma {:induction false} QuietCounter(run: seq<Action>)
    requires FewFrees(run) && forall a: nat :: a < |After(run).jobs| ==> !InFlight(After(run).jobs[a])
    ensures |After(run).bits| == 64 * WORDS
    ensures After(run).used == Cleared(After(run).bits, 64 * WORDS)
  {
    FewFreesFit(run);
    CounterExact(run);
    RunInv(run);
    hide After, JobsOk, Disjoint, Exact;
    QuietSum(After(run).jobs, |After(run).jobs|);
  }

  lemma {:induction false} QuietSum(jobs: seq<Job>, n: nat)
    requires n <= |jobs| && forall a: nat :: a < |jobs| ==> !InFlight(jobs[a])
    ensures CountedBy(jobs, n) == OwnedBy(jobs, n)
  {
    if n > 0 {
      QuietSum(jobs, n - 1);
      assert !InFlight(jobs[n - 1]);
    }
  }
}
