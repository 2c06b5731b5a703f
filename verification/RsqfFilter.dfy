/** The rank-and-select quotient filter as a mutable object.

    A bit vector is the sequence of its bits; word b of a vector is bits 64b to 64b + 63.
    Remainders are bit-packed.  Hashes are 64-bit words. */
module RsqfFilter {
  import opened BitCount
  import opened BitXor
  import opened BitPacking
  import opened RsqfLayout
  import opened RsqfMetadata
  import opened RsqfHistory
  import opened RsqfHash

  datatype Status = OK | FULL

  // ---------------------------------------------------------------- word-level rank and select

  function Popcount(w: Word): (c: nat) {
    Count(w, 64)
  }

  /** Number of set bits among w[0..pos], inclusive. */
  function Rank64(w: Word, pos: nat): (c: nat)
    requires pos < 64
  {
    Popcount(And(w, Mask(pos + 1)))
  }

  lemma {:induction false} CountMasked(w: Word, r: nat, n: nat)
    requires r <= 64 && n <= 64
    ensures Count(And(w, Mask(r)), n) == Count(w, if n < r then n else r)
  {
    if n > 0 {
      CountMasked(w, r, n - 1);
    }
  }

  /** Position of the k-th set bit, counting from 1; 64 when there is none. */
  method Select64(w: Word, k: nat) returns (p: nat)
    ensures 1 <= k <= Count(w, 64) ==> p == Select(w, k)
    ensures k == 0 || k > Count(w, 64) ==> p == 64
  {
    var pop := Popcount(w);
    if k == 0 || k > pop {
      return 64;
    }
    var lo, hi := 0, 63;
    while lo < hi
      invariant 0 <= lo <= hi <= 63
      invariant Count(w, lo) < k <= Count(w, hi + 1)
    {
      var mid := lo + (hi - lo) / 2;
      CountMasked(w, mid + 1, 64);
      if Popcount(And(w, Mask(mid + 1))) >= k {
        hi := mid;
      } else {
        lo := mid + 1;
      }
    }
    SelectUnique(w, lo);
    return lo;
  }

  function WordOf(bv: seq<bool>, b: nat): (w: Word)
    requires BLOCK * b + BLOCK <= |bv|
  {
    bv[BLOCK * b..BLOCK * b + BLOCK]
  }

  lemma {:induction false} CountInWord(bv: seq<bool>, b: nat, i: nat)
    requires BLOCK * b + BLOCK <= |bv| && i <= BLOCK
    ensures Count(bv, BLOCK * b + i) == Count(bv, BLOCK * b) + Count(WordOf(bv, b), i)
  {
    if i > 0 {
      CountInWord(bv, b, i - 1);
    }
  }

  /** Index of the lowest set bit. */
  function Ctz(w: Word): (c: nat)
    requires w != Zero()
    ensures c < 64 && w[c] && forall i :: 0 <= i < c ==> !w[i]
  {
    assert exists i :: 0 <= i < 64 && w[i] != Zero()[i];
    LowestFrom(w, 0)
  }

  function LowestFrom(w: Word, j: nat): (c: nat)
    requires exists i :: j <= i < 64 && w[i]
    ensures j <= c < 64 && w[c] && forall i :: j <= i < c ==> !w[i]
    decreases 64 - j
  {
    if w[j] then j else LowestFrom(w, j + 1)
  }

  lemma {:induction false} ShiftedWordBit(bv: seq<bool>, pos: nat, i: nat)
    requires |bv| % BLOCK == 0 && pos < |bv| && i < 64
    ensures BLOCK * (pos / BLOCK) + BLOCK <= |bv|
    ensures Shr(WordOf(bv, pos / BLOCK), pos % BLOCK)[i] <==> pos % BLOCK + i < BLOCK && bv[pos + i]
  {
  }

  /** The next set bit at or after pos in the word of pos, if that word has one. */
  method NextInWord(bv: seq<bool>, pos: nat) returns (hit: bool, p: nat)
    requires |bv| % BLOCK == 0 && pos < |bv|
    ensures pos <= p < |bv| && (hit <==> bv[p])
    ensures forall i :: pos <= i < p ==> !bv[i]
    ensures !hit ==> p == (pos / BLOCK + 1) * BLOCK - 1
  {
    var wi, bi := pos / BLOCK, pos % BLOCK;
    var word := Shr(WordOf(bv, wi), bi);
    forall i | 0 <= i < 64 ensures word[i] <==> bi + i < BLOCK && bv[pos + i] {
      ShiftedWordBit(bv, pos, i);
    }
    hit := word != Zero();
    if hit {
      var skip := Ctz(word);
      p := pos + skip;
      forall i | pos <= i < p ensures !bv[i] {
        assert !word[i - pos];
      }
    } else {
      p := (wi + 1) * BLOCK - 1;
      forall i | pos <= i <= p ensures !bv[i] {
        assert !word[i - pos];
      }
    }
  }

  /** From a runend, advance over d further runends, a word at a time. */
  method SkipRunends(run: seq<bool>, from: nat, d: nat) returns (pos: nat)
    requires |run| % BLOCK == 0 && from < |run| && run[from]
    requires Count(run, from + 1) + d <= Count(run, |run|)
    ensures pos < |run| && run[pos] && Count(run, pos + 1) == Count(run, from + 1) + d
  {
    pos := from;
    var need := d;
    while need > 0
      invariant pos < |run| && 0 <= need <= d
      invariant Count(run, pos + 1) + need == Count(run, from + 1) + d
      invariant need == 0 ==> run[pos]
      decreases |run| - pos
    {
      assert pos + 1 < |run|;  // a runend remains, so the wrap to slot 0 is not taken
      var hit, p := NextInWord(run, pos + 1);
      CountNone(run, pos + 1, p);
      pos := p;
      need := if hit then need - 1 else need;
    }
  }

  /** (p + 1) mod n */
  function NextSlot(p: nat, n: nat): (r: nat)
    requires p < n
    ensures r == if p + 1 < n then p + 1 else 0
  {
    (p + 1) % n
  }

  lemma {:induction false} RemGetFits(t: seq<Word>, i: nat, r: nat)
    requires InTable(t, i, r)
    ensures Fits(RemGet(t, i, r), r)
  {
  }

  lemma {:induction false} MaskedFits(w: Word, r: nat)
    ensures Fits(And(w, Mask(r)), r)
  {
  }

  // ---------------------------------------------------------------- the filter

  class Filter {
    const numBlocks: nat
    const numSlots: nat
    const rbits: nat

    var occ: seq<bool>
    var run: seq<bool>
    var phys: seq<bool>
    var occPrefix: seq<nat>
    var runPrefix: seq<nat>
    var offsets: seq<nat>
    var table: seq<Word>
    var count: nat

    /** An empty filter: every array zeroed. */
    constructor (blocks: nat, width: nat)
      requires 1 <= blocks && 2 <= width <= 32
      ensures Valid() && numBlocks == blocks && numSlots == BLOCK * blocks && rbits == width && count == 0
      ensures View() == Empty(BLOCK * blocks, Zero())
    {
      var slots := BLOCK * blocks;
      numBlocks, numSlots, rbits, count := blocks, slots, width, 0;
      var clear := seq(slots, i => false);
      occ, run, phys := clear, clear, clear;
      occPrefix, runPrefix := seq(blocks + 1, i => 0), seq(blocks + 1, i => 0);
      offsets := seq(blocks, i => 0);
      var words := seq((slots * width + 63) / 64, i => Zero());
      table := words;
      SizedTable(words, slots, width);
      forall n | 0 <= n <= slots ensures Count(clear, n) == 0 {
        CountNone(clear, 0, n);
      }
      EmptyCanonical(slots, Zero());
      ZeroTable(words, slots, width);
    }

    ghost predicate Sized()
      reads this
    {
      && numBlocks >= 1 && numSlots == BLOCK * numBlocks && 2 <= rbits <= 32
      && |occ| == |run| == |phys| == numSlots
      && |occPrefix| == |runPrefix| == numBlocks + 1 && |offsets| == numBlocks
      && HoldsEntries(table, numSlots, rbits)
    }

    ghost function View(): (l: Layout<Word>)
      requires Sized()
      reads this
      ensures WellSized(l) && |l.occ| == numSlots
    {
      Layout(occ, run, phys, Unpack(table, numSlots, rbits))
    }

    /** The prefix sums and offsets are what a full recomputation would give. */
    ghost predicate Fresh()
      requires Sized()
      reads this
    {
      && occPrefix == Prefix(occ, numBlocks)
      && runPrefix == Prefix(run, numBlocks)
      && offsets == Offsets(occ, run, numBlocks)
    }

    ghost predicate Valid()
      reads this
    {
      && Sized() && Fresh() && Canonical(View(), Zero())
      && count == Count(phys, numSlots)
    }

    // -------------------------------------------------------------- rank and select

    function RankOcc(pos: nat): (c: nat)
      requires Sized() && pos < numSlots
      reads this
    {
      occPrefix[pos / BLOCK] + Rank64(WordOf(occ, pos / BLOCK), pos % BLOCK)
    }

    lemma {:induction false} RankOccIsCount(pos: nat)
      requires Sized() && pos < numSlots && occPrefix == Prefix(occ, numBlocks)
      ensures RankOcc(pos) == Count(occ, pos + 1)
    {
      CountMasked(WordOf(occ, pos / BLOCK), pos % BLOCK + 1, 64);
      CountInWord(occ, pos / BLOCK, pos % BLOCK + 1);
    }

    method SelectRun(k: nat) returns (p: nat)
      requires Sized() && runPrefix == Prefix(run, numBlocks)
      ensures p == SelectRunSpec(run, k)
    {
      if k == 0 {
        return 0;
      }
      if k > runPrefix[numBlocks] {
        return numSlots - 1;
      }
      var lo, hi := 0, numBlocks;
      while lo < hi
        invariant 0 <= lo <= hi <= numBlocks
        invariant lo == 0 || runPrefix[lo - 1] < k
        invariant k <= runPrefix[hi]
      {
        var mid := lo + (hi - lo) / 2;
        if runPrefix[mid] >= k {
          hi := mid;
        } else {
          lo := mid + 1;
        }
      }
      p := SelectInBlock(k, lo - 1);
    }

    method SelectInBlock(k: nat, block: nat) returns (p: nat)
      requires Sized() && runPrefix == Prefix(run, numBlocks)
      requires block < numBlocks && runPrefix[block] < k <= runPrefix[block + 1] && k <= Count(run, |run|)
      ensures p < |run| && p == Select(run, k)
    {
      hide Count, Prefix, Select, SelectIn;
      var w := WordOf(run, block);
      CountInWord(run, block, BLOCK);
      var i := Select64(w, k - runPrefix[block]);
      CountInWord(run, block, i);
      SelectUnique(run, BLOCK * block + i);
      return block * BLOCK + i;
    }

    /** RANK then SELECT through the block offset: jump to the end of the first run of the
        block and step over the remaining runends; 255 falls back to the binary search. */
    method RankSelect(q: nat) returns (p: nat)
      requires Sized() && Fresh() && Canonical(View(), Zero())
      requires q < numSlots && occ[q]
      ensures p == RunEnd(View(), q)
    {
      hide Canonical, OffsetOf, SelectIn, RankOcc, Count, Prefix;
      var b := q / BLOCK;
      var offVal := offsets[b];
      CanonicalMatched(View(), Zero());
      if offVal == 255 {
        RankOccIsCount(q);
        CountStep(occ, q);
        CountAfterSet(occ, q, numSlots);
        p := SelectRun(RankOcc(q));
      } else {
        OffsetOfQuotient(View(), Zero(), q, b);
        p := StepOver(q, b * BLOCK, b * BLOCK + offVal);
      }
      RunEndIs(View(), q, p);
    }

    /** From the first runend of the block that starts at base to the runend of q. */
    method StepOver(q: nat, base: nat, first: nat) returns (p: nat)
      requires Sized() && Fresh() && Count(run, numSlots) == Count(occ, numSlots)
      requires base <= q < numSlots && occ[q]
      requires first < numSlots && run[first] && Count(run, first) == Count(occ, base) <= Count(occ, q)
      ensures p < numSlots && run[p] && Count(run, p) == Count(occ, q)
    {
      hide OffsetOf, SelectIn, RankOcc, Count, Prefix;
      if q == base {
        return first;
      }
      var rkBase := 0;
      CountZero(occ);
      if base > 0 {
        RankOccIsCount(base - 1);
        rkBase := RankOcc(base - 1);
      }
      RankOccIsCount(q - 1);
      var d := RankOcc(q - 1) - rkBase;
      p := first;
      if d > 0 {
        CountStep(run, first);
        CountAfterSet(occ, q, numSlots);
        p := SkipRunends(run, first, d);
        CountStep(run, p);
      }
    }

    /** The slot after the (k-1)-th runend; the first run starts at slot 0. */
    method StartOfRun(k: nat) returns (s: nat)
      requires Sized() && runPrefix == Prefix(run, numBlocks)
      requires 1 <= k <= Count(run, numSlots)
      ensures s == if k == 1 then 0 else Select(run, k - 1) + 1
      ensures s < numSlots
    {
      if k == 1 {
        return 0;
      }
      SelectMonotone(run, k - 1, k);
      var e := SelectRun(k - 1);
      return NextSlot(e, numSlots);
    }

    /** The slots a lookup of q scans: from just after the previous run to the end of the run
        of the nearest occupied quotient. */
    method FindRun(q: nat) returns (found: bool, start: nat, end: nat)
      requires Valid() && q < numSlots
      ensures found <==> occ[q] || run[q]
      ensures found ==> Count(occ, q + 1) >= 1
      ensures found ==> start == AfterPrevious(View(), Home(View(), q)) < numSlots
      ensures found ==> end == RunEnd(View(), Home(View(), q))
    {
      hide Canonical, OffsetOf, SelectIn, RankOcc;
      start, end := 0, 0;
      HasHome(View(), Zero(), q);
      CanonicalMatched(View(), Zero());
      RankOccIsCount(q);
      found := occ[q] || run[q];
      if found {
        CountMonotone(occ, q + 1, numSlots);
        ghost var h := Home(View(), q);
        var rk := RankOcc(q);
        assert rk != 0;  // so the fallback to the last run is not taken
        if !occ[q] {
          end := SelectRun(rk);
        } else {
          HomeOfOccupied(View(), q);
          end := RankSelect(q);
        }
        start := StartOfRun(rk);
        AfterPreviousIs(View(), h, start);
        if !occ[q] {
          RunEndIs(View(), h, end);
        }
      }
    }

    // -------------------------------------------------------------- lookup

    /** After the insert calls `hashes`, what a lookup answers about them. */
    method Lookup(hash: Word, ghost hashes: seq<Word>) returns (r: bool)
      requires Valid()
      ensures r <==> Scans(View(), Zero(), Quotient(hash, rbits, numSlots), Remainder(hash, rbits))
      ensures View() == Holding(hashes, rbits, numSlots) ==> (r <==> Answers(hashes, rbits, numSlots, hash))
      ensures View() == Holding(hashes, rbits, numSlots) && Seen(hashes, rbits, numSlots, hash) ==> r
    {
      LookupOfHash(hashes, rbits, numSlots, hash);
      r := Search(Quotient(hash, rbits, numSlots), Remainder(hash, rbits));
    }

    method Search(q: nat, rem: Word) returns (r: bool)
      requires Valid() && q < numSlots
      ensures r <==> Scans(View(), Zero(), q, rem)
    {
      hide Canonical, OffsetOf, SelectIn, RankOcc, AfterPrevious, Home, RunEnd;
      if count == 0 {
        NothingOccupied(q);
        return false;
      }
      var found, start, end := FindRun(q);
      if !found {
        return false;
      }
      HasHome(View(), Zero(), q);
      CanonicalRunEnd(View(), Zero(), Home(View(), q));
      r := HoldsIn(start, end, rem);
    }

    method HoldsIn(start: nat, end: nat, rem: Word) returns (r: bool)
      requires Sized() && start <= end < numSlots
      ensures r <==> exists i :: start <= i <= end && View().rem[i] == rem
    {
      hide RemGet;
      var i := start;
      while i <= end
        invariant start <= i <= end + 1
        invariant forall j :: start <= j < i ==> View().rem[j] != rem
      {
        assert InTable(table, i, rbits);
        if RemGet(table, i, rbits) == rem {
          assert View().rem[i] == rem;
          return true;
        }
        i := i + 1;
      }
      return false;
    }

    lemma {:induction false} NothingOccupied(q: nat)
      requires Valid() && count == 0 && q < numSlots
      ensures !occ[q] && !run[q]
    {
      assert UsedByCount(View(), q) && Ordered(View(), q) && Ordered(View(), q + 1);
      if phys[q] {
        CountAfterSet(phys, q, numSlots);
      }
    }

    // -------------------------------------------------------------- moving slots

    /** Move remainder, runend bit and occupancy from src to dst and clear src. */
    method MoveSlotRight(dst: nat, src: nat)
      requires Sized() && src < numSlots && dst < numSlots && src != dst
      modifies this`run, this`phys, this`table
      ensures Sized()
      ensures run == old(run)[dst := old(run)[src]][src := false]
      ensures phys == (if old(phys)[src] then old(phys)[dst := true] else old(phys))[src := false]
      ensures View().rem == old(View()).rem[dst := old(View()).rem[src]][src := Zero()]
    {
      hide RemGet, RemSet;
      assert InTable(table, src, rbits);
      var v := RemGet(table, src, rbits);
      var rb := run[src];
      RemGetFits(table, src, rbits);
      UnpackSet(table, numSlots, rbits, dst, v);
      table := RemSet(table, dst, rbits, v);
      if phys[src] {
        phys := phys[dst := true];
        phys := phys[src := false];
      }
      if rb {
        run := run[dst := true];
      } else {
        run := run[dst := false];
      }
      run := run[src := false];
      phys := phys[src := false];
      UnpackSet(table, numSlots, rbits, src, Zero());
      table := RemSet(table, src, rbits, Zero());
    }

    /** Shift [s, n) one slot to the right over the free slot n. */
    method ShiftRight(s: nat, n: nat)
      requires Sized() && s <= n < numSlots
      requires !run[n] && !phys[n] && View().rem[n] == Zero()
      requires forall i :: s <= i < n ==> phys[i]
      modifies this`run, this`phys, this`table
      ensures Sized()
      ensures run == OpenGap(old(run), s, n, false)
      ensures phys == OpenGap(old(phys), s, n, false)
      ensures View().rem == OpenGap(old(View()).rem, s, n, Zero())
    {
      hide Unpack, HoldsEntries;
      ghost var l := View();
      var i := n;
      while i > s
        invariant s <= i <= n && Sized()
        invariant run == OpenGap(l.run, i, n, false)
        invariant phys == OpenGap(l.phys, i, n, false)
        invariant View().rem == OpenGap(l.rem, i, n, Zero())
      {
        MoveSlotRight(i, i - 1);
        GapStep(l.run, i, n, false);
        GapStep(l.phys, i, n, false);
        GapStep(l.rem, i, n, Zero());
        i := i - 1;
      }
    }

    // -------------------------------------------------------------- refreshing the metadata

    method UpdateOffsetsFrom(firstBlock: nat)
      requires Sized() && firstBlock < numBlocks
      requires firstBlock > 0 ==> forall b :: 0 <= b <= firstBlock ==>
        occPrefix[b] == Count(occ, BLOCK * b) && runPrefix[b] == Count(run, BLOCK * b)
      requires forall b :: 0 <= b < firstBlock ==> offsets[b] == OffsetOf(occ, run, b)
      modifies this`occPrefix, this`runPrefix, this`offsets
      ensures Sized() && Fresh()
    {
      hide HoldsEntries, OffsetOf;
      RefreshPrefixes(firstBlock);
      RefreshOffsets(firstBlock);
      assert occPrefix == Prefix(occ, numBlocks);
      assert runPrefix == Prefix(run, numBlocks);
      assert offsets == Offsets(occ, run, numBlocks);
    }

    method RefreshPrefixes(firstBlock: nat)
      requires Sized() && firstBlock < numBlocks
      requires firstBlock > 0 ==> forall b :: 0 <= b <= firstBlock ==>
        occPrefix[b] == Count(occ, BLOCK * b) && runPrefix[b] == Count(run, BLOCK * b)
      modifies this`occPrefix, this`runPrefix
      ensures Sized()
      ensures forall b :: 0 <= b <= numBlocks ==>
        occPrefix[b] == Count(occ, BLOCK * b) && runPrefix[b] == Count(run, BLOCK * b)
    {
      hide HoldsEntries;
      if firstBlock == 0 {
        occPrefix := occPrefix[0 := 0];
        runPrefix := runPrefix[0 := 0];
      }
      var b := firstBlock;
      while b < numBlocks
        invariant firstBlock <= b <= numBlocks && Sized()
        invariant forall i :: 0 <= i <= b ==>
          occPrefix[i] == Count(occ, BLOCK * i) && runPrefix[i] == Count(run, BLOCK * i)
      {
        CountInWord(occ, b, BLOCK);
        CountInWord(run, b, BLOCK);
        occPrefix := occPrefix[b + 1 := occPrefix[b] + Popcount(WordOf(occ, b))];
        runPrefix := runPrefix[b + 1 := runPrefix[b] + Popcount(WordOf(run, b))];
        b := b + 1;
      }
    }

    method RefreshOffsets(firstBlock: nat)
      requires Sized() && firstBlock < numBlocks
      requires forall b :: 0 <= b <= numBlocks ==>
        occPrefix[b] == Count(occ, BLOCK * b) && runPrefix[b] == Count(run, BLOCK * b)
      requires forall b :: 0 <= b < firstBlock ==> offsets[b] == OffsetOf(occ, run, b)
      modifies this`offsets
      ensures Sized()
      ensures forall b :: 0 <= b < numBlocks ==> offsets[b] == OffsetOf(occ, run, b)
    {
      hide HoldsEntries, SelectRunSpec;
      assert runPrefix == Prefix(run, numBlocks);
      var b := firstBlock;
      while b < numBlocks
        invariant firstBlock <= b <= numBlocks && Sized()
        invariant forall i :: 0 <= i < b ==> offsets[i] == OffsetOf(occ, run, i)
      {
        var blkStart := b * BLOCK;
        var o := 0;
        if occPrefix[b + 1] > occPrefix[b] {
          var end := SelectRun(occPrefix[b] + 1);
          if end > blkStart {
            o := end - blkStart;
          }
        }
        offsets := offsets[b := if o > 254 then 255 else o];
        b := b + 1;
      }
    }

    // -------------------------------------------------------------- insert

    /** Write a remainder into the opened slot s and do the runend bookkeeping: an extended run
        hands its runend over, a new run adds one. */
    method WriteSlot(q: nat, s: nat, x: Word)
      requires Sized() && q < numSlots && s < numSlots && Fits(x, rbits)
      requires occ[q] ==> 0 < s
      modifies this`occ, this`run, this`phys, this`table, this`count
      ensures Sized() && count == old(count) + 1
      ensures occ == old(occ)[q := true] && phys == old(phys)[s := true]
      ensures run == (if old(occ)[q] then old(run)[s - 1 := false] else old(run))[s := true]
      ensures View().rem == old(View()).rem[s := x]
    {
      hide Unpack;
      assert InTable(table, s, rbits);
      UnpackSet(table, numSlots, rbits, s, x);
      table := RemSet(table, s, rbits, x);
      phys := phys[s := true];
      var occWasSet := occ[q];
      if occWasSet {
        run := run[s - 1 := false];
      }
      run := run[s := true];
      occ := occ[q := true];
      count := count + 1;
    }

    /** Open slot s by shifting [s, n) and put the new remainder there. */
    method Place(q: nat, s: nat, n: nat, x: Word)
      requires Valid() && q < numSlots && Fits(x, rbits) && HasRoom(View(), q)
      requires s == InsertPos(View(), Zero(), q) && n == FirstFree(phys, q)
      modifies this`occ, this`run, this`phys, this`table, this`count
      ensures Sized()
      ensures View() == Inserted(old(View()), Zero(), q, x)
      ensures count == old(count) + 1
    {
      hide Canonical, HoldsEntries, Unpack, OffsetOf, InsertPos, Opens, OpenGap;
      ghost var l := View();
      InsertedOpens(l, Zero(), q, x);
      FreeSlot(l, Zero(), n);
      OpensCluster(l, Inserted(l, Zero(), q, x), Zero(), q, s, n);
      ShiftRight(s, n);
      WriteSlot(q, s, x);
      FillGap(l.run, s, n, true, false, l.occ[q]);
      FillGap(l.phys, s, n, true, false, false);
      FillGap(l.rem, s, n, x, Zero(), false);
      GapOfUsed(l.phys, s, n);
    }

    /** Place the remainder and refresh the metadata from the first affected block on. */
    method Commit(q: nat, s: nat, n: nat, x: Word)
      requires Valid() && q < numSlots && Fits(x, rbits) && HasRoom(View(), q)
      requires s == InsertPos(View(), Zero(), q) && n == FirstFree(phys, q)
      modifies this
      ensures Valid()
      ensures View() == Inserted(old(View()), Zero(), q, x)
      ensures count == old(count) + 1
    {
      hide Canonical, HoldsEntries, OffsetOf, InsertPos, FirstFree, Inserted, Unpack;
      ghost var l := View();
      Place(q, s, n, x);
      InsertedFacts(l, Zero(), q, x, numBlocks);
      UpdateOffsetsFrom((if q < s then q else s) / BLOCK);
    }

    /** The first free slot from `start` on, going round once. */
    method FirstFreeFrom(start: nat) returns (found: bool, n: nat)
      requires Sized() && start < numSlots
      ensures found ==> n < numSlots && !phys[n]
      ensures found && start <= n ==> forall i :: start <= i < n ==> phys[i]
      ensures !found || n < start ==> forall i :: start <= i < numSlots ==> phys[i]
      ensures !found ==> forall i :: 0 <= i < numSlots ==> phys[i]
    {
      hide HoldsEntries;
      n := start;
      while n < numSlots && phys[n]
        invariant start <= n <= numSlots
        invariant forall i :: start <= i < n ==> phys[i]
      {
        n := n + 1;
      }
      if n < numSlots {
        return true, n;
      }
      n := 0;
      while n < start && phys[n]
        invariant 0 <= n <= start
        invariant forall i :: 0 <= i < n ==> phys[i]
      {
        n := n + 1;
      }
      return n < start, n;
    }

    /** The last slot of the contiguous data that starts at the used slot q, going round. */
    method ClusterEnd(q: nat) returns (bounded: bool, rend: nat)
      requires Sized() && q < numSlots && phys[q]
      ensures rend < numSlots
      ensures bounded ==> !phys[NextSlot(rend, numSlots)]
      ensures bounded && q <= rend < numSlots - 1 ==> forall i :: q <= i <= rend ==> phys[i]
      ensures !bounded || rend < q || rend == numSlots - 1 ==> forall i :: q <= i < numSlots ==> phys[i]
    {
      hide HoldsEntries;
      rend := q;
      var steps := 0;
      while steps < numSlots
        invariant 0 <= steps <= numSlots && rend < numSlots
        invariant rend == if q + steps < numSlots then q + steps else q + steps - numSlots
        invariant forall i :: q <= i <= q + steps && i < numSlots ==> phys[i]
      {
        var next := NextSlot(rend, numSlots);
        if !phys[next] {
          return true, rend;
        }
        rend := next;
        steps := steps + 1;
      }
      return false, rend;
    }

    /** The insertion point when q has no run and its slot belongs to another run. */
    method NewRunSlot(q: nat) returns (room: bool, s: nat, n: nat)
      requires Valid() && q < numSlots && !occ[q] && phys[q] && !run[q]
      ensures room <==> HasRoom(View(), q)
      ensures room ==> s == InsertPos(View(), Zero(), q) && n == FirstFree(phys, q)
    {
      hide Canonical, HoldsEntries, OffsetOf, InsertPos, RankOcc, NextSlot, FirstFree, Unpack;
      room, s, n := false, 0, 0;
      ghost var l := View();
      RankOccIsCount(q);
      HasHome(l, Zero(), q);
      InsertPosIs(l, Zero(), q);
      InsertPosInCluster(l, Zero(), q);
      var rk := RankOcc(q);
      var e := SelectRun(rk);
      var insPos := NextSlot(e, numSlots);
      if insPos == 0 {
        return;
      }
      var bounded, rend := ClusterEnd(q);
      if !bounded {
        return;
      }
      var scanStart := NextSlot(rend, numSlots);
      var found;
      found, n := FirstFreeFrom(scanStart);
      if !found {
        return;
      }
      if insPos > n {
        LastSlotClosesRun(l, Zero());
        assert run[numSlots - 1];  // so the wrapping shift is never reached
        return;
      }
      FirstFreeUnique(phys, q, n);
      return true, insPos, n;
    }

    /** The insertion point when the scan found a run that ends at `rend`. */
    method AppendSlot(q: nat, rend: nat) returns (room: bool, s: nat, n: nat)
      requires Valid() && q < numSlots && (occ[q] || run[q])
      requires rend < numSlots && rend + 1 == InsertPos(View(), Zero(), q)
      ensures room <==> HasRoom(View(), q)
      ensures room ==> s == InsertPos(View(), Zero(), q) && n == FirstFree(phys, q)
    {
      hide Canonical, HoldsEntries, OffsetOf, InsertPos, RankOcc;
      ghost var l := View();
      room, n := false, 0;
      InsertPosInCluster(l, Zero(), q);
      s := rend + 1;
      if s >= numSlots {
        s := 0;
      }
      var found;
      found, n := FirstFreeFrom(s);
      if !found {
        return;
      }
      if s == 0 && rend == numSlots - 1 {
        RankOccIsCount(q);
        HasHome(l, Zero(), q);
        assert occ[q] || RankOcc(q) > 0;  // so both guards reject
        return;
      }
      if s > n {
        LastSlotClosesRun(l, Zero());
        assert run[numSlots - 1];  // so the wrapping shift is never reached
        return;
      }
      FirstFreeUnique(phys, s, n);
      room := true;
    }

    /** One more insert call after the calls `hashes`. */
    method Insert(hash: Word, ghost hashes: seq<Word>) returns (st: Status)
      requires Valid()
      modifies this
      ensures Valid()
      ensures st == OK <==> old(HasRoom(View(), Quotient(hash, rbits, numSlots)))
      ensures View() == Attempt(old(View()), Zero(), Quotient(hash, rbits, numSlots), Remainder(hash, rbits))
      ensures count == old(count) + if st == OK then 1 else 0
      ensures old(View()) == Holding(hashes, rbits, numSlots) ==>
        && View() == Holding(hashes + [hash], rbits, numSlots)
        && (st == OK <==> Accepts(hashes + [hash], rbits, numSlots, |hashes|))
    {
      HoldingMore(hashes, rbits, numSlots, hash);
      st := InsertAt(hash, Quotient(hash, rbits, numSlots));
    }

    method InsertAt(hash: Word, q: nat) returns (st: Status)
      requires Valid() && q < numSlots
      modifies this
      ensures Valid()
      ensures st == OK <==> old(HasRoom(View(), q))
      ensures View() == Attempt(old(View()), Zero(), q, Remainder(hash, rbits))
      ensures count == old(count) + if st == OK then 1 else 0
    {
      hide Canonical, HoldsEntries, OffsetOf, RankOcc;
      ghost var l := View();
      var x := Remainder(hash, rbits);
      if count >= numSlots {
        AllUsed(phys, numSlots, q);
        return FULL;
      }
      var found, start, end := FindRun(q);
      var s, n, room := q, q, true;
      if !found && phys[q] {
        room, s, n := NewRunSlot(q);
      } else if found {
        InsertPosOfFound(l, Zero(), q, end);
        room, s, n := AppendSlot(q, end);
      }
      if !room {
        return FULL;
      }
      MaskedFits(hash, rbits);
      Commit(q, s, n, x);
      return OK;
    }
  }

  lemma {:induction false} FillGap<S>(r: seq<S>, s: nat, n: nat, x: S, z: S, closePrevious: bool)
    requires s <= n < |r| && (closePrevious ==> 0 < s)
    ensures
      var gap := OpenGap(r, s, n, z);
      if closePrevious then gap[s - 1 := z][s := x] == OpenGap(r[s - 1 := z], s, n, x)
      else gap[s := x] == OpenGap(r, s, n, x)
  {
  }

  /** A gap opened in a used stretch and filled is the stretch with its free slot filled. */
  lemma {:induction false} GapOfUsed(phys: seq<bool>, s: nat, n: nat)
    requires s <= n < |phys| && forall i :: s <= i < n ==> phys[i]
    ensures OpenGap(phys, s, n, true) == phys[n := true]
  {
  }

  lemma {:induction false} AllUsed(phys: seq<bool>, n: nat, i: nat)
    requires i < n <= |phys| && Count(phys, n) >= n
    ensures forall j :: i <= j < n ==> phys[j]
  {
    forall j | i <= j < n ensures phys[j] {
      CountMonotone(phys, j + 1, n);
    }
  }

  lemma {:induction false} ZeroTable(t: seq<Word>, n: nat, r: nat)
    requires HoldsEntries(t, n, r) && forall i :: 0 <= i < |t| ==> t[i] == Zero()
    ensures Unpack(t, n, r) == seq(n, i => Zero())
  {
    forall i | 0 <= i < n ensures Unpack(t, n, r)[i] == Zero() {
      assert InTable(t, i, r);
      forall b | 0 <= b < 64 ensures !RemGet(t, i, r)[b] {
        GetBit(t, i * r, r, b);
      }
    }
  }

  lemma {:induction false} GapStep<S>(r: seq<S>, i: nat, n: nat, z: S)
    requires 0 < i <= n < |r|
    ensures OpenGap(r, i, n, z)[i := r[i - 1]][i - 1 := z] == OpenGap(r, i - 1, n, z)
    ensures OpenGap(r, i, n, z)[i - 1] == r[i - 1]
  {
  }

  // ---------------------------------------------------------------- creation

  /** The exponent of the smallest power of two that is at least n, starting from k. */
  function ExponentFor(n: nat, k: nat): (e: nat)
    requires k == 0 || Pow2(k - 1) < n
    ensures n <= Pow2(e) && (e == 0 || Pow2(e - 1) < n)
    decreases if n > Pow2(k) then n - Pow2(k) else 0
  {
    if n <= Pow2(k) then k else ExponentFor(n, k + 1)
  }

  lemma {:induction false} Pow2Blocks(k: nat)
    ensures (Pow2(k) + 63) / 64 * BLOCK == Pow2(if k < 6 then 6 else k)
  {
    SmallPowers();
    if k < 6 {
      assert k == 0 || k == 1 || k == 2 || k == 3 || k == 4 || k == 5;
    } else {
      hide Pow2;
      WholeBlocks(k);
      assert (64 * Pow2(k - 6) + 63) / 64 == Pow2(k - 6);
    }
  }

  lemma {:induction false} SmallPowers()
    ensures Pow2(0) == 1 && Pow2(1) == 2 && Pow2(2) == 4 && Pow2(3) == 8 && Pow2(4) == 16 && Pow2(5) == 32 &&
      Pow2(6) == 64
  {
  }

  lemma {:induction false} WholeBlocks(k: nat)
    requires k >= 6
    ensures Pow2(k) == BLOCK * Pow2(k - 6)
  {
    if k == 6 {
      SmallPowers();
    } else {
      WholeBlocks(k - 1);
    }
  }

  /** The number of blocks for a capacity: rounded up to a power of two, then to whole blocks. */
  function BlocksFor(capacity: nat): (blocks: nat)
    ensures blocks >= 1 && capacity <= BLOCK * blocks
    ensures exists k :: BLOCK * blocks == Pow2(k)
    ensures BLOCK * blocks == BLOCK || BLOCK * blocks < 2 * capacity
  {
    var k := ExponentFor(capacity, 0);
    Pow2Blocks(k);
    assert (Pow2(k) + 63) / 64 * BLOCK == Pow2(if k < 6 then 6 else k);
    (Pow2(k) + 63) / 64
  }

  /** 0 stands for the default of 10 bits; other widths are clamped to [2, 32]. */
  function ClampWidth(fpBits: nat): (w: nat)
    ensures 2 <= w <= 32 && (2 <= fpBits <= 32 ==> w == fpBits)
  {
    var w := if fpBits == 0 then 10 else fpBits;
    if w < 2 then 2 else if w > 32 then 32 else w
  }

  /** No filter for capacity 0; otherwise an empty one with the least power of two of slots that is not below the
      capacity and fills whole blocks. */
  method Create(capacity: nat, fpBits: nat) returns (rf: Filter?)
    ensures rf == null <==> capacity == 0
    ensures rf != null ==> fresh(rf) && rf.Valid() && rf.View() == Empty(rf.numSlots, Zero())
    ensures rf != null ==> capacity <= rf.numSlots && exists k :: rf.numSlots == Pow2(k)
    ensures rf != null ==> rf.numSlots == BLOCK || rf.numSlots < 2 * capacity
    ensures rf != null ==> rf.View() == Holding([], rf.rbits, rf.numSlots)
    ensures rf != null ==>
      rf.rbits == if fpBits == 0 then 10 else if fpBits < 2 then 2 else if fpBits <= 32 then fpBits else 32
  {
    hide Canonical, HoldsEntries, Pow2, Filter.Fresh, BlocksFor;
    if capacity == 0 {
      return null;
    }
    rf := new Filter(BlocksFor(capacity), ClampWidth(fpBits));
  }
}
