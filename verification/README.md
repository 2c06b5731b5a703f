# Draugr, modelled and proved in Dafny

Draugr is a C library of hash tables and approximate-membership filters. Each of its structures
is a fast encoding of something simple — a bag, a map, a sequence — that is changed step by step
with hints, shifts, evictions and rollbacks. This project models the encodings and proves that
they keep meaning the same thing.

| component | files |
|---|---|
| rank-and-select quotient filter (after section 3.2 of Pandey et al., SIGMOD 2017) | `BitCount`, `BitPacking`, `RsqfLayout`, `RsqfMetadata`, `RsqfHistory`, `RsqfHash`, `RsqfFilter` |
| concurrent cuckoo table `htc`, one generation | `HtcControl`, `HtcModel`, `HtcDisplacement`, `HtcSearch`, `HtcTable`, `HtcSeqlock`, `HtcSeqlockWrap`, `HtcConcurrentFind`, `HtcFindValue` |
| Robin-Hood bare table `ht` | `ModArith`, `RobinHood`, `RobinHoodWalk`, `RobinHoodRange`, `RingIndex`, `RobinHoodInsert`, `BackwardShift`, `HashRemoval`, `BareTable` |
| cuckoo and vacuum filters | `BitXor`, `WordNumber`, `PackedSets`, `FingerprintHash`, `FingerprintBag`, `FilterHistory`, `CuckooFilter`, `VacuumIndex`, `VacuumFilter`, `VacuumCreate` |
| counting quotient filter, counter codec | `CqfCodec`, `CqfSpelling`, `CqfSlots` |
| LRU cache | `LruList`, `LruCache` |
| cold-tier segment allocator, interleaved | `SegmentAlloc`, `SegmentSolo`, `SegmentOverflow` |

`Options` is shared. `dafny verify dfyconfig.toml` checks everything.

Conventions. A bit vector is the sequence of its bits, a packed word is 64 bits, least significant
first, and a control word is its eight bytes. Objects that the library updates in place are
classes; every method is specified by a pure function or relation on the abstract value, and the
laws are proved about that value. The functions that decide where something goes or what is written (buckets,
fingerprints, quotients, digits, slot counts) are also characterised without its own arithmetic, bit by bit or by
counting, with an if-and-only-if. Hash mixers, comparison callbacks, floating-point sizing
decisions and the outcome of memory allocation are parameters, so the results hold for all of them.

## What was found

Properties the code has, in full generality: the rows below. Properties it does not have follow, each
with the exact condition under which it does, except for two where the condition is only sufficient: the
completeness of removing a hash in rings with empty slots (`RemoveHash`), and that of find without locks
(`FindComplete`, `UnmovedKeyFound`):

- An RSQF insert is refused as soon as no slot from the quotient to the end of the table is free,
  whatever is free before the quotient (`RefusedIffTailUsed`); one entry can be enough
  (`FullWithOneEntry`). The header's "wraparound fully supported" and the wrap-around branches of
  insert and `find_run` never take effect: the last run always ends inside the table.
- An RSQF lookup answers for the scanned run plus, when free slots lie before that run, remainder
  0 (`LookupExact`, `ZeroReported`); a quotient that is not occupied but carries a runend is
  answered from the preceding run.
- The Robin-Hood look-ahead past a tombstone is sound unless it meets sixteen further tombstones in
  a row; then it can make an entry unreachable (`LookaheadSuffices`, `LongTombRunMisleads`).
- An unbounded Robin-Hood insertion into a ring with room always adds its pair, but it keeps the invariant only
  when the hash *fits* (`InsertUnbounded`). In a ring of at most 65536 slots that means it settles: some slot less
  than a turn away holds no entry and is not crossed by an entry from before the hash's ideal slot, or every slot
  from the ideal slot to the first gap is avoided by some entry. An empty slot is always enough (`EmptyLands`); a
  ring of four with one crossed tombstone is not (`CrossedTombUnsettled`). In a larger ring such a slot must also
  come before the 16-bit distance of a carried entry wraps; after a wrap the ring is broken, wherever the walk
  ends (`LostPut`, `RuinedUnreachable`), and 65536 entries of one hash in a half-empty ring of 131072 are enough
  (`DistanceWraps`).
- A bounded insertion passes blocked tombstones without looking at the bound. That is harmless: unless the bound
  has been given up, the distance is still below it there; and the slot after a blocked tombstone is never free,
  so the test behind the decrement of the tombstone counter never fires and the counter stays exact
  (`WalkBounded`, `TrailingBlocks`).
- Removing all values of a hash stops after one more step than the ring has slots, and spends a step on every slot
  passed and another on every entry removed (`RemoveHash`): 33 of 48 pairs in a ring of 64
  (`FloodedRingKeepsSome`).
- The vacuum filter's comment that halving the bucket count preserves alignment is wrong: the
  table remains usable exactly when the power of two it was divided by divides the number of chunks
  (`Create`, `CappedIffDivisible`); for 4100000000 hashes, four to a bucket, it is not
  (`HalvingMisaligns`). Jumps stay in the table exactly when the
  range divides the number of buckets (`JumpInTableIff`).
- A cuckoo or vacuum filter has no false negatives as long as only live items are deleted; deleting a
  colliding item that was never inserted hides one that was (`LiveIsFound`, `ForeignDeleteHides`).
- A CQF entry reads back inside a longer run exactly when what follows does not disturb it; the run
  of remainder 1 once and remainder 2 three times is refused (`ReadBackIff`, `PairMisread`).
- The segment's 16-bit counter is exact while fewer than 64 frees are in flight; with 64 it can end at 0
  with every slot taken and no call running (`QuietCounter`, `CounterGoesWrong`).
- With the table's own writers, whatever a bucket scan answers was the full scan of the bucket at some instant of
  its attempt, for any number of writer sections and even before it validates (`AnswerHeldOnce`,
  `SectionDisciplined`). What the sequence counter adds is that a validated answer holds at the instant of the last
  read, and this exactly up to 2^31 sections: with fewer it does (`ValidatedScanIsAtomic`), with 2^31 a scan can
  validate that a key is missing which has been in the bucket since the first of them (`ValidatedScanIsLate`,
  `SeqWordRepeats`).
- Find without locks misses a key that is in the table throughout, when a displacement takes it from its secondary
  to its primary bucket after the primary scan: the window lasts until the secondary scan, whether the remap hints
  are read before the move or after it (`MovedKeyMissed`, `CommitHidesKey`, `MissHappens`). It finds a key that stays
  in one cell, whatever else changes (`UnmovedKeyFound`).
- Having found its key, find without locks loads the slot again and returns the value of the record that is there
  then. That is the value of the key sought exactly when the slot still holds that key, which find does not check
  (`ValueOfReloadedKey`); if the key has been removed and another published in its lane, find returns OK with the
  other key's value (`ReusedLaneMisread`, `MisreadHappens`).

## Model

| member | source | states |
|---|---|---|
| `BitPacking.GetAfterSet` | src/rsqf_filter.c:150-176 | for every width and table, reading an entry after writing one gives the written value, and every other entry is unchanged, also when entries straddle words |
| `BitPacking.UnpackSet` | src/rsqf_filter.c:162-176 | a packed write updates exactly one element of the sequence of entries |
| `BitPacking.SizedTable` | src/rsqf_filter.c:467-468 | the table allocated by create holds all its entries: no access leaves it |
| `BitPacking.SetUndone` | src/cuckoo_filter.c:98-109 | writing an entry's former value back restores the words bit for bit |
| `RsqfLayout.TilesIffCanonical` | src/rsqf_filter.c:186-209 | the layout "runs in quotient order tile the used slots, every free slot is zero" and the prefix-count form the code computes with are equivalent |
| `RsqfLayout.InsertKeepsCanonical` | src/rsqf_filter.c:562-787 | an accepted insertion keeps the canonical layout |
| `RsqfLayout.InsertedRuns` | src/rsqf_filter.c:562-787 | it appends the remainder to the run of its quotient and leaves the run of every other quotient as it was, although the slots of those runs move |
| `RsqfLayout.LastSlotClosesRun` | src/rsqf_filter.c:407-432 | when the last slot is used a run ends there: no run wraps around |
| `RsqfMetadata.RefreshIsLocal` | src/rsqf_filter.c:345-378 | prefix sums and offsets of the blocks before the quotient's are the same after an insertion as before: refreshing from that block equals recomputing everything |
| `RsqfMetadata.OffsetLeadsToRunend` | src/rsqf_filter.c:345-378 | an offset other than 255 leads from its block to the end of the run of the block's first quotient |
| `RsqfMetadata.OffsetOfQuotient` | src/rsqf_filter.c:226-272 | from that runend, an occupied quotient of the block is the right number of runends further |
| `RsqfHistory.RunsAreHistory` | src/rsqf_filter.c:562-787 | after any sequence of inserts each run is exactly the accepted remainders of its quotient, in order of insertion |
| `RsqfHistory.NoFalseNegatives` | src/rsqf_filter.c:509-556 | every accepted insertion is found by every later lookup |
| `RsqfHistory.LookupExact` | src/rsqf_filter.c:509-556 | a lookup is true exactly for the remainders of the scanned run, or for remainder 0 when free slots lie between the previous run and the quotient |
| `RsqfHistory.RefusedIffTailUsed` | src/rsqf_filter.c:600-662 | an insertion is refused exactly when every slot from the quotient to the end is used |
| `RsqfHistory.FullWithOneEntry` | src/rsqf_filter.c:600-662 | a filter with one entry in its last quotient refuses a second one there |
| `RsqfHistory.ZeroReported` | src/rsqf_filter.c:380-386 | a filter with one entry reports remainder 0 for that quotient, for every quotient but 0 |
| `RsqfHash.ShiftDivides` | src/rsqf_filter.c:513-514 | shifting a word right by r bits divides its value by 2^r, and the mask keeps the remainder |
| `RsqfHash.SplitHash` | src/rsqf_filter.c:513-514 | quotient and remainder are the two digits, in base 2^r, of the hash modulo 2^r times the number of slots |
| `RsqfHash.QuotientIsMasked` | src/rsqf_filter.c:567-568 | for a power of two of slots the quotient is a shift and a mask |
| `RsqfHash.SameSplitIff` | src/rsqf_filter.c:513-514 | two hashes share quotient and remainder exactly when they are congruent modulo that number |
| `RsqfHash.LookupOfHash` | src/rsqf_filter.c:509-556 | after any insert calls, a lookup never misses an accepted hash; on an occupied quotient and a remainder other than 0 it is true exactly when an accepted hash is congruent to it; the other cases exactly too |
| `RsqfFilter.CountMasked` | src/rsqf_filter.c:32-36 | masking and counting a word counts a prefix of its bits |
| `RsqfFilter.Select64` | src/rsqf_filter.c:38-52 | the binary search in a word finds the k-th set bit, and 64 exactly when there is none |
| `RsqfFilter.SkipRunends` | src/rsqf_filter.c:248-272 | stepping over runends a word at a time passes exactly the requested number |
| `RsqfFilter.Filter.RankOccIsCount` | src/rsqf_filter.c:186-193 | rank over prefix sums is the number of occupied quotients up to a position |
| `RsqfFilter.Filter.SelectRun` | src/rsqf_filter.c:195-209 | select over prefix sums is the position of the k-th runend, with the code's answers for rank 0 and for ranks beyond the last |
| `RsqfFilter.Filter.RankSelect` | src/rsqf_filter.c:226-272 | the offset-guided search gives the end of the quotient's run, including the 255 fallback |
| `RsqfFilter.Filter.StartOfRun` | src/rsqf_filter.c:380-386 | the slot after the previous runend, 0 for the first run |
| `RsqfFilter.Filter.FindRun` | src/rsqf_filter.c:407-432 | what a lookup scans: found exactly when the quotient is occupied or carries a runend, from the end of the previous run to the end of the run |
| `RsqfFilter.Filter.Lookup` | src/rsqf_filter.c:509-556 | the answer is the scan of the abstract layout that `LookupExact` characterises, and, after any insert calls, the answer about hashes that `LookupOfHash` gives; an accepted hash is always found |
| `RsqfFilter.Filter.ShiftRight` | src/rsqf_filter.c:313-343 | shifting a cluster opens a gap in runends, physical bits and remainders alike |
| `RsqfFilter.Filter.UpdateOffsetsFrom` | src/rsqf_filter.c:345-378 | refreshing from a block whose predecessors are right leaves all three arrays as if recomputed |
| `RsqfFilter.Filter.FirstFreeFrom` | src/rsqf_filter.c:623-635 | the cyclic search for a free slot, and what its failure or wrap-around says about the tail |
| `RsqfFilter.Filter.NewRunSlot` | src/rsqf_filter.c:592-667 | where a new run goes when its home slot belongs to another run |
| `RsqfFilter.Filter.AppendSlot` | src/rsqf_filter.c:669-787 | where a remainder goes when the run exists |
| `RsqfFilter.Filter.Insert` | src/rsqf_filter.c:562-787 | accepted exactly when there is room; then the layout is the one with the remainder inserted, metadata exact, one more entry counted; refused changes nothing; so the filter after a sequence of calls is the one those hashes define |
| `RsqfFilter.Filter.constructor` | src/rsqf_filter.c:451-490 | a zeroed filter is valid and empty |
| `RsqfFilter.Create` | src/rsqf_filter.c:438-490 | nothing for capacity 0, otherwise an empty filter whose slots are the least power of two, of at least 64, that is not below the capacity, with the remainder width defaulted or clamped |
| `HtcControl.MatchNeverMisses` | include/draugr/htc_internal.h:690-705 | for every control word and byte, the subtract-and-borrow search reports every lane that holds the byte |
| `HtcControl.LowestIsExact` | include/draugr/htc_internal.h:690-713 | the lowest lane it reports does hold the byte: false reports only follow a true one |
| `HtcModel.WhereKeysAre` | src/htc.c:2908-3059 | a key's cell is in its primary bucket, or flagged in its secondary one with the primary's hints announcing it, or in its shard's stash, which then counts as non-empty |
| `HtcModel.FillKeepsInv` | src/htc.c:2535-2590 | filling an empty slot with a legal record keeps slots, control bytes, remap counters, stash counts and uniqueness of keys in step |
| `HtcModel.VacateKeepsInv` | src/htc.c:3071-3215 | so does clearing a live one, saturated remap counters included |
| `HtcModel.FillLookup` | src/htc.c:2535-2590 | filling a slot adds exactly its key to the map |
| `HtcModel.VacateLookup` | src/htc.c:3071-3215 | clearing it removes exactly its key |
| `HtcModel.LastReference` | src/htc.c:3071-3215 | once its cell is cleared no cell refers to the record |
| `HtcModel.RemapStaysExact` | include/draugr/htc_internal.h:749-775 | an exact remap counter stays exact through fills and clears while fewer than 255 keys of its bucket are displaced |
| `HtcModel.HintsAre` | include/draugr/htc_internal.h:749-771 | after fewer than 255 displacements out of a bucket the secondary bucket is searched exactly for tags that share their low four bits with one of them, afterwards always |
| `HtcModel.HintFollowsDisplaced` | include/draugr/htc_internal.h:749-775 | with an exact counter the secondary bucket is skipped when nothing is displaced, and searched for every tag of a displaced key |
| `HtcDisplacement.RelocateKeeps` | src/htc.c:1023-1144 | moving a record to its other bucket keeps the invariant and every lookup |
| `HtcDisplacement.CommitAddsOne` | src/htc.c:974-1144 | a path that was built and validated, once committed, keeps every old key findable, adds the new one exactly once, and keeps control bytes, remap hints and secondary flags sound |
| `HtcTable.Table.BucketScan` | src/htc.c:726-751 | the scan through the control word returns the first matching slot, and none exactly when no slot of the eight matches |
| `HtcTable.Table.PlainScan` | src/htc.c:1999-2063 | the unfiltered scan satisfies the same specification |
| `HtcTable.Table.StashFind` | src/htc.c:182-198 | the stash search misses no entry of the shard, also when the live count lets it skip |
| `HtcTable.Table.StashInsert` | src/htc.c:207-220 | filing in the stash takes the shard's first empty cell and adds the key; it fails only when there is none, and then changes nothing |
| `HtcTable.Table.Locate` | src/htc.c:2908-3059 | the hinted search finds a cell of the key, and misses only absent keys |
| `HtcTable.Table.FrontCacheLookup` | include/draugr/htc_internal.h:853-878 | a front-cache hit is the current value of the key, and there is one exactly when some entry for the key is of the current generation of a live record |
| `HtcTable.Table.Find` | src/htc.c:2908-3059 | find with control bytes, remap hints, stash count and front cache returns the value in the map, and leaves a found key in the cache |
| `HtcTable.Table.SlowFind` | src/htc.c:1999-2063 | so does the exhaustive search that uses no hint: the two always agree |
| `HtcTable.Table.Update` | src/htc.c:2838-2906 | changes exactly one present key, or reports that it is missing |
| `HtcTable.Table.Remove` | src/htc.c:3071-3215 | removes exactly one key, emptying its cell and marking its record dead, and drops its cache entries and no others; or reports that it is missing and changes nothing |
| `HtcSearch.NoPathMissed` | src/htc.c:879-972 | a search that gives up within its budget is right: every path to room of at most five moves that spares the hot occupants the search spares is ruled out |
| `HtcSearch.ShardsAre` | src/htc.c:2601-2620 | the shards counted are those of the new key's buckets and of every bucket a move leaves or enters |
| `HtcSearch.ShardLimit` | src/htc.c:2622-2628 | the limit on shards refuses a path exactly when it touches more than eight in a table of at least sixteen |
| `HtcTable.Table.BuildPath` | src/htc.c:843-877 | following parents yields a legal path of moves that visits no bucket twice, ends at a root, fills the empty slot it was given, and is as long as the node is deep: it always fits its buffer |
| `HtcTable.Table.BfsFindPath` | src/htc.c:879-972 | every path found is such a path, to the first bucket with room in breadth-first order; a search that gives up has used its budget of buckets, or every bucket within its depth is full, following all occupants or all cold ones |
| `HtcTable.Table.ValidatePath` | src/htc.c:974-1021 | accepts exactly the paths that are valid in the current state, and returns the words it saw |
| `HtcTable.Table.CommitPath` | src/htc.c:1023-1144 | writing all slots, then all control bytes, then all counters equals moving the records one by one |
| `HtcTable.Table.EmptyLane` | src/htc.c:2535-2565 | the first candidate lane for publication is the first empty slot of the bucket, and there is no candidate exactly when the bucket is full |
| `HtcTable.Table.Displacing` | src/htc.c:2592-2675 | displacement commits the path the search found, which adds exactly the new key; it changes nothing only when the search gives up or its path touches too many shards |
| `HtcTable.Table.FileRecord` | src/htc.c:2535-2714 | the new record goes to the first empty slot of its primary bucket, else of its secondary one, else where displacement makes room, and only if that is not possible to the first empty cell of the stash; it fails only when all four are exhausted |
| `HtcTable.Table.Insert` | src/htc.c:2456-2714 | inserts a new key in that place, reports a duplicate exactly for a present one, and leaves the map alone when records run out or when both buckets and the stash are full and displacement is not possible |
| `HtcTable.Table.Upsert` | src/htc.c:2761-2836 | sets the value of a key, present or not, a new one in the place an insertion gives it, or leaves the map alone |
| `HtcTable.Table.Reclaim` | src/htc.c:134-150 | an unreferenced record is zeroed under its next generation, which changes no key and no cached answer |
| `HtcTable.Table.constructor` | src/htc.c:1433-1530 | a new table satisfies the invariant and maps nothing |
| `HtcSeqlock.NextKeepsInv` | src/htc.c:759-805 | every atomic step of writers, deleters and the reader keeps what the reader has concluded true while no section has begun since it started |
| `HtcSeqlock.ValidatedScanIsAtomic` | src/htc.c:759-805 | in every interleaving, a validated scan has answered with the full scan of the bucket at one instant, given fewer than 2^31 writer sections meanwhile |
| `HtcSeqlock.SeqWordRepeats` | include/draugr/htc_internal.h:796-814 | the sequence word repeats exactly every 2^31 sections, so that bound is what the counter gives |
| `HtcSeqlock.SectionDisciplined` | src/htc.c:1066-1140 | the writes of an insertion, a removal and a displacement in one bucket publish a key only where it was not, and leave the control byte of a lane alone while the key that was in it at the start of the section is |
| `HtcSeqlock.AnswerHeldOnce` | src/htc.c:759-805 | in every run of such writers, what a scan answers was the full scan of the bucket at some instant since the scan started, for any number of sections and before it validates |
| `HtcSeqlock.MissedOnce` | src/htc.c:759-805 | in particular a key that is in the bucket at every instant of the attempt is not missed |
| `HtcSeqlockWrap.ValidatedScanIsLate` | src/htc.c:759-805 | a run of such writers with 2^31 sections during the scan: the control word is read while the key is absent, the first section publishes it, and the scan validates that it is missing |
| `HtcConcurrentFind.FindComplete` | src/htc.c:2943-3034 | a find whose four reads answer for different instants finds a key present at the secondary scan, if the primary bucket and its hints have not changed until then |
| `HtcConcurrentFind.UnmovedKeyFound` | src/htc.c:2943-3034 | it finds every key that stays in one cell meanwhile, whatever else changes |
| `HtcConcurrentFind.FindSound` | src/htc.c:2943-3034 | it finds exactly when one of its scans settles on a cell, and the key was in that cell at that instant |
| `HtcConcurrentFind.MovedKeyMissed` | src/htc.c:2943-3034 | a key that goes from its secondary to its primary bucket after the primary scan and before the secondary one is missed, with the hints read before or after the move, although it is in the table before and after |
| `HtcConcurrentFind.CommitHidesKey` | src/htc.c:1023-1144 | every committed path does that to each key it moves back to its primary bucket |
| `HtcConcurrentFind.MissHappens` | src/htc.c:2592-2675 | a table with such a path: the new key's two buckets are full, one of them holds a displaced key whose primary bucket has room |
| `HtcFindValue.ValueOfReloadedKey` | src/htc.c:2956-2969 | find returns the value, at the instant it is loaded, of the key whose record is in the slot when it is loaded again, and starts over exactly when that key has been removed since; the record is that of the key sought exactly when the slot still holds that key |
| `HtcFindValue.FindReturnsValue` | src/htc.c:2943-3034 | when the slot is the same at both loads, find returns the value of its key at the instant it is loaded, and starts over exactly when the key has been removed |
| `HtcFindValue.FillPromise` | src/htc.c:2535-2590 | an insertion lets every key keep its record |
| `HtcFindValue.CommitPromise` | src/htc.c:1023-1144 | so does a displacement |
| `HtcFindValue.RemovePromise` | src/htc.c:3100-3141 | a removal marks the record of its key dead and lets every other key keep its own |
| `HtcFindValue.ArenaPromise` | src/htc.c:86-150 | so do a change of value, a fresh record, and taking back a record that the reader does not hold |
| `HtcFindValue.ReusedLaneMisread` | src/htc.c:2956-2974 | when the key found is removed and another published in its lane before the slot is loaded again, find returns the other key's value; when none is published, that of record 0 |
| `HtcFindValue.MisreadHappens` | src/htc.c:2956-2974 | a table where find of key 5 returns the 60 stored under key 6 |
| `RobinHood.PutKeepsInv` | src/ht.c:1007-1109 | one slot may change when its new content is reachable with exact distance and lets through everyone who must pass |
| `RobinHood.ProbeStops` | src/ht.c:614-657 | no entry lies at or beyond a slot where a probe for its hash stops |
| `RobinHood.Advance` | src/ht.c:326-388 | a carried entry let through by a slot is reachable one step on |
| `RobinHood.SwapCarry` | src/ht.c:326-388 | a swap with a nearer entry keeps every entry reachable, and the displaced one is reachable from the next slot |
| `RobinHood.LookaheadSuffices` | src/ht.c:326-388 | the bounded look-ahead settles whether a tombstone may be taken, once it has met something other than a tombstone |
| `RobinHood.LongTombRunMisleads` | src/ht.c:326-388 | a ring that removals leave behind, with the invariant, where it does not: sixteen tombstones hide an entry that the insertion then cuts off |
| `RobinHood.TombKeepsInv` | src/ht.c:754-793 | turning an entry into a tombstone hinders nobody |
| `RobinHoodWalk.WalkStop` | src/ht.c:326-388 | the ring an insertion leaves has exact distances exactly when the hash settles in the ring it found, whether it ends in the first turn or the second |
| `RobinHoodWalk.WalkSwap` | src/ht.c:356-371 | a swap keeps the state of the walk: who leads, what has been passed, and that the destination stays open |
| `RobinHoodWalk.StopLands` | src/ht.c:333-354 | a walk that ends before a full turn ends where the new hash itself could have been put |
| `RobinHoodWalk.EmptyLands` | src/ht.c:333-354 | an empty slot can take any hash |
| `RobinHoodWalk.UncrossedLands` | src/ht.c:333-354 | so can any slot without an entry that no entry crosses |
| `RobinHoodWalk.CrossedTombUnsettled` | src/ht.c:326-388 | a ring of four, with the invariant and one tombstone, where hash 12 comes to rest with distance 4 |
| `BareTable.Table.Probe` | src/ht.c:614-657 | the early-terminating probe misses no entry of the ring |
| `BareTable.Table.Find` | src/ht.c:614-657 | find over spill lane, ring and overflow stash answers the value of the hash nearest to home, else the first in the stash, and none exactly when there is none |
| `BareTable.Table.Blocked` | src/ht.c:326-388 | a tombstone reported blocked would hide an entry; one not reported can be taken without hiding anyone, when tombstones do not fill the look-ahead |
| `RobinHoodRange.Destination` | src/ht.c:326-388 | the walk ends at the first slot that can take the hash, or at the first gap a turn later |
| `RobinHoodRange.FitsAtStop` | src/ht.c:333-361 | where the walk stops before any distance has wrapped, the hash fits exactly when it settles |
| `RobinHoodRange.OutOfRange` | src/ht.c:376-377 | a distance wraps only when the hash does not fit, and an empty slot then lies ahead |
| `RobinHoodRange.LostPut` | src/ht.c:357-371 | after a wrap, whatever slot the carried entry is left in makes the ring hold an entry that is not at its distance from its ideal slot |
| `RobinHoodRange.RuinedUnreachable` | src/ht.c:1007-1109 | such an entry breaks the invariant |
| `RobinHoodRange.DistanceWraps` | src/ht.c:326-388 | 65536 entries of one hash in a ring of 131072: the next one settles but does not fit |
| `BareTable.Table.InsertUnbounded` | src/ht.c:326-388 | in any ring with room and no long run of tombstones, adds exactly one (hash, value) and keeps both counters exact, across swaps, blocked tombstones, a second turn and wrapping distances; the invariant survives exactly when the hash fits; below 65536 slots every entry stays reachable in any case |
| `BareTable.Table.ShiftSafe` | src/ht.c:394-414 | a chain declared safe can be shifted without any entry passing its ideal slot; a refusal means one could not, or would stay more than half a turn from home |
| `BareTable.Table.CommitShift` | src/ht.c:416-436 | the entries of the chain stand without gaps from the tombstone on, in order and each as much nearer to home as it moved; the slots they leave are empty; invariant, entries and tombstone count are kept |
| `BareTable.Table.DeleteCompact` | src/ht.c:438-465 | a chain of displaced entries and tombstones that an empty slot closes within the look-ahead is shifted so, unless an entry could not be or would stay more than half a turn from home; otherwise nothing changes |
| `BareTable.Table.RemoveFromRing` | src/ht.c:754-793 | removes exactly one (hash, value) from the ring, if it is there: its slot becomes a tombstone and the chain behind is compacted |
| `BareTable.Table.RemoveVal` | src/ht.c:754-793 | removes exactly one pair from wherever it is kept; true exactly when it was present |
| `BareTable.Table.RemoveHash` | src/ht.c:709-752 | removes only pairs of the hash; all of them when the farthest distance and their number do not exceed the steps of the loop, and only then in a ring without empty slots; exactly half the ring and one when they fill half the ring and a look-ahead |
| `BareTable.Table.RemoveAll` | src/ht.c:709-752 | the same over ring, spill and overflow |
| `HashRemoval.FloodedRingKeepsSome` | src/ht.c:709-752 | 48 pairs of one hash in a ring of 64: the loop takes 33 |
| `BareTable.Pow2AboveIs` | src/ht.c:515-523 | capacities are rounded to the least power of two that is large enough |
| `BareTable.Table.constructor` | src/ht.c:515-549 | an empty table of the rounded capacity, with the probe bound clamped to 16 bits |
| `BareTable.Table.SpillInsert` | src/ht.c:122-131 | a reserved hash adds exactly one pair to the spill lane, or nothing when that cannot grow |
| `BareTable.Table.Overflow` | src/ht.c:269-275 | an entry past the probe bound goes to the end of the stash if that has room, and otherwise into the ring, giving up the bound |
| `RobinHoodInsert.TrailingBlocks` | src/ht.c:248-275 | after a blocked tombstone the next slot is an entry or another tombstone that the carried entry must not take |
| `BareTable.Table.WalkBounded` | src/ht.c:236-324 | the walk of a bounded insertion ends in a slot that can be taken, within the bound, or carries an entry whose probe gets past the bound; entries, distances and tombstone count stay exact |
| `BareTable.Table.InsertBounded` | src/ht.c:236-324 | adds exactly one pair over ring and stash, into any ring with an empty slot in reach and no long run of tombstones, of any capacity, and keeps the table valid; only an entry whose probe gets past the bound goes to the stash |
| `BareTable.Table.Insert` | src/ht.c:576-606 | the public insertion, rebuilding when the load or a full stash calls for it: exactly one pair more over ring, spill and stash, or nothing for the reserved value or a spill lane that cannot grow |
| `BareTable.Table.PlaceProphylacticTombstones` | src/ht.c:475-487 | exactly the empty slots at multiples of the spacing become tombstones: entries and reachability unchanged |
| `BareTable.Table.Resize` | src/ht.c:799-864 | with fewer than 65536 entries, rebuilding preserves the bag of pairs over ring, spill and overflow, keeps find complete, and leaves an empty slot, no empty slot at a multiple of the spacing and no tombstone elsewhere, and no long run of tombstones; up to 32768 entries it leaves what insertion needs |
| `BitXor.XorIs` | src/cuckoo_filter.c:152-157 | a number is the exclusive or of two others exactly when it is so in every bit |
| `BitXor.XorLowBits` | src/cuckoo_filter.c:152-157 | masking an exclusive or to its low bits only depends on the low bits |
| `WordNumber.NextPowerIsLeast` | src/cuckoo_filter.c:163-173 | smearing bits rounds up to the least power of two |
| `WordNumber.PowerBelowIsLargest` | src/vacuum_filter.c:243-249 | smearing and subtracting half rounds down to the largest power of two |
| `PackedSets.SetAccess` | src/cuckoo_filter.c:87-109 | inside a 64-byte set the guard on the last word never suppresses a needed word |
| `PackedSets.PackedDensely` | src/cuckoo_filter.c:119-133 | a set holds as many entries as fit 64 bytes, and entries follow one another from set to set |
| `PackedSets.ReadAfterWrite` | src/cuckoo_filter.c:121-133 | a fingerprint read after a write is the written one, every other entry of every set unchanged |
| `PackedSets.WriteUndone` | src/cuckoo_filter.c:314-316 | writing back what a slot held restores all sets bit for bit |
| `FingerprintHash.FingerprintIs` | src/cuckoo_filter.c:139-143 | the fingerprint is made of the low bits of the hash, or is 1 exactly when none of them is set |
| `FingerprintHash.EvictSlot` | src/cuckoo_filter.c:293 | the eviction slot is inside the bucket for every mixer |
| `FingerprintHash.EvictSlotIs` | src/cuckoo_filter.c:293 | it is the mix of the bitwise exclusive or of step and fingerprint, scaled from 2^32 values to the bucket |
| `FingerprintBag.SameClass` | src/cuckoo_filter.c:150-157 | two placements of a fingerprint stand for the same class exactly when the buckets are equal or alternates |
| `FingerprintBag.WriteTrades` | src/cuckoo_filter.c:128-133 | writing a slot trades the class it held for the one it holds |
| `FingerprintBag.Kick` | src/cuckoo_filter.c:291-304 | an eviction leaves table plus carried fingerprint standing for the same bag |
| `FingerprintBag.Shove` | src/vacuum_filter.c:381-387 | a look-ahead move adds exactly one class |
| `FingerprintBag.UndoEvict` | src/cuckoo_filter.c:291-316 | an eviction is undone by its log entry, also when its slot was evicted before |
| `FingerprintBag.Rollback` | src/cuckoo_filter.c:314-316 | the rollback loop takes the evictions back, latest first |
| `FingerprintBag.FindSlot` | src/cuckoo_filter.c:244-258 | the first slot of the bucket with the value, -1 exactly when there is none |
| `FingerprintBag.InEitherBucket` | src/cuckoo_filter.c:321-329 | a class is in the bag exactly when its fingerprint is in one of its two buckets |
| `FingerprintBag.BagSize` | src/cuckoo_filter.c:264-353 | the bag is as large as the number of slots in use |
| `FilterHistory.ContentsIsImage` | src/cuckoo_filter.c:264-353 | after every run that deletes only live hashes, the filter holds exactly the classes of the live hashes and no delete has missed |
| `FilterHistory.LiveIsFound` | src/cuckoo_filter.c:321-329 | hence no false negatives |
| `FilterHistory.ForeignDeleteHides` | src/cuckoo_filter.c:331-353 | deleting a colliding hash that was never inserted hides one that was |
| `CuckooFilter.HomeIs` | src/cuckoo_filter.c:145-148 | the first bucket is made of the bits of the hash above its low 32 |
| `CuckooFilter.OtherIs` | src/cuckoo_filter.c:152-157 | the other bucket differs from it in exactly the bits that are set in the mixed fingerprint |
| `CuckooFilter.OtherDiffersIff` | src/cuckoo_filter.c:152-157 | it is another bucket exactly when the mixed fingerprint is not 0 modulo the number of buckets |
| `CuckooFilter.AltPairs` | src/cuckoo_filter.c:152-157 | the alternate bucket is in range and its own inverse, for every mixer |
| `CuckooFilter.Filter.constructor` | src/cuckoo_filter.c:206-225 | a cleared filter is valid and holds nothing |
| `CuckooFilter.Filter.Lookup` | src/cuckoo_filter.c:321-329 | true exactly when the class of the hash is held, that is, when one of the two buckets its bits describe has its fingerprint; always true for live hashes after honest runs |
| `CuckooFilter.Filter.Insert` | src/cuckoo_filter.c:264-319 | the fingerprint goes to the first empty slot of the first bucket its bits describe, else of the other, else the table is the one the eviction chain leaves, one copy of the class richer; FULL leaves every word as it was, and is returned exactly when the chain meets no bucket with room |
| `CuckooFilter.Filter.Evict` | src/cuckoo_filter.c:285-319 | the table is the one the eviction chain defines, one class richer; or the chain finds no room and every word is restored |
| `CuckooFilter.Filter.Delete` | src/cuckoo_filter.c:331-353 | succeeds exactly when the class is held; clears the first slot with the fingerprint in the first bucket, else in the other, and removes exactly one copy |
| `CuckooFilter.Filter.CountIsUsed` | src/cuckoo_filter.c:264-353 | the counter is the number of slots in use |
| `CuckooFilter.ChooseBuckets` | src/cuckoo_filter.c:193-205 | the least power of two with room for all entries, unless that would overflow a 32-bit field |
| `CuckooFilter.Create` | src/cuckoo_filter.c:175-226 | refused exactly for bad parameters; otherwise an empty valid filter of that size |
| `VacuumIndex.HashIndexInRange` | src/vacuum_filter.c:138-141 | the multiply-shift index is a bucket |
| `VacuumIndex.HomeIs` | src/vacuum_filter.c:138-141 | it is the upper half of the hash, scaled from 2^32 values to the buckets |
| `VacuumIndex.OtherIs` | src/vacuum_filter.c:156-164 | the other bucket lies in the same chunk, at the bitwise exclusive or of the offset and one more than the mix modulo the range less 1; the two low bits of the fingerprint choose the range |
| `VacuumIndex.JumpInChunk` | src/vacuum_filter.c:156-164 | the exclusive or inside a chunk stays in the chunk, undoes itself and never stays put |
| `VacuumIndex.JumpInTableIff` | src/vacuum_filter.c:156-164 | all jumps stay in the table exactly when the range divides the number of buckets |
| `VacuumIndex.AltPairs` | src/vacuum_filter.c:156-164 | with aligned ranges the alternate bucket is in range, its own inverse and never a fixed point, for every mixer |
| `VacuumFilter.FindMove` | src/vacuum_filter.c:374-390 | the look-ahead finds the first movable fingerprint of a bucket, and none exactly when the bucket is stuck |
| `VacuumFilter.Filter.LookAhead` | src/vacuum_filter.c:374-390 | moves exactly when some fingerprint of the bucket can; then exactly one class is added, otherwise nothing changes |
| `VacuumFilter.Filter.Evict` | src/vacuum_filter.c:392-440 | the same for the chain that looks ahead at every step |
| `VacuumFilter.Filter.Insert` | src/vacuum_filter.c:350-441 | the fingerprint goes to the first empty slot of the first bucket its bits describe, else of the other, else by a look-ahead move in either, else the table is the one the eviction chain leaves; one copy of the class is added; FULL leaves every word as it was, and is returned exactly when all of these find no room |
| `VacuumFilter.Filter.Lookup` | src/vacuum_filter.c:443-452 | true exactly when the class of the hash is held, that is, when one of the two buckets its bits describe has its fingerprint; always true for live hashes after honest runs |
| `VacuumFilter.Filter.Delete` | src/vacuum_filter.c:454-477 | succeeds exactly when the class is held; clears the first slot with the fingerprint in the first bucket, else in the other, and removes exactly one copy |
| `VacuumFilter.Filter.CountIsUsed` | src/vacuum_filter.c:350-477 | the counter is the number of slots in use |
| `VacuumFilter.Filter.constructor` | src/vacuum_filter.c:270-292 | a cleared filter is valid and holds nothing |
| `VacuumCreate.SelectRange` | src/vacuum_filter.c:174-196 | range selection ends with the first power of two its test accepts, whatever that test is, or the first that covers the table |
| `VacuumCreate.ChooseRanges` | src/vacuum_filter.c:240-257 | the four ranges are powers of two, at least 2, the largest no larger than the table |
| `VacuumCreate.RangeIs` | src/vacuum_filter.c:174-257 | a range is the first power of two that is accepted or covers the table, at most the largest power of two in the table and at least 2 |
| `VacuumCreate.HalvingsLeast` | src/vacuum_filter.c:260-266 | the cap loop halves until the sizes fit 32 bits, and no longer |
| `VacuumCreate.CapBuckets` | src/vacuum_filter.c:260-266 | the cap loop divides by the least power of two that makes the sizes fit 32 bits |
| `VacuumCreate.AlignedIffLargest` | src/vacuum_filter.c:254-258 | all ranges divide the table exactly when the largest does |
| `VacuumCreate.CappedIffDivisible` | src/vacuum_filter.c:254-266 | after the cap loop the table is a whole number of chunks exactly when the number of chunks before was a multiple of the divisor |
| `VacuumCreate.HalvingMisaligns` | src/vacuum_filter.c:260-266 | 4100000000 hashes, four to a bucket: 32927 chunks of 32768 buckets, halved once; the filter is not usable, and a bucket is sent just past the end of the table |
| `VacuumCreate.Create` | src/vacuum_filter.c:212-293 | refused exactly for bad parameters; otherwise empty, with the selected ranges, sized as rounded and capped, and usable exactly when the cap divides the chunks evenly, in particular when it does not run |
| `CqfCodec.SymbolFacts` | src/cqf_filter.c:353-371 | symbols are never 0 and never the remainder, fit a slot and give back their digits |
| `CqfCodec.EncodingRoundTrip` | src/cqf_filter.c:334-386 | for every remainder and every count up to 2^64 - 1, between 1 and 65 symbols, none equal to the delimiter, the first below a positive remainder, and decoding gives the count without overflow |
| `CqfSpelling.BaseIs` | src/cqf_filter.c:343-353 | the base is the number of slot values other than 0 and the remainder |
| `CqfSpelling.SymbolIs` | src/cqf_filter.c:353-371 | a symbol stands for the number of smaller such values, and every digit has just one symbol |
| `CqfSpelling.RawIs` | src/cqf_filter.c:343-376 | the symbols written are the one shortest numeral of the count less 3 over these values |
| `CqfSpelling.EncodingIs` | src/cqf_filter.c:334-386 | with a 0 in front exactly when the first would not be below a positive remainder |
| `CqfSpelling.EntryIs` | src/cqf_filter.c:391-419 | and between the markers of its layout |
| `CqfSpelling.LengthByPowers` | src/cqf_filter.c:310-329 | n symbols are written exactly for the counts less 3 from the (n-1)-th to below the n-th power of the base, 2^r - 1 for remainder 0 and 2^r - 2 otherwise |
| `CqfSpelling.OneSymbol` | src/cqf_filter.c:310-329 | a count C below the base and 3 takes one symbol, the (C-2)-th of these values |
| `CqfCodec.EntryReadsIff` | src/cqf_filter.c:1376-1436 | an entry at the start of a longer run reads back exactly when what follows does not disturb it |
| `CqfCodec.ReadBackIff` | src/cqf_filter.c:1352-1447 | the same for the whole reader, with gap skipping and the length check |
| `CqfCodec.ReadBack` | src/cqf_filter.c:1352-1447 | a written entry whose run ends at its last slot reads back as its remainder and count, and reading stops just after it |
| `CqfCodec.PairMisread` | src/cqf_filter.c:1414-1447 | a run of two well-formed entries whose first is refused |
| `CqfSlots.Encode` | src/cqf_filter.c:334-386 | fill, reverse and shift leave the one encoding in the buffer, which never runs out |
| `CqfSlots.EncSlots` | src/cqf_filter.c:319-329 | the length of the one entry for the count |
| `CqfSlots.DecodeSymbols` | src/cqf_filter.c:426-462 | the decoding loop, in 64-bit arithmetic |
| `CqfSlots.Slots.WriteEntry` | src/cqf_filter.c:391-419 | writes exactly the slots of the one entry for the count and reports their number |
| `CqfSlots.Slots.DecodeEntry` | src/cqf_filter.c:1352-1447 | the reader's loops compute the specified reading, success and failure |
| `CqfSlots.Slots.WriteAndRead` | src/cqf_filter.c:391-419 | an entry written and read back gives its remainder and count, and the slot after it |
| `CqfSlots.Slots.DecodeZero` | src/cqf_filter.c:1374-1412 | its branch for remainder 0 |
| `CqfSlots.Slots.DecodePlain` | src/cqf_filter.c:1413-1436 | its branch for other remainders |
| `LruList.AddHeadRepresents` | src/ht_cache.c:9-17 | the pointer updates put the slot in front of the represented sequence |
| `LruList.UnlinkRepresents` | src/ht_cache.c:19-28 | the pointer updates take the slot out of the represented sequence, at either end or inside |
| `LruCache.KeyBits` | src/ht_cache.c:61-127 | the index key is the 48 low bits of the hash |
| `LruCache.Cache.LruAddHead` | src/ht_cache.c:9-17 | the list with the slot in front |
| `LruCache.Cache.LruRemove` | src/ht_cache.c:19-28 | the list without the slot |
| `LruCache.Cache.LruPromote` | src/ht_cache.c:30-34 | the list with the slot moved to the front |
| `LruCache.Cache.constructor` | src/ht_cache.c:134-209 | an empty cache: all slots free, nothing listed or indexed |
| `LruCache.Cache.Put` | src/ht_cache.c:235-261 | the entry goes in front; a full cache loses its last entry; a failed index insertion gives the slot back |
| `LruCache.Cache.Scan` | src/ht_cache.c:61-127 | the callback scan finds a matching entry exactly when one is cached |
| `LruCache.Cache.Get` | src/ht_cache.c:263-279 | a hit is moved to the front, a miss means no cached entry matches and changes nothing |
| `LruCache.Cache.Find` | src/ht_cache.c:281-297 | the same search without promotion |
| `LruCache.Cache.Promote` | src/ht_cache.c:299-304 | moves a cached slot to the front, ignores any other |
| `LruCache.Cache.Remove` | src/ht_cache.c:306-331 | removes one matching entry; false exactly when there is none |
| `LruCache.Cache.Evict` | src/ht_cache.c:333-345 | removes the entry whose last put or promotion is the oldest; false exactly when empty |
| `SegmentAlloc.ActEffect` | src/arena.c:533-641 | every atomic step takes one free slot, returns one slot the job owns, or leaves ownership alone |
| `SegmentAlloc.RunInv` | src/arena.c:533-641 | in every interleaving of allocations and frees, a slot is marked free exactly when no job owns it, and no two jobs own the same slot |
| `SegmentAlloc.AllocationsDisjoint` | src/arena.c:533-597 | completed allocations occupy disjoint slot ranges inside the segment |
| `SegmentAlloc.SlotsFillSegment` | src/arena.c:545-549 | the slots fill the segment behind its header, and the bitmap covers them |
| `SegmentAlloc.JobsAreFor` | src/arena.c:536-537 | in every run, a job is about the fewest slots that hold the size it was asked for |
| `SegmentAlloc.BytesDisjoint` | src/arena.c:533-597 | the bytes of completed allocations are disjoint, end inside the segment, and take no slot more than their size needs |
| `SegmentAlloc.NetIsOwned` | src/arena.c:558-573 | what a job owns is what it took less what it returned; a losing claim has returned exactly the slots it took |
| `SegmentAlloc.StepCounts` | src/arena.c:578-590 | a step keeps the counter exact except when it brings the total to 2^16 or more |
| `SegmentAlloc.CounterExact` | src/arena.c:578-638 | as long as totals fit 16 bits the counter shows the slots counted and not yet uncounted |
| `SegmentAlloc.QuietCounter` | src/arena.c:578-638 | with no call in flight, and never 64 frees at once, the counter is the number of taken slots |
| `SegmentSolo.SoloAllocation` | src/arena.c:533-597 | an allocation that runs undisturbed, from any state other jobs have left, takes the first room there is for the fewest slots that hold its size and clears exactly their bits; it fails exactly when there is none, and then changes nothing |
| `SegmentOverflow.CounterGoesWrong` | src/arena.c:578-638 | a run with 64 frees in flight that ends quiet, with all slots taken and the counter at 0 |

## Left out

- RSQF delete: it compacts inside one run only and leaves gaps, so the canonical layout does not survive it.
- `RsqfFilter.Create`: does not model the overflow of sizes for capacities near 2^64.
- htc growth, reseeding, old generations, chunk migration and the global stash: one generation only, with a fixed seed; where the code would grow after a full stash, insert reports the full stash.
- htc locks, the double unlock after a concurrent displacement, epochs and thread slots: the operations that write are sequential; only the bucket read protocol and find are interleaved with them.
- `HtcTable.Table.Insert`: the record index the arena hands out is a parameter, the arena a stable map from index to record; the membership filter in front of find and the size counter are not modelled.
- htc slot words: a slot is a value with index, tag, state and flag; the packing into 64 bits and the 32-bit wrap of record generations are not modelled. Which slots carry the heat bit is a parameter.
- C memory orderings: interleavings are sequentially consistent.
- `BareTable.Table.InsertUnbounded`: in rings of 65536 slots or more without an empty slot the hash has to fit. A ring without room, where the code rebuilds the table from inside the loop, is not modelled.
- `BareTable.Table.InsertBounded`: in rings of more than 65536 slots entries and tombstones together must be fewer than 65536, so that an empty slot is in reach; `BareTable.Table.Insert` asks the same, and at most 32768 entries where it rebuilds.
- `BareTable.Table.Resize`: load-factor arithmetic and failing allocations are not modelled.
- `BareTable.Table.RemoveHash`: where compaction can shift entries, the step condition is sufficient only.
- `HtcConcurrentFind.FindComplete`: the condition is sufficient only, and so is that of `HtcConcurrentFind.UnmovedKeyFound`.
- `HtcFindValue.ValueOfReloadedKey`: that a record the reader may hold is not taken back is what the epochs promise; how they keep it is not modelled.
- ht iteration and the key-value layer above the bare table: they would only add easy members.
- `VacuumFilter.Filter.Insert`: requires ranges aligned with the table; without that the code reads and writes outside its table.
- `VacuumCreate.Create`: the rounded quotient of capacity and bucket size is a parameter within a tenth of the exact one; `CuckooFilter.Create` takes its rounded entry count in the same way.
- Cuckoo and vacuum false-positive rates, reset, statistics.
- CQF insert, delete, merge, resize and its rank and select layer: runs of several entries do not parse entry by entry (`PairMisread`), and the rank and select layer is that of the RSQF.
- `CqfCodec.EncodingRoundTrip`: remainder widths 2 to 31; at 32 the code passes digits through a signed int.
- LRU cache: the bare table is the bag of its pairs, and the order of its scans is a parameter; capacity is below 2^32 - 1; clear and iteration are not modelled.
- Segment allocator: a free is called with the size of its allocation, and sizes near 2^64, whose rounding wraps, are not modelled; segment creation and the evacuation flag are not modelled, nor are slabs, thread caches and compaction.
- Bloom filter, key-value wrappers, statistics, dumps: easy, input/output or floating point only.
