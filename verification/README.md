# RingDB: a verified model

RingDB is an LSM tree for one machine. Clients' requests are collected into batches by a network thread, answered from
memtables or passed on by a main thread, and then pushed down the levels of SSTables by worker threads. Full memtables
become SSTables by way of an implicit search tree, page-cache buffers wander between SSTables, and wait queues connect
the threads. This project models that logic and proves what it is meant to guarantee.

## How to read it

- `FrontEnd`, `MemTable`, `RequestPool`, `SortedInsert`: requests in memory.
- `CompactionPlacement`, `CompactionProgress`, `NewestWins`, `LatestReads`, `LevelRouting`, `RoutingLaws`, `BloomFilter`: which SSTable a compaction or
  a read goes to, and what a read ends with.
- `SSTableTree`, `BatchTraversal`, `TraversalStack`, `Logs`: the file as a search tree, its construction, the descent, and
  the walk over a batch.
- `PageCache`, `CachedSearch`, `CachedBatch`, `FetchWindow`: the descent through the page cache.
- `WaitQueue`, `WaitQueueProgress`, `WaitQueueRaces`: the producer/consumer queue as interleaved atomic steps.
- `BatchLifecycle`, `BatchProgress`, `BatchFlow`: clients and batches from accept to close.
- `BufferQueue`, `BufferShares`, `BufferTransfer`, `BufferRoom`, `BufferCounters`, `BufferAmounts`, `BufferMoves`: page-cache
  buffers on the move.
- `Entries`, `KeyBytes`, `Products`, `Multisets`: shared definitions and arithmetic.

`dafny verify dfyconfig.toml` checks everything.

Keys and values are numbers: the big-endian readings of the fixed-length byte strings (`KeyBytes` shows that memcmp and
the null key carry over). File offsets are entry indices except in `FetchWindow`. Atomics are sequentially consistent
steps. A read completion delivers min(buffer length, file size - offset) of an immutable file. The hash functions, the
level factor, sizes and capacities are parameters.

## The design and the lines as written

The source is a prototype: in places a line does something else than the comments and the concept files beside it say.
The main theorems are about the documented design. Where the line as written matters, its own behaviour is modelled too
(members named `Written...`, `...AsWritten`, or with a concrete state), with the exact condition under which it agrees.
The design differs from the code in these points.

- Tree build (`request_segment.hpp`): children are copied from the child's index, slots are scaled to entries, the slot
  of a frame travels in the frame (the parallel index reaches -1 at line 38), the right half starts at `current + 1`.
- Stack (`stack.hpp:22-24`): `top` is the row pushed last; `lsm_tree.hpp:255-256` means fields 1 to 3.
- Descent (`lsm_tree.hpp`): the absolute slot is doubled (362), progress is kept (304 discards what 371 saved), every
  request starts at the root (resuming at the parent's slot is sound exactly under `ResumeSoundExactly`), offsets are
  rounded down (223-224, see `RoundAsWrittenExactly`), and the comparison that ends the loop is the one made at the slot
  it ends on (at a null slot, or past the page, `res` at 353-373 is stale or uninitialised).
- Decompose (`level_info.hpp`): a missing part is created (68 tests the inverse), the skip part is index LEVEL_FACTOR (79,
  95), the greatest key is included (65), the first empty table is taken (108, see `WrittenClaimsMissFirst`), keys step by
  one entry (114). A batch of skipped requests only would keep `lsm_tree.hpp:1116` looping. The loop over a table does
  not look at marks and the second loop (90-100) sets none; both are modelled as they are: with overlapping ranges a
  request gets a copy without client in every later part, and an input batch keeps unmarked entries, harmless because
  it is retired (`DecomposeIsStep`) and, in the source, never freed.
- Key ranges: the range of a flushed table is recorded in the sparse index (`RangesRecorded`). As written a compaction fills
  the filter only (`level_info.hpp:107-121`); the one call of `insert_range` is at start-up (`lsm_tree.hpp:542`), and an
  empty file then has the greatest key as its least and the null key as its greatest (596-601), so no table flushed at run
  time is ever searched. The model keeps recorded ranges apart from contents; see `UnrecordedRangesReadNothing`.
- Pool search (`readwrite_pool.hpp:79-87`): keys of the index are compared without the offset of 5, and a lower bound is
  returned (see `FindIndexAsWritten`).
- Page cache (`sstable_cache_helper.hpp`): right ends are open (54), the insertion covers all places (77, 88), inverse
  positions follow the shift (87-107), the eviction id starts at 0 (19, 33), removal keeps the recorded count (120, see
  `CutLosesNothingExactly`) and takes only free buffers from the free count (112, see `RemovalAccounting`). Buffer ids are not reused,
  which is modelled as it is: a long-lived index fills up (`Search` then says `IndexFull`), and after an eviction a page can go
  into a buffer the SSTable does not own (`PerformAll` says when, `EvictedIdLeavesStock` is a case).
- End of file: a short read marks its right end (`lsm_tree.hpp:706` adds one, harmless by `NoFalseEndOfFile`), and a
  prefetch completes only behind a nonempty read (see `EmptyPrefetchForgetsEnd`). Each chunk is recorded under the buffer
  it was read into (689, see `PrefetchIdExactly`).
- Wait queue: acquiring a guard takes it from 1 to 0 (callers exchange 0 for 1, `lsm_tree.hpp:743`), `back` always follows
  an append (90, see `AppendsKeepLinksExactly`), the size is compared as signed (137). The discipline that the FIFO theorem asks for is not enforced by
  the code; `WaitQueueRaces` shows that dropping any part of it breaks the queue, and `RunSoundExactly`
  which interleavings keep it.
- Worker: a finished flush and a finished read clear `waiting_on_io` (`lsm_tree.hpp:684-686`; 688-721 leave it set, so the loop
  ending at 384 makes one turn and the SSTable can hang); the caller's batch pointer is replaced
  (1045-1047).
- Network: a request that finds the batch full goes into the next one (1399-1407, see `WrittenReceiveConservesExactly`);
  a submitted send is recognised as SEND (1412), which the entries are never set to.
- Buffers: the new-buffer count is not shadowed (1096), the limit of new buffers is the conditional that 1092 means (`?:` as written
  pops from an empty queue), leftover new buffers go to the last SSTable served or back into the stock (1190, 1207),
  shares are fractions (1063, see `WrittenShareExactly`), the counter follows adoption and hand-down (`exact`; as
  written it drifts, see `CountersOverRuns` and `GiftCoveredExactly`), and taking new buffers in stops at the end of the queue and
  uses a new place for each (1010-1013 tests a pointer and keeps overwriting one place). The remark that an SSTable never runs out (864) is false; see
  `RunsOutExactly`. After a gift or a hand-down the index one past the stock is not raised again: `++insert_buffers_from`
  (893-895, 1226-1228) leaves the lowest buffer given in the stock too (`WrittenGiftIsKeptExactly`,
  `WrittenHandDownIsKeptExactly`, `RunAddsKept`) and passes ids one too high to the page cache (`GiveUpBuffersAsWritten`).
  The hand-out ends when every SSTable with a batch was served: `num_req_batches` counts the skip part too, so with one the
  loop at 1170 never ends. A guard taken is given back also when there is nothing to give (869 does not), with another
  value than taking it stores (both store 1: 825, 838, 872, 886, 1112, 1215), and a failed exchange does not make the next
  one succeed (it leaves 1 in the value compared with).
- Ring queue (`buffer_queue.hpp:34-46`): push stores before it advances (see `WrittenStreamIsLate`). Nothing checks for
  room before a push; that is modelled as it is (`StepConservesExactly`, `FullRingLosesBuffer`).
- Bloom filter (`bloom_filter.hpp:297`): a set bit counts one (see `WrittenCheckExactly`).
- Memtable (`memtable.hpp`): midpoints and shifts by whole entries (17, 36, 58), the key is stored (47), emptying resets
  the size (68).

Some facts hold of the design itself. A memtable that took several writes of one key makes an SSTable whose descent may
return an older one; `FileAnswersVersion` says which, and the read theorems say exactly when the answer is the last
write. Two writes of one key in one network batch take effect in reverse (`FirstArrivalWins`), so the history in the
read theorems is the order in which the main thread handles requests. Rings and stocks have a fixed length and can
overflow; conservation holds exactly while they do not. With overlapping ranges the SSTables of a level answer into one
shared field in no fixed order; `EveryOrderExactly` says when that makes no difference.

## Model

| member | source | states |
|---|---|---|
| `FrontEnd.EveryReadIsNewest` | lsm_tree.hpp:933-956 | Memtable and SSTables together, once every compaction has landed, for any recorded ranges and any order of answers within a level: every read gets the last write of the whole history if and only if the memtable answers it, or the key was never compacted, or some file with it has a range that covers it and all such files of the deepest level meet a version with the value of the last write |
| `LatestReads.EveryRunReadsLastWrite` | lsm_tree.hpp:752-810 | The same for every run of arrivals and level-by-level hand-overs from the empty database, in any interleaving, when nothing is waiting any more |
| `LatestReads.ReadReturnsLastWrite` | lsm_tree.hpp:933-978 | The same for any quiescent state that satisfies the placement invariant, repeated keys and overlapping ranges allowed |
| `LatestReads.RecordedRangesReadLatest` | aux_data_structures/aux_data_structures_impls/level_info/level_info.hpp:107-121 | As designed, with the range of every flushed table recorded: the SSTables find a key if and only if it was ever compacted; with ranges disjoint within a level only the latest file with the key matters |
| `LatestReads.UnrecordedRangesReadNothing` | lsm_tree.hpp:596-601 | As written, with the ranges an empty file has at start-up: every read of the SSTables comes back empty, and a client gets the last write if and only if the memtable has the key or no compacted memtable ever took it |
| `LatestReads.SSTablesReturnLastWrite` | lsm_tree.hpp:373-402 | The SSTables alone: found if and only if some file with the key has a range that covers it; the last write in every order of answers if and only if all such files of the deepest level meet it |
| `NewestWins.NewestCompactionWins` | lsm_tree.hpp:373-402 | In every reachable placement whose recorded ranges are disjoint per level, a read through all levels, overwriting on each hit, ends with the answer of the flushed compaction with the greatest number that holds the key inside its recorded range |
| `NewestWins.EveryOrderExactly` | lsm_tree.hpp:373-402 | For any ranges: a read ends with one particular value in every order of answers if and only if all compactions of the deepest level with an answer answer it |
| `NewestWins.ReadEndsOnDeepest` | lsm_tree.hpp:373-402 | For any ranges and any order of answers a read ends with an answer from the deepest level that has one |
| `NewestWins.NothingWhenNoHolder` | lsm_tree.hpp:378-395 | If no flushed compaction holds the key inside its recorded range, the request is left untouched, whatever the filters say |
| `NewestWins.InterleavedReadNotStale` | lsm_tree.hpp:752-810 | A read that visits the levels while compactions land under it ends with the answer of a compaction at least as deep as any that could answer when it began, flushed by the time it ends, and with disjoint ranges at least as new |
| `LatestReads.FileAnswersVersion` | lsm_tree.hpp:353-377 | A file answers with the version of the key at the first midpoint of the halving that meets its versions; that is the last write of its memtable if and only if that version is the newest or has its value |
| `LatestReads.OneVersionAnswersLatest` | lsm_tree.hpp:353-377 | One write of the key, or equal values throughout, is always answered right |
| `NewestWins.RunOnlyGrows` | lsm_tree.hpp:786-810 | Over any run, what has landed stays where it is, and the placement invariant holds at the end |
| `NewestWins.AnswersExactly` | aux_data_structures/aux_data_structures_impls/level_info/level_info.hpp:59-86 | A table that holds a key is searched if and only if its recorded range covers the key, and a table answers if and only if it holds the key and its range covers it |
| `NewestWins.SearchedIsAdmitted` | aux_data_structures/aux_data_structures_impls/level_info/level_info.hpp:59-86 | The tables a read searches are exactly those whose part of the decomposition gets a copy of the request |
| `CompactionPlacement.CompactionLandsInOrder` | aux_data_structures/aux_data_structures_impls/level_info/level_info.hpp:107-128 | From the empty database, after any run, the SSTable at level l, index i can only hold compaction l * factor + i |
| `CompactionPlacement.StepKeepsInv` | lsm_tree.hpp:786-810 | Every arrival and every level step keeps: slots filled left to right, waiting compactions consecutive, counts adding up |
| `CompactionPlacement.StepFillsOnlyEmpty` | lsm_tree.hpp:786-804 | No SSTable is written twice: a step never changes a filled slot |
| `CompactionPlacement.DropOnlyWhenFull` | lsm_tree.hpp:805-810 | A compaction is dropped only when every SSTable of every level already holds one |
| `CompactionPlacement.QuiescentAllLanded` | lsm_tree.hpp:786-810 | With nothing waiting and no more compactions than SSTables, compaction n is at level n / factor, index n % factor |
| `CompactionProgress.EveryCompactionCanLand` | lsm_tree.hpp:786-810 | After any run the levels can go on, with no further arrival, until nothing waits; then every memtable that was compacted is in the SSTable of its number, unless there were more than SSTables |
| `CompactionProgress.EveryArrivalCounts` | lsm_tree.hpp:786-804 | As many compactions have arrived as memtables were compacted |
| `CompactionPlacement.WrittenClaimsMissFirst` | aux_data_structures/aux_data_structures_impls/level_info/level_info.hpp:108-121 | As written (post-increment past the empty table) any number of compactions picks table 1 only and leaves the first filter empty, so a read, which stops at the first empty filter, reaches no SSTable |
| `SSTableTree.SlotBijection` | aux_data_structures/aux_data_structures_impls/sstable/request_batch/request_segment.hpp:34-58 | Sorted positions and occupied slots correspond one to one, both directions, for every table size |
| `SSTableTree.PowerOfTwoFillsSlots` | aux_data_structures/aux_data_structures_impls/sstable/request_batch/request_segment.hpp:23-58 | A table of 2^k entries occupies exactly the slots below 2^k |
| `SSTableTree.FitsAnySize` | aux_data_structures/aux_data_structures_impls/sstable/request_batch/request_segment.hpp:23-58 | A table of any size below 2^h fits the first 2^h - 1 slots |
| `SSTableTree.InorderRoundTrip` | aux_data_structures/aux_data_structures_impls/sstable/request_batch/request_segment.hpp:18-61 | An inorder walk of the built file gives the sorted memtable back |
| `SSTableTree.InsertMemtable` | aux_data_structures/aux_data_structures_impls/sstable/request_batch/request_segment.hpp:18-61 | The stack-driven build loop fills the array with exactly the layout, every other slot null, and the stack never overflows stack_depth rows |
| `SSTableTree.PushChildren` | aux_data_structures/aux_data_structures_impls/sstable/request_batch/request_segment.hpp:40-59 | One turn of the build: both children pushed, their entries written, nothing else changed |
| `SSTableTree.FindIsLookup` | lsm_tree.hpp:346-381 | Layout then 2i + 1 / 2i + 2 descent equals linear lookup in the memtable: same hits, same values, same misses |
| `SSTableTree.ResumeSoundExactly` | lsm_tree.hpp:264-286 | Resuming at a saved slot gives the answer from the root if and only if the key lies strictly inside that slot's interval or is not in the table |
| `SSTableTree.ResumeAtParentSlotMisses` | lsm_tree.hpp:264-272 | Three entries suffice for a child request, started at the slot where its parent stopped, to miss a present key |
| `SSTableTree.FindWithRepeatedKeys` | lsm_tree.hpp:353-377 | With repeated keys in one memtable the descent still finds the key exactly when present, with the value at the run's first midpoint |
| `SSTableTree.RepeatedKeysExactly` | lsm_tree.hpp:353-377 | Which of several equal keys is met depends on positions alone (the first midpoint inside the run); the answer is the newest if and only if that is the first of the run or has its value |
| `SSTableTree.RepeatedKeyReadsStale` | lsm_tree.hpp:353-377 | Two writes of one key in one memtable: the flushed file answers with the older value |
| `BatchTraversal.PreorderCovers` | lsm_tree.hpp:253-274 | With the source's own child ranges the halving walk visits exactly the indices of the batch |
| `BatchTraversal.PreorderLength` | lsm_tree.hpp:253-274 | Between n and 2n - 1 visits for n requests |
| `BatchTraversal.PreorderRevisits` | lsm_tree.hpp:259-266 | Three requests already revisit one |
| `BatchTraversal.MoveDownToChildren` | lsm_tree.hpp:253-274 | The finished request is replaced by its children, left on top, within the stack bound |
| `BatchTraversal.SearchFile` | lsm_tree.hpp:351-381 | The descent loop stops where the recursive descent does and answers the same |
| `BatchTraversal.RunStack` | lsm_tree.hpp:294-384 | Runs the stack empty and terminates: a request of the plan whose key the file finds has its value, every other field is as it was |
| `BatchTraversal.AnswerBatch` | lsm_tree.hpp:777-783 | For every batch of n >= 1 requests: a request whose key the file finds receives its value, any other keeps its field; never more than max(1, ceil(log2 n)) stack rows |
| `BatchTraversal.AnswerBatchOfTable` | lsm_tree.hpp:373-381 | Against the file of a table: each request receives the value of the table entry with its key, and keeps its field if there is none |
| `CachedBatch.AnswerBatchCached` | lsm_tree.hpp:288-384 | A whole batch through the page cache: a request whose key the file finds receives its value if the batch gets through, and that or its old field otherwise; any other keeps its field; with windows on page boundaries, a buffer and room for 2n - 1 searches it gets through |
| `CachedBatch.AnswerBatchCachedOfTable` | lsm_tree.hpp:373-381 | The same against the file of a table, by its entries |
| `CachedBatch.CostIsSmall` | lsm_tree.hpp:346-372 | The room for k searches of a file of fewer than 2^h entries is at most k (2h + 2) pages |
| `TraversalStack.Stack.PushTop` | aux_data_structures/aux_data_structures_impls/sstable/stack/stack.hpp:14-20 | A row is added on top; needs a free row |
| `TraversalStack.Stack.Top` | aux_data_structures/aux_data_structures_impls/sstable/stack/stack.hpp:22-24 | The row pushed last |
| `TraversalStack.Stack.PopTop` | aux_data_structures/aux_data_structures_impls/sstable/stack/stack.hpp:26-28 | The top row is removed |
| `TraversalStack.Stack.Empty` | aux_data_structures/aux_data_structures_impls/sstable/stack/stack.hpp:30-32 | True exactly for the empty stack |
| `Logs.Log2Ceil` | constinit_constants.hpp:8-16 | Least exponent whose power covers the argument, up to 2^31 |
| `Logs.Log2Floor` | constinit_constants.hpp:18-22 | Is the floor if and only if 2x <= 2^31 or x = 2^31; otherwise answers 31 (signed shift) |
| `Logs.DepthNeedHalf` | constinit_constants.hpp:43-44 | Halving a range of three or more saves a stack row: why stack_depth suffices |
| `Logs.StackDepth` | constinit_constants.hpp:43-44 | stack_depth is the rows a traversal of two or more entries needs |
| `FetchWindow.FetchHoldsEntry` | lsm_tree.hpp:316-321 | For all positive entry, block and fair sizes, the window at the offset rounded down to a block, of the lcm length, holds the whole entry |
| `FetchWindow.WindowHoldsEntry` | constinit_constants.hpp:59-65 | The same for any positive common multiple as length |
| `FetchWindow.LcmIsCommonMultiple` | constinit_constants.hpp:63-65 | a / gcd * b is a positive common multiple |
| `FetchWindow.LcmIsLeast` | constinit_constants.hpp:63-65 | Every common multiple is a multiple of it |
| `FetchWindow.BufferLengthIsLeast` | constinit_constants.hpp:63-65 | The buffer length is the shortest that is a multiple of the fair size, the entry size and the block size |
| `FetchWindow.GcdIsGreatest` | constinit_constants.hpp:63-65 | Every common divisor divides the gcd |
| `FetchWindow.BufferLength` | constinit_constants.hpp:63-65 | The buffer length is positive and a multiple of the entry size and of the block size |
| `FetchWindow.WindowsStartAtEntriesExactly` | lsm_tree.hpp:346-352 | No window starts inside an entry if and only if one of the two sizes divides the other |
| `FetchWindow.AndBandMask` | lsm_tree.hpp:213-220 | Masking with the bits lo .. hi - 1 keeps exactly those bits, for all numbers |
| `FetchWindow.RoundAsWrittenExactly` | lsm_tree.hpp:222-225 | With the mask as written an offset becomes its low p - 1 bits, which is the rounded offset if and only if the offset is 0 or half a block |
| `PageCache.CacheHelper.GetBufferInfo` | aux_data_structures/aux_data_structures_impls/sstable/sstable_cache_helper/sstable_cache_helper.hpp:37-56 | A hit is a live recorded interval containing the offset, at the split point of the binary search |
| `PageCache.CacheHelper.MapBuffer` | aux_data_structures/aux_data_structures_impls/sstable/sstable_cache_helper/sstable_cache_helper.hpp:62-109 | The interval is inserted at the split point, all inverse positions stay true, counters follow |
| `PageCache.CacheHelper.ShiftIn` | aux_data_structures/aux_data_structures_impls/sstable/sstable_cache_helper/sstable_cache_helper.hpp:87-103 | The shift loop inserts without losing a location and repoints the inverse array |
| `PageCache.CacheHelper.ReplenishOldest` | aux_data_structures/aux_data_structures_impls/sstable/sstable_cache_helper/sstable_cache_helper.hpp:30-35 | Exactly the oldest live buffer is dropped; inverse array stays true |
| `PageCache.CacheHelper.RemoveBufferRange` | aux_data_structures/aux_data_structures_impls/sstable/sstable_cache_helper/sstable_cache_helper.hpp:111-136 | Exactly the ids from id1 on are dropped; inverse array stays true; the next page goes into id1 or before, into buffer 0 if the eviction point had passed id1; free and live buffers still add up to those owned if and only if all from id1 on were removed |
| `PageCache.CacheHelper.RemoveBufferRangeAsWritten` | aux_data_structures/aux_data_structures_impls/sstable/sstable_cache_helper/sstable_cache_helper.hpp:111-136 | The same drop and the same next id with the whole range taken from the free count |
| `PageCache.EvictedIdLeavesStock` | lsm_tree.hpp:309-321 | Ids go up past an eviction and are not used again: three pages, one buffer given away, one eviction, and the next page is read into the buffer given away |
| `PageCache.CacheHelper.FirstEndingAfter` | aux_data_structures/aux_data_structures_impls/sstable/sstable_cache_helper/sstable_cache_helper.hpp:38-48 | The binary search ends at a split point even if the array is not in order |
| `PageCache.MapKeepsOrderExactly` | aux_data_structures/aux_data_structures_impls/sstable/sstable_cache_helper/sstable_cache_helper.hpp:62-109 | Mapping keeps the intervals sorted if and only if no recorded interval, live or removed, ends strictly inside the new one |
| `PageCache.MappedPageIsHit` | aux_data_structures/aux_data_structures_impls/sstable/sstable_cache_helper/sstable_cache_helper.hpp:37-56 | In order, a lookup inside a page just mapped returns that page |
| `PageCache.MissMeansHidden` | aux_data_structures/aux_data_structures_impls/sstable/sstable_cache_helper/sstable_cache_helper.hpp:49-55 | In order, a live interval around an offset is missed only behind a removed or later-starting one |
| `PageCache.AlignedWindowsNeverEndInside` | aux_data_structures/aux_data_structures_impls/sstable/sstable_cache_helper/sstable_cache_helper.hpp:62-109 | With windows on page boundaries no recorded window, live or removed, ends inside a new one |
| `PageCache.AlignedRunStaysOrdered` | aux_data_structures/aux_data_structures_impls/sstable/sstable_cache_helper/sstable_cache_helper.hpp:30-136 | Over any run of mappings, evictions and removals of windows on page boundaries the array stays in order |
| `PageCache.HitSurvives` | aux_data_structures/aux_data_structures_impls/sstable/sstable_cache_helper/sstable_cache_helper.hpp:37-56 | A page mapped behind the one a lookup hits does not hide it |
| `PageCache.EvictedWindowBreaksOrder` | aux_data_structures/aux_data_structures_impls/sstable/sstable_cache_helper/sstable_cache_helper.hpp:30-35 | A concrete eviction after which mapping a block-aligned window breaks the order |
| `PageCache.CutLosesNothingExactly` | aux_data_structures/aux_data_structures_impls/sstable/sstable_cache_helper/sstable_cache_helper.hpp:114-129 | The cut as written loses no live interval if and only if every live interval beyond place id1 is itself removed |
| `PageCache.CutLosesLiveBuffer` | aux_data_structures/aux_data_structures_impls/sstable/sstable_cache_helper/sstable_cache_helper.hpp:114-129 | A concrete state where the cut loses a live interval |
| `PageCache.RemovalAccounting` | aux_data_structures/aux_data_structures_impls/sstable/sstable_cache_helper/sstable_cache_helper.hpp:111-112 | For every id1, before or after the eviction point: the designed removal keeps free = stock - live, the written one if and only if no page from id1 on was live |
| `CachedSearch.CachedFile.Search` | lsm_tree.hpp:288-384 | From any valid state, whatever is cached, evicted, read and prefetched: an answer equals the uncached descent of the immutable file; otherwise the index has no room or there is no buffer; with windows on page boundaries each visited slot is fetched at most once, so a buffer and that much room guarantee an answer |
| `CachedSearch.PerformAll` | aux_data_structures/aux_data_structures_impls/sstable/sstable_cache_helper/sstable_cache_helper.hpp:30-136 | After any sequence of lookups, fetches, evictions, buffers taken in and given up, every answer is what reading the file directly gives; as long as buffers are given up from the last one down, each page was read into a buffer owned at that moment if and only if fewer ids were evicted by then than buffers were free |
| `CachedSearch.CachedFile.Visit` | lsm_tree.hpp:294-384 | One turn of the loop: a hit ends the search or at least doubles the slot, a miss makes the slot ready to be hit |
| `CachedSearch.VisitsAreFew` | lsm_tree.hpp:346-372 | A file of fewer than 2^h entries is left after at most h + 1 visits |
| `CachedSearch.CachedFile.CompleteRead` | lsm_tree.hpp:688-715 | A completion keeps every live page a true copy of its interval and the known end at or beyond the file size |
| `CachedSearch.CachedFile.ReadFromStorage` | lsm_tree.hpp:309-343 | A miss evicts if and only if no buffer is free, reads the window of the slot and, with just two buffers free, the one twice as far ahead, and nothing else; one more page is recorded, or the known end is at or before the slot; on page boundaries the slot is then hit or beyond the end |
| `CachedSearch.CachedFile.DescendInPage` | lsm_tree.hpp:346-372 | Descending inside one page reaches the same stop slot as descending in the file |
| `CachedSearch.CachedFile.GiveUpBuffers` | lsm_tree.hpp:890-895 | Pages in buffers given away are forgotten, the others stay true copies whatever is then read into the ones given; the next page goes into id1 or before; free and live counts exactly; a buffer is left if and only if fewer are given than there are and no more than are free or live from id1 on |
| `CachedSearch.CachedFile.GiveUpBuffersAsWritten` | lsm_tree.hpp:893-895 | As written the lowest buffer given keeps its page in the index: whatever the other SSTable reads into it, the pages stay true copies if and only if the buffer had no live page |
| `CachedSearch.GivenPageOverwrittenExactly` | lsm_tree.hpp:1226-1228 | For one particular read into that buffer: if and only if it had no live page or the same entries are read |
| `CachedSearch.NoFalseEndOfFile` | lsm_tree.hpp:688-715 | Full, short and empty reads in any order never put the known end before the file size, and a last short read pins it |
| `CachedSearch.EmptyPrefetchForgetsEnd` | lsm_tree.hpp:708-714 | After two empty reads of one miss the known end is beyond the slot again if and only if the slot lies before the prefetched window, w = 0 included |
| `CachedSearch.PrefetchIdExactly` | lsm_tree.hpp:689-696 | Recording the second chunk under the id as written keeps every page a true copy if and only if the first chunk was empty or the named buffer holds the same entries already |
| `WaitQueue.QueueIsFifo` | aux_data_structures/aux_data_structures_impls/sstable/request_batch/request_batch_wait_queue.hpp:31-153 | Over every disciplined interleaving of one producer and one consumer: no access to null or freed nodes; the batches of the calls that went on, read off the steps, are popped, listed and under way, in that order; size = listed - uncounted - in flight - overdrawn; no leaked node |
| `WaitQueue.PushesAsCalled` | aux_data_structures/aux_data_structures_impls/sstable/request_batch/request_batch_wait_queue.hpp:31-122 | Over every interleaving, disciplined or not, what is linked is what the calls that went on were made with, in their order, but for one that may be under way |
| `WaitQueueProgress.EveryBatchCanBeDelivered` | aux_data_structures/aux_data_structures_impls/sstable/request_batch/request_batch_wait_queue.hpp:31-153 | Every disciplined run can go on, with no new push, until every batch of a call that went on is popped, in order |
| `WaitQueue.StepKeepsInv` | aux_data_structures/aux_data_structures_impls/sstable/request_batch/request_batch_wait_queue.hpp:31-153 | Every atomic step of producer and consumer keeps the joint invariant |
| `WaitQueue.AppendChain` | aux_data_structures/aux_data_structures_impls/sstable/request_batch/request_batch_wait_queue.hpp:61-61 | Appending behind back extends the chain and touches no other node |
| `WaitQueue.TailChain` | aux_data_structures/aux_data_structures_impls/sstable/request_batch/request_batch_wait_queue.hpp:138-140 | Advancing front drops exactly the first node |
| `WaitQueueRaces.SlackIsTight` | aux_data_structures/aux_data_structures_impls/sstable/request_batch/request_batch_wait_queue.hpp:59-65 | Whatever size above one was loaded, as many consumptions as nodes before the link make the link write through a freed node |
| `WaitQueueRaces.DisciplineCounts` | aux_data_structures/aux_data_structures_impls/sstable/request_batch/request_batch_wait_queue.hpp:59-65 | The discipline between a size load of k and the link: a consumption may claim a node if and only if, with it, fewer than k have |
| `WaitQueueRaces.SizeOneThenConsumedTouches` | aux_data_structures/aux_data_structures_impls/sstable/request_batch/request_batch_wait_queue.hpp:86-95 | Size loaded as one, a whole consumption, then the guard check: the link writes through a freed node |
| `WaitQueueRaces.StaleZeroLosesBatch` | aux_data_structures/aux_data_structures_impls/sstable/request_batch/request_batch_wait_queue.hpp:79-84 | A stale zero size behind a missed consumption overwrites front and loses a batch |
| `WaitQueueRaces.SkipPushTouches` | lsm_tree.hpp:1138-1144 | The unguarded push of the skip batch can link behind a claimed node that is then freed |
| `WaitQueueRaces.RunSoundExactly` | aux_data_structures/aux_data_structures_impls/sstable/request_batch/request_batch_wait_queue.hpp:31-153 | Over every interleaving, disciplined or not, the queue stays a sound FIFO at every step if and only if each link finds the list it was chosen for and each consumption that goes on finds a node |
| `WaitQueueRaces.LinkBehindSoundExactly` | aux_data_structures/aux_data_structures_impls/sstable/request_batch/request_batch_wait_queue.hpp:59-65 | A link behind back keeps memory, FIFO and consumer sound if and only if the list is not empty and not down to one node whose successor the consumer has read |
| `WaitQueueRaces.LinkAloneSoundExactly` | aux_data_structures/aux_data_structures_impls/sstable/request_batch/request_batch_wait_queue.hpp:79-84 | A link as the only node does if and only if the list is empty |
| `WaitQueueRaces.UnsignedSizePopsNull` | aux_data_structures/aux_data_structures_impls/sstable/request_batch/request_batch_wait_queue.hpp:137-139 | With the unsigned comparison as written a consumer reads through null if and only if the list is empty |
| `WaitQueueRaces.BackLeftBehindLosesBatch` | aux_data_structures/aux_data_structures_impls/sstable/request_batch/request_batch_wait_queue.hpp:86-95 | A run from the empty queue: as written the third push overwrites the link to the second batch |
| `WaitQueueRaces.AppendKeepsLinksExactly` | aux_data_structures/aux_data_structures_impls/sstable/request_batch/request_batch_wait_queue.hpp:86-95 | An append keeps the list linked up if and only if back was its last node |
| `WaitQueueRaces.AppendsKeepLinksExactly` | aux_data_structures/aux_data_structures_impls/sstable/request_batch/request_batch_wait_queue.hpp:86-95 | A series of appends keeps the list if and only if every one but the last moved back: the size-one branch as written is right if and only if nothing is appended behind it |
| `BatchLifecycle.ExactlyOnce` | lsm_tree.hpp:1396-1487 | After any run every accepted client is counted exactly once over live entries of active batches, pending sends and answers; a batch is freed at most once, with no send pending, exactly when num_sent reaches length |
| `BatchProgress.EveryClientCanBeAnswered` | lsm_tree.hpp:1396-1487 | After any run some further run, of arrivals, batches handed on, completions and sends only, answers every client accepted |
| `BatchProgress.HandStartsEmpty` | lsm_tree.hpp:1402-1407 | Handing on starts another batch, active and empty, and changes none: a client can be received and the batch handed on can be completed |
| `BatchProgress.ReceiveJoinsFilling` | lsm_tree.hpp:1396-1401 | A client joins the batch being filled at its place and changes no other |
| `BatchProgress.SplitStartsParts` | aux_data_structures/aux_data_structures_impls/level_info/level_info.hpp:42-106 | A decomposition leaves one new batch for each part, holding just that part |
| `BatchLifecycle.StepKeepsInv` | lsm_tree.hpp:1396-1487 | Accept, hand over, move, decomposition, completion and send completion each keep the conservation law |
| `BatchLifecycle.MoveKeepsClients` | lsm_tree.hpp:944-956 | Moving an entry to another batch changes who holds the client, not which clients there are |
| `BatchLifecycle.SplitKeepsClients` | aux_data_structures/aux_data_structures_impls/level_info/level_info.hpp:42-106 | A decomposition retires its input and hands every live client on to the parts |
| `BatchFlow.DecompositionIsSplit` | aux_data_structures/aux_data_structures_impls/level_info/level_info.hpp:53-106 | What decompose leaves, with or without overlapping ranges, holds exactly the clients live in the input |
| `BatchFlow.DecomposeIsStep` | aux_data_structures/aux_data_structures_impls/level_info/level_info.hpp:53-106 | So decompose is an enabled step of the lifecycle and keeps its invariant, whatever marks stay in the input |
| `BatchFlow.SocksAt` | aux_data_structures/aux_data_structures_impls/level_info/level_info.hpp:53-106 | The sockets the lifecycle counts are those of the requests |
| `BatchFlow.DispatchIsRun` | lsm_tree.hpp:933-978 | Dispatching a batch is a run of moves: exactly the reads that go on move to the read batch, nothing else changes |
| `BatchLifecycle.CompleteBatch` | lsm_tree.hpp:1454-1480 | The completion loop submits exactly the live entries and counts exactly the moved ones |
| `BatchLifecycle.WrittenReceiveConservesExactly` | lsm_tree.hpp:1396-1407 | As written an arriving client keeps its one place if and only if the batch had room |
| `FrontEnd.MainThread.Dispatch` | lsm_tree.hpp:933-978 | The loop over a batch: each request blanked, answered, marked and passed on, or written, against the state after the requests before it; afterwards each key has the value of its last write in the batch, or else the one it had, and each request kept its key and kind |
| `FrontEnd.MainThread.WriteOne` | lsm_tree.hpp:957-977 | A write goes to the memtable, a full one being compacted and emptied first; each compaction is the table of its own writes |
| `FrontEnd.BatchHistory` | lsm_tree.hpp:957-977 | Compactions only cut the history into pieces: no write of the batch lost, doubled or reordered |
| `FrontEnd.BatchLeavesLastValue` | lsm_tree.hpp:957-977 | After any part of a batch a key has the value of the last request of kind WRITE with that key, and without one the value it had before |
| `FrontEnd.NullKeyNeverWritten` | lsm_tree.hpp:941-943 | The null key is never written |
| `FrontEnd.KeptExactly` | lsm_tree.hpp:941-956 | What the batch keeps of each request: key and kind always, a write as it came, nothing under the null key; a read that stays has the last value written before it, one that goes on is marked, untouched, and not in the memtable |
| `FrontEnd.PassedExactly` | lsm_tree.hpp:945-955 | Exactly the marked requests are passed on, as they came and in their order |
| `FrontEnd.MemtableAnswerIsNewest` | lsm_tree.hpp:944-956 | A memtable hit is the last write over the whole history; a miss means the history since the last compaction has no write of the key |
| `FrontEnd.DispatchKeepsClients` | lsm_tree.hpp:944-956 | Each client is live in the batch or in the read batch, never in both |
| `FrontEnd.FirstArrivalWins` | aux_data_structures/aux_data_structures_impls/connection_pool/readwrite_pool/readwrite_pool.hpp:18-29 | Of several writes of a key in one network batch the first to arrive takes effect last, since later arrivals are inserted ahead of it |
| `FrontEnd.BatchOrderHarmlessExactly` | aux_data_structures/aux_data_structures_impls/connection_pool/readwrite_pool/readwrite_pool.hpp:18-29 | A batch acts like its writes in order of arrival if and only if for every key the first and last values arrived are the same |
| `FrontEnd.OlderWriteOfBatchSurvives` | aux_data_structures/aux_data_structures_impls/connection_pool/readwrite_pool/readwrite_pool.hpp:18-29 | Two different writes of one key in one batch always leave the older value |
| `LevelRouting.Decompose` | aux_data_structures/aux_data_structures_impls/level_info/level_info.hpp:53-106 | For any ranges: each part in key order and holding each copy exactly as often as its table admits it (live for the first covering table, without client for later ones), the skip part exactly the rejected copies and the live uncovered requests; covered requests marked -1 |
| `LevelRouting.StoredKeyReachesItsTable` | aux_data_structures/aux_data_structures_impls/level_info/level_info.hpp:59-76 | With disjoint ranges a key that table i covers and its filter admits is routed to table i |
| `LevelRouting.RouteCovered` | aux_data_structures/aux_data_structures_impls/level_info/level_info.hpp:65-88 | The inner loop routes the covered interval, copy by copy, and marks it |
| `LevelRouting.PassTables` | aux_data_structures/aux_data_structures_impls/level_info/level_info.hpp:59-89 | The outer loop over the tables: every part exact, every rejection in the skip part |
| `LevelRouting.SkipTheRest` | aux_data_structures/aux_data_structures_impls/level_info/level_info.hpp:90-100 | The second loop adds exactly the still-live requests to the skip part, without marking them |
| `RoutingLaws.LiveExactlyOnce` | aux_data_structures/aux_data_structures_impls/level_info/level_info.hpp:53-106 | For any ranges, over all parts together every live request is there exactly as often as in the input |
| `RoutingLaws.StoredKeyGetsCopy` | aux_data_structures/aux_data_structures_impls/level_info/level_info.hpp:59-76 | A request for a key that table i covers and admits always gets a copy in part i, the live one if and only if no earlier table covers the key |
| `RoutingLaws.DisjointPartsAreRoutes` | aux_data_structures/aux_data_structures_impls/level_info/level_info.hpp:53-106 | With disjoint ranges every part is exactly the requests routed to it, clients included |
| `RoutingLaws.SizesFitExactly` | aux_data_structures/aux_data_structures_impls/level_info/level_info.hpp:57-106 | The table sizes add up to the number of admissions; the parts of a live batch have as many entries as the batch if and only if no request is covered by two tables |
| `RoutingLaws.RoutedSizesFit` | aux_data_structures/aux_data_structures_impls/level_info/level_info.hpp:57-75 | With disjoint ranges routed sizes plus skipped requests are the batch length |
| `RoutingLaws.OverlapOverrunsBatch` | aux_data_structures/aux_data_structures_impls/level_info/level_info.hpp:59-76 | Two overlapping tables that admit a key count the one request for it twice |
| `RequestPool.Pool.FindIndexStartingFrom` | aux_data_structures/aux_data_structures_impls/connection_pool/readwrite_pool/readwrite_pool.hpp:73-90 | The lower bound from start on |
| `RequestPool.Pool.FindIndexAsWritten` | aux_data_structures/aux_data_structures_impls/connection_pool/readwrite_pool/readwrite_pool.hpp:73-90 | As written the answer is -1 if and only if all keys from start on are smaller or the very first key is greater; otherwise it is the lower bound |
| `RequestPool.Pool.InsertReadWrite` | aux_data_structures/aux_data_structures_impls/connection_pool/readwrite_pool/readwrite_pool.hpp:13-70 | The request is put ahead of equal keys; sorted order and batch ownership kept |
| `RequestPool.Pool.ShiftIn` | aux_data_structures/aux_data_structures_impls/connection_pool/readwrite_pool/readwrite_pool.hpp:45-67 | The shift with its self-assigned batch reference is the plain insertion |
| `RequestPool.Pool.RemoveViaIndex` | aux_data_structures/aux_data_structures_impls/connection_pool/readwrite_pool/readwrite_pool.hpp:92-94 | Only the socket of that entry becomes -1 |
| `RequestPool.PoolIsSortedPermutation` | aux_data_structures/aux_data_structures_impls/connection_pool/readwrite_pool/readwrite_pool.hpp:13-70 | Any sequence of inserts: a sorted permutation of what was inserted, every entry naming its own batch |
| `BloomFilter.NoFalseNegatives` | aux_data_structures/aux_data_structures_impls/level_info/filter/bloom_filter/bloom_filter.hpp:264-300 | For any history of inserts and unions and any hash, every inserted key tests positive |
| `BloomFilter.PositiveExactly` | aux_data_structures/aux_data_structures_impls/level_info/filter/bloom_filter/bloom_filter.hpp:264-300 | For any history and any hash: a key tests positive if and only if each of its hashes falls together with a hash of some inserted key |
| `BloomFilter.IntersectionPositive` | aux_data_structures/aux_data_structures_impls/level_info/filter/bloom_filter/bloom_filter.hpp:357-370 | Positive in an intersection if and only if positive in both operands |
| `BloomFilter.Filter.Add` | aux_data_structures/aux_data_structures_impls/level_info/filter/bloom_filter/bloom_filter.hpp:264-282 | Sets exactly the bits of the hashes |
| `BloomFilter.Filter.Check` | aux_data_structures/aux_data_structures_impls/level_info/filter/bloom_filter/bloom_filter.hpp:284-301 | True if and only if all bits of the hashes are set; every byte index in bounds |
| `BloomFilter.Filter.constructor` | aux_data_structures/aux_data_structures_impls/level_info/filter/bloom_filter/bloom_filter.hpp:79-96 | Key lengths up to eight give every bit a byte; starts with no bit set |
| `BloomFilter.Union` | aux_data_structures/aux_data_structures_impls/level_info/filter/bloom_filter/bloom_filter.hpp:331-343 | The set of bits is the union, also when the result is an operand |
| `BloomFilter.Intersect` | aux_data_structures/aux_data_structures_impls/level_info/filter/bloom_filter/bloom_filter.hpp:357-370 | The set of bits is the intersection, also when the result is an operand |
| `BloomFilter.WrittenCheckExactly` | aux_data_structures/aux_data_structures_impls/level_info/filter/bloom_filter/bloom_filter.hpp:291-300 | Summing masks as written accepts an added key if and only if all its bits are lowest in their bytes |
| `BloomFilter.WrittenCheckFalseNegative` | aux_data_structures/aux_data_structures_impls/level_info/filter/bloom_filter/bloom_filter.hpp:291-300 | One added key that is reported absent |
| `MemTable.LastWriteWins` | aux_data_structures/aux_data_structures_impls/level_zero/memtable.hpp:14-66 | After any sequence of writes: sorted, a permutation of the writes, lookup gives the latest |
| `MemTable.Table.Read` | aux_data_structures/aux_data_structures_impls/level_zero/memtable.hpp:14-30 | Binary search equals linear lookup of the first entry |
| `MemTable.Table.Write` | aux_data_structures/aux_data_structures_impls/level_zero/memtable.hpp:32-66 | The entry is put ahead of older equal keys, order kept |
| `MemTable.Table.LowerBound` | aux_data_structures/aux_data_structures_impls/level_zero/memtable.hpp:34-42 | First position whose key is not smaller |
| `MemTable.Table.ShiftIn` | aux_data_structures/aux_data_structures_impls/level_zero/memtable.hpp:53-64 | The carry loop is insertion at the position |
| `MemTable.Table.EmptyOut` | aux_data_structures/aux_data_structures_impls/level_zero/memtable.hpp:68-70 | Empty and all null |
| `MemTable.StrictExactlyIfDistinct` | aux_data_structures/aux_data_structures_impls/level_zero/memtable.hpp:32-66 | A table has strictly increasing keys, as its SSTable needs, if and only if no key was written twice |
| `MemTable.VersionsInTable` | aux_data_structures/aux_data_structures_impls/level_zero/memtable.hpp:32-66 | The writes of a key stand together in the table, newest first, right behind those of smaller keys |
| `KeyBytes.MemcmpIsKeyOrder` | aux_data_structures/aux_data_structures_impls/level_zero/memtable.hpp:18-25 | memcmp on fixed-length strings is the order and equality of their big-endian numbers |
| `KeyBytes.NullKeyIsAllZeros` | lsm_tree.hpp:941-943 | The null key is the all-zero string and no other |
| `BufferRoom.StepConservesExactly` | lsm_tree.hpp:829-896 | With every buffer in one place, a step keeps them all in place if and only if every ring and stock that receives has room and, as written, none is given and kept as well (unless it is kept past the end of the stock array); read off the state before |
| `BufferRoom.DownRoomExactly` | lsm_tree.hpp:1159-1230 | For a hand-down: the share of each SSTable served, the rest for the last one, and the giver's own stock fit |
| `BufferRoom.BuffersConserved` | lsm_tree.hpp:1078-1229 | With places for all buffers and those a run keeps twice, the run keeps every buffer in exactly one stock or queue if and only if it keeps none that it gives; as designed it always does |
| `BufferRoom.RunIntactExactly` | lsm_tree.hpp:829-896 | For any rings and stocks: along a run every buffer keeps exactly its one place if and only if every step finds room and keeps nothing that it gives |
| `BufferRoom.RunAddsKept` | lsm_tree.hpp:829-896 | As written such a run leaves in place what was there and each kept buffer once more |
| `BufferRoom.WrittenGiftIsKeptExactly` | lsm_tree.hpp:878-895 | As written, with room, a gift adds exactly the lowest buffer given to what is in place, so all is conserved if and only if nothing was given |
| `BufferRoom.WrittenHandDownIsKeptExactly` | lsm_tree.hpp:1194-1228 | The same for a hand-down and the lowest old buffer given |
| `BufferRoom.StepKeepsTotal` | lsm_tree.hpp:829-896 | Every step keeps the number of buffers counted, room or not; as written, the one kept comes on top |
| `BufferTransfer.TransferConserves` | lsm_tree.hpp:829-890 | A transfer, before the stock index is raised again, makes and loses no buffer if no ring is overfull after it |
| `BufferTransfer.HandOutConserves` | lsm_tree.hpp:1186-1222 | The hand-out loop gives exactly the new buffers it used, as long as the rings it filled hold them |
| `BufferCounters.FullRingLosesBuffer` | lsm_tree.hpp:829-896 | Three SSTables of one buffer each, rings of height * factor = 1: a run of two gifts and a forward loses a buffer |
| `BufferCounters.CountersOverRuns` | lsm_tree.hpp:829-896 | Over every run, as designed and as written, each counter is the buffers there plus its drift: handed down, less adopted, missing and kept |
| `BufferCounters.GiftCoveredExactly` | lsm_tree.hpp:866-884 | With the counter as written a gift is covered if and only if the counted number is not positive, or a buffer is there and the fraction asked for is in stock |
| `BufferCounters.GiftAlwaysCovered` | lsm_tree.hpp:866-884 | With exact counters an idle SSTable never gives more than its stock, after any run |
| `BufferCounters.EveryShareCovered` | lsm_tree.hpp:1190-1205 | With exact counters and sizes that fit the total, every turn of the hand-out loop finds its whole share in the stock and among the new buffers; which shares these are is in BufferAmounts.HandDownMoves |
| `BufferAmounts.HandDownMoves` | lsm_tree.hpp:1082-1229 | A hand-down, buffer by buffer: the greatest m new buffers are set aside with m = 1 or m at most the fair number and m times the factor at most the queue, the others go into the stock; each SSTable with a batch and fewer than the fair number gets its proportion, rounded down, of those and of the greatest allowed number of old ones, off the end of the stock; the last one gets the rest |
| `BufferAmounts.GiveMoves` | lsm_tree.hpp:859-884 | An idle SSTable passes up the greatest allowed number of old buffers, off the end of its stock, the last one first, and nothing else changes |
| `BufferAmounts.ForwardMoves` | lsm_tree.hpp:829-855 | The first new buffers, all or the fair number, go up in reverse, and nothing else changes |
| `BufferAmounts.TakeInMoves` | lsm_tree.hpp:1004-1018 | All new buffers go behind the stock in their order |
| `BufferCounters.NeverMissing` | lsm_tree.hpp:829-896 | So no transfer of any run takes a buffer from an empty stock |
| `BufferCounters.WrittenCounterOverstates` | lsm_tree.hpp:1194-1200 | As written, one hand-down makes the counter promise a buffer that is gone |
| `BufferMoves.HandDownLoop` | lsm_tree.hpp:1159-1230 | Set aside, adopt, serve in turn, leave the rest: the number of buffers always kept, the buffers themselves where there is room |
| `BufferMoves.ForwardLoop` | lsm_tree.hpp:829-855 | At most the fair number of new buffers popped and pushed up in reverse, full ring or not; conserves all buffers where there is room |
| `BufferMoves.MoveStock` | lsm_tree.hpp:878-884 | Buffers leave the stock from its end in order and are pushed one by one, full ring or not |
| `BufferMoves.MoveNew` | lsm_tree.hpp:1202-1205 | New buffers are pushed in popped order while there are any, full ring or not |
| `BufferShares.SharesFit` | lsm_tree.hpp:1061-1065 | Proportional floors sum to at most the limit |
| `BufferAmounts.ShareIsFloor` | lsm_tree.hpp:1061-1065 | A share is the proportion of the limit rounded down |
| `BufferShares.NoShareCutShort` | lsm_tree.hpp:1190-1205 | Before share i, at least share i is left of the limit |
| `BufferShares.GiftWithinStock` | lsm_tree.hpp:866-868 | The gift is positive and at most the stock |
| `BufferShares.RunsOutExactly` | lsm_tree.hpp:859-868 | Giving empties the stock if and only if the stock is one, or the factor is one and the stock at most the fair number |
| `BufferShares.WrittenShareExactly` | lsm_tree.hpp:1062-1065 | The integer division as written gives the proportional share if and only if the batch is the whole total or its share rounds to nothing |
| `BufferQueue.Queue.PushBack` | aux_data_structures/aux_data_structures_impls/level_info/buffer_queue/buffer_queue.hpp:34-39 | Appends with room; on a full ring overwrites what lies in the same place; both counters |
| `BufferQueue.Queue.PopFront` | aux_data_structures/aux_data_structures_impls/level_info/buffer_queue/buffer_queue.hpp:41-47 | FIFO pop with both counters |
| `BufferQueue.RingPushExactly` | aux_data_structures/aux_data_structures_impls/level_info/buffer_queue/buffer_queue.hpp:34-39 | With room a push appends; on a full ring it also replaces the front element |
| `BufferQueue.OverfullRepeats` | aux_data_structures/aux_data_structures_impls/level_info/buffer_queue/buffer_queue.hpp:34-47 | A ring that counts more elements than it has places returns one of them twice |
| `BufferQueue.QueueAsWritten.PushBack` | aux_data_structures/aux_data_structures_impls/level_info/buffer_queue/buffer_queue.hpp:34-39 | As written: pushes, full ring or not, onto a queue that holds one stale element more than it counts |
| `BufferQueue.QueueAsWritten.PopFront` | aux_data_structures/aux_data_structures_impls/level_info/buffer_queue/buffer_queue.hpp:41-47 | As written: takes from that queue |
| `BufferQueue.WrittenStreamIsLate` | aux_data_structures/aux_data_structures_impls/level_info/buffer_queue/buffer_queue.hpp:34-47 | For any operations the written queue returns the designed stream one element late, a stale element first |

## Left out

- io_uring, sockets, files, CPU pinning, mmap: foreign calls; completions are parameters or steps.
- Weak memory orders: atomics are modelled as sequentially consistent steps.
- Single-threaded levels (`lsm_tree.hpp:145-172`) and the single-threaded branches of the wait queue: easy special cases.
- `SparseIndex::get_table_num`: mixes byte offsets and table numbers; `FrontEnd` has one memtable instead of a choice.
- The initial reads of existing SSTables (`lsm_tree.hpp:497-643`): the model starts empty or from a loaded file.
- Bloom sizing, error-rate and estimate formulas, bit counting, FNV-1a arithmetic: floating point, or only determinism matters.
- `is_practically_full` and the marking of writes that may fail: the copy at `lsm_tree.hpp:966` has length zero.
- Cutting the read batch into batches of BATCH_NUM_REQUESTS: `BatchLifecycle` allows any batch to be created and filled.
- Deletion of the input batches of a decomposition: the source never frees them.
- BufferRoom.BuffersConserved: transfers are atomic steps on values, not on arrays under the queue guards; the page-cache index of a moved buffer is in PageCache and in CachedSearch.CachedFile.GiveUpBuffers.
- BufferRoom.StepConservesExactly: a buffer stored past the end of a stock array counts as lost, and a buffer taken from an empty stock is not handed on; in C++ both are undefined.
- WaitQueue.QueueIsFifo: the queue is a state machine over a heap of nodes, not a class, because it is about interleavings; memory is never reused after deletion.
- BatchTraversal.AnswerBatch: asks for keys that are not null, as the comment at `lsm_tree.hpp:367-368` does; every request is searched from the root.
- BatchFlow.DispatchIsRun: the reads that go on are appended to the read batch, not inserted in key order; the lifecycle only counts sockets.
- CachedBatch.AnswerBatchCached: the value fields are a sequence, not shared buffers.
- NewestWins.NewestCompactionWins: asks for disjoint key ranges within a level, as the comment at level_info.hpp:76 does; NewestWins.EveryOrderExactly is the statement for any ranges.
- NewestWins.EveryOrderExactly: answers of different levels come in the order of the levels; in the source, with overlapping ranges, a copy without client travels down on its own.
- BufferTransfer.HandOutConserves: SSTables are served in the order of their indices; the source serves them in the order in which their guards come free (lsm_tree.hpp:1173-1190).
- BufferAmounts.HandDownMoves: asks for exact counters and batch sizes that fit the total; where the counter drifts, BufferCounters.GiftCoveredExactly says what is covered.
- CachedSearch.CachedFile.Search: can give up with IndexFull, because recorded places are never reclaimed, or with NoBuffers; the reader in the source would write past the index or evict buffer -1.
- BloomFilter.Filter.constructor: the array has no alignment padding, which only adds unused bytes.
- Concept headers, alignment helpers, the connection pool array, the client and the build scripts: no hard property.
