# Groonga's stateful cores, verified

This project models the parts of Groonga whose correctness depends on whole runs, and proves what
they promise: the context allocator, the two forms of the query cache, the double-array-trie table
with its write-ahead log and its file generations, database recovery, and four smaller
algorithms with sharp specifications.  `dafny verify dfyconfig.toml` verifies everything.

Each part pairs a pure description of what a call does with the call written in the source's own
form (classes whose methods update fields and arrays in place, loops with invariants), and proves the
second against the first; the promises are lemmas over every run of the first.

| files | source | main results |
|---|---|---|
| `Alloc*.dfy` | `lib/alloc.c` | every run keeps live blocks disjoint and mapped, the segment counters exact, calloc memory zero and what clients store in place; freeing a LIFO block keeps the earlier ones exactly when it is the first of its segment or starts strictly inside the used part; a reallocation keeps the payload, and stays inside the mapping, under exact conditions on the sizes; every call fails under exact conditions on the free segments |
| `Cache*.dfy` | `lib/cache.c` | both caches refine one recency-ordered list, from which an update loses an answer only when there is no room; with limit n the persistent cache answers like the memory cache with limit max(n - 2, 0), over every run; a hit is what computing the query now would give, in all histories up to a second exactly when that is below 2^32 |
| `DatTrie`, `DatWal`, `DatReplay`, `DatTable` | `lib/dat.cpp`, `lib/wal.c` | crash recovery is exact for a log reader that passes over applied entries; for the reader there is, it is exact for every file in which no entry can undo an earlier one, and for a set of kinds of entries it is exact in all files of these kinds if and only if they are additions only or deletions only |
| `DatGenerations` | `lib/dat.cpp` | the current and the previous trie file survive concurrent unlinking in every run if and only if no handle acts 4093 or more generations behind, and removal leaves no file |
| `DatScan` | `lib/dat.cpp` | a scan is the only sequence of non-overlapping longest matches on character boundaries |
| `DbKeys`, `DbDependencies` | `lib/db_wal_recover.cpp` | keys are rebuilt under their ids if and only if none looks like a placeholder; one ascending pass finds exactly what rising chains of references lead to |
| `Accessor` | `lib/accessor.c` | backward resolution returns exactly the records whose forward image meets the base result, with and without indexes; following keys forwards agrees with it |
| `ComHeader` | `lib/com.c` | the skip search finds the first empty line and works incrementally for every way of cutting the input |
| `Aggregators` | `lib/aggregators.c` | running mean and m2 equal the batch statistics of every group, in any interleaving |
| `ExprCode` | `lib/expr_code.c` | the used-code count is the size of the subtree, and always covers one expression |

## Where the code does less than it seems

Where a promise fails, the model keeps the code as it is, names a failing input, and states when
the promise holds.

- A request above 2^64 - 16 bytes wraps around in the rounding of `grn_ctx_alloc` (`RoundedFits`).
- A LIFO block of size zero behind the last bytes of its segment cannot be freed alone: the
  unwinding misses it and unmaps the segment with the earlier blocks (`FreeLifoExactly`; two calls lead there,
  `ZeroSizeIsMissed`; blocks of positive size are never missed, `PositiveIsExact`).
- `grn_ctx_realloc` copies as many bytes as the int32 in the block's header says.  The payload is
  kept exactly when the block is below 2^32 bytes, or its size modulo 2^32 is at least 2^31 or
  at least the new size (`ReallocExactly`); of a block of 2^32 + 16 bytes 16 bytes arrive
  (`HugeBlockIsLost`).
- The header's size counts the header's own 8 bytes.  Below 2^31 bytes the copy reads past the
  mapping, where it may fault, exactly when the block ends where its mapping ends and grows
  (`ReadsPastBelowTwoGiB`; for all sizes `ReadsPastExactly`).  One allocation of 4 MiB less 8 bytes and one
  byte more lead there (`FullSegmentIsReadPast`).  What the read finds is the parameter `past`,
  which matters in no other case (`PastMatters`).
- Lowering the limit of a cache by d drops the d least recent answers, also when they would fit the
  new limit (`SetLimitExactly`, `FittingAnswersAreDropped`).
- An empty value stored behind a flag byte comes back as that byte (`ShownIsStored`,
  `EmptyValueDiffers`).
- `grn_cache_fetch_persistent` turns away the root key but not the metadata key
  (lib/cache.c:770-775).  Fetching that key always breaks the list, and after a hit the limit is
  an entry's id (`MetadataFetchBreaks`, `LimitIsOverwritten`).
- The second of the last modification is kept in 32 bits; from 2^32 seconds on a stale answer can be
  served (`HitsAreCurrentExactly`, with the history in `WrapRuns`).
- The log reader hands out every entry of the file, including those up to the header's `wal_id`.
  Replaying renames, or additions mixed with deletions, over their own result can give another
  table (`RenamesReplayWrongly`, `TurnsReplayWrongly`).  Which entries can undo which is exact for
  pairs (`UndoesExactly`, `CalmExactly`); a file without such pairs replays well (`RecoversCalm`), and some files
  with such pairs do so too (`AddedAndDeleted`).  An entry whose call failed stays in the
  log and may take effect in a later recovery (`FailedEntryStays`, `FailedEntryIsReplayed`).
- A handle that is 4093 generations behind unlinks the file that the writer has made but not
  published yet (`KeptExactly`, with the run in `Climb` and `TooFarBehind`); the two are then 4096 apart (`HarmsExactly`).
- The dependency pass misses an object that refers to a larger id (`LargerReferenceIsMissed`).
- A step through a table's value is followed by the value forwards, and by the key backwards; the
  two agree exactly when every value is its record's key (`AgreesExactly`).
- The check in `grn_expr_code_n_used_codes` for having gone before `start` never fires.

## Model

| member | source | states |
|---|---|---|
| `AllocModel.RoundedFits` | lib/alloc.c:421 | A block holds its request and header exactly when rounding the request does not wrap; sizes are multiples of 8 and waste less than 8 bytes |
| `AllocModel.PagesCover` | lib/alloc.c:423-437 | The pages mapped for a large block cover it, and the mapping is a multiple of 8 bytes |
| `AllocModel.FirstFree` | lib/alloc.c:429-437 | The first unmapped segment: everything before it is mapped |
| `AllocModel.CopyMem` | lib/alloc.c:526-529 | A byte copy changes exactly the copied bytes of the destination |
| `AllocInvariant.CountUp` | lib/alloc.c:361-365 | Counting one more block changes the low count bits by one and no flag bit, while the count is below the segment size |
| `AllocInvariant.SetDirty` | lib/alloc.c:607-619 | Setting the dirty flag changes neither the count nor the other flags |
| `AllocSteps.AllocKeeps` | lib/alloc.c:399-497 | An allocation yields a new block apart from every live one, large enough, zero if asked for, keeping the whole invariant; a failure changes nothing |
| `AllocOutcome.AllocFailsExactly` | lib/alloc.c:399-497 | An allocation fails if and only if it does not fit behind the current segment's used part and there is no free segment or no memory for one, or, for a large block, the pages do not fit 32 bits |
| `AllocOutcome.AllocPlaces` | lib/alloc.c:423-483 | A block has the rounded size and goes behind the current segment's used part, or to the start of the lowest free segment, which becomes the current one unless the block is large |
| `AllocOutcome.AllocExtent` | lib/alloc.c:423-446 | A segment of the fixed size is mapped, or the whole pages that a large block needs and no more |
| `AllocSteps.FreeKeeps` | lib/alloc.c:551-626 | Freeing a live block never fails, touches only its segment, and rewinds or unmaps it exactly when no live block is left there |
| `AllocOutcome.FreeExactly` | lib/alloc.c:586-619 | A segment with live blocks keeps its extent, an empty one is rewound when it is current and unmapped otherwise, and the current segment stays the same |
| `AllocSteps.WriteKeeps` | lib/alloc.c:466-482 | A client that writes only inside its own block keeps the invariant |
| `AllocArena.AllocLifoKeeps` | lib/alloc.c:628-696 | A LIFO allocation puts one block on top of the arena, large enough, or changes nothing |
| `AllocOutcome.AllocLifoFailsExactly` | lib/alloc.c:628-696 | A LIFO allocation fails if and only if it does not fit the top segment and there is no free segment above or no memory for one, or the pages do not fit 32 bits |
| `AllocOutcome.AllocLifoPlaces` | lib/alloc.c:644-692 | A LIFO block goes behind the last one, or to the start of the lowest free segment above the arena |
| `AllocOutcome.AllocLifoExtent` | lib/alloc.c:644-692 | The mapping is of the fixed size, or the whole pages that a large block needs |
| `AllocArena.UnwindHit` | lib/alloc.c:709-744 | Unwinding to a pointer that is hit unmaps exactly the arena segments above it and cuts its own, despite ordinary segments in between |
| `AllocArena.UnwindMiss` | lib/alloc.c:734-741 | Unwinding to a pointer that is not hit unmaps that pointer's own segment |
| `AllocArena.FreeLifoKeeps` | lib/alloc.c:698-746 | Freeing LIFO block k gives back exactly block k and the later ones, keeps the earlier ones and every ordinary segment |
| `AllocArena.FreeLifoExactly` | lib/alloc.c:730-741 | The earlier LIFO blocks stay mapped and in place if and only if the block is the first of its segment or starts strictly inside the used part |
| `AllocArena.PositiveIsExact` | lib/alloc.c:735 | When all LIFO blocks have positive size that condition holds for each of them |
| `AllocRuns.StartOk` | lib/ctx.cpp:354-357 | A new context satisfies the invariant |
| `AllocRuns.ReallocKeeps` | lib/alloc.c:513-548 | Reallocation trades the old block for a new one that holds the request, frees on size zero, and changes nothing when it fails |
| `AllocOutcome.ReallocFailsExactly` | lib/alloc.c:513-548 | A reallocation to a positive size fails if and only if the allocation does |
| `AllocRuns.ZeroSizeIsMissed` | lib/alloc.c:734-741 | Two LIFO allocations, of 8 and 0 bytes, reach a state in which that condition fails |
| `AllocRealloc.MergedByte` | lib/alloc.c:526-529 | Copying the first bytes of a word replaces exactly those |
| `AllocRealloc.HeaderOf` | lib/alloc.c:526-528 | The copied length comes from the block's size modulo 2^32, read as a signed number |
| `AllocRealloc.EnoughExactly` | lib/alloc.c:526-529 | That length covers the payload up to the new size if and only if the size is below 2^32, or its low 32 bits are at least 2^31 or at least the request |
| `AllocRealloc.ReallocBytes` | lib/alloc.c:513-548 | Every byte of a reallocated block, for blocks of any size: the old payload's up to the copied length, what the allocation left beyond |
| `AllocRealloc.ReallocKeepsPayload` | lib/alloc.c:525-530 | Under that condition every byte of the old payload within the new size is kept |
| `AllocRealloc.ReallocExactly` | lib/alloc.c:525-530 | A reallocation keeps whatever the client has stored if and only if that condition holds |
| `AllocRealloc.HugeBlockIsLost` | lib/alloc.c:525-530 | A first allocation of 2^32 + 8 bytes gives a block of which every reallocation keeps 16 bytes |
| `AllocRealloc.ReadsPastExactly` | lib/alloc.c:526-529 | The copy reads past the mapping if and only if both the request and the header's size exceed the room behind the header |
| `AllocRealloc.ReadsPastBelowTwoGiB` | lib/alloc.c:526-529 | Below 2^31 bytes: if and only if the block ends with its mapping and the request is larger than its payload |
| `AllocRealloc.FullSegmentIsReadPast` | lib/alloc.c:526-529 | One allocation that fills a segment, grown by one byte, does so |
| `AllocRealloc.PastMatters` | lib/alloc.c:526-529 | Otherwise the outcome does not depend on what lies past the mapping |
| `AllocRuns.EveryRunIsSafe` | lib/alloc.c:359-746 | After every run of allocations, frees, reallocations, LIFO calls and client writes into blocks of both kinds, live blocks of both kinds are disjoint and mapped, and each counter equals its live blocks and is at most 2^19 |
| `AllocRuns.OwnStoreKeeps` | lib/alloc.c:399-746 | A client that writes only inside its own block, of either kind, keeps the invariant |
| `AllocContents.OwnersDiffer` | lib/alloc.c:399-746 | No two live blocks share a word |
| `AllocContents.StepLeaves` | lib/alloc.c:399-746 | A call changes a word of a block that stays live only when the block's client stores there |
| `AllocContents.ContentsAreKept` | lib/alloc.c:399-746 | Over every run each word of a block that stays live is the last value its client stored there |
| `AllocContents.CallocIsZeroUntilStored` | lib/alloc.c:466-482 | A block from grn_ctx_calloc reads zero until its client stores something, whatever other calls happen |
| `AllocRuns.CallocIsZero` | lib/alloc.c:466-482 | At any point of any run a block from grn_ctx_calloc is zero although only rewound segments are cleared |
| `AllocContext.Context.constructor` | lib/ctx.cpp:354-357 | A new context is the empty segment table |
| `AllocContext.Context.FindFree` | lib/alloc.c:429-437 | The search loop finds the first unmapped segment |
| `AllocContext.Context.Malloc` | lib/alloc.c:399-497 | The in-place allocation is the specified one |
| `AllocContext.Context.Release` | lib/alloc.c:551-626 | The in-place free is the specified one, and unmaps with the mapped length |
| `AllocContext.Context.Resize` | lib/alloc.c:513-548 | The in-place reallocation is the specified one |
| `AllocContext.Context.Move` | lib/alloc.c:525-530 | Copy and free of a reallocation, with the length read back from the header |
| `AllocContext.Context.PushLifo` | lib/alloc.c:628-696 | The in-place LIFO allocation is the specified one |
| `AllocContext.Context.PopLifo` | lib/alloc.c:698-746 | The unwinding loop is the specified unwinding |
| `AllocContext.Context.Finish` | lib/alloc.c:375-393 | Every mapped segment is unmapped once, in order, with its whole extent |
| `AllocContext.Context.Perform` | lib/alloc.c:399-746 | Any legal call in place is one step of the run model and keeps its invariant |
| `CacheRing.UnlinkRing` | lib/cache.c:461-484 | Taking a member out of the circular list leaves the ring of the others |
| `CacheRing.LinkFirstRing` | lib/cache.c:486-504 | Linking a member after the root puts it in front |
| `CacheRing.LastIsPrev` | lib/cache.c:519-530 | The root's predecessor is the last member, or the root when there is none |
| `CacheRing.RingDistinct` | lib/cache.c:461-504 | A ring meets no member twice |
| `CacheLru.ShownIsStored` | lib/cache.c:724-731 | A fetch returns what was stored if and only if it was not an empty value behind a flag byte |
| `CacheLru.StepKeeps` | lib/cache.c:519-1037 | Every operation keeps keys distinct and the number of answers within the limit |
| `CacheLru.RunIsByRecency` | lib/cache.c:701-753 | After every run the entries stand in order of their last successful fetch or update |
| `CacheLru.EvictsLeastRecent` | lib/cache.c:918-921 | An entry evicted by an update was used before every entry that stays |
| `CacheLru.UpdateStores` | lib/cache.c:863-933 | An update puts the new answer first whenever there is room, and costs at most one other entry |
| `CacheOutcome.UpdateExactly` | lib/cache.c:863-933 | After an update the new answer comes first, then those of other keys in their order, without the last only when there is no room for it |
| `CacheOutcome.UpdateLosesExactly` | lib/cache.c:918-921 | An answer of another key is lost if and only if the cache is full, the key is new and the answer is the last |
| `CacheOutcome.FetchHitsExactly` | lib/cache.c:713-723 | A fetch hits if and only if there is an answer of that key stored after the last modification |
| `CacheOutcome.FetchMovesToFront` | lib/cache.c:723-748 | A hit shows that answer and puts it in front of the others, which keep their order |
| `CacheOutcome.FetchDropsStale` | lib/cache.c:719-722 | A miss drops the stale answer of that key and nothing else |
| `CacheOutcome.ExpireExactly` | lib/cache.c:519-548 | An expiry drops exactly the last answers, as many as asked for |
| `CacheOutcome.SetLimitExactly` | lib/cache.c:550-594 | A limit lowered by d drops exactly the d last answers |
| `CacheOutcome.FittingAnswersAreDropped` | lib/cache.c:557-561 | Three answers are dropped by lowering a limit from ten to five |
| `CacheTwins.TwinStep` | lib/cache.c:519-1037 | One operation on both forms keeps them alike and is answered alike |
| `CacheTwins.TwinRuns` | lib/cache.c:519-1037 | Over every run both forms hold the same entries in the same order and count the same fetches and hits, the persistent one with two more in its limit |
| `CacheTwins.TwinAnswers` | lib/cache.c:701-1037 | Every operation of a run is answered alike by both forms |
| `CacheTwins.EmptyValueDiffers` | lib/cache.c:727-731 | Without a flag byte on one side an empty value is answered differently |
| `CacheSteps.ShownSlot` | lib/cache.c:724-731 | What a fetch takes out of a stored value is what is shown for its entry |
| `CacheTable.DropKeeps` | lib/cache.c:461-468 | Hash and ring stay in step when an entry goes |
| `CacheTable.RenewKeeps` | lib/cache.c:738-747 | Hash and ring stay in step when an entry is renewed and moved to the front |
| `CacheTable.InsertKeeps` | lib/cache.c:895-917 | Hash and ring stay in step when an entry is added in front |
| `CacheSteps.FoundAt` | lib/cache.c:713-722 | A key in the hash hangs in the ring at the place where the abstract list has it |
| `CacheSteps.FetchStale` | lib/cache.c:719-722 | A stale entry is dropped and reported as a miss |
| `CacheSteps.FetchHit` | lib/cache.c:723-748 | A fresh entry is shown and moved to the front |
| `CacheSteps.PutNew` | lib/cache.c:895-917 | A new key becomes the first entry |
| `CacheSteps.PutOld` | lib/cache.c:895-917 | A known key is stored anew and becomes the first entry |
| `CacheSteps.DropLast` | lib/cache.c:918-921 | What hangs before the root is the least recent entry, and dropping it leaves the others |
| `CacheMemory.MemoryCache.constructor` | lib/cache.c:123-142 | A new memory cache is the empty list |
| `CacheMemory.MemoryCache.Fetch` | lib/cache.c:701-753 | The in-place fetch is the specified one |
| `CacheMemory.MemoryCache.Update` | lib/cache.c:863-933 | The in-place update, eviction included, is the specified one |
| `CacheMemory.MemoryCache.Expire` | lib/cache.c:519-530 | The loop removes exactly the min(size, n) least recent entries and truncates the hash only when it is already empty, despite the wrapping post-decrement |
| `CacheMemory.MemoryCache.SetLimit` | lib/cache.c:550-566 | A new limit always restores size at most limit |
| `CachePersistent.PersistentCache.constructor` | lib/cache.c:145-305 | A new persistent cache holds its two reserved records and no answer |
| `CachePersistent.PersistentCache.DeleteLink` | lib/cache.c:470-484 | Unlinking by ids is the ring's unlinking |
| `CachePersistent.PersistentCache.PrependLink` | lib/cache.c:486-504 | Prepending by ids is the ring's linking in front |
| `CachePersistent.PersistentCache.Fetch` | lib/cache.c:755-843 | The in-place fetch is the specified one; the root key changes nothing |
| `CacheMetadata.MetadataFetchBreaks` | lib/cache.c:755-843 | Fetching the metadata key, whose record is taken for an entry, always breaks the list |
| `CacheMetadata.LimitIsOverwritten` | lib/cache.c:470-504 | After a hit on it the limit is the id of the first entry and the number of fetches is the root's id |
| `CachePersistent.PersistentCache.Update` | lib/cache.c:935-1037 | The in-place update is the specified one; reserved keys change nothing |
| `CachePersistent.PersistentCache.Expire` | lib/cache.c:532-548 | The loop removes exactly the least recent entries |
| `CachePersistent.PersistentCache.SetLimit` | lib/cache.c:568-594 | A new limit restores size at most limit less the reserved records |
| `CacheFreshness.NextFresh` | lib/cache.c:719-722 | Every event keeps that whatever is stamped after the last modification was computed on the present content |
| `CacheFreshness.HitsAreCurrent` | lib/cache.c:795-799 | In every history of queries, modifications and expiries a hit equals computing the query now, while the clock fits 32 bits |
| `CacheFreshness.HitsAreCurrentExactly` | lib/cache.c:719-722 | In all histories up to a second hits are current if and only if that second is below 2^32 |
| `CacheFreshness.WrapRuns` | lib/db.c:1302-1306 | A history from an empty cache in which the recorded second wraps |
| `CacheFreshness.StaleAfterWrap` | lib/db.c:1302-1306 | At its end a stale answer is served |
| `DatTrie.ApplyOk` | lib/dat/trie.cpp:713-852 | Every table operation keeps ids and keys one-to-one and the free list apart from the used ids |
| `DatTrie.ApplyExactly` | lib/dat.cpp:342-501 | What every id stands for after each operation, told from what the ids stood for before |
| `DatTrie.NewIds` | lib/dat/trie.cpp:740-775 | A new key gets an id not in use, and right after a deletion the id set free |
| `DatTrie.SucceedsExactly` | lib/dat.cpp:342-501 | A deletion or update reports success if and only if it changes something; an addition always does |
| `DatTrie.ApplyTwice` | lib/dat.cpp:342-501 | An operation repeated at once changes nothing more |
| `DatTrie.FailureChangesNothing` | lib/dat.cpp:342-501 | An operation that reports failure leaves the trie as it was |
| `DatWal.NextInv` | lib/dat.cpp:766-891 | Every event, crashes inside calls and inside recovery included, keeps the trie where wal_id says or one logged operation further |
| `DatWal.LogIsCalled` | lib/dat.cpp:544-599 | Over every run the log is the operations of the calls that were made, in order |
| `DatWal.CrashesAnywhere` | lib/dat.cpp:544-599 | A crash may come at any point and leaves trie, log and wal_id as they are |
| `DatWal.RecoversWhenSkipping` | lib/dat.cpp:1109-1352 | For a reader that passes over applied entries, and calls that succeed, a table that is up holds exactly the operations of all calls |
| `DatReplay.SpentExactly` | lib/dat.cpp:787-840 | An entry changes nothing if and only if its key or id is, or is not, in the table as its kind demands |
| `DatReplay.UndoesExactly` | lib/dat.cpp:787-840 | Which entry can give an earlier one something to do again, in some table: exactly the listed pairs |
| `DatReplay.CalmReplay` | lib/dat.cpp:787-840 | Replaying a file without such pairs over its own result changes nothing |
| `DatReplay.CalmExactly` | lib/dat.cpp:787-840 | A file has no such pair if and only if any two of its entries, on their own, are replayed without effect on every table |
| `DatReplay.AddedAndDeleted` | lib/dat.cpp:787-840 | A file with such a pair may replay well all the same |
| `DatReplay.OneKindIsCalm` | lib/dat.cpp:787-840 | Additions do not undo each other, nor do deletions |
| `DatReplay.SafeExactly` | lib/wal.c:957-1000 | For a set of kinds of entries, replaying files of these kinds is always safe if and only if they are additions only or deletions only |
| `DatReplay.RenamesReplayWrongly` | lib/dat.cpp:813-830 | Three renames replayed over their own result give another table |
| `DatReplay.TurnsReplayWrongly` | lib/dat.cpp:793-812 | Additions and deletions replayed over their own result give another id |
| `DatReplay.BehindIsSpent` | lib/dat.cpp:787-840 | In a file in which no entry undoes an earlier one, an entry that was applied before changes nothing |
| `DatReplay.RecoversCalm` | lib/dat.cpp:766-891 | With the reader of lib/wal.c and any crashes a table whose log file never holds an entry that undoes an earlier one holds the operations of all calls when it is up, failed ones included |
| `DatReplay.RecoversOneKind` | lib/dat.cpp:766-891 | In particular a table whose log file never mixes kinds |
| `DatReplay.FailedEntryStays` | lib/dat.cpp:1194-1352 | The entry of a failed call stays ahead of wal_id |
| `DatReplay.FailedEntryIsReplayed` | lib/dat.cpp:787-840 | Recovery may then delete a key that did not exist when the call failed |
| `DatTable.Dat.constructor` | lib/dat.cpp:910-970 | A new table is empty with an empty log |
| `DatTable.AcceptableExactly` | lib/dat.cpp:1109-1352 | Empty keys and, for a deletion, the nil id are turned away, and nothing else |
| `DatTable.Dat.Perform` | lib/dat.cpp:1109-1352 | A call is refused unlogged (bad arguments, or no trie to delete from or update), or logs its own operation, carries it out, and advances wal_id only on success |
| `DatTable.Dat.Recover` | lib/dat.cpp:766-891 | The recovery loop replays the entries of the file in order, advances wal_id over each, empties the file, and never needs a trie that is not there |
| `DatTable.RecoveryApplies` | lib/dat.cpp:766-891 | A recovery carries out the whole file once more |
| `DatTable.RecoveryRuns` | lib/dat.cpp:766-891 | A recovery is a run of the crash model with the reader that skips nothing |
| `DatGenerations.UnlinkKeeps` | lib/dat.cpp:290-294 | An unlink by a handle that is not too far behind hits no needed file |
| `DatGenerations.LoadFinds` | lib/dat.cpp:246-285 | A handle that finds a file at the path of a generation gets that generation |
| `DatGenerations.LoadKeeps` | lib/dat.cpp:224-296 | Following the header keeps the invariant |
| `DatGenerations.SeeExactly` | lib/dat.cpp:231-239 | Looking at the header does nothing if and only if the handle has its generation open or there is none |
| `DatGenerations.FollowsHeader` | lib/dat.cpp:224-296 | A handle that follows the header ends with the header's generation open, and changes no other handle |
| `DatGenerations.WriterAdvances` | lib/dat.cpp:298-339 | A writer that is up to date can always make and publish the next generation |
| `DatGenerations.MakeKeeps` | lib/dat.cpp:298-325 | Creating the next file overwrites no needed one |
| `DatGenerations.PublishKeeps` | lib/dat.cpp:327-339 | Publishing the next generation keeps the two latest files |
| `DatGenerations.NextKeeps` | lib/dat.cpp:206-340 | Every event of any handle keeps the invariant |
| `DatGenerations.FilesAreKept` | lib/dat.cpp:206-340 | In every run with one writer and any number of handles fewer than 4093 generations behind, the current and the previous file are on disk and opened tries are what their handles say |
| `DatGenerations.KeptExactly` | lib/dat.cpp:206-340 | For a bound on how far handles are behind, the two latest files are kept in every run if and only if the bound is at most 4093 |
| `DatGenerations.Climb` | lib/dat.cpp:298-339 | A run of rebuilds leaves a second handle behind by any number of generations |
| `DatGenerations.HarmsExactly` | lib/dat.cpp:214-222 | An unlink destroys a needed file if and only if the two generations are a multiple of 4096 apart |
| `DatGenerations.TooFarBehind` | lib/dat.cpp:290-294 | At the end of that run a handle 4093 generations behind destroys the file about to be published |
| `DatGenerations.Remove` | lib/dat.cpp:1043-1082 | Removing a table leaves no trie file behind |
| `DatScan.Longest` | lib/dat.cpp:1407-1408 | The longest key that is a prefix: it is a key, and no longer prefix is one |
| `DatScan.Measure` | lib/dat.cpp:1412-1417 | The original bytes behind a match are the sum of its positive checks |
| `DatScan.WidthOfOne` | lib/dat.cpp:1413-1417 | A byte stands for its check when that is positive, and for nothing otherwise |
| `DatScan.HitExactly` | lib/dat.cpp:1406-1411 | By the keys alone: where a key is taken |
| `DatScan.Match` | lib/dat.cpp:1406-1411 | A key is taken at a character start exactly when the longest match ends on a character boundary |
| `DatScan.Advance` | lib/dat.cpp:1404-1438 | One round takes a hit or one byte and keeps offset the width of what was consumed |
| `DatScan.Scan` | lib/dat.cpp:1379-1444 | The hits are all and only the specified ones, left to right, up to the limit, with ids, offsets and lengths in the original text, and the rest starts after them |
| `DatScan.ResultIsUnique` | lib/dat.cpp:1404-1438 | Only one result meets the specification of a scan, so the loop computes it and nothing else |
| `DatScan.HitsInOrder` | lib/dat.cpp:1418-1421 | Hits are ordered and do not overlap in the original text |
| `DbKeys.ParseDecimal` | lib/db_wal_recover.cpp:123-128 | Decimal notation can be read back |
| `DbKeys.PlaceholdersDiffer` | lib/db_wal_recover.cpp:122-128 | Placeholders of different ids differ |
| `DbKeys.FillGap` | lib/db_wal_recover.cpp:121-156 | The inner loop fills a gap with placeholders, each under its own id |
| `DbKeys.Rebuild` | lib/db_wal_recover.cpp:109-208 | Without placeholder-like keys the new table is the original id-to-key map, gaps included |
| `DbKeys.SweptIsOriginal` | lib/db_wal_recover.cpp:196-206 | Deleting by prefix removes exactly the placeholders |
| `DbKeys.RebuildExactly` | lib/db_wal_recover.cpp:109-208 | The rebuilt table is the original if and only if no key starts with the placeholder prefix |
| `DbDependencies.Visit` | lib/db_wal_recover.cpp:310-368 | One visit hits exactly the objects that refer into the collected sets |
| `DbDependencies.VisitIsMarking` | lib/db_wal_recover.cpp:310-368 | At its turn an object is hit exactly when it is marked |
| `DbDependencies.Collect` | lib/db_wal_recover.cpp:289-381 | The pass collects exactly the broken and marked objects, tables and columns apart |
| `DbDependencies.FoundCounts` | lib/db_wal_recover.cpp:310-368 | An object that is found counts as a table or as a column of any kind, and never as both |
| `DbDependencies.BrokenCounts` | lib/db_wal_recover.cpp:289-303 | What was broken before counts as what it was |
| `DbDependencies.Db.MarkedExactly` | lib/db_wal_recover.cpp:289-381 | Marked is reached from a broken object by a chain of references that rises after its first link |
| `DbDependencies.Db.DependentIsMarked` | lib/db_wal_recover.cpp:289-381 | When references go to smaller ids every transitively dependent object is marked |
| `DbDependencies.LargerReferenceIsMissed` | lib/db_wal_recover.cpp:289-381 | With a reference to a larger id a dependent object is missed |
| `DbDependencies.RemoveDuplicates` | lib/db_wal_recover.cpp:383-404 | No remaining broken column belongs to a broken table, and no other is dropped |
| `DbDependencies.EachTargetOnce` | lib/db_wal_recover.cpp:1035-1053 | Every target is rebuilt by exactly one worker |
| `Accessor.ReferringRefers` | lib/accessor.c:343-445 | Index, source column and keys give exactly the records that refer to a record |
| `Accessor.RefersExactly` | lib/accessor.c:302-325 | Which records refer to which, by the shape of a step: keys, postings, single references, and all elements of a vector |
| `Accessor.FailsExactly` | lib/accessor.c:116-131 | A step fails if and only if an index has no source column or the index of a column is over another table |
| `Accessor.OneByLookup` | lib/accessor.c:95-268 | Going through the current records by index, source column or key gives exactly the records that refer into them |
| `Accessor.OneSequentially` | lib/accessor.c:270-340 | Looking at every record gives the same set: records whose reference, or any element of whose vector, is among the current ones |
| `Accessor.One` | lib/accessor.c:447-473 | With or without an index the step gives the records that refer into the current ones, and fails exactly without source column or on a lexicon mismatch |
| `Accessor.StepBefore` | lib/accessor.c:501-524 | One more step in front of a resolved accessor |
| `Accessor.DepthExactly` | lib/accessor.c:489-496 | The depth counts steps from the start; a negative one, or one beyond the end, means all |
| `Accessor.Resolve` | lib/accessor.c:475-560 | For accessors of any length and depth, the result gains exactly the records whose forward image meets the base result; it fails exactly for no step or an unresolvable one, adding nothing |
| `Accessor.ResolveId` | lib/accessor.c:562-598 | The forward loop follows keys and values as far as they go |
| `Accessor.AgreesExactly` | lib/accessor.c:208-268 | A table step goes the same way in both directions for keys, and for values if and only if they are the keys |
| `Accessor.ValueIsNotResolvedBackwards` | lib/accessor.c:208-268 | A record is not found backwards through a value other than its key |
| `Accessor.ForwardsIsBackwards` | lib/accessor.c:562-598 | Through keys, and values that are keys, a record is found backwards exactly when following it forwards goes all the way and ends in the base result |
| `ComHeader.ScanDelimiter` | lib/com.c:922-945 | The skips of 1, 2 and 4 bytes miss nothing: the first CRLFCRLF is found, and none is reported exactly when there is none |
| `ComHeader.DelimiterExactly` | lib/com.c:922-945 | What is looked for is CRLFCRLF |
| `ComHeader.OnlyTheEndMatters` | lib/com.c:975-981 | Looking three bytes back equals looking at the whole buffer |
| `ComHeader.ReceiveText` | lib/com.c:949-991 | Receiving takes exactly the calls up to the first after which the bytes so far hold a delimiter, or an error, or the eleventh empty answer, and keeps every byte |
| `ComHeader.EmptiesExactly` | lib/com.c:982-987 | Only calls that bring no bytes count as empty answers, and all of them do |
| `ComHeader.VerdictExactly` | lib/com.c:949-991 | Receiving is complete with a delimiter in the bytes so far, failed at an error, given up at the eleventh empty answer, and waiting otherwise |
| `ComHeader.RecvText` | lib/com.c:949-991 | The message header is set exactly when the bytes received hold a delimiter, to their first byte and their number |
| `ComHeader.CutsDoNotMatter` | lib/com.c:949-991 | Without errors it completes exactly when the whole input holds a delimiter, however it is cut |
| `Aggregators.MeanOneMore` | lib/aggregators.c:191-193 | The running mean step gives the mean of one more value |
| `Aggregators.DeviationOneMore` | lib/aggregators.c:343-349 | Welford's step gives the squared deviations of one more value from the new mean |
| `Aggregators.NextIsBatch` | lib/aggregators.c:343-349 | One update keeps count, mean and m2 equal to the batch statistics |
| `Aggregators.RunIsBatch` | lib/aggregators.c:303-352 | Over any interleaving of any groups every group holds the batch statistics of its values, and only groups with values are held |
| `Aggregators.HistoriesEndAlike` | lib/aggregators.c:303-352 | The order of the values, within and across groups, plays no part |
| `Aggregators.NeverNegative` | lib/aggregators.c:348-349 | m2 is never negative |
| `Aggregators.MeanIsClosest` | lib/aggregators.c:343-349 | The deviation from the mean is the least from any point |
| `Aggregators.BatchExactly` | lib/aggregators.c:343-349 | The batch statistics, value by value |
| `GroupFolds.UpdateHolds` | lib/aggregators.c:151-196 | An update of one group keeps every group's result right |
| `GroupFolds.RunHolds` | lib/aggregators.c:151-196 | So does every history |
| `GroupFolds.InterleavingPlaysNoPart` | lib/aggregators.c:151-196 | For results that ignore order, so does the interleaving of the groups |
| `GroupFolds.ForEachGroup` | lib/aggregators.c:207-218 | The final loop writes one result for every group |
| `Aggregators.SdAggregator.Add` | lib/aggregators.c:303-352 | The in-place update keeps the batch statistics |
| `Aggregators.SdAggregator.Finish` | lib/aggregators.c:354-390 | One variance per group, NaN for the unbiased one of a single value |
| `Aggregators.VarianceExactly` | lib/aggregators.c:371-379 | The biased variance times the number of values, and the unbiased one times one less, are the squared deviation; a single value has no unbiased variance |
| `Aggregators.MeanAggregator.Add` | lib/aggregators.c:151-196 | The in-place update keeps the batch means |
| `Aggregators.MeanAggregator.Finish` | lib/aggregators.c:198-225 | Every group's mean is its sum divided by its count |
| `ExprCode.Used` | lib/expr_code.c:22-57 | For any codes the count is at most target - start, and zero only at start |
| `ExprCode.NUsedCodes` | lib/expr_code.c:22-57 | The recursive loop computes that count, never goes before start and never takes its error exit |
| `ExprCode.ReadsOnlyAfterStart` | lib/expr_code.c:31-33 | The count depends on no code at or before start |
| `ExprCode.UsedIsSize` | lib/expr_code.c:22-57 | For the code of any expression the count is its size when it begins after start, one less when it begins at start |
| `ExprCode.ArityExactly` | lib/expr_code.c:35-41 | A code's own value is one of its arguments |
| `ExprCode.ValueIsOne` | lib/expr_code.c:36-41 | A value alone is one code |
| `ExprCode.CountedIsTree` | lib/expr_code.c:22-57 | For any codes a count below target - start covers exactly the code of one expression |

## Left out

- Mutexes, file locks, mmap and system calls: guarded regions are atomic steps; a failing map is the parameter `mapOk` and happens before any change.
- The allocation-failure and allocation-debug code of `lib/alloc.c`, and string duplication: they only add easy members.
- AllocContext.Context.Finish: states the unmapping of every segment, not the release of the other parts of a context.
- CacheMemory.MemoryCache.Fetch: leaves out the trace log that a value may carry, the references held by callers, and failures of the hash to add a key.
- CachePersistent.PersistentCache.Fetch: excludes the metadata key, which breaks the list (`CacheMetadata.MetadataFetchBreaks`); leaves out timeouts of the lock and the clearing of stored values on expiry.
- CacheFreshness.HitsAreCurrent: assumes that every modification records its second and that the clock does not go back.
- The layout of the trie and of the log file; recovery is modelled between trie operations, so a crash inside one, and the repair that follows it, are not part of the model.
- DatWal.RecoversWhenSkipping: holds for a log reader that passes over entries up to `wal_id`, which `lib/wal.c` does not; for the reader there see `DatReplay.RecoversCalm`.
- DatReplay.RecoversCalm: the condition on a file is sufficient, and exact for pairs of entries and for kinds; whether a longer file that does not meet it replays well depends on the table it met.
- DatGenerations.FilesAreKept: generations are unbounded; the wrap-around of the 32-bit `file_id` is not modelled.
- DatScan.Scan: the branch of `grn_dat_scan` without normalizers, and the normalizer itself, are not modelled.
- DbKeys.Rebuild: the renaming of files around the rebuilt table is not modelled.
- The copy and rename phases of database recovery, and the restoring of objects with a `#broken#` name.
- Accessor.Resolve: operators other than OR, and scores, are not modelled; record sets are compared.
- ComHeader.RecvText: the protocol field of the header, which is always HTTP, is not modelled; sockets, polling, the sending side and the message queue of `lib/com.c` neither.
- Aggregators.SdAggregator.Finish: states the variance; the square root, float rounding and the wrap-around of the 32-bit number of values are not modelled.
- `lib/arrow.cpp`, `lib/cast.cpp`, `lib/compressor.c` and `lib/distance*.cpp`: thin layers over other libraries, or floating point.
- Nothing was executed: all results are about the model.
