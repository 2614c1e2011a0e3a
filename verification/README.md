# Verified model of Gramine's synchronisation, memory and process-start core

Gramine runs unmodified Linux programs on a library OS (LibOS) that sits on a small host
layer (PAL). This project models the parts of Gramine whose correctness does not show in
one function body: the locks, the containers and allocators everything else is built on,
and the code that moves a process from one place to another. Each module proves what its
component promises over every input, every run or every reachable state.

| modules | component |
|---|---|
| `RwLock`, `RwLockProgress`, `RwLockFairness` | LibOS reader-writer lock, one atomic operation per step, any number of threads below 2^60 |
| `Seqlock` | sequence lock with its spinlock, 32-bit sequence number |
| `Slab`, `SlabRuns`, `SlabExact` | slab allocator, with the lock released while the system is asked for memory |
| `EarlyRanges`, `EarlySearch`, `EarlyRuns`, `EarlyMemory`, `EarlyFailures` | PAL's bookkeeping of memory before LibOS takes over |
| `AvlShape`, `AvlHeap`, `AvlRotate`, `AvlTree`, `AvlBalance`, `AvlHeights`, `AvlSwap`, `AvlSearch`, `AvlWalk`, `AvlDelete`, `Avl` | intrusive AVL tree on linked nodes |
| `CircularList` | intrusive circular doubly linked list |
| `CheckpointSpec`, `Checkpoint`, `CheckpointRestore` | checkpoint store, address map and restoring |
| `InitialStack` | argc, argv and envp on the first stack of a process |
| `PathSpec`, `PathUtils` | path normalisation in a bounded buffer |
| `Asan` | shadow memory of the address sanitiser |
| `Integers` | integer conversion of printf, and its inverse |

Conventions. Locks and the slab allocator are transition systems: a state, the atomic
operations of each thread, and theorems about every run. Code that works in place is
imperative: the AVL tree, the list, the range array, the shadow bytes and the stack are
linked nodes or arrays changed by methods, each tied to a function or relation on values.
The AVL proofs cut a tree at a node: a `Context` is everything outside the cut, and
`Zipped(c, t, h)` says that the links in snapshot `h` are those of `t` plugged into `c`.

## What turned out to be conditional

Some properties one would expect of the code hold only under a condition. The condition is
stated and proved exact, and a lemma gives inputs or a run from the start that fail without it.

- A sequence lock reader that is told not to retry has a consistent snapshot if fewer than
  2^31 write sections completed meanwhile (`Seqlock.ConsistentReads`). With k of them, some
  accepted read is torn if and only if k is a positive multiple of 2^31, where the sequence
  number is back at its start (`Seqlock.TornExactly`, with runs in `Seqlock.WrappedReadIsTorn`).
- The one-pass search for memory outside the reserved ranges is right exactly while every
  range already passed is out of reach (`EarlySearch.SyncIsNeeded`). A search that fails may
  have passed ranges that the next search needs (`EarlySearch.RetryAfterNoMem`,
  `EarlyFailures.RetryRun`).
- With the range array full, an allocation that takes part of a free range fails and the
  part is lost (`EarlyRuns.FullArrayLosesBytes`, `EarlyFailures.FullArrayRun`).
- A free range that spans the whole address space is never reused
  (`EarlyRuns.WholeSpaceIsNotReused`, `EarlyFailures.WholeSpaceRun`).
- The range left to LibOS may lie above the end of usable memory if no allocation was tried
  before and there is room above (`EarlyRuns.LibosRangeBound`,
  `EarlyFailures.LibosRangeAtStart`).
- The fast shadow check agrees with a check of every byte if and only if the shadow is
  regular (`Asan.CheckRegionIsExact`, with failing regions in `Asan.PartialIsOverlooked` and
  `Asan.NonsenseIsAlarming`); stack arrays keep it so.
- Path normalisation succeeds if and only if the text kept after every component fits, not
  just the result (`PathUtils.GetNormPath`, `PathSpec.ShortResultMayNotFit`).
- Zero printed with precision zero is no text at all, unless in the alternative octal form;
  then, and only then, it cannot be parsed back (`Integers.RoundTrip`).

## Model

| member | source | states |
|---|---|---|
| `RwLock.StepKeepsInv` | libos/src/libos_rwlock.c:38-92 | every atomic operation keeps the lock's invariant: counters equal a census of the threads' positions, for each of the eight things the mutex holder can mean to readers |
| `RwLock.RunKeepsInv` | libos/src/libos_rwlock.c:9-92 | the invariant holds at the end of every run from a newly created lock |
| `RwLock.WriterExcludesEveryone` | libos/src/libos_rwlock.c:57-92 | in every reachable state, while one thread writes no other thread writes, reads or is past its last wait |
| `RwLock.CountersStayExact` | libos/include/libos_rwlock.h:59-71 | in every reachable state no 64-bit counter update wraps around and the assertions of write lock and write unlock hold |
| `RwLock.WriterSignalsAreNeverLostNorStale` | libos/src/libos_rwlock.c:38-92 | in every reachable state `writer_wait` is signaled only while the mutex holder is at one of its two waits, and a thread about to signal it is alone, finds it clear and addresses the wait that is meant |
| `RwLock.QuiescentIsFresh` | libos/src/libos_rwlock.c:28-36 | when all threads are idle the lock is as created, so the assertions of destroy hold |
| `RwLock.DebugChecksHaveNoFalseNegatives` | libos/include/libos_rwlock.h:76-89 | a reader finds the lock read-locked and a writer finds it write-locked by itself |
| `RwLockProgress.WriterAndWaitingReader` | libos/src/libos_rwlock.c:38-71 | a reachable state with a writer inside and a reader waiting, so the theorems about reachable states are not empty |
| `RwLockProgress.NoDeadlock` | libos/src/libos_rwlock.c:38-92 | in every reachable state where some thread is busy, some busy thread can take a step |
| `RwLockProgress.WindsDown` | libos/src/libos_rwlock.c:38-92 | once no operation starts, every schedule is bounded by the work left, and one that cannot be extended ends with the lock as created |
| `RwLockProgress.StepRefines` | libos/include/libos_rwlock.h:59-74 | every step is a step of an abstract lock with a set of readers and at most one writer, or is invisible |
| `RwLockFairness.NoOvertaking` | libos/src/libos_rwlock.c:57-71 | from the claim of a writer until it releases the lock, no thread that did not hold the lock at the claim gets it for reading, or even past its last wait, in any run |
| `RwLockFairness.ClaimIsServed` | libos/src/libos_rwlock.c:57-71 | in any run with any newcomers, a writer waits after its claim for no more moves of the threads that stand between it and the lock than these had left at the claim, and one of them can always move |
| `RwLockFairness.WaitingReadersGoFirst` | libos/src/libos_rwlock.c:73-92 | in any run after a release, nobody writes before each reader that was waiting at the release has held the lock |
| `RwLockFairness.WriterGetsLock` | libos/src/libos_rwlock.c:57-71 | in any run, a thread that called write lock and is idle again later has held the lock for writing in between |
| `RwLockFairness.ReaderGetsLock` | libos/src/libos_rwlock.c:38-55 | in any run, a thread that had to wait in read lock and is idle again later has held the lock for reading in between |
| `RwLockFairness.CallStarts` | libos/include/libos_rwlock.h:59-66 | in every reachable state a reader gets the lock at once if and only if no writer has a claim on it, and else waits |
| `RwLockFairness.ClaimStarts` | libos/src/libos_rwlock.c:57-66 | in every reachable state a writer with the mutex gets the lock at once if and only if no reader is inside, and else waits for exactly the readers that are |
| `Seqlock.StepKeepsInv` | common/include/seqlock.h:48-86 | every step keeps the invariant: the sequence counts the write sections begun and ended, and a reader whose version is current has seen only that version |
| `Seqlock.RunKeepsInv` | common/include/seqlock.h:40-86 | the invariant holds after every legal schedule |
| `Seqlock.WritersExcludeEachOther` | common/include/spinlock.h:84-104 | after every schedule at most one thread is inside the spinlock, and the sequence is odd exactly while a thread is inside a write section |
| `Seqlock.FreeLockIsTaken` | common/include/spinlock.h:84-104 | a thread that seeks the spinlock while it is free and is left alone owns it after one turn, or two if it was spinning |
| `Seqlock.ReaderGetsIn` | common/include/seqlock.h:48-60 | after every schedule, a reader at the start of a section gets in if and only if no write section is open, and then at the current version |
| `Seqlock.SectionPublishes` | common/include/seqlock.h:73-86 | whatever other threads do, a write section publishes one version when it ends and nothing before; each word of it holds what was written to it last, or its former value |
| `Seqlock.ConsistentReads` | common/include/seqlock.h:48-68 | a read section that need not retry, with fewer than 2^31 completed write sections inside, got the value of the one version current at its start at every single read of a word |
| `Seqlock.VerdictIsExact` | common/include/seqlock.h:65-68 | no retry if and only if no write section is open and a multiple of 2^31 completed since the start |
| `Seqlock.WrappedReadIsTorn` | common/include/seqlock.h:65-86 | for every positive multiple of 2^31 a run with that many write sections inside a read section whose words agree with no version and which is told not to retry |
| `Seqlock.TornExactly` | common/include/seqlock.h:48-86 | for every number of completed write sections inside: some accepted read is torn if and only if the number is a positive multiple of 2^31 |
| `Slab.SettleTidy` | common/include/slabmgr.h:259-354 | what an allocation does under the lock hands out a slot that was not in use, of the right level and inside its area, and keeps free, used and untouched slots apart |
| `Slab.AllocInv` | common/include/slabmgr.h:325-354 | starting an allocation keeps the invariant of the whole manager |
| `Slab.GrantedInv` | common/include/slabmgr.h:275-282 | a grant of memory to a thread without the lock keeps the invariant |
| `Slab.ListedInv` | common/include/slabmgr.h:284-293 | adding a new area to the list, whatever other threads did meanwhile, keeps the invariant |
| `Slab.FreeInv` | common/include/slabmgr.h:394-445 | freeing a slot in use keeps the invariant |
| `Slab.StepKeepsInv` | common/include/slabmgr.h:259-445 | every step of every thread keeps the invariant |
| `SlabRuns.FindLevel` | common/include/slabmgr.h:299-309 | the level chosen is the smallest that is large enough, and none is chosen exactly for sizes above the largest |
| `SlabRuns.CreateSlabMgr` | common/include/slabmgr.h:196-235 | fails exactly when no halving of the startup size gets memory; else the areas are aligned, do not overlap, and all lie in the memory asked for, whose size the source computes by a formula of its own |
| `SlabRuns.CreatedInv` | common/include/slabmgr.h:187-235 | a new manager satisfies the invariant |
| `SlabRuns.RunKeepsInv` | common/include/slabmgr.h:187-445 | the invariant holds after every run |
| `SlabRuns.SlotsAccountedFor` | common/include/slabmgr.h:187-445 | after every run each slot of each listed area is in exactly one place: untouched, once on the free list, or in use |
| `SlabRuns.NoAreaLost` | common/include/slabmgr.h:259-296 | after every run each area the system granted is in the list of its level or held by a thread about to add it |
| `SlabRuns.NeverStuck` | common/include/slabmgr.h:259-296 | after every run an idle thread can allocate at every level, there is memory a thread could be granted, and a thread with new memory can add it |
| `SlabRuns.BuffersApart` | common/include/slabmgr.h:299-365 | after every run, for every request its level serves, the buffer of a slot in use is aligned to 16 bytes, lies in its slot and shares no byte with another slot in use, the header of any area or the manager |
| `SlabRuns.AllocationIsNew` | common/include/slabmgr.h:325-354 | after every run an allocation either takes one slot of its level that was not in use, or goes on to ask for memory and changes no slot |
| `SlabRuns.RequestGoesOn` | common/include/slabmgr.h:263-293 | after every run, whatever another thread does, an allocation that dropped the lock stays at its level; its own steps change no slot until the last, which takes one slot that was not in use without asking for memory again |
| `SlabRuns.RequestIsBounded` | common/include/slabmgr.h:263-293 | however long a run, an allocation that is still asking has taken at most as many turns as the number of slots it asked for has bits, and is at the same level |
| `SlabRuns.FailsExactly` | common/include/slabmgr.h:275-285 | however others interleave, an allocation that asked for n slots fails if and only if the system refused n and every halving of it |
| `SlabRuns.RequestIsServed` | common/include/slabmgr.h:299-365 | a request of n bytes given its level, ended at once or after the lock was dropped, gets a slot that was not in use with n aligned bytes that nothing else in use overlaps |
| `SlabExact.AsksExactly` | common/include/slabmgr.h:325-345 | after every run an allocation asks for memory if and only if every slot of every listed area of its level is in use; then it asks for as many slots as these areas have |
| `SlabExact.AllocHandsOut` | common/include/slabmgr.h:325-354 | after every run an allocation that does not ask for memory takes exactly one slot that was not in use: the first of the free list, or a slot never used; no other level changes |
| `SlabExact.FreeReturns` | common/include/slabmgr.h:394-445 | after every run a free takes exactly its slot out of use and puts it last in the free list of its level; no other level, area or thread changes |
| `SlabExact.FreeListIsQueue` | common/include/slabmgr.h:325-445 | in any run of any threads, a slot in the free list moves up by one with each allocation that ends at its level and with nothing else |
| `SlabExact.FreedIsServedAgain` | common/include/slabmgr.h:325-445 | after every run, a freed slot is handed out again by the allocation of its level that comes after as many others as there were slots in the free list |
| `EarlyRanges.InsertSound` | pal/src/pal_memory.c:97-111 | a range inserted at the first slot below it keeps the array descending, disjoint and coalesced |
| `EarlyRanges.InsertHolds` | pal/src/pal_memory.c:78-95 | insertion adds exactly the addresses of the range |
| `EarlyRanges.TakeSound` | pal/src/pal_memory.c:182-193 | a cut keeps the array sound, and the bytes cut off overlap no range |
| `EarlyRanges.TakeHolds` | pal/src/pal_memory.c:182-193 | a cut removes exactly the bytes cut off |
| `EarlyRanges.OneKind` | pal/src/pal_memory.c:66-67 | an address is never both free and used |
| `EarlyRanges.MarkFreeInPlace` | pal/src/pal_memory.c:113-145 | the two merges in place and one removal amount to merging with the next range and then into the previous one |
| `EarlyRanges.MarkFreeSound` | pal/src/pal_memory.c:113-145 | freeing keeps the array descending, disjoint and coalesced |
| `EarlyRanges.MarkFreeHolds` | pal/src/pal_memory.c:113-145 | freeing moves exactly the addresses of the range from used to free |
| `EarlySearch.FindAvoids` | pal/src/pal_memory.c:196-217 | from a cursor in sync, the place found touches no reserved range, even those read long before, and the cursor stays in sync |
| `EarlySearch.SyncIsNeeded` | pal/src/pal_memory.c:196-217 | being in sync is equivalent to every request being given a place clear of all reserved ranges |
| `EarlySearch.SinkHighest` | pal/src/pal_memory.c:205-213 | the search skips no place clear of all reserved ranges |
| `EarlySearch.TopDownIsSuitable` | pal/src/pal_memory.c:238-273 | a place found lies in bounds and overlaps no PAL range; from a cursor in sync it also overlaps no reserved range |
| `EarlySearch.TopDownIsHighest` | pal/src/pal_memory.c:238-273 | if any suitable place exists the search succeeds, at least as high |
| `EarlySearch.TopDownIsExact` | pal/src/pal_memory.c:238-273 | from a cursor in sync the search succeeds if and only if a suitable place exists, and returns the highest |
| `EarlySearch.RetryAfterNoMem` | pal/src/pal_memory.c:196-217 | a concrete request that fails and, repeated, is given a reserved range |
| `EarlyRuns.DoesSound` | pal/src/pal_memory.c:97-292 | adding, allocating and freeing all keep the array descending, disjoint, coalesced and within its capacity |
| `EarlyRuns.AllocConserves` | pal/src/pal_memory.c:238-273 | a successful allocation makes exactly its bytes used: from free ones when a free range fits, else from addresses that belonged to no range |
| `EarlyRuns.FreeConserves` | pal/src/pal_memory.c:277-292 | a successful free makes exactly its bytes free |
| `EarlyRuns.ReusedIsSmallest` | pal/src/pal_memory.c:161-194 | an allocation served from a free range gets the top of one that is as small as any that is large enough |
| `EarlyRuns.FullArrayLosesBytes` | pal/src/pal_memory.c:238-273 | an allocation from a free range fails if and only if the array is full and the range is larger; then exactly the bytes cut off are lost |
| `EarlyRuns.WholeSpaceIsNotReused` | pal/src/pal_memory.c:161-180 | although a free range is large enough, an allocation reuses none if and only if it is the only such range and spans the whole address space; then the allocation fails |
| `EarlyRuns.DoesBacks` | pal/src/pal_memory.c:97-292 | after any operation every live block is still a used range of its own |
| `EarlyRuns.DoesSynced` | pal/src/pal_memory.c:238-273 | every operation other than a failed search, a full array included, keeps the cursor in sync, and new addresses are in bounds and not reserved |
| `EarlyRuns.RunIsSound` | pal/src/pal_memory.c:97-292 | after any run the array is sound and every live block can be freed |
| `EarlyRuns.LiveBlocksApart` | pal/src/pal_memory.c:97-292 | in every run from the start, blocks handed out and not freed share no byte |
| `EarlyRuns.DoesUsed` | pal/src/pal_memory.c:78-292 | each operation changes the used ranges by exactly the range it hands out or takes back; all others keep bounds and protection |
| `EarlyRuns.UsedAreGiven` | pal/src/pal_memory.c:84-273 | after any run the used ranges that are not empty are exactly those handed out and not freed since, with the bounds and protection given when added, and readable and writable when allocated |
| `EarlyRuns.LiveBlockCanBeFreed` | pal/src/pal_memory.c:147-159 | after any run, freeing a block handed out and not freed since succeeds |
| `EarlyRuns.RunIsSynced` | pal/src/pal_memory.c:196-273 | after any run without a failed search the cursor is in sync |
| `EarlyRuns.SearchAfterGoodRun` | pal/src/pal_memory.c:196-273 | after such a run a successful search returns the highest address in bounds that is clear of all PAL ranges and all reserved ranges |
| `EarlyRuns.SearchSucceedsExactly` | pal/src/pal_memory.c:238-273 | after such a run, a request that no free range can serve succeeds if and only if the array has room and some place is clear of everything |
| `EarlyRuns.LibosRangeBound` | pal/src/pal_memory.c:355-376 | after any run, the range left to LibOS ends within usable memory if and only if an allocation was tried or no place clear of everything ends above it |
| `EarlyRuns.LibosRangeIsClear` | pal/src/pal_memory.c:355-376 | after any run, a range left to LibOS is in bounds below and overlaps no PAL range; if no search failed before, it also overlaps no reserved range and no such place is higher |
| `EarlyFailures.WholeSpaceRun` | pal/src/pal_memory.c:161-180 | a run from the start that adds and frees all memory, after which every request fails |
| `EarlyFailures.FullArrayRun` | pal/src/pal_memory.c:238-273 | a run from the start that fills the array, frees eight bytes and asks for four; the request fails and four bytes are neither free nor used |
| `EarlyFailures.RetryRun` | pal/src/pal_memory.c:196-273 | a run from the start of one request made twice; it fails and is then given a reserved range |
| `EarlyFailures.LibosRangeAtStart` | pal/src/pal_memory.c:355-376 | with nothing allocated and nothing reserved the range left to LibOS is the top of the address space, above usable memory |
| `EarlyMemory.Bookkeeper.constructor` | pal/src/pal_memory.c:64-67 | the bookkeeper starts empty, with no allocation made and nothing reserved read |
| `EarlyMemory.Bookkeeper.InsertRangeAt` | pal/src/pal_memory.c:78-95 | the array afterwards is the old one with the range at the index |
| `EarlyMemory.Bookkeeper.AddInitialRange` | pal/src/pal_memory.c:97-111 | the range goes in front of the first that ends below it, overlapping or not; fails, changing nothing, exactly when the array is full; keeps the array sound if nothing overlaps |
| `EarlyMemory.Bookkeeper.MarkRangeFree` | pal/src/pal_memory.c:113-145 | the array afterwards is the old one with the range freed and merged on both sides |
| `EarlyMemory.Bookkeeper.RemoveInitialRange` | pal/src/pal_memory.c:147-159 | succeeds exactly when the array holds the very range, in spite of the early exit, and frees it |
| `EarlyMemory.Bookkeeper.BestFitting` | pal/src/pal_memory.c:161-180 | finds the first of the smallest free ranges that are large enough, or there is none |
| `EarlyMemory.Bookkeeper.FindFreeRange` | pal/src/pal_memory.c:161-194 | succeeds exactly when a free range fits, and cuts the bytes off the top of the best one |
| `EarlyMemory.Bookkeeper.ReadNextReserved` | pal/include/pal_internal.h:261-272 | the cursor moves to the next range of the feed, or to an empty range at zero after the last |
| `EarlyMemory.Bookkeeper.FindNonReservedBelow` | pal/src/pal_memory.c:196-217 | result and cursor are those of the search function, for every cursor position |
| `EarlyMemory.Bookkeeper.OverlapsExistingRange` | pal/src/pal_memory.c:219-234 | reports an overlap exactly when there is one, in spite of the early exit, and where the first overlapping range starts |
| `EarlyMemory.Bookkeeper.SearchBelow` | pal/src/pal_memory.c:250-262 | the loop ends, and is the top-down search |
| `EarlyMemory.Bookkeeper.FindRoom` | pal/src/pal_memory.c:243-264 | room comes from the best free range if one fits, else from the search, and is vacant |
| `EarlyMemory.Bookkeeper.Bkeep` | pal/src/pal_memory.c:238-273 | once disabled changes nothing, else is one allocation in the sense of the run theorems |
| `EarlyMemory.Bookkeeper.MemFree` | pal/src/pal_memory.c:277-292 | once disabled changes nothing, else is one free in the sense of the run theorems |
| `EarlyMemory.Bookkeeper.Disable` | pal/src/pal_memory.c:355-376 | disables bookkeeping and leaves LibOS the range found from the last allocation downwards, or none |
| `AvlShape.BalancedIsShallow` | common/include/avl_tree.h:40-45 | a balanced tree of height h has at least Fib(h + 2) - 1 nodes |
| `AvlShape.HeightIsLogarithmic` | common/include/avl_tree.h:40-45 | 2^(h/2) is at most the number of nodes plus one, so walks are logarithmic |
| `AvlTree.FixupLink` | common/src/avl_tree.c:53-67 | the parent's link, on the side where it was, and the child's link back are replaced and nothing else |
| `AvlTree.Rot1L` | common/src/avl_tree.c:75-98 | exactly which fields of up to four nodes change, with both balance cases |
| `AvlTree.Rot1R` | common/src/avl_tree.c:100-123 | the mirror image |
| `AvlTree.Rot2RL` | common/src/avl_tree.c:125-164 | exactly which fields of up to six nodes change, with all three balance cases |
| `AvlTree.Rot2LR` | common/src/avl_tree.c:166-205 | the mirror image |
| `AvlTree.RotateSingle` | common/src/avl_tree.c:75-123 | in any surrounding tree, the links afterwards are those of the rotated shape |
| `AvlTree.RotateDouble` | common/src/avl_tree.c:125-205 | in any surrounding tree, the links afterwards are those of the doubly rotated shape |
| `AvlBalance.DoBalance` | common/src/avl_tree.c:210-243 | the right rotation is chosen, and the result says whether the height may have changed |
| `AvlBalance.UpdateBalance` | common/src/avl_tree.c:262-284 | only the balance field changes, and the result says whether the height of the subtree does |
| `AvlBalance.BalanceStep` | common/src/avl_tree.c:262-294 | one turn of the loop on linked nodes is one step of the shape, and goes on exactly when the height changed |
| `AvlHeights.UpdateStep` | common/src/avl_tree.c:262-284 | a turn without rotation keeps the order and leaves a balanced subtree whose height changed exactly when the code says so |
| `AvlHeights.RotateStep` | common/src/avl_tree.c:210-243 | a rotation keeps the order and gives a balanced subtree of the former height after an insertion, and of that or one less after a deletion, as the child's balance tells |
| `AvlHeights.Turn` | common/src/avl_tree.c:262-294 | whether or not it rotates, a turn keeps the order and its subtree is balanced with a height changed by one exactly when the loop goes on |
| `AvlHeights.TurnEnds` | common/src/avl_tree.c:258-304 | every turn keeps the order, and either leaves exactly one stale balance field one level up or a balanced tree |
| `Avl.Balance` | common/src/avl_tree.c:258-304 | from one stale balance field to a balanced tree with the same order, in at most as many turns as the node is deep, with at most one rotation after an insertion |
| `AvlWalk.IsBalancedSize` | common/src/avl_tree.c:543-570 | true exactly for trees whose balance fields are all right and small, whatever they hold, and the size is the height |
| `AvlWalk.Next` | common/src/avl_tree.c:371-383 | the next node in order, wherever the node hangs |
| `AvlWalk.Prev` | common/src/avl_tree.c:357-369 | the previous node in order, wherever the node hangs |
| `AvlDelete.TradePlaces` | common/src/avl_tree.c:427-446 | the fields of up to seven nodes after a node with two children trades places with the next one, adjacent or not |
| `AvlDelete.TradeWithNext` | common/src/avl_tree.c:417-451 | in any tree, the links afterwards are those of the same shape with the two nodes exchanged and the balances left in place |
| `AvlDelete.NextIsThin` | common/src/avl_tree.c:418-425 | in every balanced tree the next node of a node with two children has balance 0 or 1 and at most a leaf as child |
| `AvlDelete.FindNext` | common/src/avl_tree.c:418-425 | the next node is found, and what the source asserts of its fields and of those of its child holds |
| `AvlDelete.Unlink` | common/src/avl_tree.c:467-480 | in any tree, the only child takes the place of the node |
| `Avl.InsertedIsLowerBound` | common/include/avl_tree.h:50-52 | a node just inserted is the lower bound of itself, and taking it out again restores the sequence |
| `Avl.Tree.constructor` | common/include/avl_tree.h:47-53 | an empty tree is valid |
| `Avl.Tree.InsertUnbalanced` | common/src/avl_tree.c:22-49 | the node becomes a leaf between all smaller nodes and all others, so newer nodes come before equal ones |
| `Avl.Tree.Insert` | common/src/avl_tree.c:306-331 | the tree stays linked, balanced and sorted; its sequence is the old one with the node before the first that is not smaller; at most one rotation, and no more steps down or turns up than the tree is high |
| `Avl.Tree.Delete` | common/src/avl_tree.c:411-490 | the tree stays linked, balanced and sorted; its sequence is the old one without the node; fewer turns than the tree is high |
| `Avl.Tree.SwapNode` | common/src/avl_tree.c:333-355 | the tree stays linked, balanced and sorted; its sequence is the old one with one node replaced |
| `Avl.Tree.First` | common/src/avl_tree.c:385-396 | the first node of the sequence, or null |
| `Avl.Tree.Last` | common/src/avl_tree.c:398-409 | the last node of the sequence, or null |
| `Avl.Tree.NextOf` | common/src/avl_tree.c:371-383 | the node one position later, or null; going back from there leads to the node |
| `Avl.Tree.PrevOf` | common/src/avl_tree.c:357-369 | the node one position earlier, or null; going on from there leads to the node |
| `Avl.Tree.LowerBoundFn` | common/src/avl_tree.c:517-532 | the first node of the sequence for which a predicate, monotone in tree order, holds, in no more steps than the tree is high |
| `Avl.Tree.LowerBound` | common/src/avl_tree.c:534-539 | the first node of the sequence that is not smaller than the argument, or null, in no more steps than the tree is high |
| `Avl.Tree.Find` | common/src/avl_tree.c:492-515 | a node of the tree that compares equal, and null only if there is none, in no more steps than the tree is high |
| `CircularList.Head.Add` | common/include/list.h:171-181 | the ring is valid and its sequence is the new entry, then the old ones |
| `CircularList.Head.AddTail` | common/include/list.h:195-203 | the ring is valid and its sequence is the old entries, then the new one |
| `CircularList.Head.Delete` | common/include/list.h:216-230 | the ring is valid and its sequence lacks exactly the entry |
| `CircularList.Head.NextEntry` | common/include/list.h:246-247 | the entry one position later, null at the end |
| `CircularList.Head.PrevEntry` | common/include/list.h:250-250 | the entry one position earlier, null at the start |
| `CircularList.Join` | common/include/list.h:302-306 | two rings opened and closed crosswise are one ring, first one list and then the other |
| `CircularList.Head.Splice` | common/include/list.h:296-310 | the ring is valid and its sequence is the other list, then the old entries |
| `CircularList.Head.SpliceTail` | common/include/list.h:314-327 | the ring is valid and its sequence is the old entries, then the other list |
| `CircularList.ForEachSafe` | common/include/list.h:268-275 | with a body that deletes any entries at the cursor, every entry is visited once and in order, the loop ends, and the list keeps exactly the others in order |
| `CircularList.KeptExactly` | common/include/list.h:268-275 | what the list keeps is exactly what was in it and is not deleted |
| `CircularList.KeptInOrder` | common/include/list.h:268-275 | of two entries kept, the one that came first still does |
| `CheckpointSpec.LaysPoke` | libos/include/libos_checkpoint.h:165-173 | data words may hold anything, even entry types, without changing what a walk sees |
| `Checkpoint.Store.Reserve` | libos/include/libos_checkpoint.h:137-155 | what was written is kept when the store grows; a failure changes nothing and means the allocator had less room than twice what is needed |
| `Checkpoint.Store.AddEntry` | libos/include/libos_checkpoint.h:157-163 | one more entry behind all items, or no change |
| `Checkpoint.Store.AddData` | libos/include/libos_checkpoint.h:165-173 | one more block of data, rounded up to words, at an offset that is never zero |
| `Checkpoint.Store.AddNull` | libos/include/libos_checkpoint.h:305-308 | the end of all items is marked |
| `Checkpoint.NextEntry` | libos/include/libos_checkpoint.h:183-199 | the next entry past any data, or none exactly when none is left |
| `Checkpoint.Write` | libos/include/libos_checkpoint.h:137-173 | any items with any data can be walked from memory afterwards, across every growth of the store; it fails only for lack of room |
| `CheckpointRestore.Restore` | libos/src/libos_checkpoint.c:354-381 | the calls made, each with the values its function reads from later entries, which may depend on what it has read, and how it ends: done, at the first function that fails, or at the first that does not find an entry |
| `CheckpointRestore.GetEntry` | libos/include/libos_checkpoint.h:201-211 | the value of the first entry of the kind, past any others and any data, or none exactly when there is none |
| `CheckpointRestore.FindIsFirst` | libos/include/libos_checkpoint.h:201-211 | a lookup gives the value at the least index with an entry of the kind and stands behind that index, and gives none exactly if no index has one |
| `CheckpointRestore.GetEntries` | libos/include/libos_checkpoint.h:201-216 | one lookup after the other, each for a kind that may depend on the values before, gives all values and stands right behind the last |
| `CheckpointRestore.RestoresRecords` | libos/include/libos_checkpoint.h:157-211 | if for each call an entry and entries with its arguments are written, restoring makes exactly those calls, in order, with exactly those arguments |
| `CheckpointRestore.RestoreStops` | libos/src/libos_checkpoint.c:354-381 | all calls but the last work, and restoring fails if and only if the last does not |
| `CheckpointRestore.CallsAreForEntries` | libos/src/libos_checkpoint.c:354-381 | with functions that read nothing, restoring that is done called the function of every entry that has one, once and in order |
| `CheckpointRestore.SaveAndRestore` | libos/src/libos_checkpoint.c:354-381 | a checkpoint of records with any data anywhere between them, written to a store that grows, ended and restored, makes exactly the calls it was written for, in order and with their arguments; it fails only for lack of room |
| `Checkpoint.Walk` | libos/include/libos_checkpoint.h:183-199 | repeated reading gives all entries in order and nothing else, and ends |
| `Checkpoint.RoundTrip` | libos/include/libos_checkpoint.h:137-199 | for any items and any data, writing, ending and walking a checkpoint gives back exactly its entries in order; it fails only for lack of room |
| `Checkpoint.AddressMap.Get` | libos/src/libos_checkpoint.c:86-122 | the offset last put for the address, zero if none, for any hash function |
| `Checkpoint.AddressMap.Put` | libos/src/libos_checkpoint.c:40-122 | the map afterwards is the old one with the pair, and buckets stay free of duplicates; fails, changing nothing, exactly when the address is new, the newest buffer is full and none can be had |
| `Checkpoint.TiedGrows` | libos/include/libos_checkpoint.h:284-298 | new data has an offset that no other address has |
| `Checkpoint.AddObject` | libos/src/libos_checkpoint.c:197-202 | a new object is behind all items with its bytes in place and its address in the map, or the store or the map could not grow |
| `Checkpoint.CheckpointString` | libos/src/libos_checkpoint.c:187-210 | an object is written at most once: a known address keeps its offset and nothing changes, a new one gets a fresh offset where its bytes are; fails only if the store or the map cannot grow, and says which |
| `InitialStack.CopyStrings` | libos/src/libos_init.c:217-224 | succeeds exactly when the addresses do not meet the strings; then each string and its address are in place; nothing outside the two areas changes |
| `InitialStack.PutArray` | libos/src/libos_init.c:211-225 | a null-terminated array of addresses grows from below and its strings from above, or fails exactly when they do not fit |
| `InitialStack.Pack` | libos/src/libos_init.c:248-266 | the low part is moved to the highest aligned place below the strings, though source and target may overlap; the strings are kept and what it leaves is cleared |
| `InitialStack.LoadsMoved` | libos/src/libos_init.c:248-263 | what reads as argc, argv and envp in the low part does so after the move: each pointer is still the address of its string |
| `InitialStack.PopulateStack` | libos/src/libos_init.c:158-277 | succeeds if and only if everything fits; then the program finds argc, argv and envp at an address aligned to 16 bytes, with room for auxiliary vectors right below the strings and zeros below |
| `InitialStack.LoadsIsUnique` | libos/src/libos_init.c:176-197 | the finished memory determines argc, argv and envp: no other arguments and environment read from it |
| `PathSpec.NormShape` | common/src/path_utils.c:66-147 | a normal path is absolute exactly if the path is; split at its slashes it has no empty and no "." component, and ".." only at the start of a relative one |
| `PathSpec.NormIdempotent` | common/src/path_utils.c:66-147 | normalising twice is normalising once |
| `PathSpec.NormWalks` | common/src/path_utils.c:66-147 | from every directory the normal path leads where the path leads, where empty and "." components stay and ".." goes up, but never above the root |
| `PathSpec.NormDecides` | common/src/path_utils.c:66-147 | two paths, both absolute or both relative, have the same normal path if and only if they lead to the same place from every directory |
| `PathSpec.JoinSplit` | common/src/path_utils.c:26-31 | the components with slashes between them are the path |
| `PathSpec.NormFits` | common/src/path_utils.c:66-147 | a buffer as large as the path is always enough, and the result is never longer |
| `PathSpec.ShortResultMayNotFit` | common/src/path_utils.c:66-147 | for every name and every buffer too small for it, the name followed by ".." has a result that fits and still fails |
| `PathUtils.FindNextSlash` | common/src/path_utils.c:26-31 | the position of the next slash or of the end |
| `PathUtils.FindPrevSlashOffset` | common/src/path_utils.c:40-59 | the last slash that is not at the end, or position zero, and which of the two |
| `PathUtils.GetNormPath` | common/src/path_utils.c:66-147 | succeeds if and only if the text after every component fits; then the buffer holds the normal path with its terminator and the size is exact; nothing behind the buffer is written |
| `PathUtils.LastComponent` | common/src/path_utils.c:159-164 | the loop over slashes ends with the part after the last one |
| `PathUtils.BaseNameIs` | common/src/path_utils.c:154-164 | the last component has no slash, and is the path or follows a slash at its end |
| `PathUtils.GetBaseName` | common/src/path_utils.c:154-175 | succeeds if and only if the part after the last slash fits; then the buffer holds it; else nothing changes |
| `Asan.CheckRegionLoop` | common/src/asan.c:231-255 | the loop decides the fast check for every region, also empty ones and ones inside a granule |
| `Asan.CheckRegionIsExact` | common/src/asan.c:231-255 | the fast check agrees with a check of every byte on all regions if and only if the shadow is regular |
| `Asan.PartialIsOverlooked` | common/src/asan.c:231-255 | a region with a poisoned byte that passes, for every partly poisoned granule before a usable one |
| `Asan.NonsenseIsAlarming` | common/src/asan.c:231-255 | a region without poison that fails, for every meaningless value between usable bytes |
| `Asan.PoisonRegion` | common/src/asan.c:32-39 | exactly the granules of the region get the value |
| `Asan.UnpoisonRegion` | common/src/asan.c:62-71 | of the granules of the region exactly the bytes of the region can be used, and no other granule changes |
| `Asan.PoisonRightRedzone` | common/src/asan.c:45-59 | the granule the array ends in becomes partial, all others up to the end get the value, and no other changes |
| `Asan.AllocaPoison` | common/src/asan.c:331-340 | the value of every shadow byte after an array is put on the stack |
| `Asan.AllocaIsExact` | common/src/asan.c:331-340 | byte by byte: the array can be used, its two redzones cannot, all other bytes are as before |
| `Asan.AllocaKeepsRegular` | common/src/asan.c:331-340 | a regular shadow stays regular, so the fast check stays exact |
| `Integers.StoreIsEnough` | common/src/printf.c:254-259 | 0x20 characters hold every 64-bit value in every base |
| `Integers.PutDigits` | common/src/printf.c:268-284 | the store ends with the digits and is otherwise still zeros |
| `Integers.PutPadded` | common/src/printf.c:286-288 | the store ends with the digits and zeros up to the precision |
| `Integers.PrintInteger` | common/src/printf.c:212-312 | for every signed and unsigned 64-bit value no index leaves the store, and its end is the sign the value and flags ask for, prefix, zeros up to the precision and digits |
| `Integers.TextShape` | common/src/printf.c:254-288 | the text is at least as many digits as the precision, behind "0x" exactly for values other than zero in the alternative hexadecimal form, and with a leading zero in the alternative octal form |
| `Integers.PrintedReadsBack` | common/src/printf.c:212-312 | printed text has a minus exactly for negative values, a plus or a blank exactly for others that are signed when asked for, and the rest is parsed back as the magnitude, except when zero was printed as nothing |
| `Integers.StrToUlong` | common/src/string_utils.c:53-80 | for every 32-bit base, the number all leading digits make up, and where they end; fails exactly when there are none or it exceeds 64 bits, in spite of stopping at the first overflow |
| `Integers.OneCharacter` | common/src/string_utils.c:104-119 | which number each decimal digit and each letter of either case stands for, that it must be below the base, that no other character is a digit, and that from base 2^31 on none is |
| `Integers.OneMoreDigit` | common/src/string_utils.c:53-80 | with one more digit the number is base times as large plus the digit, or parsing fails exactly if that exceeds 64 bits |
| `Integers.RoundTrip` | common/src/string_utils.c:53-80 | every 64-bit value printed in any base, precision and form is parsed back completely, except when zero was printed as nothing |

## Left out

- Weak memory: atomic operations take effect in one order; acquire, release and fences are not modelled.
- Threads of the reader-writer lock are fewer than 2^60, the weight of a writer, as its header demands.
- PAL events are values with the documented wait, set and clear; failed waits are retried and change nothing.
- Host memory calls, upcalls into LibOS and range comments in pal_memory.c; the reserved ranges are a fixed descending sequence, as the feed promises.
- EarlyMemory.Bookkeeper.Disable: requires at least 20 bytes of total memory, because below that the size is zero and the overlap assertion fails.
- EarlyMemory.Bookkeeper.Bkeep: requires a size above zero when no free range fits, as the overlap assertion of the search demands.
- EarlyMemory.Bookkeeper.FindRoom: the same.
- EarlyMemory.Bookkeeper.AddInitialRange: the range ends inside the address space; one whose end wraps around is not modelled.
- Comparison functions of the AVL tree are pure functions of node identity, total and transitive on the nodes involved.
- Slab: one critical section of the lock is one step; objects above the largest level, canaries, ASAN variants, address overflow and destroying a manager are not modelled.
- CircularList: add-after, reverse iteration, move and the variants that reset the other head; they are compositions of the members here.
- CheckpointRestore.Restore: a restore function is which entries it reads and whether it succeeds; what it does with them is not modelled.
- Checkpoint.Store.Reserve: the doubled bound does not overflow, and words are the unit of memory; all sizes are multiples of a word.
- InitialStack: a word on the stack is kept as eight cells that name it, not as little-endian bytes, addresses do not wrap around, and the global pointer to the environment is left out.
- Integers.PrintInteger: field width, padding, length modifiers, parsing of the format and output in pieces are not modelled.
- The rest of the repository: system calls, file systems, IPC and the sync engine, signal handling, process creation, memory areas of LibOS, the memory manager of fixed-size objects, the SGX host and its attestation, networking, manifests and the Python tools.
