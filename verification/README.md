# A model of the Boehm-Demers-Weiser collector

This project models the collector `gc-8.0.4` that the Lox interpreter links with, and proves the properties it is
trusted for.  `dafny verify dfyconfig.toml` checks all of it.

| file | what it models |
|---|---|
| `MarkHeap.dfy`, `Marker.dfy` | the marker: mark phases, a bounded mark stack that overflows, interleaving with the mutator, dirty bits |
| `Partial.dfy`, `StoreProtocol.dfy` | what partial collections depend on, and a run that shows that less is not enough |
| `Collector.dfy` | the driver: marking with the world stopped, incremental marking, full collections |
| `ParallelMark.dfy`, `ParallelHeap.dfy` | parallel marking as a transition system over atomic steps of any number of threads; what it does to the heap |
| `RangeScan.dfy` | the chunked conservative scan, byte by byte |
| `BlockLists.dfy`, `BlockMap.dfy`, `BlackList.dfy`, `Search.dfy`, `Allocator.dfy` | the allocator of heap blocks: free lists, splitting, coalescing, black lists, the search for room, accounts |
| `Unmapping.dfy`, `HugeHeaps.dfy` | merging of free chunks when memory may be unmapped; heaps of half the address space and more |
| `HeaderIndex.dfy`, `IndexedHeap.dfy` | the two-level index from addresses to headers, `GC_base`; the index together with the allocator |
| `HashTable.dfy`, `Registrations.dfy`, `Links.dfy`, `Reach.dfy`, `Running.dfy`, `Finalize.dfy` | finalization: hash tables, ordering, the ready queue, weak links, the mutator meanwhile |
| `RootRanges.dfy` | root ranges and exclusions |
| `SizeMap.dfy` | size classes |
| `Platform.dfy`, `Arithmetic.dfy` | constants of the configuration, and what several parts share |

## What is proved

*Marking is safe.*  `Marker.Marker` keeps one invariant (`Marker.Marker.Inv`, built on `MarkHeap.Safe`) through every
step of every phase, with arbitrary stores by the mutator between any two words read: a marked object is still to be
scanned, or was stored into lately, or has only marked targets, or the phase has still to come back to it.  From it
follows what `GC_stopped_mark` has marked when it succeeds (`Collector.Collector.StoppedMark`), however often the mark
stack overflowed and whatever was given up before: nothing that the marker could not reach, and everything reachable, if
the collection was a full one, or if stores not reported yet were covered when it began; and if it was neither, and the
mark stack did not overflow, something reachable is left out.
Marking ends even if the stack never grows: each call of `GC_mark_some` comes closer by a lexicographic measure led by
the set of marked objects (`Marker.Marker.MarkSome`, `Collector.Collector.MarkUntilDone`).

*Parallel marking loses no work* in any interleaving (`ParallelMark.NoWorkIsLost`).  Its termination detection does not get
stuck, waiting on the condition variable included (`ParallelMark.SomeoneCanMove`), and no wakeup is lost
(`ParallelMark.NoWakeupIsLost`).  On the heap, with mark bits set by several threads and a mutator that may be running, it
ends with the same invariant as marking by one thread (`ParallelHeap.ParallelMarkIsSafe`, `ParallelHeap.MarkInParallel`).

*The block allocator keeps its books.*  `Allocator.Allocator.Valid` says that used and free chunks tile the heap, that
every free list is a well-formed doubly linked list of exactly the free chunks whose size belongs there, that all counts
agree, and that in heaps of less than half the address space no two free chunks lie side by side.  All public operations
keep it, and say exactly which chunks there are afterwards.  The search for a chunk fails only if there is none; otherwise
it decides on one chunk and one place in it (`Allocator.Best`): an exact match if there is any, or else from the first
list that has a chunk that can be used, the first there that is not followed by a better one, and in it the lowest clean
place.

*The index agrees with the partition of the heap* (`HeaderIndex.Agrees`), so forwarding counts lead to block heads across
table boundaries, the walkers return the nearest blocks, and `GC_base` finds the one object slot that holds an address.
No operation changes the object size of any other chunk in use (`HeaderIndex.Index.Sizes`).
`IndexedHeap.IndexedHeap` puts index and allocator together: the partition is the one the allocator works on, also when a
search drops black-listed chunks and takes blocks out of the middle of a chunk.

*Finalization runs on top of the marker itself.*  `Finalize.Finalizer.Finalize` uses the marker's own methods, overflow
included, while the mutator goes on with the objects it can reach: nothing is queued that can be reached from any
registered object, and every unmarked registered object that no such object leads to is queued, unless the mark stack
overflowed at its turn.  Everything the queued objects reach is marked, links are cleared exactly when their target is
dead, and each registration is in exactly one place until it is invoked, once.

### How the source is read

- Addresses in the marker count words, and candidate pointers are word aligned; `RangeScan` treats other alignments.
- The layout of blocks and objects is fixed while marking; allocation by the mutator shows as stores.
- A store and the call of `GC_dirty` that reports it are two steps.  Stores between the two matter to a collection that
  relies on sticky mark bits: a marked object on no page reported dirty is not looked into.  Such a collection is complete
  if what these stores put into such objects can be reached without looking into them, and, unless the mark stack
  overflows, only then (`Collector.Collector.StoresCovered`, `Partial.CoveredIsComplete`, `Partial.CompleteIsCovered`).  The
  two directions differ in whether words that descriptors leave out count, since accelerated scans read them; where there
  are no such words the condition is exact (`Partial.NoGap`).  It holds if what was stored is also on some stack or in a
  register (`Marker.Marker.Held`, `Partial.HeldIsCovered`), which is what `GC_reachable_here` is for.
- gc-8.0.4/os_dep.c:2807-2811 asks only that the object written to be kept there.  That is not enough, because the call of
  `GC_dirty` at gc-8.0.4/mark.c:1500 is made after the dirty bits of this cycle were read: if the object is marked
  already, it is not scanned again before the next cycle (`StoreProtocol.KeepingTheObjectIsNotEnough`).  An overflow makes
  the marker look at everything again.  Full collections need no such condition.
- Root ranges fit in a quarter of the initial mark stack.  Requests for memory (`alloc_mark_stack`, `GC_scratch_alloc`,
  tables and their entries) may fail, except where the parameter `memory` says that they do not.  `stop_func` and the
  timing heuristics decide arbitrarily.
- Chunks are not joined if the result would have half the address space or more, as in the source, whose own assertion
  about adjacent free blocks (gc-8.0.4/allchblk.c:369-373) exempts such heaps.  In heaps below that size no neighbours that
  could be joined are ever left apart (`HugeHeaps.SmallHeapsAreMerged`); for every larger size there is a run of the
  allocator that leaves some (`HugeHeaps.StaysSplit`).
- gc-8.0.4/allchblk.c:38-39 says that sizes up to 32 blocks each have a free list of their own.  By the code list 32 also
  holds the sizes from 33 to 39 (`Allocator.SizesOnList`).
- gc-8.0.4/mark.c:907-912 says that the count of active markers stays zero for the cycle once it returns to zero.  That
  is so for every run if and only if there is at most one helper (`ParallelMark.StaysZeroIff`).  With two, one may be the
  last active thread and leave, and the other may join before the thread that asked for help gets hold of the lock again
  (`ParallelMark.ActiveCountMayRise`).  Whether the count can still rise shows in the state: help is wanted, and some
  thread has not joined (`ParallelMark.RisesIff`, `ParallelMark.StaysZero`).  It does no harm.
- The test for a nearly full mark stack at gc-8.0.4/mark.c:1387 and 1397 compares unsigned numbers, and so holds of an empty
  stack too: `GC_push_selected` then pushes all that is left of the range.  The model does the same
  (`Marker.Marker.NearlyFull`).
- gc-8.0.4/mark_rts.c:575 calls its overlap test incomplete.  For tables built by the function itself it is complete
  (`RootRanges.MeetsFirst`).  When the table is full, the source may shift entries one place past its end before it
  aborts.  The model does the same, in an array with one more element for what lies behind the table;
  `RootRanges.Exclusions.ExcludeStaticRoots` says exactly when that happens and `RootRanges.OverrunHappens` is a run to it.
- If the mark stack overflows while `GC_MARK_FO` (gc-8.0.4/include/private/gc_pmark.h:435-443) works on an object, the object
  itself gets marked and is not queued this time.  It cannot happen while the mark stack has more entries than there are
  unmarked objects (`Finalize.Finalizer.Roomy`).
- `GC_finalize` runs with the world running.  The mutator cannot get at hidden pointers without the lock
  (gc-8.0.4/include/private/gc_pmark.h:429-431), so all it has are objects that were marked by then.  It may store pointers
  to these into these and into roots between any two steps (`Running.Touched`, `Finalize.Finalizer.MutateNow`), at words
  that are given (`Finalize.Finalizer.busy`); all other words are known exactly.  The scan of one mark stack entry is one
  step, and so is, after an overflow, a call of `GC_mark_some`.  Without an overflow an entry names only words that the
  mutator cannot store into (`Finalize.Finalizer.Private`).
- Hidden pointers are represented by the pointers they hide, headers by their contents, and the nodes of hash chains and
  the ready queue by elements of sequences.

## Model

| member | source | states |
|---|---|---|
| `MarkHeap.PendingPushed` | gc-8.0.4/mark.c:602-617 | an overflowing push loses entries and adds only the new one; a push that does not overflow loses nothing |
| `MarkHeap.MarkAndPushKeeps` | gc-8.0.4/include/private/gc_pmark.h:264-361 | setting a mark bit and pushing the object keeps the marker's invariant, unless the state becomes invalid |
| `MarkHeap.CollectionStarts` | gc-8.0.4/mark.c:249-274 | after reading the dirty bits the invariant holds with grungy blocks still to be visited |
| `MarkHeap.PartialStarts` | gc-8.0.4/mark.c:249-274 | when a partial collection starts the invariant holds although words of objects it will visit are forgotten, and what it marks without an overflow is bounded by what can be reached without looking into the others |
| `MarkHeap.LiveSetClosed` | gc-8.0.4/mark.c:634-898 | what can be reached through any word is closed under following pointers: the bound on what may be marked |
| `MarkHeap.NearSetBound` | gc-8.0.4/mark.c:634-898 | what can be reached without looking into some objects is closed under following pointers from all others |
| `Marker.Marker.Mutator` | gc-8.0.4/os_dep.c:2801-2816 | any stores and reports between two steps of the marker keep its invariant; every changed word is remembered |
| `Marker.Marker.Dirty` | gc-8.0.4/os_dep.c:3674-3684 | the page hash is set, and no word of the object is left unreported |
| `Marker.Marker.PushObj` | gc-8.0.4/include/private/gc_pmark.h:122-140 | pushes the descriptor without marking; overflow makes the state invalid and drops entries |
| `Marker.Marker.MarkAndPush` | gc-8.0.4/include/private/gc_pmark.h:349-358 | exactly the object gets marked, the invariant holds, marked objects change nothing |
| `Marker.Marker.PushContents` | gc-8.0.4/include/private/gc_pmark.h:404-411 | marks the target of a valid pointer and nothing else |
| `Marker.Marker.PushOneStack` | gc-8.0.4/mark.c:1475-1509 | the same for words on stacks; the page of the word becomes dirty, and no store into the object is left unreported |
| `Marker.Marker.FindDeferred` | gc-8.0.4/mark.c:835-858 | the backward search sets aside the last plausible word; the words passed need no scan |
| `Marker.Marker.ScanRange` | gc-8.0.4/mark.c:816-894 | after both loops no word of the range needs a scan any more, whatever was stored meanwhile |
| `Marker.Marker.ScanBitmap` | gc-8.0.4/mark.c:721-770 | the same for the words whose bit is set |
| `Marker.Marker.MarkOne` | gc-8.0.4/mark.c:656-720 | one entry is taken off, large ranges piece by piece; the invariant holds and work decreases or an object was marked |
| `Marker.Marker.MarkFrom` | gc-8.0.4/mark.c:634-898 | marking from the stack keeps the invariant and makes progress, or marks a new object |
| `Marker.Marker.ScanObject` | gc-8.0.4/mark.c:1686-1835 | the word-by-word scan of small marked objects leaves the object done |
| `Marker.Marker.PushMarked` | gc-8.0.4/mark.c:1844-1897 | all marked objects of a block are taken care of, unless the stack overflowed, and then a new object was marked |
| `Marker.Marker.BlockWasDirty` | gc-8.0.4/mark.c:1941-1955 | true exactly if some page of the block is in the table |
| `Marker.Marker.PushNext` | gc-8.0.4/mark.c:1960-2050 | the next relevant block is pushed and none is skipped; at the end of the heap nothing is left to visit |
| `Marker.Marker.PushAll` | gc-8.0.4/mark.c:1339-1358 | exactly the words of the range are added to those waiting on the stack |
| `Marker.Marker.PushSelected` | gc-8.0.4/mark.c:1370-1412 | every word on a dirty page of the range is on the stack, also when the stack is nearly full; no other word of the range is added unless it is, and never one with no dirty page at or before it; from an empty stack there is at most one entry |
| `Marker.Marker.PushStatics` | gc-8.0.4/mark_rts.c:900-915 | all static words are on the stack, even if only dirty pages are asked for, since pages outside the heap count as dirty |
| `Marker.Marker.PushAllEager` | gc-8.0.4/mark.c:1576-1599 | the targets of all words of the range are marked, and with the world stopped all of them are taken to be dirty |
| `Marker.Marker.PushAllStack` | gc-8.0.4/mark.c:1601-1616 | stack words are pushed, or marked and reported eagerly when interior pointers count only there |
| `Marker.Marker.PushRoots` | gc-8.0.4/mark_rts.c:889-957 | with the world stopped all roots are taken care of, or the state is invalid and a new object was marked; where stacks are looked at eagerly all that they point to is dirty |
| `Marker.Marker.AllocMarkStack` | gc-8.0.4/mark.c:1284-1325 | the stack is replaced by a larger one, or, without memory, stays; the invariant holds |
| `Marker.Marker.FinishScan` | gc-8.0.4/mark.c:342-371 | after the last block the roots are pushed and the last phase starts, unless the stack overflowed on a new object |
| `Marker.Marker.Rescan` | gc-8.0.4/mark.c:391-425 | recovery from overflow: each call passes a block, ends a pass or starts one, or marks a new object |
| `Marker.Marker.FinishMarking` | gc-8.0.4/mark.c:380-388 | with an empty stack all marked objects and, with the world stopped, all roots have marked targets |
| `Marker.Marker.MarkSome` | gc-8.0.4/mark.c:310-431 | keeps the invariant in every state; when it returns TRUE marking is complete; otherwise it came strictly closer to the end; the stack is doubled, if it was too small and there is memory, at the start of a pass and at the end, and at no other time |
| `Marker.Marker.ClearMarks` | gc-8.0.4/mark.c:239-245 | only uncollectable objects stay marked |
| `Marker.Marker.InvalidateMarkState` | gc-8.0.4/mark.c:596-600 | the invariant is given up with the stack |
| `Marker.Marker.ReadDirty` | gc-8.0.4/os_dep.c:3690-3729 | dirty bits become grungy bits, unless unneeded, and are cleared |
| `Marker.Marker.InitiateGc` | gc-8.0.4/mark.c:249-274 | starts a partial or a full collection with the invariant in force |
| `Collector.Collector.StoppedMark` | gc-8.0.4/alloc.c:714-856 | on success everything marked is reachable; everything reachable is marked after a full collection, after an overflow, or if unreported stores were covered; a partial one marks at least all that can be reached without looking into unvisited objects, and one without overflow that is complete had the stores covered; it may fail only if allowed to stop; the dirty pages afterwards are those that stacks point to, where stacks are looked at eagerly, and no others in any case |
| `Collector.Collector.MarkFromRoots` | gc-8.0.4/alloc.c:762-796 | the same for the part with the world stopped |
| `Collector.Collector.Conclude` | gc-8.0.4/alloc.c:714-796 | coverage of unreported stores decides whether a finished partial collection without overflow is complete; full ones are |
| `Partial.CoveredIsComplete` | gc-8.0.4/mark.c:249-274 | marking that left out only covered words has marked everything live |
| `Partial.CompleteIsCovered` | gc-8.0.4/mark.c:249-274 | conversely, complete marking that stayed within reach had its unreported words covered |
| `Partial.NearIsMarked` | gc-8.0.4/include/private/gc_pmark.h:459-466 | when marking is done everything that can be reached without looking into unvisited objects is marked |
| `Partial.HeldIsCovered` | gc-8.0.4/os_dep.c:2807-2811 | stores of pointers that are also on a stack or in a register are covered |
| `Partial.NoGap` | gc-8.0.4/mark.c:1686-1835 | where descriptors name all words, sufficient and necessary condition agree |
| `StoreProtocol.KeepingTheObjectIsNotEnough` | gc-8.0.4/os_dep.c:2801-2816 | a run in which each object written to is on a stack, and yet a partial collection leaves a live object unmarked |
| `Collector.Collector.MarkUntilDone` | gc-8.0.4/alloc.c:762-796 | the marking loop ends, complete or given up |
| `Collector.Collector.MarkALittle` | gc-8.0.4/alloc.c:620-669 | incremental work finishes the collection, which stayed within reach, marked all within reach of visited objects, and is complete if and only if the unreported stores found at the stop were covered or the mark stack overflowed; what it found accounts for every store since it was called; or it brings the end strictly nearer, despite attempts given up |
| `Collector.Collector.FinishStopped` | gc-8.0.4/alloc.c:642-658 | the final pause achieves the same for what it finds at its start, or is given up, which is counted and limited |
| `Collector.Collector.FinishInProgress` | gc-8.0.4/alloc.c:499-513 | doing all incremental work now ends the collection in progress, with the same result; what was found accounts for every store since the call if no attempt could be given up |
| `Collector.Collector.TryToCollect` | gc-8.0.4/alloc.c:485-570 | a full collection marks everything reachable from roots and uncollectable objects, and nothing that no word leads to from there; a collection in progress is finished first |
| `Collector.Collector.MaybeGc` | gc-8.0.4/alloc.c:407-459 | a full collection that is done is complete and started from uncollectable objects alone, and a partial one is complete if and only if the unreported stores at its start were covered or the mark stack overflowed; one given up leaves the marker ready to go on, with the attempt counted |
| `Collector.Collector.CollectALittle` | gc-8.0.4/alloc.c:620-669 | a collection that ends is complete under the same condition, with all stores since the call accounted for; one in progress comes nearer to its end |
| `Collector.Collector.AllTraced` | gc-8.0.4/os_dep.c:2807-2811 | every word stored into while the world runs is found unreported or in a dirty block |
| `ParallelMark.StepKeepsInv` | gc-8.0.4/mark.c:968-1257 | every step of every thread keeps the invariant on frontiers, counters, entries, termination, sleeping threads, and who watches the shared stack |
| `ParallelMark.RunKeepsInv` | gc-8.0.4/mark.c:968-1257 | and so does every run |
| `ParallelMark.NoWorkIsLost` | gc-8.0.4/mark.c:1201-1229 | when `GC_do_parallel_mark` returns, the stack is empty, all helpers left, and every entry was scanned or the state is invalid |
| `ParallelMark.InvalidIff` | gc-8.0.4/mark.c:1009-1028 | in every run the state is invalid just if it was at the start or a local or the shared stack has overflowed |
| `ParallelMark.AllIsScanned` | gc-8.0.4/mark.c:1201-1229 | in a run without an overflow every entry was scanned at the return |
| `ParallelMark.NothingFullIsPassed` | gc-8.0.4/mark.c:1101-1195 | nothing non-empty lies below `GC_first_nonempty` or behind a thread's own copy |
| `ParallelMark.NothingAfterFinish` | gc-8.0.4/mark.c:1218-1229 | after the return no thread does anything |
| `ParallelMark.SomeoneCanMove` | gc-8.0.4/mark.c:1120-1184 | until the return some thread that takes part is awake and can do something other than wait again |
| `ParallelMark.InactiveIsEmpty` | gc-8.0.4/mark.c:1156-1184 | when no thread is active `GC_first_nonempty` is past the top of the shared stack |
| `ParallelMark.OnlyJoinRaises` | gc-8.0.4/mark.c:907-912 | at active count zero no thread resumes, and a step makes the count positive if and only if a thread joins |
| `ParallelMark.StaysZero` | gc-8.0.4/mark.c:907-912 | in every run, once the count is zero and nobody can join any more, it stays zero |
| `ParallelMark.RisesIff` | gc-8.0.4/mark.c:907-912 | at count zero some step raises it if and only if help is wanted and some thread has not joined |
| `ParallelMark.StaysZeroIff` | gc-8.0.4/mark.c:907-912 | the count stays zero in every run of the given threads if and only if there is at most one helper |
| `ParallelMark.ActiveCountMayRise` | gc-8.0.4/mark.c:907-912 | for any threads with two helpers among them, a run in which the active count goes up after it was zero |
| `ParallelMark.NoWakeupIsLost` | gc-8.0.4/mark.c:1147-1155 | a waiting thread sleeps only while some thread is active, and if there is work on the shared stack another is about to notify it |
| `ParallelHeap.HeapStep` | gc-8.0.4/mark.c:634-898 | every step of every thread, and every store by the mutator, keeps the tricolour invariant with the entries not scanned yet as the grey words |
| `ParallelHeap.HeapRunKeepsInv` | gc-8.0.4/mark.c:1201-1229 | and so does every run that starts from the mark stack |
| `ParallelHeap.ParallelMarkIsSafe` | gc-8.0.4/mark.c:1201-1229 | when `GC_do_parallel_mark` has returned and the state is not invalid, all marked objects and, with the world stopped, all roots have marked targets; in any case nothing out of reach was marked |
| `ParallelHeap.MarkInParallel` | gc-8.0.4/mark.c:364-386 | the branch of `GC_mark_some` that marks in parallel ends the mark phase with everything dealt with, or leaves the marker ready for recovery |
| `RangeScan.Halved` | gc-8.0.4/mark.c:680-704 | the two halves of a shared range miss no position of it |
| `RangeScan.CutOff` | gc-8.0.4/mark.c:705-720 | first piece and rest have every position in exactly one of them |
| `RangeScan.ScanBack` | gc-8.0.4/mark.c:835-858 | the backward loop considers each position above the deferred one once |
| `RangeScan.ScanPiece` | gc-8.0.4/mark.c:816-894 | both loops together consider each aligned position once |
| `RangeScan.ScanRange` | gc-8.0.4/mark.c:634-898 | each aligned position of the range, and no other, is considered; exactly once unless ranges are shared |
| `BlockLists.UnlinkAll` | gc-8.0.4/allchblk.c:300-320 | unlinking a block keeps all lists well formed and takes it off every list |
| `BlockLists.PushFrontAll` | gc-8.0.4/allchblk.c:359-388 | linking a block in front keeps all lists well formed |
| `BlockLists.ReplaceAll` | gc-8.0.4/allchblk.c:561-590 | so does putting one block in the place of another |
| `BlockMap.CutTiles` | gc-8.0.4/allchblk.c:561-590 | cutting a chunk keeps the heap tiled |
| `BlockMap.JoinedTiles` | gc-8.0.4/allchblk.c:884-911 | joining neighbours keeps the heap tiled |
| `BlockMap.FreedIsCoalesced` | gc-8.0.4/allchblk.c:884-915 | freeing and joining on both sides leaves no two free neighbours |
| `BlockMap.CarvedIsCoalesced` | gc-8.0.4/allchblk.c:738-745 | nor does allocating from the middle of a free chunk |
| `BlockMap.TellsMore` | gc-8.0.4/allchblk.c:671-848 | what searches of several lists do to the heap is what their logs tell, one after the other |
| `BlackList.BlackLists.IsBlackListed` | gc-8.0.4/blacklst.c:240-269 | 0 iff no block of the range is listed; otherwise all starts before the result are bad too |
| `BlackList.WordIsClean` | gc-8.0.4/blacklst.c:255-262 | skipping a word of zero bits skips only blocks that are not listed |
| `BlackList.FindClean` | gc-8.0.4/allchblk.c:706-722 | the placement loop finds the lowest clean position in the chunk, if any |
| `Allocator.FlIndexMonotone` | gc-8.0.4/allchblk.c:84-91 | larger chunks never belong on earlier lists; exact lists hold one size |
| `Allocator.SizesOnList` | gc-8.0.4/allchblk.c:42-55 | list i holds size i below 32, eight sizes from 32 + 8 (i - 32) on for lists 32 to 59, and all sizes from 256 on at the end |
| `Allocator.Allocator.RemoveFromFlAt` | gc-8.0.4/allchblk.c:300-320 | the chunk leaves its list, links and byte counts stay right |
| `Allocator.Allocator.AddToFl` | gc-8.0.4/allchblk.c:359-388 | the chunk is first on the list for its size, links and byte counts stay right |
| `Allocator.Allocator.FreeBlockEndingAt` | gc-8.0.4/allchblk.c:330-355 | the free chunk that ends at h, and 0 only if there is none |
| `Allocator.Allocator.FlagAndJoin` | gc-8.0.4/allchblk.c:878-911 | exactly the chunk and its free neighbours become one, as far as the result is not too large; no other chunk is touched |
| `Allocator.Allocator.FreeHblk` | gc-8.0.4/allchblk.c:857-916 | the chunks are exactly those before with the freed one joined to its free neighbours; all books are in order again |
| `Allocator.Allocator.AddToHeap` | gc-8.0.4/alloc.c:1226-1283 | all but the blocks at the very ends of the address space are added, as one chunk joined to its free neighbours, unless sections or headers run out; heap size and free bytes grow by that; all books stay in order |
| `Allocator.Allocator.Trim` | gc-8.0.4/alloc.c:1234-1246 | at most the first two blocks and the last one of the address space are left out |
| `Allocator.Allocator.GetFirstPart` | gc-8.0.4/allchblk.c:520-545 | exactly the needed blocks are taken off the lists, and the rest is on the list where it belongs |
| `Allocator.Allocator.SplitBlock` | gc-8.0.4/allchblk.c:561-590 | conserves bytes; the second part may be on a wrong list, and is the only one |
| `Allocator.Allocator.Carve` | gc-8.0.4/allchblk.c:738-745 | afterwards no chunk is on a wrong list any more |
| `Allocator.Allocator.Drop` | gc-8.0.4/allchblk.c:752-800 | a chunk that is black-listed everywhere is put out of use, exactly block by block, and stays accounted for |
| `Allocator.Allocator.Worthwhile` | gc-8.0.4/allchblk.c:681-705 | exactly the chunks are tried that have the right size and are not followed by a smaller one that would do and is not black-listed |
| `Allocator.Allocator.AllocHblkNth` | gc-8.0.4/allchblk.c:671-848 | the chunk taken is the first on the list that can be used and is not followed by a better one; the result is its lowest clean place, or its start if there is none and it is large enough not to mind; 0 only if nothing on the list can be used, and then no chunk that could be used, and none before it, was dropped |
| `Allocator.Allocator.AllocHblk` | gc-8.0.4/allchblk.c:607-660 | the result is the right place of the right chunk: an exact match if any can be used, otherwise from the first list within the split limit with a chunk that can be used; 0 only if there is none; chunks in use are untouched; blocks are conserved; the log tells exactly what happened to the chunks |
| `Allocator.BestSplit` | gc-8.0.4/allchblk.c:653-658 | the choice made after searches of smaller lists in vain, which may have dropped chunks, is the best there was at the start |
| `Search.SameChoice` | gc-8.0.4/allchblk.c:671-705 | the choice from what is left of a list is the choice from all of it |
| `Search.OneDropped` | gc-8.0.4/allchblk.c:770-800 | dropping a chunk that is black-listed all over loses nothing that could be used, and leaves the order of the others |
| `Search.ThinnedTrans` | gc-8.0.4/allchblk.c:653-658 | what two searches of a list have dropped could not be used |
| `IndexedHeap.IndexedHeap.CheckBlocks` | gc-8.0.4/checksums.c:117-138 | the check of used bytes, as the headers of all blocks have them, plus free bytes against the heap size always succeeds |
| `HugeHeaps.SmallHeapsAreMerged` | gc-8.0.4/allchblk.c:365-376 | in a heap of less than half the address space no neighbours that could be joined are left apart |
| `HugeHeaps.StaysSplit` | gc-8.0.4/allchblk.c:884-911 | for every size from there on, a run of the allocator that leaves neighbours apart that could be joined |
| `Unmapping.MergedStays` | gc-8.0.4/allchblk.c:447-507 | a merge opens no new opportunity on lists that were done |
| `Unmapping.JoinedConsistent` | gc-8.0.4/allchblk.c:442-446 | chunks stay fully mapped or fully unmapped |
| `Unmapping.Unmapper.Agree` | gc-8.0.4/allchblk.c:473-493 | both neighbours are mapped, or both unmapped, before they are merged, as the larger one was; the smaller one changes |
| `Unmapping.Unmapper.MergeNext` | gc-8.0.4/allchblk.c:473-501 | the chunk and the one after it are one, mapped or unmapped as the larger one was; nothing else changes |
| `Unmapping.UnjoinedStays` | gc-8.0.4/allchblk.c:447-507 | chunks that were not joined to others are as mapped as before |
| `Unmapping.Unmapper.MergeList` | gc-8.0.4/allchblk.c:451-505 | starting over after each merge ends, with nothing on the list mergeable, chunks in use untouched, and every free chunk mapped or unmapped as one of its parts was |
| `Unmapping.Unmapper.MergeUnmapped` | gc-8.0.4/allchblk.c:447-507 | in the end no two neighbouring free chunks can be merged, and every free chunk is mapped or unmapped as one of its parts was; chunks in use and the blocks of the heap are the same, and all books are in order |
| `HeaderIndex.Reading` | gc-8.0.4/include/private/gc_hdrs.h:123-130 | what a nil entry, a count and a header each say about the partition of the heap |
| `HeaderIndex.KeyInBetween` | gc-8.0.4/headers.c:285-292 | looking up one block per table, and the last one, reaches the tables of all blocks |
| `HeaderIndex.Index.GetIndex` | gc-8.0.4/headers.c:210-260 | there is a table for the block, lists and hash chains stay sorted and complete, no entry changes |
| `HeaderIndex.Index.InstallHeader` | gc-8.0.4/headers.c:265-278 | only the entry of the block changes, and nothing on failure |
| `HeaderIndex.Index.InstallCounts` | gc-8.0.4/headers.c:281-299 | each later block of the chunk gets its capped distance, nothing else changes |
| `HeaderIndex.Index.RemoveHeader` | gc-8.0.4/headers.c:302-308 | only the entry of the block becomes nil |
| `HeaderIndex.Index.RemoveCounts` | gc-8.0.4/headers.c:311-318 | exactly the later blocks of the chunk become nil |
| `HeaderIndex.Index.AddChunk` | gc-8.0.4/alloc.c:1243-1258 | the index agrees with the heap after a chunk was added, which fails only for lack of memory; the object sizes of chunks in use stay |
| `HeaderIndex.Index.Split` | gc-8.0.4/allchblk.c:520-545 | and after a free chunk was cut, which fails only for lack of memory; the object sizes stay |
| `HeaderIndex.Index.Merge` | gc-8.0.4/allchblk.c:884-911 | and after two were joined; the object sizes stay |
| `HeaderIndex.Index.Use` | gc-8.0.4/allchblk.c:813-830 | and after one was put to use, which sets its object size and no other; if memory runs out on the way, and only then, it fails and the index is as before |
| `HeaderIndex.Index.Release` | gc-8.0.4/allchblk.c:857-880 | and after one was freed, which forgets its object size and no other |
| `HeaderIndex.Index.NextUsedBlock` | gc-8.0.4/headers.c:351-384 | the lowest used chunk from h on, 0 iff there is none |
| `HeaderIndex.Index.PrevBlock` | gc-8.0.4/headers.c:389-419 | the highest chunk up to h, 0 iff there is none |
| `HeaderIndex.Index.ApplyToAllBlocks` | gc-8.0.4/headers.c:323-347 | visits each used chunk exactly once and nothing else |
| `HeaderIndex.Index.Forward` | gc-8.0.4/misc.c:423-431 | following counts ends at the header of the chunk that covers the block |
| `HeaderIndex.RoundedHolds` | gc-8.0.4/misc.c:433-447 | rounding down gives the object slot of an address if there is one, and it is the only one |
| `HeaderIndex.Index.Base` | gc-8.0.4/misc.c:412-449 | the start of the unique object slot that holds p, else 0 |
| `IndexedHeap.IndexedHeap.FreeBlockEndingAt` | gc-8.0.4/allchblk.c:330-355 | header, forwarding counts and `GC_prev_block` lead to the free chunk that ends at h, if there is one |
| `IndexedHeap.IndexedHeap.JoinUp` | gc-8.0.4/allchblk.c:884-911 | headers and counts of the neighbours are removed so that the index agrees with the joined chunks |
| `IndexedHeap.IndexedHeap.Free` | gc-8.0.4/allchblk.c:857-916 | index and allocator agree after a chunk was freed; the object sizes of all others stay |
| `IndexedHeap.IndexedHeap.Add` | gc-8.0.4/alloc.c:1226-1283 | and after the heap has grown, by one chunk joined to its free neighbours, or not at all if sections run out or, and only then, there is no memory for a header; object sizes stay |
| `IndexedHeap.IndexedHeap.Allocate` | gc-8.0.4/allchblk.c:607-848 | and after chunks were dropped and the result, wherever in a chunk it was found, was put to use with its header, always if there is memory; the result is the right place of the right chunk, and 0 only if there is none; object sizes of other chunks stay |
| `IndexedHeap.IndexedHeap.DropChunk` | gc-8.0.4/allchblk.c:782-794 | a dropped chunk gets a header for each of its blocks, and nothing else changes |
| `IndexedHeap.IndexedHeap.TakeChunk` | gc-8.0.4/allchblk.c:729-835 | a chunk is cut on both sides of what is taken, which gets its header and counts |
| `HashTable.StoresNew` | gc-8.0.4/finalize.c:238-244 | linking a node in front adds one key to the map the table stands for |
| `HashTable.StoresLess` | gc-8.0.4/finalize.c:279-290 | unlinking a node takes exactly its key out |
| `HashTable.Table.Grow` | gc-8.0.4/finalize.c:112-167 | doubling keeps the map and puts every node in the chain its key hashes to; it fails only without memory |
| `HashTable.Table.Search` | gc-8.0.4/finalize.c:201-209 | finds the node of a key iff the key is in the map |
| `HashTable.Table.Register` | gc-8.0.4/finalize.c:179-247 | sets the key and says whether it was there; nothing changes on failure, and with memory there is none; with memory there are always nearly as many chains as entries |
| `HashTable.Table.Unregister` | gc-8.0.4/finalize.c:265-294 | takes the key out and says whether it was there |
| `HashTable.Table.Move` | gc-8.0.4/finalize.c:540-596 | moves the value to another key, and changes nothing if the first is missing or the second there |
| `Reach.BeyondIsMarked` | gc-8.0.4/finalize.c:1018-1019 | once the targets of an object are marked in a closed set, so is all that is reachable from it by one or more pointers |
| `Reach.LiveOfLive` | gc-8.0.4/finalize.c:1018-1034 | marking from one object after another reaches no more than from all of them at once |
| `Finalize.Finalizer.MarkFo` | gc-8.0.4/include/private/gc_pmark.h:435-443 | with the mutator running: everything the object points to is marked, also after an overflow, and nothing it does not lead to; the object itself only after an overflow, for which there is no cause if the stack has room for all unmarked objects |
| `Finalize.Finalizer.DrainOne` | gc-8.0.4/include/private/gc_pmark.h:435-443 | between stores by the mutator each entry is dealt with; if the words on the stack are none that the mutator may store into, neither are those that are added |
| `Finalize.Finalizer.PushFields` | gc-8.0.4/finalize.c:637-641 | the fields are pushed without marking the object |
| `Finalize.Finalizer.MarkFromFinalizable` | gc-8.0.4/finalize.c:1018-1034 | afterwards all targets of all registered objects are marked, in whatever order they hash |
| `Finalize.Finalizer.EnqueueUnreachable` | gc-8.0.4/finalize.c:1035-1082 | exactly the registrations of unmarked objects move to the queue, and these objects get marked |
| `Finalize.Finalizer.InOrder` | gc-8.0.4/finalize.c:637-641 | no queued object can be reached by one or more pointers from a registered one, itself included |
| `Finalize.Finalizer.MakeLinksDisappear` | gc-8.0.4/finalize.c:943-990 | a link is dropped exactly if its target is unmarked, or exactly if its cell is in an unmarked object; in the first case its cell is null afterwards, and no other word has changed, but for words the mutator may store into meanwhile |
| `Links.KeptTwice` | gc-8.0.4/finalize.c:1144-1153 | what survives both passes has a marked target and a cell outside the heap or in a marked object |
| `Finalize.Finalizer.Finalize` | gc-8.0.4/finalize.c:995-1164 | with the mutator running: order and closure; every unmarked registered object is queued unless another one leads to it or the stack overflowed at its turn, and nothing is marked but what these lead to; the fate of short and long links and their cells |
| `Finalize.Finalizer.RegisterFinalizer` | gc-8.0.4/finalize.c:688-822 | reports the previous finalizer and sets, changes or withdraws exactly this registration; this fails only for a new entry or the first table, without memory, or when leaks are looked for |
| `Finalize.Finalizer.InvokeFinalizers` | gc-8.0.4/finalize.c:1255-1304 | invokes all that is in the queue, in order, until it is empty, while finalizers may register and queue more |
| `Finalize.Finalizer.EnqueueAll` | gc-8.0.4/finalize.c:1169-1205 | with the mutator running: every registration moves to the queue once; their objects and all beyond are marked |
| `Finalize.Finalizer.CollectAndFinalize` | gc-8.0.4/alloc.c:485-570 | a full collection marks what can be reached from roots and uncollectable objects; only others are queued, none of them a second time, and of those with finalizers all that no other one leads to, given a mark stack larger than the number of objects; what they reach survives; links and their cells fare as in `Finalize` |
| `Finalize.QueuedSurvive` | gc-8.0.4/finalize.c:90-100 | since the queue is pushed like a root, objects in it survive collections with all that they lead to |
| `Running.TouchedKeepsSafe` | gc-8.0.4/include/private/gc_pmark.h:425-434 | stores by a mutator that has only marked objects keep the invariant of the marker |
| `Running.LiveShrinks` | gc-8.0.4/include/private/gc_pmark.h:425-434 | such stores bring nothing new within reach |
| `Running.ClosedBefore` | gc-8.0.4/include/private/gc_pmark.h:425-434 | what is closed after such stores was closed before |
| `Registrations.QueueOne` | gc-8.0.4/finalize.c:1047-1072 | moving a registration from the table to the queue leaves each in exactly one place |
| `Registrations.InvokeOne` | gc-8.0.4/finalize.c:1271-1282 | an invoked registration was never invoked before and is in no other place |
| `Registrations.RegisterOne` | gc-8.0.4/finalize.c:741-754 | a new or changed registration is in the table only |
| `Registrations.WithdrawOne` | gc-8.0.4/finalize.c:727-740 | a withdrawn registration is gone for good |
| `RootRanges.MeetsFirst` | gc-8.0.4/mark_rts.c:571-577 | the first range past the start tells whether any range overlaps |
| `RootRanges.FirstPastTells` | gc-8.0.4/mark_rts.c:571-590 | overlap, joining and the write past the end in terms of the first range past the start |
| `RootRanges.Exclusions.NextExclusion` | gc-8.0.4/mark_rts.c:537-554 | binary search finds the first range that ends after an address |
| `RootRanges.Exclusions.ExcludeStaticRoots` | gc-8.0.4/mark_rts.c:558-594 | the table stays sorted, disjoint and within capacity, and excludes exactly one more range; overlap and a full table are detected exactly; an entry is written past the end if and only if the table is full and the new range lies apart in front of another |
| `RootRanges.Exclusions.Shift` | gc-8.0.4/mark_rts.c:584-586 | the ranges from k on move up by one, and the highest index written is the number of entries |
| `RootRanges.OverrunHappens` | gc-8.0.4/mark_rts.c:558-594 | a table filled by the operation itself, and a call that writes past its end |
| `RootRanges.Exclusions.PushWithExclusions` | gc-8.0.4/mark_rts.c:627-643 | the ranges pushed are disjoint and make up exactly [bottom, top) without the exclusions |
| `SizeMap.StretchedFits` | gc-8.0.4/malloc.c:141-144 | rounding up never reduces the number of objects per block, and is the most that does not |
| `SizeMap.FillsGood` | gc-8.0.4/malloc.c:101-103 | filled-in sections stay at least a quarter as long as where they end, and entries stay sound |
| `SizeMap.SizeMap.constructor` | gc-8.0.4/misc.c:236-256 | small sizes are rounded up exactly, below the tiny limit |
| `SizeMap.SizeMap.FirstEmpty` | gc-8.0.4/malloc.c:118-126 | the search ends at the first entry that is not filled in |
| `SizeMap.SizeMap.AtMostAnEighth` | gc-8.0.4/malloc.c:104-133 | whatever is there already, the size chosen for a request is at most an eighth larger than needed, before it is made even |
| `SizeMap.SizeMap.GrowsAround` | gc-8.0.4/malloc.c:134-151 | filling in for such a choice reaches the request and keeps the map in order |
| `SizeMap.SizeMap.Extend` | gc-8.0.4/malloc.c:104-152 | exactly the entries from the first one missing up to the size of the object are filled in, with a size that, before stretching, is at least that needed and at most an eighth and one granule larger; entries below stay, and all entries stay large enough and within a block |

## Left out

- The interpreter around the collector: its scanner, parser and evaluator are not part of this model.
- Sweeping and everything in free lists of objects, with `GC_clear_fl_marks` and thread-local allocation.
- Mark procedures and per-object descriptors: client code; only length and bitmap descriptors are modelled.
- Weak memory ordering in the parallel marker: steps are sequentially consistent; marking in parallel is modelled apart from the phases of `GC_mark_some`.
- The header cache and the validity tests of candidate pointers: maps from words to objects stand for them.
- The platform code: stopping threads, registers, dynamic libraries, virtual dirty bits other than the manual ones.
- Metadata-allocation failures that leak or drop a chunk: `Allocator` assumes that headers of split chunks can be had; `HeaderIndex` treats the failures.
- Unmapping in the other allocator operations: `Unmapping` starts from any heap with its books in order, coalesced or not.
- The collection that `GC_grow_table` forces before it doubles a large table, and changes by other threads while `GC_oom_fn` runs.
- Finalizers with `no_order`, `ignore_self` or `unreachable` marking, Java-style finalization apart from `GC_enqueue_all_finalizers`, toggle references, and `GC_bytes_finalized`.
- Table nodes as heap objects: clearing the mark bits of dropped nodes is not modelled.
- Callbacks that change the heap while `GC_apply_to_all_blocks` runs.
- Registration of root ranges (`GC_add_roots`, `GC_remove_roots`) and rounding in `GC_exclude_static_roots`.
- Timing, deficits other than the one of incremental marking, and heap growth heuristics.
- Allocator.Allocator.Balanced: does not claim coalescing for heaps of half the address space or more, where the source does not coalesce either (`HugeHeaps.StaysSplit`).
- Marker.Marker.MarkOne: procedure and per-object descriptors are not treated, because they run client code.
- Marker.Marker.MarkFrom: the same descriptors are not treated.
- Marker.Marker.PushRoots: free-list headers, structures of the collector itself and thread-local lists are not pushed, because they lie outside the modelled heap; `Finalize.QueueHeld` states what pushing the queue of finalizers amounts to.
- Marker.Marker.MarkSome: the branch that marks in parallel is `ParallelHeap.MarkInParallel`, and the measure of progress is for marking by one thread; how much is marked is bounded with the world stopped, and not while stores go on.
- ParallelHeap.MarkInParallel: does not promise progress if entries were lost although no new object was marked, since threads also put back entries that are not new; marking by one thread never overflows like that.
- Allocator.Allocator.GetFirstPart: does not fail for lack of a header; `HeaderIndex.Index.Split` does.
- Allocator.Allocator.AllocHblkNth: failures for lack of headers and `AVOID_SPLIT_REMAPPED` are not modelled; the source then loses the chunk, or uses one that is black-listed.
- Allocator.Allocator.AllocHblk: does not fail for lack of a header either.
- IndexedHeap.IndexedHeap.Allocate: if memory for a header runs out, index and allocator are each in order but need not agree, as the source then loses blocks.
- HashTable.Table.Grow: the collection forced before a large table is doubled is left out.
- Finalize.Finalizer.Finalize: after an overflow the mutator does not run in the middle of a call of `GC_mark_some`.
- Finalize.Finalizer.InvokeFinalizers: what finalizers queue meanwhile is bounded by a number, since without a bound the loop need not end.
- Sizes of words, blocks and tables are those of one 64-bit configuration (`Platform`), not parameters.
