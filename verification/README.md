# Collector core, modelled in Dafny

This project models the core of the Boehm-Demers-Weiser collector in `src/bdwgc` and proves the
properties that make it a safe collector: no block that holds a reachable object is freed, and no
heap block is ever lost. Code that updates state in the original is a class with the same fields and loops;
concurrent protocols are state machines whose every interleaving is covered.

| file | part of the collector |
|---|---|
| `MarkHeap.dfy`, `MarkInvariant.dfy` | the heap as a graph laid out in blocks; Invariant I of `gc_pmark.h`, what each phase may lack of it, reachability |
| `MarkAllocation.dfy` | what allocating a block during marking does to Invariant I |
| `MarkReclaim.dfy` | what freeing the blocks without marked objects does to the heap |
| `ScanCounts.dfy` | how often words are stacked and scanned |
| `Marker.dfy` | class `Collector`: mark stack with overflow and discards, the sequential `GC_mark_from`, block scans, the `GC_mark_some` state machine, mutator stores, reclaiming |
| `CycleDriver.dfy` | class `Cycle`: full and incremental collections, giving up, retrying |
| `ParallelMark.dfy`, `ParallelPhase.dfy` | work stealing and termination detection of the parallel marker, as a state machine; what its end means for Invariant I |
| `BlackLists.dfy` | class `Lists`: hashed black lists and the word-skipping test |
| `FreeLists.dfy`, `HeapSpace.dfy`, `HeapChanges.dfy` | the segregated free lists and the tiling of the heap, as values; what each elementary change keeps |
| `HblkAllocator.dfy` | class `Allocator`: allocation, splitting, freeing, coalescing, heap growth, unmapping |
| `HeaderIndex.dfy`, `IndexedHeap.dfy` | class `Index`: the two-level address-to-header index, backward jumps, `GC_base`, block walks; the allocator's headers and jumps are what it stands for |
| `HashTables.dfy`, `FinalizerMarking.dfy`, `Finalizer.dfy` | class `Table` (chained hash tables), mark procedures of finalizers, class `Finalization` |
| `CollectionEnd.dfy` | the end of a collection: finalization, reclaiming, and the state for the next cycle |
| `StopWorld.dfy` | the signal handshake that stops the world, as a state machine |
| `Exclusions.dfy` | class `Table`: the sorted table of ranges that are not roots |
| `SizeMap.dfy` | class `SizeMap`: size classes filled on demand |

Constants are those of a 64-bit build: words of 8 bytes, blocks of 4096 bytes, granules of 16
bytes, 1024 entries in a bottom index, 60 free lists and one for huge blocks. Addresses count words
in the marker, blocks in the allocator and the index, and bytes in `GC_base`, the exclusion table
and the size map. Every object that a `Collector` knows is a start address; which word values are
recognised as pointers to which object is a map, `names`.

## How the main results fit together

* `Marker.Collector.Valid` contains Invariant I with the exemptions of the current phase. Every
  operation keeps it for every stack capacity, so when `MarkSome` reports the end of a phase the
  marks are closed under pointers (`MarkInvariant.FinishedIsClosed`), and they hold everything
  reachable (`MarkInvariant.ClosedHoldsReachable`). A second invariant, `Confined`, bounds the marks
  from above; for a full collection the two give equality with the reachable set.
* Each `MarkSome` step decreases a lexicographic measure (unmarked objects, phase, blocks ahead of
  the scan, stacked words), which is what makes a collection with the world stopped end even when
  the stack never grows.
* `HblkAllocator.Allocator.Valid` says that runs of blocks tile the heap, that every free run is on
  exactly the list its size selects with consistent links, and that all byte counts are the true sums.
  `Consumed`, `Freed` and `Grown` account for every heap block across each operation, and
  `Coalesced` says that no two free runs are adjacent.
* The index is proved to stand for a flat map of blocks (`Refines`), and all its readers are
  specified on that map.
* Finalization calls the marker itself, so its results are statements about the same marks. Its
  precondition `Ready` is established by the constructor, kept by registration, and restored by
  `Finalize`; after a collection whose roots hold the queue it holds again in full.
* `CollectionEnd.FinishCollection` puts the parts together: marks that are closed, finalization,
  freeing of blocks, and a collector from which the next cycle can start.

## What turned out to hold only under a condition

* A block allocated during marking keeps Invariant I, whatever its memory holds, exactly if no clean,
  already scanned word of a marked object happens to hold a value that now becomes a pointer to an
  unmarked object of the block (`MarkAllocation.StaleWordBreaks`, an equivalence, and
  `Marker.Collector.AllocateBlock`; `MarkAllocation.StaleWordExample` is an input for which it fails).
* After `GC_finalize` outside Java mode the marks are closed exactly if every unmarked object that is
  registered with the null mark procedure points only to objects that are registered as well or that
  tracing from the registered objects marks. All of this is known before the call
  (`Finalizer.Finalization.Finalize` and `Finalizer.Enqueuing.EnqueuedClosed`, equivalences;
  `Finalizer.NoOrderExample` is an input for which it fails). In Java mode they always are closed.
* Adjacent free runs stay apart while the heap is smaller than half the address space: larger sums
  fail the sign tests at `src/bdwgc/allchblk.c:531`, `src/bdwgc/allchblk.c:966` and `src/bdwgc/allchblk.c:976`, and
  `GC_freehblk` and `GC_add_to_heap` abort on a run of that size.
* The comment in `src/bdwgc/mark_rts.c:583` calls the overlap test of the exclusion table
  incomplete. For a table built by these operations it is complete (`Exclusions.Table.Exclude`).
* The comment in `src/bdwgc/blacklst.c:273` says that only the incomplete stack list is looked at when
  black-listed blocks are counted. The code looks at the old one, which is the former incomplete one.
* A filled entry of the size map is not final: a later extension may replace it.
  `SizeMap.SizeMap.Extend` states the whole new map; the map stays monotone.

## Model

| member | source | states |
|---|---|---|
| MarkInvariant.ClosedHoldsReachable | src/bdwgc/include/private/gc_pmark.h:454-458 | a set of marks that is closed under pointers and holds the root targets and some seeds holds every object that a chain of pointers leads to |
| MarkInvariant.ReachableSetClosed | src/bdwgc/include/private/gc_pmark.h:454-458 | the reachable objects are themselves such a set, hence the least one |
| MarkInvariant.FinishedIsClosed | src/bdwgc/include/private/gc_pmark.h:454-461 | Invariant I with an empty stack, no dirty page and the roots dealt with means that the marks are closed and hold the root targets |
| MarkInvariant.ClosedIsDone | src/bdwgc/include/private/gc_pmark.h:454-461 | the converse |
| MarkInvariant.InvariantExtends | src/bdwgc/include/private/gc_pmark.h:454-485 | scanning and pushing that deals with every word of each newly marked object keeps Invariant I in every phase |
| MarkInvariant.ChunkExtends | src/bdwgc/mark.c:547-602 | replacing the top entry by the part of it not scanned yet loses nothing if all words of the scanned part lead to marked objects |
| MarkAllocation.WithBlockInvariant | src/bdwgc/allchblk.c:881-924 | allocating a block during marking, with its pages dirty and whatever its memory holds, keeps Invariant I if no stale word names an unmarked object of it |
| MarkAllocation.StaleWordBreaks | src/bdwgc/allchblk.c:881-924 | that condition is exact, in both directions, with pre-marked objects and dirtied pages |
| MarkAllocation.StaleWordExample | src/bdwgc/allchblk.c:881-924 | a marked object holds the address of a block that is allocated later: Invariant I holds before the allocation and not after it |
| Marker.Collector.PushEntry | src/bdwgc/mark.c:484-499 | a push appends exactly one entry, or, exactly when the stack is full, sets MS_INVALID and discards the fixed number of top entries |
| Marker.Collector.PushContents | src/bdwgc/include/private/gc_pmark.h:263-346 | the object that a candidate value designates is marked, and without overflow it is also stacked; an object that was marked changes nothing |
| Marker.Collector.ScanRange | src/bdwgc/mark.c:680-775 | the descending search and the ascending loop together consider every plausible word of the range exactly once, and each then leads to a marked object |
| Marker.Collector.MarkFrom | src/bdwgc/mark.c:516-778 | marking with a credit, in parts of 127 words, either deals with everything it takes off the stack or has overflowed and asks for a larger stack; without overflow, the plausible words considered and those still stacked are together exactly those stacked before and those of the newly marked objects; at most 639 words are considered; if nothing new was marked the stacked words decrease |
| Marker.Collector.ScanTop | src/bdwgc/mark.c:547-602 | the same for one entry of less than 128 words, or the first 127 words of a longer one: each of its plausible words is considered once, and splitting a range scans no word twice and leaves none out |
| ScanCounts.DrainedOnce | src/bdwgc/mark.c:516-778 | a range that was alone on the stack has, once the stack is empty, had each of its plausible words considered exactly once, apart from those of newly marked objects |
| Marker.Collector.PushMarked | src/bdwgc/mark.c:1741-1794 | every word of every marked object of the block is on the stack afterwards, and nothing is discarded |
| Marker.Collector.PushNextMarked | src/bdwgc/mark.c:1863-1878 | nothing between the old and the new scan position is owed any more; the blocks ahead decrease |
| Marker.Collector.PushNextMarkedDirty | src/bdwgc/mark.c:1882-1919 | the same for the pages that were dirty, although clean blocks are skipped |
| Marker.Collector.PushNextMarkedUncollectable | src/bdwgc/mark.c:1924-1951 | the same for marked uncollectable objects |
| Marker.Collector.PushRoots | src/bdwgc/mark_rts.c:888-959 | without overflow every root word and register has been dealt with |
| Marker.Collector.AllocMarkStack | src/bdwgc/mark.c:1140-1181 | the stack is replaced only while it is empty, or stays when there is no memory |
| Marker.Collector.StepRescuers | src/bdwgc/mark.c:274-297 | keeps Invariant I and makes progress |
| Marker.Collector.StepUncollectable | src/bdwgc/mark.c:299-319 | keeps Invariant I and makes progress |
| Marker.Collector.StepRootsPushed | src/bdwgc/mark.c:321-352 | reports the end exactly when the stack is empty; the sequential branch |
| Marker.Collector.StepInvalid | src/bdwgc/mark.c:354-380 | recovery from overflow by rescanning marked objects keeps Invariant I and makes progress, however often it overflows again |
| Marker.Collector.MarkSome | src/bdwgc/mark.c:267-386 | keeps Invariant I; when it returns true nothing is stacked and the phase is over; otherwise the lexicographic measure of remaining work has strictly decreased, even if the stack never grows |
| Marker.Collector.FinishedIsQuiet | src/bdwgc/mark.c:267-386 | a finished phase with no dirty page has closed marks that hold the root targets |
| Marker.Collector.InitiateGc | src/bdwgc/mark.c:209-229 | entered only in MS_NONE (incremental) or MS_INVALID; the dirty pages become the rescuers and Invariant I holds with them exempt |
| Marker.Collector.InvalidateMarkState | src/bdwgc/mark.c:478-482 | flushes the stack and gives the phase up, keeping what a restart needs |
| Marker.Collector.Reclaim | src/bdwgc/reclaim.c:388-484 | a block is kept, unchanged, exactly if one of its objects is marked, and an object or a name exactly if a marked object lies in the same block; with closed marks they stay closed, and what can be reached from the roots or from marked objects is the same as before and all marked |
| MarkReclaim.SameReachable | src/bdwgc/reclaim.c:388-484 | freeing those blocks, and sweeping that writes to unmarked objects only, changes nothing about reachability |
| MarkReclaim.ReclaimedClosed | src/bdwgc/reclaim.c:388-484 | closed marks that hold the root targets stay so |
| Marker.Collector.Store | src/bdwgc/mark.c:1838-1856 | a mutator store that dirties its page keeps Invariant I in every phase |
| Marker.Collector.AllocateBlock | src/bdwgc/allchblk.c:881-924 | an allocation between marking steps leaves the collector in order exactly if it is not incremental or there is no stale word |
| CycleDriver.Cycle.StoppedMark | src/bdwgc/alloc.c:815-979 | when it returns true every object reachable at that time is marked, whatever was stored or allocated before; otherwise a valid partial phase is left; it gives up exactly at the first poll that asks to stop |
| CycleDriver.Cycle.MarkALittle | src/bdwgc/alloc.c:711-766 | increments keep Invariant I while other threads store to memory and change their registers before each step, and memory afterwards holds those stores; every increment makes progress |
| CycleDriver.LastStore | src/bdwgc/alloc.c:711-766 | a word holds what was last stored there, or else what it held before |
| CycleDriver.Cycle.ContinueMarking | src/bdwgc/alloc.c:711-766 | the collection counter rises only when marking is complete; otherwise attempts, remaining work and deficit decrease lexicographically; an attempt is only given up with a time limit, with attempts left and when the clock asks for it, and the deficit then is the number of steps taken less those allowed |
| CycleDriver.Cycle.TryToCollectInner | src/bdwgc/alloc.c:568-662 | a completed full collection has marked exactly the objects reachable from the roots and from uncollectable objects that were marked; it completes if neither disabled nor asked to stop, and does nothing if disabled |
| CycleDriver.Cycle.MaybeGc | src/bdwgc/alloc.c:492-542 | collects exactly when asked to: without incremental mode at once and in full; otherwise complete, or with a time limit perhaps left as a phase under way. A full collection, due when asked for or after enough partial ones, marks exactly what is reachable from the roots and the uncollectable objects that were marked; a partial one exactly what is reachable from the roots and all old marks |
| CycleDriver.Cycle.CollectALittleInner | src/bdwgc/alloc.c:711-766 | a phase under way gets one increment, which makes progress or ends it; otherwise a new collection starts if asked for; with collection disabled nothing is counted |
| CollectionEnd.FinalizeAndReclaim | src/bdwgc/alloc.c:1173-1214 | finalization and then reclaiming lose no entry and no marked object, and free exactly the blocks without a marked object; if the marks are closed, all that the queue leads to is marked and stays |
| CollectionEnd.FinishCollection | src/bdwgc/alloc.c:1122-1238 | the next cycle can start from the state at the end of a collection, in Java mode or if the registered objects meet the condition above |
| ParallelMark.InitHolds | src/bdwgc/mark.c:1078-1094 | the state in which parallel marking starts satisfies the invariant |
| ParallelMark.NextKeeps | src/bdwgc/mark.c:847-1071 | every step of every thread (look, steal, zero, mark, share, wait, join, leave) keeps the invariant: counts match the threads, nothing below a taken place is left, all work is somewhere |
| ParallelMark.RunKeeps | src/bdwgc/mark.c:847-1106 | the invariant holds in every reachable state, for all interleavings |
| ParallelMark.StacksFit | src/bdwgc/mark.c:847-955 | in every reachable state the shared stack and each private stack fit into their memory |
| ParallelMark.OnlyFullInvalidates | src/bdwgc/mark.c:882-912 | the mark state becomes invalid only in a step of a thread whose own stack is full, or whose entries and those on the shared stack together exceed it |
| ParallelMark.RoomMeansClosed | src/bdwgc/mark.c:882-1106 | a run in which no acting thread ever finds a stack full ends with closed marks |
| ParallelMark.BelowFirstNonempty | src/bdwgc/mark.c:978-1071 | in every reachable state all entries below `GC_first_nonempty` have been stolen and zeroed |
| ParallelMark.FirstRises | src/bdwgc/mark.c:980-996 | `GC_first_nonempty` never moves down, and no emptied place of the shared stack is filled again |
| ParallelMark.FinishedMeansDone | src/bdwgc/mark.c:1078-1106 | when the starting thread returns, every entry has been stolen, no thread holds work or helps, the counters are ready for the next time, and the marks are closed or the state is MS_INVALID |
| ParallelMark.NeverStuck | src/bdwgc/mark.c:963-1106 | until the starting thread has returned, some thread can take a step that changes something |
| ParallelPhase.ParallelPhaseEnds | src/bdwgc/mark.c:329-341 | parallel marking that ends without overflow from Invariant I leaves closed marks that hold the root targets, as the sequential branch does |
| ParallelPhase.RunMarks | src/bdwgc/mark.c:933-967 | marks are only added, and only objects that some entry leads to |
| BlackLists.Lists.IsBlackListed | src/bdwgc/blacklst.c:240-269 | the word-skipping scan finds a run black-listed exactly if the block-by-block definition does; every start it skips is black-listed |
| BlackLists.Lists.AddNormal | src/bdwgc/blacklst.c:188-211 | a false pointer from the heap lists exactly the blocks of its bucket, if its offset is valid and its block has no header |
| BlackLists.Lists.AddStack | src/bdwgc/blacklst.c:213-230 | the same for a false pointer from a stack |
| BlackLists.Lists.Promote | src/bdwgc/blacklst.c:137-168 | the tables change roles and the new incomplete ones are empty: a block is listed afterwards exactly if the incomplete lists listed it; the spacing is the heap size over the listed blocks, within its bounds |
| BlackLists.Lists.TotalStackListed | src/bdwgc/blacklst.c:274-301 | the number of blocks of the heap sections that are on the old stack list |
| BlackLists.Spacing | src/bdwgc/blacklst.c:154-167 | the spacing is between 3 and 2048 blocks: the rounded-down quotient between those bounds, the nearer bound outside of them, and as before if nothing is listed |
| FreeLists.FlMonotone | src/bdwgc/allchblk.c:84-91 | the list index is monotone in the size |
| FreeLists.FlUnique | src/bdwgc/allchblk.c:84-91 | below the threshold a list holds blocks of one size only |
| FreeLists.FreeListsRemove | src/bdwgc/allchblk.c:300-323 | unlinking keeps all lists linked both ways, duplicate-free, rightly placed and counted |
| FreeLists.FreeListsAdd | src/bdwgc/allchblk.c:370-399 | so does linking at the front |
| FreeLists.FreeListsReplace | src/bdwgc/allchblk.c:631-660 | so does putting the second half of a split in the place of the first |
| HblkAllocator.Allocator.RemoveFromFlAt | src/bdwgc/allchblk.c:300-323 | exactly this block leaves its list, and exactly its size leaves the byte count |
| HblkAllocator.Allocator.AddToFl | src/bdwgc/allchblk.c:370-399 | the block becomes the first of the list its size selects; no other run changes |
| HblkAllocator.Allocator.SplitBlock | src/bdwgc/allchblk.c:631-660 | the new block takes the old one's place, the rest goes where it belongs, byte totals stay |
| HblkAllocator.Allocator.GetFirstPart | src/bdwgc/allchblk.c:590-627 | all but the first n blocks return to the lists as one free run; exactly n blocks leave the totals |
| HblkAllocator.Allocator.GetBlockEndingAt | src/bdwgc/allchblk.c:330-351 | finds the run that ends just before an address if there is one, following backward jumps |
| HblkAllocator.Allocator.Carve | src/bdwgc/allchblk.c:795-924 | exactly the requested blocks become one used run; every other block is as free or used as before |
| HblkAllocator.Allocator.Freehblk | src/bdwgc/allchblk.c:934-993 | exactly the blocks of the run become free, merged with both neighbours, so that no two free runs are adjacent; aborts exactly on a double free or an excessive size |
| HblkAllocator.Allocator.AddToHeap | src/bdwgc/alloc.c:1353-1437 | exactly the usable blocks of the new section join the heap as free space, with all invariants |
| HblkAllocator.Allocator.FindStart | src/bdwgc/allchblk.c:781-795 | the first start in a free block that is not black-listed |
| HblkAllocator.Allocator.Consider | src/bdwgc/allchblk.c:751-881 | the decision on one free block: taken at the first start that is not black-listed, passed over for a next block that fits better, split only as allowed |
| HblkAllocator.Allocator.DropBlock | src/bdwgc/allchblk.c:834-878 | a fully black-listed block is turned into used one-block runs and accounted as dropped |
| HblkAllocator.Allocator.AllochblkNth | src/bdwgc/allchblk.c:742-925 | NULL only if the list has no acceptable block; otherwise the blocks come from one that is; a block is dropped at every fourth fully black-listed one that is met, and none when looking for leaks |
| HblkAllocator.Allocator.EnoughLargeBytesLeft | src/bdwgc/allchblk.c:70-82 | the largest list index from which on enough free bytes remain |
| HblkAllocator.Allocator.Allochblk | src/bdwgc/allchblk.c:677-731 | the blocks taken start at no normal black-list entry and, up to the first page if interior pointers are ignored, touch no stack entry, except for uncollectable kinds, small pointer-free blocks and very large requests in much larger runs; when splitting is allowed everywhere, NULL exactly if every start in every free run is listed; larger blocks are split only as far as the policy allows; a result was free, and only its blocks and dropped ones are consumed |
| HblkAllocator.Allocator.MergeList | src/bdwgc/allchblk.c:513-577 | terminates although the list is restarted after each merge, and leaves no mergeable run on this list or any below |
| HblkAllocator.Allocator.MergeUnmapped | src/bdwgc/allchblk.c:513-577 | afterwards no two free runs of the heap are adjacent; free blocks and used runs are exactly those of before |
| HblkAllocator.Allocator.UnmapOld | src/bdwgc/allchblk.c:465-508 | exactly the free runs whose 16-bit age is above the threshold are unmapped, none if the threshold is 0, and nothing else changes |
| HblkAllocator.Allocator.TrueCounts | src/bdwgc/allchblk.c:104-119 | `GC_large_free_bytes` is the number of blocks in free runs, and with the used blocks it makes up `GC_heapsize` |
| HblkAllocator.NotMergeable | src/bdwgc/allchblk.c:529-532 | the sign test never refuses a merge while the heap is below half the address space |
| HeaderIndex.Index.constructor | src/bdwgc/headers.c:190-205 | the empty index is well formed |
| HeaderIndex.Index.GetBi | src/bdwgc/include/private/gc_hdrs.h:173-183 | following a hash chain finds the bottom index of an address exactly if there is one |
| HeaderIndex.Index.GetIndex | src/bdwgc/headers.c:208-258 | afterwards the bottom index exists; no entry changes; the hash chains and the ordered list, linked both ways, stay right |
| HeaderIndex.Index.InstallHeader | src/bdwgc/headers.c:263-276 | exactly one entry of the flat map changes |
| HeaderIndex.Index.InstallCounts | src/bdwgc/headers.c:279-297 | exactly the inner blocks get capped backward jumps, over as many bottom indices as it takes |
| HeaderIndex.Index.RemoveCounts | src/bdwgc/headers.c:309-325 | exactly the inner entries become nil |
| HeaderIndex.BlockChange | src/bdwgc/headers.c:279-325 | giving a block a new header, with its counts if it is in use, makes the index stand for the changed map of blocks |
| HeaderIndex.Index.UseBlock | src/bdwgc/allchblk.c:899-907 | taking a block into use keeps the index a refinement of the map of blocks |
| HeaderIndex.Index.FreeBlock | src/bdwgc/allchblk.c:934-961 | so does freeing one, of whatever object size |
| HeaderIndex.Index.ForgetBlock | src/bdwgc/allchblk.c:964-986 | so does removing the header of a coalesced block |
| HeaderIndex.JumpBack | src/bdwgc/include/private/gc_hdrs.h:205-211 | a jump leads to the start of the same block or 4095 blocks nearer to it, past no other block |
| HeaderIndex.Index.GcBase | src/bdwgc/misc.c:416-453 | the start of the allocated object that holds the byte, for small and large objects and interior pointers, or 0 exactly if there is none |
| HeaderIndex.OneObject | src/bdwgc/misc.c:416-453 | a byte is in at most one object, so that start is unique |
| HeaderIndex.Index.NextBlock | src/bdwgc/headers.c:356-390 | the nearest block at or after an address that qualifies, or none if there is none |
| HeaderIndex.Index.PrevBlock | src/bdwgc/headers.c:392-422 | the nearest block at or before an address |
| HeaderIndex.Index.ApplyToAllBlocks | src/bdwgc/headers.c:330-354 | visits every allocated block exactly once and no other |
| IndexedHeap.IndexRefinesHeap | src/bdwgc/include/private/gc_hdrs.h:120-130 | an index stands for the runs of the allocator exactly if its entries are the allocator's headers and jumps |
| IndexedHeap.SamePrevious | src/bdwgc/headers.c:392-422 | the allocator's search for the nearest header downwards has the same result as that of the index |
| HashTables.Table.Grow | src/bdwgc/finalize.c:94-149 | rehashing into twice the buckets keeps the contents |
| HashTables.Table.Find | src/bdwgc/finalize.c:181-189 | a key is found in its chain exactly if it is in the table |
| HashTables.Table.Insert | src/bdwgc/finalize.c:218-224 | the table gains exactly this entry |
| HashTables.Table.RemoveAt | src/bdwgc/finalize.c:255-271 | the table loses exactly this entry |
| FinalizerMarking.MarkFo | src/bdwgc/include/private/gc_pmark.h:427-444 | running a mark procedure and draining marks exactly what is reachable from what the procedure pushes: nothing for the null procedure, all but the object itself for ignore-self, everything otherwise; after an overflow the object itself counts as a start as well |
| Finalizer.Finalization.TraceFinalizable | src/bdwgc/finalize.c:995-1011 | without overflow the marks afterwards depend only on the set of entries, not on their order |
| Finalizer.Finalization.Enqueue | src/bdwgc/finalize.c:1014-1059 | exactly the entries with unmarked objects move to the queue |
| Finalizer.NewlyQueued | src/bdwgc/finalize.c:1014-1059 | the objects newly queued are exactly the registered ones that tracing left unmarked |
| Finalizer.QueueingConserves | src/bdwgc/finalize.c:1014-1059 | queueing loses no entry and duplicates none; entries are hidden in the table and only there |
| Finalizer.Finalization.MarkQueue | src/bdwgc/finalize.c:1061-1076 | marks exactly what is reachable from the marks so far and the queued objects, except those to be finalized only when unreachable |
| Finalizer.Finalization.JavaPhase | src/bdwgc/finalize.c:1061-1114 | everything reachable from the objects that are to be finalized in any case is marked, and nothing else; exactly the entries of the others that this reaches are back in the table, and those that stay are marked; the bytes counted follow the queue |
| Finalizer.Finalization.ReviveUnreachable | src/bdwgc/finalize.c:1077-1113 | exactly the finalize-when-unreachable entries with marked objects return to the table |
| Finalizer.RevivalMeans | src/bdwgc/finalize.c:1077-1113 | an entry leaves the queue, for the table, exactly if its object is marked and was to be finalized when unreachable |
| Finalizer.RevivalConserves | src/bdwgc/finalize.c:1077-1113 | revival loses no entry and duplicates none, so the table count stays true |
| Finalizer.Enqueuing.EnqueuedClosed | src/bdwgc/finalize.c:995-1059 | outside Java mode the final marks are closed exactly if the unmarked objects registered with the null procedure point only to registered or traced objects |
| Finalizer.NoOrderExample | src/bdwgc/finalize.c:638-638 | a heap and a table of registered objects that do not meet that condition: an object registered with the null procedure points to one that nothing marks |
| Finalizer.Finalization.MakeLinksDisappear | src/bdwgc/finalize.c:919-967 | exactly the entries whose object (or, for dangling links, whose location) is unmarked go, and exactly their words are cleared |
| Finalizer.Finalization.FinalizeObjects | src/bdwgc/finalize.c:995-1116 | tracing, queueing and the Java phase together: which entries are queued, what is marked, and exactly when the marks are closed |
| Finalizer.Finalization.Finalize | src/bdwgc/finalize.c:972-1137 | short links to objects unmarked before finalization are cleared and gone, long links go only if the object stayed unmarked, no other word changes, and surviving entries name marked objects and live locations; the queue holds exactly the traced-out entries and all queued objects are marked; no entry is lost or doubled, and entries are hidden in the table only; the bytes finalized are those the queue has gained; exactly when the marks are closed; a further finalization is possible |
| Finalizer.WhereEntriesGo | src/bdwgc/finalize.c:1014-1116 | where each entry is after finalization, in both modes: in the table, or revealed in the queue, by the marks of tracing and of the queue alone |
| Finalizer.Finalization.constructor | src/bdwgc/finalize.c:45-65 | empty tables are ready for finalization |
| Finalizer.FinalEntries | src/bdwgc/finalize.c:1014-1116 | what finalization does to the entries as a whole: each is kept, in one place, and the counts add up |
| Finalizer.LonelySurvives | src/bdwgc/finalize.c:1077-1113 | after revival, too, an object queued to be finalized when unreachable is in one place only |
| Finalizer.Finalization.ReadyAgain | src/bdwgc/finalize.c:71-81 | a collection whose roots hold the queue makes the tables ready for the next finalization |
| Finalizer.Finalization.QueueIsKept | src/bdwgc/finalize.c:1061-1076 | with closed marks, all that is reachable from the queue is marked |
| Finalizer.Finalization.RegisterLink | src/bdwgc/finalize.c:161-227 | registers or re-registers one link |
| Finalizer.Finalization.UnregisterLink | src/bdwgc/finalize.c:245-288 | removes exactly this link, and says whether it was there |
| Finalizer.Finalization.MoveLink | src/bdwgc/finalize.c:511-562 | moves an entry, or reports a duplicate or a missing one and changes nothing |
| Finalizer.Finalization.RegisterFinalizer | src/bdwgc/finalize.c:667-801 | the object has exactly this function, data and mark procedure afterwards, or no entry if the function is null, or none was there and it is not in the heap; every other entry stays, the old function and data are returned, and the tables stay ready for finalization |
| Finalizer.Finalization.InvokeFinalizers | src/bdwgc/finalize.c:1229-1278 | runs each queued finalizer once, in queue order, and empties the queue |
| StopWorld.InitHolds | src/bdwgc/pthread_stop_world.c:1053-1098 | a zero semaphore and no pending signal satisfy the invariant |
| StopWorld.NextKeeps | src/bdwgc/pthread_stop_world.c:327-1098 | every step keeps the invariant: handler steps, spurious wake-ups, lost signals, resends, vanishing threads, the stopping thread's waits |
| StopWorld.RunKeeps | src/bdwgc/pthread_stop_world.c:327-1098 | the invariant holds in every reachable state, for all interleavings and losses |
| StopWorld.StoppedMeansHeld | src/bdwgc/pthread_stop_world.c:1053-1098 | when the world has been stopped, every registered thread that exists and is neither finished nor blocked has stored its stack pointer for this stop and is held in the handler; the semaphore is back at zero |
| StopWorld.HeldUntilRestart | src/bdwgc/pthread_stop_world.c:405-415 | a held thread stays held until `GC_world_is_stopped` is cleared |
| StopWorld.ThreadsLeave | src/bdwgc/pthread_stop_world.c:327-430 | once `GC_world_is_stopped` is cleared, three steps of its own bring a held thread out of the handler, and no leftover signal makes it stop again |
| StopWorld.NoneLost | src/bdwgc/pthread_stop_world.c:496-500 | the "Lost some threads" branch is taken only if a thread has vanished |
| StopWorld.OnlyRunningSignalled | src/bdwgc/pthread_stop_world.c:627-720 | a suspend signal goes only to a registered thread that exists, is neither finished nor blocked and has not stopped yet |
| StopWorld.AbortMeansNoProgress | src/bdwgc/pthread_stop_world.c:468-509 | the stopping thread aborts only after 150 rounds in each of which it had to send as many signals again as in the round before |
| StopWorld.BarrierIsOpen | src/bdwgc/pthread_stop_world.c:447-464 | once all targets have acknowledged, the waits still due are exactly the acknowledgements at hand |
| StopWorld.NeverBlocked | src/bdwgc/pthread_stop_world.c:447-509 | with retries the stopping thread always has a next step, whatever signals are lost and whichever threads vanish: the barrier never waits for an acknowledgement that is not at hand |
| Exclusions.Table.NextExclusion | src/bdwgc/mark_rts.c:545-564 | bisection finds the first range that ends after an address, or that there is none |
| Exclusions.Table.Exclude | src/bdwgc/mark_rts.c:568-606 | the table stays sorted and disjoint and covers exactly the new range in addition; it aborts with an overlap exactly if there is one, and for lack of room exactly if no range can be extended |
| Exclusions.Table.PushWithExclusions | src/bdwgc/mark_rts.c:635-651 | terminates having pushed, in order and disjoint, exactly the range minus the exclusions |
| Exclusions.MeetsNext | src/bdwgc/mark_rts.c:576-585 | a range overlaps the table exactly if it overlaps the first range that ends after its start |
| SizeMap.SizeMap.constructor | src/bdwgc/misc.c:240-255 | exactly the tiny sizes are filled, each with the least number of granules that holds it, and the map is well formed |
| SizeMap.SizeMap.Extend | src/bdwgc/malloc.c:106-154 | all accesses are in range, both searches stop, the entry is filled; every filled entry is large enough and at most the maximum, larger requests never get smaller objects, and a filled section that ends at n is at least n/4 long; the new size is even, and no larger even one puts as many objects into a block |
| SizeMap.FittedIsLargest | src/bdwgc/malloc.c:136-146 | the size chosen puts as many objects into a block as the size asked for, and no larger even size does |

## Left out

- CycleDriver.Cycle.TryToCollectInner: sweeping before a new full collection is one input, `reclaimed`.
- CycleDriver.Cycle.MarkALittle: allocation between the steps of one increment; `Marker.Collector.AllocateBlock` may come between increments.
- Marker.Collector.Reclaim: sweeping happens at once and not block by block on demand; the free lists of objects are not modelled, only that sweeping writes to unmarked objects.
- CollectionEnd.FinishCollection: leak detection, the clearing of free-list marks and statistics.
- Marker.Collector.MarkSome: a step is atomic; stores by other threads come between steps, not inside one.
- Marker.Collector.PushRoots: the root segments fit in half of the initial mark stack; with more the original may abort (`src/bdwgc/mark.c:1195-1213`). Static roots are always pushed in full; after rescuing (`src/bdwgc/mark.c:290`) the original pushes only their dirty pages.
- Marker.Collector.StepRootsPushed: the parallel branch (`src/bdwgc/mark.c:329-341`) is not a branch of the method; `ParallelPhase.ParallelPhaseEnds` says what it achieves.
- Marker.Collector.PushContents: which words are pointers to which object is a map; the arithmetic that recognises interior pointers is modelled by `HeaderIndex.Index.GcBase` only.
- Custom mark procedures, bitmap and per-object descriptors, disclaim callbacks, and the unrolled `GC_push_marked1/2/4`, which byte marks switch off.
- Explicit freeing while marking is under way, and switching incremental mode on at run time.
- ParallelMark.NextKeeps: when a thread shares, returns or stops stealing entries is left open, which covers every threshold; entries are abstract, so the splitting of long ranges is not modelled; a section under the mark lock is one step.
- HblkAllocator.Allocator.Carve: `hb_sz` of a block in use is the length of its run, not its object size; object sizes are in `HeaderIndex.BlkHdr`.
- HblkAllocator.Allocator.Allochblk: headers and index entries can always be allocated; when a part of the heap is not to be split is a parameter, `Policy`, instead of the pacing heuristics.
- HblkAllocator.Allocator.UnmapOld: the collection in which a run was freed is an input, `last`; the counters of unmapped regions are not kept.
- BlackLists.Lists.Promote: the allocator's bound `blLimit` is a field of its own, to be set from `spacing`.
- Pages larger or smaller than blocks, large-allocation warnings, and the operating system's part of mapping.
- HeaderIndex.Index.InstallCounts: addresses do not wrap around at the end of the address space.
- HeaderIndex.Index.InstallHeader: a header is a value in its entry; allocation and reuse of header memory are not modelled.
- Finalizer.Finalization.Finalize: toggle references, the callback before each enqueued object and finalization of everything at exit are not modelled; table entries are not heap objects themselves; the mutator does not run meanwhile.
- Finalizer.Finalization.RegisterLink: growing a table always finds memory and does not collect first.
- Finalizer.Finalization.InvokeFinalizers: finalizers run without registering or collecting; their effects are a list of calls.
- Finalizer.Finalization.RegisterFinalizer: an object that waits in the queue to become unreachable is not registered again meanwhile.
- StopWorld.StoppedMeansHeld: timing is nondeterministic; signals left over from an earlier stop, the acknowledgement count of the restart phase and threads suspended by the client are not modelled.
- Exclusions.Table.Exclude: rounding of the client's bounds to words comes before it and is not modelled.
- SizeMap.SizeMap.Extend: the granule size is 16 bytes; with 8 the constants differ.
- Register and stack scanning, the dirty-bit provider, dynamic libraries, debugging headers and logging.
