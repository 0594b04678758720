# Verified model of the RT-Thread kernel core

This project models the hard parts of the RT-Thread 4.0.0 kernel that is kept under
`rt-thread/` in the repository, and proves what they promise over every run:

* the three heap allocators: the small-memory heap of `mem.c`, `memheap.c`, and `slab.c`
  with its pages, zones, large allocations and page descriptors;
* the IPC objects of `ipc.c` (semaphore, mutex, event, mailbox, message queue), with
  suspend, resume and timeout from `thread.c`, under every interleaving of threads and
  ticks;
* the scheduler of `scheduler.c` in its two-level form for more than 32 priorities, with
  `__rt_ffs`;
* the timer skip list of `timer.c` on its wrapping 32-bit tick;
* the doubly linked lists of `rtservice.h` that most of these are built on.

Each part has the same shape. A *specification* module says what an operation does to a
simple value (a list of blocks, a deque, a flat sorted list, a set of pages) and proves
invariants of every run of those steps. A *class* keeps the fields of the C structure and
updates them in place; each of its methods is one operation, or one section with
interrupts disabled, and is proved to be the corresponding step of the specification.

## How the code is read

* The single-core branches are modelled, and the conditions of `RT_ASSERT` appear as
  `requires`. Hooks, logging and statistics output are no-ops.
* A section of code with interrupts disabled is one atomic step. Between two steps any
  thread may run, so what a thread saw before it was suspended need not hold when it runs
  again.
* Integer widths are explicit where they matter: 32-bit sizes and ticks, the 16-bit
  semaphore value and mailbox fields, the 8-bit hold count, the 16-bit scheduler lock.
* `RT_ALIGN_SIZE` is 4 and pointers have 32 bits, so a block header has 12 bytes in
  `mem.c` and 24 in `memheap.c`.
* Bit sets of events are modelled as the set of the positions of their ones.
* Intrusive lists are sequences of node names, except where the links themselves are the
  point (heap headers, message queue nodes, memheap headers), which are kept as fields.
  `LinkedList` proves for the list functions of `rtservice.h`, on their `next` and `prev`
  fields, that they are those operations on sequences.

## Where the code does less than one might expect

These are results about the code as it is. In each case the exact condition is proved, and
a concrete case shows that it can fail.

* `rt_malloc` of 0xFFFFFFFD bytes or more rounds the request to 0 and returns a 12-byte
  block (`SmallMemTheorems.MallocSizeIff`, `WrappedRequestSucceeds`), and so do
  `rt_memheap_alloc` and `rt_memheap_realloc` (`AllocSizeIff`, `ReallocSizeIff`,
  `FreshPoolAnswers`).
* An in-place shrink in `rt_realloc` can leave a free block below the `lfree` hint, and the
  next request is then refused although a block fits (`ShrinkHintLowestIff`,
  `ShrinkLosesHint`).
* `rt_realloc` of a block to 0xFFFFFFFD bytes or more rounds the size to 0, frees the
  block and returns NULL (`ReallocNullKeepsIff`, `WrappedReallocFrees`).
* `rt_memheap_alloc` refuses a request that exactly one free block would fit exactly
  (`RefusedThoughFitsIff`, `FreshPoolAnswers`).
* `rt_memheap_realloc` to 2^32 - 12 bytes or more, with a free block behind, passes its
  wrapped size test and corrupts the pool (`GrowIff`, `ReallocOverflows`).
* A semaphore release at value 65535 with no waiter wraps the value to 0
  (`ConservedIff`, `WrapLosesTokens`).
* A recursive mutex take at hold 255 wraps the hold count (`LawIff`, `HoldWraps`).
* With `RT_IPC_FLAG_FIFO` a mutex can pass to a thread less urgent than one that still
  waits (`HandoverUrgentIff`, `FifoInverts`).
* `rt_timer_check` ends exactly if no periodic timer that is due has `init_tick` 0
  (`CheckEndsIff`, `ZeroPeriodNeverSettles`).
* `rt_timer_start` unlinks and links a timer in two sections. The second one keeps the list
  right exactly if nobody else has linked the timer meanwhile and its deadline has not passed
  (`LinkKeepsIff`, `DoubleStart`).
* Slab chunks of 8192 and 16384 bytes are aligned to their size exactly if their zone is, and
  zones begin at any page (`AlignedIff`, `SmallPowersAligned`, `LargePowerNotAligned`).
* The comparison of wrapped ticks is right exactly within a window of half a turn
  (`TickOrderIff`, `TickOrderFails`).

## Model

| member | source | states |
|---|---|---|
| BlockList.RtAlignRoundsUp | rt-thread/src/mem.c:289 | `RT_ALIGN` rounds up to the next multiple of 4 exactly while the 32-bit addition does not wrap, and gives 0 otherwise |
| BlockList.CanonicalIsUnique | rt-thread/src/mem.c:156-194 | a block list that tiles the pool without adjacent free blocks is determined by its used blocks: it does not depend on the history of splits and merges |
| SmallMemSpec.AllocateKeepsInv | rt-thread/src/mem.c:305-387 | taking a block keeps tiling, alignment, no adjacent free blocks, the hint and `used_mem`, and adds exactly one used block |
| SmallMemSpec.AllocateKeepsHintLowest | rt-thread/src/mem.c:380-387 | allocation leaves no free block below `lfree` |
| SmallMemSpec.ReleaseKeepsInv | rt-thread/src/mem.c:585-607 | freeing keeps the whole invariant, removes exactly that used block, and keeps the hint lowest |
| SmallMemSpec.PlugRestores | rt-thread/src/mem.c:156-194 | merging a freed block with its free neighbours restores a tiled list without adjacent free blocks and the same used bytes |
| SmallMemSpec.ShrinkKeepsInv | rt-thread/src/mem.c:471-497 | an in-place shrink keeps the invariant and changes only the shrunk block among the used ones |
| SmallMemTheorems.RunKeepsInv | rt-thread/src/mem.c:204-609 | in every interleaving of the locked sections of malloc, free and realloc the invariant holds, `max_mem` is the running maximum of `used_mem`, and without in-place shrinks no free block lies below `lfree` |
| SmallMemTheorems.LiveRegionsDisjoint | rt-thread/src/mem.c:390-403 | user regions of live blocks are aligned, inside the heap and pairwise disjoint |
| SmallMemTheorems.HintIsHarmless | rt-thread/src/mem.c:305-311 | with no free block below it, searching from `lfree` finds the same block as searching from offset 0 |
| SmallMemTheorems.MallocIsFirstFit | rt-thread/src/mem.c:291-311 | the block returned is the lowest one that fits within the search bound, and NULL means that no free block fits except an exact fit ending at `heap_end` |
| SmallMemTheorems.ShrinkHintLowestIff | rt-thread/src/mem.c:471-497 | a shrink keeps the hint lowest exactly if the hint is not above the block's successor and not at `heap_end` |
| SmallMemTheorems.ShrinkLosesHint | rt-thread/src/mem.c:471-497 | a run of two calls on a fresh heap after which a request that a free block fits is refused |
| SmallMemTheorems.MallocThenFree | rt-thread/src/mem.c:272-410 | freeing the block just returned restores block sequence, used flags, `lfree` and `used_mem` exactly |
| SmallMemTheorems.MallocSizeIff | rt-thread/src/mem.c:289-294 | a successful malloc gives at least the requested bytes exactly if the request is at most 0xFFFFFFFC |
| SmallMemTheorems.WrappedRequestSucceeds | rt-thread/src/mem.c:289-294 | a request for 0xFFFFFFFD bytes gets a 12-byte block |
| SmallMemRuns.ReallocIsSections | rt-thread/src/mem.c:421-510 | every reallocation is at most two of those sections: nothing, an allocation, a release, a shrink, or an allocation and a release |
| SmallMemRuns.NoneFoundIff | rt-thread/src/mem.c:305-311 | the search fails exactly if no free block from the hint on lies below its bound and is large enough |
| SmallMemRuns.MallocAnswers | rt-thread/src/mem.c:272-410 | NULL comes exactly if no such block exists, and then nothing changes; otherwise the pointer is to the data of a used block that was not there, of at least the size asked for, and all other used blocks stay |
| SmallMemRuns.FreeAnswers | rt-thread/src/mem.c:546-609 | after a free that block is gone from the used ones, and nothing else |
| SmallMemRuns.ReallocAnswers | rt-thread/src/mem.c:421-510 | for a live block NULL comes exactly if its size differs, it cannot be cut, and the search finds no block, and then nothing changes; the pointer is the old one if the size is the same or the block is cut; in every case it is to a used block of at least the size asked for, which takes the place of the old one among the used blocks |
| SmallMemRuns.ReallocElse | rt-thread/src/mem.c:430-461 | a size above the heap gives NULL, a pointer outside the heap comes back as it is, NULL is an allocation, and a size that aligns to 0 frees |
| SmallMemRuns.EveryRun | rt-thread/src/mem.c:204-609 | in every run of init, malloc, free and realloc calls the invariant holds and `max_mem` is the largest `used_mem` there was, the middle of a move included |
| HeapWords.Splice | rt-thread/src/mem.c:335-349 | rewriting the headers of one stretch of blocks keeps all `next` and `prev` links of the others |
| SmallMem.SmallMem.constructor | rt-thread/src/mem.c:204-257 | the initial headers in memory stand for one free block |
| SmallMem.InitSizeIff | rt-thread/src/mem.c:204-225 | a region is accepted exactly if, cut to words, it holds two headers, and what is left is for data |
| SmallMem.SmallMem.PlugHoles | rt-thread/src/mem.c:156-194 | the header surgery merges the block with both free neighbours, moves the hint, and touches no user data |
| SmallMem.SmallMem.Search | rt-thread/src/mem.c:305-311 | the loop over the `next` links finds what the first-fit specification finds |
| SmallMem.SmallMem.AdvanceHint | rt-thread/src/mem.c:380-387 | the loop moves `lfree` to the next free block or `heap_end` |
| SmallMem.SmallMem.Malloc | rt-thread/src/mem.c:272-410 | returns and does to the block list what the specification says, and changes no byte of any live block |
| SmallMem.SmallMem.Free | rt-thread/src/mem.c:546-609 | accepts NULL and foreign pointers unchanged; otherwise releases the block and changes no byte of any other live block |
| SmallMem.SmallMem.CopyWords | rt-thread/src/mem.c:505 | the copy of a move reproduces the source bytes and changes no other block |
| SmallMem.SmallMem.ShrinkInPlace | rt-thread/src/mem.c:471-497 | keeps the first bytes of the block and every other live block |
| SmallMem.SmallMem.Move | rt-thread/src/mem.c:499-509 | the moving path keeps the common prefix, frees the old block, and on failure changes nothing |
| SmallMem.SmallMem.Realloc | rt-thread/src/mem.c:421-510 | every path keeps the first min(old, new) bytes and all other live blocks, and NULL for a size that does not align to 0 leaves memory unchanged |
| SmallMem.ReallocNullKeepsIff | rt-thread/src/mem.c:430-442 | for a request that is not 0, NULL leaves the heap unchanged exactly if the request is at most 0xFFFFFFFC |
| SmallMem.WrappedReallocFrees | rt-thread/src/mem.c:430-442 | a live block asked to have 0xFFFFFFFD bytes is freed, and NULL returned |
| SmallMemShared.MallocShared | rt-thread/src/mem.c:272-410 | the locked section of malloc leaves every live block in place with its bytes |
| SmallMemShared.FreeShared | rt-thread/src/mem.c:578-609 | that of free leaves every other live block |
| SmallMemShared.ShrinkShared | rt-thread/src/mem.c:448-497 | so does that of an in-place shrink |
| SmallMemShared.WriteSection | rt-thread/src/mem.c:505 | so does a write of a thread to its own block |
| SmallMemShared.MoveKeepsBytes | rt-thread/src/mem.c:499-509 | after a moving reallocation the new block begins with the bytes that the old one had when the call began, with any sections of other threads before the allocation and between any two words of the copy |
| WordCopy.CopySurvives | rt-thread/src/mem.c:505 | a copy of words brings over what was there at the beginning, whatever other threads do that leave both places alone |
| MemheapSpec.InitInv | rt-thread/src/memheap.c:50-121 | the initial pool satisfies the invariant |
| MemheapSpec.ReplaceKeeps | rt-thread/src/memheap.c:138-595 | replacing a stretch of blocks keeps tiling, minimum sizes, no adjacent free blocks, the free list and the counter |
| MemheapSpec.AllocKeeps | rt-thread/src/memheap.c:184-262 | allocation keeps the invariant, in the split and in the whole-block branch |
| MemheapSpec.ChoiceTakes | rt-thread/src/memheap.c:155-184 | the block chosen is free and large enough |
| MemheapSpec.NullIff | rt-thread/src/memheap.c:155-184 | NULL is returned exactly if no free block is large enough or the aligned size is not below `available_size` |
| MemheapSpec.RefusedThoughFitsIff | rt-thread/src/memheap.c:155 | a request that fits is refused exactly if the only free block has exactly its size |
| MemheapSpec.FreeKeeps | rt-thread/src/memheap.c:535-592 | freeing with two-sided merging keeps the invariant, the free list included |
| MemheapSpec.GrowTestIff | rt-thread/src/memheap.c:350 | the 32-bit test for growing in place agrees with the true inequality exactly for sizes below 2^32 - 12 |
| MemheapSpec.GrowIff | rt-thread/src/memheap.c:333-402 | growing in place keeps the invariant exactly for aligned sizes below 2^32 - 12 |
| MemheapSpec.GrowCorrupts | rt-thread/src/memheap.c:350-387 | beyond that the new boundary falls into the block's own header |
| MemheapSpec.ShrinkKeeps | rt-thread/src/memheap.c:419-492 | shrinking in place, with or without merging, keeps the invariant |
| MemheapTheorems.StepKeepsIff | rt-thread/src/memheap.c:138-595 | a call keeps the invariant exactly if it is not a reallocation whose size test wraps |
| MemheapTheorems.EveryRun | rt-thread/src/memheap.c:50-595 | in every other run the blocks tile the pool, neighbours are not both free, blocks keep 12 data bytes, the free list holds the free blocks once each, and `available_size` is the sum of their data sizes |
| MemheapTheorems.ReallocOverflows | rt-thread/src/memheap.c:350 | two calls that break the invariant |
| MemheapTheorems.MaxIsPeak | rt-thread/src/memheap.c:230-243 | `max_used_size` is the running maximum of `pool_size - available_size`, both copies of a move counted |
| MemheapTheorems.LiveRegionsDisjoint | rt-thread/src/memheap.c:262-270 | data regions of blocks are aligned, inside the pool and disjoint |
| MemheapTheorems.AllocAdds | rt-thread/src/memheap.c:184-250 | allocation adds one used block, within a block that was free, of at least the size asked for |
| MemheapTheorems.FreeRemoves | rt-thread/src/memheap.c:535-592 | freeing removes exactly that block from the used ones |
| MemheapTheorems.AllocThenFree | rt-thread/src/memheap.c:138-595 | freeing the block just allocated restores the block list and `available_size`, and the free list up to order |
| MemheapTheorems.AllocSizeIff | rt-thread/src/memheap.c:149-151 | a successful allocation gives at least the requested bytes exactly if the request is at most 0xFFFFFFFC |
| MemheapTheorems.ReallocSizeIff | rt-thread/src/memheap.c:302-304 | the same for a successful reallocation whose size test does not wrap |
| MemheapTheorems.AllocAnswers | rt-thread/src/memheap.c:138-281 | NULL comes exactly if no free block is large enough or the size is not below what is available, and then nothing changes; otherwise the answer is a new used block of at least that size, and the other used ones stay |
| MemheapTheorems.FreeAnswers | rt-thread/src/memheap.c:495-595 | freeing by the header of a used block takes exactly that block out of the used ones |
| MemheapTheorems.MoveAnswers | rt-thread/src/memheap.c:408-416 | a move puts a used block of at least the new size in the place of the old one, which is released, or changes nothing |
| MemheapTheorems.RoomIff | rt-thread/src/memheap.c:341-402 | a block moves exactly if neither it nor it with a free right neighbour is large enough |
| MemheapTheorems.ReallocAnswers | rt-thread/src/memheap.c:284-492 | where the size test does not wrap: the old header is answered exactly if there is room, NULL exactly if there is none and no free block is acceptable, with nothing changed; a block answered has at least the size asked for and takes the place of the old one among the used blocks |
| MemheapTheorems.StepAnswers | rt-thread/src/memheap.c:284-595 | free and realloc with the header of no used block change nothing, and a realloc to 0 is a free |
| MemheapTheorems.ChosenIsFirst | rt-thread/src/memheap.c:167-176 | the block chosen is the first in the free list that is large enough |
| MemheapTheorems.FreedIsFirst | rt-thread/src/memheap.c:576-592 | a block freed beside no free left neighbour is the first that the next search takes, if it fits |
| MemheapTheorems.RestIsFirst | rt-thread/src/memheap.c:184-228 | and so is what is left of a block that is divided |
| MemheapTheorems.FreshPoolAnswers | rt-thread/src/memheap.c:149-155 | a fresh pool gives 12 bytes for 0xFFFFFFFD, and refuses all the bytes that its one block has |
| MemheapData.DataStays | rt-thread/src/memheap.c:138-595 | writes to headers of the blocks before and after a step leave the data that a block has before and after it |
| MemheapData.AllocKeepsData | rt-thread/src/memheap.c:184-262 | allocation leaves all live blocks and their bytes |
| MemheapData.FreeKeepsData | rt-thread/src/memheap.c:535-592 | freeing leaves all other live blocks and their bytes |
| MemheapData.ResizeKeepsData | rt-thread/src/memheap.c:333-492 | growing and shrinking in place keep the bytes that the old and the new size have in common, and all other live blocks |
| MemheapData.MoveKeepsBytes | rt-thread/src/memheap.c:408-414 | a moving reallocation brings over all bytes of the old block, with other threads at work during the copy |
| Memheap.CutLinks | rt-thread/src/memheap.c:210-213 | dividing a block rewrites `next` and `prev` so that the ring still agrees with the blocks |
| Memheap.MergeLinks | rt-thread/src/memheap.c:548-573 | joining two neighbours keeps the ring in agreement with the blocks |
| Memheap.Memheap.constructor | rt-thread/src/memheap.c:50-121 | the initial headers and the used tail stand for one free block |
| Memheap.Memheap.Search | rt-thread/src/memheap.c:167-176 | the loop over the free list finds the first block in list order that is large enough |
| Memheap.Memheap.Alloc | rt-thread/src/memheap.c:138-281 | headers, free list and counters become what the specification says, for every request |
| Memheap.Memheap.Free | rt-thread/src/memheap.c:495-595 | the same for freeing, with the place of a merged block in the free list |
| Memheap.Memheap.GrowInPlace | rt-thread/src/memheap.c:333-402 | the same for growing into the next block |
| Memheap.Memheap.ShrinkInPlace | rt-thread/src/memheap.c:419-492 | the same for shrinking |
| Memheap.Memheap.Realloc | rt-thread/src/memheap.c:284-492 | all paths of realloc, NULL and size 0 included |
| PageAlloc.OneList | rt-thread/src/slab.c:236-322 | for a set of free pages there is only one address-sorted list of maximal runs |
| PageAlloc.FirstFitLowest | rt-thread/src/slab.c:244-262 | first fit is the lowest page from which enough successive pages are free |
| PageAlloc.AllocatePages | rt-thread/src/slab.c:244-262 | allocation removes exactly the pages returned, which were free |
| PageAlloc.AllocateKeeps | rt-thread/src/slab.c:244-262 | allocation keeps the runs maximal |
| PageAlloc.ReleaseKeeps | rt-thread/src/slab.c:284-318 | freeing keeps the runs maximal, whatever it merges |
| PageAlloc.ReleasePages | rt-thread/src/slab.c:284-318 | freeing adds exactly the freed pages |
| PageAlloc.AllocThenFree | rt-thread/src/slab.c:236-322 | allocating and freeing again restores the identical list |
| PageAlloc.FreeCommutes | rt-thread/src/slab.c:272-322 | the order of freeing two disjoint ranges does not matter |
| PageAlloc.PageList.constructor | rt-thread/src/slab.c:327-334 | the initial list is the one run of all pages |
| PageAlloc.PageList.Alloc | rt-thread/src/slab.c:236-270 | the lowest place with enough free pages, NULL exactly if there is none |
| PageAlloc.PageList.Free | rt-thread/src/slab.c:272-322 | the free-page set grows by exactly the freed pages |
| SlabSpec.ZoneIndexOk | rt-thread/src/slab.c:401-459 | every request below 16384 gets an index below 72 and the least chunk size that holds it |
| SlabSpec.SameIndexIff | rt-thread/src/slab.c:401-459 | two requests share an index exactly if they share a chunk size |
| SlabSpec.AtLeastThree | rt-thread/src/slab.c:374-383 | a new zone holds at least three chunks |
| SlabSpec.ChunksApart | rt-thread/src/slab.c:628-648 | the chunks of a new zone lie inside it, behind its header, apart from each other |
| SlabSpec.LiveChunksApart | rt-thread/src/slab.c:523-667 | and so do the live chunks of any zone of a slab that keeps the invariant, that is, in every run |
| SlabSpec.ReuseOk | rt-thread/src/slab.c:541-598 | the section before pages are asked for gives a chunk that was not live and changes no other, or changes nothing and asks only if no zone of the index has room and none is retired |
| SlabSpec.BuildOk | rt-thread/src/slab.c:613-655 | so does the section after pages were given, whatever other threads did in between |
| SlabSpec.AllFree | rt-thread/src/slab.c:853-854 | a zone whose `z_nfree` equals `z_nmax` has no live chunk |
| SlabSpec.MallocOk | rt-thread/src/slab.c:523-667 | both sections undisturbed: the chunk returned was not live and is live now, no other chunk changes, and NULL comes only if no zone, retired zone or page is left |
| SlabSpec.FreeOk | rt-thread/src/slab.c:822-904 | freeing makes exactly that chunk dead, also when the zone is retired or its pages are released |
| SlabSpec.FreeDoes | rt-thread/src/slab.c:848-904 | a zone leaves exactly if its last live chunk is freed while another zone of its index has room; it is retired, or released exactly if two already are; no other zone changes |
| SlabSpec.GiveThenTake | rt-thread/src/slab.c:555-570 | never-used chunks are given first, in order, and then the chunk freed last |
| SlabSpec.EveryRun | rt-thread/src/slab.c:523-904 | in every run `z_nfree` counts never-used and freed chunks, each zone has as many chunks as fit, `zone_array` lists exactly the zones with free chunks, and at most two zones are retired |
| Slab.Slab.Alloc | rt-thread/src/slab.c:523-667 | the zone path of malloc, undisturbed, is that step |
| Slab.Slab.ReuseSection | rt-thread/src/slab.c:541-598 | its first locked section is the reuse step |
| Slab.Slab.BuildSection | rt-thread/src/slab.c:613-655 | its second one is the build step |
| Slab.Slab.Free | rt-thread/src/slab.c:822-904 | the zone path of free is that step, and tells whether pages go back |
| Slab.Slab.Cut | rt-thread/src/slab.c:862-865 | the search loop unlinks exactly the zone |
| SlabHeap.MovingFresh | rt-thread/src/slab.c:601-614 | pages that a call has got from the page allocator belong to no zone, in use or retired |
| SlabHeap.StartInv | rt-thread/src/slab.c:351-395 | after init all pages are free but the table of descriptors |
| SlabHeap.EveryRun | rt-thread/src/slab.c:236-904 | in every interleaving of the sections of malloc and free, small and large, the pages of zones, retired zones, large allocations and running calls are disjoint, every page of the pool is free or in one of them, and the descriptors are right |
| SlabHeap.AllRegionsApart | rt-thread/src/slab.c:523-667 | no two live chunks or large allocations share a byte, of whatever zones |
| SlabHeap.AlignedIff | rt-thread/src/slab.c:628-648 | in every run a chunk is aligned to 8 bytes, and one whose size is a power of two is aligned to its size exactly if its zone is |
| SlabHeap.SmallPowersAligned | rt-thread/src/slab.c:628-648 | so chunks of a power of two up to a page are aligned to their size |
| SlabHeap.LargePowerNotAligned | rt-thread/src/slab.c:628-648 | a zone of 8192-byte chunks whose chunks are not aligned to 8192 |
| SlabHeap.FindsZone | rt-thread/src/slab.c:813-826 | free finds the zone of a chunk from the descriptor of the page its address is in |
| SlabHeap.FindsLength | rt-thread/src/slab.c:780-812 | and the length of a large allocation from that of its first page |
| MessageQueue.NodesConserved | rt-thread/src/ipc.c:1961-2323 | in every interleaving the free nodes, the queued ones and the running calls add up to the nodes of the pool; which node is where is part of what the sections of the class keep |
| MessageQueue.NothingLost | rt-thread/src/ipc.c:1961-2323 | what was linked was taken, dropped by a reset, or is still queued, with multiplicities |
| MessageQueue.FirstInFirstOut | rt-thread/src/ipc.c:1961-2264 | without urgent sends and resets messages are taken in the order they were linked |
| MessageQueue.SentIsReceived | rt-thread/src/ipc.c:1961-2264 | a message sent to an empty queue, or an urgent one to any, is what the next receive takes, and the free nodes are then as many as before |
| MessageQueue.FullIff | rt-thread/src/ipc.c:1981-1990 | a send finds no node exactly if none is free |
| MessageQueue.Mq.constructor | rt-thread/src/ipc.c:1778-1825 | the initial free list holds every node |
| MessageQueue.Mq.SendBegin | rt-thread/src/ipc.c:1961-1995 | reserving a node, with the error cases of size and full queue |
| MessageQueue.Mq.SendClear | rt-thread/src/ipc.c:1997-1998 | clearing the link with interrupts enabled changes nothing others see |
| MessageQueue.Mq.SendByte | rt-thread/src/ipc.c:1999-2000 | copying a byte with interrupts enabled changes nothing others see |
| MessageQueue.Mq.LinkTail | rt-thread/src/ipc.c:2004-2015 | the node becomes the last of the queue |
| MessageQueue.Mq.LinkHead | rt-thread/src/ipc.c:2093-2099 | the node becomes the first of the queue |
| MessageQueue.Mq.SendLink | rt-thread/src/ipc.c:2002-2018 | the second critical section makes exactly the sent bytes appear at the right end of the deque |
| MessageQueue.Mq.RecvBegin | rt-thread/src/ipc.c:2235-2248 | the first message is taken at once |
| MessageQueue.Mq.RecvByte | rt-thread/src/ipc.c:2250-2251 | copying a byte out changes nothing others see |
| MessageQueue.Mq.RecvEnd | rt-thread/src/ipc.c:2250-2264 | the receiver has the bytes the sender copied, and the node is free again |
| MessageQueue.Mq.Reset | rt-thread/src/ipc.c:2277-2323 | all queued messages are dropped, running calls go on |
| QueueWaits.StepKeepsGood | rt-thread/src/ipc.c:1961-2323 | each step keeps every thread in one place, and while receivers sleep there are at least as many woken receivers as queued messages |
| QueueWaits.EveryRun | rt-thread/src/ipc.c:1961-2323 | so in every interleaving of sends, receives, timeouts and resets no wakeup is lost |
| QueueWaits.NobodySleepsInVain | rt-thread/src/ipc.c:2140-2265 | once the woken receivers have checked again, none sleeps beside a message |
| QueueWaits.TimedExactly | rt-thread/src/ipc.c:2193-2207 | in every run a suspended receiver can time out exactly if it waits for a number of ticks, and not if it waits for ever |
| QueueWaits.RecvAnswers | rt-thread/src/ipc.c:2158-2248 | each look answers what has happened: the first message leaves the queue for the caller, or the caller is refused and nothing changes, or it is suspended at its place in the list |
| QueueWaits.SendDoes | rt-thread/src/ipc.c:1978-1995 | the first section of a send takes one free node and changes nothing else, or nothing at all if there is none |
| QueueWaits.LinkDoes | rt-thread/src/ipc.c:2002-2034 | the second one puts the message at its end of the queue and wakes exactly the first receiver |
| QueueWaits.FinishDoes | rt-thread/src/ipc.c:2253-2264 | the node goes back, and the thread can call again |
| QueueWaits.TimeoutDoes | rt-thread/src/thread.c:744-766 | a timeout ends just that wait with its error, and no message moves |
| QueueWaits.ResetDoes | rt-thread/src/ipc.c:2286-2320 | all queued nodes are free again, every receiver is woken with the error, and calls under way go on |
| QueueWaits.ReturnDoes | rt-thread/src/ipc.c:2215-2220 | a thread that was woken with an error returns and can call again |
| QueueWaits.BlockingQueue.constructor | rt-thread/src/ipc.c:1778-1825 | an empty queue with nobody waiting |
| QueueWaits.BlockingQueue.SendSection | rt-thread/src/ipc.c:1972-1995 | the first section of a send refuses a message that is too long, else reserves a node, and wakes nobody |
| QueueWaits.BlockingQueue.LinkSection | rt-thread/src/ipc.c:2002-2034 | the second one links the message and wakes the first receiver |
| QueueWaits.BlockingQueue.RecvSection | rt-thread/src/ipc.c:2158-2248 | each look for a message, on entry or after waking up, takes one, refuses or suspends |
| QueueWaits.BlockingQueue.FinishSection | rt-thread/src/ipc.c:2250-2264 | the receiver has the bytes the sender copied, as far as both buffers reach, and the node goes back to the free list |
| QueueWaits.BlockingQueue.TimeoutSection | rt-thread/src/thread.c:744-766 | a timeout finds its thread suspended and unlinks it |
| QueueWaits.BlockingQueue.ResetSection | rt-thread/src/ipc.c:2286-2320 | reset wakes all receivers with an error and drops the queued messages |
| QueueWaits.BlockingQueue.Resumed | rt-thread/src/ipc.c:2215-2220 | a receiver finds no error exactly if a sender woke it |
| WaitList.EnqueueByPrio | rt-thread/src/ipc.c:79-122 | suspending by priority keeps the list sorted |
| WaitList.EnqueuePrioAt | rt-thread/src/ipc.c:93-118 | the thread goes behind all as urgent and before all less urgent |
| WaitList.Suspend | rt-thread/src/ipc.c:79-122 | the loop inserts where the specification says, for both flags |
| WaitList.EnqueueQueues | rt-thread/src/ipc.c:79-122 | the others keep their order, and the new thread is the last of all, or, by priority, behind all as urgent and before the first that is less so |
| WaitList.ResumeAll | rt-thread/src/ipc.c:156-184 | every thread gets the error code and its timer is stopped |
| WaitList.FailAllDoes | rt-thread/src/ipc.c:156-184 | exactly the threads of the list get the error |
| MailboxSpec.StepKeepsThreads | rt-thread/src/ipc.c:1439-1755 | every thread is in one place, and a timer runs only for a suspended thread |
| MailboxSpec.StepKeepsWakeups | rt-thread/src/ipc.c:1439-1755 | while receivers sleep, mails do not outnumber receivers woken but not yet checked, and dually for senders and free slots |
| MailboxSpec.StepKeepsOrder | rt-thread/src/ipc.c:1439-1755 | mails leave in the order in which they were accepted |
| MailboxSpec.EveryRun | rt-thread/src/ipc.c:1439-1755 | these three hold in every interleaving with timeouts and resets |
| MailboxSpec.NobodySleepsInVain | rt-thread/src/ipc.c:1470-1530 | once woken threads have checked again, no receiver sleeps beside a mail and no sender beside a free slot |
| MailboxSpec.FirstInFirstOut | rt-thread/src/ipc.c:1439-1711 | in every run without resets the values sent are the values that receives answered, in that order, followed by what is in the mailbox |
| MailboxSpec.AnswersAreMails | rt-thread/src/ipc.c:1439-1755 | in every run the values answered by receives are exactly the mails delivered, and those accepted are exactly the values of sends that succeeded, in order |
| MailboxSpec.TimedExactly | rt-thread/src/ipc.c:1476-1500 | in every run a suspended thread can time out exactly if it waits for a number of ticks |
| MailboxSpec.RecvAnswers | rt-thread/src/ipc.c:1587-1711 | the oldest mail is the one answered and the one that leaves, and the first sender is woken; otherwise no mail moves, and the caller is refused or suspended at its place |
| MailboxSpec.SendAnswers | rt-thread/src/ipc.c:1439-1558 | a mail is accepted exactly if there is a slot, and the first receiver is woken; otherwise no mail moves, and the caller is refused or suspended at its place |
| MailboxSpec.TimeoutDoes | rt-thread/src/thread.c:744-766 | a timeout ends just that wait with its error, and no mail moves |
| MailboxSpec.ResetDoes | rt-thread/src/ipc.c:1723-1755 | everybody is woken with the error, and the mails dropped are not delivered |
| MailboxSpec.ReturnDoes | rt-thread/src/ipc.c:1512-1517 | a thread that was woken with an error returns and can call again |
| Mailbox.OffsetsAgree | rt-thread/src/ipc.c:1532-1539 | `in_offset` is `(out_offset + entry) mod size` |
| Mailbox.RingPush | rt-thread/src/ipc.c:1532-1539 | storing at `in_offset` appends to the queue the ring stands for |
| Mailbox.RingPop | rt-thread/src/ipc.c:1680-1688 | fetching at `out_offset` removes its first mail |
| Mailbox.Mailbox.constructor | rt-thread/src/ipc.c:1291-1319 | an empty mailbox, its size cut to 16 bits |
| Mailbox.Mailbox.SendSection | rt-thread/src/ipc.c:1439-1558 | each critical section of a send is a step of the bounded queue, on entry and after waking up |
| Mailbox.Mailbox.RecvSection | rt-thread/src/ipc.c:1587-1711 | the same for a receive |
| Mailbox.Mailbox.TimeoutSection | rt-thread/src/thread.c:744-766 | a thread whose timer fires is suspended, as the assertion demands, and no longer afterwards |
| Mailbox.Mailbox.ResetSection | rt-thread/src/ipc.c:1723-1755 | reset empties the ring and wakes everybody with an error |
| Mailbox.Mailbox.Resumed | rt-thread/src/ipc.c:1512-1517 | a thread finds no error exactly if its partner woke it |
| SemaphoreSpec.EveryRun | rt-thread/src/ipc.c:321-512 | in every interleaving tokens are conserved up to wrap-around, a positive value means nobody waits, and each blocked take is waiting or ended, never both |
| SemaphoreSpec.ConservedIff | rt-thread/src/ipc.c:451-458 | initial value plus releases equals value plus granted takes exactly if no release wrapped |
| SemaphoreSpec.ReleaseWrapsIff | rt-thread/src/ipc.c:451-458 | a release wraps exactly at value 65535 |
| SemaphoreSpec.WrapLosesTokens | rt-thread/src/ipc.c:451-458 | a run in which tokens are lost |
| SemaphoreSpec.EndsOnce | rt-thread/src/thread.c:701-766 | a blocked take ends by exactly one of grant, timeout and reset |
| SemaphoreSpec.ServesInOrder | rt-thread/src/ipc.c:451-458 | a release serves the oldest take, or a most urgent one, by the flag |
| SemaphoreSpec.TimedExactly | rt-thread/src/ipc.c:368-384 | in every run a suspended thread can time out exactly if it waits for a number of ticks |
| SemaphoreSpec.TakeAnswers | rt-thread/src/ipc.c:340-406 | success comes exactly with a token, which is taken; refusal exactly without one and without waiting, and nothing changes; else the caller is suspended at its place |
| SemaphoreSpec.ReleaseDoes | rt-thread/src/ipc.c:430-468 | the first waiter is granted and no token added, or one token is added |
| SemaphoreSpec.TimeoutDoes | rt-thread/src/thread.c:744-766 | a timeout ends just that take, without a token |
| SemaphoreSpec.ResetDoes | rt-thread/src/ipc.c:480-512 | every waiting take is aborted, and the value is the new one cut to 16 bits |
| SemaphoreSpec.ReturnDoes | rt-thread/src/ipc.c:391-399 | a woken thread returns and can call again |
| Semaphore.Semaphore.constructor | rt-thread/src/ipc.c:198-218 | the value is cut to 16 bits |
| Semaphore.Semaphore.TakeSection | rt-thread/src/ipc.c:321-406 | taking, refusing or suspending is that step |
| Semaphore.Semaphore.ReleaseSection | rt-thread/src/ipc.c:430-468 | releasing is that step |
| Semaphore.Semaphore.TimeoutSection | rt-thread/src/thread.c:744-766 | a timeout finds its thread suspended and unlinks it |
| Semaphore.Semaphore.ResetSection | rt-thread/src/ipc.c:480-512 | reset aborts all waiters and sets the value |
| Semaphore.Semaphore.Resumed | rt-thread/src/ipc.c:391-399 | a blocked take returns success exactly if it was granted |
| MutexSpec.EveryRun | rt-thread/src/ipc.c:651-878 | in every interleaving value, owner and hold agree, success means ownership, every thread that does not own the mutex has its own priority, and the owner has the most urgent one among its own and those of the threads that blocked since it took the mutex |
| MutexSpec.LawIff | rt-thread/src/ipc.c:678-682 | a step breaks the agreement of value, owner and hold exactly if it is a recursive take at hold 255 |
| MutexSpec.HoldWraps | rt-thread/src/ipc.c:678-682 | the hold count after any number of recursive takes |
| MutexSpec.NoPriorityInversion | rt-thread/src/ipc.c:651-878 | with priority queueing the waiters are sorted and the owner is at least as urgent as each of them, in every run |
| MutexSpec.HandoverUrgentIff | rt-thread/src/ipc.c:838-855 | a handover keeps the owner most urgent exactly if the first waiter is a most urgent one |
| MutexSpec.ReleaseUndoesTake | rt-thread/src/ipc.c:678-682 | below hold 255 a release takes back a recursive take exactly |
| MutexSpec.TakeThenRelease | rt-thread/src/ipc.c:651-878 | a free mutex taken and released is free again, with all priorities as before |
| MutexSpec.TimedExactly | rt-thread/src/ipc.c:727-743 | in every run a suspended thread can time out exactly if it waits for a number of ticks |
| MutexSpec.TakeAnswers | rt-thread/src/ipc.c:651-776 | success comes exactly for a free mutex or the owner; refusal exactly for another thread that does not wait, and nothing changes; else the caller is suspended at its place |
| MutexSpec.ReleaseDoes | rt-thread/src/ipc.c:787-878 | a release by another thread changes nothing; the last one by the owner gives every thread its own priority, and passes the mutex to the first waiter or frees it |
| MutexSpec.TimeoutDoes | rt-thread/src/thread.c:744-766 | a timeout ends just that take and does not touch the mutex |
| MutexSpec.ReturnDoes | rt-thread/src/ipc.c:752-765 | a woken thread returns and can call again |
| MutexSpec.FifoInverts | rt-thread/src/ipc.c:838-855 | a run with FIFO queueing that inverts priorities |
| Mutex.Mutex.constructor | rt-thread/src/ipc.c:527-547 | a free mutex |
| Mutex.Mutex.TakeSection | rt-thread/src/ipc.c:651-776 | taking, recursion, refusal, or inheritance and suspension; success means ownership |
| Mutex.Mutex.ReleaseSection | rt-thread/src/ipc.c:787-878 | only the owner's call has an effect, and the last one restores its priority and passes the mutex on |
| Mutex.Mutex.TimeoutSection | rt-thread/src/thread.c:744-766 | a timeout finds its thread suspended and unlinks it |
| Mutex.Mutex.Resumed | rt-thread/src/ipc.c:752-765 | a blocked take that returns success owns the mutex |
| EventSpec.SweepSettles | rt-thread/src/ipc.c:1051-1096 | after one pass over the waiters none that stays is satisfied by the remaining set |
| EventSpec.SweepIdle | rt-thread/src/ipc.c:1051-1096 | so a second pass would change nothing |
| EventSpec.SweepGrants | rt-thread/src/ipc.c:1058-1078 | a woken waiter gets all bits it asked for, or at least one |
| EventSpec.SatisfiedBits | rt-thread/src/ipc.c:1152-1161 | bit by bit: AND asks for every bit, OR for at least one |
| EventSpec.SweepServes | rt-thread/src/ipc.c:1051-1096 | a waiter is woken exactly if its condition holds of the bits that the waiters before it have left, and gets those of them it asked for |
| EventSpec.SweepLeaves | rt-thread/src/ipc.c:1082-1084 | a bit is left exactly if it was set and no woken waiter has cleared it |
| EventSpec.SendDoes | rt-thread/src/ipc.c:1026-1108 | after a send a bit is set exactly if it was before or was sent, and no waiter woken by it has cleared it; exactly those woken leave the list |
| EventSpec.RecvAnswers | rt-thread/src/ipc.c:1124-1234 | a receive succeeds exactly if its condition holds bit by bit, gets exactly the bits asked for that are set, and clears all it asked for if it is to; refused, nothing changes; else the caller is suspended at its place |
| EventSpec.TimedExactly | rt-thread/src/ipc.c:1189-1206 | in every run a suspended thread can time out exactly if it waits for a number of ticks |
| EventSpec.TimeoutDoes | rt-thread/src/thread.c:744-766 | a timeout ends just that receive, and the set stays |
| EventSpec.ResetDoes | rt-thread/src/ipc.c:1246-1274 | the set is cleared, and exactly the waiting threads get the error |
| EventSpec.ReturnDoes | rt-thread/src/ipc.c:1214-1225 | a woken thread returns and can call again |
| EventSpec.EveryRun | rt-thread/src/ipc.c:1026-1274 | in every reachable state no suspended waiter's condition is satisfied |
| Event.Event.SweepList | rt-thread/src/ipc.c:1051-1096 | the loop of a send does what letting each waiter perform a non-blocking receive in list order does |
| Event.Event.SendSection | rt-thread/src/ipc.c:1026-1108 | sending is setting the bits and that pass |
| Event.Event.RecvSection | rt-thread/src/ipc.c:1124-1234 | receiving, refusing or suspending, with the error for an empty set |
| Event.Event.TimeoutSection | rt-thread/src/thread.c:744-766 | a timeout finds its thread suspended and unlinks it |
| Event.Event.ResetSection | rt-thread/src/ipc.c:1246-1274 | reset wakes all with an error and clears the set |
| Event.Event.Resumed | rt-thread/src/ipc.c:1214-1225 | a blocked receive returns the bits it was woken with, or the error |
| ReadyIndex.FfsIsSet | rt-thread/src/kservice.c:1246-1291 | `__rt_ffs` of a word that is not 0 names a bit that is set |
| ReadyIndex.FfsIsLowest | rt-thread/src/kservice.c:1246-1291 | and no lower bit is set |
| ReadyIndex.Mark | rt-thread/src/scheduler.c:668-672 | setting both masks adds exactly one priority to the index |
| ReadyIndex.Unmark | rt-thread/src/scheduler.c:755-766 | clearing them removes exactly one |
| ReadyIndex.Highest | rt-thread/src/scheduler.c:170-192 | the two look-ups give the numerically least marked priority |
| ReadyIndex.EmptyIff | rt-thread/src/scheduler.c:411 | the group word is 0 exactly if nothing is marked |
| SchedulerSpec.EveryRun | rt-thread/src/scheduler.c:397-770 | in every run a ready thread that does not run is in exactly the queue of its current priority, and the running one in none |
| SchedulerSpec.ScheduleBest | rt-thread/src/scheduler.c:397-494 | after scheduling the running thread is ready and no ready thread is more urgent |
| SchedulerSpec.NothingQueued | rt-thread/src/scheduler.c:411 | with nothing queued the choice is right exactly if the running thread is ready |
| SchedulerSpec.RoundRobin | rt-thread/src/thread.c:471-476 | under yields the thread at position i of the top queue runs after exactly i + 1 yields, and other queues stay untouched |
| SchedulerSpec.FullTurn | rt-thread/src/thread.c:471-476 | a full turn of yields restores the queue |
| SchedulerSpec.ChangeDoes | rt-thread/src/thread.c:571-612 | the thread has the new priority and nobody else changes; a queued thread leaves its queue for the end of the new one, and otherwise no queue changes |
| SchedulerSpec.InsertDoes | rt-thread/src/scheduler.c:644-677 | a thread made ready enters the end of its queue, unless it runs |
| SchedulerSpec.BeginDoes | rt-thread/src/thread.c:286-318 | a started thread has its initial priority and is queued there |
| SchedulerSpec.SuspendThenResume | rt-thread/src/thread.c:656-735 | a suspended thread is not ready and can be resumed, and a resume at once restores the state |
| SchedulerSpec.ScheduleDoes | rt-thread/src/scheduler.c:397-494 | nothing changes if the running thread is ready and more urgent than all queued ones; else the first of the least queue runs, and the thread that ran, if ready, enters the end of its queue |
| SchedulerSpec.CreateDoes | rt-thread/src/thread.c:147-167 | a created thread has its priority, is not ready, can be started, and leaves the others as they are |
| Scheduler.Scheduler.constructor | rt-thread/src/scheduler.c:254-277 | the system after start with one thread |
| Scheduler.Scheduler.InsertThread | rt-thread/src/scheduler.c:644-677 | the bitmap stays in step with the queues; the running thread is not queued |
| Scheduler.Scheduler.RemoveThread | rt-thread/src/scheduler.c:740-770 | the bitmap stays in step with the queues |
| Scheduler.Scheduler.Schedule | rt-thread/src/scheduler.c:397-494 | picks the least queued priority; unlocked, a most urgent ready thread runs afterwards if any thread is ready |
| Scheduler.Scheduler.Startup | rt-thread/src/thread.c:286-318 | the thread becomes ready at its initial priority and competes at once |
| Scheduler.Scheduler.SuspendCurrent | rt-thread/src/thread.c:656-691 | refused unless the running thread is ready |
| Scheduler.Scheduler.Resume | rt-thread/src/thread.c:701-735 | refused unless suspended; otherwise queued at its current priority |
| Scheduler.Scheduler.ChangePriority | rt-thread/src/thread.c:571-612 | a queued thread moves to the end of its new queue |
| Scheduler.Scheduler.ExitCritical | rt-thread/src/scheduler.c:859-881 | only the outermost exit schedules |
| TimerRows.TickOrderIff | rt-thread/src/timer.c:366-377 | the wrapped comparison decides the true order exactly within its window, and equality always |
| TimerRows.TickOrderFails | rt-thread/src/timer.c:366-377 | half a turn ahead, and just over half a turn behind, it decides wrongly |
| TimerRows.RowsAreSubsequences | rt-thread/src/timer.c:350-396 | each row is a subsequence of the row below |
| TimerRows.InsertOk | rt-thread/src/timer.c:350-396 | insertion keeps every row sorted by deadline and start order and nested in the rows below |
| TimerRows.InsertFlat | rt-thread/src/timer.c:350-396 | the bottom row becomes plain sorted insertion into a flat list |
| TimerSpec.InsertAt | rt-thread/src/timer.c:362-377 | a timer goes behind all that are due no later |
| TimerSpec.FireThenRest | rt-thread/src/timer.c:508-548 | firing the first due timer and then the rest is firing all timers due at the start |
| TimerSpec.DueAll | rt-thread/src/timer.c:508-518 | the due timers are a prefix of the list |
| TimerSpec.RelistNotDue | rt-thread/src/timer.c:532-538 | after the relisting nothing is due |
| TimerSpec.RoundsSettle | rt-thread/src/timer.c:508-548 | if every due periodic timer has a positive period, as many rounds as timers were due settle the list |
| TimerSpec.CheckEndsIff | rt-thread/src/timer.c:508-548 | the loop ends after some number of rounds exactly if no due periodic timer has `init_tick` 0 |
| TimerSpec.ZeroPeriodNeverSettles | rt-thread/src/timer.c:532-538 | a list that no number of rounds settles |
| TimerRuns.StartIsSections | rt-thread/src/timer.c:296-412 | a start is its two sections, if nothing falls between them |
| TimerRuns.LinkKeepsIff | rt-thread/src/timer.c:326-401 | the second section keeps the list right exactly if nobody else has linked the timer and its deadline has not passed |
| TimerRuns.DoubleStart | rt-thread/src/timer.c:309-401 | two threads that start one timer, both past their first sections, list it twice |
| TimerRuns.EveryRun | rt-thread/src/timer.c:296-553 | in every run of starts within the assertion, in one piece or with anything between their sections, of stops, and of ticks whose check ends, each timer is listed at most once, in deadline order and, for equal deadlines, in start order, with a deadline ahead and within reach of the wrapped comparison |
| TimerRuns.TickFiresInOrder | rt-thread/src/timer.c:508-548 | so in every run a tick fires exactly the due timers, in that order |
| TimerRuns.GuardedIsPossible | rt-thread/src/timer.c:296-553 | if starts have `init_tick` below RT_TICK_MAX / 2, and periodic ones above 0, and second sections come in time, every check of the run ends |
| TimerRuns.LinkedFiresOnTime | rt-thread/src/timer.c:296-553 | in every such run a periodic timer that reads tick T in its start, is linked before T + d, and is then left alone fires exactly at T + d, T + 2d, and so on, whatever fell between the sections |
| TimerRuns.LinkedFiresOnce | rt-thread/src/timer.c:296-553 | and a one-shot timer fires once, at T + d, or at the next tick if it is linked only then |
| TimerRuns.PeriodicFiresOnTime | rt-thread/src/timer.c:296-553 | in every such run a periodic timer with 0 < d < RT_TICK_MAX / 2 that is left alone fires exactly at start + d, start + 2d, and so on |
| TimerRuns.OneShotFiresOnce | rt-thread/src/timer.c:296-553 | in every such run a one-shot timer with d < RT_TICK_MAX / 2 that is left alone fires once, exactly at its deadline, or at the next tick for d = 0 |
| TimerRuns.StoppedStaysSilent | rt-thread/src/timer.c:422-447 | in every such run a stopped timer does not fire until it is started again |
| TimerList.TallIff | rt-thread/src/timer.c:384-396 | a timer reaches the row j above the bottom exactly if 4^j divides the start counter |
| TimerList.TimerList.Unlink | rt-thread/src/timer.c:121-129 | the timer leaves every row |
| TimerList.TimerList.Search | rt-thread/src/timer.c:349-379 | the nested loops find, in every row, the place behind all timers due no later |
| TimerList.TimerList.Link | rt-thread/src/timer.c:381-396 | the timer enters the bottom row and as many rows above as the counter allows |
| TimerList.TimerList.Start | rt-thread/src/timer.c:296-412 | starting, if nothing falls between its sections, is plain sorted insertion of the true deadline, with any number of rows |
| TimerList.TimerList.Stop | rt-thread/src/timer.c:422-447 | refused exactly for a timer that is not listed |
| TimerList.TimerList.Check | rt-thread/src/timer.c:494-553 | if no due periodic timer has `init_tick` 0, it ends, fires exactly the due timers once each in deadline and start order, relists periodic ones at now + `init_tick`, and leaves nothing due |
| TimerList.TimerList.TickIncrease | rt-thread/src/clock.c:74-100 | one tick and its check settle the list at the new time |
| TimerList.TimerList.StartStep | rt-thread/src/timer.c:296-412 | a start, of a listed timer or not, is the start step of a run |
| TimerList.TimerList.InitStartStep | rt-thread/src/timer.c:190-412 | so is setting up an unlisted timer and starting it |
| TimerList.TimerList.FirstSection | rt-thread/src/timer.c:309-315 | the first section of a start is a stop step of a run |
| TimerList.TimerList.SetTimeout | rt-thread/src/timer.c:323-324 | the deadline is taken from the tick at that moment, with wrap-around |
| TimerList.TimerList.SecondSection | rt-thread/src/timer.c:326-401 | the second section is the link step, with the tick that was read before |
| TimerList.TimerList.StopStep | rt-thread/src/timer.c:422-447 | a stop is the stop step of a run |
| TimerList.TimerList.TickStep | rt-thread/src/clock.c:74-100 | a tick with its check is the tick step of a run, and needs only what is invariant in runs and that no due periodic timer has `init_tick` 0 |
| LinkedList.InsertOk | rt-thread/include/rtservice.h:58-80 | writing the four links inserts the node at that one place of the ring |
| LinkedList.RemoveOk | rt-thread/include/rtservice.h:86-92 | writing the four links takes the node out of the ring |
| LinkedList.RingFrame | rt-thread/include/rtservice.h:58-92 | a ring does not notice writes to links of nodes it does not have |
| LinkedList.Links.constructor | rt-thread/include/rtservice.h:47-50 | a node that points to itself is linked nowhere, and an empty list |
| LinkedList.Links.InsertAfter | rt-thread/include/rtservice.h:58-65 | inserts behind the head or a listed node, and touches the links of no node outside this list |
| LinkedList.Links.InsertBefore | rt-thread/include/rtservice.h:73-80 | inserts in front of a listed node, or at the end |
| LinkedList.Links.Remove | rt-thread/include/rtservice.h:86-92 | keeps the other nodes in order, and leaves the node linked nowhere |
| LinkedList.Links.RemoveUnlinked | rt-thread/include/rtservice.h:86-92 | removing a node that is linked nowhere changes nothing |
| LinkedList.Links.IsEmpty | rt-thread/include/rtservice.h:98-101 | the head points to itself exactly if no node is listed |
| LinkedList.Links.Length | rt-thread/include/rtservice.h:107-118 | the loop counts the nodes |

## Left out

- SMP branches, `signal.c` and the retry on `-RT_EINTR`: not configured.
- Object registration, devices, idle and start-up code, formatting, drivers and board files: only easy members.
- `mempool.c`: its free list is an easier form of the message queue's.
- Deletion and detaching of objects and threads while threads wait on them.
- Rounded waiting times: after a wake-up the remaining ticks of a mailbox or message queue call are arbitrary instead of computed from the tick counter.
- The byte contents of slab chunks.
- The bytes of memheap blocks in the class: MemheapData has them, and takes all that a step writes to headers as arbitrary.
- `rt_realloc` and the usage counters of `slab.c`.
- `LinkedList` covers one list and its frame; the ready queues, wait lists, timer rows and free lists are then sequences, and their own `next` and `prev` fields (`next_free` and `prev_free` of memheap, `z_next`, and the page list) are not carried along.
- Soft timers, `rt_timer_control`, `rt_tick_set`, and callbacks that start or stop timers.
- The stored `number`, `number_mask` and `high_mask` of a thread: they are recomputed from its priority wherever it changes.
- SmallMem.SmallMem.constructor: requires at least 12 data bytes, because the search bound subtracts the size without sign.
- SmallMem.SmallMem.Move: is one step, although the heap lock is free between its allocation, copy and release; SmallMemShared.MoveKeepsBytes says what holds with other threads in between, if those leave the two blocks alone.
- SmallMem.SmallMem.Realloc: is one step for the same reason.
- SmallMem.SmallMem.CopyWords: copies words, not bytes, since both blocks and the length are aligned.
- Memheap.Memheap.constructor: requires a pool that holds one minimal block, because the source subtracts two headers without sign.
- Memheap.Memheap.Free: the free list is a sequence; its `next_free` and `prev_free` links are not carried along.
- Memheap.Memheap.GrowInPlace: requires an aligned size below 2^32 - 12, for the reason given next.
- Memheap.Memheap.Realloc: does not follow a reallocation whose size test wraps, because the headers it then writes lie inside the block's own header; GrowIff says when.
- Mutex.Mutex.TakeSection: does not follow a recursive take at hold 255; LawIff says that the agreement of value, owner and hold ends there.
- MutexSpec.NoPriorityInversion: for one mutex and threads whose priorities nothing else changes, because the original priority is saved per mutex.
- TimerList.TimerList.Start: is for a start with nothing between its sections; FirstSection, SetTimeout and SecondSection are the sections.
- TimerList.TimerList.SecondSection: does not follow a start whose timer somebody else has linked meanwhile, or that is held up past its own deadline; LinkKeepsIff says that the list is not right then.
- TimerList.TimerList.Check: for callbacks that leave the timers and the tick alone; that no due periodic timer has `init_tick` 0 is needed, as CheckEndsIff says, and that it is below RT_TICK_MAX / 2 is asserted by the source.
- SlabHeap.EveryRun: follows pages, zones and descriptors; the chunk lists inside a zone are numbers, not linked bytes.
- Scheduler.Scheduler.Startup: does not model a start before the scheduler runs.
