# Kernel model

A Dafny model of the memory management, the scheduler and a few small cores of a 64-bit hobby kernel written in C,
with proofs that they keep their promises.  Where the kernel changes state in place, the model is a class whose
methods follow the C functions branch by branch; beside each stands a simple specification that the methods are
proved against, and lemmas about that specification.

| module | what it models | what it is proved to be |
|---|---|---|
| `Common` | bytes, pages, options | |
| `FrameDatabase`, `BlockTree`, `FreeLists`, `FreeMap`, `Pmm` | the buddy allocator over the page database | a set of free frames: the lists are its maximal aligned blocks |
| `PageTree`, `PageTreePrune`, `Paging` | four-level page tables, without TLB | a map from spaces and page numbers to entries, and what the hardware lets through |
| `Vad` | the sorted list of virtual area descriptors of a space | a partial function from addresses to flags |
| `CowMemory`, `EagerMemory`, `SpaceState`, `SpaceMeaning`, `Vmm` | anonymous memory, unmapping, copy-on-write cloning, the write-fault handler | a memory in which cloning copies every private page at once |
| `Slabs`, `Kheap` | slab and large-block heap | disjoint objects that keep their bytes |
| `Scheduler`, `Steps`, `Locks`, `Ownership`, `MutexSystem`, `Kernel` | per-CPU run queues, preemption, sleeping mutexes with hand-off | a step system, what each step does, and its invariants over all runs |
| `Processes`, `Tasks` | PIDs, processes and the threads they own | every process goes with its last thread, once |
| `RunQueue` | the intrusive doubly linked queue | a sequence |
| `Words`, `Moves` | word-at-a-time string routines | their byte-by-byte meaning, for any overlap |
| `Cpio` | the decoder of the initial RAM disk | the inverse of an encoder |
| `Tmpfs` | the in-memory file system | byte sequences and listings |

## How to read it

- A page, a table or a slab is named by its frame number; `NIL` or 0 stands for none.  Flag
  words are sets of flags.  Numbers are unbounded except where the width decides the outcome (`Slabs.Shifted`,
  `Slabs.TotalOfSize`, `Cpio.HexValue`, `Words`).
- `Valid()` of a class is the invariant between its operations; every method requires and ensures it, so that it
  holds over any run.  In `Vmm`, `Mid(held)` is the invariant inside an operation that has the references in `held`
  in its hands.
- In `Vmm.Memory` the ghost field `view.eager` is the memory that programs are meant to see: each page of a space
  stands for an object, and objects hold bytes.  `vas_clone` gives the new space fresh objects for private pages, as
  if it had copied them.  `Valid()` says that what the page tables really lead to holds the same bytes.
- Failing allocations: the page allocator fails when it has no frame, as modelled; the heap under the VAD and space
  structures is a flag or a number of allocations that still succeed (`heapOk`, `heap`).  `KernelAlloc` and
  `KernelFree` let the rest of the kernel take and return blocks at any time.
- Where a method is tied to a specification function (a step of the scheduler or of a mutex, a protection, a listing,
  a decoder), a lemma or a further clause says what that function does without naming it: `Steps.*Means`,
  `Locks.*Means`, `SpaceMeaning`, `Pmm.TouchedFrames`, `Slabs.SlabLayout`, `Cpio.*Means`, `Tmpfs.ListingMeans`.
- The scheduler's steps are the sections that hold a CPU's lock, the switch included; mutex sections hold the
  guard, and interrupts come between steps.  `mutex_unlock` hands over in one step and wakes in a later one.

## Where the code does not do what it should

Each of these has its exact condition, proved for all inputs; lemmas have inputs that show them.

- A write to a tmpfs file cuts off what lies behind it (kernel/src/fs/tmpfs.c:454): `Tmpfs.WriteAgrees` says exactly
  when a write does what a write should, `Tmpfs.WriteTruncates` shows one that does not.
- The order search of `kmalloc` shifts a 32-bit one: it ends exactly when size and header need at most 2^31 bytes,
  or when their sum wraps in 64 bits (`Slabs.OrderSearchEnds`, `Slabs.OrderSearchBySize`); it runs on for
  2^31 + 1 (`Slabs.OrderSearchRunsOn`), and in the wrapped case it settles for one page (`Slabs.OrderSearchWraps`).
- `vas_range_mapped` and `vas_unmap` round start and length separately: the rounded range reaches the end of the
  range asked for exactly when the start's offset in its page is no more than what rounding adds to the length
  (`Vad.RoundedRangeReaches`); `Vad.RoundedRangeFallsShort` has a range that is not covered.
- `vas_map_anon` returns 0 for failure, but also for success, exactly when a fixed mapping's hint lies below the
  second page (`Vmm.Memory.MapAnon`).
- A second `pmm_free` of the same block is noticed exactly when the block heads a maximal free block, that is, when
  it has not been merged into one that begins below it (`Pmm.PageAllocator.FreeTwice`); otherwise the count drops
  below zero in silence (`Pmm.DoubleFreeMissed` has the smallest case).
- `next_table` takes a present entry as it is, and a table made for a kernel mapping has no user bit: a page mapped
  later below it for user mode is found by the walk but not let through.  `Paging.PageTables.MapPage` and `MapRange`
  say exactly when user mode gets through (asked for, and no older table on the way forbids it; writes always get
  through if asked for); `PageTree.SupervisorFirst` has the case of two neighbouring pages.
- `rq_node_is_linked` says no for the only node of a queue (`RunQueue.Queue.IsLinked`).

## Model

| member | source | states |
|---|---|---|
| BlockTree.BuddyIsSibling | kernel/src/mm/pmm.c:40-43 | flipping bit `order` of a block's first frame gives the first frame of the other half of its parent |
| BlockTree.InsertBlock | kernel/src/mm/pmm.c:86-86 | adding a block whose buddy is not wholly free adds exactly that block to the maximal free blocks and changes no other; the loop, flags and links are in `Pmm` |
| BlockTree.RemoveBlock | kernel/src/mm/pmm.c:136-136 | taking a maximal block out of the free frames removes exactly that block from the maximal blocks; the search and the splitting are in `Pmm` |
| BlockTree.CoalescedIsCanonical | kernel/src/mm/pmm.c:45-87 | any partition of the free frames into aligned blocks without two mergeable buddies is the set of maximal blocks: the block set is determined by the free frames |
| BlockTree.CanonicalIsCoalesced | kernel/src/mm/pmm.c:45-87 | conversely the maximal blocks partition the free frames and no two of them are buddies that could be merged |
| FreeMap.BuddyTest | kernel/src/mm/pmm.c:51-58 | whatever stale flags and orders there are, the test of `free_block` is true of exactly the real free block of that order at the buddy's place, and when it fails the buddy is not wholly free |
| FreeMap.NoLargeBlock | kernel/src/mm/pmm.c:130-132 | if all lists from an order on are empty, no aligned run of that order is free |
| FreeMap.ListsArePartition | kernel/src/mm/pmm.c:17-87 | the listed blocks partition the free frames and are fully coalesced |
| FreeMap.ListsDetermined | kernel/src/mm/pmm.c:45-174 | two states with the same free frames have the same blocks on each list |
| Pmm.PageAllocator.constructor | kernel/src/mm/pmm.c:89-121 | after `pfndb_init` and `pmm_init` the free frames are exactly the frames up to maxPfn that hold a byte of a usable range, nothing is allocated, and the invariant holds |
| Pmm.PageAllocator.MarkRange | kernel/src/mm/pfndb.c:80-98 | exactly the frames that hold a byte of the range get the mark and lose the marks that exclude it; of an empty range, the frame that its unaligned start lies in |
| Pmm.TouchedFrames | kernel/src/mm/pfndb.c:82-83 | the rounded bounds of the loop are those of the frames that hold a byte |
| FrameDatabase.CalcMaxPfn | kernel/src/mm/pfndb.c:39-56 | the least frame number such that all usable memory ends at or below that frame |
| FrameDatabase.ReserveStorage | kernel/src/mm/pfndb.c:58-78 | the storage is the fewest whole pages with room for an entry a frame and one more, from the front of the first usable region with room; a panic exactly if there is none |
| FrameDatabase.Boot | kernel/src/mm/pfndb.c:100-130 | after `pfndb_init` and `pmm_init` exactly the frames of the usable regions that the database does not lie in are free, and each has its entry |
| FrameDatabase.HeldAfter | kernel/src/mm/pfndb.c:70-72 | what is left of the map holds the frames that it held, without those of the storage |
| Pmm.PageAllocator.FreeListPush | kernel/src/mm/pmm.c:17-25 | the list gets the page at its front, stays well linked and counted, and no other entry's flags, order or count change |
| Pmm.PageAllocator.FreeListRemove | kernel/src/mm/pmm.c:27-38 | the list loses the page at any position and stays well linked and counted |
| Pmm.PageAllocator.FreeBlock | kernel/src/mm/pmm.c:45-87 | the free frames grow by exactly the block, the lists are again their maximal blocks, entries of other frames and all counts stay, and the free flag appears on the head of the merged block alone |
| Pmm.PageAllocator.Alloc | kernel/src/mm/pmm.c:123-174 | NULL exactly if the order is too large or no aligned run of that size is free, and then nothing changes; otherwise the page is the first of the first list with a block, the run from it on is aligned, was free, is no longer, is disjoint from every live block, has one reference and is marked as used |
| Pmm.PageAllocator.FreePage | kernel/src/mm/pmm.c:181-215 | panics exactly for reserved, poisoned or flagged-free frames; of a live block with other references only the count drops, and with the last one exactly its run of frames becomes free; a free frame without the flag only counts down |
| Pmm.PageAllocator.FreeTwice | kernel/src/mm/pmm.c:181-215 | freeing twice is noticed exactly when the block heads the maximal free block that it ends up in |
| Pmm.DoubleFreeMissed | kernel/src/mm/pmm.c:54-87 | frame 3 freed beside the free frame 2 is not the head of their block |
| Pmm.PageAllocator.AllocThenFree | kernel/src/mm/pmm.c:123-215 | allocating and giving back restores the blocks on every list |
| Pmm.PageAllocator.UpdateLive | kernel/include/mm/page.h:81-93 | counting references and setting flags of a live page keeps the allocator's invariant |
| PageTree.IndexOfAddress | kernel/src/mm/paging.c:18-36 | the four indices of a page number are the nine-bit fields of the address at bits 39, 30, 21 and 12 |
| PageTree.WalkIsLeaf | kernel/src/mm/paging.c:95-118 | the hardware walk from any table on the path gives the entry that the map has for the page |
| PageTree.PermitsIsPath | kernel/src/mm/paging.c:74-118 | the hardware lets an access through exactly if the entries at all four levels have the flag it needs |
| PageTree.LeafPermits | kernel/src/mm/paging.c:74-118 | a present leaf can be written through exactly if it is writable itself; user mode reaches it exactly if it and every table above have the user bit |
| PageTree.MappedPermits | kernel/src/mm/paging.c:89-91 | a page just mapped lets writes through exactly if asked for, and user mode exactly if asked for and no older table on the way forbids it |
| PageTree.OthersPermit | kernel/src/mm/paging.c:74-93 | mapping other pages changes nothing in what a page lets through |
| PageTree.SupervisorFirst | kernel/src/mm/paging.c:78-91 | a page mapped for user mode beside one mapped before for the kernel only: found by the walk, but closed to user mode |
| PageTree.SetLeaf | kernel/src/mm/paging.c:300-317 | writing one leaf entry changes the map at exactly one page of one space and keeps the tables a tree |
| PageTree.GrowTree | kernel/src/mm/paging.c:74-93 | hanging a zeroed table on an absent entry keeps the tree and changes no translation |
| Paging.PageTables.NextTable | kernel/src/mm/paging.c:74-93 | finds the table below, makes one only if there is none and only there, and fails only when no frame is free; no translation changes; a new entry can be written through, and has the user bit exactly if the mapping has it |
| Paging.PageTables.LookupPt | kernel/src/mm/paging.c:95-108 | finds or makes the last-level table of a page, adding tables on its path only |
| Paging.PageTables.MapPage | kernel/src/mm/paging.c:300-317 | on success exactly that page of that space is mapped as asked, with writes let through exactly if asked for and user mode exactly if no older table on the way forbids it either; on failure no translation has changed, and either an address was not aligned or no frame is free |
| Paging.PageTables.UnmapPage | kernel/src/mm/paging.c:367-383 | exactly that page of that space becomes absent; no table and no frame moves |
| Paging.PageTables.VirtToPhys | kernel/src/mm/paging.c:385-397 | the frame that the map has for the page, with the offset, or 0 |
| Paging.PageTables.GetFlags | kernel/src/mm/paging.c:399-412 | the flags that the map has for the page, and whether there is an entry |
| Paging.PageTables.MapRange | kernel/src/mm/paging.c:319-365 | mapping in runs of a table equals mapping page by page, across table boundaries, with the same permissions; on failure exactly the first `done` pages are mapped |
| Paging.PageTables.PtableCreate | kernel/src/mm/paging.c:242-257 | a new root, absent below entry 256 and equal to the kernel's root from there on, or 0 when no frame is free; nothing else is added and no translation changes |
| Paging.PageTables.PtableDestroy | kernel/src/mm/paging.c:223-282 | every table of the space's lower half and its root goes back once, no other table does, and every other space keeps its tables |
| Vad.Vas.Insert | kernel/src/mm/vmm.c:32-41 | the list stays sorted and disjoint and describes what it did and the new area |
| Vad.Vas.RemoveRange | kernel/src/mm/vmm.c:43-82 | set subtraction: every address outside the range keeps its flags, none inside has any, and the list stays sorted |
| Vad.Vas.FindFree | kernel/src/mm/vmm.c:84-103 | the least page-aligned address at or above the hint with room, or 0 when there is none below the end of user space (or, for hint 0, when it is 0) |
| Vad.Vas.Overlaps | kernel/src/mm/vmm.c:105-115 | true exactly if some area meets the range |
| Vad.FreeRangeMeans | kernel/src/mm/vmm.c:105-115 | a range meets no area exactly when none of its addresses is described |
| Vad.Vas.Find | kernel/src/mm/vmm.c:364-375 | the flags that the list has for the address, if any |
| Vad.Vas.RangeMapped | kernel/src/mm/vmm.c:377-402 | true exactly if every address of the rounded range is described |
| Vad.Vas.Add | kernel/src/mm/vmm.c:578-589 | the area is added exactly if it is not empty, aligned and free; otherwise nothing changes |
| Vad.RoundedRangeReaches | kernel/src/mm/vmm.c:309-311 | rounding start and length separately covers the range exactly when the start's offset is at most what rounding adds; for aligned starts always |
| Vad.RoundedRangeFallsShort | kernel/src/mm/vmm.c:385-387 | a range whose end the rounded range does not reach |
| Vmm.Memory.constructor | kernel/src/mm/vmm.c:172-189 | with no spaces every allocated frame is a table or belongs to the rest of the kernel, and the invariant holds |
| Vmm.Memory.CommitAnon | kernel/src/mm/vmm.c:138-159 | maps zeroed pages in order; on failure the pages before the failing one are mapped and at most one frame is free |
| Vmm.Memory.UncommitRange | kernel/src/mm/vmm.c:117-136 | exactly the pages of the range go; each gives up one reference, so that no more frames become free than pages went |
| Vmm.Memory.ChoosePlace | kernel/src/mm/vmm.c:220-234 | a fixed mapping goes to its page if that is free, another to the least free place at or above hint or user start |
| Vmm.Memory.MapAnon | kernel/src/mm/vmm.c:211-249 | on success the mapping lies at the page of a fixed hint, or at the first aligned place from hint or user start on that meets no area; each of its pages is new, has exactly the bits asked for and holds zeroes; every other page is as before; on failure descriptors, translations and visible bytes are as before, and the cause is an empty length, the heap, no free place, or that no more frames are left than the pages asked for and one |
| Vmm.Memory.Unmap | kernel/src/mm/vmm.c:302-328 | descriptors and pages of the rounded range go, and nothing else; every remaining page keeps its leaf and shows the same bytes |
| Vmm.Memory.Create | kernel/src/mm/vmm.c:172-189 | a new empty space with a root of its own, or none when the heap or the frames are exhausted |
| Vmm.Memory.Destroy | kernel/src/mm/vmm.c:191-209 | all pages, descriptors and tables of the space go back, its tables each once; every other space stays as it is |
| Vmm.Memory.HandlePageFault | kernel/src/mm/vmm.c:421-474 | a write fault on a page that its area lets be written makes that page writable and changes no visible byte; for a page that needs it it succeeds unless frames run out; it is refused wherever there is no area, and in an area that is shared or not writable |
| Vmm.Memory.BreakSharing | kernel/src/mm/vmm.c:442-473 | a page that is the only user of its frame keeps it, another moves to a frame that backs no page; the bytes stay, and the page becomes writable |
| Vmm.Memory.Clone | kernel/src/mm/vmm.c:510-576 | the new space has the same areas and, for each page of the source, a page on the same frame with the same bytes: the same object if the area is shared, and otherwise a new one; a failure leaves descriptors, visible bytes and grants as before, with pages made read-only recoverable, and happens only if the heap or the frames were short |
| Vmm.Memory.CloneUndo | kernel/src/mm/vmm.c:526-571 | undoing at any page gives back all that the new space had |
| Vmm.Memory.Store | kernel/src/mm/vmm.c:421-474 | a user write is the eager memory's write: it shows in this page, and in others only if they share on purpose; it fails only without permission or frames |
| Vmm.Memory.Load | kernel/src/mm/paging.c:385-397 | a user read gives the byte of the eager memory |
| Vmm.Memory.UserAccessOk | kernel/src/mm/vmm.c:476-508 | 0 means that every page of the range can be read, or written without a fault; -1 only for a range outside user space, a page that may not be used so, or no free frame; no visible byte changes |
| Vmm.Memory.Conservation | kernel/src/mm/vmm.c:117-159 | an allocated frame is a table, belongs to the rest of the kernel, or backs as many pages over all spaces as it has references, and at least one |
| Vmm.Memory.WalkFindsLeaf | kernel/src/mm/paging.c:385-397 | the walk from a space's root finds exactly the page that the model has; it lets writes through exactly if the leaf is writable, and user mode exactly if leaf and tables above have the user bit |
| Vmm.Memory.PageDescribed | kernel/src/mm/vmm.c:548-571 | every page lies in an area of its space; that area's flags alone say whether forks share the page, and the leaf has its bits, but for the write bit of a private page |
| SpaceMeaning.GrantedMeans | kernel/src/mm/vmm.c:548-551 | what the model keeps as a page's grant is what the area that contains it says |
| SpaceMeaning.ForkMeans | kernel/src/mm/vmm.c:553-570 | each page of the source is forked as the flags of its area say |
| SpaceMeaning.GrewMeans | kernel/src/mm/vmm.c:138-159 | committing a range gives new zeroed pages with the area's bits, and leaves every other page alone |
| Vmm.Memory.PrivatePages | kernel/src/mm/vmm.c:548-571 | a page outside shared areas has its object to itself in the eager memory |
| Vmm.Memory.WritableIsRecoverable | kernel/src/mm/vmm.c:437-453 | a page in use that its area lets be written is writable or can be made so by the fault handler |
| Vmm.Memory.KernelAlloc | kernel/src/mm/pmm.c:123-174 | another part of the kernel takes a block: no space, page or visible byte changes |
| Vmm.Memory.KernelFree | kernel/src/mm/pmm.c:181-215 | and gives one back |
| EagerMemory.WriteShows | kernel/src/mm/vmm.c:421-474 | a write to a page shows in the pages of the same object at that offset and nowhere else |
| EagerMemory.ForkIsSnapshot | kernel/src/mm/vmm.c:510-576 | after a clone a private page of the copy shows what the source showed, whatever is written to other pages, and the source's page likewise |
| EagerMemory.OthersWriteInVain | kernel/src/mm/vmm.c:421-474 | no run of writes to other pages changes a private page |
| EagerMemory.ForkKeepsSharing | kernel/src/mm/vmm.c:563-570 | a write through the copy of a shared page shows in the source |
| CowMemory.SeesEager | kernel/src/mm/vmm.c:510-576 | under the invariant the frame that a page leads to holds the bytes of the eager memory |
| CowMemory.CountsAreUsers | kernel/src/mm/vmm.c:117-159 | outside an operation a data frame's reference count is the number of its pages |
| Kheap.KernelHeap.SlabCreate | kernel/src/mm/kheap.c:44-78 | a fresh frame becomes a slab with all its objects threaded, at the front of the partial list, or no frame is free and nothing changes |
| Kheap.KernelHeap.SlabAlloc | kernel/src/mm/kheap.c:151-176 | a new object of the class's size; all other objects keep their bytes; takes no frame while the class has a free object, and fails only when no frame is free |
| Kheap.KernelHeap.SlabFree | kernel/src/mm/kheap.c:178-198 | exactly that object goes; lists, counts and free lists stay right |
| Kheap.KernelHeap.CacheFor | kernel/src/mm/kheap.c:200-207 | the least size class with room, for sizes up to 2048 |
| Kheap.KernelHeap.OrderFor | kernel/src/mm/kheap.c:247-252 | the least order whose block has room, for totals up to 2^31 |
| Kheap.KernelHeap.Kmalloc | kernel/src/mm/kheap.c:236-276 | a new object: 8 bytes aligned by 8, or the least power of two up to 2048 with room aligned by 16, or the exact size behind the header of a block of the least order with room; every other object untouched; NULL only for size 0 or when no frame, or no run of the order needed, is free |
| Kheap.KernelHeap.Kfree | kernel/src/mm/kheap.c:324-356 | exactly that object goes; panics exactly for addresses that are no objects |
| Kheap.KernelHeap.Krealloc | kernel/src/mm/kheap.c:286-322 | the object moves with its first min(old, new) bytes; on failure nothing changes; other objects keep their bytes |
| Kheap.KernelHeap.ObjectsDisjoint | kernel/src/mm/kheap.c:151-276 | allocated objects do not overlap |
| Kheap.KernelHeap.ObjectsClearOfLinks | kernel/src/mm/kheap.c:151-198 | no allocated object overlaps a free-list word |
| Kheap.KernelHeap.ObjectsBehindHeaders | kernel/src/mm/kheap.c:44-78 | every object lies inside its block, behind the slab or block header |
| Kheap.KernelHeap.ObjectsAligned | kernel/src/mm/kheap.c:53-64 | objects of less than 16 bytes are aligned by 8, the other slab objects by 16; large ones follow their header |
| Slabs.SlabLayout | kernel/src/mm/kheap.c:53-57 | class sizes double from 8; objects begin at the first aligned place behind the slab header, and there are as many as fit |
| Slabs.PoppedKeeps | kernel/src/mm/kheap.c:151-176 | taking the first free object keeps in-use count plus free list equal to the total, and the slab on the partial list exactly while it has free objects |
| Slabs.PushedKeeps | kernel/src/mm/kheap.c:178-198 | giving an object back keeps the same |
| Slabs.OrderSearchEnds | kernel/src/mm/kheap.c:247-250 | the order search ends exactly for totals up to 2^31 |
| Slabs.OrderSearchRunsOn | kernel/src/mm/kheap.c:248-249 | for 2^31 + 1 no order ends it |
| Slabs.OrderSearchBySize | kernel/src/mm/kheap.c:247-250 | in terms of the size: it ends exactly if size and header fit in 2^31 or their 64-bit sum wraps |
| Slabs.OrderSearchWraps | kernel/src/mm/kheap.c:247-250 | in the wrapped case it ends at once with a block smaller than the object |
| Scheduler.TickKeeps | kernel/src/sys/sched.c:523-555 | a timer tick keeps every unreaped thread in the one place that its status names, and the counts |
| Scheduler.YieldKeeps | kernel/src/sys/sched.c:557-575 | so does yielding |
| Scheduler.BlockKeeps | kernel/src/sys/sched.c:577-598 | so does blocking |
| Scheduler.WakeKeeps | kernel/src/sys/sched.c:624-643 | so does waking |
| Scheduler.ExitKeeps | kernel/src/sys/sched.c:645-674 | so does exiting |
| Scheduler.SpawnKeeps | kernel/src/sys/sched.c:254-317 | so does spawning, which adds exactly the new thread |
| Scheduler.ReapKeeps | kernel/src/sys/sched.c:422-480 | so does reaping, which removes exactly one zombie, and no CPU was running it |
| Scheduler.RunKeeps | kernel/src/sys/sched.c:254-674 | over every run each unreaped thread is in exactly one place and the counters are right |
| Scheduler.WaitShrinks | kernel/src/sys/sched.c:487-575 | ticks left plus quantum times position drops with every tick of the CPU and never rises with another step |
| Scheduler.BoundedWaiting | kernel/src/sys/sched.c:487-575 | a thread at position k of a queue becomes current within 2(k + 1) ticks of its CPU |
| Steps.StepMeans | kernel/src/sys/sched.c:254-674 | what each step of the scheduler does to current thread, queues, statuses and ticks, without the step function |
| Steps.YieldMeans | kernel/src/sys/sched.c:557-575 | a thread that yields goes to the end of its queue and its head runs; with an empty queue it runs on with a full quantum |
| Steps.TickMeans | kernel/src/sys/sched.c:523-555 | a tick counts down, and at the end of the quantum does what a yield does |
| Steps.BlockMeans | kernel/src/sys/sched.c:577-598 | the blocked thread is in no queue and the next one runs |
| Steps.ExitMeans | kernel/src/sys/sched.c:645-674 | the thread is a zombie, queued for reaping, and the next one runs |
| Steps.WakeMeans | kernel/src/sys/sched.c:624-643 | exactly a blocked thread becomes runnable, at the end of its CPU's queue |
| Steps.ReapMeans | kernel/src/sys/sched.c:422-480 | exactly the first zombie goes |
| Steps.YieldsReach | kernel/src/sys/sched.c:557-575 | over every run, a thread at position k of a queue has become current when its CPU has yielded k + 1 times |
| Kernel.Machine.NextThread | kernel/src/sys/sched.c:487-500 | the first runnable thread of the queue, or the idle thread; those before it are dropped, zombies among them queued for reaping |
| Kernel.Machine.RunNext | kernel/src/sys/sched.c:502-521 | the code of the switch is the model's dispatch |
| Kernel.Machine.TickCpu | kernel/src/sys/sched.c:523-555 | the code of the timer tick does what a tick means, and keeps the invariant of the whole system |
| Kernel.Machine.YieldCpu | kernel/src/sys/sched.c:557-575 | the code of yielding puts the thread behind the others and runs the first of them, and keeps the invariant |
| Kernel.Machine.ExitCurrent | kernel/src/sys/sched.c:645-674 | the code of exiting makes the thread a zombie and runs the next, and keeps the invariant |
| Kernel.Machine.WakeThread | kernel/src/sys/sched.c:624-643 | the code of waking queues exactly a blocked thread, and keeps the invariant |
| Kernel.Machine.BlockCurrent | kernel/src/sys/sched.c:577-598 | blocking and the release of the guard are one step |
| Kernel.Machine.SelectCpu | kernel/src/sys/sched.c:109-125 | the first CPU with the least load |
| Kernel.Machine.SpawnThread | kernel/src/sys/sched.c:254-317 | the thread is queued on a CPU with the fewest unreaped threads, counting one more where a thread other than the idle one runs |
| Kernel.Machine.ReapAll | kernel/src/sys/sched.c:463-480 | the loop ends with no zombies left on the CPU |
| Processes.ProcessTable.AllocPid | kernel/src/sys/sched.c:154-171 | a PID from 1 to 65535 that no listed process has, the next one if that is unused; none exactly if all are in use |
| Processes.ProcessTable.PidInUse | kernel/src/sys/sched.c:144-152 | true exactly if a listed process has the PID |
| Processes.ProcessTable.SpawnProc | kernel/src/sys/sched.c:204-252 | the new process is listed with a PID of its own from 1 to 65535, an idle one unlisted with PID 0; on failure table and list are as before, and the cause is the heap, the address space, or that all PIDs are taken |
| Processes.ProcessTable.FreeThread | kernel/src/sys/sched.c:387-450 | the thread leaves its list; the process is freed and its PID released exactly when it was the last |
| Tasks.TaskSystem.SpawnThread | kernel/src/sys/sched.c:254-317 | scheduler and processes gain the same thread |
| Tasks.TaskSystem.ReapThread | kernel/src/sys/sched.c:422-480 | each reaping is one unlinking: threads and thread lists stay the same, and the process goes exactly when no unreaped thread of its is left |
| Tasks.OnlySpawnAndReap | kernel/src/sys/sched.c:254-674 | no other step of the scheduler changes which threads there are |
| Tasks.MutexesKeepThreads | kernel/src/lib/mutex.c:21-105 | nor does any step of a mutex |
| Locks.MutualExclusion | kernel/src/lib/mutex.c:21-105 | two threads that have been told that they hold a mutex are the same, and its owner |
| Locks.PanicIsRecursion | kernel/src/lib/mutex.c:62-65 | the owner test finds the caller itself exactly if it held the mutex when it called |
| Locks.NoLostWakeup | kernel/src/lib/mutex.c:77-105 | a sleeping thread waits in the queue of a mutex with another owner, or owns the mutex and exactly one awake thread is about to wake it |
| Locks.OneQueue | kernel/src/lib/mutex.c:67-68 | no thread waits in two queues |
| Locks.FirstComeFirstServed | kernel/src/lib/mutex.c:67-99 | the waiters are those that have arrived and not been handed the mutex, in order of arrival |
| Locks.TakeGuardMeans | kernel/src/lib/mutex.c:54-68 | a free mutex is owned by the caller afterwards; the owner itself panics; another joins the waiters at their end |
| Locks.ReturnMeans | kernel/src/lib/mutex.c:72-74 | a woken thread holds the mutex that it slept for |
| Locks.TryLockMeans | kernel/src/lib/mutex.c:21-41 | a free mutex is owned by the caller afterwards, and one that is not free stays as it is |
| Locks.UnlockMeans | kernel/src/lib/mutex.c:85-101 | only the owner gets through; the first waiter is owner afterwards, or nobody |
| Ownership.LockedMeansOwned | kernel/src/lib/mutex.c:43-75 | over every run a thread that comes back from `mutex_lock` owns the mutex |
| Ownership.OwnedUntilUnlocked | kernel/src/lib/mutex.c:43-105 | and it owns the mutex until it unlocks it itself |
| Ownership.LockedUntilUnlocked | kernel/src/lib/mutex.c:43-105 | both over one run: from its return from lock to its unlock the thread is the owner |
| MutexSystem.NextKeeps | kernel/src/lib/mutex.c:21-105 | every step of scheduler or mutex keeps the joint invariant |
| MutexSystem.RunKeeps | kernel/src/lib/mutex.c:21-105 | so does every run of any number of threads and CPUs |
| MutexSystem.NeverTwoOwners | kernel/src/lib/mutex.c:21-105 | after any run at most one thread holds a mutex |
| MutexSystem.HandoffIsSafe | kernel/src/lib/mutex.c:43-75 | after any run a resumed waiter finds itself owner, and the recursion panic strikes only callers that held the mutex |
| MutexSystem.WakeupIsNotLost | kernel/src/lib/mutex.c:77-105 | after any run a blocked thread waits in a queue whose mutex is owned, or owns it and its wake is pending |
| MutexSystem.FirstInFirstOut | kernel/src/lib/mutex.c:67-99 | after any run the hand-offs followed by the waiters are the arrivals |
| MutexSystem.BootIsOk | kernel/src/sys/sched.c:676-729 | the state after start-up satisfies the invariant |
| MutexSystem.RunIsScheduled | kernel/src/sys/sched.c:523-674 | a run of the whole system is a run of the scheduler |
| MutexSystem.QueuedThreadRuns | kernel/src/sys/sched.c:487-575 | so bounded waiting holds in the whole system |
| Kernel.Machine.LockSection | kernel/src/lib/mutex.c:54-68 | the guarded section of `mutex_lock`: panics exactly for its owner, makes the caller owner of exactly a free mutex, and queues it otherwise |
| Kernel.Machine.LockBlocks | kernel/src/lib/mutex.c:70-70 | going to sleep releases the guard in the same step |
| Kernel.Machine.LockReturns | kernel/src/lib/mutex.c:72-74 | the check after waking always finds the caller to be owner |
| Kernel.Machine.TryLockMutex | kernel/src/lib/mutex.c:21-41 | makes the caller owner of exactly a free mutex, and changes no mutex otherwise |
| Kernel.Machine.UnlockSection | kernel/src/lib/mutex.c:85-101 | panics exactly for a caller that is not the owner; the first waiter, or nobody, is owner afterwards |
| Kernel.Machine.UnlockWakes | kernel/src/lib/mutex.c:103-104 | the wake after the hand-over |
| RunQueue.Queue.PushBackNode | kernel/src/lib/rq.c:36-48 | the contents get the node's data at the end; links both ways and length stay right |
| RunQueue.Queue.PushFrontNode | kernel/src/lib/rq.c:22-34 | at the front |
| RunQueue.Queue.PopFrontNode | kernel/src/lib/rq.c:62-82 | the first node leaves, unlinked |
| RunQueue.Queue.PopBackNode | kernel/src/lib/rq.c:84-104 | the last node leaves, unlinked |
| RunQueue.Queue.RemoveNode | kernel/src/lib/rq.c:120-135 | any node leaves, unlinked, and the others keep their order |
| RunQueue.Queue.Find | kernel/src/lib/rq.c:137-149 | the first node with the data, or none |
| RunQueue.Queue.Contains | kernel/src/lib/rq.c:151-154 | true exactly if the data is in the contents |
| RunQueue.Queue.Remove | kernel/src/lib/rq.c:156-165 | the first occurrence goes |
| RunQueue.Queue.Rotate | kernel/src/lib/rq.c:167-176 | the first goes to the end |
| RunQueue.Queue.IsLinked | kernel/src/lib/rq.c:17-20 | true exactly for a node among two or more |
| Words.RepeatByte | kernel/src/lib/string.c:7-15 | every byte of the word is the byte |
| Words.ZeroByteTest | kernel/src/lib/string.c:17-23 | the subtract-and-mask test is non-zero exactly if some byte is zero |
| Words.HasZeroByte | kernel/src/lib/string.c:17-23 | true exactly if some byte of the word is zero |
| Words.SameBytes | kernel/src/lib/string.c:169-178 | words are equal exactly if their bytes are |
| Words.StrLen | kernel/src/lib/string.c:25-49 | the distance to the first NUL, for every start |
| Words.MemSet | kernel/src/lib/string.c:98-120 | exactly the range is filled, for every alignment and length |
| Moves.MemCpy | kernel/src/lib/string.c:73-96 | every byte is the one a simultaneous copy puts there, for disjoint ranges and for any with the destination at or below the source |
| Moves.MemMove | kernel/src/lib/string.c:122-154 | every byte is the one a simultaneous copy puts there, however the ranges overlap |
| Moves.MemCmp | kernel/src/lib/string.c:156-194 | 0, -1 or 1 by the first byte that differs |
| Moves.OneOrder | kernel/src/lib/string.c:156-194 | that order is a function of the bytes |
| Cpio.ParseHex | kernel/src/fs/initrd.c:24-50 | exactly strings of hexadecimal digits of either case are numbers, with the value that they write in 32 bits |
| Cpio.HexRoundTrip | kernel/src/fs/initrd.c:24-50 | up to eight digits of either case are read back |
| Cpio.ValueIsWritten | kernel/src/fs/initrd.c:24-50 | a field of up to eight characters is read as n exactly if its digits, of either case, are the nibbles of n |
| Cpio.HeaderFields | kernel/src/fs/initrd.c:8-22 | the encoder's thirteen fields lie at the offsets of the format |
| Cpio.Align4IsLeast | kernel/src/fs/initrd.c:52-55 | rounding gives the least multiple of four that is not below |
| Cpio.NormalizePath | kernel/src/fs/initrd.c:70-95 | the path is the name without leading "./", behind a "/", cut to the buffer; "." gives none |
| Cpio.FittingPath | kernel/src/fs/initrd.c:70-95 | a path shorter than PATH_MAX is not cut |
| Cpio.ParseAt | kernel/src/fs/initrd.c:199-241 | one turn's checks and fields |
| Cpio.Unpack | kernel/src/fs/initrd.c:185-265 | terminates and asks for exactly the entries up to the trailer, the first broken one, or the end |
| Cpio.EntryRoundTrip | kernel/src/fs/initrd.c:199-260 | a well-formed entry is read back with mode, name, data and size, whatever follows it |
| Cpio.ArchiveRoundTrip | kernel/src/fs/initrd.c:199-260 | unpacking the archive of any entries asks for exactly those, in order, with the same paths, modes and data, and stops at the trailer |
| Cpio.NormalMeans | kernel/src/fs/initrd.c:70-95 | any number of "./" in front goes, and a "/" comes before the rest; "." gives none |
| Cpio.AskedMeans | kernel/src/fs/initrd.c:243-257 | the type nibble of the mode alone says what is made: 4 a directory, 8 a file, under the first 4095 characters of its path |
| Cpio.ArchiveMakes | kernel/src/fs/initrd.c:199-260 | the archive of files and directories makes each one, in order, under its own name with its own mode and data |
| Cpio.StopsAtUnreadable | kernel/src/fs/initrd.c:213-241 | after any entries, one with another magic number, a field that is no number, no name length, or parts beyond the end stops the decoder with failure, those before it made |
| Cpio.UnreadableIsBroken | kernel/src/fs/initrd.c:213-241 | and only such an entry does |
| Cpio.EndsWithoutTrailer | kernel/src/fs/initrd.c:199-199 | an archive without trailer ends without failure where there is no room for a header |
| Tmpfs.FileSystem.Resize | kernel/src/fs/tmpfs.c:203-234 | the file keeps its bytes below the new size and holds 0 at each index beyond its old end; fails exactly when it must grow and the heap cannot |
| Tmpfs.FileSystem.Truncate | kernel/src/fs/tmpfs.c:352-383 | opening with O_TRUNC empties the file and keeps the byte count right |
| Tmpfs.FileSystem.Read | kernel/src/fs/tmpfs.c:394-427 | the bytes of the file from the offset on, at most as many as asked |
| Tmpfs.FileSystem.Write | kernel/src/fs/tmpfs.c:429-471 | byte by byte: old bytes up to the offset, 0 in the gap, the new bytes, and nothing behind them; on failure nothing changes |
| Tmpfs.WriteAgrees | kernel/src/fs/tmpfs.c:454-460 | this is what a write should do exactly when it reaches the end of the file |
| Tmpfs.WriteTruncates | kernel/src/fs/tmpfs.c:454-460 | a write that cuts a file short |
| Tmpfs.ChunksRebuild | kernel/src/fs/tmpfs.c:429-471 | however bytes are cut, writing them in order gives old bytes, gap and new bytes |
| Tmpfs.ChunksReadOnce | kernel/src/fs/tmpfs.c:394-427 | however reads are cut, together they give what one read gives |
| Tmpfs.WrittenIsReadBack | kernel/src/fs/tmpfs.c:394-471 | bytes written in chunks are read back in other chunks |
| Tmpfs.FileSystem.FindChild | kernel/src/fs/tmpfs.c:168-178 | finds a child with the name exactly if there is one |
| Tmpfs.FileSystem.Create | kernel/src/fs/tmpfs.c:508-557 | a new node at the front of the directory, counted; fails exactly for an empty, long or taken name, a parent that is no directory, or without heap |
| Tmpfs.FileSystem.ChildAt | kernel/src/fs/tmpfs.c:180-190 | the child at the index, if there is one |
| Tmpfs.FileSystem.GetDents | kernel/src/fs/tmpfs.c:559-615 | as far as there is room, the entries from the offset on: 0 is the directory as ".", 1 its parent as "..", i + 2 its i-th child under its name |
| Tmpfs.ListingMeans | kernel/src/fs/tmpfs.c:574-600 | the listing has those entries at those places |
| Tmpfs.CallsListOnce | kernel/src/fs/tmpfs.c:559-615 | calls from successive offsets list ".", ".." and each child once, in order, for any room |

## Left out

- `vas_protect` (kernel/src/mm/vmm.c:330-362): it makes leaves writable without looking at PAGE_COW and rewrites the
  flags of a whole area for a partial range, so the copy-on-write results do not hold for it.
- `vas_map_phys` (kernel/src/mm/vmm.c:251-300), `vas_adopt`, `vas_create` with a given table, device and framebuffer
  mappings, and the branch of `vas_clone` for reserved or poisoned frames.
- The kpanic of a failed split in `vad_remove_range` (kernel/src/mm/vmm.c:60-72).
- Vad.Vas.RemoveRange: the descriptors are values, so that a split always has memory for its second half.
- Vmm.Memory.MapAnon: the heap is a flag, not `Kheap`; lengths do not wrap in 64 bits.
- Vmm.Memory.Unmap: ranges whose end wraps in 64 bits are not modelled.
- Vmm.Memory.Clone: the heap is the number of allocations that still succeed.
- Kheap.KernelHeap.Kmalloc: sizes for which the order search runs on, or for which the total wraps, are in
  `Slabs.OrderSearchBySize` and `Slabs.OrderSearchWraps`, not in its contract.
- Kheap.KernelHeap.Kfree: addresses in the middle of a slab or a block are excluded; the code takes them for objects.
- Pmm.PageAllocator.FreePage: frames inside an allocated block, other than its head, are excluded; the code would
  free a block that begins there.
- Slab lists are sequences of frames instead of links in the headers; `slab_cache_create`, `slab_cache_destroy` and
  the destruction of slabs; the contents of fresh objects.
- Concurrency of the memory stack: it takes no locks, and is modelled one operation at a time.  TLB, CR3, interrupts
  and weak memory ordering.
- `thread_block` on a thread of another CPU or on a zombie; spinning on guards; the idle thread using a mutex.
- Tasks.TaskSystem.SpawnThread: its failures (heap, stack, user processes) change nothing and are not modelled.
- Cpio.Unpack: a name without NUL is taken to end with the buffer, where the code reads on behind it; the file-system
  calls and their failures are recorded, not made.
- Tmpfs: times, owners, permissions, open flags other than O_TRUNC and O_APPEND, `tmpfs_lookup`, mounting, and
  locking.
- `strlcpy`, `rq_clear`, `vfs_lookup`, the driver interface, the log, symbols, ACPI, timers and device drivers.
