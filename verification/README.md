# NeverMind kernel: a verified model

A Dafny model of the stateful cores of NeverMind, a small x86_64 kernel, with proofs about whole runs of
them. Every lock-protected section of the kernel is one step. Table sizes are parameters where the proofs do
not need the numbers. Code that changes its state in place is a class (or an array) with methods and loops;
each method is proved against a specification function or predicate, and the theorems are about those. Module
`Common` holds the few definitions that several parts share.

| Part | Modules | Main results |
|---|---|---|
| Frame allocator | `Words`, `Bitmaps`, `Pmm`, `FrameLedger` | allocation is sound and complete from any cursor; counters and padding bits stay exact; over every run live runs never overlap and no frame is lost |
| Boot memory map | `BootMap`, `Multiboot`, `BootTags`, `BootRecords` | read off the bytes of any block whose sums stay below 2^64: after boot a frame is free exactly when an available entry has all of it, no module listed behind that entry has a byte of it, and neither has anything kept; every list of tag records comes back from its block as exactly its ranges |
| Page tables | `PageTables`, `TableWrites`, `Descent`, `Spaces`, `Addresses`, `Canonical`, `Mapping`, `VmmSteps`, `Vmm`, `VmmRuns`, `VmmExamples`, `VmmCalls`, `VmmInterleavings`, `VmmAlone` | from zeroed roots, in every interleaving of map, 2 MiB map and unmap calls on any number of address spaces, the four-level walk (section 4.5 of the Intel SDM, Volume 3A) refines a plain map per root; trees, calls in flight and the free set partition the same frames; no interleaving leaks |
| Kernel heap | `HeapLayout`, `Kheap` | over every run live and free blocks tile exactly the pages taken; the free list stays finite exactly as long as only live blocks are freed |
| Descriptors and pipes | `Descriptors`, `DescriptorOps`, `DescriptorSteps`, `DescriptorForks`, `HalfForks`, `PipeStreams`, `DescriptorRuns`, `DescriptorLeaks`, `ForkRuns`, `PipeRuns`, `FdSystem` | whatever any task does next, two levels of reference counts stay exact exactly when its table is attached or the operation moves no count; pipes are lossless and in order over every interleaving; fork duplicates; which objects outlive the tasks that held them |
| Tasks and scheduling | `Tasks`, `TaskRuns`, `ProcTable`, `Sched`, `SchedPicks`, `SchedWaiting` | in any interleaving of the locked phases a task keeps its slot until its own parent waits for it, and pids are never reused or reaped twice; bounded waiting under both policies |
| ARP and TCP | `ArpHistory`, `Arp`, `Tcp`, `TcpTable` | the cache is the most recent distinct addresses; a send lands only in the end made by the same connect |
| Files | `Paths`, `Tmpfs`, `Vfs`, `FileSystem`, `FileRuns` | the file API refines a map from path to bytes with one offset per descriptor |

Things the code does not do, each with its exact condition and an input at which it fails:

- A 4 KiB map of a page under a 2 MiB entry does not take effect, and reports success unless that entry starts at
  physical address 0: `Mapping.MapTakesEffectIff`, `VmmExamples.MapAfterLargeMap`.
- A 2 MiB map over a slot that holds a page table loses that table: `Mapping.LargeMapConservesIff`,
  `VmmExamples.LargeMapAfterMap`.
- A tick can make an exited task runnable again: `SchedWaiting.ExitSurvivesTickIff`,
  `SchedWaiting.TickRevivesZombie`.
- A module tag before a memory map tag leaves the module's frames free: `BootTags.BootWrongIff`,
  `BootRecords.ModuleBeforeMapIsFreed`.
- Exit and wait close nothing, so an object a task still held is never freed: `DescriptorLeaks.ReapedTasksLeak`,
  `DescriptorLeaks.PipeExitReapLeaks`.
- A forked child is runnable before its descriptors are counted, and can then give back its parent's references:
  `DescriptorRuns.StepGoodIff`, `ForkRuns.ChildActsFirst`.
- The frame bitmap can be written over a module: `Multiboot.BitmapSparesModuleIff`,
  `BootRecords.ModuleBehindKernelIsOverwritten`.

Also exact: which requests `kmalloc` records correctly (`HeapLayout.RequestFitsIff`), which blocks `kfree` may
be given (`Kheap.FreeEndsIff`), when a pipe stays readable (`PipeStreams.ReadableIffNoWrap`), when growing
a file ends (`Tmpfs.GrowthEndsIff`), and when a task switched away from can be picked again
(`SchedWaiting.SwitchedOutEligible`).

Where documentation and code differ the model follows the code: docs/LOCKING.md:9-17 lists the locks in order
and does not mention the lock of kernel/fs/vfs.c:11-23.

`dafny verify dfyconfig.toml` checks the whole project.

## Model

| member | source | states |
|---|---|---|
| Words.SetBitTests | kernel/mm/pmm.c:220-226 | setting a bit changes that bit and no other |
| Words.ClearBitTests | kernel/mm/pmm.c:228-234 | clearing a bit changes that bit and no other |
| Words.Ctz | kernel/mm/pmm.c:269 | the count of trailing zeros is the position of the lowest set bit |
| Bitmaps.SetFrameBits | kernel/mm/pmm.c:220-226 | on the whole bitmap, setting a frame's bit removes exactly that frame from the free set and keeps the padding bits |
| Bitmaps.ClearFrameBits | kernel/mm/pmm.c:228-234 | on the whole bitmap, clearing a frame's bit adds exactly that frame to the free set and keeps the padding bits |
| Bitmaps.WordScan | kernel/mm/pmm.c:259-275 | a word is not full exactly when one of its frames is free, and the complement's trailing-zero count is the lowest such frame and below the limit |
| Bitmaps.FreeSetDetermines | kernel/mm/pmm.c:220-242 | two bitmaps with padding bits set and the same free frames are equal word for word |
| Pmm.FrameAllocator.constructor | kernel/mm/pmm.c:181-252 | the frame count is clamped to 1 and the maximum, nothing is free, and counters agree with the bitmap |
| Pmm.FrameAllocator.TestFrame | kernel/mm/pmm.c:236-242 | a frame tests used exactly when it is not in the free set; frames past the limit are used |
| Pmm.FrameAllocator.SetFrame | kernel/mm/pmm.c:220-226 | exactly that frame stops being free; frames past the limit are ignored |
| Pmm.FrameAllocator.ClearFrame | kernel/mm/pmm.c:228-234 | exactly that frame becomes free; frames past the limit are ignored |
| Pmm.FrameAllocator.ScanWord | kernel/mm/pmm.c:259-275 | the lowest free frame of a word, or that the word has none |
| Pmm.FrameAllocator.FindFree | kernel/mm/pmm.c:256-281 | from any cursor up to the number of words the scan finds a frame exactly when one is free, and it is the lowest of the first word in cyclic order |
| Pmm.FrameAllocator.AllocSinglePage | kernel/mm/pmm.c:254-282 | fails exactly when nothing is free; otherwise one frame that was free is used, and counters and frame 0 stay right |
| Pmm.FrameAllocator.FindRun | kernel/mm/pmm.c:509-539 | the wrapped scan finds the first run of free frames in cyclic order, and fails exactly when there is none below the limit |
| Pmm.FrameAllocator.TestRun | kernel/mm/pmm.c:516-525 | the inner test succeeds exactly when every frame of the run is free |
| Pmm.FrameAllocator.AllocPages | kernel/mm/pmm.c:491-540 | returns 0 exactly when the count is 0 or no run of that many free frames exists; otherwise the run was free, is now used, nothing else changed, and it is the first in cyclic order |
| Pmm.FrameAllocator.FreePage | kernel/mm/pmm.c:547-566 | address 0, misaligned, out of range and already free pages change nothing; otherwise exactly that frame becomes free |
| Pmm.FrameAllocator.MarkRangeAvailable | kernel/mm/pmm.c:284-299 | frees exactly the frames between the rounded ends, with sums that wrap at 2^64 |
| Pmm.FrameAllocator.ReserveRange | kernel/mm/pmm.c:301-317 | takes exactly the frames touched and counts as reserved those that were free |
| FrameLedger.FreeRunIsUnion | kernel/mm/pmm.c:547-566 | freeing a run page by page adds exactly the run to the free set |
| FrameLedger.FreeingRestoresBitmap | kernel/mm/pmm.c:491-566 | allocating a run and freeing it page by page gives back the same bitmap word for word |
| FrameLedger.StepKeepsSound | kernel/mm/pmm.c:491-566 | an allocation or a release of an owned run keeps live runs disjoint from each other and from the free set, with every frame accounted for |
| FrameLedger.RunsStaySound | kernel/mm/pmm.c:491-566 | the same over every run of allocations and releases |
| BootMap.ActMeaning | kernel/mm/pmm.c:284-317 | when no sum wraps, marking frees the frames wholly inside a range and reserving takes those with a byte in it |
| BootMap.FreeAfterIff | kernel/mm/pmm.c:432-489 | applying ranges in order leaves a frame free exactly when some range frees it after every range that takes it |
| Multiboot.NextTag | kernel/mm/pmm.c:379-394 | the tests at the head of both loops stop exactly at the places where the walk over the tags ends, and otherwise move strictly forward inside the block |
| Multiboot.HighestEnd | kernel/mm/pmm.c:374-426 | the first pass ends and gives the highest end over exactly the ranges the second pass applies |
| Multiboot.ApplyTags | kernel/mm/pmm.c:432-476 | the second pass ends and applies exactly the ranges of the tags, in order, reading only inside the block |
| Multiboot.ReserveKept | kernel/mm/pmm.c:478-489 | unless a sum wraps, exactly the frames with a byte below 1 MiB or in the kernel, the bitmap or the block stop being free; frame 0 is used |
| Multiboot.InitWithoutBlock | kernel/mm/pmm.c:350-372 | without a usable block the allocator covers the maximum and nothing is free |
| BootTags.InitFromMultiboot2 | kernel/mm/pmm.c:350-489 | without a usable block nothing is free; otherwise the limit is the highest end of a range in frames, at least 1 and at most 2^25, the bitmap is at the first page boundary behind block and kernel, and unless a sum wraps a frame is free exactly when an available entry has all its bytes, no module listed behind that entry has one, and none is below 1 MiB or in the kernel, the bitmap or the block; with all memory maps before all modules, no module at all |
| BootTags.StopsIff | kernel/mm/pmm.c:379-394 | both walks go on exactly while a tag that is not the end tag, of at least 8 bytes, lies inside the block when padded to 8, and go on behind its padding |
| BootTags.TagAsks | kernel/mm/pmm.c:396-473 | the ranges a tag frees are exactly the available entries of a memory map tag, and what it takes is exactly the bytes of a module tag |
| BootTags.TagsMean | kernel/mm/pmm.c:432-476 | over the tags of any block, a frame ends up free exactly when some memory map tag gives it and no module tag behind that one has a byte of it |
| BootTags.HighestMeans | kernel/mm/pmm.c:374-430 | the first pass gives the highest end of an available entry or a module, and the limit that follows |
| BootTags.BootFreeIff | kernel/mm/pmm.c:374-489 | what applying all ranges in order leaves free is what the bytes of the block say |
| Multiboot.BitmapSparesBlock | kernel/mm/pmm.c:181-252 | setting every bit of the bitmap, between the two passes, writes neither the block nor the kernel, so both passes read the same bytes |
| Multiboot.BitmapSparesModuleIff | kernel/mm/pmm.c:181-252 | it leaves a module's bytes alone exactly when the module ends before the bitmap or starts after it |
| BootRecords.ModuleBehindKernelIsOverwritten | kernel/mm/pmm.c:374-430 | a concrete block and kernel: the bitmap starts at the first byte of a module |
| BootTags.BootIsExact | kernel/mm/pmm.c:374-489 | with every memory map tag before every module tag, the frames free after boot are those that should be: some available entry has every byte and no module or kept range has one |
| BootTags.BootWrongIff | kernel/mm/pmm.c:432-476 | for any tag order, a frame ends up as it should exactly unless a module has a byte of it, a memory map tag behind that module gives it, no module behind both has it, and nothing keeps it |
| BootRecords.ModuleBeforeMapIsFreed | kernel/mm/pmm.c:432-476 | a concrete block with a module tag before the memory map: a frame of the module ends up free and should not |
| BootRecords.DecodeEncode | include/nm/multiboot2.h:6-35 | reading back a little-endian field gives the number that was written |
| BootRecords.BlockParses | kernel/mm/pmm.c:374-476 | for every list of memory map, module and other tags, with any entry size from 24 on and any bytes behind the fixed fields, the block that holds them parses to exactly their ranges, in order |
| PageTables.PutMovesOnlyBelow | kernel/mm/vmm.c:116-135 | writing one entry of a tree moves only paths that go through it |
| TableWrites.LinkFresh | kernel/mm/vmm.c:128-134 | hanging an empty table on an absent entry keeps the tree and every translation and adds exactly that table |
| TableWrites.Widen | kernel/mm/vmm.c:120-125 | adding write or user permission to a link changes no path and no translation |
| TableWrites.PutLeaf | kernel/mm/vmm.c:189 | writing a leaf changes the translation of one page |
| TableWrites.PutLarge | kernel/mm/vmm.c:228 | writing a 2 MiB entry over a slot without a table changes the 512 pages of that slot |
| TableWrites.Unlink | kernel/mm/vmm.c:274-290 | clearing the link to an empty table removes exactly that table and no translation |
| Descent.Descend | kernel/mm/vmm.c:116-135 | one step down arrives at the next table, keeps tree and translations, grants the wanted permissions and takes at most one table from the pool |
| Spaces.FailureIsInvisible | kernel/mm/vmm.c:79-92 | a call that fails leaves every table, every translation and the free set as they were |
| Spaces.OtherSpaceUntouched | kernel/mm/vmm.c:149-299 | operations on one root change no table and no translation of another address space |
| Spaces.ZeroRootIsOwned | kernel/mm/vmm.c:65-77 | a zeroed root that is not free is an owned address space with itself as its only table and no page mapped |
| Addresses.PageOfIs | kernel/mm/vmm.c:162-165 | the four indices are the digits of the page number to the base 512 |
| Addresses.MapTranslates | kernel/mm/vmm.c:149-194 | in terms of addresses a 4 KiB map moves one page, offsets kept, and no other address |
| Addresses.LargeMapTranslates | kernel/mm/vmm.c:196-233 | in terms of addresses a 2 MiB map moves one block, rounded down to its boundary, and no other address |
| Addresses.UnmapTranslates | kernel/mm/vmm.c:235-299 | in terms of addresses an unmap takes one page away |
| Canonical.TableIffUsed | kernel/mm/vmm.c:274-290 | a table exists at a path exactly when some page is mapped through it |
| Canonical.SameWalksSameSize | kernel/mm/vmm.c:274-290 | two trees with the same translations use the same number of tables |
| Mapping.DescentArrives | kernel/mm/vmm.c:116-135 | once the pool holds a table per level the descent cannot fail, changes no translation and grants the permissions on every entry of the path |
| Mapping.MapIsPointUpdate | kernel/mm/vmm.c:149-194 | a 4 KiB map off large pages gives the page its entry, keeps every other page and the tree, moves frames only between tree and free set, writes no entry off the way to the page, gives each new link on the way exactly the write and user bits of the leaf, and adds those and nothing else to a link that was there |
| Mapping.LargeMapIsBlockUpdate | kernel/mm/vmm.c:196-233 | a 2 MiB map into a slot without a table sets its 512 pages and no other, with the same entries and permissions on the way |
| Mapping.MapPermits | kernel/mm/vmm.c:31-41 | every link on the way lets through what the leaf lets through, and no more than it did and the leaf does |
| Mapping.MapWritesOnly | kernel/mm/vmm.c:149-233 | no entry of a table that was there changes but those on the way to the page |
| Mapping.LargeMapOverTableLeaks | kernel/mm/vmm.c:196-233 | over a slot with a page table, that table is afterwards neither in the tree nor free |
| Mapping.LargeMapConservesIff | kernel/mm/vmm.c:196-233 | a 2 MiB map loses no frame exactly when its slot holds no page table |
| Mapping.MapUnderLargeHasNoEffect | kernel/mm/vmm.c:116-135 | a 4 KiB map under a 2 MiB entry arrives at the frame of the large page, 0 meaning failure, and leaves the page under the 2 MiB entry, unless the large page starts at a table of the page's own walk and the write hits the entry that walk uses |
| Mapping.MapTakesEffectIff | kernel/mm/vmm.c:149-194 | with the same exception, a 4 KiB map gives the page its entry exactly when the page is not under a 2 MiB entry |
| Mapping.CollapseCorrect | kernel/mm/vmm.c:274-290 | removing emptied tables upwards changes no translation, leaves no empty table and frees exactly the tables that left the tree, each once |
| Mapping.UnmapRemovesOne | kernel/mm/vmm.c:235-299 | an unmap removes exactly one page, only clears entries on the way to it, and the frames freed are exactly the tables that became empty |
| Mapping.NothingPointsAtFreed | kernel/mm/vmm.c:272-298 | no present link of the tree points at a free frame |
| VmmSteps.StepKeepsOwned | kernel/mm/vmm.c:149-299 | a call, given by its pool and the writes of its locked section, leaves an owned address space owned and changes walks and frames as that call should |
| Vmm.TakePrealloc | kernel/mm/vmm.c:104-114 | the first table left in the pool is taken and the rest stay in order; an empty pool gives 0 |
| Vmm.TableEmpty | kernel/mm/vmm.c:55-63 | true exactly when none of the 512 entries is set |
| Vmm.AddressSpaces.constructor | kernel/mm/vmm.c:65-77 | over a valid frame allocator every zeroed root that is not free starts valid with no page mapped |
| Vmm.AddressSpaces.AllocTable | kernel/mm/vmm.c:65-77 | a frame that was free, with all entries zero and nothing else written; fails exactly when nothing is free |
| Vmm.AddressSpaces.AllocTablePool | kernel/mm/vmm.c:79-92 | succeeds exactly when that many frames are free; otherwise gives everything back |
| Vmm.AddressSpaces.FreePool | kernel/mm/vmm.c:94-102 | exactly the tables not taken become free again |
| Vmm.AddressSpaces.GetOrCreateNext | kernel/mm/vmm.c:116-135 | memory, pool and table reached are those of the specified step |
| Vmm.AddressSpaces.MapPageIn | kernel/mm/vmm.c:149-194 | succeeds exactly when three frames are free, and then every address of the page goes to the physical page with the flags asked for and every other address where it went; a failure changes nothing; either way it is a step of the runs |
| Vmm.AddressSpaces.MapLargeIn | kernel/mm/vmm.c:196-233 | succeeds exactly when two frames are free, and then every address of the 2 MiB block goes to the physical block with the flags asked for and every other address where it went; a failure changes nothing; either way it is a step of the runs |
| Vmm.AddressSpaces.FindTables | kernel/mm/vmm.c:251-271 | finds the four tables on the way exactly when a page table covers the page |
| Vmm.AddressSpaces.ClearAndCollapse | kernel/mm/vmm.c:272-290 | the in-place writes and the list of frames to free are those of the specified collapse |
| Vmm.AddressSpaces.UnmapPageIn | kernel/mm/vmm.c:235-299 | succeeds exactly when a page table covers the page; then the addresses of that page go nowhere, every other address stays, and the emptied tables are free; either way it is a step of the runs |
| VmmRuns.StepRefines | kernel/mm/vmm.c:149-299 | every call on an owned address space acts on the translation as it would on a plain map |
| VmmRuns.StepConserves | kernel/mm/vmm.c:149-299 | every call on an owned address space moves frames only between the tree and the free set, and leaves no frame in both |
| VmmRuns.RunRefines | kernel/mm/vmm.c:149-299 | throughout every run that starts owned the space stays owned, the tables refine the plain map, and the tables in the tree and the free frames partition the same frames |
| VmmRuns.NoLeak | kernel/mm/vmm.c:149-299 | a run that ends with the translations it began with has as many free frames |
| VmmRuns.UnmapFindsMapped | kernel/mm/vmm.c:149-299 | after a successful map the tables an unmap of the page needs are there |
| VmmRuns.MapThenUnmap | kernel/mm/vmm.c:149-299 | unmapping a page that was just mapped and not before succeeds and restores every translation and the number of free frames |
| VmmExamples.MapAfterLargeMap | kernel/mm/vmm.c:116-233 | from an empty address space, for every page: after a 2 MiB map of its slot a 4 KiB map of it reports success and the page is still under the 2 MiB entry |
| VmmExamples.LargeMapAfterMap | kernel/mm/vmm.c:149-233 | from an empty address space, for every page: after a 4 KiB map of it a 2 MiB map of its slot leaves the page table neither in the tree nor free |
| VmmCalls.SectionSteps | kernel/mm/vmm.c:149-299 | a locked section with whatever its call has drawn is a step of that call on that address space |
| VmmCalls.DrawKeeps | kernel/mm/vmm.c:65-92 | drawing and zeroing one table, with other calls in flight, changes no tree and no translation and moves one frame from the free set to the call |
| VmmCalls.GiveKeeps | kernel/mm/vmm.c:94-102 | giving one frame back, with other calls in flight, changes no tree and moves one frame from the call to the free set |
| VmmCalls.LockKeeps | kernel/mm/vmm.c:149-299 | a locked section moves frames only between its tree and its call, and changes no other tree, no other call's frames and no other translation |
| VmmInterleavings.PhaseKeeps | kernel/mm/vmm.c:79-299 | every phase of every call keeps each frame in one place, loses none, and acts on the plain maps as its locked section would on one of them alone |
| VmmInterleavings.RunsStaySound | kernel/mm/vmm.c:79-299 | throughout every interleaving of calls on any number of roots: every root spans its own tree, no frame is in two trees, with two calls, or free as well, no frame is lost, and every address space is what the locked sections on it make of a plain map, in order |
| VmmInterleavings.CallActsOnce | kernel/mm/vmm.c:149-299 | a call does its locked section at most once, and not after it gave up |
| VmmInterleavings.NoInterleavingLeaks | kernel/mm/vmm.c:79-299 | when no call holds a frame and every address space has the translations it began with, as many frames are free |
| VmmInterleavings.ZeroRootsSound | kernel/mm/vmm.c:65-77 | zeroed roots that are not free are a start for such runs |
| VmmAlone.AloneIsSequential | kernel/mm/vmm.c:149-299 | every successful call of the sequential runs is a run of the phases of one call, uninterrupted |
| HeapLayout.AddPages | kernel/mm/kheap.c:45-59 | fresh pages as one block keep the tiling |
| HeapLayout.SplitBlock | kernel/mm/kheap.c:61-72 | splitting a block into two that fill it keeps the tiling |
| HeapLayout.LiveBlocksDisjoint | kernel/mm/kheap.c:27-90 | a byte of a live block, header included, belongs to no other block |
| HeapLayout.RunsTile | kernel/mm/kheap.c:27-90 | over every run live and free blocks are disjoint and cover exactly the pages taken, and the free list holds each free block once |
| HeapLayout.RequestFitsIff | kernel/mm/kheap.c:45-72 | with 64-bit sums and the 32-bit size field, a grown block is at least as large as asked for exactly when the request fits |
| HeapLayout.CastsAreExact | kernel/mm/kheap.c:45-72 | for requests that fit, the page count does not wrap, the whole block is large enough and below 2^32, and the size recorded is what was meant |
| Kheap.UnlinkAt | kernel/mm/kheap.c:36-43 | taking a block out through the link that points to it leaves a chain of the others in order |
| Kheap.KernelHeap.FirstFit | kernel/mm/kheap.c:33-43 | the search gives the first block of the list that is large enough and the one before it, or that none is |
| Kheap.KernelHeap.InstallPages | kernel/mm/kheap.c:53-72 | for any request below 2^64: the headers written with the source's casts, and the block handed out records the size of HeapLayout.RequestFitsIff; for requests that fit they are those of the specified split |
| Kheap.KernelHeap.Alloc | kernel/mm/kheap.c:27-75 | fails exactly for 0 bytes or when no free block fits and no run of pages is free; otherwise a block that was not live, large enough, linked to nothing, from the list or from fresh pages |
| Kheap.KernelHeap.Free | kernel/mm/kheap.c:77-90 | given any block of the heap: a live block becomes the first free one and the heap stays valid, null changes nothing, and the links from the list head end exactly in those two cases |
| Kheap.FreeEndsIff | kernel/mm/kheap.c:77-90 | after kfree wrote the block's link, following the links from it ends exactly when the block was live; for a block already on the list they run in a cycle |
| Descriptors.PipeUsedIffNamed | kernel/proc/fd.c:92-132 | a pipe is in use exactly when some object in use names it |
| Descriptors.RefsUpdate | kernel/proc/fd.c:92-169 | changing one object changes the summed references of a pipe end by that object's weight |
| DescriptorOps.RetainKeepsPipes | kernel/proc/fd.c:134-144 | retaining an object keeps readers and writers equal to the references of the ends |
| DescriptorOps.ReleaseKeepsPipes | kernel/proc/fd.c:146-169 | so does releasing, also when the last reference frees object and pipe |
| DescriptorOps.CloseKeeps | kernel/proc/fd.c:424-448 | close succeeds exactly on an open slot, with an error each for a bad number and an empty slot, empties that slot and its mark only, and keeps both levels of counts exact |
| DescriptorOps.Dup2Keeps | kernel/proc/fd.c:520-554 | dup2 succeeds exactly for an open source and a valid target, with an error each for a bad number and an empty source, never frees the object it is about to retain, and keeps the counts exact |
| DescriptorOps.AdoptedIs | kernel/proc/fd.c:307-326 | a stale number is taken for a file's: the first free object stands for that file, and only that object and the slot change |
| DescriptorSteps.PipeSucceedsIff | kernel/proc/fd.c:450-518 | pipe succeeds exactly when a pipe, two slots and two objects are free, and otherwise runs out of memory |
| DescriptorSteps.FailedPipeChangesNothing | kernel/proc/fd.c:450-518 | at each failure point the rollback restores slots, objects and pipes |
| DescriptorSteps.PipeKeeps | kernel/proc/fd.c:450-518 | a new pipe opens two empty slots on its two ends and keeps the counts exact |
| DescriptorForks.CopyKeeps | kernel/proc/task.c:260-304 | copying a descriptor table before anything is retained keeps the counts of the counted slots exact |
| DescriptorForks.ForkKeeps | kernel/proc/fd.c:556-572 | after the child is attached it holds what its copied slots name, each still the same file or end, slots that name nothing in use are empty, no mark and no other table changes and the counts are exact, whatever happened since the copy |
| DescriptorForks.SetCloexecKeeps | kernel/proc/fd.c:574-590 | an open slot is marked or not as asked, no other mark and no count changes; any other slot is an error |
| DescriptorForks.ExecKeeps | kernel/proc/fd.c:606-634 | after exec the open slots are exactly those open and unmarked, no mark is left, and the counts are exact |
| DescriptorForks.MarkThenExec | kernel/proc/fd.c:574-634 | after marking an open slot, or taking its mark away, an exec closes it exactly when it was marked |
| HalfForks.ExactFixesCounts | kernel/proc/task.c:290-304 | what a half-forked child does keeps the counts exact only if no object comes into use, goes out of use or changes its count |
| HalfForks.CloseKeepsIff | kernel/proc/fd.c:424-448 | a close by a half-forked child keeps the counts exact exactly when its slot holds no object in use |
| HalfForks.AdoptKeepsIff | kernel/proc/fd.c:307-326 | adopting a number for a file, which a read or write does, keeps them exactly when the number is not that of a freed object |
| HalfForks.PipeKeepsIff | kernel/proc/fd.c:450-518 | a pipe keeps them exactly when no pipe, or not two slots, or not two objects are free |
| HalfForks.DupKeepsIff | kernel/proc/fd.c:520-554 | a dup2 keeps them exactly when an argument is out of range, both are the same, the source slot is empty, or the slot to be overwritten decides it: empty and the source names nothing in use, or not in use itself, or on the source's object with more than one reference |
| HalfForks.DupFreesItsSource | kernel/proc/fd.c:520-554 | if both slots name an object with one reference, dup2 fails and has freed it |
| HalfForks.DupRefusesStale | kernel/proc/fd.c:520-554 | if the slot to be overwritten names nothing in use, dup2 fails without a trace |
| HalfForks.ExecKeepsIff | kernel/proc/fd.c:606-634 | an exec keeps them exactly when no marked slot holds an object in use |
| PipeStreams.WriteAppends | kernel/proc/fd.c:251-265 | a write appends exactly the bytes it accepts, as many as fit |
| PipeStreams.ReadTakesFront | kernel/proc/fd.c:235-249 | what a read returns followed by what is left is what was buffered, and it returns as much as asked for and there |
| PipeStreams.ReadableIffNoWrap | kernel/proc/fd.c:235-265 | a write leaves the stream readable exactly when the write position does not pass 2^64 |
| PipeStreams.WriteToPipe | kernel/proc/fd.c:251-265 | the copy loop computes the specified pipe and count, also when the write position passes 2^64 |
| PipeStreams.ReadFromPipe | kernel/proc/fd.c:235-249 | the copy loop computes the specified pipe and bytes |
| DescriptorRuns.StepStreams | kernel/proc/fd.c:350-634 | no operation of any task loses, adds or reorders a byte of a pipe, also one that spoils a count |
| DescriptorRuns.StepGoodIff | kernel/proc/fd.c:350-634 | whatever any task does next, exit and wait included, both levels of counts stay exact and every pipe lossless exactly when the task's table is attached or the operation is one that moves no count |
| DescriptorRuns.MarkDecidesExec | kernel/proc/fd.c:574-634 | in a run, what a task says about an open slot is what its exec then does with it |
| DescriptorRuns.RunsStayGood | kernel/proc/fd.c:350-634 | over every interleaving of such operations of attached and half-forked tasks: counts are exact, and bytes read followed by bytes buffered are the bytes accepted, in order, through any duplicated or forked descriptor |
| DescriptorRuns.InitIsGood | kernel/proc/fd.c:328-348 | initialisation establishes both |
| DescriptorLeaks.ReapedTableStays | kernel/proc/task.c:374-382 | over every run nothing that a task's table held when it was waited for is given back later |
| DescriptorLeaks.ReapedTasksLeak | kernel/proc/task.c:329-382 | over every run a count is at least the slots of tasks not waited for, and equal exactly when no wait found its task still holding the object |
| DescriptorLeaks.LeakedForever | kernel/proc/task.c:329-382 | an object held when its task is waited for stays in use over every run |
| DescriptorLeaks.PipeExitReapLeaks | kernel/proc/task.c:329-382 | a run from initialisation in which a task makes a pipe, exits and is waited for: an object and its pipe stay in use and nobody left holds them |
| ForkRuns.EndsStay | kernel/proc/fd.c:350-634 | no operation turns an object in use into another one in use |
| ForkRuns.ForkDuplicates | kernel/proc/fd.c:556-572 | over every run, if neither parent nor child acts between the two phases of a fork, the child ends up with the slots and marks the parent has and had, and every slot holds the file or pipe end it held at the copy |
| PipeRuns.WriteGoesIn | kernel/proc/fd.c:387-422 | a write through a slot that holds the write end of a pipe appends to that pipe and no other |
| PipeRuns.ReadComesOut | kernel/proc/fd.c:350-385 | a read through a slot that holds the read end takes from the front of that pipe and no other |
| PipeRuns.WrongEndDoesNothing | kernel/proc/fd.c:350-422 | a read through a write end, or a write through a read end, moves no byte of any pipe |
| PipeRuns.OpensBothEnds | kernel/proc/fd.c:450-518 | a new pipe's first descriptor holds its read end and its second its write end, and the pipe is empty |
| PipeRuns.PipeDelivers | kernel/proc/fd.c:350-634 | over every run, from the call that made a pipe for as long as it is in use: what all reads of its read end returned, followed by what is buffered, is what all writes to its write end accepted, in order, whoever made them and through whichever descriptors |
| PipeRuns.EndStaysPut | kernel/proc/fd.c:350-634 | over every run a slot that is not written keeps the end it holds |
| PipeRuns.DupSharesEnd | kernel/proc/fd.c:520-554 | after dup2 the new slot holds the end the old one holds |
| PipeRuns.ForkSharesEnd | kernel/proc/fd.c:556-572 | over every run, under the conditions of ForkRuns.ForkDuplicates, the child's slot holds the end the parent's held |
| ForkRuns.ChildActsFirst | kernel/syscall/syscall.c:214-224 | a run from initialisation in which a task makes a pipe and forks, after which a close by the child leaves the parent's slot naming an object that is not in use, and a dup2 by it spoils the counts |
| FdSystem.AllocTaskFd | kernel/proc/fd.c:53-64 | the lowest empty slot, or an error when there is none |
| FdSystem.Tables.CreateEnd | kernel/proc/fd.c:66-219 | the first free object becomes an end with one reference, or nothing changes |
| FdSystem.Tables.Retain | kernel/proc/fd.c:134-144 | one more reference and end for an object in use; an error otherwise |
| FdSystem.Tables.Release | kernel/proc/fd.c:146-169 | one reference and end fewer for an object in use; an error otherwise |
| FdSystem.Tables.CloseFd | kernel/proc/fd.c:424-448 | the in-place close, adopting a stale number first, is the specified one |
| FdSystem.Tables.TaskCloseFd | kernel/proc/fd.c:188-205 | the in-place close of a slot is the specified one |
| FdSystem.Tables.Adopt | kernel/proc/fd.c:307-326 | the slot of a stale number gets a new file object; other slots are left alone |
| FdSystem.Tables.DupTo | kernel/proc/fd.c:520-554 | the in-place dup2 is the specified one |
| FdSystem.Tables.OpenPipePair | kernel/proc/fd.c:450-518 | the in-place pipe with all its rollbacks is the specified one |
| FdSystem.Tables.OnForkChild | kernel/proc/fd.c:556-572 | the loop over the child's slots is the specified one |
| FdSystem.Tables.CloseOnExec | kernel/proc/fd.c:606-634 | the loop over the marked slots is the specified one |
| FdSystem.Tables.WriteBytes | kernel/proc/fd.c:387-422 | through a slot that holds a write end, the bytes are appended to its pipe, as many as fit; a slot that holds a read end, or nothing, gives an error and no pipe changes |
| FdSystem.Tables.ReadInto | kernel/proc/fd.c:350-385 | through a slot that holds a read end, the bytes at the front of its pipe, as many as asked for and there; a slot that holds a write end, or nothing, gives an error and no pipe changes |
| Tasks.FillKeeps | kernel/proc/task.c:142-199 | filling an unused slot gives a pid never used and keeps pids, parents, counter and reaped pids right |
| Tasks.CreateMakes | kernel/proc/task.c:135-199 | a new thread is made in the lowest unused slot, runnable, with the next pid, the current task as parent; with every slot taken nothing changes |
| Tasks.BeginNotes | kernel/proc/task.c:260-274 | the first phase of fork notes the lowest unused slot and changes no task |
| Tasks.CommitMakes | kernel/proc/task.c:281-304 | the second phase makes the child in the slot noted exactly when it is still unused and there is a current task; otherwise no task changes |
| Tasks.ExitIs | kernel/proc/task.c:329-339 | exactly the current task becomes a zombie, and its exit code is the one given |
| Tasks.CommitKeeps | kernel/proc/task.c:281-304 | the second phase of fork keeps the invariant whatever happened since the first |
| Tasks.SecondCommitFails | kernel/proc/task.c:260-304 | over every run, of two forks that chose the same slot the later changes no slot and issues no pid, unless its parent has waited for the task the earlier one made |
| Tasks.WaitKeeps | kernel/proc/task.c:341-385 | a wait fails exactly when no exited child of the caller matches, and then changes nothing; otherwise it frees the slot of such a child, and returns its pid, never returned before, with the code it exited with |
| Tasks.StepKeeps | kernel/proc/task.c:135-385 | every locked phase keeps the invariant |
| Tasks.StepKeepsSlot | kernel/proc/task.c:135-385 | a locked phase leaves a task in its slot with its pid and parent, unless the parent waits for it |
| Tasks.RunsKeep | kernel/proc/task.c:135-385 | in every interleaving of the phases live pids are distinct and above their parents', the counter is exact, no pid changes its parent, and no pid is returned by a wait twice or to anyone but its parent |
| Tasks.KeepsSlotUntilReaped | kernel/proc/task.c:135-385 | in every interleaving a task sits in its slot until its parent has waited for it, and afterwards no slot holds its pid |
| TaskRuns.RecordedIsLast | kernel/proc/task.c:329-339 | over every run the code recorded for a pid is the one its last exit gave |
| TaskRuns.WaitGivesLastExit | kernel/proc/task.c:329-385 | over every run the status a wait returns is the code the child gave when it last exited |
| Tasks.InitKeeps | kernel/proc/task.c:87-133 | the initial table satisfies the invariant |
| ProcTable.Table.constructor | kernel/proc/task.c:87-133 | one running task with pid 1 |
| ProcTable.Table.AllocSlot | kernel/proc/task.c:53-61 | the first unused slot, or the table size |
| ProcTable.Table.CreateKernelThread | kernel/proc/task.c:135-199 | a task is made in the lowest unused slot, with the next pid and the current task as parent, or no slot is unused and nothing changes; the invariant is kept |
| ProcTable.Table.ForkChoose | kernel/proc/task.c:260-274 | succeeds exactly with a current task and an unused slot, gives the lowest one and leaves it unused |
| ProcTable.Table.ForkFill | kernel/proc/task.c:281-304 | succeeds exactly when there is a current task and the slot is still unused, and then that slot holds a runnable task with the next pid and the current task as parent; otherwise no task changes |
| ProcTable.Table.ExitWith | kernel/proc/task.c:329-339 | exactly the current task becomes a zombie with the code given, and the invariant is kept |
| ProcTable.Table.WaitFor | kernel/proc/task.c:341-385 | table, pid and status are the specified ones |
| SchedPicks.WeightFalls | kernel/proc/sched.c:13-19 | the weight falls strictly from 40 at priority 0 to 1 at priority 39 and stays there |
| SchedPicks.FairCharge | kernel/proc/sched.c:112-122 | below 2^64 the fair policy adds 1024 per tick, divided by 40 less the priority, and nothing else changes |
| SchedPicks.FavouredGainsLess | kernel/proc/sched.c:112-122 | of two tasks with the same virtual runtime, the one with the smaller priority number is charged no more, so the fair policy prefers it |
| SchedPicks.SliceIsUsedUp | kernel/proc/sched.c:124-128 | tick by tick a task becomes runnable again exactly when its slice is used up |
| SchedPicks.SliceAtOnce | kernel/proc/sched.c:124-128 | so it does when several ticks are charged at once |
| SchedPicks.FairPick | kernel/proc/sched.c:53-102 | the fair policy picks a runnable task with least virtual runtime, a running one if none is runnable, or stays |
| SchedPicks.RoundRobinPick | kernel/proc/sched.c:37-51 | round robin picks the ready slot nearest to the cursor and moves the cursor behind it, or stays |
| SchedPicks.TickIs | kernel/proc/sched.c:131-147 | a tick charges the current task and switches to the pick: the old task is runnable, the new one running and current, nothing else changes |
| SchedPicks.YieldIs | kernel/proc/sched.c:149-170 | a yield switches to the pick without a charge, and the task left has its stack saved |
| Sched.Least | kernel/proc/sched.c:53-96 | the candidate with the least virtual runtime, the lowest slot on a tie, or none exactly when there is no candidate |
| Sched.FirstProbe | kernel/proc/sched.c:37-49 | the first eligible slot in cyclic order from the cursor |
| Sched.ScanCfs | kernel/proc/sched.c:58-74 | the scan loop finds that candidate |
| Sched.ScanRr | kernel/proc/sched.c:37-51 | the probe loop returns that slot and the cursor after it |
| Sched.Scheduler.PickTask | kernel/proc/sched.c:104-110 | slot and cursor are those of the policy |
| Sched.Scheduler.RunTick | kernel/proc/sched.c:131-147 | the in-place tick is the one SchedPicks.TickIs describes |
| Sched.Scheduler.RunYield | kernel/proc/sched.c:149-163 | the in-place yield is the one SchedPicks.YieldIs describes |
| SchedWaiting.ChargeAtLeast25 | kernel/proc/sched.c:112-121 | a charged tick adds at least 25 to the virtual runtime |
| SchedWaiting.TickProgress | kernel/proc/sched.c:131-147 | a tick picks the waiting task or uses up a turn of a task ahead of it |
| SchedWaiting.CfsBoundedWaiting | kernel/proc/sched.c:53-147 | a runnable task with a stack is picked within one tick plus, for each other task at or below its virtual runtime, a tick per 25 of the difference and one more |
| SchedWaiting.RrProgress | kernel/proc/sched.c:37-51 | the pick is the slot or one strictly nearer the cursor, and the cursor never passes the slot |
| SchedWaiting.RrBoundedWaiting | kernel/proc/sched.c:37-51 | a slot that stays eligible is picked within its distance from the cursor plus one picks, whatever happens to the others |
| SchedWaiting.RrPicksDistinct | kernel/proc/sched.c:37-51 | until then no other slot is picked twice |
| SchedWaiting.ExitSurvivesTickIff | kernel/proc/sched.c:131-147 | an exited current task is still a zombie after a tick exactly when nobody else can be picked and, under round robin, its slice is not used up |
| SchedWaiting.TickRevivesZombie | kernel/proc/sched.c:131-147 | a table of two tasks in which, under either policy, a tick makes the exited one runnable |
| SchedWaiting.SwitchedOutEligible | kernel/proc/sched.c:131-170 | a task that a tick switches away from can be picked again exactly when its stack was saved before; one that yields always can |
| SchedWaiting.TickKeepsOneRunning | kernel/proc/sched.c:131-163 | only the current task is ever in the running state |
| ArpHistory.RecentsMeaning | kernel/net/arp.c:29-59 | the list of recent addresses holds exactly those added, each with its latest hardware address, and ahead of each exactly those added since |
| ArpHistory.RememberedIffInFront | kernel/net/arp.c:29-72 | an address is among the n most recent distinct ones exactly when it is in the first n of that list |
| Arp.RefreshRanked | kernel/net/arp.c:37-41 | adding a known address moves it to the front |
| Arp.InsertFull | kernel/net/arp.c:45-58 | adding a new address to a full cache drops the oldest |
| Arp.AddStep | kernel/net/arp.c:29-59 | an add keeps the cache the front of the list of recent addresses |
| Arp.LookupMeaning | kernel/net/arp.c:61-72 | a slot holds the address exactly when it is remembered, and then with the hardware address last added |
| Arp.ArpCache.AddAddress | kernel/net/arp.c:29-59 | the in-place add extends the history by one and keeps the invariant |
| Arp.ArpCache.Scan | kernel/net/arp.c:36-53 | one loop finds the slot of the address, or the first unused slot, or when all are used one of least age |
| Arp.ArpCache.Lookup | kernel/net/arp.c:61-72 | hits exactly when the address is among the most recently added distinct ones, as many as the cache has slots, and returns the hardware address last added |
| Tcp.ListenKeeps | kernel/net/tcp.c:85-99 | fails exactly when no slot is free; otherwise a free slot gets the next id, listens on the port at any address with no partner and nothing unread, and no other slot changes |
| Tcp.ConnectKeeps | kernel/net/tcp.c:101-148 | succeeds exactly with a listener and two free slots, and then makes two fresh partners; a failure leaves no live slot behind |
| Tcp.ConnectIs | kernel/net/tcp.c:101-148 | field by field: an established client end and a pending server end in the first two free slots, each with the other's port; with one slot left it is given back; otherwise nothing changes |
| Tcp.AcceptKeeps | kernel/net/tcp.c:150-163 | fails exactly when no end is pending on the port; otherwise only that end changes, and its id was never accepted before |
| Tcp.SendKeeps | kernel/net/tcp.c:165-187 | succeeds exactly between two established ends; the bytes land in the buffer of the end made by the same connect and in no other, whatever slots were reused |
| Tcp.RecvKeeps | kernel/net/tcp.c:189-209 | fails exactly on what is not established; otherwise a prefix of the latest unread send, and the rest is gone |
| Tcp.CloseKeeps | kernel/net/tcp.c:211-222 | succeeds exactly on a live id, which is then gone, and no other end changes |
| Tcp.PeersPointBack | kernel/net/tcp.c:141-142 | the live partner of a live end has that end as its partner |
| Tcp.RunsKeep | kernel/net/tcp.c:85-222 | over every run live ids are distinct, partners match, no id is accepted twice, and every buffer holds the latest unread send of its partner |
| Tcp.RunsPair | kernel/net/tcp.c:85-222 | over every run the two ends of a connection, while both live, have each other's ports, and the client knows the server by the address it connected to |
| Tcp.EmptyKeeps | kernel/net/tcp.c:34-35 | the empty table satisfies the invariant |
| TcpTable.SearchId | kernel/net/tcp.c:50-58 | the first live slot with the id, or none |
| TcpTable.SearchListener | kernel/net/tcp.c:60-68 | the first live listening slot on the port, or none |
| TcpTable.Connections.AllocConn | kernel/net/tcp.c:70-83 | the first unused slot gets the next id |
| TcpTable.Connections.ListenOn | kernel/net/tcp.c:85-99 | the in-place listen is the specified one |
| TcpTable.Connections.Connect | kernel/net/tcp.c:101-148 | the in-place connect with its rollback is the one Tcp.ConnectIs describes |
| TcpTable.Connections.AcceptOn | kernel/net/tcp.c:150-163 | the in-place accept is the specified one |
| TcpTable.Connections.Send | kernel/net/tcp.c:165-187 | the in-place send is the specified one |
| TcpTable.Connections.Recv | kernel/net/tcp.c:189-209 | the in-place receive is the specified one |
| TcpTable.Connections.CloseConn | kernel/net/tcp.c:211-222 | the in-place close is the specified one |
| Paths.ComponentsAreNames | kernel/fs/vfs.c:38-69 | every component is non-empty, shorter than the name limit and free of slashes |
| Paths.ComponentsAreRuns | kernel/fs/vfs.c:38-69 | the components are the maximal runs of characters other than slashes, all of them and in order, each cut to 63 characters |
| Paths.SplitUndoesJoin | kernel/fs/vfs.c:38-69 | splitting from any place on at which a join of names follows gives the names back |
| Paths.SplitPath | kernel/fs/vfs.c:38-69 | the loops give the components of Paths.ComponentsAreRuns, and fail exactly when there are too many |
| Tmpfs.LookupFinds | kernel/fs/tmpfs.c:183-196 | a lookup gives the one child of that name, or there is none |
| Tmpfs.ResolveIff | kernel/fs/vfs.c:71-107 | components resolve to a node exactly when they are the names on its way from the root |
| Tmpfs.GrowCapacity | kernel/fs/tmpfs.c:95-103 | the doubling loop ends with a capacity that is enough and less than twice what is needed |
| Tmpfs.GrowthEndsIff | kernel/fs/tmpfs.c:100-103 | in 64 bits the doubling reaches the size exactly for sizes up to 2^63 |
| Tmpfs.Reserve | kernel/fs/tmpfs.c:95-119 | growing keeps the file's bytes; a failed allocation changes nothing |
| Tmpfs.WriteNode | kernel/fs/tmpfs.c:121-138 | the bytes are at the offset, the old bytes elsewhere, the size is the larger end; it fails only when the buffer must grow and cannot |
| Tmpfs.ReadBack | kernel/fs/tmpfs.c:77-138 | reading at the offset gives back what was written, and reads that end before it are unchanged |
| Vfs.AddKeepsTree | kernel/fs/tmpfs.c:198-223 | a new name keeps a tree with distinct sibling names |
| Vfs.AddIsPointUpdate | kernel/fs/tmpfs.c:198-223 | a new file appears at its path, empty, and no other path changes |
| Vfs.WriteIsPointUpdate | kernel/fs/tmpfs.c:121-138 | a write changes the bytes at one path |
| Vfs.CreatableIff | kernel/fs/vfs.c:163-171 | a file can be created exactly when it is absent, directly in the root directory, and a node is left |
| FileSystem.LookupChild | kernel/fs/tmpfs.c:183-196 | the sibling loop gives the specified child |
| FileSystem.ResolveParts | kernel/fs/vfs.c:94-101 | the component loop gives the specified node |
| FileSystem.ReadNode | kernel/fs/tmpfs.c:77-93 | the copy loop gives the bytes from the offset on, as many as asked for and there |
| FileSystem.Files.constructor | kernel/fs/tmpfs.c:163-181 | a mounted root with no file and no open descriptor satisfies the invariant |
| FileSystem.Files.Open | kernel/fs/vfs.c:156-197 | on the map from path to bytes: creates an absent file of the root directory if asked for and there is room, then takes the lowest free descriptor at offset 0; fails exactly when the path names nothing or no descriptor is free |
| FileSystem.Files.CreateFile | kernel/fs/vfs.c:164-171 | an absent path whose parent is a directory becomes an empty file when a node is left; otherwise nothing changes |
| FileSystem.Files.TakeFd | kernel/fs/vfs.c:109-121 | the lowest free descriptor is bound to the path at offset 0, or nothing changes |
| FileSystem.Files.Read | kernel/fs/vfs.c:199-218 | the bytes of the descriptor's path from its offset on, and only that offset moves |
| FileSystem.Files.Write | kernel/fs/vfs.c:220-239 | the bytes are spliced in at the descriptor's path and offset, and only that file and offset change; it cannot fail on an open file if memory does not run out |
| FileSystem.Files.Seek | kernel/fs/vfs.c:241-268 | only the offset moves, to the place returned; a negative place or an unknown origin fails without a trace |
| FileSystem.Files.Close | kernel/fs/vfs.c:270-283 | the descriptor is free again, files and other descriptors stay |
| FileRuns.FileChangesOnlyByWrite | kernel/fs/vfs.c:156-283 | a file changes only by a write through a descriptor open on its own path, and never goes away |
| FileRuns.OtherHandlesStay | kernel/fs/vfs.c:156-283 | a call moves at most the descriptor it names |
| FileRuns.UntouchedFile | kernel/fs/vfs.c:156-283 | over any run without a write to it a file keeps its bytes |
| FileRuns.UntouchedHandle | kernel/fs/vfs.c:156-283 | over any run that does not name it a descriptor keeps its path and offset |
| FileRuns.WrittenIsRead | kernel/fs/vfs.c:199-239 | what one descriptor writes, another open on the same path at the same offset reads, after any calls that leave that descriptor and file alone |
| FileRuns.WriteSeekRead | kernel/fs/vfs.c:199-268 | what a descriptor writes it reads back after a seek, from the start, the offset or the end, to where it wrote |
| FileRuns.SavedIsRead | kernel/fs/vfs.c:156-239 | over any run, what is written at the start of a file is read back through a descriptor opened on its path later, if nobody wrote to it in between |
| FileRuns.OpenCloseRestores | kernel/fs/vfs.c:156-283 | opening what is there and closing it again changes nothing |
| FileRuns.MadeFileStays | kernel/fs/vfs.c:156-283 | a file made by an open is empty and stays after the close |
| FileRuns.ClosedIsDead | kernel/fs/vfs.c:199-283 | every call on a closed descriptor fails without a trace |
| FileRuns.FilesAreMade | kernel/fs/vfs.c:156-197 | over any run every new file was opened with the create flag, lies directly in the root directory and used up a node |

## Left out

- Boot, descriptor tables, assembly, context switches, TLB invalidation and control registers: hardware effects.
- Drivers and port I/O, and the interrupt and log rings.
- The host-test branch of kernel/mm/pmm.c and `pmm_init_from_ranges`: a stand-in with other rules, and the boot result without modules.
- Spinlocks and lock order: each locked section is one step; in the sequential runs of VmmRuns a whole call is one.
- kernel/net/udp.c, kernel/net/socket.c, ICMP, IPv4, Ethernet and `tcp_input`; kernel/fs/ext2.c; shell, tools, exec registry and system calls: they would only add easier members.
- Counters of pids, connection ids and references are unbounded; the bitmap, page frames, heap sizes, pipe positions, virtual runtimes, round-robin budgets and file sizes carry their 32- or 64-bit limits.
- Legacy file descriptors adopted in kernel/proc/fd.c:307-326 share the numbers of objects; the invariant says a counted slot is empty or names an object in use, so only the uncounted slots of a half-forked child are adopted here. Closing the file behind such a number is not modelled.
- Reads and writes on file objects in kernel/proc/fd.c:267-305 go to the file system and are not part of the descriptor runs.
- Access flags and truncation are ignored by the source and by the model; `fs_stat` and inode numbers are not modelled.
- Null buffers and null output pointers are not modelled.
- Vmm.AddressSpaces.MapPageIn: for roots whose tables form a tree, which the boot root of boot/entry.S:113-123 does not; pages under a 2 MiB entry are in Mapping.MapTakesEffectIff.
- Vmm.AddressSpaces.UnmapPageIn: for roots whose tables form a tree, as above.
- Mapping.MapTakesEffectIff: not for a page whose 2 MiB entry starts at a table of the page's own walk and whose last index is the one that walk uses there, where the map overwrites its own path.
- Mapping.MapUnderLargeHasNoEffect: not for such a page, as above.
- VmmInterleavings.RunsStaySound: a map waits for its caller's conditions at its locked section: the page is then not under a 2 MiB entry, and the slot of a 2 MiB map holds no page table.
- Vmm.AddressSpaces.MapLargeIn: for slots without a page table; the other slots are in Mapping.LargeMapConservesIff.
- Vmm.TakePrealloc: the pool array is a sequence value that each call returns, so writing it in place is not modelled.
- Tasks.CommitKeeps: a fork whose stack allocation fails is a chosen slot that is never filled.
- Kheap.KernelHeap.Free: null and blocks of the heap, live or free; memory that never was a block has no header in the model. After a second free of a block the heap is not valid, and no other call is modelled on it.
- Kheap.KernelHeap.Alloc: for sizes that fit the 32-bit size field; the others are in HeapLayout.RequestFitsIff.
- SchedWaiting.CfsBoundedWaiting: for a fixed set of tasks and ticks whose charges stay below 2^64.
- Arp.ArpCache.AddAddress: for fewer than 2^64 - 1 adds, after which ages repeat.
- Arp.ArpCache.Scan: for the same number of adds.
- DescriptorRuns.StepGoodIff: for pipes that carry fewer than 2^64 bytes (the exact limit is in PipeStreams.ReadableIffNoWrap) and reads and writes on pipes. A half-forked child is not waited for, since its parent is still in the fork; an exited task may still act, since a tick can make it runnable again.
- DescriptorRuns.RunsStayGood: for runs of operations that DescriptorRuns.StepGoodIff shows to keep the counts.
- DescriptorLeaks.ReapedTableStays: the table of a task that has been waited for is kept as the record of what it held; the source clears its marks (kernel/proc/task.c:378) and a later task overwrites it in the reused slot, which gives nothing back.
- FdSystem.Tables.WriteBytes: for slots on pipes or slots that name nothing; file objects, and numbers taken for a file's, go to the file system.
- FdSystem.Tables.ReadInto: for such slots, as above.
- FileSystem.Files.Open: the separate critical sections of one open are one step.
- Tmpfs.GrowCapacity: for sizes up to 2^63, beyond which growing does not end (Tmpfs.GrowthEndsIff).
- Tmpfs.Reserve: for sizes up to 2^63, as above.
- Tmpfs.WriteNode: for ends up to 2^63, as above.
- FileSystem.Files.Write: for ends up to 2^63, as above.
- FileSystem.Files.Seek: for sums inside the signed 64-bit range.
- BootTags.BootFreeIff: for ranges whose rounded ends do not pass 2^64.
- Multiboot.ReserveKept: in bytes for such ranges, as above.
- BootTags.InitFromMultiboot2: in bytes for such ranges, as above.
