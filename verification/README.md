# Theory OS kernel: verified models

Dafny models of the kernel's memory management, its scheduler, and several smaller components, each with the
theorem it is built for. `dafny verify dfyconfig.toml` checks the whole project.

- **Page tables** (`Radix`, `PageTable`, `PteBits`): a four-level radix tree in allocated frames behaves as a flat map
  from page number to entry, over every run and with allocation failing in mid-walk, and the processor's walk of it
  permits what the flat entry permits.
- **Address spaces** (`Vma`, `VmSpec`, `AddressSpace`, `VmRuns`, `VmProtect`, `VmFaults`): what mmap, munmap, mprotect
  and page faults answer and change, down to the frames they use; that over every run the area array, the page table
  and the frame bitmap agree and frames are conserved; which accesses the processor lets a user make after mmap and
  mprotect, and which it lets through after a fault was handled.
- **Physical frames** (`FrameBitmap`, `FrameAllocator`, `BuddySpec`, `Buddy`, `BuddyRuns`): least-free search and
  counting, no double hand-out, and a buddy allocator whose free and held blocks always partition the frames added,
  with what splitting and merging do to every list and bit.
- **Kernel heap** (`SlabSpec`, `Slab`, `SlabRuns`): size classes with free lists stored in the free objects, in byte
  memory; over every run, caller writes included, held blocks never overlap, read as last written, and are the only
  ones live, and the objects of a class are conserved.
- **ELF loader** (`ElfLoader`, `ElfFormat`): the page-by-page copy equals the byte-level meaning of PT_LOAD (System V
  gABI, chapter 5), from the encoded program header on, and segments never share a page.
- **Scheduler** (`Cfs`, `RunQueue`, `RbTree`, `RbFix`, `RbDelete`, `RbColor`, `RbBalance`, `RbArena`, `TreeQueue`): the
  fairness window over every run and the bound on waiting, for a queue that stays in order; the arena tree that should
  be that queue, with insertion, removal, rebalancing, rotations, minimum and node pool, and exactly when each keeps
  links, entries and the red-black rules; and the run queue on that tree, with exactly when each operation is that of
  the ordered queue.
- **Others**: civil time (`Rtc`), the block cache (`BlockCache`), the NVMe phase-tag queue against an out-of-order
  device (`Nvme`; NVM Express 1.4, section 4.6), pipes (`Pipe`), tmpfs (`TmpFs`), and the Internet checksum
  (`Ipv4`; RFC 1071, section 1).

State that the kernel updates in place is a class whose methods are proved against functions on values; the run
theorems are about those functions. Integers are unbounded: where 64-bit or 32-bit width matters, a
precondition or an explicit cut says so.

Several properties one would expect do not hold of the code. Each entry names the lemma that says exactly when, and an
example where the statement alone does not show one:

- The red-black tree overwrites a parent link in every insertion that rotates, and a later insertion may then index
  out of bounds: four enqueues of new threads do (`FourEnqueuesCrash`). One insertion into a well-linked tree is right
  and in order; the links agree afterwards exactly when it does not rotate (`WholeInsert`).
- Removing a node with two children from that tree loses its left subtree, and of its right one all but the successor
  and what is below it (`DeleteLosesExactlyWhen`, `RemovalExample`). The run queue on this tree is therefore the ordered
  queue exactly as `Enqueue`, `Dequeue` and `PickNext` of `TreeQueues` say; with two threads it always is, window and
  wait bound included (`Run`, `Stints`), and for more the window and the bound are about the ordered queue.
- Insertion keeps the red-black rules (`InsertKeepsBalance`), and so would removal if `fix_delete` were called where it
  is needed (`FixDelBalances`); but it does nothing for a missing child, so removing a black leaf below the root leaves
  the tree unbalanced (`RemoveBalancedExactlyWhen`, `UnbalancedExample`; with two children,
  `RemoveTwoBalancedExactlyWhen`).
- `find_free_from` can return a frame below its start (`ScanExactlyWhen`, `ScanStepsBackExample`).
- `count_free` miscounts a partial last word (`CountFreeExactlyWhen`, `CountFreeExample`).
- Reserving the kernel's frames has no effect (the constructor of `FrameAllocator`, `KernelReservationExample`), and
  multi-frame allocation always fails (`AllocOrder`).
- Freeing can merge past the last order (`FreePanicsExactlyWhen`, `FreePanicsExample`), and does not merge with a free
  buddy whose bit is set, as `add_region` leaves it (`MergeMeans`, `RegionBlocksDoNotMerge`).
- The 8192 and 16384 classes and all larger requests never yield a block (`Allocate`, `LargeClassesExample`).
- After mprotect, whatever it grants, no user fault in the range is served until it is unmapped
  (`MprotectEndsUserFaults`), while pages that are present stay in reach of the user, to read whatever it takes away: a
  page is reached exactly when it was present or a fault in the kernel has paged it in since, and for a write or an
  execution if that was granted (`ReachedAfterMprotect`, `MprotectExample`).
- A page fault that was handled lets the program go on, unless it was a fetch from an area that must not be executed:
  the handler decodes that bit and does not look at it, and the same fetch faults for ever
  (`ReturnedFaultPassesExactlyWhen`, `FetchFaultsForEver`, `FetchExample`).
- munmap returns no frame, and no other call does (`FramesAreConserved`).
- A mapping that does not start on a page boundary covers a page outside its area (`FirstPageAgreesExactlyWhen`,
  `UnalignedExample`).
- A segment page whose file chunk runs past the file loads as zeros (`ByteLoadedExactlyWhen`, `TruncatedFileExample`).
- Priority boosts push keys below min_vruntime (`BoostedKeyExactlyWhen`, `BoostBreaksTheWindow`).
- A submission ring filled to the last slot looks empty (`SubmitKeepsExactlyWhen`, `FullRingExample`), and a wait after
  a timeout can take the previous command's completion (`AnswersNewestExactlyWhen`, `TimeoutExample`).
- `create` with a directory number that was never given out can make a directory its own child
  (`CreateKeepsForestExactlyWhen`, `CreateInItselfExample`), and `symlink` fails if its inode is unlinked between its
  lock sections (`GoneExactlyWhen`, `SymlinkRaceExample`).
- `parse` rejects nearly everything `build` writes (`ParseOfBuiltExactlyWhen`, `ParseRejectsBuiltExample`).

## Model

| member | source | states |
|---|---|---|
| Radix.AddressIndexIsKeyIndex | kernel/src/mm/paging/x86_64.rs:200-217 | the four 9-bit indices shifted out of an address are the base-512 digits of its page number, bits 12 to 47 |
| Radix.SameIndices | kernel/src/mm/paging/x86_64.rs:210-217 | two page numbers with the same four indices are equal, so the index path identifies the page |
| Radix.LeafWrite | kernel/src/mm/paging/x86_64.rs:67-93 | in a table tree, writing one leaf entry changes the entry of exactly one page |
| Radix.LinkKeepsWalk | kernel/src/mm/paging/x86_64.rs:150-182 | linking a fresh zeroed table keeps every walk that got through; one that did not can at most reach the fresh table |
| Radix.LinkKeepsView | kernel/src/mm/paging/x86_64.rs:150-182 | a fresh table linked in mid-walk changes no page's entry, so a walk that then fails leaves the flat view alone |
| Radix.LeafWriteFlattens | kernel/src/mm/paging/x86_64.rs:67-114 | a leaf write is a put on the flat map, and the tree invariant stays |
| Radix.LinkFlattens | kernel/src/mm/paging/x86_64.rs:156-176 | linking a table keeps tree invariant and flat map |
| PteBits.EntryRoundTrip | kernel/src/mm/paging/x86_64.rs:72-126 | for a page-aligned address below 2^52, address and flags are both recovered from the combined entry word, and the word is zero only if both are |
| PageTables.FlagsFromProt | kernel/src/mm/paging/x86_64.rs:128-143 | writable iff the protection has write, no-execute iff it lacks exec, user iff asked or granted; accessed always, dirty iff writable |
| PageTables.PageTable.NewEmpty | kernel/src/mm/paging/x86_64.rs:51-59 | fails exactly when no frame is free; otherwise an empty flat map on a root that was free |
| PageTables.PageTable.WalkMut | kernel/src/mm/paging/x86_64.rs:150-182 | returns the leaf table of the page, or NotMapped / NoMemory; the flat view is unchanged in every case and exactly the new tables, at most three, left the free set; entries above the leaf withhold no right, as the tree invariant says |
| PageTables.PageTable.MapPage | kernel/src/mm/paging/x86_64.rs:67-75 | AlreadyMapped iff present, NoMemory only with no free frame and no entry; else exactly this page is put; errors change nothing in the flat view; at most three frames become tables, none if the page had an entry |
| PageTables.PageTable.MapPageDemand | kernel/src/mm/paging/x86_64.rs:77-82 | puts a non-present demand entry over whatever the page held; fails only without free frames, changing nothing; at most three frames become tables, none if the page had an entry |
| PageTables.PageTable.UnmapPage | kernel/src/mm/paging/x86_64.rs:84-93 | removes exactly this page iff it is present and returns its frame; demand entries stay |
| PageTables.PageTable.GetFlags | kernel/src/mm/paging/x86_64.rs:95-102 | the flags of the flat entry, present or not, or none |
| PageTables.PageTable.SetFlags | kernel/src/mm/paging/x86_64.rs:104-114 | replaces the flags of exactly this page and keeps its frame |
| PageTables.PageTable.Resolve | kernel/src/mm/paging/x86_64.rs:116-126 | frame and flags iff the flat entry is present |
| PageTables.RunThenLookUp | kernel/src/mm/paging/x86_64.rs:67-182 | after any run of map, demand-map, unmap and set_flags, out-of-memory failures included, both lookups of any page answer as the flat map does, and the processor's four-level walk lets an access through exactly when that entry permits it; a failure happens only where a table was missing and leaves no frame free |
| Radix.PassesAsLeaf | kernel/src/mm/paging/x86_64.rs:150-182 | in a table tree an access passes all four levels exactly when the leaf entry permits it: the tables above it take no right away |
| PageTables.ProcessorAgrees | kernel/src/mm/paging/x86_64.rs:67-182 | the processor lets through exactly what the page's entry in the flat map permits |
| Vmas.VmaTree.HasOverlap | kernel/src/mm/vma.rs:168-170 | true exactly when some area overlaps the range |
| Vmas.VmaTree.Insert | kernel/src/mm/vma.rs:73-82 | succeeds exactly when there is room and no overlap; keeps the array dense, sorted and disjoint and adds exactly that area |
| Vmas.VmaTree.SortEntries | kernel/src/mm/vma.rs:84-97 | the in-place loop equals insertion sort of the area sequence |
| Vmas.VmaTree.Sink | kernel/src/mm/vma.rs:84-97 | the inner loop puts entry i behind the last earlier entry that does not start later |
| Vmas.SortIsSorted | kernel/src/mm/vma.rs:84-97 | insertion sort yields a start-sorted sequence of the same areas, each as often as before |
| Vmas.SortAppended | kernel/src/mm/vma.rs:73-97 | sorting a disjoint array with one new non-overlapping area behind it gives a disjoint array with just that area added |
| Vmas.VmaTree.Remove | kernel/src/mm/vma.rs:99-112 | removes exactly the one area with that start and length, keeping order; otherwise NotFound and nothing changes |
| Vmas.VmaTree.Compact | kernel/src/mm/vma.rs:151-165 | closes the holes: the remaining areas move down in order and the tail is empty |
| Vmas.VmaTree.Find | kernel/src/mm/vma.rs:114-121 | the only area that contains the address, or none |
| Vmas.VmaTree.FindGap | kernel/src/mm/vma.rs:123-132 | the least candidate at or above the hint that is free below the limit; None only when no candidate is free |
| Vmas.VmaTree.UpdateProt | kernel/src/mm/vma.rs:134-145 | changes the protection of exactly the area with that start and length, or NotFound and nothing |
| Vmas.OneAreaPerAddress | kernel/src/mm/vma.rs:114-121 | in a disjoint array an address lies in at most one area |
| VmSpec.PresentPageHasOneArea | kernel/src/mm/vm.rs:27-170 | under the invariant a present page lies in exactly one area, and its writable and no-execute bits are that area's |
| AddressSpaces.AddressSpace.MapVmaDemand | kernel/src/mm/vm.rs:125-135 | on success exactly the area's pages hold its demand entry; on failure only those pages differ and no frame is free |
| AddressSpaces.AddressSpace.PopulateVma | kernel/src/mm/vm.rs:137-149 | on success every page of the marked area is present, each on its own frame that was free, and no frame became a table; no page outside it changes; failure only without free frames |
| AddressSpaces.AddressSpace.UnmapVma | kernel/src/mm/vm.rs:151-157 | no page of the area stays present, no other page changes, and no frame is given back |
| AddressSpaces.AddressSpace.ChooseTarget | kernel/src/mm/vm.rs:27-60 | a fixed address as given, or Exists exactly when it must not replace and an area holds it; otherwise the least free slot from the hint, OutOfSpace exactly when there is none |
| AddressSpaces.AddressSpace.Mmap | kernel/src/mm/vm.rs:27-82 | each error exactly when: the length is zero, the target of ChooseTarget is refused, outside user space, or overlaps or finds the array full; else exactly one area at that target with its pages demand-marked or present; the frames gone are exactly those under new pages and at most three new tables a page; OutOfMemory only with no frame left and a page missing |
| AddressSpaces.AddressSpace.Munmap | kernel/src/mm/vm.rs:84-95 | keeps the invariant; removes exactly the matching area and all its present pages; fails exactly when there is no such area, changing nothing |
| AddressSpaces.AddressSpace.Mprotect | kernel/src/mm/vm.rs:97-123 | keeps the invariant; gives exactly the matching area the rights asked for, read, write and exec each iff its flag is set, and no user access; every present page of the range is then writable iff write and no-execute iff not exec; frames and other pages unchanged; fails exactly when there is no such area, changing nothing |
| AddressSpaces.AddressSpace.ApplyProt | kernel/src/mm/vm.rs:159-170 | after the loop every present page of the range carries the new protection |
| AddressSpaces.AddressSpace.DemandFault | kernel/src/mm/fault.rs:109-125 | maps exactly this page onto a frame that was free with the area's flags, at most three more frames becoming tables; fails only when frames run out, changing no entry, and on a marked page only if none was free |
| AddressSpaces.AddressSpace.ResolveFault | kernel/src/mm/fault.rs:70-107 | BadAddress iff no area contains the page; protection violations by the area's rights; Handled iff already present; an absent page the area permits is paged in, the frames gone being its own and at most three new tables, unless frames run out |
| VmSpec.AllPagesAgree | kernel/src/mm/vm.rs:27-170 | the invariant says of every present page: exactly one area contains it and matches its bits, its frame is not free, and no other page has it |
| VmRuns.Run | kernel/src/mm/vm.rs:27-170 | over any sequence of mmap, munmap, mprotect and faults, each call answers and changes the state as its relation says, and in every state in between areas are disjoint, every present page agrees with its area, and no frame has two uses; the table frames of each state show the processor that state's flat map |
| VmRuns.OneTarget | kernel/src/mm/vm.rs:27-60 | the relation leaves mmap no choice of address: two targets of one request are equal |
| VmRuns.MmapHasFrames | kernel/src/mm/vm.rs:27-149 | with four free frames a page mmap does not answer OutOfMemory; without populate, more than three a page are enough |
| VmRuns.FaultHasFrames | kernel/src/mm/fault.rs:70-125 | with four free frames a permitted fault on an absent page is paged in; on a marked page exactly when one is free |
| VmRuns.StepConserves | kernel/src/mm/vm.rs:27-170 | each call keeps the set of frames that are free, under tables or under pages, but for those of the pages munmap removes; no call frees a frame |
| VmRuns.FramesAreConserved | kernel/src/mm/vm.rs:84-157 | over any run the same: what is free, under tables and under pages is the start without the frames of unmapped pages, which are never returned |
| VmProtect.MprotectEndsUserFaults | kernel/src/mm/vm.rs:97-123 | in any run, after a successful mprotect every user fault in its range is a protection violation and changes nothing, until that range is unmapped |
| VmProtect.ReachesExactlyWhen | kernel/src/mm/vm.rs:97-170 | the processor's walk lets a user through to exactly the present pages, to write to those whose area has write, to execute to those whose area has exec: user access of the area plays no part |
| VmSpec.AreaGrants | kernel/src/mm/vm.rs:97-170 | under the invariant the present pages of an area are writable iff it has write and no-execute iff it lacks exec |
| VmProtect.ReachedAfterMprotect | kernel/src/mm/vm.rs:97-170 | in any run, after a successful mprotect the processor lets a user access to a page of its range through exactly when the page was present then or a fault taken in the kernel has paged it in since, and the mprotect granted the write or execution if it is one |
| VmProtect.PresentAfterMprotect | kernel/src/mm/vm.rs:97-170 | in any run, after a successful mprotect a page of its range is present exactly when it was present then or a fault taken in the kernel has paged it in since |
| VmProtect.StaysGranted | kernel/src/mm/vm.rs:97-123 | in any run, the area keeps exactly the rights an mprotect gave it until a call names its range |
| VmProtect.MprotectExample | kernel/src/mm/vm.rs:97-123 | in every run of two one-page mmaps, mprotect of the first to read-write and user faults on both: the first fault is refused and the page stays out of reach, the second is paged in and can be written |
| VmProtect.FirstPageAgreesExactlyWhen | kernel/src/mm/vm.rs:125-149 | after populate maps the first page of an area the state agrees exactly when some area with the same rights contains the start of that page; the area itself does exactly when it starts on a page boundary |
| VmProtect.MapFirstPage | kernel/src/mm/vm.rs:137-149 | the first turn of populate on a page table, for a marked area that may start anywhere: maps iff a frame is free, and then agrees on exactly that condition |
| VmProtect.UnalignedExample | kernel/src/mm/vm.rs:125-149 | an area at 0x10800, whose first mapped page lies outside it: no state it is mapped in agrees |
| VmFaults.FaultReturnsExactlyWhen | kernel/src/mm/fault.rs:70-125 | with four free frames or the page present, the handler returns to the program exactly when an area grants the access, a user needing user access and a write the right to write; a refused fault changes no entry, and BadAddress is exactly no area |
| VmFaults.ReturnedFaultPassesExactlyWhen | kernel/src/mm/fault.rs:29-125 | after a fault the handler returned from, the processor lets the access through, except a fetch from an area without exec: the fetch bit it decodes is not looked at |
| VmFaults.FaultsAreServed | kernel/src/mm/fault.rs:29-125 | the same for every fault of every run |
| VmFaults.FetchFaultsForEver | kernel/src/mm/fault.rs:29-107 | in any run, a fetch from a present page whose area lacks exec faults again and again: every fault is answered as handled, no state changes, the fetch never passes |
| VmFaults.FetchExample | kernel/src/mm/fault.rs:29-107 | in every run of mmap of a page to read and two fetch faults: the first is paged in, the second handled, and the fetch still does not pass |
| VmFaults.MmapMeans | kernel/src/mm/vm.rs:27-82 | what a successful mmap adds: one area at the answered address, of the length rounded up, with the rights and flags asked for and its kind by them, inside the user range; its pages are present iff populate was asked |
| VmFaults.MmapReachesExactlyWhen | kernel/src/mm/vm.rs:27-149 | right after mmap the processor lets a user through to a page of the area exactly when it was populated and the write or execution was asked for |
| FrameBitmaps.FrameBitmap.MarkAllUsed | kernel/src/mm/phys/bitmap.rs:24-28 | every bit is set |
| FrameBitmaps.FrameBitmap.Set | kernel/src/mm/phys/bitmap.rs:104-112 | changes exactly one bit |
| FrameBitmaps.FrameBitmap.FindFreeFrom | kernel/src/mm/phys/bitmap.rs:59-82 | returns the scan result: the least free frame from start on, or the first free frame of the word where the fast path hits |
| FrameBitmaps.ScanExactlyWhen | kernel/src/mm/phys/bitmap.rs:59-82 | find_free_from is the least free frame at or after start exactly when the fast path does not step back inside a word |
| FrameBitmaps.ScanStepsBackExample | kernel/src/mm/phys/bitmap.rs:59-82 | a bitmap on which a scan from frame 3 returns frame 1 |
| FrameBitmaps.ScanFromBoundary | kernel/src/mm/phys/bitmap.rs:55-82 | from a word boundary the scan is exactly least-free, None included |
| FrameBitmaps.FrameBitmap.FindFree | kernel/src/mm/phys/bitmap.rs:55-57 | the least free frame, None exactly when none is free |
| FrameBitmaps.FrameBitmap.CountFree | kernel/src/mm/phys/bitmap.rs:84-96 | the value the popcount loop and tail mask compute |
| FrameBitmaps.CountFreeExactlyWhen | kernel/src/mm/phys/bitmap.rs:84-96 | count_free is the number of clear bits exactly when there is no partial word or half of 64 bits are free in it; always for a multiple of 64 |
| FrameBitmaps.CountFreeExample | kernel/src/mm/phys/bitmap.rs:84-96 | one free frame, counted as 63 |
| FrameAllocators.FrameAllocator.constructor | kernel/src/mm/phys/frame.rs:56-105 | a frame is free after construction exactly when a region covers it that is not reserved, ACPI NVS, bad or unknown: the kernel reservation leaves no trace |
| FrameAllocators.TrackedFrames | kernel/src/mm/phys/frame.rs:56-80 | whole words of frames, up to the end of the last region of the memory map or the size of the bitmap |
| FrameAllocators.KernelReservationExample | kernel/src/mm/phys/frame.rs:56-105 | 32 MiB of memory and a kernel at 1 MiB: the kernel's first frame is free after construction |
| FrameAllocators.FrameAllocator.AllocOne | kernel/src/mm/phys/frame.rs:116-126 | takes the least free frame, None exactly when none is free |
| FrameAllocators.FrameAllocator.AllocOrder | kernel/src/mm/phys/frame.rs:128-148 | order 0 is alloc_one; any higher order fails and changes no free frame, because the buddy lists stay empty |
| FrameAllocators.FrameAllocator.FreeFrame | kernel/src/mm/phys/frame.rs:150-161 | adds exactly that frame to the free set |
| FrameAllocators.NoDoubleHandout | kernel/src/mm/phys/frame.rs:116-161 | in any trace, between two allocations of a frame there is a free of it |
| FrameAllocators.Run | kernel/src/mm/phys/frame.rs:116-161 | any run of single-frame allocations and frees on the allocator is such a trace, of its own free sets from first to last, so no frame is out twice |
| Buddy.BuddyAllocator.PushBlock | kernel/src/mm/phys/buddy.rs:150-160 | fails exactly when the pool is used up; otherwise exactly one list gains the frame in front |
| Buddy.ArenaDescends | kernel/src/mm/phys/buddy.rs:127-160 | in the arena every link goes to a smaller index, so each list walk ends |
| Buddy.BuddyAllocator.TakeBuddy | kernel/src/mm/phys/buddy.rs:127-148 | takes the buddy iff it is free in the bitmap and on that list, removing exactly it |
| Buddy.BuddyAllocator.SplitBlock | kernel/src/mm/phys/buddy.rs:76-82 | splitting by pointer updates equals the recursive split of lists and bits; fails exactly when pool entries run out |
| Buddy.BuddyAllocator.AddRegion | kernel/src/mm/phys/buddy.rs:33-66 | lists, bitmap and pool use equal the greedy decomposition; fails exactly when pool entries run out |
| Buddy.BuddyAllocator.Alloc | kernel/src/mm/phys/buddy.rs:68-109 | serves from the preferred node or the first other with a large enough block, splitting down; None exactly when no node has one |
| Buddy.BuddyAllocator.Free | kernel/src/mm/phys/buddy.rs:111-125 | lists and bitmap equal repeated merging with free buddies; fails exactly on pool exhaustion or a merge past order 10 |
| BuddySpec.RegionOrderFits | kernel/src/mm/phys/buddy.rs:33-66 | the chosen order is aligned at the frame and ends inside the region |
| BuddySpec.RegionOrderIsLargest | kernel/src/mm/phys/buddy.rs:33-66 | the order add_region picks is the largest whose block is aligned, inside the region and free in the bitmap; a single frame is taken whatever its bit |
| BuddySpec.AlignedIsMultiple | kernel/src/mm/phys/buddy.rs:33-66 | the bitwise alignment test is divisibility by the block size |
| BuddySpec.BuddiesMakeBlock | kernel/src/mm/phys/buddy.rs:111-125 | a block and its buddy are disjoint and together are the aligned block one order up |
| BuddySpec.SplitConserves | kernel/src/mm/phys/buddy.rs:76-82 | after splitting, the free lists plus the block handed out cover each frame as often as before |
| BuddySpec.SourceNode | kernel/src/mm/phys/buddy.rs:68-109 | the node itself if it has a large enough block, else the first other that has, None exactly when none has |
| BuddySpec.AllocMeans | kernel/src/mm/phys/buddy.rs:68-109 | an allocation takes the head of the highest list, puts its upper halves on that node's lists one order each with their first frames cleared, marks its own first frame, and changes no other list or bit |
| BuddySpec.MergeConserves | kernel/src/mm/phys/buddy.rs:111-125 | merging covers each frame as often as before and keeps blocks aligned |
| BuddySpec.MergeMeans | kernel/src/mm/phys/buddy.rs:111-148 | merging climbs exactly as long as the buddy of the block around the frame is free and listed; those buddies leave their lists, the first frames of the blocks that arise are cleared, and no other list or bit changes |
| BuddySpec.AddRegionConserves | kernel/src/mm/phys/buddy.rs:33-66 | adding a region covers each of its frames exactly once more and no other |
| BuddySpec.AddRegionMeans | kernel/src/mm/phys/buddy.rs:33-66 | adding a region marks all its frames used, no other bit, and touches the lists of its own node only |
| BuddySpec.MergeOverflowsExactlyWhen | kernel/src/mm/phys/buddy.rs:111-125 | merging climbs past the last list exactly when every buddy on the way up is free and listed |
| BuddyRuns.InitialPartition | kernel/src/mm/phys/buddy.rs:23-31 | the empty allocator is the partition of no frames |
| BuddyRuns.StepKeeps | kernel/src/mm/phys/buddy.rs:33-125 | add_region, alloc and free of a held block keep: free plus held blocks partition the added frames, all aligned |
| BuddyRuns.RunKeepsPartition | kernel/src/mm/phys/buddy.rs:33-125 | after every run each added frame is in exactly one free or held block and no other frame is in any |
| BuddyRuns.RunKeepsHeldMarked | kernel/src/mm/phys/buddy.rs:33-148 | in every state of every run the first frame of a held block is marked used, so nothing merges with it |
| BuddyRuns.FreePanicsExactlyWhen | kernel/src/mm/phys/buddy.rs:111-125 | with pool entries left, freeing a held block goes out of bounds exactly when every buddy up to order 10 is listed |
| BuddyRuns.FreePanicsExample | kernel/src/mm/phys/buddy.rs:111-125 | a run of one add_region, two allocations and one free after which the next free does so |
| BuddyRuns.RegionBlocksDoNotMerge | kernel/src/mm/phys/buddy.rs:33-148 | a freed block next to a free one that is as add_region left it does not merge with it |
| SlabSpec.ClassIndex | kernel/src/mm/heap/slab.rs:164-166 | the first of the twelve classes that is large enough, None exactly when none is |
| SlabSpec.ClassWaste | kernel/src/mm/heap/slab.rs:164-166 | no class exactly above 16384 bytes; above 8 bytes an object is less than twice the request |
| SlabSpec.StoreWordThenLoad | kernel/src/mm/heap/slab.rs:127-144 | a pointer stored in the first word of an object reads back |
| SlabSpec.PushKeeps | kernel/src/mm/heap/slab.rs:138-144 | freeing an object onto its class list keeps every list, all objects disjoint, placed and aligned |
| SlabSpec.PopKeeps | kernel/src/mm/heap/slab.rs:127-136 | taking the head keeps the same invariant with that object live |
| SlabSpec.ShrinkKeeps | kernel/src/mm/heap/slab.rs:65-74 | an in-place shrink, which moves the block to a smaller class, keeps all objects disjoint and every list intact |
| SlabSpec.LiveWriteKeeps | kernel/src/mm/heap/slab.rs:76-79 | writing any bytes inside a live block disturbs no free list and no other block |
| Slab.SlabAllocator.CacheFree | kernel/src/mm/heap/slab.rs:138-144 | the intrusive write equals pushing onto the class list |
| Slab.SlabAllocator.Refill | kernel/src/mm/heap/slab.rs:146-161 | takes exactly one frame if one is free; for classes up to a page every byte of that frame is then in exactly one of the new free objects, and the free list times the object size is the page; classes above a page get none, so the frame is lost |
| Slab.SlabAllocator.CacheAlloc | kernel/src/mm/heap/slab.rs:127-136 | non-null exactly for classes up to 4096 with a free object or frame; the block was not live, every live block keeps its bytes, and the free list is the old one without its head, or a page's objects but one |
| Slab.SlabAllocator.LargeAlloc | kernel/src/mm/heap/slab.rs:98-115 | requests above 16384 bytes always fail |
| Slab.LargeClassesExample | kernel/src/mm/heap/slab.rs:98-166 | 8192 and 16384 bytes have a class and 20000 has none, and no request for any of them can be met, whatever is free |
| Slab.OrderForCount | kernel/src/mm/phys/buddy.rs:171-178 | the least order that holds that many pages, at most 10 |
| Slab.SlabAllocator.Allocate | kernel/src/mm/heap/slab.rs:48-54 | a block exactly for requests of at most 4096 bytes that find an object or a frame; aligned, large enough, and no live block changes |
| Slab.SlabAllocator.Deallocate | kernel/src/mm/heap/slab.rs:56-63 | the heap is the old one with the block pushed onto the list of its layout's class: the block is free, every other live block keeps its bytes, no other object changes |
| Slab.SlabAllocator.Reallocate | kernel/src/mm/heap/slab.rs:65-82 | keeps the old contents up to the smaller size, whether the block stays, moves or cannot be had; stays exactly when the new size fits, fails exactly when it must move and no object or frame is to be had |
| SlabRuns.HeldBlocksAreGood | kernel/src/mm/heap/slab.rs:48-82 | blocks a caller holds are aligned as asked and pairwise disjoint |
| SlabRuns.Serve | kernel/src/mm/heap/slab.rs:48-82 | over any run of allocate, deallocate, reallocate and writes into held blocks, every request is answered exactly as the state allows and takes a frame only when its class is empty; in every state each held block is live, no two are the same, each reads as its caller last wrote it, and the live blocks are exactly these and those live at the start |
| SlabRuns.LiveAreHeld | kernel/src/mm/heap/slab.rs:48-82 | in any run the live blocks are at each point those of the start and the held ones, and these are apart: no block is leaked or comes to life unasked |
| SlabRuns.FreedComesBack | kernel/src/mm/heap/slab.rs:48-63 | a request of the layout just given back is met, with that very block and no new frame |
| SlabRuns.ObjectsAreConserved | kernel/src/mm/heap/slab.rs:48-161 | over any run the objects of a class, free and held, are those of the start and a page's worth for each page made for it, but for blocks that changed class by shrinking in place |
| SlabRuns.OneFrameServes | kernel/src/mm/heap/slab.rs:127-161 | n met requests of one class from an empty list: frames taken times objects per page is n plus what is left on the list, less than a page's worth |
| ElfLoader.ByteLoadedExactlyWhen | kernel/src/mm/elf/load.rs:190-208 | a byte of a segment page loads as the generic ABI says exactly when the page's file chunk exists in full, or the byte is zero |
| ElfLoader.WholeFileFits | kernel/src/mm/elf/load.rs:190-208 | a segment whose file range is inside the file loses no chunk |
| ElfLoader.TruncatedFileExample | kernel/src/mm/elf/load.rs:190-208 | a truncated file whose page loads as zeros although its first bytes exist |
| ElfLoader.SegmentFlags | kernel/src/mm/elf/load.rs:209-215 | present, user and not copy-on-write; writable iff PF_W, no-execute iff not PF_X |
| ElfLoader.FillPage | kernel/src/mm/elf/load.rs:186-208 | zeroing and the chunk copy equal the per-byte meaning of the page |
| ElfLoader.Loader.LoadPage | kernel/src/mm/elf/load.rs:182-221 | on success a page that was absent is present with that content and those flags; every present page keeps frame, flags and bytes; failure only without frames or on a present page |
| ElfLoader.Loader.MapSegment | kernel/src/mm/elf/load.rs:172-221 | on success all pages of the segment were absent and are loaded; only they become present; failure only without frames or on a blocked page |
| ElfLoader.Loader.MapSegments | kernel/src/mm/elf/load.rs:107-112 | on success every PT_LOAD header is loaded, the page ranges are pairwise disjoint, and the pages present are those from before and those of the segments; Malformed only for a header outside the file; MapFailed only without frames or when a page of a segment was mapped before, is in an earlier segment or comes up twice |
| ElfLoader.ImageBytes | kernel/src/mm/elf/load.rs:107-221 | after a successful load every address of every segment reads its file byte inside p_filesz and zero elsewhere |
| ElfFormat.PhdrRoundTrip | kernel/src/mm/elf/parse.rs:41-102 | phdr_at reads back every field of a program header encoded little-endian at the offsets of Elf64_Phdr, whatever surrounds it |
| ElfFormat.SegmentPages | kernel/src/mm/elf/load.rs:172-181 | the pages of a segment are exactly those that meet its memory range |
| ElfFormat.EncodedSegmentReads | kernel/src/mm/elf/load.rs:107-221 | once the headers are loaded, every address of the memory range of an encoded PT_LOAD header reads the byte at p_offset on inside p_filesz and zero behind it |
| ElfFormat.EncodedSegmentRights | kernel/src/mm/elf/load.rs:107-221 | and its page lets a user write iff bit 1 of p_flags is set and execute iff bit 0 is |
| Cfs.NiceStep | kernel/src/sched/cfs.rs:9-18 | over the whole nice range each weight is 20 to 28 percent above the next |
| Cfs.NiceClamps | kernel/src/sched/cfs.rs:9-18 | outside -20 to 19 the weight is that of the nearer end |
| Cfs.NicerWeighsLess | kernel/src/sched/cfs.rs:9-18 | the weight is strictly decreasing in nice |
| Cfs.ChargeIsProportional | kernel/src/sched/cfs.rs:20-26 | charge times weight is wall time times 1024, rounded down to a multiple of the weight |
| Cfs.NicerPaysMore | kernel/src/sched/cfs.rs:9-26 | for the same wall time a nicer thread is charged at least as much |
| Cfs.PlaceEntity | kernel/src/sched/cfs.rs:32-38 | the larger of min_vruntime and the thread's virtual time |
| Cfs.BoostedKeyExactlyWhen | kernel/src/sched/runqueue.rs:38-41 | a thread's key lands at or above min_vruntime exactly without a boost, with min_vruntime 0, or two boosts above it |
| Cfs.BoostBreaksTheWindow | kernel/src/sched/runqueue.rs:38-41 | a boost of 30 at 100 enqueues at 70 |
| RunQueues.EnqueueFair | kernel/src/sched/runqueue.rs:37-54 | enqueue keeps tree, flags and count in agreement and the fairness window, and never lowers min_vruntime |
| RunQueues.RemoveFair | kernel/src/sched/runqueue.rs:56-65 | removing a queued thread keeps both, and min_vruntime |
| RunQueues.PickFair | kernel/src/sched/runqueue.rs:67-82 | picking keeps both and never lowers min_vruntime |
| RunQueues.ChargeFair | kernel/src/sched/runqueue.rs:168-179 | a charge within the slice keeps both, and min_vruntime |
| RunQueues.StepKeepsWindow | kernel/src/sched/runqueue.rs:37-82 | enqueue, dequeue, pick, set_current and charge keep every queued key in [min, min + D] and every thread at most there, nr_running the number of threads marked on the queue, and min does not fall; of the ordered queue that TreeQueues compares the code to |
| RunQueues.RunKeepsWindow | kernel/src/sched/runqueue.rs:37-82 | in every state of every run of the ordered queue the window holds, and min_vruntime is monotone between any two states |
| RunQueues.EnqueueMeans | kernel/src/sched/runqueue.rs:37-54 | an enqueue puts one entry behind equal keys, at the larger of min_vruntime and the thread's time, less its boost, marks the thread queued, counts it, and makes min_vruntime the least key of the queue; nothing else changes |
| RunQueues.DequeueMeans | kernel/src/sched/runqueue.rs:56-65 | a dequeue of a thread in the queue takes out its entry, unmarks it and counts it off; of any other changes nothing |
| RunQueues.PickMeans | kernel/src/sched/runqueue.rs:67-82 | a pick takes out an entry of least key, which becomes min_vruntime, and unmarks and counts off its thread; idle exactly for the empty queue |
| RunQueues.ChargeMeans | kernel/src/sched/runqueue.rs:168-179 | a charge adds the wall time to what the current thread has executed and wall time times 1024 over its weight to its virtual time, each cut at 2^64 - 1, and changes no other thread |
| RunQueues.SleeperEntersBehind | kernel/src/sched/runqueue.rs:37-82 | in every run a thread enters at no key below one picked before, nor below the least queued after an earlier enqueue: sleeping earns no credit |
| RunQueues.NewQueueIsFair | kernel/src/sched/runqueue.rs:22-35 | a new queue over threads that never ran is in the window |
| RunQueues.RoundUsesCredit | kernel/src/sched/runqueue.rs:37-82 | each round that does not pick a waiting thread lowers the credit the others have left before it |
| RunQueues.RoundStepIsRound | kernel/src/sched/runqueue.rs:37-82 | pick, set_current, charge and enqueue together move the first entry of the ordered queue up by its charge |
| RunQueues.WaitBound | kernel/src/sched/runqueue.rs:37-82 | with n runnable threads and charges in [d, D], a queued thread of the ordered queue is picked after at most (n-1)(D/d+1) other picks |
| TreeQueues.CfsRunQueue.Enqueue | kernel/src/sched/runqueue.rs:37-54 | on the code's tree, for a thread not in it: the entry stands behind equal keys at the larger of min_vruntime and the thread's time, less its boost, and min_vruntime is then the least key in the tree; the queue is the ordered queue after enqueue, and its tree is well linked afterwards exactly when the insertion does not rotate |
| TreeQueues.CfsRunQueue.Dequeue | kernel/src/sched/runqueue.rs:56-65 | on the code's tree: the queue is the ordered queue after dequeue exactly when the thread's node does not have two children, and is well linked then; else only the entries of the tree differ |
| TreeQueues.CfsRunQueue.PickNext | kernel/src/sched/runqueue.rs:67-82 | on the code's tree: always the thread and the state of the ordered queue, which is that of an entry with the least key, gone from the queue; the tree stays well linked |
| TreeQueues.SmallTrees | kernel/src/sched/rbtree.rs:112-317 | an insertion into a tree of at most one node does not rotate, and in a tree of at most two no node has two children |
| TreeQueues.CfsRunQueue.Run | kernel/src/sched/runqueue.rs:37-82 | with at most two threads any run of operations on the code's tree, without enqueueing a queued thread or idle, is the run of the ordered queue |
| TreeQueues.CfsRunQueue.Stints | kernel/src/sched/runqueue.rs:37-82 | with at most two threads stints on the code's tree obey the wait bound |
| RbArena.RedBlackTree.Init | kernel/src/sched/rbtree.rs:72-83 | an empty tree and a free list of all 1024 nodes |
| RbArena.RedBlackTree.AllocNode | kernel/src/sched/rbtree.rs:93-103 | None exactly when every node is in use; the node leaves the free list, and free list and nodes in use still partition the pool |
| RbArena.RedBlackTree.FreeNode | kernel/src/sched/rbtree.rs:105-110 | the node joins the free list; tree and partition keep |
| RbArena.RedBlackTree.Minimum | kernel/src/sched/rbtree.rs:166-180 | the first entry in order, None exactly for the empty tree |
| RbArena.RedBlackTree.FindLeaf | kernel/src/sched/rbtree.rs:134-151 | the descent ends at the attach point of the key |
| RbArena.RedBlackTree.Insert | kernel/src/sched/rbtree.rs:112-154 | None exactly when the pool is used up; otherwise the in-order entries gain exactly the new one behind equal keys, and the tree is well linked afterwards iff the climb from the attach point ends without a rotation; a balanced tree stays balanced |
| RbArena.RedBlackTree.FixInsert | kernel/src/sched/rbtree.rs:186-236 | the rebalancing loop on the arena equals the passes on values |
| RbColors.Shallow | kernel/src/sched/rbtree.rs:186-236 | a tree that keeps the red-black rules has depth at most twice its black height, and at least 2^height - 1 nodes |
| RbColors.FixFromBalances | kernel/src/sched/rbtree.rs:186-236 | fix_insert at a red node whose parent may be red ends with the red-black rules restored, rotations included |
| RbColors.InsertKeepsBalance | kernel/src/sched/rbtree.rs:112-236 | a whole insertion into a balanced tree gives a balanced tree |
| RbFix.FixFromKeeps | kernel/src/sched/rbtree.rs:186-236 | fix_insert from any node of a well-linked tree ends, indexes nothing out of bounds and keeps the in-order entries; parent links agree afterwards iff the path up has no rotation, a condition on the tree before the call |
| RbFix.BrokenMeans | kernel/src/sched/rbtree.rs:228-233 | a turn that overwrote the lower node's parent leaves all child links right and the parent links in disagreement |
| RbFix.WholeInsert | kernel/src/sched/rbtree.rs:112-236 | a whole insertion into any well-linked ordered tree does not fail and gives ordered insertion; its parent links agree iff no rotation is on the path |
| RbFix.InsertRun | kernel/src/sched/rbtree.rs:112-236 | a run of insertions holds the entries in order as long as all but the last left the links in agreement |
| RbFix.FourEnqueuesCrash | kernel/src/sched/rbtree.rs:186-255 | an allowed run of four enqueues of new threads whose fourth insertion indexes out of bounds in the code's tree |
| RbFix.RotLKeeps | kernel/src/sched/rbtree.rs:238-255 | rotate_left on any well-linked tree is in bounds and keeps links, nodes and in-order entries |
| RbFix.RotRKeeps | kernel/src/sched/rbtree.rs:257-274 | the same for rotate_right |
| RbDelete.FixDelKeeps | kernel/src/sched/rbtree.rs:353-441 | fix_delete from any path of a well-linked tree ends within its depth, indexes nothing out of bounds, and keeps links, nodes and in-order entries |
| RbBalance.FixDelBalances | kernel/src/sched/rbtree.rs:353-441 | fix_delete at a node under which every path is one black node short ends with the red-black rules restored |
| RbBalance.RemoveBalancedExactlyWhen | kernel/src/sched/rbtree.rs:276-317 | removing a node with at most one child from a balanced tree keeps it balanced exactly when the node is red, has a child or is the root: fix_delete does nothing for a missing child |
| RbBalance.RemoveTwoBalancedExactlyWhen | kernel/src/sched/rbtree.rs:276-351 | with two children, exactly when the successor is a black leaf and the node is the root, or red with the successor for its child |
| RbBalance.UnbalancedExample | kernel/src/sched/rbtree.rs:276-317 | four insertions without a rotation and one removal of a black leaf after which the tree is not balanced |
| RbDelete.WholeDelete | kernel/src/sched/rbtree.rs:276-441 | deleting any node of a well-linked tree ends, indexes nothing out of bounds, and leaves a well-linked tree with the entries of the old one in which the subtree of the node is replaced: by its only child, or with two children by the successor and what is below it |
| RbDelete.DeleteLosesExactlyWhen | kernel/src/sched/rbtree.rs:276-317 | what is left is everything but the removed entry exactly when the node has at most one child; with two the whole left subtree is lost, and all of the right one but the successor and what is below it |
| RbDelete.ButIsRemove | kernel/src/sched/rbtree.rs:276-317 | with distinct threads, everything but the entry of a node is the ordered sequence with that thread removed, one shorter |
| RbDelete.MinimumHasOneChild | kernel/src/sched/rbtree.rs:166-180 | the first node in order never has two children |
| RbDelete.RemovalExample | kernel/src/sched/rbtree.rs:276-317 | three insertions without a rotation and one removal after which two of the three entries are gone |
| RbArena.RedBlackTree.Remove | kernel/src/sched/rbtree.rs:156-164 | None exactly for a node not in the tree, nothing changing; otherwise its thread, the node back in the pool and a valid tree, which holds all other entries in order exactly when the node had at most one child; a balanced tree stays balanced exactly as RemoveBalancedExactlyWhen and RemoveTwoBalancedExactlyWhen say |
| RbTrees.AttachInOrder | kernel/src/sched/rbtree.rs:134-151 | descending by key and attaching at a leaf is ordered insertion |
| RbFix.RotLIsRotation | kernel/src/sched/rbtree.rs:238-255 | the pointer updates of rotate_left on the arena are in bounds and are a left rotation of the links, root included, with no other node changed |
| RbFix.RotRIsRotation | kernel/src/sched/rbtree.rs:257-274 | the same for rotate_right |
| RbTrees.RotateLeftKeeps | kernel/src/sched/rbtree.rs:238-255 | a left rotation anywhere in a well-linked tree keeps the in-order entries, the node set and parent/child agreement |
| RbTrees.RotateRightKeeps | kernel/src/sched/rbtree.rs:257-274 | the same for a right rotation, through the mirror image |
| RbTrees.RotateBack | kernel/src/sched/rbtree.rs:238-274 | a right rotation at the child undoes a left rotation |
| RbArena.RedBlackTree.RotateLeft | kernel/src/sched/rbtree.rs:238-255 | keeps a valid tree object with the same contents and pool |
| RbArena.RedBlackTree.RotateRight | kernel/src/sched/rbtree.rs:257-274 | keeps a valid tree object with the same contents and pool |
| Rtc.EpochIsZero | kernel/src/arch/x86_64/rtc.rs:125-141 | 1970-01-01 00:00:00 is 0 |
| Rtc.NextSecondAdvances | kernel/src/arch/x86_64/rtc.rs:125-141 | one calendar second later is one more, across minutes, hours, months, leap days and years: with the epoch this fixes to_unix |
| Rtc.YearOfDay | kernel/src/arch/x86_64/rtc.rs:207-210 | the year of an era is recovered from any of its days |
| Rtc.CivilRoundTrip | kernel/src/arch/x86_64/rtc.rs:125-141 | from days back to the date gives every date of every year |
| Rtc.DateTimeRoundTrip | kernel/src/arch/x86_64/rtc.rs:199-226 | from_unix(to_unix(dt)) is dt for every date-time of years 0 to 65535 |
| Rtc.UnixRoundTrip | kernel/src/arch/x86_64/rtc.rs:199-226 | to_unix(from_unix(s)) is s for every second of those years, and from_unix(s) is a real date-time |
| Rtc.UnixOrder | kernel/src/arch/x86_64/rtc.rs:125-141 | to_unix is strictly increasing in calendar order, and only then |
| BlockCache.OneSlotPerBlock | kernel/src/fs/block/mod.rs:62-97 | at most one valid slot holds a given device and block |
| BlockCache.BufferCache.Find | kernel/src/fs/block/mod.rs:62-66 | a valid slot for the block, None exactly when there is none |
| BlockCache.BufferCache.EvictSlot | kernel/src/fs/block/mod.rs:68-76 | the slot at the round-robin cursor, which moves on by one, with its dirty flag dropped; nothing else changes |
| BlockCache.BufferCache.ReadBlock | kernel/src/fs/block/mod.rs:81-97 | result and caller's buffer are exactly those of an uncached read; disks unchanged |
| BlockCache.BufferCache.WriteBlock | kernel/src/fs/block/mod.rs:99-108 | result and disks are exactly those of an uncached write, partial buffers and range errors included |
| BlockCache.WriteBackChangesNothing | kernel/src/fs/block/mod.rs:110-118 | writing a coherent slot back leaves the disk as it is |
| BlockCache.BufferCache.FlushDevice | kernel/src/fs/block/mod.rs:110-118 | no disk changes; only dirty flags do, and the device has none left |
| BlockCache.BufferCache.Run | kernel/src/fs/block/mod.rs:81-118 | any run of reads, writes and flushes answers as the disks alone would and leaves the same disks |
| BlockCache.ReadReturns | kernel/src/fs/block/mod.rs:81-97 | a read succeeds exactly inside the device and answers the bytes on disk as far as the buffer goes, leaving the rest of it |
| BlockCache.LastWriteIsRead | kernel/src/fs/block/mod.rs:81-118 | in any run the byte on disk is the one last written to it |
| Nvme.NewQueueOk | kernel/src/fs/block/nvme.rs:249-272 | zeroed memory with both sides at slot 0 and phase 1 meets the invariant |
| Nvme.AcceptsExactlyWhen | kernel/src/fs/block/nvme.rs:103-120 | the host accepts the head entry exactly when a completion is waiting, and it is the oldest one: never a stale entry |
| Nvme.SubmitKeepsExactlyWhen | kernel/src/fs/block/nvme.rs:85-101 | submission keeps the queue invariant exactly when fewer than 63 commands are unfetched; the 64th makes the full ring look empty to the device |
| Nvme.FullRingExample | kernel/src/fs/block/nvme.rs:85-101 | such a queue: 63 commands submitted to a new queue and not fetched, and one more |
| Nvme.DeviceKeeps | kernel/src/fs/block/nvme.rs:84-126 | a device that fetches and completes in any order keeps it and touches nothing of the host |
| Nvme.ReapKeeps | kernel/src/fs/block/nvme.rs:103-115 | taking a completion keeps it |
| Nvme.Lockstep | kernel/src/fs/block/nvme.rs:103-115 | with all completions taken, host head and phase equal the device's tail and phase |
| Nvme.PairAnswersItself | kernel/src/fs/block/nvme.rs:187-213 | from a quiet queue a submit and a wait without timeout return the command's own completion and end quiet and in lockstep |
| Nvme.PairsStayInLockstep | kernel/src/fs/block/nvme.rs:84-126 | any number of such pairs, over any wraps: lockstep after each, the commands submitted are those given, and wait k takes the completion of command k |
| Nvme.TimesOutExactlyWhen | kernel/src/fs/block/nvme.rs:103-125 | a wait times out exactly when the device has posted nothing new by the last poll, and otherwise takes the oldest completion |
| Nvme.AnswersNewestExactlyWhen | kernel/src/fs/block/nvme.rs:103-125 | a wait answers the command just submitted, whatever the device does, exactly when nothing was outstanding before |
| Nvme.TimeoutExample | kernel/src/fs/block/nvme.rs:103-125 | from a new queue a wait that times out, after which the next command is answered by the first one's completion |
| Nvme.OlderMayAnswer | kernel/src/fs/block/nvme.rs:103-125 | with a command outstanding, a device behaviour whose completion for the older command is taken instead |
| Nvme.Queue.Submit | kernel/src/fs/block/nvme.rs:85-101 | the new state is the submit step and the id is the slot, room or not; the protocol invariant survives exactly with room |
| Nvme.Queue.WaitCompletion | kernel/src/fs/block/nvme.rs:103-125 | result and state equal the wait on values for any device activity between polls; timeouts and status codes are errors |
| Nvme.Queue.Transfer | kernel/src/fs/block/nvme.rs:187-213 | submit and wait in any state; from a quiet queue in order, it succeeds exactly when the device posted a completion by the last poll with status zero, got its own completion and left the queue quiet and in lockstep |
| Pipes.Pipe.WriteOnce | kernel/src/ipc/pipe.rs:47-59 | appends exactly the part of the data that fits |
| Pipes.Pipe.ReadOnce | kernel/src/ipc/pipe.rs:61-70 | delivers exactly the oldest bytes that fit and leaves the rest of the buffer alone |
| Pipes.Pipe.TryWrite | kernel/src/ipc/pipe.rs:133-150 | the lock section of write is the stream's write |
| Pipes.Pipe.TryRead | kernel/src/ipc/pipe.rs:168-182 | the lock section of read is the stream's read |
| Pipes.NoReaderNoBytes | kernel/src/ipc/pipe.rs:133-150 | in any run, once no reader is left and none is duplicated, every write is refused and no byte enters the pipe again |
| Pipes.DeliveredIsPrefix | kernel/src/ipc/pipe.rs:133-200 | for any readers and writers in any order, all bytes delivered are a prefix of all accepted, and the pipe holds the rest, at most 4096 |
| Pipes.EndOfFileExactlyWhen | kernel/src/ipc/pipe.rs:168-182 | a read with room returns nothing exactly when everything accepted was delivered and no writer is left, which in a run that closes only open ends is when every write end has been closed |
| Pipes.WriteMeans | kernel/src/ipc/pipe.rs:133-150 | a write is refused exactly without a reader, waits exactly on a full pipe, and otherwise appends all of the data or as much as fills the pipe |
| Pipes.ReadMeans | kernel/src/ipc/pipe.rs:168-182 | a read waits exactly on an empty pipe with a writer left, and otherwise takes the oldest bytes, as many as there are and fit |
| Pipes.RefsAreOpenEnds | kernel/src/ipc/pipe.rs:103-131 | over any run that closes only open ends, the references are those at the start and the duplicates, less the closes |
| Pipes.Pipe.Run | kernel/src/ipc/pipe.rs:47-200 | any run of lock sections on a new ring obeys both |
| TmpFs.StepKeepsForest | kernel/src/fs/tmpfs/mod.rs:73-311 | each lock section keeps the forest invariant, never reuses a number, keeps kinds, and removes an inode exactly by unlink |
| TmpFs.RunKeepsForest | kernel/src/fs/tmpfs/mod.rs:73-311 | every state of every interleaving of lock sections is a forest |
| TmpFs.OnePathEach | kernel/src/fs/tmpfs/mod.rs:127-163 | no inode has two path names |
| TmpFs.PathsGrow | kernel/src/fs/tmpfs/mod.rs:127-163 | a path leads to a live inode and numbers grow along it, so there are no cycles |
| TmpFs.LinkMeans | kernel/src/fs/tmpfs/mod.rs:152-162 | each error of a link exactly when: no directory, not a directory, name taken; else exactly that entry is new and no inode's contents change |
| TmpFs.UnlinkMeans | kernel/src/fs/tmpfs/mod.rs:169-192 | each error of an unlink exactly when: no directory, not a directory, no such name, a directory with entries; else exactly that entry and its inode are gone |
| TmpFs.WriteMeans | kernel/src/fs/tmpfs/mod.rs:216-232 | a write to a regular file, and to nothing else, puts its bytes in place, zeros before them where the file ended, and keeps every other byte and inode |
| TmpFs.TruncateMeans | kernel/src/fs/tmpfs/mod.rs:300-311 | a truncation of a regular file, and of nothing else, keeps the bytes up to the size and fills with zeros behind the old end |
| TmpFs.LastWriteIsRead | kernel/src/fs/tmpfs/mod.rs:194-311 | in every interleaving a byte of a file is the one written last, unless a truncation cuts it off or the file is removed |
| TmpFs.NameStays | kernel/src/fs/tmpfs/mod.rs:139-192 | in every interleaving a linked name leads to its inode until that name is unlinked |
| TmpFs.GenerationCounts | kernel/src/fs/tmpfs/mod.rs:139-311 | the generation of an inode goes up by one for every operation that changes its entries or bytes, and for no other |
| TmpFs.GoneExactlyWhen | kernel/src/fs/tmpfs/mod.rs:284-298 | a created inode is missing later, where symlink expects it, exactly when an unlink in between removed it |
| TmpFs.SymlinkRaceExample | kernel/src/fs/tmpfs/mod.rs:284-298 | a run in which another caller unlinks the new symbolic link before its target is set |
| TmpFs.CreateKeepsForestExactlyWhen | kernel/src/fs/tmpfs/mod.rs:139-163 | create keeps the forest for every directory number but the next inode's own when making a directory |
| TmpFs.CreateInItselfExample | kernel/src/fs/tmpfs/mod.rs:139-163 | that case on a new file system: a directory that is its own child |
| TmpFs.ReadAfterWrite | kernel/src/fs/tmpfs/mod.rs:194-232 | a read after a write returns the written bytes, the old ones around them and zeros in a gap |
| TmpFs.ReadBack | kernel/src/fs/tmpfs/mod.rs:194-232 | reading the written range returns the written bytes |
| TmpFs.FileSystem.constructor | kernel/src/fs/tmpfs/mod.rs:31-57 | a root directory and nothing else, which is a forest |
| TmpFs.AllocKeeps | kernel/src/fs/tmpfs/mod.rs:73-99 | taking a number for a new inode keeps the forest |
| TmpFs.LinkKeeps | kernel/src/fs/tmpfs/mod.rs:152-162 | entering a new inode under a lower-numbered directory, or failing to, keeps the forest |
| TmpFs.FileSystem.Create | kernel/src/fs/tmpfs/mod.rs:139-163 | exact state and error of create, failed creates included, and the forest for known directories; on success the name leads to a new empty inode of the kind asked for |
| TmpFs.FileSystem.Remove | kernel/src/fs/tmpfs/mod.rs:169-192 | exact state and error of unlink; on success the name is gone; the forest keeps |
| TmpFs.FileSystem.ReadAt | kernel/src/fs/tmpfs/mod.rs:194-214 | exact bytes, count and errors of read; the rest of the buffer stays |
| TmpFs.FileSystem.WriteAt | kernel/src/fs/tmpfs/mod.rs:216-232 | exact state and errors of write; on success exactly on a regular file, each byte given is at its place; size is the stored length and the forest keeps |
| TmpFs.FileSystem.SetSize | kernel/src/fs/tmpfs/mod.rs:300-311 | exact state and errors of truncate; the forest keeps |
| TmpFs.FileSystem.MakeSymlink | kernel/src/fs/tmpfs/mod.rs:284-298 | undisturbed, the new link is found and holds the target; the forest keeps |
| Ipv4.FoldStep | kernel/src/net/ipv4.rs:32-34 | one carry fold keeps the ones-complement value and shrinks the sum |
| Ipv4.Checksum | kernel/src/net/ipv4.rs:22-36 | the loops compute the complement of the word sum modulo 65535 |
| Ipv4.ShortEnough | kernel/src/net/ipv4.rs:22-31 | messages of up to 131074 bytes do not overflow the 32-bit sum |
| Ipv4.VerifiesExactlyWhen | kernel/src/net/ipv4.rs:22-36 | a value stored in a zeroed aligned 16-bit field makes the message check to zero exactly when it is the checksum, or 0xFFFF for 0 |
| Ipv4.BuiltVerifies | kernel/src/net/ipv4.rs:73-91 | the header build writes checks to zero |
| Ipv4.Build | kernel/src/net/ipv4.rs:73-91 | header and payload are in place, the header checks to zero, later bytes stay |
| Ipv4.ParseOfValidExactlyWhen | kernel/src/net/ipv4.rs:38-71 | parse accepts a header that verifies exactly when its checksum field is zero |
| Ipv4.ParseOfBuiltExactlyWhen | kernel/src/net/ipv4.rs:38-91 | parse accepts what build wrote exactly when the header sum is a multiple of 65535, and then returns the values put in |
| Ipv4.ParseRejectsBuiltExample | kernel/src/net/ipv4.rs:38-91 | a datagram from 10.0.0.1 to 10.0.0.2 that build writes and parse rejects |

## Left out

- Huge pages, the kernel's own mappings from the boot loader, TLB flushes and spin locks: operations are atomic, and tables start empty.
- Page contents in the fault path: a demand-paged frame is zeroed, which only the ELF model tracks.
- VmRuns.Run: addresses of mmap are page-aligned, as FirstPageAgreesExactlyWhen needs, and no area end passes 2^64; the code checks neither.
- ElfLoader.Loader.MapSegment: segments whose sums pass 2^64 are excluded; the code does not look, and there the sums would wrap.
- FrameBitmaps.FrameBitmap.Set: words are 64 booleans instead of a 64-bit integer; shifts and masks are written out on them.
- Buddy.BuddyAllocator.Alloc: the node-by-order table of list heads is one row-major sequence.
- FrameAllocators.FrameAllocator.FreeFrame: only single frames, since no larger block is ever handed out.
- The comment that orders 1 to 10 come from the buddy lists disagrees with the code, which never adds a region; the model follows the code.
- AddressSpaces.AddressSpace.ResolveFault: copy-on-write entries do not occur without fork, so that branch is not followed into break_cow.
- Copy-on-write fork and shared memory: break_cow remaps with map_page, which refuses a present entry.
- VmFaults.ReturnedFaultPassesExactlyWhen: a kernel access is held to the writable bit as under CR0.WP, and supervisor-mode access protection is not modelled.
- The file_offset, shared and populated fields of areas, and the area kinds beyond those mmap makes.
- The areas recorded by the ELF loader: a failed area insertion is ignored there, and the page table alone decides what is loaded.
- ElfLoader.Loader.MapSegments: header validation, the program-header copy, interpreter loading and relocation are not modelled; the headers are read at the offsets given.
- RunQueues.WaitBound: the queue is an ordered sequence here; with more than two threads the tree of the code is that queue only as far as TreeQueues.CfsRunQueue.Enqueue and Dequeue say.
- RunQueues.RunKeepsWindow: the same.
- RunQueues.StepKeepsWindow: the same.
- RunQueues.EnqueueFair: the same.
- RunQueues.RoundStepIsRound: the same.
- RunQueues.RemoveFair: a thread enqueued twice is removed by its first entry, where the code removes its last node; the run theorems exclude double enqueueing.
- TreeQueues.CfsRunQueue.Enqueue: requires that the thread is not in the tree; enqueueing it again would leave a node nothing refers to.
- TreeQueues.CfsRunQueue.Dequeue: the threads whose entries a removal loses stay marked as queued, which is not followed further.
- Priority boosts and work stealing beyond the boosted-key condition.
- RbFix.InsertRun: says nothing of insertions after a rotation has left the links in disagreement, beyond the run of FourEnqueuesCrash.
- RbArena.RedBlackTree.Insert: that the tree stays balanced is about one insertion into a well-linked tree; after a rotation the links are wrong and the next insertion is not covered.
- SlabRuns.ObjectsAreConserved: blocks that a reallocation in place moves to a smaller class are counted as shifted, for the object they leave behind is not put to any use.
- RbArena.RedBlackTree.Remove: the tree is well linked and a node in use is in it; removal where an insertion has left a wrong parent link, or of a node that was lost, is not modelled.
- Rtc.UnixRoundTrip: seconds outside years 0 to 65535, where the year is cut to 16 bits; reading the clock chip and its BCD decoding.
- BlockCache.BufferCache.ReadBlock: each device id names its own disk; one disk behind two ids would not be coherent.
- Nvme.Queue.Transfer: controller set-up and the data buffer are not modelled.
- Pipes.Pipe.TryRead: blocking and wake-up are outside; a blocked caller repeats its lock section.
- TmpFs.FileSystem.Create: modes, link counts and device numbers of inodes, and directory listing.
- Ipv4.Checksum: assumes a sum below 2^32, as ShortEnough gives for up to 131074 bytes.
- TCP, path resolution and the dentry cache, ext2 and FAT32, futexes, message queues, sockets and descriptor tables.
- NIC, AHCI, ACPI, APIC, SMP and other device code, the user interface and the network clients.
