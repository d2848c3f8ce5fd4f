# The kernel's memory subsystem, modelled and proved in Dafny

This project models the part of the kernel that owns memory, and the small state machines around it, and
proves what they keep. Each module is named after what it models; a module's opening comment says what it
holds.

* **Physical page allocator.** `PageEntry` is the 64-bit free-list entry, `Ring` and `RingQueue` the
  ring-buffer deque (as a value, and as the object whose slots and indices are updated in place), `RingSort`
  the in-place quicksort of a window that may wrap, `Compaction` the merge of neighbours, and
  `PageAllocator` the allocator object. `AllocatorSpec` says in functions and relations what one call does,
  `FirstFit` what an allocation pass finds, `Neighbours` that compaction merges all it can,
  `Ownership` and `Conservation` what holds in every state of every run of the allocator with any number of clients.
  `PageZero` is a run that ends with two clients holding page 0.
* **Ring queue between two threads.** `SpscQueue` breaks `queue_tryenqueue` and `queue_trydequeue` into
  their single loads and stores and reasons about every interleaving.
* **Page-table manager.** `Paging` has tables as frames in a map from frame to 512 entries, the tree they
  form, a walk along the pointers, and the flat map `Look` that the tree stands for. `MapEffects` is what one write
  does to the flat map, `PageTables` the arithmetic of page sizes and carries, `Holes` which addresses a call
  skips where a carry is not exact, `MapSteps` and `UnmapSteps` what the loops of mapping and unmapping keep,
  `UnmapStalls` unmapping turn by turn and the ranges on which it does not end, `MapTheorems` what a mapping call
  means for its caller, and `PageTableManager` the object with the recursive calls. `AccessRights` is what may be
  done at a mapped address, `LiveTable` the live table of one core and what saving it leaves of the spaces,
  `VirtualMemory` the object with the address spaces it switches between, and the windows onto physical memory.
* **Around them.** `BootMap` trims the firmware's memory map and feeds the allocator, `BootFreeList` follows
  it to the final free list, `ApStartup` is the start-up handshake of the other cores, `Madt` the four walks
  over the interrupt-controller table, `Vectors` the interrupt-vector allocator, `Numerals` formatting and
  parsing of numbers.

A method that stands for a C function has that function's branches in that order, and its `ensures` ties the
new state to a function or relation of the old one; the lemmas then prove what the source promises about
those functions and relations. `exact` in the allocator's relations marks outcomes in which every compaction
merged a prefix of the queue.

## Where the code differs from what it says, or from what one would expect

* `compact_queue` clears the slot it merged away but always moves `head` (kernel/src/memory/phys_mem.c:111-117).
  If the merges are not a prefix of the queue, a zero word, which decodes as page 0, stays in the queue, and an
  entry that was not merged is dropped: on disjoint entries without page 0 some other page is forgotten
  (`Compaction.GapForgetsAPage`; `Compaction.CompactionCanLoseAPage` is such a queue).
  `Compaction.CompactionIsExactIffPrefix` says exactly when the free pages are kept, and `Ownership` shows that
  no page but page 0 is ever with two clients at once because of it; `PageZero.PageZeroHeldTwice` is a run that
  ends with page 0 at two clients.
* The window of a compaction is the whole ring when the queue is empty: entries that an earlier compaction dropped are
  then listed again, and the counter goes below zero (`Neighbours.StaleEntriesReturn`). The last entry of the sorted
  window is never merged (`Neighbours.CompactionMergesAll`).
* The comment at kernel/src/memory/phys_mem.c:85 promises recursion into the smaller part; the code recurses
  into the larger one. The model does the same, and only termination is claimed.
* `vmem_map_st` takes the page size from the size alone, and what it adds after a table ran off its end (the
  carry) reaches the next slot only if the address is a multiple of what a slot one level down covers
  (`PageTables.CarryIsExactIffAligned`). Otherwise the call resumes behind the start of the next slot and leaves a
  hole there. `PageTableManager.Manager.MapSt` is proved without asking for aligned carries: from its start to
  where it stops it maps exactly the addresses that are not holes. So a call that succeeds on a free range maps
  what it was asked to if and only if its start is a multiple of the page size and every carry is exact
  (`MapTheorems.MapRefinesFlatMapIff`); `MapTheorems.MisalignedCarryFails` is a call on which it does not, although
  it reports success.
* A range that ends in a hole makes the 64-bit size of `vmem_map_st` wrap. The call then runs on behind its range
  and never reports success: one that finds room and returns has gone on behind the end of its range if and only
  if the range ends in a hole (`MapTheorems.MapOverrunsIff`), and on a space that is free up to its end it then
  maps all the rest of it that is in no hole (`MapTheorems.MapLeavesRangeIff`). `MapTheorems.WrappedSizeMapsOn` is such a call, for
  8KiB. A range that does not end in a hole is never left (`MapTheorems.MapStaysInRange`).
* `vmem_map_st` takes a large page at physical address 0 for an absent table. A call that maps an address under
  such a page takes away the translation of every other address of the page (`MapTheorems.ZeroPageIsLost`).
  `vmem_init` makes three such pages: `VirtualMemory.AddressSpaces.WindowLosesItsFirstPage` maps 4KiB at the start
  of a window after it, and all other addresses of the first 1GiB, or 2MiB, of the window are lost.
* `vmem_unmap_st` does not go on into the next table: the loop over pages clears slots round the table it started
  in (`UnmapStalls.LeafLoopClears`). Mapping whole pages, fewer than one table of them, and unmapping them restores
  every translation if and only if the range lies in one table and no page at physical 0 was in its way
  (`UnmapSteps.UnmapRestoresIff`); `UnmapSteps.CrossingUnmapFails` is a range in two tables, on which the unmapping
  reports success, leaves a page of the range mapped and unmaps another page.
* `vmem_unmap_st` asks `vmem_phystovirt` for the frame of every slot it meets, also of one that holds a page. So a
  page at or above 256GiB can be mapped, and unmapping it panics: with the tables in sight, what was mapped inside
  one table is unmapped without a panic if and only if `vmem_phystovirt` shows its last page (`MapTheorems.InSightIffLast`,
  `PageTableManager.Manager.MapThenUnmap`).
* `vmem_unmap_st` on a range with a whole slot that points at a table comes back to the same slot, address and size
  after the recursive call, and never reports success (`UnmapStalls.UnmapNeverSucceeds`, and from the root
  `UnmapStalls.StallsFromRoot`). `VirtualMemory.AddressSpaces.UnmapAroundPage` is a call: the two megabytes around a
  page of 4KiB. So no mapping of a table of pages or more can be unmapped by a call for the same range
  (`MapTheorems.LongMapStalls`).
* `vmem_savestate` copies the live table over the spaces, and a mapping made directly into the active space does not
  reach the lower half of the live table. A save takes away every translation below the root slots that the live
  table lacks, loses the frames of the tables there, and changes nothing else (`LiveTable.SavedTranslations`). So
  after a mapping into the active space and the next save a mapped address still has its translation if and only if
  its root slot was in use before (`VirtualMemory.ActiveMapSurvivesIffSlotInUse`), and in a new space that has been
  made active the whole mapping is lost (`VirtualMemory.AddressSpaces.FreshSpaceLosesItsMap`). Every operation of
  `VirtualMemory` is proved also from states in which the live table lags behind like this.
* `pmem_init` rounds the length of an entry down and its start up separately; the pages freed are those wholly
  inside the entry if and only if the two offsets make up a page or one of them is harmless
  (`BootMap.FreedIsWholeIffRoundsWell`). For a map of disjoint entries boot frees exactly the whole pages above the
  kernel if and only if this holds of every kept entry (`BootMap.BootFreesWholePagesIff`, and for the final free list
  `BootFreeList.Boot`); on `BootMap.MisroundedEntry`, 0x1000 bytes from 0x200001 on, it frees page 0x201, which is
  not inside. The map it reads has as many entries as the firmware's, not as many as
  were kept (kernel/src/boot_info.c:111), so it ends in zeroed entries; `BootFreeList` accounts for them.
* `pmem_init` keeps the page count of the memory in an `int32_t`: from 8TiB on, up to 16TiB, it is negative, and the
  ring has at most one slot (`BootFreeList.RingSizeMeaning`).
* `atoi` returns the low 28 bits of the value, signed, so it reads back what `itoa` wrote in base 16 if and only
  if the number fits 28 signed bits (`Numerals.HexRoundTripIff28Bits`).
* The IO APIC of an interrupt override is chosen by comparing a distance in interrupts with an index. Where each
  IO APIC serves at least as many interrupts as there are IO APICs, in whatever order the table lists them, the
  one that serves the interrupt is chosen if and only if it is the first or the interrupt is its very first one (`Madt.ServingIsChosenIff`); with IO APICs at
  0 and 24, interrupt 30 goes to the first (`Madt.WrongIoApicChosen`).

## Model

| member | source | states |
|---|---|---|
| PageEntry.EntryRoundTrip | kernel/src/memory/phys_mem.c:32-37 | an entry decodes to the page and run length it was built from, for every 44-bit page and every run up to 2^20 pages, and covers exactly those pages |
| PageEntry.EntryCanonical | kernel/src/memory/phys_mem.c:32-37 | every 64-bit word is the encoding of what it decodes to, so no two words name the same run |
| PageEntry.RoundUpMeaning | kernel/src/memory/phys_mem.c:56-58 | rounding up gives the next page boundary, and wraps to 0 for addresses inside the last page of the address space |
| PageEntry.XorCancels | kernel/src/memory/phys_mem.c:76-78 | the identity the three XOR assignments rest on |
| RingSort.WrapIsRemainder | kernel/src/memory/phys_mem.c:62 | the slot index of a ring position is its remainder by the ring size, as the code computes it, for every position less than two turns |
| RingQueue.Queue.Init | common/src/stdqueue.c:12-27 | with memory for the slots an empty ring of the requested size, usable if and only if that is not 0; without, the queue has no slots any more and its other fields are as before |
| RingQueue.Queue.TryEnqueue | common/src/stdqueue.c:51-64 | appends at the back of the ring's value; refused exactly when one slot is left, and then changes nothing |
| RingQueue.Queue.TryEnqueueFront | common/src/stdqueue.c:66-85 | puts a value in front, whether or not head wraps; refused exactly when one slot is left |
| RingQueue.Queue.TryDequeue | common/src/stdqueue.c:87-102 | returns the first live value and turns its slot into a cleared dead one; refused exactly when none is live |
| RingQueue.Queue.EntCnt | common/src/stdqueue.c:44-49 | the separately kept counter |
| RingQueue.RingEnqueued | common/src/stdqueue.c:55-61 | writing the slot at tail and stepping tail is appending, for every head and tail including wrapped ones |
| RingQueue.RingEnqueuedFront | common/src/stdqueue.c:70-82 | stepping head back and writing its slot is prepending |
| RingQueue.RingDequeued | common/src/stdqueue.c:91-99 | reading and clearing the slot at head and stepping head is taking the first value |
| RingSort.XorSwap | kernel/src/memory/phys_mem.c:76-78 | exchanges two distinct ring positions and touches no other slot |
| RingSort.ScanDown | kernel/src/memory/phys_mem.c:66-68 | stops at the first position from above with an address at most the pivot, without leaving the window |
| RingSort.ScanUp | kernel/src/memory/phys_mem.c:69-71 | stops at the first position from below with an address at least the pivot, without leaving the window |
| RingSort.Partition | kernel/src/memory/phys_mem.c:59-80 | returns lo <= p < hi; rearranges only the window, with everything up to p at most the pivot and everything behind at least the pivot |
| RingSort.Quicksort | kernel/src/memory/phys_mem.c:81-94 | terminates with the window, wrapped or not, sorted by page address, a permutation of its old contents, and every other slot unchanged |
| RingSort.ProgressStep | kernel/src/memory/phys_mem.c:82-93 | one round of the loop keeps everything outside the remaining window in its final place, whichever half was recursed into |
| Compaction.MergedCovers | kernel/src/memory/phys_mem.c:104-113 | a merged entry covers exactly the pages of the two, which were disjoint |
| Compaction.MergeKeepsCover | kernel/src/memory/phys_mem.c:104-118 | the merge loop keeps how often each page is covered, plus one covering of page 0 for each merge |
| Compaction.CompactKeepsCover | kernel/src/memory/phys_mem.c:96-119 | over live and dead slots together, compaction keeps how often every page other than 0 is covered |
| Compaction.PrefixMergeIsExact | kernel/src/memory/phys_mem.c:96-119 | when the merges form a prefix, the live entries cover each page as often as before, the page total is kept and dead slots stay clear |
| Compaction.GapFreesPageZero | kernel/src/memory/phys_mem.c:111-117 | when they do not, page 0 is offered as free |
| Compaction.CompactionIsExactIffPrefix | kernel/src/memory/phys_mem.c:96-119 | on a non-empty queue without page 0, the set of free pages is kept if and only if the merge positions form a prefix |
| Compaction.CompactionContained | kernel/src/memory/phys_mem.c:96-119 | in every case nothing but page 0 becomes free |
| Compaction.GapForgetsAPage | kernel/src/memory/phys_mem.c:96-119 | on disjoint entries without page 0, merges that are no prefix make compaction forget some page other than 0 |
| Compaction.CompactionCanLoseAPage | kernel/src/memory/phys_mem.c:111-117 | a queue of four pages on which compaction forgets a page and offers page 0 |
| Neighbours.CompactionMergesAll | kernel/src/memory/phys_mem.c:96-119 | compacting a queue that is not empty leaves, in the sorted window before its last entry, no two entries with only cleared ones between them of which one ends where the other begins and that have less than 2^20 pages together; the entry with the greatest address stays, and the head has moved by the number of cleared ones |
| Neighbours.StaleEntriesReturn | kernel/src/memory/phys_mem.c:96-119 | compacting an empty queue with the single pages 10, 11 and 40 in its dead slots lists pages 10 and 11 as one entry and page 40, with a counter of -1 |
| PageAllocator.CompactedRing | kernel/src/memory/phys_mem.c:104-118 | slots holding the merged window, with head moved once per merge, are the compacted ring, also when the window wraps or is the whole ring |
| PageAllocator.Allocator.MergeNeighbours | kernel/src/memory/phys_mem.c:104-118 | the in-place loop performs exactly the merges of the specification and moves head and the counter once per merge |
| PageAllocator.Allocator.CompactQueue | kernel/src/memory/phys_mem.c:96-119 | the new ring is a sorting of the window followed by its merges; on an empty queue the window is the whole ring |
| PageAllocator.Allocator.InsertQueue | kernel/src/memory/phys_mem.c:121-128 | appends, compacting first exactly when the ring is full; fails (panics) only on a full ring that was compacted and is still full, and leaves it so |
| PageAllocator.Allocator.InsertQueueFront | kernel/src/memory/phys_mem.c:130-137 | the same at the front |
| PageAllocator.Allocator.Free | kernel/src/memory/phys_mem.c:139-172 | refuses misaligned ranges without effect, otherwise inserts the chunks of the range in order and adds its size to the counter; an aligned range fails only where the ring jams at one of its chunks |
| PageAllocator.Allocator.Pass | kernel/src/memory/phys_mem.c:195-236 | one pass of the loop has the outcome of the specified scan and charges the counter exactly on success |
| PageAllocator.Allocator.Alloc | kernel/src/memory/phys_mem.c:174-241 | at most two passes, each failed one followed by a compaction |
| AllocatorSpec.ChunksTile | kernel/src/memory/phys_mem.c:161-171 | the chunks of a range below 2^56 cover each of its pages once and no other page, and their counts add up to it |
| AllocatorSpec.ChunkCount | kernel/src/memory/phys_mem.c:161-171 | a range makes one entry for each 2^20 pages and one for the rest |
| AllocatorSpec.RoomIsExact | kernel/src/memory/phys_mem.c:161-171 | with more dead slots than entries to insert nothing is compacted, and each takes one dead slot |
| AllocatorSpec.RoomNeverJams | kernel/src/memory/phys_mem.c:121-128 | such a ring does not jam, so the free goes through |
| FirstFit.NoCompactionInsideAPass | kernel/src/memory/phys_mem.c:198-235 | after a dequeue an insert of either kind never compacts |
| FirstFit.PassIsFirstFit | kernel/src/memory/phys_mem.c:195-236 | a pass succeeds exactly when some run is long enough, takes the first such run at its base, leaves remainder, later and earlier entries in that order; a failed pass leaves the queue as it was |
| FirstFit.AllocTakesFirstFit | kernel/src/memory/phys_mem.c:189-241 | an allocation returns the base of the first fit of the queue it finds, if there is one |
| FirstFit.AllocTriesTwice | kernel/src/memory/phys_mem.c:194-240 | when nothing fits in a queue that is not empty, the same queue is compacted; the outcome and the final queue are then the first fit of the compacted queue, or a failure and one more compaction of it |
| FirstFit.AllocOnEmpty | kernel/src/memory/phys_mem.c:194-240 | on an empty queue the allocation compacts twice and fails, and a queue of clear slots stays as it was |
| Neighbours.AllocGainsRun | kernel/src/memory/phys_mem.c:189-241 | an allocation that fits no entry succeeds if it fits a run of neighbours of the sorted queue, of less than 2^20 pages and not with the last entry, and no more entries touch the next one than come before the end of the run |
| Neighbours.ExampleAllocation | kernel/src/memory/phys_mem.c:189-241 | with pages 10 and 11, 12, 40 and 50 free as four entries, 0x3000 bytes are allocated at 0xA000 |
| AllocatorSpec.PagesCoverSize | kernel/src/memory/phys_mem.c:190-191 | an allocation takes the fewest pages that hold its size, and none for a size inside the last page of the address space |
| Ownership.AllocCover | kernel/src/memory/phys_mem.c:189-241 | an allocation takes out of the slots at least the pages it returns, lossy compactions included, and never finds the ring empty |
| Ownership.FreeCover | kernel/src/memory/phys_mem.c:139-172 | a free adds at most one covering, and only to pages of its range |
| Ownership.StepSafe | kernel/src/memory/phys_mem.c:96-241 | every call keeps: each page other than 0 is in at most one slot or with at most one holder |
| Ownership.RunSafe | kernel/src/memory/phys_mem.c:96-241 | that invariant holds in every state of every run whose clients free only what they hold |
| Ownership.NoDoubleHandOut | kernel/src/memory/phys_mem.c:174-241 | in every run two clients never hold the same page other than page 0 |
| Ownership.AllocHandsOutFreshPages | kernel/src/memory/phys_mem.c:174-241 | in every run an allocation returns only pages nobody holds and no slot lists afterwards, and never panics for lack of entries |
| PageZero.PageZeroHeldTwice | kernel/src/memory/phys_mem.c:96-241 | from five donated pages, 20 and 21 the only neighbours, a run with two compactions in it ends with page 0 at two clients |
| Conservation.AllocLive | kernel/src/memory/phys_mem.c:189-241 | with exact compactions an allocation removes exactly the pages it returns, and nothing if it fails |
| Conservation.FreeLive | kernel/src/memory/phys_mem.c:139-172 | with exact compactions a free adds exactly the pages of its range |
| Conservation.TotalFits | kernel/src/memory/phys_mem.c:148 | disjoint entries hold at most 2^44 pages, so the 64-bit counter of free memory cannot wrap |
| Conservation.StepConserves | kernel/src/memory/phys_mem.c:139-241 | every call keeps: a donated page is free or held, exactly one of the two and once, and the counter is the page size times the pages free |
| Conservation.RunConserves | kernel/src/memory/phys_mem.c:139-241 | along every run with exact compactions free and held pages partition the pages ever donated, entries are disjoint and `free_mem` is their size |
| SpscQueue.ProducerKeepsInv | common/src/stdqueue.c:51-64 | every single load and store of the enqueueing thread keeps the invariant, and only the tail store changes the content, by appending |
| SpscQueue.ConsumerKeepsInv | common/src/stdqueue.c:87-102 | every single load and store of the dequeueing thread keeps it, and only the head store changes the content, by taking the value that was read |
| SpscQueue.Fifo | common/src/stdqueue.c:51-102 | in every interleaving the returned values are a prefix of those given to the enqueue calls that have stored tail, in order, and at most size-1 are in between |
| SpscQueue.PublishedIsGiven | common/src/stdqueue.c:51-64 | the values published by then are, in order, the arguments of the calls that have stored tail |
| SpscQueue.ReleasedSlotIsClear | common/src/stdqueue.c:96-99 | the slot whose value was taken is cleared when head is stored |
| SpscQueue.NoSlotConflict | common/src/stdqueue.c:59-96 | the slot about to be written or published is never the one being read, cleared or released |
| SpscQueue.AnswersAreTrue | common/src/stdqueue.c:56-93 | a call answers full, or empty, exactly if that is so at its deciding load |
| SpscQueue.CounterLag | common/inc/stdqueue.h:12-18 | the counter differs from the number of values only by operations between publishing and counting |
| MapEffects.LeafMapsItsBlock | kernel/src/memory/virt_mem.c:224-227 | a leaf written to a free slot maps exactly its block, keeps the tables a tree and changes no other translation of any space |
| MapEffects.HangMapsNothing | kernel/src/memory/virt_mem.c:239-246 | hanging a cleared table maps nothing; in a free slot it changes no translation, over a page at physical 0 it takes away exactly the translations of that page |
| MapEffects.OverlayThen | kernel/src/memory/virt_mem.c:188-271 | two mappings one after the other amount to one that maps what both map |
| PageTables.LeafKept | kernel/src/memory/virt_mem.c:195 | taking whole pages off the size keeps the page size that the call and all its recursive calls use |
| PageTables.PageSizeChosen | kernel/src/memory/virt_mem.c:67-106 | a call maps with pages of 1GiB if the processor has them and they divide the size, else of 2MiB if they do, else of 4KiB |
| PageTables.CarryIsExactIffAligned | kernel/src/memory/virt_mem.c:257-262 | the carry reaches the next slot if and only if the address is a multiple of what a slot one level down covers; otherwise it overshoots by the remainder |
| Holes.CarryToNext | kernel/src/memory/virt_mem.c:257-262 | the carry moves the address as far behind the start of the next slot as the range starts behind the start of a slot one level down |
| Holes.NextSlotSkips | kernel/src/memory/virt_mem.c:257-262 | the addresses between the start of that slot and where the call resumes are holes, and a range that ends there makes the size wrap |
| Holes.HoleShift | kernel/src/memory/virt_mem.c:253-262 | from there on the holes are those of the recursive call alone |
| Holes.NoHolesIffCarryOk | kernel/src/memory/virt_mem.c:257-262 | a range has no holes if and only if every crossing of a table starts aligned to what a slot one level down covers |
| MapSteps.LeafLoopStores | kernel/src/memory/virt_mem.c:220-233 | writing one page extends the mapped part by its size and leaves the rest |
| MapSteps.InnerDescends | kernel/src/memory/virt_mem.c:251-253 | the recursive call is made on the table below the slot with what that call relies on |
| MapSteps.InnerCarries | kernel/src/memory/virt_mem.c:257-266 | after a table ran off its end the loop stands where the call resumes in the next slot, with the size that is left or that has wrapped |
| MapSteps.UseReturns | kernel/src/memory/virt_mem.c:237-255 | the frames taken by a call are no more than the tables that the addresses it has been at need, at all levels |
| PageTableManager.Manager.constructor | kernel/src/memory/virt_mem.c:123-127 | a kernel table that maps nothing, and the frames to come |
| PageTableManager.Manager.MapLeaves | kernel/src/memory/virt_mem.c:195-234 | maps a prefix of the range and nothing else; stops at its end, at the table's end or at the first address that is taken |
| PageTableManager.Manager.AllocPage | kernel/src/memory/virt_mem.c:240 | takes the next free frame, distinct from every table |
| PageTableManager.Manager.EnsureTable | kernel/src/memory/virt_mem.c:237-246 | gives the table below a slot, hanging a new one only where the slot names none; none only if no frame is left or vmem_phystovirt does not show the new one, and then no table has changed |
| PageTableManager.Manager.MapSlot | kernel/src/memory/virt_mem.c:237-255 | one turn of the descending loop ends the call, or leaves the loop in the next slot |
| PageTableManager.Manager.MapSt | kernel/src/memory/virt_mem.c:188-271 | from the start of the range up to where it stops, exactly the addresses that are not holes are newly mapped, to the physical range, with pages of the chosen size and the bits asked for; success means the whole range, an existing mapping means the next address was not free, a call to go on means the end of the table, and a panic, as long as vmem_phystovirt shows all tables and frames, means that no frame is left and that there were fewer than the tables needed |
| PageTableManager.Manager.UnmapSt | kernel/src/memory/virt_mem.c:273-315 | for whole pages, fewer than one table of them, from any address in the first: if the table of the start is there, exactly the slots round that table are no longer translated, up to the first that names a frame out of sight, on which it panics; without the table nothing changes, with the error the entry above calls for; the outcome is that of some number of turns of UnmapStalls.Unmap |
| PageTableManager.Manager.MapThenUnmap | kernel/src/memory/virt_mem.c:188-315 | given frames for its tables, in sight, the mapping of whole pages, fewer than one table of them, from any address in the first, goes through exactly if the code finds room for the whole range; if the unmapping goes through too, every translation of every space is restored if and only if the range lies in one table and no page at physical 0 was in the way; in one table it goes through if and only if its last page is in sight |
| MapTheorems.MapRefinesFlatMapIff | kernel/src/memory/virt_mem.c:188-271 | after success on a free range virt+k translates to phys+k for the whole range, if and only if virt is a multiple of the page size chosen and every carry of the range is exact |
| MapTheorems.MapInBytes | kernel/src/memory/virt_mem.c:188-271 | the same in bytes: with P the page size of 1GiB, 2MiB or 4KiB that the size gives, the range from virt rounded down to P is mapped to the physical range but for holes, and virt+k to phys+k if and only if virt is a multiple of P and every carry is exact |
| MapTheorems.MisalignedCarryFails | kernel/src/memory/virt_mem.c:257-262 | 0x401000 bytes from 0x3ffff000 on: the call succeeds and leaves the two megabytes less a page from 1GiB on untranslated |
| MapTheorems.MapStaysInRange | kernel/src/memory/virt_mem.c:188-271 | a call whose range does not end in a hole maps nothing outside it |
| MapTheorems.MapOverrunsIff | kernel/src/memory/virt_mem.c:257-266 | a call that finds room in its range and returns goes on behind the end of the range if and only if the range ends in a hole |
| MapTheorems.MapLeavesRangeIff | kernel/src/memory/virt_mem.c:257-266 | with room up to the end of the space, a call that returns has mapped an address outside its range if and only if the range ends in a hole, and then it has gone on to the end of the space |
| MapTheorems.WrappedSizeMapsOn | kernel/src/memory/virt_mem.c:257-266 | 0x2000 bytes from 0x3ffff000 on, in either half of a free space: the call runs on and maps the last page of the half |
| MapTheorems.MapLeavesTheRest | kernel/src/memory/virt_mem.c:188-271 | if no page at physical 0 is in the way of a mapped address, every address that is not mapped, in every space, translates as before |
| MapTheorems.MapSucceedsIff | kernel/src/memory/virt_mem.c:220-270 | unless frames run out a call succeeds if and only if its range lies in the 48-bit space, does not end in a hole, and the code finds room at every address of it that is not in one |
| MapTheorems.FramesSuffice | kernel/src/memory/virt_mem.c:237-253 | a call whose range does not end in a hole, with a frame for every table the range needs, does not run out of frames, and so does not panic if vmem_phystovirt shows them and the tables there are |
| MapTheorems.FramesInBytes | kernel/src/memory/virt_mem.c:237-253 | with a frame for each 512GiB the range touches, for each 1GiB with smaller pages, and for each 2MiB with pages of 4KiB, all in sight, a call whose range does not end in a hole does not panic |
| MapTheorems.InSightIffLast | kernel/src/memory/virt_mem.c:279-283 | after mapping a range inside one table, every slot that unmapping it looks at names a frame that vmem_phystovirt shows if and only if the last one does |
| MapTheorems.LongMapStalls | kernel/src/memory/virt_mem.c:188-315 | what a call with a size of a table of pages or more has mapped, wherever it starts, an unmapping of the same range from the root reports as done after no number of turns |
| MapTheorems.OneParentSlot | kernel/src/memory/virt_mem.c:239-246 | no frame is named as a table by two slots |
| MapTheorems.ZeroPageIsLost | kernel/src/memory/virt_mem.c:237-246 | a call that maps an address under a large page at physical 0 takes away the translation of every address of that page it does not map itself |
| AccessRights.PageDecides | kernel/src/memory/virt_mem.c:238-246 | the tables on the way to a page allow writing, executing and user mode, so the bits of the page decide |
| AccessRights.MapGrants | kernel/src/memory/virt_mem.c:195-218 | a mapped address may be written, executed and used in user mode exactly if the call was asked for that, and is cached as asked, by the attribute table of vmem_init |
| UnmapSteps.ClearUnmapsItsBlock | kernel/src/memory/virt_mem.c:285-288 | clearing a page's slot removes exactly the translations of its block |
| UnmapSteps.UnmapInner | kernel/src/memory/virt_mem.c:279-311 | above the leaf level the entry decides: panic over a frame out of sight, descend, panic under a larger page, or report no mapping |
| UnmapSteps.MappedIsUnmappable | kernel/src/memory/virt_mem.c:188-315 | a range of whole pages just mapped is in the state unmapping needs: no slot of it points at a table |
| UnmapSteps.UnmapUndoesMap | kernel/src/memory/virt_mem.c:188-315 | inside one table, clearing the range of a mapping restores the translation of every address of every space if no page at physical 0 was in the way |
| UnmapSteps.UnmapRestoresIff | kernel/src/memory/virt_mem.c:188-315 | for whole pages, fewer than one table of them, mapping and unmapping restores every translation of every space if and only if the range lies in one table and no page at physical 0 was in its way |
| UnmapSteps.NextNotRestored | kernel/src/memory/virt_mem.c:279-300 | behind the end of the first table the next page of the range stays mapped |
| UnmapSteps.ZeroPageNotRestored | kernel/src/memory/virt_mem.c:237-246 | a page at physical 0 in the way has lost the translation of an address outside the range |
| UnmapSteps.CrossingUnmapFails | kernel/src/memory/virt_mem.c:279-300 | 0x2000 bytes from 0x1ff000 on: unless it panics over a frame out of sight the unmapping reports success, leaves page 0x200000 mapped and takes away the translation of page 0 |
| UnmapSteps.MapNotThrough | kernel/src/memory/virt_mem.c:220-255 | a mapping that does not go through, of a range that neither ends in a hole nor leaves the space, has met something in the range, or lacked a frame for one of its tables, or had a table out of sight |
| UnmapStalls.LeafLoopClears | kernel/src/memory/virt_mem.c:279-300 | at the level of the pages the loop clears the slots (index + j) mod 512 of one table, for any number of pages in sight, and reports success |
| UnmapStalls.LoopComesBack | kernel/src/memory/virt_mem.c:289-297 | with a slot that points at a table and a size of at least a slot, the loop is back at the same slot, address and size after the recursive call, and never reports success |
| UnmapStalls.UnmapStaysBelow | kernel/src/memory/virt_mem.c:273-315 | a call on a table changes no table above it |
| UnmapStalls.UnmapNeverSucceeds | kernel/src/memory/virt_mem.c:273-315 | the same for any range that holds a whole slot, of the table it starts in, that points at a table |
| UnmapStalls.StallsFromRoot | kernel/src/memory/virt_mem.c:273-315 | from any table on the way, so from the root: a range of at least a slot whose start is in a slot that points at a table is never reported as unmapped |
| VirtualMemory.LiveReadsSaved | kernel/src/memory/virt_mem.c:459-462 | a walk from the live table reads the spaces as the next save will leave them, or panics over a table out of sight |
| VirtualMemory.WalkThroughWindowIsLook | kernel/src/memory/virt_mem.c:434-457 | the walk, which reads each table through vmem_phystovirt, panics if and only if it comes to a table out of sight, and otherwise reads the flat map |
| LiveTable.SavingIsIdle | kernel/src/memory/virt_mem.c:378-395 | saving changes nothing while the live table mirrors the spaces |
| LiveTable.SavedIsTree | kernel/src/memory/virt_mem.c:378-395 | saving keeps the tables in a tree, without the ones below the slots that the live table lacks, and then the live table mirrors the spaces |
| LiveTable.SavedTranslations | kernel/src/memory/virt_mem.c:378-395 | saving takes away every translation of the active space below the lower root slots that the live table lacks, and no other translation of any space |
| LiveTable.LiveAfterMap | kernel/src/memory/virt_mem.c:317-338 | a mapping and the copy of the upper half leave the live table without a slot that its space has not, and only a mapping into the active space lets it lag behind |
| VirtualMemory.ActiveMapSurvivesIffSlotInUse | kernel/src/memory/virt_mem.c:378-395 | after a mapping into the active space and a save, what every address of every space reads: a mapped one its target if the live table has its root slot, which is so if and only if that was in use before, and nothing otherwise; one that was not mapped what it read before, unless it lies under a page at physical 0 that was in the way |
| VirtualMemory.NewSpaceIsEmpty | kernel/src/memory/virt_mem.c:365-376 | a new space translates nothing and leaves the others alone |
| VirtualMemory.WindowRoundTrip | kernel/src/memory/virt_mem.c:464-475 | for a physical range below 256GiB and either kind of caching, the virtual address is found and every byte of it translates back |
| VirtualMemory.WindowOfFlags | kernel/src/memory/virt_mem.c:464-481 | an address is found exactly for a range that ends below 256GiB and a kind of caching; it lies in the 256GiB at 0xffff808000000000 for uncached, in the 2GiB at 0xffffffff80000000 for a writeback range that ends below 2GiB, and else in the 256GiB at 0xffff800000000000 |
| VirtualMemory.WindowAccess | kernel/src/memory/virt_mem.c:135-141 | every byte there may be written by the kernel alone, executed only in the 2GiB, and is cached write-back for writeback and not at all for uncached |
| VirtualMemory.AddressSpaces.constructor | kernel/src/memory/virt_mem.c:116-129 | an empty live table that mirrors an empty kernel map, the frames to come, and no size of the physical map yet |
| VirtualMemory.AddressSpaces.VirtToPhys | kernel/src/memory/virt_mem.c:459-462 | upper-half addresses read the kernel's map, lower-half ones what the next save will leave of the active space's, which is the space itself while the live table mirrors it, and nothing while no space is active; it panics exactly over a table out of sight |
| VirtualMemory.AddressSpaces.Map | kernel/src/memory/virt_mem.c:317-338 | maps in the kernel's or the given space as vmem_map_st does, with its bound on frames; no unmapped address of any space changes unless a page at physical 0 is in the way; the invariant of the object is kept, and the live table keeps mirroring unless the map went into the active space |
| VirtualMemory.AddressSpaces.MapSwitchAndRead | kernel/src/memory/virt_mem.c:317-462 | what a call has mapped in the kernel's half, or in a space that is not active, is what vmem_virttophys answers after a switch to that space |
| VirtualMemory.AddressSpaces.Create | kernel/src/memory/virt_mem.c:365-376 | adds an empty space, or changes nothing without memory |
| VirtualMemory.AddressSpaces.SaveState | kernel/src/memory/virt_mem.c:378-395 | the spaces become what LiveTable.Saved says: each lower root slot of the active space and each upper one of the kernel equals the live table's, and every other slot of every table is as before |
| VirtualMemory.AddressSpaces.SetActive | kernel/src/memory/virt_mem.c:397-410 | the spaces are saved, whether or not the live table lagged behind, and then it mirrors the new space and the kernel |
| VirtualMemory.AddressSpaces.GetActive | kernel/src/memory/virt_mem.c:412-416 | returns the active space after a save |
| VirtualMemory.AddressSpaces.SwitchAndBack | kernel/src/memory/virt_mem.c:397-410 | switching away and back leaves every translation as the first save left it |
| VirtualMemory.AddressSpaces.SwitchServeAndBack | kernel/src/memory/virt_mem.c:317-416 | after switching away from a space, any sequence of maps into the kernel's and other spaces, of switches and of saves, and switching back, every lower-half translation of the space is as the first save left it, unless a call panics |
| VirtualMemory.AddressSpaces.Serve | kernel/src/memory/virt_mem.c:317-416 | each of these calls keeps what the next save will make of the lower half of a space that is not mapped into |
| VirtualMemory.AddressSpaces.MapActiveThenSave | kernel/src/memory/virt_mem.c:317-395 | the same for a call of vmem_map followed by a save: what every address of every space translates to afterwards, with the invariant of the object restored and the live table mirroring again |
| VirtualMemory.AddressSpaces.FreshSpaceLosesItsMap | kernel/src/memory/virt_mem.c:365-395 | in a new space that has been made active, a mapping succeeds unless it panics (with tables and frames in sight, unless frames run out), and after the next save no address of the lower half is translated |
| VirtualMemory.AddressSpaces.MapWindow | kernel/src/memory/virt_mem.c:317-338 | a map of whole gigabytes over an unused range opens it completely with at most one frame, or one more for each gigabyte without 1GiB pages; with tables and frames in sight it fails only when fewer are left |
| VirtualMemory.AddressSpaces.MapWindows | kernel/src/memory/virt_mem.c:135-141 | the three maps open the three windows onto physical memory, with the permissions vmem_init gives them; with frames below 2GiB they do not fail if there are 3, or 517 without 1GiB pages |
| VirtualMemory.AddressSpaces.WindowLosesItsFirstPage | kernel/src/memory/virt_mem.c:135-141 | a map of 4KiB at the start of a window succeeds after vmem_init, given the frames, and takes away the translation of every other address of the first large page of the window |
| VirtualMemory.AddressSpaces.UnmapAroundPage | kernel/src/memory/virt_mem.c:273-315 | after a map of 4KiB in a new space, an unmapping from the root of two megabytes or more that starts in the same two megabytes reports success after no number of turns |
| Numerals.NumeralMeaning | common/src/stdlib.c:33-62 | the text of a number is digits of its base, stands for the number and has no leading zero |
| Numerals.NumeralIsCanonical | common/src/stdlib.c:33-62 | it is the only such text |
| Numerals.TextMeaning | common/src/stdlib.c:13-119 | the text of a value is in base 10 its sign and its absolute value, and in other bases the value as an unsigned number of its width |
| Numerals.Format | common/src/stdlib.c:13-119 | itoa and ltoa write the numeral of the value they format, signed in base 10, ended by a NUL; base 0 is refused |
| Numerals.WriteDigits | common/src/stdlib.c:33-47 | the digits, least significant first |
| Numerals.ReversePrefix | common/src/stdlib.c:55-62 | the in-place reversal reverses the text and touches nothing behind it |
| Numerals.ShiftIn | common/src/stdlib.c:127-139 | with 32-bit wrap-around the register stays 16 times the value read, its low bits free for the next digit |
| Numerals.FinalShift | common/src/stdlib.c:134-135 | the last arithmetic shift leaves the low 28 bits of the value, signed |
| Numerals.Atoi | common/src/stdlib.c:121-143 | the low 28 bits, signed, of the value of the leading hexadecimal digits, however many there are; -1 for another base |
| Numerals.UpperReadsAlike | common/src/stdlib.c:127-133 | upper-case hexadecimal digits are read as the number that the lower-case ones stand for |
| Numerals.HexRoundTripIff28Bits | common/src/stdlib.c:13-143 | parsing what itoa wrote in base 16 gives the number back if and only if it fits 28 signed bits |
| Vectors.VectorTable.Allocate | kernel/src/interrupts/idt.c:111-168 | a fixed or hinted request is granted exactly if its run is free; the search grants the lowest free run from 32 on and fails exactly if there is none below the last vector; only exclusive grants block |
| Vectors.VectorTable.BlockRun | kernel/src/interrupts/idt.c:147-149 | blocks exactly the run |
| Vectors.GrantedStaysBlocked | kernel/src/interrupts/idt.c:111-168 | in every run an exclusively granted vector stays blocked |
| Vectors.ExclusiveGrantsAreDisjoint | kernel/src/interrupts/idt.c:111-168 | in every run no vector is granted exclusively twice, whichever path granted it |
| ApStartup.RunKeepsInv | kernel/src/smp.c:30-62 | the invariant of the handshake holds in every state of every interleaving, for any number of cores |
| ApStartup.OneCoreInFlight | kernel/src/smp.c:34-48 | at most one core is between its startup message and its ready report, and it is the one waited for |
| ApStartup.OwnDisjointStacks | kernel/src/main.c:89-93 | every core runs on the stack allocated for it; the stacks of two cores overlap if and only if both allocations failed |
| ApStartup.RoomRulesOutFailure | kernel/src/bootstrap_malloc.c:32-46 | with room for a stack for every other core beside what else is allocated, no allocation fails in any interleaving |
| ApStartup.NoFailureIffRoom | kernel/src/smp.c:32-49 | where nothing else is allocated meanwhile, no allocation has failed at the end if and only if there was that room |
| ApStartup.AllCoresCounted | kernel/src/smp.c:51-62 | when smp_init returns the core count is one plus the other cores, all of them parked |
| BootMap.TrimMap | kernel/src/boot_info.c:71-108 | the loop leaves the trimmed entries in place, copies exactly the kept ones in order and sums the available lengths |
| BootMap.TrimEntry | kernel/src/boot_info.c:81-102 | one entry is trimmed in place, the others are untouched |
| BootMap.TrimKeepsPages | kernel/src/boot_info.c:79-102 | trimming keeps exactly the whole pages at or above the end of the kernel |
| BootMap.TrimKeepsBytes | kernel/src/boot_info.c:79-102 | of an entry exactly the bytes at or above the end of the kernel are kept, with its type |
| BootMap.FreedIsWholeIffRoundsWell | kernel/src/memory/phys_mem.c:278-298 | the rounding frees exactly the pages wholly inside an entry if and only if the entry's offsets are harmless |
| BootMap.BootFreesWholePagesAboveKernel | kernel/src/memory/phys_mem.c:271-300 | if every kept entry rounds well, the pages freed at boot are exactly those wholly inside some firmware entry of any type, at or above the kernel's end |
| BootMap.BootFreesWholePagesIff | kernel/src/memory/phys_mem.c:271-300 | for disjoint entries that is so if and only if every kept entry rounds well |
| BootMap.ExtraPageInNoEntry | kernel/src/memory/phys_mem.c:278-298 | a kept entry that does not round well has boot free a page that lies wholly inside no entry |
| BootMap.MisroundedEntry | kernel/src/memory/phys_mem.c:278-298 | 0x1000 bytes from 0x200001 on hold no whole page, and boot frees page 0x201 |
| BootMap.BootDonationsAreDisjoint | kernel/src/memory/phys_mem.c:271-300 | entries that are apart are freed apart, even where the rounding is not exact |
| BootMap.PmemInit | kernel/src/memory/phys_mem.c:271-300 | the loop frees each entry, rounded, into the allocator, and goes through whenever the ring has a slot to spare for every entry made |
| BootFreeList.KeptApart | kernel/src/boot_info.c:71-108 | trimming keeps disjoint entries disjoint |
| BootFreeList.RoomyBootIsExact | kernel/src/memory/phys_mem.c:264-300 | with a slot to spare for every entry made no boot call compacts |
| BootFreeList.BootConserves | kernel/src/memory/phys_mem.c:271-300 | for disjoint entries, however they round, every state of the boot loop conserves the pages freed so far |
| BootFreeList.BootFreeListIsExact | kernel/src/memory/phys_mem.c:271-300 | after boot calls for disjoint entries on a ring with room the free list covers each page that they freed exactly once, no other page, and `free_mem` is their size |
| BootFreeList.EnoughMemoryIsRoom | kernel/src/memory/phys_mem.c:258-268 | with two pages of available memory for every entry and every 4GiB of the firmware map, the ring that pmem_init sizes has a slot to spare for every entry made |
| BootFreeList.RingSizeMeaning | kernel/src/memory/phys_mem.c:258-268 | up to 8TiB the ring gets a slot for each two pages begun and one more; from there to 16TiB at most one |
| BootFreeList.MemorySizeIsAvailable | kernel/src/boot_info.c:76-77 | the memory size is that of the entries of type 1 in the firmware's map |
| BootFreeList.Boot | kernel/src/boot_info.c:61-112 | trimming, setting up the ring and freeing, step by step: for disjoint entries and that much memory it goes through, and the free list is exactly the whole pages of the map above the kernel if and only if every kept entry rounds well |
| Madt.Tables.Init | kernel/src/interrupts/acpi_init.c:91-168 | all four walks end; byte for byte, the arrays hold a record for each local APIC and IO APIC entry, in table order, and each IO APIC's override array one for each override sent to it |
| Madt.WalkVisits | kernel/src/interrupts/acpi_init.c:100-117 | a walk visits the first entry and after each one that which its size byte leads to, or that 8 bytes on for a size of 0, up to the end of the table |
| Madt.ListsLapics | kernel/src/interrupts/acpi_init.c:40-43 | a local APIC's record has the fourth byte of its entry as APIC id and the third as processor id |
| Madt.ListsIoApics | kernel/src/interrupts/acpi_init.c:45-52 | an IO APIC's record has the third byte as id, and the second and third four bytes as address and first interrupt |
| Madt.ListsOverrides | kernel/src/interrupts/acpi_init.c:63-76 | an override's record has the third and fourth byte as bus and interrupt, the four bytes after as system interrupt, and bits 1 and 3 of the ninth as active low and level triggered |
| Madt.Tables.CountControllers | kernel/src/interrupts/acpi_init.c:100-125 | both arrays are sized by the controllers that the walk visits |
| Madt.Tables.FillControllers | kernel/src/interrupts/acpi_init.c:127-143 | every store is inside those arrays, and they end up full and in table order |
| Madt.Tables.CountOverrides | kernel/src/interrupts/acpi_init.c:145-155 | each IO APIC's count is the number of overrides assigned to it |
| Madt.Tables.StoreOverrides | kernel/src/interrupts/acpi_init.c:157-167 | every store is inside the array sized by the count, in table order |
| Madt.Tables.ChooseIoApic | kernel/src/interrupts/acpi_init.c:55-61 | the loop that picks an IO APIC, shared by the counting and the storing pass |
| Madt.ChooseReadsBases | kernel/src/interrupts/acpi_init.c:54-89 | the choice depends only on the bases, so both passes choose alike |
| Madt.StoredStep | kernel/src/interrupts/acpi_init.c:63-76 | at every override of the storing pass its array still has room |
| Madt.ChosenIsNearBase | kernel/src/interrupts/acpi_init.c:54-61 | an IO APIC other than the first is chosen only for an interrupt less than its own index above its base |
| Madt.ServingIsChosenIff | kernel/src/interrupts/acpi_init.c:54-61 | for IO APICs whose bases are apart, in any order, the one that serves the interrupt is chosen if and only if it is the first or the interrupt is its very first |
| Madt.WrongIoApicChosen | kernel/src/interrupts/acpi_init.c:54-61 | with IO APICs at 0 and 24, interrupt 30, which the second serves, goes to the first |

## Left out

- AllocatorSpec.Requestable: an allocation whose size is 2^31 pages or more, where the page count no longer fits its int32_t, is not modelled.
- PageAllocator.Allocator.Alloc: domain, color and flags are dropped, as the code overwrites them with 0, which also switches its 32-bit filter off.
- PageAllocator.Allocator.Free: PANIC ends the run, so nothing is said about the ring after a panic.
- RingQueue.Queue.Init: a queue that is not there (NULL) is not modelled, and there is no memory for a negative size; fresh slots hold zeros (the boot-time heap is zeroed storage; the code does not clear them); the wrap of the int32_t counter and of lo+hi is not modelled, as a ring of 2^30 slots would be needed.
- PageEntry.BuildEntry: the masks, shifts and the OR of disjoint fields are written as division, remainder and sum; XOR is defined bit by bit.
- Conservation.RunConserves: covers runs whose compactions merge a prefix; for the other runs Ownership.RunSafe and Compaction.CompactionContained say what remains true.
- BootFreeList.BootFreeListIsExact: asks for a ring with a slot to spare for every entry made; BootFreeList.EnoughMemoryIsRoom gives a bound on the firmware's map that is enough for it, not the least one.
- BootMap.TrimMap: the firmware's entries are an array of records, not bytes with a stride, and the kernel starts at 2MiB, as linker.ld:48-49 has it.
- PageTableManager.Manager.MapSt: the size is of whole 4KiB pages (on another one the code reads past its array of levels); the permissions are a record of bits, and reading is always allowed.
- PageTableManager.Manager.AllocPage: stands for a fresh frame; running out gives the 0 that vmem_map_st tests for and answers by PANIC, while the real allocator returns -1, so the case in which the code goes on with that value is not modelled.
- PageTableManager.Manager.UnmapSt: for whole pages, fewer than one table of them, without slots that point at tables; UnmapStalls.Unmap models every range, and MapTheorems.LongMapStalls, UnmapStalls.UnmapNeverSucceeds and UnmapStalls.LeafLoopClears are about the others. Splitting a large page is unimplemented in the code, and the frame that the code frees after a recursive call is not given back.
- VirtualMemory.AddressSpaces.MapWindows: says when the calls go through for frames that are all below 2GiB; those taken after the first map may be anywhere below 256GiB.
- VirtualMemory.AddressSpaces.VirtToPhys: for addresses whose upper 17 bits are equal, the ones the processor translates; the live table is read directly, as vmem_init has checked its frame.
- MapTheorems.MapLeavesRangeIff: is about a root of 512 slots, as the kernel's is used; a process has the lower 256, and a call that runs on behind its half writes past its record.
- VirtualMemory.AddressSpaces.SaveState: the frames of the tables that a save drops stay in memory, in no place, as the code never frees them.
- VirtualMemory.AddressSpaces.Map: a lower-half range must stay in the lower half and not end in a hole, as a space has root slots only for that half and the code writes past them otherwise.
- VirtualMemory.AddressSpaces.Create: a space is a full table of which only the lower half is used; its record is known by a number that is new.
- Numerals.Format: base 1, on which the digit loop does not end, bases above 36 and the null buffer are not modelled; itoa and ltoa are one method with the width as a parameter.
- Numerals.Atoi: the input is the contents of a string ended by a NUL.
- Vectors.VectorTable.Allocate: a fixed or hinted request outside the table, which the code indexes unchecked, is excluded; locks and interrupt disabling are not modelled.
- ApStartup.OwnDisjointStacks: the allocator's area is taken to lie at 16KiB or above, as a static array of the kernel does; a core's set-up is one step.
- Madt.Tables.Init: a table with overrides has at least one IO APIC, entries hold the bytes their readers touch, and allocations succeed.
- SpscQueue.Fifo: one enqueueing and one dequeueing thread; queue_tryenqueue_front is not safe beside either.
- vmem_unmap, the public call: it sets its size to 0 before anything else.
- vmem_flush, vmem_mp_init, vmem_vmalloc and vmem_vfree: hardware flushes, the same set-up for another core, and a bump counter.
- Several cores sharing the kernel's tables: vmem_savestate can overwrite them from a stale copy.
- queue_fini and queue_size: they free the slots and read a field.
- Interrupt controllers, timers, PCI, display, EDID, descriptor tables, the calendar clock, strings and the bump allocators: device programming, bit fields and simple loops.
