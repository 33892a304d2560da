# Memory management, FAT12 loading and the text screen of a 32-bit kernel

A Dafny model of the memory-management stack of a small x86 kernel, of the boot loader's FAT12
reader, and of the screen driver, with proofs about whole runs and about the places where the layers
meet. `dafny verify dfyconfig.toml` checks everything.

The model follows the code, also where the code departs from its intent. Such a place is followed by
an exact condition (an if-and-only-if over all inputs) for the intended property, and where it helps
by a concrete state in which the property fails.

## Layers

| modules | models |
|---|---|
| `Machine`, `Bits`, `Arithmetic` | 32-bit words, the bitwise operators of C defined bit by bit, and the laws of quotients, products and sums |
| `Bitmap`, `Pmm`, `PmmTheorems` | the frame bitmap (`kernel/pmm.c`): `FrameAllocator` edits an array of words in place; its specification is a set of used blocks |
| `PageTables`, `SpaceModel`, `Ownership`, `PagingTheorems`, `MappingLoops`, `FrameCounts`, `Sharing` | two-level page tables as physical memory, the processor's walk, one function per call of `kernel/paging.c`, who holds which frame, how many frames a mapping loop takes, and which frames have several pages |
| `Layout`, `BootPaging`, `Staging`, `Paging`, `Starvation`, `MemoryTest` | the two paging initialisers, and `AddressSpace`, whose methods reach the tables only through the walk and the self-map window |
| `HeapModel`, `HeapTheorems`, `HeapMemory`, `HeapSteps`, `HeapStores`, `HeapSpace`, `Kmalloc` | the kernel heap (`kernel/kmalloc.c`): the block list, its headers as little-endian bytes, what each call stores, which of its bytes are mapped, and `KernelHeap`, which works on the bytes |
| `RegionModel`, `RegionTheorems`, `RegionSpace`, `Vmm` | the virtual regions (`kernel/vmm.c`) over heap and address space |
| `KernelRuns`, `RunTheorems`, `FaultingRun`, `KernelStart` | runs of kmalloc, kfree, vmm_alloc, vmm_free and client writes over all layers, what they mean for clients, and the order in which the kernel brings the layers up |
| `Fat12`, `Disk`, `FileLoader` | 12-bit table entries, cluster chains, block addresses and retries, the areas of the volume, and the loading loop (`boot/stage2`) |
| `Screen`, `Numbers` | the cursor, scrolling in place, and printing numbers (`drivers/screen.c`) |

Each class method is specified by a function of the old state, and the theorems are about those
functions. `Valid` is the invariant of a layer; a method that can lose it says exactly when.

## What the code does differently from what it promises

* **A table from an empty allocator** (`kernel/paging.c:70`). `map_address` does not look at what
  `alloc_block` returned. If the page's own frame was the last one, frame 0 becomes a page table.
  `Starves` is that case; frame ownership over runs holds exactly when it never happens
  (`PagingTheorems.OwnedOverRunsIff`, `MappingLoops.BackAllOwnedIff`), and it can happen
  (`Starvation.OwnershipCanBeLost`). `starved` in `AddressSpace` records it, and `Kmalloc` and
  `VmmAlloc` say in terms of the state before the call exactly when they set it.
* **Frames with two pages** (`kernel/kernel.c:7-8`, `kernel/paging.c:181-190`). The kernel's own pages map
  frames 0x100 to 0x4FF, writable, and only frames up to 0x400 are reserved, so first fit hands out 0x401
  to 0x4FF to pages and tables that are then reachable through the kernel's pages too.
  `Sharing.PageSharedIff` is the exact condition for a page, `NeverSharedIff` for all runs, and
  `KernelStart.OrdinaryBootShares` boots a machine with 16 MB on which the first heap page is shared.
* **Flags that move the page** (`kernel/paging.c:88-89`, `kernel/vmm.c:67`). Flags of 4096 and above reach
  the address bits: `PageTables.FlagsKeepAddressIff`, and `PagingTheorems.BackFlagsOwnedIff` for a round of
  the mapping loops.
* **A test of the wrong pointer** (`kernel/paging.c:173`). It never fires, and it is not missed: the
  address space is switched exactly when there are four frames
  (`Paging.AddressSpace.InitializePaging`).
* **`memory_test` without a frame** (`kernel/paging.c:226-235`) goes on with the null pointer and frees
  block 0; a round is harmless exactly when there are frames for it (`MemoryTest.RoundOwnedIff`).
* **The long block** (`kernel/kmalloc.c:21` and `:25`). The first block's payload has the size that the
  initial heap has with its header, so some block always reaches 16 bytes too far. If that block has
  a successor, those bytes are the successor's header: `HeapTheorems.RequestMeetsHeaderIff` and
  `HeapSteps.ClientByteIff` say which bytes are affected, `HeapTheorems.GrowthOverlaps` gives a run of
  two calls. If it is the last, they lie above `end_of_heap`, where no page need be mapped:
  `HeapSpace.EveryByteMappedIff` gives the exact condition for residency and `KernelStart.FreshHeapFaults`
  a run of five calls after which a client faults on a byte it asked for.
  `KernelRuns.GoodOverRunsIff` says which runs do neither.
* **Sums that wrap** (`kernel/kmalloc.c:38`). A request whose sum with `end_of_heap` passes 4 GB gets
  through the limit test of `ksbrk`: from 0x2FFEFFF0 bytes on the fresh heap, from 0x1FFFFFF0 on the
  fully grown one. `HeapTheorems.MallocShapeIff` shows that exactly then the list is damaged,
  `RequestWraps` does it in one call, and `SmallRequestsNeverWrap` and `SmallestWrap` fix the bound.
* **`vmm_free` never frees** (`kernel/vmm.c:116-117`): its lower bound lies above the managed range.
  `RegionTheorems.FreeActsIff` treats the bound as a parameter, so the body is covered for the intended one too.
* **An exact fit is refused** (`kernel/vmm.c:81`), and so a request that once ran out of frames is
  refused for good (`RegionTheorems.ChosenIff`, `FailedRequestIsRefused`).
* **Blocks against bytes** (`kernel/pmm.c:146`): `alloc_blocks` asks for as many free blocks as bytes
  (`PmmTheorems.AllocBlocksExact`, `AllocBlocksRefusesARun`).
* **One block too many** (`kernel/pmm.c:37-39`), rounding that reaches outside every region
  (`PmmTheorems.SpanNeverInside`) and yet may miss its last byte (`SpanCoversIff`); a fill of the bitmap
  that writes as many bytes as there are blocks (`kernel/pmm.c:80`); and the bitmap's virtual address
  reserved as a physical one (`kernel/pmm.c:93`), all part of `PmmTheorems.InitialisationExact`.
* **Sectors of 512 bytes** (`boot/stage2/FAT.c:122`): the output pointer moves by the boot sector's
  size, the transfers do not (`FileLoader.SectorSizeIff`, and `LoadWithSmallSectors` for a concrete disk).
* **Negative numbers** are printed as a minus sign and the 32-bit pattern
  (`Numbers.NumberTextMeansIff`), and scrolling leaves the last cell alone (`Screen.LastRowBlankIff`;
  `drivers/screen.c:104`).

## Model

| member | source | states |
|---|---|---|
| Bitmap.SetBlock | kernel/pmm.c:14-17 | setting a bit adds exactly one block to the set of used blocks, across word and bit boundaries |
| Bitmap.ClearBlock | kernel/pmm.c:9-12 | clearing a bit removes exactly that block |
| Bitmap.FillByte | utils/memtools.c:12-18 | a byte set to 0xff makes its eight blocks used and no other |
| Pmm.FrameAllocator.MarkBlockFree | kernel/pmm.c:9-12 | the used set loses the block |
| Pmm.FrameAllocator.MarkBlockUsed | kernel/pmm.c:14-17 | the used set gains the block |
| Pmm.FrameAllocator.IsBlockUsed | kernel/pmm.c:19-22 | membership in the used set |
| Pmm.FrameAllocator.CalculateBitmapSize | kernel/pmm.c:24-35 | the lengths of all entries, usable or not, summed up in 32 bits, in whole blocks |
| Pmm.FrameAllocator.MarkRegionFree | kernel/pmm.c:41-51 | the rounded span becomes free and block 0 stays used |
| Pmm.FrameAllocator.MarkRegionUsed | kernel/pmm.c:53-61 | the rounded span becomes used |
| Pmm.FrameAllocator.GetNumFreeBlocks | kernel/pmm.c:63-71 | the exact cardinality of the free set |
| Pmm.FrameAllocator.FillBytes | kernel/pmm.c:80 | filling n bytes uses 8 n blocks |
| Pmm.FrameAllocator.Initialize | kernel/pmm.c:73-99 | the managed size by that sum, and the used set after initialisation, from any earlier contents of the bitmap memory |
| Pmm.FrameAllocator.FindFirstFreeSequence | kernel/pmm.c:101-116 | the lowest start of n free blocks in a row, or -1 exactly when there is none |
| Pmm.FrameAllocator.FindFirstFreeBlock | kernel/pmm.c:118-126 | the least free block, or -1 exactly when nothing is free |
| Pmm.FrameAllocator.AllocBlock | kernel/pmm.c:127-137 | takes the least free block and nothing else; null exactly when nothing is free |
| Pmm.FrameAllocator.FreeBlock | kernel/pmm.c:139-141 | the block of the address is no longer used, and it is free again if it is managed |
| Pmm.FrameAllocator.AllocBlocks | kernel/pmm.c:143-160 | grants the lowest run or refuses, with the guard as it stands |
| Pmm.FrameAllocator.FreeBlocks | kernel/pmm.c:162-164 | the span of the run is no longer used, block 0 is |
| Pmm.FrameAllocator.GetUsedPhysicalMemory | kernel/pmm.c:166-169 | bytes in used managed blocks |
| Pmm.FrameAllocator.GetAvailablePhysicalMemory | kernel/pmm.c:171-174 | bytes in free blocks |
| Pmm.SplitSize | kernel/pmm.c:63-71 | every managed block is counted once, as free or as used |
| Pmm.TotalIsSum | kernel/pmm.c:24-32 | the running total is the sum of all lengths, cut to 32 bits once |
| PmmTheorems.AfterMapExact | kernel/pmm.c:82-91 | a block is free after the map exactly when it is not block 0 and the last entry that touches it is usable |
| PmmTheorems.AfterReservedExact | kernel/pmm.c:95-98 | reserved regions add exactly their spans |
| PmmTheorems.InitialisationExact | kernel/pmm.c:73-99 | which blocks are free after initialisation, for any map, any reserved list, any earlier memory |
| PmmTheorems.TotalLaws | kernel/pmm.c:24-32 | every entry counts with its own length whatever its kind: the total of one entry, of two maps one after the other, and of two maps with the same lengths |
| PmmTheorems.OrdinaryTotal | kernel/pmm.c:24-32 | the total of an ordinary map with reserved entries |
| PmmTheorems.FreeExact | kernel/pmm.c:73-99 | by addresses alone: a block is given out exactly if it is managed, not block 0, reached by no reserved region and not by the bitmap, and last named by usable memory |
| PmmTheorems.LowMemoryReserved | kernel/kernel.c:7-18 | the kernel's region list keeps all blocks up to 0x400 in use |
| PmmTheorems.SpanNeverInside | kernel/pmm.c:37-61 | every marked span has a block that is not wholly inside the region |
| PmmTheorems.SpanCoversIff | kernel/pmm.c:37-61 | a marked span covers the region exactly when the two remainders fit in one block |
| PmmTheorems.AllocThenFree | kernel/pmm.c:127-141 | an allocation lowers the free count by one, and freeing undoes it |
| PmmTheorems.MemoryConserved | kernel/pmm.c:166-174 | used plus available memory is always the managed total |
| PmmTheorems.FirstRunExists | kernel/pmm.c:101-116 | whenever a run exists the first one exists and starts no later |
| PmmTheorems.AllocBlocksSound | kernel/pmm.c:143-164 | a granted run was wholly free, is longer than the request, and freeing it restores the bitmap |
| PmmTheorems.AllocBlocksExact | kernel/pmm.c:143-160 | alloc_blocks succeeds exactly when a run exists and there are as many free blocks as bytes asked for |
| PmmTheorems.AllocBlocksRefusesARun | kernel/pmm.c:146 | a state with a long enough run in which the request is refused |
| PageTables.EntryFields | kernel/paging.h:12-17 | SET_ADDR then SET_FLAG gives the frame of the address, keeps presence, and adds the flags |
| PageTables.FlagsKeepAddressIff | kernel/paging.c:88-89 | the entry keeps every address exactly when the flags are below 4096 |
| PageTables.WindowWalk | kernel/paging.c:15-17 | with the self-map, the window address of word j of table i walks to that very word of that table |
| SpaceModel.AddTableEffect | kernel/paging.c:69-80 | a new table changes one directory entry, to its frame with the present and the writable bit, and one frame, and maps nothing |
| SpaceModel.SetPageEffect | kernel/paging.c:82-91 | writing a page entry changes that entry alone |
| SpaceModel.MapKeepsSane | kernel/paging.c:61-92 | map_address keeps the self-map usable from every state, with any flags, also when it gets no frame |
| Ownership.AddTableOwned | kernel/paging.c:69-80 | a table frame gets one holder and all other holders stay |
| Ownership.SetPageOwned | kernel/paging.c:82-91 | a page frame gets one holder and all other holders stay |
| Ownership.UnmapOwned | kernel/paging.c:94-110 | unmapping releases exactly the page's frame |
| PagingTheorems.MapAddsOneBinding | kernel/paging.c:61-92 | for all flags and any number of frames, map_address answers false and changes nothing exactly on a mapped page; otherwise it adds one binding with the promised page and directory entries and keeps every other page, also with a new or a null table |
| PagingTheorems.KeptWalks | kernel/paging.c:61-92 | the processor's walk of every other virtual address is unchanged |
| PagingTheorems.WritesIff | kernel/paging.c:74-76 | behind every directory entry made since boot, a page can be written exactly when its own entry has the writable bit |
| PagingTheorems.BackWrites | kernel/vmm.c:90-97 | so a page mapped by a round can be written exactly when that was asked for, also behind a new table |
| PagingTheorems.BackOwnedIff | kernel/vmm.c:90-97 | one round of the mapping loops keeps one holder for every frame exactly when it does not starve |
| PagingTheorems.BackFlagsOwnedIff | kernel/vmm.c:90-97 | for all 32 bits of flags, a round keeps one holder for every frame exactly when it neither starves nor puts another frame behind the page |
| PagingTheorems.BackKeepsMapped | kernel/vmm.c:90-97 | such a round keeps all translations and maps its page |
| PagingTheorems.PageHasOwnFrame | kernel/paging.c:82-91 | the frame behind a page mapped since boot is in use, behind no other such page, no table, and no baseline frame |
| PagingTheorems.StoreIsLocal | kernel/paging.c:219-234 | a store through a page mapped since boot changes no translation, no ownership and no other word of any such page |
| PagingTheorems.SameTablesWalk | kernel/paging.c:7-17 | equal tables give equal translations |
| PagingTheorems.StepOwnedIff | kernel/paging.c:61-110 | a step of a run keeps ownership exactly when it does not starve |
| PagingTheorems.OwnedOverRunsIff | kernel/paging.c:61-110 | over every run of backing and unmapping no frame leaks and none is shared, exactly when no step starves |
| PagingTheorems.MapThenUnmap | kernel/paging.c:219-243 | map then unmap gives back the same frame, every translation, and all of memory but one new table |
| MappingLoops.BackAllOwnedIff | kernel/vmm.c:87-98 | a whole mapping loop, of vmm_alloc or ksbrk, keeps ownership exactly when no round starves |
| MappingLoops.BackAllWithoutFrames | kernel/kmalloc.c:46-49 | stopping at the first missing frame leaves what going on would leave |
| MappingLoops.BackAllEntries | kernel/vmm.c:87-98 | a loop maps only pages that it passes, each with its frame, its flags and the present bit in the entry, and leaves every other entry |
| FrameCounts.BackCounts | kernel/vmm.c:90-97 | a round takes one frame for an unmapped page and one more for a missing table, and maps nothing else |
| FrameCounts.FindsFramesIff | kernel/vmm.c:87-98 | a mapping loop finds its frames exactly when there are more than its rounds before the last take, counted on the page tables before it |
| FrameCounts.LoopStarvesIff | kernel/vmm.c:87-98 | it starves exactly when, counting down, a missing table comes up at the last frame |
| Sharing.SharedIff | kernel/paging.c:181-197 | a frame given out since boot, to a page or a table, has another page exactly when it lies below 0x500 |
| Sharing.PageSharedIff | kernel/paging.c:181-197 | the same for the frame behind a page mapped since boot |
| Sharing.NextPageIsShared | kernel/kernel.c:7-8 | while a low frame is left, the next page shares its frame with a page of the kernel |
| Sharing.NeverSharedIff | kernel/kernel.c:7-8 | no run from the initial address space ever shares a frame exactly when no free frame lies below 0x500 |
| Layout.LayoutMeaning | kernel/paging.c:181-211 | every virtual address of the initial address space translates to its promised meaning, and all others to nothing |
| Layout.LayoutWrites | kernel/paging.c:181-211 | exactly which virtual addresses of it can be written |
| BootPaging.FillTable | boot/stage2/paging.c:45-53 | one loop maps 4 MB and writes nothing else, whatever the table held |
| BootPaging.InitializePaging | boot/stage2/paging.c:30-77 | the boot loader's tables have the layout from any contents of memory |
| Staging.FirstNewPage | kernel/paging.c:112-119 | the page at 0x500000 takes two frames apart from everything in use, or leaves none |
| Staging.NextNewPage | kernel/paging.c:121-128 | each further staging page is apart from those before, or null without a frame |
| Staging.NewPageSane | kernel/paging.c:112-128 | the self-map survives these allocations from any number of free frames |
| Staging.LayoutOwned | kernel/paging.c:199-214 | the new address space starts with every frame accounted for |
| Paging.AddressSpace.LoadEntry | kernel/paging.c:66-82 | a load through the window reads that entry of that table |
| Paging.AddressSpace.StoreEntry | kernel/paging.c:76-89 | a store through the window lands in exactly that word of that table |
| Paging.AddressSpace.ZeroTable | kernel/paging.c:79 | the memset through the window clears exactly the table's frame |
| Paging.AddressSpace.EnsureTable | kernel/paging.c:69-80 | a missing table is added, from whatever the allocator returned, with a directory entry that is present and writable; one that is there stays |
| Paging.AddressSpace.MapAddress | kernel/paging.c:61-92 | for every address and all flags, the loads and stores through the window amount to the specified step on physical memory and free frames; the answer, the directory entry and the walk afterwards are given outright |
| Paging.AddressSpace.UnmapAddress | kernel/paging.c:94-110 | likewise for unmapping, for every address; afterwards it walks nowhere |
| Paging.AddressSpace.UnmapPage | kernel/paging.c:94-110 | unmapping a page mapped since boot frees exactly its frame and keeps one holder for all others |
| Paging.AddressSpace.BackFrame | kernel/vmm.c:90-97 | one loop round is the specified step, for all flags, and false exactly without a frame |
| Paging.AddressSpace.BackPage | kernel/kmalloc.c:46-53 | the same with the books: ownership is kept, or the round starved |
| Paging.AddressSpace.MapUnchecked | kernel/kmalloc.c:10-16 | the round of the heap's first mapping, where nobody looks at the frame; from a mapped page it turns back and the frame is lost |
| Paging.AddressSpace.AllocatePage | kernel/paging.c:112-128 | a fresh zeroed page, null without a frame, or null with a frame lost if the address was mapped |
| Paging.AddressSpace.FillStaged | kernel/paging.c:181-197 | the loops write a 4 MB mapping into the staged frame through its virtual address |
| Paging.AddressSpace.StageEntries | kernel/paging.c:199-211 | the directory entries complete the layout |
| Paging.AddressSpace.Switch | kernel/paging.c:149-154 | after the switch every frame has one holder |
| Paging.AddressSpace.InitializePaging | kernel/paging.c:164-217 | switches from the boot address space to the kernel's exactly when there are four free frames; otherwise stays, with none left |
| Starvation.OwnershipCanBeLost | kernel/paging.c:69-76 | a state with full ownership that one page allocation loses |
| MemoryTest.TestAddress | kernel/paging.c:222-243 | one round passes and keeps every translation, and the whole state if the table was there; otherwise it leaves the table and takes one frame |
| MemoryTest.MemoryTest | kernel/paging.c:219-246 | memory_test passes from every owned state with the frames it needs, and leaves its page table |
| MemoryTest.RoundOwnedIff | kernel/paging.c:226-242 | from any number of frames, a round keeps one holder for each exactly when it has the frames it needs; without one it frees block 0 |
| HeapModel.FirstFitFits | kernel/kmalloc.c:28-34 | the search stops at the lowest fitting block |
| HeapModel.CutShape | kernel/kmalloc.c:102-114 | splitting keeps the shape of the list |
| HeapModel.GrowShape | kernel/kmalloc.c:60-78 | so does a block at the end of the heap |
| HeapModel.FreeShape | kernel/kmalloc.c:138-144 | so does releasing, with or without a merge |
| HeapTheorems.MallocShapeIff | kernel/kmalloc.c:88-118 | kmalloc keeps the shape exactly when its sum does not wrap into the heap |
| HeapTheorems.SmallRequestsNeverWrap | kernel/kmalloc.c:37-42 | requests below half a gigabyte never do |
| HeapTheorems.MallocGrants | kernel/kmalloc.c:93-117 | first fit by address, growth only without a fit, granted size within bounds, large remainders |
| HeapTheorems.MallocAnswers | kernel/kmalloc.c:88-118 | for every heap, null exactly for no bytes, or without a free block that is large enough and without growth; the lowest fit is served in place and split exactly if more than 80 bytes are left over, and a null answer changes no block |
| HeapTheorems.MallocAppends | kernel/kmalloc.c:94-101 | without a fit a granted request is one new block at the old end |
| HeapTheorems.FreeEffect | kernel/kmalloc.c:138-144 | kfree takes in the successor exactly if that is free, header included, and changes no other block |
| HeapTheorems.ShapeOverRunsIff | kernel/kmalloc.c:88-145 | over every run the list is ordered, gap-free and overlaps only at the long block, exactly when nothing wraps |
| HeapTheorems.InOrder | kernel/kmalloc.c:105-113 | blocks are in address order |
| HeapTheorems.PayloadsDisjoint | kernel/kmalloc.c:88-118 | no byte belongs to two payloads |
| HeapTheorems.HeadersDisjoint | kernel/kmalloc.c:88-118 | no byte belongs to two headers |
| HeapTheorems.RequestMeetsHeaderIff | kernel/kmalloc.c:19-25 | exactly which requests overlap a header |
| HeapTheorems.NoOverlapBeforeGrowth | kernel/kmalloc.c:19-25 | none before the first growth |
| HeapTheorems.MallocKeepsLive | kernel/kmalloc.c:88-118 | live pointers stay live and a new pointer is none of them |
| HeapTheorems.MallocLiveIff | kernel/kmalloc.c:88-118 | kmalloc makes exactly the pointer it returns live, which was not, and ends the life of none |
| HeapTheorems.FreeLiveIff | kernel/kmalloc.c:125-145 | kfree ends the life of its argument and of no other pointer, with or without a merge |
| HeapTheorems.NewIsLive | kernel/kmalloc.c:116-117 | what is returned is live |
| HeapTheorems.BytesConserved | kernel/kmalloc.c:88-145 | headers and payloads add up to the heap and one header |
| HeapTheorems.MallocBytes | kernel/kmalloc.c:88-118 | the sum changes only by growth, by the request and a header |
| HeapTheorems.FreeBytes | kernel/kmalloc.c:125-145 | and never by releasing |
| HeapTheorems.RequestWraps | kernel/kmalloc.c:37-42 | a request of 768 MB that passes the limit test and damages the list |
| HeapTheorems.SmallestWrap | kernel/kmalloc.c:37-42 | the bound for requests that never wrap is tight |
| HeapTheorems.GrowthOverlaps | kernel/kmalloc.c:19-25 | two calls after which a client's bytes are another block's header |
| HeapSteps.CutInMemory | kernel/kmalloc.c:102-114 | the six stores of the split make memory hold the split list |
| HeapSteps.GrowInMemory | kernel/kmalloc.c:73-101 | the stores of request_space and the link make memory hold the longer list |
| HeapSteps.MergeInMemory | kernel/kmalloc.c:138-144 | the stores of kfree make memory hold the merged list |
| HeapSteps.TakeInMemory | kernel/kmalloc.c:116 | so does the flag alone |
| HeapSteps.KeepsClientBytes | kernel/kmalloc.c:102-116 | stores inside a free block or a header touch no client's byte |
| HeapSteps.GrowthKeepsOtherBytes | kernel/kmalloc.c:73-101 | growth touches no client's byte outside the new header |
| HeapSteps.GrowthKeepsClientBytesIff | kernel/kmalloc.c:73-76 | for all contents of memory, growth keeps every client's byte exactly when no long last block is in use to its end |
| HeapSteps.ClientByteIff | kernel/kmalloc.c:19-25 | exactly which bytes a client asked for are shared with a header |
| HeapSteps.ClientBreaksCanary | kernel/kmalloc.c:120-136 | there a well-behaved client destroys its neighbour's canary |
| HeapSpace.LoopMaps | kernel/kmalloc.c:44-54 | a mapping loop that finds its frames and does not starve maps every byte it passes |
| HeapSpace.LoopOverMapped | kernel/kmalloc.c:44-54 | over mapped pages it changes nothing |
| HeapSpace.MallocOwnedIff | kernel/kmalloc.c:88-118 | kmalloc keeps one holder for every frame exactly when it does not starve |
| HeapSpace.RequestResident | kernel/kmalloc.c:60-64 | the heap stays mapped up to its end, and up to its new end if it grows |
| HeapSpace.RequestRoomIff | kernel/kmalloc.c:37-64 | a request finds its frames, and starves, exactly by the count of free frames against unmapped pages and missing tables |
| HeapSpace.AboveEndIff | kernel/kmalloc.c:19-25 | exactly which header and payload bytes lie above end_of_heap |
| HeapSpace.EveryByteMappedIff | kernel/kmalloc.c:19-58 | exactly when every byte of every header and payload lies in a mapped page |
| HeapSpace.EndOfPage | kernel/kmalloc.c:44-57 | always, unless end_of_heap lies in the last 15 bytes of a page |
| HeapStores.MallocSoundIff | kernel/kmalloc.c:88-118 | memory and list agree after kmalloc exactly when the request does not wrap |
| HeapStores.FreeSound | kernel/kmalloc.c:125-145 | memory and list agree after kfree |
| HeapStores.ChangesHeaderIff | kernel/kmalloc.h:11-16 | exactly which byte stores change what a header says |
| HeapStores.StoreSoundIff | kernel/kmalloc.c:120-122 | a client's store leaves all headers intact exactly when it changes no overlapping header |
| HeapStores.ReleaseFindsCanary | kernel/kmalloc.c:126-136 | kfree of a listed block does not reach the panic branch |
| Kmalloc.HeapBytesMappedIff | kernel/kmalloc.c:6-58 | residency of every header and payload byte in every valid state, with its exact condition |
| Kmalloc.KernelHeap.FindFirstFree | kernel/kmalloc.c:28-34 | following the links in memory finds the first fit of the list |
| Kmalloc.KernelHeap.GetLast | kernel/kmalloc.c:80-86 | following the links in memory ends at the last block |
| Kmalloc.KernelHeap.Ksbrk | kernel/kmalloc.c:37-58 | the end never passes the limit, a failure leaves it, it fails exactly at the limit or without the frames its rounds need, and starves exactly when a round does; the pages it adds are writable |
| Kmalloc.KernelHeap.RequestSpace | kernel/kmalloc.c:60-78 | a header at the old end, and the address space after both calls of ksbrk |
| Kmalloc.KernelHeap.SplitBlock | kernel/kmalloc.c:102-114 | the split on bytes is the split on the list |
| Kmalloc.KernelHeap.Serve | kernel/kmalloc.c:102-116 | a fitting block is served and no client's byte changes |
| Kmalloc.KernelHeap.Extend | kernel/kmalloc.c:94-101 | the heap grows by one block or is refused for want of frames or room |
| Kmalloc.KernelHeap.Kmalloc | kernel/kmalloc.c:88-118 | null exactly when the request must be refused, and which block is served and how; list, bytes, pointer and address space as functions of the state before, residency up to end_of_heap, the clients' bytes, and exactly when it starves or fails for want of frames |
| Kmalloc.KernelHeap.Initialize | kernel/kmalloc.c:6-26 | one free block of 64 KB at 0xD0000000 in writable pages, if a frame is left |
| Kmalloc.KernelHeap.Kfree | kernel/kmalloc.c:125-145 | a listed block, in use or not, is released and never panics, with the list afterwards given outright; panics exactly on a broken canary; keeps the clients' bytes |
| Kmalloc.KernelHeap.ReleaseBlock | kernel/kmalloc.c:138-144 | the release on bytes is the release on the list |
| Kmalloc.KernelHeap.ClientStore | kernel/kmalloc.c:117 | a client's write to a mapped byte of its own, clear of headers, keeps everything valid |
| RegionModel.FirstFreeSuits | kernel/vmm.c:36-42 | the search stops at the first region that suits |
| RegionModel.FindFinds | kernel/vmm.c:104-113 | the search stops at the first region with that base |
| RegionTheorems.SplitTiling | kernel/vmm.c:44-61 | splitting keeps the tiling, also without a record |
| RegionTheorems.AllocTiling | kernel/vmm.c:67-102 | vmm_alloc keeps the tiling on every path, failures after the split included |
| RegionTheorems.FreeTiling | kernel/vmm.c:115-136 | so does vmm_free, for any bound |
| RegionTheorems.RunTiles | kernel/vmm.c:67-136 | after every run the regions tile the range and their sizes add up to it |
| RegionTheorems.TilingTotal | kernel/vmm.c:187-190 | the total that vmm_test looks at |
| RegionTheorems.AlignedSize | kernel/vmm.c:63-65 | the least multiple of the page size, and 0 exactly for 0 and the topmost sizes |
| RegionTheorems.AllocSound | kernel/vmm.c:67-102 | a result is page-aligned, was free, holds the request, and is apart from every other region |
| RegionTheorems.AllocTakes | kernel/vmm.c:67-102 | the addresses handed out go from free to used, and every other address keeps its flag; a failure changes the flag of no address |
| RegionTheorems.SplitTakes | kernel/vmm.c:44-61 | splitting changes the flag of no address, and marking takes exactly the first part |
| RegionTheorems.ChosenIff | kernel/vmm.c:69-83 | exactly when vmm_alloc gets as far as its pages |
| RegionTheorems.ExactFitRefused | kernel/vmm.c:81-83 | a request refused although a later region holds it |
| RegionTheorems.FailedRequestIsRefused | kernel/vmm.c:81-93 | after one failure for want of frames the same request always fails |
| RegionTheorems.FreeActsIff | kernel/vmm.c:115-136 | a region in use is freed exactly when the bound admits it |
| RegionTheorems.FreeFrees | kernel/vmm.c:115-136 | releasing frees exactly the addresses of the region, and takes in the successor exactly if that is free |
| RegionTheorems.FreeIgnores | kernel/vmm.c:115-136 | a pointer that is no base, or lies below the bound, changes nothing |
| RegionTheorems.FreeDoesNothing | kernel/vmm.c:116-119 | with the bound of the source, never |
| RegionSpace.RecordsKept | kernel/vmm.c:49-53 | kmalloc leaves the records of all regions live and returns none of them |
| RegionSpace.RecordsStay | kernel/kmalloc.c:125-145 | kfree of a pointer that is no record leaves them live too |
| RegionSpace.AllocateIff | kernel/vmm.c:67-102 | the result is null exactly without a suitable region or without the frames for its pages |
| RegionSpace.AllocateHands | kernel/vmm.c:67-102 | a result is the base of the first region that holds the request; exactly the request, rounded up, goes from free to used, and no other address changes its flag |
| RegionSpace.AllocateFlags | kernel/vmm.c:87-98 | every page of a result that was not mapped before has the flags asked for |
| RegionSpace.MappedIsPrivate | kernel/paging.c:82-91 | every page of a mapped range has a frame in use that is behind no other page mapped since boot, table or baseline, and behind no other page at all exactly from frame 0x500 on |
| RegionSpace.BackingOwnedIff | kernel/vmm.c:87-98 | the mapping loop of vmm_alloc keeps one holder for every frame exactly when it does not starve |
| RegionSpace.BackingMaps | kernel/vmm.c:87-98 | it leaves the heap mapped, and maps its whole range if it finds its frames |
| RegionSpace.BackingRoomIff | kernel/vmm.c:87-98 | it finds its frames, and starves, exactly by the count on the page tables before it |
| KernelRuns.KmallocGoodIff | kernel/kmalloc.c:88-118 | kmalloc keeps all layers in order exactly when its sum does not wrap and it does not starve |
| KernelRuns.KfreeGood | kernel/kmalloc.c:125-145 | kfree of what a client may release always does |
| KernelRuns.WriteGoodIff | kernel/kmalloc.c:117 | a client's write does exactly when it neither faults nor changes a header |
| KernelRuns.VmmAllocGoodIff | kernel/vmm.c:67-102 | vmm_alloc does exactly when it does not starve |
| KernelRuns.GoodOverRunsIff | kernel/vmm.c:67-136 | over every run of kmalloc, kfree, vmm_alloc, vmm_free and client writes: no fault, headers and canaries intact, heap mapped, one holder for every frame, regions tiling, in every state, exactly when no step is harmful |
| RunTheorems.HeldIsLive | kernel/kmalloc.c:88-145 | over such runs a pointer is live with its size exactly from the call that returned it to the kfree that was given it |
| RunTheorems.KfreeOfHeld | kernel/kmalloc.c:126-136 | kfree of a pointer returned earlier and not released since never panics |
| RunTheorems.BytesReadBack | kernel/kmalloc.c:88-145 | a client's byte reads back as last written until it is overwritten or released, or the heap grows over it |
| RunTheorems.HarmfulWrites | kernel/kmalloc.c:19-25 | harmful writes go to the last 16 bytes of the long block; they fault only at the end of a page |
| RunTheorems.NoGrowthNoHarm | kernel/kmalloc.c:19-25 | without growth no client write is harmful |
| FaultingRun.PayloadCanBeUnmapped | kernel/kmalloc.c:19-58 | a run of five calls that leaves a client's byte in an unmapped page |
| Vmm.VirtualMemory.NewRecord | kernel/vmm.c:49-53 | a record is a live heap block of 16 bytes that no region has |
| Vmm.VirtualMemory.Initialize | kernel/vmm.c:25-34 | one free region from 4 MB to 3 GB, or nothing |
| Vmm.VirtualMemory.FindFirst | kernel/vmm.c:36-42 | the walk finds the first fit |
| Vmm.VirtualMemory.SplitAt | kernel/vmm.c:44-61 | the split list, and what the record cost the address space |
| Vmm.VirtualMemory.BackPages | kernel/vmm.c:87-98 | every byte of the range is mapped, or no frame is left |
| Vmm.VirtualMemory.Grant | kernel/vmm.c:85-101 | split, back, mark: on success exactly the addresses of the granted part go from free to used, otherwise no flag changes |
| Vmm.VirtualMemory.VmmAlloc | kernel/vmm.c:67-102 | which region is handed out and that no other address changes its flag; all that the call leaves, as a function of the state before it, for all flags; with flag bits only, and unless the allocator starved, every byte of a result lies in a page with the flags asked for, whose frame no other page mapped since boot has |
| Vmm.VirtualMemory.ClientKfree | kernel/kmalloc.c:125-145 | a client's kfree of what is no record keeps the regions and everything below in order |
| Vmm.VirtualMemory.ClientKmalloc | kernel/kmalloc.c:88-118 | so does a client's kmalloc that does not wrap, and its result is live and no record |
| Vmm.VirtualMemory.FindRegion | kernel/vmm.c:104-113 | the walk finds the region of a base |
| Vmm.VirtualMemory.FreeAbove | kernel/vmm.c:115-136 | the body of vmm_free for any bound keeps tiling and records, frees exactly the region of the pointer, and otherwise changes nothing |
| Vmm.VirtualMemory.VmmFree | kernel/vmm.c:115-136 | vmm_free changes nothing |
| Vmm.VirtualMemory.GetTotalSize | kernel/vmm.c:150-158 | always the size of the range |
| KernelStart.StartMemory | kernel/kernel.c:17-18 | the boot tables where the boot loader puts them; the free frames that paging starts with, by addresses, and that they lie above 4 MB |
| KernelStart.Start | kernel/kernel.c:17-30 | from any memory and any map, all layers are valid if a frame is left at the end |
| KernelStart.SystemIsGood | kernel/kernel.c:17-30 | valid layers are a state the runs may start in |
| KernelStart.FreshHeapFaults | kernel/kmalloc.c:6-58 | the faulting run, from any heap as it is set up |
| KernelStart.OrdinaryFree | kernel/kernel.c:7-18 | with 16 MB of memory exactly the blocks from 0x401 on are free |
| KernelStart.OrdinaryBootShares | kernel/kernel.c:7-19 | after an ordinary boot the first heap page shares its frame with a page of the kernel |
| Fat12.EntryIs | boot/stage2/FAT.c:24-35 | shifts and masks give the twelve bits that the 16-bit word holds for odd and even numbers |
| Fat12.StepLaws | boot/stage2/FAT.c:115-124 | by the bytes of the table: where a step of the loop leads, and that exactly entries from 0xFF8 on end it |
| Fat12.PackThenRead | boot/stage2/FAT.c:24-35 | reading a packed table gives each entry back |
| Fat12.ReadThenPack | boot/stage2/FAT.c:24-35 | packing what was read gives back every byte |
| Fat12.UpdateIsLocal | boot/stage2/FAT.c:24-35 | changing an entry leaves its nibble-sharing neighbour and all other bytes |
| Fat12.ChainUnique | boot/stage2/FAT.c:115-124 | a start cluster has one chain at most |
| Fat12.ChainHasNoRepeats | boot/stage2/FAT.c:115-124 | a chain that ends visits no cluster twice |
| Fat12.ChainLength | boot/stage2/FAT.c:115-124 | so it has a bounded length |
| Fat12.ChainExistsIff | boot/stage2/FAT.c:115-124 | from any start and in any table, the loop ends exactly when an end mark turns up within that bound |
| Disk.SegmentOffsetIff | boot/stage2/disk.c:3-7 | segment and offset name the address exactly below one megabyte |
| Disk.ChsReaches | boot/stage2/disk.c:9-15 | the triple is in range and names the block modulo what eight bits of cylinder reach |
| Disk.ChsRoundTripIff | boot/stage2/disk.c:9-15 | the round trip holds exactly below 256 cylinders |
| Disk.LocationRoundTrip | boot/stage2/disk.c:9-15 | every location below 256 cylinders is the triple of its block number |
| Disk.ChsIsUnique | boot/stage2/disk.c:9-15 | a location has one triple |
| Disk.ChsCollideIff | boot/stage2/disk.c:9-15 | exactly which block numbers share a triple |
| Disk.FieldsApart | boot/stage2/x86.asm:170-174 | with the sectors a drive reports, sector and cylinder bits of the request do not mix |
| Disk.FieldsApartIff | boot/stage2/x86.asm:82-123 | in general exactly the sector numbers below 64 |
| Disk.Drive.Transfer | boot/stage2/x86.asm:82-123 | one request: all sectors, or an error with at most the target touched |
| Disk.Drive.DiskRead | boot/stage2/disk.c:17-39 | fails exactly when three requests fail; a success delivers all sectors whatever failed before |
| FileLoader.ClusterLbaExact | boot/stage2/FAT.c:108-118 | for data clusters the 32-bit arithmetic never wraps |
| FileLoader.ClusterPlace | boot/stage2/FAT.c:108-118 | by the fields of the boot sector alone: the data area begins behind the reserved sectors, all copies of the table and the root directory |
| FileLoader.AreaSizes | boot/stage2/FAT.c:40-44 | how many sectors the tables and the root directory take, by the fields |
| FileLoader.SystemSectorIff | boot/stage2/FAT.c:37-118 | reserved sectors, table copies and root directory fill exactly the sectors below cluster 2, without a gap |
| FileLoader.DataSectors | boot/stage2/FAT.c:117-121 | no sector of a data cluster is one of them |
| FileLoader.FloppyAreas | boot/stage2/FAT.c:108-118 | on a 1.44 MB floppy the clusters begin at block 33 |
| FileLoader.ReadDirectoryBuffer | boot/stage2/FAT.c:37-51 | the sectors from the end of the tables up to cluster 2, or as many of them as eight bits can say, arrive; an error is exactly three failed requests; nothing outside the buffer changes |
| FileLoader.ReadFat | boot/stage2/FAT.c:91-102 | likewise the sectors from the end of the reserved ones up to the directory |
| FileLoader.ClustersApart | boot/stage2/FAT.c:117-121 | different clusters are different sectors of the drive |
| FileLoader.GetStartingCluster | boot/stage2/FAT.c:53-55 | the two halves of the number can be read back |
| FileLoader.Memcmp | utils/memtools.c:20-28 | 0 exactly on equal bytes |
| FileLoader.FindFile | boot/stage2/FAT.c:79-89 | the first entry of that name, or null exactly when there is none |
| FileLoader.ReadFile | boot/stage2/FAT.c:104-127 | terminates on every chain that ends or fails; fails exactly when some cluster fails; on success every cluster of the chain is in memory at its place in the output, with the bytes the disk has at its place in the data area; what is in memory in either case |
| FileLoader.LoadedIsContents | boot/stage2/FAT.c:115-124 | with 512-byte sectors the output is the concatenation of the clusters in chain order |
| FileLoader.SectorSizeIff | boot/stage2/FAT.c:119-122 | for any number of clusters from two on, that holds exactly with 512-byte sectors |
| FileLoader.LoadWithSmallSectors | boot/stage2/FAT.c:119-122 | a disk and a file of two clusters of which the last byte does not arrive although every read succeeds |
| Screen.Put | drivers/screen.c:31-61 | after any character the cursor is on the screen |
| Screen.PutPrints | drivers/screen.c:31-61 | cell by cell, what each kind of character does: a newline, a tab and a backspace move the cursor as they should and change no cell but the one wiped, any other character is in its cell in white on black; if the cursor leaves the screen, the same one row up |
| Screen.PutSaneIff | drivers/screen.c:112-117 | from any position in video memory, one scroll brings the cursor back exactly if it left the screen by less than a row |
| Screen.TextIsShown | drivers/screen.c:31-61 | printed text stands in front of the cursor, however often the screen scrolled |
| Screen.LastRowBlankIff | drivers/screen.c:102-107 | the last row is blank after scrolling exactly when its last cell was |
| Screen.Display.MoveRowsUp | drivers/screen.c:92-100 | every row is overwritten with the one below |
| Screen.Display.EraseLastRow | drivers/screen.c:102-107 | all cells but the last |
| Screen.Display.ScrollScreenUp | drivers/screen.c:88-110 | the screen and cursor after scrolling |
| Screen.Display.HandleScrollScreen | drivers/screen.c:112-117 | scrolls exactly when the cursor has left the screen |
| Screen.Display.PrintChar | drivers/screen.c:31-61 | from any position in video memory: what happened to every cell and to the cursor, by kind of character; exactly when the cursor is in range afterwards |
| Numbers.DigitsValue | drivers/screen.c:194-198 | the digits read back as the number, in every radix |
| Numbers.DigitsAreShort | drivers/screen.c:179-198 | at most 32 digits, without a leading zero |
| Numbers.DigitAt | drivers/screen.c:176-198 | which character stands i places from the right, for every i |
| Numbers.NumberTextMeansIff | drivers/screen.c:178-203 | exactly which signed numbers are printed correctly |
| Numbers.FillBuffer | drivers/screen.c:179-198 | the digits end at the zero byte and never reach the start of the buffer |
| Numbers.PrintBuffer | drivers/screen.c:200-202 | the loop prints exactly the digits |
| Numbers.PrintNumber | drivers/screen.c:178-203 | the screen is as if the number's text had been printed |

## Left out

- Port I/O, inline assembly, control registers, TLB flushes, mode switches and BIOS details other than the result of a transfer.
- The interrupt tables, PIC, timer, floppy controller and keyboard drivers, and the page-fault handler; an access that would fault is a precondition.
- `printf` formats, `print_at` (`drivers/screen.c:63-74`), `clear_screen` and all printed messages.
- Entries with the page-size bit, which would map 4 MB pages.
- The bitmap is its own array of 2^18 words: that its bytes lie in a mapped page, and in no frame that is given out, is not modelled.
- Paging.AddressSpace.MapAddress: what later walks do after a call inside the self-map window, which the kernel never makes.
- Paging.AddressSpace.AllocatePage: the memset keeps the translation of its first byte; other effects of stale TLB entries are not modelled.
- MemoryTest.MemoryTest: a frame for a page, and one for a missing table, are needed; `MemoryTest.RoundOwnedIff` says what happens without.
- Kmalloc.KernelHeap.Kmalloc: the heap's bytes are an array of their own and not words of the frames behind its pages; for its mapped bytes `PagingTheorems.StoreIsLocal` says why that is the same memory for stores through pages mapped since boot while nothing starved; stores of clients to unmapped bytes are faults, and stores through the kernel's own pages to frames below 0x500 (`Sharing.PageSharedIff`) are not modelled.
- Kmalloc.KernelHeap.Kmalloc: the split test does not wrap, because a fitting block is never that large.
- Kmalloc.KernelHeap.Kfree: stray pointers behind an intact canary, such as that of a block merged away, and pointers less than a header above the heap start are not handed to it.
- Vmm.VirtualMemory.VmmAlloc: with flags of 4096 and above, what the call leaves is specified but nothing is promised about it (`PageTables.FlagsKeepAddressIff`, `PagingTheorems.BackFlagsOwnedIff`); runs use flag bits only.
- Vmm.VirtualMemory.VmmAlloc: the fields of a region record are not bytes of the heap; that each record is a live heap block of its own is kept. The linked list is a sequence.
- `sizeof(VirtualMemoryRegion)` is 16 bytes, as for the other 32-bit structures.
- Disk.Drive.DiskRead: a transfer that crosses a track or a 64 KB boundary of memory is served like any other, and heads and sectors per track fit in their registers and are not 0.
- FileLoader.ReadFile: is about calls that return; on a cycle, which `Fat12.ChainExistsIff` characterises, the source loops as long as its reads succeed. The table does not lie in the output buffer, and the buffer fits in memory.
- FileLoader.FindFile: the directory is a sequence of entries; how the bytes that `ReadDirectoryBuffer` brings in make up entries is not modelled.
- Screen.Display.PrintChar: an explicit position is inside the 32 KB of text-mode memory; the source does not check.
- Numbers.PrintNumber: the radix is between 2 and 16, as in all calls.
