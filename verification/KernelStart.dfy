/** The order in which boot loader and kernel bring the layers up (kernel/kernel.c). */
module KernelStart {
  import opened Machine
  import opened Arithmetic
  import opened Bitmap
  import opened Pmm
  import opened PmmTheorems
  import opened PageTables
  import opened SpaceModel
  import opened Ownership
  import opened PagingTheorems
  import opened Layout
  import BootPaging
  import opened Paging
  import opened HeapMemory
  import opened Kmalloc
  import opened HeapModel
  import opened HeapTheorems
  import opened RegionModel
  import opened RegionTheorems
  import opened Vmm
  import HeapStores
  import opened HeapSpace
  import opened KernelRuns
  import FaultingRun
  import opened Sharing

  /** The region list of kernel.c: the first 4 MB. */
  const RESERVED := [MemoryRegion(0, 0x40_0000)]

  ghost function InitialFree(before: set<nat>, entries: seq<MemoryMapEntry>, addr: u32): set<nat> {
    Interval(0, TotalLength(entries) / PAGE_SIZE) - InitialUsed(before, entries, addr, RESERVED)
  }

  /** By addresses: managed, above the first 4 MB, not reached by the bitmap, and last named by usable memory. */
  ghost predicate GivenOut(entries: seq<MemoryMapEntry>, addr: u32, f: nat) {
    var size := Sum(Lengths(entries)) % 0x1_0000_0000 / 4096;
    0x400 < f < size && MapGives(entries, f) && !Reaches(addr, size, f)
  }

  lemma GivenOutIff(before: set<nat>, entries: seq<MemoryMapEntry>, addr: u32, f: nat)
    ensures f in InitialFree(before, entries, addr) <==> GivenOut(entries, addr, f)
  {
    hide InitialUsed, TotalLength, Sum, Lengths, MapGives;
    TotalIsSum(entries);
    FreeExact(before, entries, addr, RESERVED, f);
    assert Reaches(RESERVED[0].start, RESERVED[0].length, f) <==> f <= 0x400;
  }

  /** The boot loader's paging, and initialize_physical_memory_manager. */
  method StartMemory(words: array<u32>, memory: Ram, entries: seq<MemoryMapEntry>, bitmapAddr: u32)
    returns (space: AddressSpace)
    requires words.Length == 0x4_0000
    modifies words
    ensures fresh(space) && fresh(space.pmm) && space.pmm.words == words && space.pmm.Valid()
    ensures space.dir == 0x64 && IsLayout(space.ram, 0x64, 0x60, 0x62, 3, 1)
    ensures space.pmm.Free() == InitialFree(old(UsedSet(words[..])), entries, bitmapAddr)
    ensures forall f :: f in space.pmm.Free() <==> GivenOut(entries, bitmapAddr, f)
    ensures forall f :: f in space.pmm.Free() ==> f > 0x400
  {
    hide IsLayout, GivenOut;
    ghost var before := UsedSet(words[..]);
    var ram := BootPaging.InitializePaging(memory);
    var pmm := new FrameAllocator(words);
    pmm.Initialize(entries, bitmapAddr, RESERVED);
    forall f | f in pmm.Free()
      ensures f > 0x400
    {
      if f <= 0x400 { LowMemoryReserved(before, entries, bitmapAddr, f); }
    }
    forall f: nat
      ensures f in pmm.Free() <==> GivenOut(entries, bitmapAddr, f)
    {
      GivenOutIff(before, entries, bitmapAddr, f);
    }
    space := new AddressSpace(pmm, ram, BootPaging.PAGING_DIRECTORY);
  }

  /** The heap and the regions on top of a paged address space. */
  method StartAllocators(space: AddressSpace, heapBytes: Bytes) returns (vm: VirtualMemory)
    requires space.Valid() && (space.starved || !space.State().HasTable(HEAP_TABLE))
    modifies space, space.pmm.words
    ensures vm.heap.space == space && space.Valid()
    ensures vm.heap.base != 0 ==> vm.Valid()
    ensures space.State().free != {} ==>
              !space.starved && vm.heap.base != 0 && exists node :: vm.regions == InitialRegions(node)
  {
    hide AddressSpace.State, HeapMemory.HeaderAt;
    var heap := new KernelHeap(space, heapBytes);
    heap.Initialize();
    vm := new VirtualMemory(heap);
    if heap.base != 0 {
      vm.Initialize();
    }
    SpaceStarved(space);
  }

  lemma SpaceStarved(space: AddressSpace)
    requires space.Valid()
    ensures space.State().free != {} ==> !space.starved
  {
  }

  lemma NoHeapTable(s: Space, identity: nat, kernel: nat)
    requires s.Typed() && IsLayout(s.ram, s.dir, identity, kernel, 1, 3)
    ensures !s.HasTable(HEAP_TABLE)
  {
    assert s.ram[s.dir][HEAP_TABLE] == 0;
  }

  /**
   * From any contents of memory and any memory map the layers come up in order; if a frame is left
   * at the end, every frame has one holder and the heap and the regions are set up.
   */
  method Start(words: array<u32>, memory: Ram, heapBytes: Bytes, entries: seq<MemoryMapEntry>, bitmapAddr: u32)
    returns (vm: VirtualMemory)
    requires words.Length == 0x4_0000
    modifies words
    ensures vm.heap.space.Valid() && vm.heap.space.pmm.words == words
    ensures vm.heap.base != 0 ==> vm.Valid()
    ensures vm.heap.space.State().free != {} ==>
              !vm.heap.space.starved && vm.Valid() && exists node :: vm.regions == InitialRegions(node)
  {
    hide IsLayout, InitialFree, GivenOut, VirtualMemory.Valid, Owned;
    var space := StartMemory(words, memory, entries, bitmapAddr);
    var done;
    ghost var identity, kernel;
    done, identity, kernel := space.InitializePaging();
    if done { NoHeapTable(space.State(), identity, kernel); }
    vm := StartAllocators(space, heapBytes);
  }

  // ----- where runs may start -----

  ghost function WorldOf(vm: VirtualMemory): World
    reads vm, vm.heap, vm.heap.space, vm.heap.space.pmm, vm.heap.space.pmm.words
  {
    World(vm.heap.mem, vm.heap.State(), vm.heap.space.State(), vm.regions, false)
  }

  /** Valid layers that have not starved are a good state for a run to start in. */
  lemma SystemIsGood(vm: VirtualMemory)
    requires vm.Valid() && !vm.heap.space.starved
    ensures Good(WorldOf(vm), vm.heap.space.base, vm.heap.space.pmm.size)
  {
    hide HeaderAt, AddressSpace.State, AddressSpace.Valid, Represents, Resident, Shape, Live, Tiling;
    OwnedSpace(vm.heap.space);
    HeapStores.IsSound(vm.heap.mem, vm.heap.State(), vm.heap.long);
  }

  /** From every heap as it is set up, with a frame left, a run of five calls leads to a write that faults. */
  lemma FreshHeapFaults(vm: VirtualMemory, v: u8)
    requires vm.Valid() && !vm.heap.space.starved && vm.heap.State() == Initial() && vm.regions == []
    requires FirstPages(vm.heap.space.State(), 17) && vm.heap.space.State().free != {}
    ensures Next(RunAll(WorldOf(vm), FaultingRun.CALLS), Write(FaultingRun.FIRST, 0x1_0FF0, v)).faulted
  {
    hide Next, RunAll, Good, Resident, MappedAt, FirstPages, AddressSpace.State, VirtualMemory.Valid;
    SystemIsGood(vm);
    FirstPagesResident(vm.heap.space.State());
    FaultingRun.PayloadCanBeUnmapped(WorldOf(vm), vm.heap.space.base, vm.heap.space.pmm.size, v);
  }

  // ----- an ordinary boot shares frames -----

  /** Sixteen megabytes of memory, all usable, and the bitmap at 2 MB. */
  const ORDINARY_MAP := [MemoryMapEntry(0, 0x100_0000, 1)]
  const BITMAP_ADDRESS := 0x20_0000

  /** Everything above the reserved 4 MB is free, from block 0x401 on. */
  lemma OrdinaryFree(before: set<nat>)
    ensures InitialFree(before, ORDINARY_MAP, BITMAP_ADDRESS) == Interval(0x401, 0x1000)
  {
    var entries := ORDINARY_MAP;
    assert entries[..0] == [] && TotalLength(entries[..0]) == 0;
    assert TotalLength(entries) == 0x100_0000;
    forall b: nat | b < 0x1000
      ensures b !in InitialUsed(before, entries, BITMAP_ADDRESS, RESERVED) <==> b >= 0x401
    {
      InitialisationExact(before, entries, BITMAP_ADDRESS, RESERVED, b);
      assert LastToTouch(entries, 0, b);
      assert b in Span(RESERVED[0].start, RESERVED[0].length) <==> b < 0x401;
    }
  }

  /** Paging takes four frames; the next page gets a frame that the kernel's own pages map as well. */
  method OrdinaryBootShares(words: array<u32>, memory: Ram) returns (space: AddressSpace)
    requires words.Length == 0x4_0000
    modifies words
    ensures space.Valid() && !space.starved
    ensures var s := space.State();
      && s.Mapped(HEAP_TABLE, 0) && KERNEL_FRAME <= s.Target(HEAP_TABLE, 0) < SHARED_END
      && s.Mapped(KERNEL, s.Target(HEAP_TABLE, 0) - KERNEL_FRAME)
      && s.Target(KERNEL, s.Target(HEAP_TABLE, 0) - KERNEL_FRAME) == s.Target(HEAP_TABLE, 0)
  {
    hide IsLayout, InitialFree, GivenOut, Owned, Space.Back, Starves, FrameAllocator.Free, Walk, PdIndex, PtIndex;
    OrdinaryFree(UsedSet(words[..]));
    IntervalFrom(0x401, 0x1000);
    space := StartMemory(words, memory, ORDINARY_MAP, BITMAP_ADDRESS);
    var done;
    ghost var identity, kernel;
    done, identity, kernel := space.InitializePaging();
    ghost var s := space.State();
    NoHeapTable(s, identity, kernel);
    LowFrameLeft(s.free);
    HeapStart();
    OneFrameMore(s);
    NextPageIsShared(s, space.base, space.owner, space.pmm.size, HEAP_TABLE, 0, READ_WRITE);
    var ok := space.BackPage(HEAP_START, READ_WRITE);
  }

  lemma HeapStart()
    ensures PdIndex(HEAP_START) == HEAP_TABLE && PtIndex(HEAP_START) == 0 && Dynamic(HEAP_TABLE)
  {
  }

  lemma {:induction false} IntervalFrom(lo: nat, hi: nat)
    requires lo <= hi
    ensures |Interval(lo, hi)| == hi - lo
    decreases hi
  {
    RunSize(lo, hi - lo);
  }

  /** With four of the free blocks gone, one of the first 255 is left. */
  lemma LowFrameLeft(free: set<nat>)
    requires free <= Interval(0x401, 0x1000) && |free| == 0xFFF - 0x400 - 4
    ensures free != {} && KERNEL_FRAME <= Min(free) < SHARED_END
  {
    if Min(free) >= SHARED_END {
      assert free <= Interval(SHARED_END, 0x1000);
      IntervalFrom(SHARED_END, 0x1000);
      SubsetSize(free, Interval(SHARED_END, 0x1000));
    }
  }

  lemma OneFrameMore(s: Space)
    requires s.Typed() && |s.free| >= 2
    ensures !Starves(s, HEAP_TABLE)
  {
    assert |s.free - {Min(s.free)}| == |s.free| - 1;
  }
}
