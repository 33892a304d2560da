/** The virtual memory manager over the heap and the address space (kernel/vmm.c). */
module Vmm {
  import opened Machine
  import opened Pmm
  import opened PageTables
  import opened SpaceModel
  import opened Ownership
  import opened PagingTheorems
  import opened Paging
  import opened MappingLoops
  import opened HeapModel
  import opened HeapMemory
  import opened HeapTheorems
  import opened HeapSpace
  import HeapStores
  import opened Kmalloc
  import opened RegionModel
  import opened RegionTheorems
  import opened RegionSpace

  class VirtualMemory {
    const heap: KernelHeap
    /** The list from vm_base on; empty before it is set up. */
    var regions: seq<Region>

    constructor (heap: KernelHeap)
      ensures this.heap == heap && regions == []
    {
      this.heap, regions := heap, [];
    }

    /** The heap's list and the regions are in order. */
    ghost predicate Lists()
      reads this, heap
    {
      heap.Listing() && (regions == [] || Tiling(regions)) && RecordsLive(heap.State(), regions)
    }

    ghost predicate Valid()
      reads this, heap, heap.space, heap.space.pmm, heap.space.pmm.words
    {
      Lists() && heap.Backed()
    }

    /** kmalloc of a record: small enough that its sum never wraps. */
    method NewRecord() returns (node: u32)
      requires Valid()
      modifies heap`end, heap`mem, heap`blocks, heap`long, heap.space, heap.space.pmm.words
      ensures Valid() && heap.space.base == old(heap.space.base)
      ensures (heap.State(), node) == RecordFor(old(heap.space.State()), old(heap.State()))
      ensures heap.space.State() == SpaceAfterMalloc(old(heap.space.State()), old(heap.State()), NODE_SIZE)
      ensures heap.space.starved == (old(heap.space.starved)
                                     || MallocStarves(old(heap.space.State()), old(heap.State()), NODE_SIZE))
      ensures node != 0 ==> Live(heap.State(), node, 16)
                            && forall i :: 0 <= i < |regions| ==> regions[i].node != node
    {
      hide Live, Represents, Shape, Tiling, KernelHeap.Backed, WrapsIntoHeap, Malloc,
           SpaceAfterMalloc, MallocStarves, RequestRoom;
      ghost var h, long := heap.State(), heap.long;
      ghost var room := RequestRoom(heap.space.State(), heap.end, NODE_SIZE);
      SmallRequestsNeverWrap(h, long, NODE_SIZE, room);
      if regions != [] { RecordsKept(h, long, regions, NODE_SIZE, room); }
      NewIsLive(h, NODE_SIZE, room);
      node := heap.Kmalloc(NODE_SIZE);
    }

    method Initialize()
      requires Valid() && regions == []
      modifies this, heap`end, heap`mem, heap`blocks, heap`long, heap.space, heap.space.pmm.words
      ensures Valid() && (regions == [] || exists node :: regions == InitialRegions(node))
      ensures regions != [] ==> |regions| == 1 && regions[0].base == 0x40_0000
                                && regions[0].size == 0xBFC0_0000 && regions[0].free
      ensures old(heap.State()) == HeapModel.Initial() ==> regions != []
    {
      hide KernelHeap.Listing, KernelHeap.Backed, Live, Tiling, AddressSpace.State, AddressSpace.Valid, RecordFor,
           SpaceAfterMalloc, MallocStarves;
      FirstRecord(heap.space.State());
      var node := NewRecord();
      if node == 0 {
        return;
      }
      regions := InitialRegions(node);
      InitialTiling(node);
    }

    /** find_first_free_virtual_memory_region: the position of the region, or the length of the list. */
    method FindFirst(size: nat) returns (i: nat)
      ensures i <= |regions| && i == FirstFree(regions, size, 0)
    {
      i := 0;
      while i < |regions| && !Suits(regions[i], size)
        invariant i <= |regions| && FirstFree(regions, size, i) == FirstFree(regions, size, 0)
      {
        i := i + 1;
      }
    }

    /** split_virtual_memory_region; without a record the region stays whole. */
    method SplitAt(i: nat, size: nat)
      requires Valid() && i < |regions| && IsPages(size)
      modifies this, heap`end, heap`mem, heap`blocks, heap`long, heap.space, heap.space.pmm.words
      ensures Valid() && heap.space.base == old(heap.space.base)
      ensures if old(regions)[i].size <= size then
                regions == old(regions) && heap.State() == old(heap.State())
                && heap.space.State() == old(heap.space.State()) && heap.space.starved == old(heap.space.starved)
              else
                var (h, node) := RecordFor(old(heap.space.State()), old(heap.State()));
                regions == SplitRegion(old(regions), i, size, node) && heap.State() == h
                && heap.space.State() == SpaceAfterMalloc(old(heap.space.State()), old(heap.State()), NODE_SIZE)
                && heap.space.starved == (old(heap.space.starved)
                                          || MallocStarves(old(heap.space.State()), old(heap.State()), NODE_SIZE))
    {
      hide Live, Tiling, KernelHeap.Valid, IsPages, SpaceAfterMalloc, MallocStarves, RecordFor;
      if regions[i].size <= size {
        return;
      }
      var record := NewRecord();
      if record == 0 {
        return;
      }
      SplitTiling(regions, i, size, record);
      RecordsSplit(heap.State(), regions, i, size, record);
      regions := SplitRegion(regions, i, size, record);
    }

    /**
     * The mapping loop of vmm_alloc, over whole pages of the managed range, with any flags. With flag bits
     * only, the layers stay in order.
     */
    method BackPages(base: u32, size: nat, flags: u32) returns (ok: bool)
      requires heap.Valid() && base % PAGE_SIZE == 0 && IsPages(size) && base + size <= VIRTUAL_MEMORY_END
      modifies heap.space, heap.space.pmm.words
      ensures heap.Listing() && heap.State() == old(heap.State()) && heap.space.base == old(heap.space.base)
      ensures ok == BackingRoom(old(heap.space.State()), base, size, flags)
      ensures heap.space.Walkable()
      ensures heap.space.State() == SpaceAfterBacking(old(heap.space.State()), base, size, flags)
      ensures flags < 4096 ==>
                && heap.Valid() && (ok ==> heap.space.starved || MappedRange(heap.space.State(), base, base + size))
                && heap.space.starved
                     == (old(heap.space.starved) || BackingStarves(old(heap.space.State()), base, size, flags))
    {
      hide KernelHeap.Listing, MappedRange, Space.Back, BackAll, FindsFrames, Starves, PdIndex, PtIndex, Space.Sane,
           Owned, FrameAllocator.Free, BackingStarves, SpaceAfterBacking, BackingRoom, Resident;
      ghost var s, last := heap.space.State(), base + size;
      BackingIsLoop(s, base, size, flags);
      ghost var o, starved := heap.space.owner, heap.space.starved;
      if flags < 4096 {
        o, starved := BackedOwner(heap, base, size, flags), starved || BackingStarves(s, base, size, flags);
      }
      ok := true;
      var va: u32 := base;
      while ok && va <= size + base
        invariant base <= va <= last + PAGE_SIZE && va % PAGE_SIZE == 0
        invariant heap.space.Walkable()
        invariant heap.space.owner == old(heap.space.owner) && heap.space.starved == old(heap.space.starved)
        invariant heap.space.base == old(heap.space.base)
        invariant if ok then
                    && BackAll(heap.space.State(), va, PAGE_SIZE, last, flags)
                         == BackAll(s, base, PAGE_SIZE, last, flags)
                    && FindsFrames(heap.space.State(), va, PAGE_SIZE, last, flags)
                         == FindsFrames(s, base, PAGE_SIZE, last, flags)
                  else
                    && heap.space.State() == BackAll(s, base, PAGE_SIZE, last, flags)
                    && !FindsFrames(s, base, PAGE_SIZE, last, flags)
        decreases ok, last + PAGE_SIZE - va
      {
        BelowKernel(va);
        BackAllStep(heap.space.State(), va, PAGE_SIZE, last, flags);
        ok := heap.space.BackFrame(va, flags);
        if ok {
          NextPage(va, last);
          va := va + PAGE_SIZE;
        } else {
          BackAllWithoutFrames(heap.space.State(), va + PAGE_SIZE, PAGE_SIZE, last, flags);
        }
      }
      if ok { BackAllDone(heap.space.State(), va, PAGE_SIZE, last, flags); }
      heap.space.owner, heap.space.starved := o, starved;
    }

    /** The end of vmm_alloc, for the region it has settled on. */
    method Grant(i: nat, size: nat, flags: u32) returns (backed: bool)
      requires Valid() && i < |regions| && IsPages(size) && regions[i].size > size
      modifies this, heap`end, heap`mem, heap`blocks, heap`long, heap.space, heap.space.pmm.words
      ensures Lists() && heap.space.base == old(heap.space.base)
      ensures i < |regions| && regions[i].base == old(regions)[i].base && regions[i].size >= size
      ensures var a := Granted(old(heap.space.State()), old(heap.State()), old(regions), i, size, flags);
        && regions == a.regions && backed == (a.ptr != 0)
        && heap.State() == a.heap && heap.space.Walkable() && heap.space.State() == a.space
        && (flags < 4096 ==> Valid() && heap.space.starved == (old(heap.space.starved) || a.starves))
      ensures old(regions)[i].free ==>
                if backed then Takes(old(regions), regions, regions[i].base, regions[i].base + regions[i].size)
                else SameFree(old(regions), regions)
      ensures backed && flags < 4096 && !heap.space.starved ==>
                MappedRange(heap.space.State(), regions[i].base, regions[i].base + regions[i].size)
    {
      hide Live, Tiling, KernelHeap.Listing, MappedRange, AddressSpace.State, AddressSpace.Valid,
           AddressSpace.Walkable, SpaceAfterMalloc, MallocStarves, SpaceAfterBacking, BackingStarves, BackingRoom,
           RecordFor, IsPages, Resident, Takes, SameFree;
      RegionAligned(regions, i);
      if regions[i].free { SplitTakes(regions, i, size, RecordFor(heap.space.State(), heap.State()).1); }
      SplitAt(i, size);
      RegionAligned(regions, i);
      TilesArePages(regions, i);
      backed := BackPages(regions[i].base, regions[i].size, flags);
      if backed {
        SetFreeTiling(regions, i, false);
        regions := WithFlag(regions, i, false);
      }
    }

    /**
     * vmm_alloc. All it leaves is a function of the state before it, for all flags. With flag bits only, a
     * non-null result is a region that nothing else has, and every byte of it lies in a page with a frame
     * that no other page mapped since boot has, as long as the allocator did not starve.
     */
    method VmmAlloc(size: u32, flags: u32) returns (ptr: nat)
      requires Valid()
      modifies this, heap`end, heap`mem, heap`blocks, heap`long, heap.space, heap.space.pmm.words
      ensures Lists() && heap.space.Walkable() && heap.space.base == old(heap.space.base)
      ensures var a := Allocate(old(heap.space.State()), old(heap.State()), old(regions), size, flags);
        && regions == a.regions && ptr == a.ptr && heap.State() == a.heap && heap.space.State() == a.space
        && (flags < 4096 ==> Valid() && heap.space.starved == (old(heap.space.starved) || a.starves))
      ensures Hands(old(regions), regions, ptr, size, RecordFor(old(heap.space.State()), old(heap.State())).1 != 0)
      ensures ptr != 0 && flags < 4096 && !heap.space.starved ==>
                && PrivateRange(heap.space.State(), heap.space.base, heap.space.pmm.size, ptr, ptr + size)
                && GivenFlags(old(heap.space.State()), heap.space.State(), ptr, ptr + size, flags)
    {
      hide Live, Tiling, KernelHeap.Listing, MappedRange, PrivateRange, AddressSpace.State, Granted, Resident, Owned,
           Hands, GivenFlags;
      if flags < 4096 { FlagsOfResult(this, size, flags); }
      if regions != [] { AllocateHands(heap.space.State(), heap.State(), regions, size, flags); }
      if regions == [] { EmptyHands(size, RecordFor(heap.space.State(), heap.State()).1 != 0); }
      var aligned := AlignUp(size);
      AlignedSize(size);
      ChosenSuits(regions, size);
      if regions == [] || aligned <= 0 {
        return 0;
      }
      var i := FindFirst(aligned);
      if i == |regions| {
        return 0;
      }
      if regions[i].size < aligned + BUFFER {
        return 0;
      }
      GrantedPtr(heap.space.State(), heap.State(), regions, i, aligned, flags);
      var backed := Grant(i, aligned, flags);
      if !backed {
        return 0;
      }
      ptr := regions[i].base;
      RegionAligned(regions, i);
      if flags < 4096 && !heap.space.starved { ResultIsPrivate(heap, ptr, size, regions[i].size); }
    }

    /** A client's kfree of what is no region record: the regions stay in order. */
    method ClientKfree(ptr: u32, ghost i: nat) returns (outcome: Release)
      requires Valid() && i < |heap.blocks| && ptr == heap.blocks[i].addr + META && !IsRecord(regions, ptr)
      modifies heap`mem, heap`blocks, heap`long
      ensures Valid() && regions == old(regions) && outcome == Released
      ensures heap.State() == HeapModel.Free(old(heap.State()), i)
    {
      hide Live, Tiling, AddressSpace.State, AddressSpace.Valid, Shape, Represents, Resident, HeaderAt, IsRecord;
      HeapStores.IsSound(heap.mem, heap.State(), heap.long);
      HeapStores.ReleaseFindsCanary(heap.mem, heap.State(), i);
      RecordsStay(heap.State(), heap.long, regions, i);
      outcome := heap.Kfree(ptr, i);
    }

    /** A client's kmalloc: so do they, unless the request wraps. */
    method ClientKmalloc(nbytes: u32) returns (ptr: u32)
      requires Valid()
      modifies heap`end, heap`mem, heap`blocks, heap`long, heap.space, heap.space.pmm.words
      ensures var room := RequestRoom(old(heap.space.State()), old(heap.end), nbytes);
        && (heap.State(), ptr) == HeapModel.Malloc(old(heap.State()), nbytes, room)
        && (!WrapsIntoHeap(old(heap.State()), nbytes, room) ==> Valid()) && regions == old(regions)
      ensures ptr != 0 ==> Live(heap.State(), ptr, nbytes) && !IsRecord(regions, ptr)
    {
      hide Live, Represents, Shape, Tiling, KernelHeap.Backed, WrapsIntoHeap, Malloc, SpaceAfterMalloc, MallocStarves,
           RequestRoom;
      ghost var room := RequestRoom(heap.space.State(), heap.end, nbytes);
      RecordsKept(heap.State(), heap.long, regions, nbytes, room);
      ptr := heap.Kmalloc(nbytes);
    }

    /** find_memory_region: the position of the region, or the length of the list. */
    method FindRegion(ptr: u32) returns (i: nat)
      ensures i == Find(regions, ptr, 0)
    {
      i := 0;
      while i < |regions|
        invariant i <= |regions| && Find(regions, ptr, i) == Find(regions, ptr, 0)
      {
        if regions[i].base == ptr {
          return;
        }
        i := i + 1;
      }
    }

    /** The body of vmm_free, for any lower bound in its guard. */
    method FreeAbove(ptr: u32, bound: u32)
      requires Valid()
      modifies this
      ensures Valid() && regions == FreeRegion(old(regions), ptr, bound)
      ensures forall i: nat :: i < |old(regions)| && old(regions)[i].base == ptr && bound <= ptr ==>
                Frees(old(regions), regions, ptr, ptr + old(regions)[i].size)
      ensures (forall i :: 0 <= i < |old(regions)| ==> old(regions)[i].base != ptr) || ptr < bound ==>
                regions == old(regions)
    {
      hide Live, Tiling, KernelHeap.Valid, Frees;
      FreeAboveFrees(regions, ptr, bound);
      if ptr == 0 || VIRTUAL_MEMORY_END <= ptr || ptr < bound {
        return;
      }
      FindFinds(regions, ptr, 0);
      var i := FindRegion(ptr);
      if i == |regions| {
        return;
      }
      FreeTiling(regions, ptr, bound);
      if i + 1 < |regions| && regions[i + 1].free {
        RecordsMerge(heap.State(), regions, i);
        regions := Merge(regions, i);
      } else {
        regions := WithFlag(regions, i, true);
      }
    }

    /** vmm_free. Its guard has KERNEL_HEAP_START, which lies above the managed range. */
    method VmmFree(ptr: u32)
      requires Valid()
      modifies this
      ensures Valid() && regions == old(regions)
    {
      FreeDoesNothing(regions, ptr);
      FreeAbove(ptr, HEAP_START);
    }

    method GetTotalSize() returns (total: nat)
      requires Valid()
      ensures total == TotalSize(regions)
      ensures regions != [] ==> total == VIRTUAL_MEMORY_END - VIRTUAL_MEMORY_START
    {
      total := 0;
      for i := 0 to |regions|
        invariant total == TotalSize(regions[..i])
      {
        assert regions[..i + 1][..i] == regions[..i];
        total := total + regions[i].size;
      }
      assert regions[..|regions|] == regions;
      if regions != [] { TilingTotal(regions); }
    }
  }

  lemma TilesArePages(rs: seq<Region>, i: nat)
    requires Tiling(rs) && i < |rs|
    ensures IsPages(rs[i].size)
  {
  }

  lemma FirstRecord(s: Space)
    ensures RecordFor(s, HeapModel.Initial()).1 != 0
  {
    assert FirstFit(Initial().blocks, NODE_SIZE, 0) == 0;
  }

  /** Who holds which frame after the mapping loop, and what that means for the heap and the range. */
  ghost function BackedOwner(heap: KernelHeap, base: u32, size: nat, flags: PageFlags): (o: map<nat, Holder>)
    reads heap, heap.space, heap.space.pmm, heap.space.pmm.words
    requires heap.Valid() && base % PAGE_SIZE == 0 && base + size <= VIRTUAL_MEMORY_END
    ensures var (s, t) := (heap.space.State(), SpaceAfterBacking(heap.space.State(), base, size, flags));
      if heap.space.starved || BackingStarves(s, base, size, flags) then t.free == {}
      else
        && Owned(t, heap.space.base, o, heap.space.pmm.size) && Resident(t, heap.end)
        && (BackingRoom(s, base, size, flags) ==> MappedRange(t, base, base + size))
  {
    hide SpaceAfterBacking, BackingStarves, BackingRoom, Resident, MappedRange, KernelHeap.Listing;
    var (s, t) := (heap.space.State(), SpaceAfterBacking(heap.space.State(), base, size, flags));
    if heap.space.starved then
      BackingWithoutFrames(s, base, size, flags);
      map[]
    else
      OwnedSpace(heap.space);
      BackingOwnedIff(s, heap.space.base, heap.space.pmm.size, base, size, flags);
      if BackingStarves(s, base, size, flags) then map[]
      else
        BackingMaps(s, heap.space.base, heap.space.pmm.size, base, size, flags, heap.end);
        var o :| Owned(t, heap.space.base, o, heap.space.pmm.size);
        o
  }

  lemma FlagsOfResult(vm: VirtualMemory, size: u32, flags: PageFlags)
    requires vm.Valid()
    ensures var (s, h) := (vm.heap.space.State(), vm.heap.State());
      var a := Allocate(s, h, vm.regions, size, flags);
      !vm.heap.space.starved && !a.starves && a.ptr != 0 ==> GivenFlags(s, a.space, a.ptr, a.ptr + size, flags)
  {
    hide Allocate, AddressSpace.Valid, AddressSpace.State, GivenFlags, Tiling, Live, Represents, Resident;
    var (s, h) := (vm.heap.space.State(), vm.heap.State());
    var a := Allocate(s, h, vm.regions, size, flags);
    NoRegions(s, h, size, flags);
    if !vm.heap.space.starved && !a.starves && a.ptr != 0 {
      OwnedSpace(vm.heap.space);
      AllocateFlags(s, vm.heap.space.base, vm.heap.space.pmm.size, h, vm.regions, size, flags);
    }
  }

  lemma NoRegions(s: Space, h: Heap, size: u32, flags: PageFlags)
    ensures Allocate(s, h, [], size, flags).ptr == 0
  {
  }

  lemma EmptyHands(size: u32, record: bool)
    ensures Hands([], [], 0, size, record)
  {
  }

  lemma FreeAboveFrees(rs: seq<Region>, ptr: nat, bound: nat)
    requires rs == [] || Tiling(rs)
    ensures forall i: nat :: i < |rs| && rs[i].base == ptr && bound <= ptr ==>
              Frees(rs, FreeRegion(rs, ptr, bound), ptr, ptr + rs[i].size)
    ensures (forall i :: 0 <= i < |rs| ==> rs[i].base != ptr) || ptr < bound ==> FreeRegion(rs, ptr, bound) == rs
  {
    hide Frees, FreeRegion, Tiling;
    forall i: nat | i < |rs| && rs[i].base == ptr && bound <= ptr
      ensures Frees(rs, FreeRegion(rs, ptr, bound), ptr, ptr + rs[i].size)
    {
      FreeFrees(rs, i, bound);
    }
    if (forall i :: 0 <= i < |rs| ==> rs[i].base != ptr) || ptr < bound { FreeIgnores(rs, ptr, bound); }
  }

  lemma BackingIsLoop(s: Space, base: u32, size: nat, flags: u32)
    requires base + size <= VIRTUAL_MEMORY_END
    ensures SpaceAfterBacking(s, base, size, flags) == BackAll(s, base, PAGE_SIZE, base + size, flags)
    ensures BackingRoom(s, base, size, flags) == FindsFrames(s, base, PAGE_SIZE, base + size, flags)
  {
  }

  lemma GrantedPtr(s: Space, h: Heap, rs: seq<Region>, i: nat, size: nat, flags: u32)
    requires Tiling(rs) && i < |rs| && size < rs[i].size
    ensures var p := Granted(s, h, rs, i, size, flags).ptr; p == 0 || p == rs[i].base
  {
  }

  lemma ResultIsPrivate(heap: KernelHeap, ptr: nat, size: nat, longer: nat)
    requires heap.Valid() && !heap.space.starved && size <= longer
    requires VIRTUAL_MEMORY_START <= ptr && ptr + longer <= VIRTUAL_MEMORY_END
    requires MappedRange(heap.space.State(), ptr, ptr + longer)
    ensures PrivateRange(heap.space.State(), heap.space.base, heap.space.pmm.size, ptr, ptr + size)
  {
    hide AddressSpace.Valid, AddressSpace.State, PrivateRange, MappedAt, IsOwned;
    OwnedSpace(heap.space);
    MappedIsPrivate(heap.space.State(), heap.space.base, heap.space.pmm.size, ptr, ptr + size);
  }

  lemma BelowKernel(va: u32)
    requires va <= VIRTUAL_MEMORY_END
    ensures PdIndex(va) < SELF
  {
  }

  lemma NextPage(va: nat, last: nat)
    requires va % PAGE_SIZE == 0 && last % PAGE_SIZE == 0 && va <= last
    ensures va + PAGE_SIZE <= last + PAGE_SIZE && (va + PAGE_SIZE) % PAGE_SIZE == 0
  {
  }
}
