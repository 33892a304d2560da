/**
 * Runs of the kernel's memory in all its layers: kmalloc and kfree, vmm_alloc and vmm_free, and clients
 * writing the bytes that kmalloc gave them.
 */
module KernelRuns {
  import opened Machine
  import opened PageTables
  import opened SpaceModel
  import opened PagingTheorems
  import opened HeapModel
  import opened HeapMemory
  import opened HeapTheorems
  import opened HeapStores
  import opened HeapSpace
  import opened RegionModel
  import opened RegionTheorems
  import opened RegionSpace

  /** The heap's bytes and list, the address space, the regions, and whether a client's access has faulted. */
  datatype World = World(mem: Bytes, heap: Heap, space: Space, regions: seq<Region>, faulted: bool)

  /** Clients know pointers: what kmalloc returned to them, and bytes at an offset from it. */
  datatype Event =
    | Kmalloc(n: u32)
    | Kfree(ptr: nat)
    | Write(ptr: nat, offset: nat, value: u8)
    | VmmAlloc(size: u32, flags: PageFlags)
    | VmmFree(ptr: nat)

  /** The position of the block that ptr points into, from position i on. */
  function Position(blocks: seq<Block>, ptr: nat, i: nat): (r: nat)
    requires i <= |blocks|
    ensures i <= r <= |blocks| && (r < |blocks| ==> blocks[r].addr + META == ptr)
    decreases |blocks| - i
  {
    if i == |blocks| || blocks[i].addr + META == ptr then i else Position(blocks, ptr, i + 1)
  }

  lemma {:induction false} PositionFinds(blocks: seq<Block>, ptr: nat, i: nat, j: nat)
    requires i <= j < |blocks| && blocks[j].addr + META == ptr
    ensures Position(blocks, ptr, i) <= j
    decreases |blocks| - i
  {
    if i < j && blocks[i].addr + META != ptr { PositionFinds(blocks, ptr, i + 1, j); }
  }

  /** Different blocks have different pointers. */
  lemma PositionIs(h: Heap, long: nat, j: nat)
    requires Shape(h, long) && j < |h.blocks|
    ensures Position(h.blocks, h.blocks[j].addr + META, 0) == j
  {
    PositionFinds(h.blocks, h.blocks[j].addr + META, 0, j);
    var i := Position(h.blocks, h.blocks[j].addr + META, 0);
    if i < j { InOrder(h, long, i, j); }
  }

  /** ptr points to n bytes of a client: live, and no record of a region. */
  ghost predicate Owns(w: World, ptr: nat, n: nat) {
    Live(w.heap, ptr, n) && !IsRecord(w.regions, ptr)
  }

  ghost predicate MayUse(w: World, ptr: nat) {
    var i := Position(w.heap.blocks, ptr, 0);
    i < |w.heap.blocks| && !w.heap.blocks[i].IsFree() && !IsRecord(w.regions, ptr)
  }

  ghost predicate MayWrite(w: World, e: Event)
    requires e.Write?
  {
    MayUse(w, e.ptr) && e.offset < w.heap.blocks[Position(w.heap.blocks, e.ptr, 0)].asked
  }

  /**
   * Every layer is in order: list and bytes agree, every frame has one holder, the heap is mapped, the
   * regions tile their range and their records are live, and nothing has faulted.
   */
  ghost predicate Good(w: World, base: set<nat>, limit: nat) {
    && !w.faulted && Sound(w.mem, w.heap) && IsOwned(w.space, base, limit) && Resident(w.space, w.heap.end)
    && (w.regions == [] || Tiling(w.regions)) && RecordsLive(w.heap, w.regions)
  }

  // ----- steps -----

  ghost function NextKmalloc(w: World, n: u32): World
    requires Sound(w.mem, w.heap)
  {
    var room := RequestRoom(w.space, w.heap.end, n);
    w.(mem := MallocMemory(w.mem, w.heap, n, room), heap := Malloc(w.heap, n, room).0,
       space := SpaceAfterMalloc(w.space, w.heap, n))
  }

  ghost function NextKfree(w: World, ptr: nat): World
    requires Sound(w.mem, w.heap)
  {
    var i := Position(w.heap.blocks, ptr, 0);
    if MayUse(w, ptr) then w.(mem := FreeMemory(w.mem, w.heap, i), heap := Free(w.heap, i)) else w
  }

  ghost function NextWrite(w: World, e: Event): World
    requires Sound(w.mem, w.heap) && e.Write?
  {
    if !MayWrite(w, e) then w
    else if !MappedAt(w.space, e.ptr + e.offset) then w.(faulted := true)
    else
      StoreSoundIff(w.mem, w.heap, Position(w.heap.blocks, e.ptr, 0), e.offset, e.value);
      w.(mem := StoreByte(w.mem, e.ptr + e.offset, e.value))
  }

  ghost function NextVmmAlloc(w: World, size: u32, flags: PageFlags): World
    requires Sound(w.mem, w.heap)
  {
    var a := Allocate(w.space, w.heap, w.regions, size, flags);
    var room := RequestRoom(w.space, w.heap.end, NODE_SIZE);
    w.(mem := if Chosen(w.regions, size).None? then w.mem else MallocMemory(w.mem, w.heap, NODE_SIZE, room),
       heap := a.heap, space := a.space, regions := a.regions)
  }

  /** What a client does that it may not do changes nothing; once a layer is damaged the run stops. */
  ghost function Next(w: World, e: Event): World {
    if w.faulted || !Sound(w.mem, w.heap) then w
    else
      match e
      case Kmalloc(n) => NextKmalloc(w, n)
      case Kfree(ptr) => NextKfree(w, ptr)
      case Write(_, _, _) => NextWrite(w, e)
      case VmmAlloc(size, flags) => NextVmmAlloc(w, size, flags)
      case VmmFree(ptr) => w.(regions := FreeRegion(w.regions, ptr, HEAP_START))
  }

  ghost function RunAll(w: World, events: seq<Event>): World {
    if events == [] then w else Next(RunAll(w, events[..|events| - 1]), events[|events| - 1])
  }

  /** The write goes to a page that is not mapped. */
  ghost predicate Faults(w: World, e: Event)
    requires e.Write?
  {
    MayWrite(w, e) && !MappedAt(w.space, e.ptr + e.offset)
  }

  /** The write lands in the header behind the block and changes what the header says. */
  ghost predicate Damages(w: World, e: Event)
    requires e.Write? && Sound(w.mem, w.heap)
  {
    var i := Position(w.heap.blocks, e.ptr, 0);
    MayWrite(w, e) && i + 1 < |w.heap.blocks|
    && (StoreSoundIff(w.mem, w.heap, i, e.offset, e.value);
        ChangesHeader(w.mem, w.heap.blocks[i + 1].addr, e.ptr + e.offset, e.value))
  }

  /**
   * A request whose 32-bit sum wraps, a call that takes the null pointer for a page table, and a client
   * write that faults or changes a header that overlaps its block.
   */
  ghost predicate Harmful(w: World, e: Event) {
    Sound(w.mem, w.heap) &&
    match e {
      case Kmalloc(n) =>
        WrapsIntoHeap(w.heap, n, RequestRoom(w.space, w.heap.end, n)) || MallocStarves(w.space, w.heap, n)
      case Write(_, _, _) => Faults(w, e) || Damages(w, e)
      case VmmAlloc(size, flags) => Allocate(w.space, w.heap, w.regions, size, flags).starves
      case _ => false
    }
  }

  // ----- each step keeps the layers in order exactly when it is not harmful -----

  lemma MallocResident(s: Space, m: Bytes, h: Heap, base: set<nat>, limit: nat, n: u32)
    requires Sound(m, h) && IsOwned(s, base, limit) && Resident(s, h.end)
    requires !WrapsIntoHeap(h, n, RequestRoom(s, h.end, n)) && !MallocStarves(s, h, n)
    ensures Resident(SpaceAfterMalloc(s, h, n), Malloc(h, n, RequestRoom(s, h.end, n)).0.end)
  {
    hide IsOwned, Resident, RequestRoom, RequestStarves, SpaceAfterRequest;
    var long := LongOf(m, h);
    FirstFitFits(h.blocks, n, 0);
    if n > 0 && FirstFit(h.blocks, n, 0) == |h.blocks| {
      RequestResident(s, base, limit, h.end, n);
    }
  }

  lemma KmallocGoodIff(w: World, n: u32, base: set<nat>, limit: nat)
    requires Good(w, base, limit)
    ensures Good(NextKmalloc(w, n), base, limit) <==> !Harmful(w, Kmalloc(n))
  {
    hide Sound, IsOwned, Resident, MallocMemory, Malloc, MallocStarves, SpaceAfterMalloc, RequestRoom,
         WrapsIntoHeap, Tiling, RecordsLive;
    var room := RequestRoom(w.space, w.heap.end, n);
    MallocSoundIff(w.mem, w.heap, n, room);
    MallocOwnedIff(w.space, base, limit, w.heap, n);
    RecordsKept(w.heap, LongOf(w.mem, w.heap), w.regions, n, room);
    if !Harmful(w, Kmalloc(n)) { MallocResident(w.space, w.mem, w.heap, base, limit, n); }
  }

  lemma KfreeGood(w: World, ptr: nat, base: set<nat>, limit: nat)
    requires Good(w, base, limit)
    ensures Good(NextKfree(w, ptr), base, limit)
  {
    hide Sound, IsOwned, Resident, FreeMemory, Tiling, RecordsLive;
    if MayUse(w, ptr) {
      var i := Position(w.heap.blocks, ptr, 0);
      FreeSound(w.mem, w.heap, i);
      RecordsStay(w.heap, LongOf(w.mem, w.heap), w.regions, i);
    }
  }

  lemma WriteGoodIff(w: World, e: Event, base: set<nat>, limit: nat)
    requires Good(w, base, limit) && e.Write?
    ensures Good(NextWrite(w, e), base, limit) <==> !Harmful(w, e)
  {
    hide Sound, IsOwned, Resident, ChangesHeader, MappedAt, Tiling, RecordsLive;
    if MayWrite(w, e) { StoreSoundIff(w.mem, w.heap, Position(w.heap.blocks, e.ptr, 0), e.offset, e.value); }
  }

  /** The heap's part of vmm_alloc is a request that never wraps. */
  lemma RecordGood(w: World, base: set<nat>, limit: nat)
    requires Good(w, base, limit)
    ensures var room := RequestRoom(w.space, w.heap.end, NODE_SIZE);
      var s := SpaceAfterMalloc(w.space, w.heap, NODE_SIZE);
      && Sound(MallocMemory(w.mem, w.heap, NODE_SIZE, room), Malloc(w.heap, NODE_SIZE, room).0)
      && (IsOwned(s, base, limit) <==> !MallocStarves(w.space, w.heap, NODE_SIZE))
      && (MallocStarves(w.space, w.heap, NODE_SIZE) ==> s.free == {})
      && (!MallocStarves(w.space, w.heap, NODE_SIZE) ==> Resident(s, Malloc(w.heap, NODE_SIZE, room).0.end))
  {
    hide Sound, IsOwned, Resident, MallocMemory, Malloc, MallocStarves, SpaceAfterMalloc, RequestRoom, WrapsIntoHeap;
    var room := RequestRoom(w.space, w.heap.end, NODE_SIZE);
    SmallRequestsNeverWrap(w.heap, LongOf(w.mem, w.heap), NODE_SIZE, room);
    MallocSoundIff(w.mem, w.heap, NODE_SIZE, room);
    MallocOwnedIff(w.space, base, limit, w.heap, NODE_SIZE);
    if !MallocStarves(w.space, w.heap, NODE_SIZE) {
      MallocResident(w.space, w.mem, w.heap, base, limit, NODE_SIZE);
    }
  }

  /** The regions' part: the list still tiles its range, and its records are live. */
  lemma GrantedRegions(w: World, i: nat, size: nat, flags: PageFlags, base: set<nat>, limit: nat)
    requires Good(w, base, limit) && i < |w.regions| && IsPages(size) && size < w.regions[i].size
    ensures var a := Granted(w.space, w.heap, w.regions, i, size, flags);
      Tiling(a.regions) && RecordsLive(a.heap, a.regions)
  {
    hide Sound, IsOwned, Resident, Malloc, RequestRoom, Tiling, Live, IsPages;
    var room := RequestRoom(w.space, w.heap.end, NODE_SIZE);
    var (h, node) := Malloc(w.heap, NODE_SIZE, room);
    RecordsKept(w.heap, LongOf(w.mem, w.heap), w.regions, NODE_SIZE, room);
    SplitTiling(w.regions, i, size, node);
    if node != 0 { RecordsSplit(h, w.regions, i, size, node); }
    var split := SplitRegion(w.regions, i, size, node);
    SetFreeTiling(split, i, false);
    assert forall j :: 0 <= j < |split| ==> WithFlag(split, i, false)[j].node == split[j].node;
  }

  ghost function GrantedWorld(w: World, i: nat, size: nat, flags: PageFlags): World
    requires Sound(w.mem, w.heap) && i < |w.regions| && size < w.regions[i].size
  {
    var a := Granted(w.space, w.heap, w.regions, i, size, flags);
    var room := RequestRoom(w.space, w.heap.end, NODE_SIZE);
    w.(mem := MallocMemory(w.mem, w.heap, NODE_SIZE, room), heap := a.heap, space := a.space, regions := a.regions)
  }

  lemma GrantedGoodIff(w: World, i: nat, size: nat, flags: PageFlags, base: set<nat>, limit: nat)
    requires Good(w, base, limit) && i < |w.regions| && IsPages(size) && size < w.regions[i].size
    ensures Good(GrantedWorld(w, i, size, flags), base, limit) <==>
              !Granted(w.space, w.heap, w.regions, i, size, flags).starves
  {
    GrantedRegions(w, i, size, flags, base, limit);
    RecordGood(w, base, limit);
    RegionAligned(w.regions, i);
    hide Sound, IsOwned, Resident, MallocMemory, Malloc, MallocStarves, SpaceAfterMalloc, RequestRoom, Tiling,
         RecordsLive, SpaceAfterBacking, BackingStarves, BackingRoom, WithFlag, SplitRegion;
    var (h, node) := RecordFor(w.space, w.heap);
    var (s, at) := (SpaceAfterMalloc(w.space, w.heap, NODE_SIZE), w.regions[i].base);
    var granted := GrantedSize(w.regions, i, size, node);
    if MallocStarves(w.space, w.heap, NODE_SIZE) {
      BackingWithoutFrames(s, at, granted, flags);
    } else {
      BackingOwnedIff(s, base, limit, at, granted, flags);
      if !BackingStarves(s, at, granted, flags) {
        EndInside(MallocMemory(w.mem, w.heap, NODE_SIZE, RequestRoom(w.space, w.heap.end, NODE_SIZE)), h);
        BackingMaps(s, base, limit, at, granted, flags, h.end);
      }
    }
  }

  lemma VmmAllocGoodIff(w: World, size: u32, flags: PageFlags, base: set<nat>, limit: nat)
    requires Good(w, base, limit)
    ensures Good(NextVmmAlloc(w, size, flags), base, limit) <==> !Harmful(w, VmmAlloc(size, flags))
  {
    hide Good, Granted, MallocMemory;
    ChosenSuits(w.regions, size);
    AlignedSize(size);
    var c := Chosen(w.regions, size);
    if c.Some? { GrantedGoodIff(w, c.value, AlignUp(size), flags, base, limit); }
    GoodIsSound(w, base, limit);
  }

  lemma GoodIsSound(w: World, base: set<nat>, limit: nat)
    requires Good(w, base, limit)
    ensures Sound(w.mem, w.heap) && !w.faulted
  {
  }

  lemma EndInside(m: Bytes, h: Heap)
    requires Sound(m, h)
    ensures HEAP_START <= h.end <= HEAP_END
  {
  }

  lemma NextGoodIff(w: World, e: Event, base: set<nat>, limit: nat)
    requires Good(w, base, limit)
    ensures Good(Next(w, e), base, limit) <==> !Harmful(w, e)
  {
    hide Good, Harmful, NextKmalloc, NextKfree, NextWrite, NextVmmAlloc;
    GoodIsSound(w, base, limit);
    match e
    case Kmalloc(n) => KmallocGoodIff(w, n, base, limit);
    case Kfree(ptr) =>
      KfreeGood(w, ptr, base, limit);
      NotHarmful(w, e);
    case Write(_, _, _) => WriteGoodIff(w, e, base, limit);
    case VmmAlloc(size, flags) => VmmAllocGoodIff(w, size, flags, base, limit);
    case VmmFree(ptr) =>
      FreeDoesNothing(w.regions, ptr);
      NotHarmful(w, e);
  }

  lemma NotHarmful(w: World, e: Event)
    requires e.Kfree? || e.VmmFree?
    ensures !Harmful(w, e)
  {
  }

  // ----- all runs -----

  ghost predicate GoodThroughout(w: World, events: seq<Event>, base: set<nat>, limit: nat) {
    Good(RunAll(w, events), base, limit)
    && (events != [] ==> GoodThroughout(w, events[..|events| - 1], base, limit))
  }

  ghost predicate NeverHarmful(w: World, events: seq<Event>) {
    events != [] ==>
      var front := events[..|events| - 1];
      NeverHarmful(w, front) && !Harmful(RunAll(w, front), events[|events| - 1])
  }

  /**
   * Over every run in which clients release only what they own and write only bytes they asked for: no
   * access faults, every header keeps its link, its size, its flag and its canary, the heap stays mapped,
   * every frame has one holder, and the regions tile their range, in every state of the run, exactly when
   * no request wraps, no call starves and no write goes to an unmapped page or changes a header.
   */
  lemma {:induction false} GoodOverRunsIff(w: World, events: seq<Event>, base: set<nat>, limit: nat)
    requires Good(w, base, limit)
    ensures GoodThroughout(w, events, base, limit) <==> NeverHarmful(w, events)
    decreases |events|
  {
    hide Good, Harmful, Next;
    if events != [] {
      var front := events[..|events| - 1];
      GoodOverRunsIff(w, front, base, limit);
      var n := RunAll(w, front);
      if Good(n, base, limit) { NextGoodIff(n, events[|events| - 1], base, limit); }
    }
  }
}
