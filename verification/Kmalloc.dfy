/** The kernel heap over the address space (kernel/kmalloc.c). */
module Kmalloc {
  import opened Machine
  import opened Pmm
  import opened PageTables
  import opened SpaceModel
  import opened Ownership
  import opened PagingTheorems
  import opened Paging
  import opened MappingLoops
  import opened HeapModel
  import opened HeapMemory
  import opened HeapTheorems
  import opened HeapSteps
  import opened HeapSpace
  import HeapStores

  /** The directory entry of HEAP_START. */
  const HEAP_TABLE := 832

  datatype Release = Ignored | Released | Panicked

  class KernelHeap {
    const space: AddressSpace
    /** g_memory_base, 0 before the heap is set up, and end_of_heap. */
    var base: u32
    var end: u32
    /** The bytes at the heap's virtual addresses. */
    var mem: Bytes

    ghost var blocks: seq<Block>
    ghost var long: nat

    constructor (space: AddressSpace, mem: Bytes)
      ensures this.space == space && base == 0 && end == 0 && this.mem == mem
    {
      this.space, this.mem := space, mem;
      base, end := 0, 0;
      blocks, long := [], 0;
    }

    ghost function State(): Heap
      reads this
    {
      Heap(blocks, end)
    }

    /** The list is in memory, in shape. */
    ghost predicate Listing()
      reads this
    {
      base == HEAP_START && Shape(State(), long) && Represents(mem, blocks)
    }

    /** The address space is in order, and the heap's bytes are mapped unless it once starved. */
    ghost predicate Backed()
      reads this, space, space.pmm, space.pmm.words
    {
      space.Valid() && HEAP_START <= end <= HEAP_END && (space.starved || Resident(space.State(), end))
    }

    ghost predicate Valid()
      reads this, space, space.pmm, space.pmm.words
    {
      Listing() && Backed()
    }

    /** The address of the block at position i, or null past the end of the list. */
    ghost function At(i: nat): nat
      reads this
      requires i <= |blocks|
    {
      if i < |blocks| then blocks[i].addr else 0
    }

    method ReadHeader(a: u32) returns (h: Header)
      requires InWindow(a, META)
      ensures h == HeaderAt(mem, a)
    {
      h := HeaderAt(mem, a);
    }

    /** find_first_free_kernel_block */
    method FindFirstFree(n: u32) returns (block: u32)
      requires Listing()
      ensures block == At(FirstFit(blocks, n, 0))
    {
      hide HeaderAt, Shape;
      ghost var i := 0;
      block := base;
      FirstBlock(State(), long);
      while block != 0
        invariant i <= |blocks| && block == At(i)
        invariant FirstFit(blocks, n, i) == FirstFit(blocks, n, 0)
        decreases |blocks| - i
      {
        BlockAt(mem, State(), long, i);
        var h := ReadHeader(block);
        if h.free && h.size >= n {
          return;
        }
        block, i := h.next, i + 1;
      }
      BlockAt(mem, State(), long, i);
    }

    /** get_last_kernel_block, for the list that h describes. */
    method GetLast(ghost h: Heap) returns (block: u32)
      requires base == HEAP_START && Shape(h, long) && Represents(mem, h.blocks)
      ensures block == h.blocks[|h.blocks| - 1].addr
    {
      hide HeaderAt, Shape;
      FirstBlock(h, long);
      ghost var i := 0;
      block := base;
      BlockAt(mem, h, long, 0);
      var header := ReadHeader(block);
      while header.next != 0
        invariant i < |h.blocks| && block == h.blocks[i].addr
        invariant InWindow(block, META) && header == HeaderAt(mem, block)
        invariant header.next == NextAddr(h.blocks, i)
        decreases |h.blocks| - i
      {
        block, i := header.next, i + 1;
        BlockAt(mem, h, long, i);
        header := ReadHeader(block);
      }
      if i + 1 < |h.blocks| { BlockAt(mem, h, long, i + 1); }
    }

    /** ksbrk goes byte by byte, its bound included, and its sum is a 32-bit one. */
    method Ksbrk(nbytes: u32) returns (r: u32)
      requires space.Valid() && HEAP_START <= end <= HEAP_END
      modifies `end, space, space.pmm.words
      ensures space.Valid() && space.base == old(space.base)
      ensures var newEnd := Wrap(old(end) + nbytes);
        && (r, end) == (if SbrkRoom(old(space.State()), old(end), newEnd) then (old(end), newEnd) else (0, old(end)))
        && space.State() == SpaceAfterSbrk(old(space.State()), old(end), newEnd)
        && space.starved == (old(space.starved) || SbrkStarves(old(space.State()), old(end), newEnd))
        && (r == 0 && newEnd <= HEAP_END ==> space.State().free == {})
        && (!space.starved && newEnd <= HEAP_END ==>
              old(space.State()).Typed() && space.State().Typed()
              && LoopEntries(old(space.State()), space.State(), old(end), newEnd, READ_WRITE))
    {
      hide AddressSpace.State, AddressSpace.Valid, Space.Back, BackAll, LoopStarves, FindsFrames, Starves, LoopEntries;
      var newEnd := Wrap(end + nbytes);
      ghost var s := space.State();
      SbrkEntries(space, end, newEnd);
      if newEnd > HEAP_END {
        return 0;
      }
      var prev := end;
      var va := prev;
      while va <= newEnd
        invariant space.Valid() && space.base == old(space.base) && end == prev <= va
        invariant space.starved || LoopStarves(space.State(), va, 1, newEnd, READ_WRITE) <==>
                    old(space.starved) || LoopStarves(s, prev, 1, newEnd, READ_WRITE)
        invariant BackAll(space.State(), va, 1, newEnd, READ_WRITE) == BackAll(s, prev, 1, newEnd, READ_WRITE)
        invariant FindsFrames(space.State(), va, 1, newEnd, READ_WRITE) == FindsFrames(s, prev, 1, newEnd, READ_WRITE)
        decreases newEnd + 1 - va
      {
        ValidIsSane(space);
        BackAllStep(space.State(), va, 1, newEnd, READ_WRITE);
        var ok := space.BackPage(va, READ_WRITE);
        if !ok {
          BackAllWithoutFrames(space.State(), va + 1, 1, newEnd, READ_WRITE);
          return 0;
        }
        va := va + 1;
      }
      BackAllDone(space.State(), va, 1, newEnd, READ_WRITE);
      end := newEnd;
      r := prev;
    }

    /** request_space: two calls of ksbrk, and a header at the old end. The list is not touched. */
    method RequestSpace(size: u32) returns (block: u32)
      requires Valid() && size > 0
      modifies `end, `mem, space, space.pmm.words
      ensures space.Valid() && space.base == old(space.base)
      ensures space.State() == SpaceAfterRequest(old(space.State()), old(end), size)
      ensures space.starved == (old(space.starved) || RequestStarves(old(space.State()), old(end), size))
      ensures var grown := GrownEnd(old(end), size);
        if RequestRoom(old(space.State()), old(end), size) then
          block == old(end) && end == grown && mem == EndHeader(old(mem), block, size)
        else
          && block == 0 && mem == old(mem)
          && end == (if grown < old(end) then grown else old(end))
          && (grown <= HEAP_END ==> space.State().free == {})
    {
      hide HeaderAt, AddressSpace.State, AddressSpace.Valid, Shape, Represents, SpaceAfterSbrk, SbrkStarves, SbrkRoom;
      assert Wrap(end + 0) == end;
      ghost var s := space.State();
      ValidIsSane(space);
      RoomNeedsFrames(s, end, size);
      block := Ksbrk(0);
      var request := Ksbrk(Wrap(size + META));
      if block != request {
        return 0;
      }
      if request == 0 {
        return 0;
      }
      mem := WithSize(mem, block, size);
      mem := WithNext(mem, block, 0);
      mem := WithFree(mem, block, false);
      mem := WithCanary(mem, block);
    }

    /** The splitting branch of kmalloc. */
    method SplitBlock(block: u32, n: u32, ghost i: nat)
      requires Listing() && i < |blocks| && blocks[i].IsFree() && block == blocks[i].addr
      requires n > 0 && blocks[i].size > n + META + MIN_BLOCK
      modifies `mem, `blocks, `long
      ensures Listing() && State() == Cut(old(State()), i, n)
      ensures SameOutside(old(mem), mem, block, n + 2 * META)
      ensures InWindow(block, META) && InWindow(block + META + n, META) && block + META + n < WORD
      ensures n + META <= HeaderAt(old(mem), block).size && mem == CutMemory(old(mem), block, n)
    {
      hide HeaderAt, Shape, Represents, WithSize, WithFree, WithNext, WithCanary, Cut;
      ghost var h, m := State(), mem;
      CutInMemory(mem, h, long, i, n);
      CutShape(h, long, i, n);
      CutHeaders(mem, block, n);
      var header := ReadHeader(block);
      mem := WithSize(mem, block, n);
      var newBlock := block + n + META;
      mem := WithFree(mem, newBlock, true);
      mem := WithNext(mem, newBlock, header.next);
      mem := WithSize(mem, newBlock, header.size - n - META);
      mem := WithCanary(mem, newBlock);
      mem := WithNext(mem, block, newBlock);
      assert mem == CutMemory(m, block, n);
      blocks, long := Cut(h, i, n).blocks, if i <= long then long + 1 else long;
    }

    /** The branch of kmalloc that serves a free block: split it if enough is left, and take it. */
    method Serve(block: u32, n: u32, ghost i: nat)
      requires Listing() && i < |blocks| && Fits(blocks[i], n) && n > 0 && block == blocks[i].addr
      modifies `mem, `blocks, `long
      ensures Listing() && ClientBytesKept(old(mem), mem, old(State()))
      ensures HeapStores.Sound(old(mem), old(State())) && mem == HeapStores.ServeMemory(old(mem), old(State()), n, i)
      ensures var h := old(State());
        State() == Take(if h.blocks[i].size > n + META + MIN_BLOCK then Cut(h, i, n) else h, i, n)
    {
      hide HeaderAt, Shape, Represents, WithFree, CutMemory, ClientBytesKept;
      ghost var h, m := State(), mem;
      HeapStores.IsSound(mem, h, long);
      BlockAt(mem, h, long, i);
      var header := ReadHeader(block);
      ghost var len := META;
      if header.size > n + META + MIN_BLOCK {
        SplitBlock(block, n, i);
        len := n + 2 * META;
      }
      TakeShape(State(), long, i, n);
      TakeInMemory(mem, State(), long, i, n);
      SetFree(mem, block, false);
      mem := WithFree(mem, block, false);
      blocks := Take(State(), i, n).blocks;
      KeepsClientBytes(m, mem, h, old(long), i, len);
    }

    /** The branch of kmalloc that finds no block: request_space, then link the last block. */
    method Extend(n: u32) returns (block: u32)
      requires Valid() && n > 0 && FirstFit(blocks, n, 0) == |blocks|
      modifies `end, `mem, `blocks, space, space.pmm.words
      ensures space.Valid() && space.base == old(space.base) && Represents(mem, blocks)
      ensures space.State() == SpaceAfterRequest(old(space.State()), old(end), n)
      ensures space.starved == (old(space.starved) || RequestStarves(old(space.State()), old(end), n))
      ensures block == 0 <==> !RequestRoom(old(space.State()), old(end), n)
      ensures (State(), if block == 0 then 0 else block + META) == Malloc(old(State()), n, block != 0)
      ensures block == 0 && Grows(old(State()), n) ==> space.State().free == {}
      ensures !WrapsIntoHeap(old(State()), n, block != 0) ==> Valid()
      ensures GrownBytesKept(old(mem), mem, old(State()))
      ensures HeapStores.Sound(old(mem), old(State()))
      ensures mem == if block == 0 then old(mem) else HeapStores.ExtendMemory(old(mem), old(State()), n)
    {
      hide HeaderAt, AddressSpace.State, AddressSpace.Valid, Shape, Represents, EndHeader, WithNext, WithFree,
           SpaceAfterRequest, RequestStarves, RequestRoom, Resident, IsOwned;
      HeapStores.IsSound(mem, State(), long);
      ghost var h, m := State(), mem;
      EndHeaderKeeps(mem, h, long, n);
      RoomGrows(space.State(), h, n);
      if !space.starved {
        OwnedSpace(space);
        if !RequestStarves(space.State(), end, n) {
          RequestResident(space.State(), space.base, space.pmm.size, end, n);
        }
      }
      block := RequestSpace(n);
      if block == 0 {
        SameWhenRefused(h, long, n, end);
        return 0;
      }
      GrowInMemory(m, h, long, n);
      var last := GetLast(h);
      mem := WithNext(mem, last, block);
      assert mem == GrowMemory(m, last, h.end, n);
      blocks := Grow(h, n).blocks;
      GrownHeader(mem, h, n);
      FreeAgain(mem, block);
      mem := WithFree(mem, block, false);
      forall x: nat | InWindow(x, 1) && ClientByte(h, x) && !(h.end <= x < h.end + META)
        ensures Byte(mem, x) == Byte(m, x)
      {
        GrowthKeepsOtherBytes(m, h, long, n, x);
      }
      MallocShapeIff(h, long, n, true);
      GrownEndIs(h, long, n);
    }

    /**
     * kmalloc. List, bytes, pointer and address space after the call are functions of those before
     * it; the pointer is null for want of frames exactly when RequestRoom fails.
     */
    method Kmalloc(nbytes: u32) returns (ptr: u32)
      requires base == 0 || Valid()
      modifies `end, `mem, `blocks, `long, space, space.pmm.words
      ensures base == old(base) && space.base == old(space.base)
      ensures old(base) == 0 ==> ptr == 0 && State() == old(State()) && mem == old(mem)
                                 && space.State() == old(space.State()) && space.starved == old(space.starved)
      ensures old(base) != 0 ==> var room := RequestRoom(old(space.State()), old(end), nbytes);
        && (State(), ptr) == Malloc(old(State()), nbytes, room)
        && HeapStores.Sound(old(mem), old(State()))
        && mem == HeapStores.MallocMemory(old(mem), old(State()), nbytes, room)
        && space.State() == SpaceAfterMalloc(old(space.State()), old(State()), nbytes)
        && space.starved == (old(space.starved) || MallocStarves(old(space.State()), old(State()), nbytes))
        && space.Valid() && Represents(mem, blocks) && GrownBytesKept(old(mem), mem, old(State()))
        && (!WrapsIntoHeap(old(State()), nbytes, room) ==> Valid())
      ensures ptr == 0 <==>
                old(base) == 0 || Refused(old(State()), nbytes, RequestRoom(old(space.State()), old(end), nbytes))
      ensures old(base) != 0 ==> ServesLowest(old(State()), State(), ptr, nbytes)
    {
      hide Resident, HeaderAt, AddressSpace.State, AddressSpace.Valid, Shape, Represents, ClientByte, Cut, Take,
           SpaceAfterRequest, RequestStarves, RequestRoom, IsOwned, WrapsIntoHeap, Refused,
           ServesLowest;
      if base != 0 { HeapStores.IsSound(mem, State(), long); }
      if base != 0 { MallocAnswers(State(), nbytes, RequestRoom(space.State(), end, nbytes)); }
      if nbytes <= 0 || base == 0 {
        return 0;
      }
      ghost var h := State();
      FirstFitFits(blocks, nbytes, 0);
      var block := FindFirstFree(nbytes);
      if FirstFit(blocks, nbytes, 0) < |blocks| { AtIsNull(h, long, FirstFit(blocks, nbytes, 0)); }
      if block == 0 {
        block := Extend(nbytes);
        if block == 0 {
          return 0;
        }
      } else {
        Serve(block, nbytes, FirstFit(blocks, nbytes, 0));
      }
      ptr := block + META;
    }

    /**
     * initialize_kernel_heap: it maps 17 pages without looking at what alloc_block returns, and
     * makes one free block. While a frame is left at the end, the heap is in order.
     */
    method Initialize()
      requires base == 0 && space.Valid() && (space.starved || !space.State().HasTable(HEAP_TABLE))
      modifies this, space, space.pmm.words
      ensures space.Valid()
      ensures base != 0 ==> Valid() && State() == Initial() && long == 0
      ensures base != 0 ==> State() == Heap([Block(0xD000_0000, 0x1_0000, 0)], 0xD001_0000)
      ensures space.State().free != {} ==> base != 0
      ensures base != 0 && !space.starved ==>
                && space.State() == BackAll(old(space.State()), HEAP_START, PAGE_SIZE, HEAP_START + INITIAL, READ_WRITE)
                && FirstPages(space.State(), 17)
    {
      hide AddressSpace.State, AddressSpace.Valid, FirstPages, BackAll, Represents, Resident, Shape, HeaderAt;
      var ok := MapInitialPages();
      if !ok {
        return;
      }
      PutFirstBlock();
    }

    method MapInitialPages() returns (ok: bool)
      requires space.Valid() && (space.starved || !space.State().HasTable(HEAP_TABLE))
      modifies space, space.pmm.words
      ensures space.Valid()
      ensures ok ==> space.starved || Resident(space.State(), HEAP_START + INITIAL)
      ensures ok && !space.starved ==>
                && space.State() == BackAll(old(space.State()), HEAP_START, PAGE_SIZE, HEAP_START + INITIAL, READ_WRITE)
                && FirstPages(space.State(), 17)
      ensures !ok ==> space.State().free == {}
    {
      hide FrameAllocator.Free, Owned, Space.Back, Starves, FirstPages, BackAll;
      ghost var s := space.State();
      if !space.starved { NoPages(space.State()); }
      var va: u32 := HEAP_START;
      ghost var k := 0;
      while va <= HEAP_START + INITIAL
        invariant k <= 17 && va == HEAP_START + k * PAGE_SIZE
        invariant space.Valid() && (space.starved || FirstPages(space.State(), k))
        invariant space.starved || BackAll(space.State(), va, PAGE_SIZE, HEAP_START + INITIAL, READ_WRITE)
                                == BackAll(s, HEAP_START, PAGE_SIZE, HEAP_START + INITIAL, READ_WRITE)
        decreases 17 - k
      {
        HeapPage(k);
        BackAllStep(space.State(), va, PAGE_SIZE, HEAP_START + INITIAL, READ_WRITE);
        if !space.starved {
          FirstPagesStep(space.State(), space.base, space.owner, space.pmm.size, k);
        }
        ok := space.MapUnchecked(va, READ_WRITE);
        if !ok {
          return;
        }
        va, k := va + PAGE_SIZE, k + 1;
      }
      BackAllDone(space.State(), va, PAGE_SIZE, HEAP_START + INITIAL, READ_WRITE);
      if !space.starved { FirstPagesResident(space.State()); }
      ok := true;
    }

    method PutFirstBlock()
      requires space.Valid() && (space.starved || Resident(space.State(), HEAP_START + INITIAL))
      modifies this
      ensures Valid() && State() == Initial() && long == 0
    {
      hide Resident, HeaderAt, WithFree, WithSize, WithNext, WithCanary, Represents, AddressSpace.Valid;
      InitialShape();
      base := HEAP_START;
      mem := WithFree(mem, base, true);
      mem := WithSize(mem, base, INITIAL);
      mem := WithNext(mem, base, 0);
      mem := WithCanary(mem, base);
      FirstHeader(old(mem), mem);
      end := base + INITIAL;
      blocks, long := Initial().blocks, 0;
    }

    /**
     * kfree. For the pointer of a listed block, in use or free already, it never reaches the panic
     * branch: it frees the block and takes in a free successor. Other pointers into the heap are
     * handed to it only if the header in front of them is broken.
     */
    method Kfree(ptr: u32, ghost i: nat) returns (outcome: Release)
      requires HEAP_START < ptr < HEAP_END ==> InWindow(ptr - META, META)
      requires HEAP_START < ptr < HEAP_END && HeaderAt(mem, ptr - META).canary == CANARY ==>
                 Valid() && i < |blocks| && ptr == blocks[i].addr + META
      modifies `mem, `blocks, `long
      ensures outcome == Ignored <==> !(0xD000_0000 < ptr < 0xE000_0000)
      ensures old(Valid() && i < |blocks| && ptr == blocks[i].addr + META) ==> outcome == Released
      ensures HEAP_START < ptr < HEAP_END ==>
                (outcome == Panicked <==> HeaderAt(old(mem), ptr - 16).canary != 0x6942_0691)
      ensures outcome != Released ==> mem == old(mem) && State() == old(State()) && long == old(long)
      ensures outcome == Released ==> Valid() && i < old(|blocks|) && State() == Free(old(State()), i)
      ensures outcome == Released ==>
                var (b, blocks') := (old(blocks)[i], old(blocks));
                && end == old(end)
                && (i + 1 < |blocks'| && blocks'[i + 1].IsFree() ==>
                      blocks == blocks'[..i] + [Block(b.addr, b.size + blocks'[i + 1].size + 16, 0)] + blocks'[i + 2..])
                && (!(i + 1 < |blocks'| && blocks'[i + 1].IsFree()) ==>
                      blocks == blocks'[..i] + [Block(b.addr, b.size, 0)] + blocks'[i + 1..])
      ensures outcome == Released ==> ClientBytesKept(old(mem), mem, old(State()))
      ensures outcome == Released ==> HeapStores.Sound(old(mem), old(State()))
                                      && mem == HeapStores.FreeMemory(old(mem), old(State()), i)
    {
      hide HeaderAt, AddressSpace.State, AddressSpace.Valid, Shape, Represents, Resident;
      if Listing() && i < |blocks| && ptr == blocks[i].addr + META {
        HeapStores.IsSound(mem, State(), long);
        HeapStores.ReleaseFindsCanary(mem, State(), i);
      }
      if ptr == 0 || HEAP_END <= ptr || ptr <= HEAP_START {
        return Ignored;
      }
      var block := ptr - META;
      var header := ReadHeader(block);
      if header.canary != CANARY {
        return Panicked;
      }
      FreeEffect(State(), i);
      ReleaseBlock(block, i);
      outcome := Released;
    }

    method ReleaseBlock(block: u32, ghost i: nat)
      requires Listing() && i < |blocks| && block == blocks[i].addr
      modifies `mem, `blocks, `long
      ensures Listing() && State() == Free(old(State()), i)
      ensures HeapStores.Sound(old(mem), old(State())) && mem == HeapStores.FreeMemory(old(mem), old(State()), i)
      ensures ClientBytesKept(old(mem), mem, old(State()))
    {
      hide HeaderAt, Shape, Represents, WithFree, WithNext, WithSize, ClientBytesKept, Free, Take;
      ghost var h, m := State(), mem;
      HeapStores.IsSound(mem, h, long);
      BlockAt(mem, h, long, i);
      FreeShape(h, long, i);
      FreeCases(h, i);
      var header := ReadHeader(block);
      mem := WithFree(mem, block, true);
      var next := header.next;
      SetFree(m, block, true);
      if next != 0 {
        BlockAt(m, h, long, i + 1);
        ReleasedNext(m, h, long, i);
        var nextHeader := ReadHeader(next);
        if nextHeader.free {
          MergeInMemory(m, h, long, i);
          MergeHeaders(m, block, next);
          mem := WithNext(mem, block, nextHeader.next);
          mem := WithSize(mem, block, Wrap(header.size + nextHeader.size + META));
          assert mem == MergeMemory(m, block, next);
          long := if i < long then long - 1 else long;
        } else {
          TakeInMemory(m, h, long, i, 0);
        }
      } else {
        TakeInMemory(m, h, long, i, 0);
      }
      blocks := Free(h, i).blocks;
      KeepsClientBytes(m, mem, h, old(long), i, META);
    }

    /** A client writes one of the bytes it asked for, in a mapped page and where no header shares it. */
    method ClientStore(ptr: u32, offset: nat, v: u8, ghost i: nat)
      requires Valid() && i < |blocks| && offset < blocks[i].asked && ptr == blocks[i].addr + META
      requires MappedAt(space.State(), ptr + offset)
      requires !(i == long && i + 1 < |blocks| && offset + META >= blocks[i].size)
      modifies `mem
      ensures Valid() && InWindow(ptr + offset, 1) && mem == StoreByte(old(mem), ptr + offset, v)
    {
      hide HeaderAt, Shape, Represents;
      StoreInside(State(), long, i, offset);
      ClientByteIff(State(), long, i, offset);
      ClientStoreKeeps(mem, State(), long, ptr + offset, v);
      mem := StoreByte(mem, ptr + offset, v);
    }
  }

  /**
   * In a valid heap that has not starved, every byte of every header and payload is mapped exactly
   * when the long block has a successor or the page of its last byte is mapped; that page can be
   * missing only if end_of_heap lies in the last bytes of a page.
   */
  lemma HeapBytesMappedIff(heap: KernelHeap)
    requires heap.Valid() && !heap.space.starved
    ensures (forall i: nat, x: nat :: i < |heap.blocks| && InBlock(heap.blocks[i], x) ==>
               MappedAt(heap.space.State(), x))
       <==> heap.long + 1 < |heap.blocks| || MappedAt(heap.space.State(), heap.end + META - 1)
    ensures heap.end % PAGE_SIZE <= PAGE_SIZE - META ==> MappedAt(heap.space.State(), heap.end + META - 1)
  {
    hide HeaderAt, AddressSpace.State, AddressSpace.Valid, Represents;
    EveryByteMappedIff(heap.space.State(), heap.State(), heap.long);
    if heap.end % PAGE_SIZE <= PAGE_SIZE - META { EndOfPage(heap.space.State(), heap.end); }
  }

  lemma OwnedSpace(space: AddressSpace)
    requires space.Valid() && !space.starved
    ensures IsOwned(space.State(), space.base, space.pmm.size)
  {
  }

  /** ksbrk adds writable pages between the two ends, and no others. */
  lemma SbrkEntries(space: AddressSpace, end: nat, newEnd: nat)
    requires space.Valid()
    ensures var s := space.State();
      !space.starved && newEnd <= HEAP_END && !SbrkStarves(s, end, newEnd) ==>
        s.Typed() && SpaceAfterSbrk(s, end, newEnd).Typed()
        && LoopEntries(s, SpaceAfterSbrk(s, end, newEnd), end, newEnd, READ_WRITE)
  {
    hide AddressSpace.State, AddressSpace.Valid, BackAll, LoopStarves, LoopEntries;
    if !space.starved && newEnd <= HEAP_END {
      OwnedSpace(space);
      if !SbrkStarves(space.State(), end, newEnd) {
        BackAllEntries(space.State(), space.base, space.pmm.size, end, 1, newEnd, READ_WRITE);
      }
    }
  }

  /** A request that finds its frames passes the limit test. */
  lemma RoomGrows(s: Space, h: Heap, n: nat)
    ensures RequestRoom(s, h.end, n) ==> GrownEnd(h.end, n) <= HEAP_END
  {
  }

  /** If ksbrk(0) fails, no frame is left and the second call fails too, unless its sum wraps. */
  lemma RoomNeedsFrames(s: Space, end: nat, n: nat)
    requires s.Sane() && HEAP_START <= end <= HEAP_END
    ensures var (m, grown) := (SpaceAfterSbrk(s, end, end), GrownEnd(end, n));
      && (!SbrkRoom(s, end, end) ==> m.free == {} && SpaceAfterSbrk(m, end, grown) == m)
      && (!SbrkRoom(s, end, end) && grown >= end ==> !SbrkRoom(m, end, grown))
      && (grown < end ==> SbrkRoom(m, end, grown))
  {
    hide Space.Back, BackAll, FindsFrames, LoopStarves;
    var (m, grown) := (SpaceAfterSbrk(s, end, end), GrownEnd(end, n));
    if s.free == {} {
      BackAllWithoutFrames(s, end, 1, end, READ_WRITE);
      if grown <= HEAP_END { BackAllWithoutFrames(m, end, 1, grown, READ_WRITE); }
    } else {
      BackAllStep(s, end, 1, end, READ_WRITE);
      BackAllDone(s.Back(PdIndex(end), PtIndex(end), READ_WRITE).0, end + 1, 1, end, READ_WRITE);
    }
    if grown < end { BackAllDone(m, end, 1, grown, READ_WRITE); }
  }

  lemma ValidIsSane(space: AddressSpace)
    requires space.Valid()
    ensures space.State().Sane()
  {
  }

  /** Exactly the first k pages of the heap are mapped, present and writable. */
  ghost predicate FirstPages(s: Space, k: nat) {
    s.Typed() && forall j: nat :: j < ENTRIES ==>
      && (s.Mapped(HEAP_TABLE, j) <==> j < k)
      && (j < k ==> s.Pte(HEAP_TABLE, j) == s.Target(HEAP_TABLE, j) * PAGE_SIZE + 3)
  }

  lemma NoPages(s: Space)
    requires s.Typed() && !s.HasTable(HEAP_TABLE)
    ensures FirstPages(s, 0)
  {
  }

  lemma HeapPage(k: nat)
    requires k <= 16
    ensures PdIndex(HEAP_START + k * PAGE_SIZE) == HEAP_TABLE && PtIndex(HEAP_START + k * PAGE_SIZE) == k
  {
  }

  lemma FirstPagesStep(s: Space, base: set<nat>, owner: map<nat, Holder>, limit: nat, k: nat)
    requires Owned(s, base, owner, limit) && k <= 16 && FirstPages(s, k)
    ensures !s.Mapped(HEAP_TABLE, k)
    ensures s.free != {} && !Starves(s, HEAP_TABLE) ==>
              FirstPages(s.Back(HEAP_TABLE, k, READ_WRITE).0, k + 1)
  {
    assert s.Sane();
    assert !s.Mapped(HEAP_TABLE, k);
    hide Space.Back, Owned, Starves, FirstPages, OtherPagesKept;
    if s.free != {} && !Starves(s, HEAP_TABLE) {
      BackKeepsMapped(s, base, owner, limit, HEAP_TABLE, k, READ_WRITE);
      BackOnlyAnswer(s, base, owner, limit, HEAP_TABLE, k, READ_WRITE);
      EntryFrame(Min(s.free), READ_WRITE);
      OnePageMore(s, s.Back(HEAP_TABLE, k, READ_WRITE).0, k);
    }
  }

  lemma OnePageMore(s: Space, n: Space, k: nat)
    requires k < ENTRIES && FirstPages(s, k) && n.Typed()
    requires n.Mapped(HEAP_TABLE, k) && OtherPagesKept(s, n, HEAP_TABLE, k)
    requires n.Pte(HEAP_TABLE, k) == n.Target(HEAP_TABLE, k) * PAGE_SIZE + 3
    ensures FirstPages(n, k + 1)
  {
    forall j: nat | j < ENTRIES
      ensures n.Mapped(HEAP_TABLE, j) <==> j < k + 1
      ensures j < k + 1 ==> n.Pte(HEAP_TABLE, j) == n.Target(HEAP_TABLE, j) * PAGE_SIZE + 3
    {
      if j != k { assert n.Mapped(HEAP_TABLE, j) <==> s.Mapped(HEAP_TABLE, j); }
    }
  }

  lemma FirstPagesResident(s: Space)
    requires FirstPages(s, 17)
    ensures Resident(s, HEAP_START + INITIAL) && Resident(s, HEAP_START + 0x1_0FFF)
    ensures !MappedAt(s, HEAP_START + 0x1_1000)
  {
    forall a: nat | HEAP_START <= a <= HEAP_START + 0x1_0FFF
      ensures MappedAt(s, a)
    {
      assert PdIndex(a) == HEAP_TABLE && PtIndex(a) < 17;
      assert s.Mapped(HEAP_TABLE, PtIndex(a));
    }
    assert PdIndex(HEAP_START + 0x1_1000) == HEAP_TABLE && PtIndex(HEAP_START + 0x1_1000) == 17;
  }

  lemma FirstHeader(m: Bytes, n: Bytes)
    requires n == WithCanary(WithNext(WithSize(WithFree(m, HEAP_START, true), HEAP_START, INITIAL), HEAP_START, 0),
                             HEAP_START)
    ensures Represents(n, Initial().blocks)
  {
    hide HeaderAt, WithFree, WithSize, WithNext, WithCanary;
    var m1 := WithFree(m, HEAP_START, true);
    var m2 := WithSize(m1, HEAP_START, INITIAL);
    var m3 := WithNext(m2, HEAP_START, 0);
    SetFree(m, HEAP_START, true);
    SetSize(m1, HEAP_START, INITIAL);
    SetNext(m2, HEAP_START, 0);
    SetCanary(m3, HEAP_START);
    assert Listed(n, Initial().blocks, 0);
  }

  lemma FreeCases(h: Heap, i: nat)
    requires i < |h.blocks|
    ensures Free(h, i).end == h.end
    ensures if i + 1 < |h.blocks| && h.blocks[i + 1].IsFree() then |Free(h, i).blocks| < |h.blocks|
            else Free(h, i) == Take(h, i, 0) && |Free(h, i).blocks| == |h.blocks|
  {
  }

  /** The successor's header is not the one being written. */
  lemma ReleasedNext(m: Bytes, h: Heap, long: nat, i: nat)
    requires Shape(h, long) && Represents(m, h.blocks) && i + 1 < |h.blocks| && InWindow(h.blocks[i].addr, META)
    ensures InWindow(h.blocks[i + 1].addr, META) && h.blocks[i + 1].size < WORD && NextAddr(h.blocks, i + 1) < WORD
    ensures HeaderAt(WithFree(m, h.blocks[i].addr, true), h.blocks[i + 1].addr) == ListHeader(h.blocks, i + 1)
  {
    hide HeaderAt, WithFree;
    var p := WithFree(m, h.blocks[i].addr, true);
    SetFree(m, h.blocks[i].addr, true);
    HeaderFits(h, long, i);
    assert Listed(m, h.blocks, i + 1);
    OtherHeaderKept(m, p, h, long, i, META, i + 1);
  }

  lemma StoreInside(h: Heap, long: nat, i: nat, offset: nat)
    requires Shape(h, long) && i < |h.blocks| && offset < h.blocks[i].asked
    ensures InWindow(h.blocks[i].addr + META + offset, 1)
  {
    HeadersInside(h, long, i);
  }

  /** Client bytes change at most where growth puts a header on a long last block. */
  ghost predicate GrownBytesKept(m: Bytes, n: Bytes, h: Heap) {
    forall x: nat :: InWindow(x, 1) && ClientByte(h, x) && !(h.end <= x < h.end + META) ==> Byte(n, x) == Byte(m, x)
  }

  lemma SameWhenRefused(h: Heap, long: nat, n: u32, end: nat)
    requires Shape(h, long) && n > 0 && FirstFit(h.blocks, n, 0) == |h.blocks|
    requires end == Malloc(h, n, false).0.end
    ensures !WrapsIntoHeap(h, n, false) ==> end == h.end
  {
  }

  lemma GrownHeader(m: Bytes, h: Heap, n: u32)
    requires Represents(m, Grow(h, n).blocks) && n > 0
    ensures InWindow(h.end, META) && !HeaderAt(m, h.end).free
  {
    hide HeaderAt;
    assert Listed(m, Grow(h, n).blocks, |h.blocks|);
  }

  lemma GrownEndIs(h: Heap, long: nat, n: u32)
    requires Shape(h, long) && n > 0 && Grows(h, n)
    ensures !WrapsIntoHeap(h, n, true) ==> GrownEnd(h.end, n) == h.end + n + META
  {
  }

  lemma AtIsNull(h: Heap, long: nat, i: nat)
    requires Shape(h, long) && i < |h.blocks|
    ensures h.blocks[i].addr >= HEAP_START && h.blocks[i].addr + META < WORD
  {
    HeadersInside(h, long, i);
  }

  lemma FirstBlock(h: Heap, long: nat)
    requires Shape(h, long)
    ensures h.blocks != [] && h.blocks[0].addr == HEAP_START
  {
  }

  /** The header that memory holds for the block at position i. */
  lemma BlockAt(m: Bytes, h: Heap, long: nat, i: nat)
    requires Shape(h, long) && Represents(m, h.blocks) && i <= |h.blocks|
    ensures i < |h.blocks| ==>
      && h.blocks[i].addr >= HEAP_START && InWindow(h.blocks[i].addr, META)
      && h.blocks[i].size < WORD && NextAddr(h.blocks, i) < WORD
      && HeaderAt(m, h.blocks[i].addr) == ListHeader(h.blocks, i)
    ensures i + 1 < |h.blocks| ==> h.blocks[i + 1].addr >= HEAP_START
  {
    hide HeaderAt;
    if i < |h.blocks| {
      assert Listed(m, h.blocks, i);
      if i + 1 < |h.blocks| { HeadersInside(h, long, i + 1); }
    }
  }
}
