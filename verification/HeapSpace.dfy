/** The heap's addresses in the address space: which of its bytes lie in mapped pages. */
module HeapSpace {
  import opened Machine
  import opened PageTables
  import opened SpaceModel
  import opened Ownership
  import opened PagingTheorems
  import opened MappingLoops
  import opened FrameCounts
  import opened HeapModel
  import opened HeapTheorems

  /** Byte x lies in a mapped page. */
  ghost predicate MappedAt(s: Space, x: nat) {
    s.Typed() && x < WORD && s.Mapped(PdIndex(x), PtIndex(x))
  }

  /** Every byte from lo up to but not including hi lies in a mapped page. */
  ghost predicate MappedRange(s: Space, lo: nat, hi: nat) {
    forall x: nat :: lo <= x < hi ==> MappedAt(s, x)
  }

  /** The heap's bytes through end_of_heap. */
  ghost predicate Resident(s: Space, end: nat) {
    MappedRange(s, HEAP_START, end + 1)
  }

  // ----- loops -----

  lemma SamePage(va: u32, x: u32)
    requires va <= x < va - va % PAGE_SIZE + PAGE_SIZE
    ensures PdIndex(x) == PdIndex(va) && PtIndex(x) == PtIndex(va)
  {
    hide PdIndex, PtIndex;
    PageNumber(va);
    PageNumber(x);
    assert x / PAGE_SIZE == va / PAGE_SIZE;
  }

  lemma BackKeepsRange(s: Space, base: set<nat>, owner: map<nat, Holder>, limit: nat, va: u32, flags: PageFlags,
                       lo: nat, hi: nat)
    requires Owned(s, base, owner, limit) && PdIndex(va) < SELF && !Starves(s, PdIndex(va))
    requires MappedRange(s, lo, hi) && hi <= WINDOW
    ensures var (n, ok) := s.Back(PdIndex(va), PtIndex(va), flags);
      n.Typed() && MappedRange(n, lo, hi) && (ok ==> MappedAt(n, va))
  {
    assert s.Sane();
    hide Space.Back, Owned, Starves, PdIndex, PtIndex;
    BackKeepsMapped(s, base, owner, limit, PdIndex(va), PtIndex(va), flags);
    var n := s.Back(PdIndex(va), PtIndex(va), flags).0;
    forall x: nat | lo <= x < hi
      ensures MappedAt(n, x)
    {
      assert MappedAt(s, x);
      OutsideWindow(x);
    }
  }

  /** A loop that does not starve unmaps nothing, and if it finds its frames it maps all it passes. */
  lemma {:induction false} LoopMaps(s: Space, base: set<nat>, limit: nat,
                                    va: nat, step: nat, last: nat, flags: PageFlags, lo: nat)
    requires IsOwned(s, base, limit) && last < WINDOW && va <= WINDOW
    requires step == 1 || (step == PAGE_SIZE && va % PAGE_SIZE == 0)
    requires !LoopStarves(s, va, step, last, flags) && MappedRange(s, lo, va)
    ensures MappedRange(BackAll(s, va, step, last, flags), lo, va)
    ensures FindsFrames(s, va, step, last, flags) ==> MappedRange(BackAll(s, va, step, last, flags), lo, last + 1)
    decreases last + step - va
  {
    hide Owned, Space.Back, Starves, PdIndex, PtIndex;
    if va <= last {
      OutsideWindow(va);
      OwnedIsSane(s, base, limit);
      var owner :| Owned(s, base, owner, limit);
      BackKeepsRange(s, base, owner, limit, va, flags, lo, va);
      StepOwnedIff(s, base, limit, BackPage(PdIndex(va), PtIndex(va), flags));
      BackAllStep(s, va, step, last, flags);
      var n := s.Back(PdIndex(va), PtIndex(va), flags).0;
      if s.free == {} {
        NothingToBack(s, PdIndex(va), PtIndex(va), flags);
        BackAllWithoutFrames(s, va, step, last, flags);
      } else {
        NothingToBack(s, PdIndex(va), PtIndex(va), flags);
        PageMapped(n, va, va + step);
        LoopMaps(n, base, limit, va + step, step, last, flags, lo);
      }
    }
  }

  lemma NothingToBack(s: Space, i: nat, j: nat, flags: PageFlags)
    requires s.Sane() && i < SELF && j < ENTRIES
    ensures s.Back(i, j, flags).1 <==> s.free != {}
    ensures s.free == {} ==> s.Back(i, j, flags).0 == s
  {
  }

  lemma PageMapped(n: Space, va: u32, hi: nat)
    requires MappedAt(n, va) && hi <= va - va % PAGE_SIZE + PAGE_SIZE && hi <= WORD
    ensures MappedRange(n, va, hi)
  {
    forall x: nat | va <= x < hi
      ensures MappedAt(n, x)
    {
      SamePage(va, x);
    }
  }

  lemma {:induction false} LoopKeepsRange(s: Space, base: set<nat>, limit: nat,
                                          va: nat, step: nat, last: nat, flags: PageFlags, lo: nat, hi: nat)
    requires IsOwned(s, base, limit) && step > 0 && last < WINDOW && hi <= WINDOW
    requires !LoopStarves(s, va, step, last, flags) && MappedRange(s, lo, hi)
    ensures MappedRange(BackAll(s, va, step, last, flags), lo, hi)
    decreases last + step - va
  {
    hide Owned, Space.Back, Starves, PdIndex, PtIndex;
    if va <= last {
      OutsideWindow(va);
      OwnedIsSane(s, base, limit);
      var owner :| Owned(s, base, owner, limit);
      BackKeepsRange(s, base, owner, limit, va, flags, lo, hi);
      StepOwnedIff(s, base, limit, BackPage(PdIndex(va), PtIndex(va), flags));
      LoopKeepsRange(s.Back(PdIndex(va), PtIndex(va), flags).0, base, limit, va + step, step, last, flags, lo, hi);
    }
  }

  /** Over pages that are mapped already, a loop changes nothing. */
  lemma {:induction false} LoopOverMapped(s: Space, base: set<nat>, limit: nat,
                                          va: nat, step: nat, last: nat, flags: PageFlags)
    requires IsOwned(s, base, limit) && step > 0 && last < WINDOW && MappedRange(s, va, last + 1)
    ensures BackAll(s, va, step, last, flags) == s && !LoopStarves(s, va, step, last, flags)
    ensures FindsFrames(s, va, step, last, flags) <==> va > last || s.free != {}
    decreases last + step - va
  {
    hide Owned, Space.Back, PdIndex, PtIndex;
    if va <= last {
      OutsideWindow(va);
      OwnedIsSane(s, base, limit);
      var owner :| Owned(s, base, owner, limit);
      assert MappedAt(s, va);
      BackKeepsMapped(s, base, owner, limit, PdIndex(va), PtIndex(va), flags);
      LoopOverMapped(s, base, limit, va + step, step, last, flags);
    }
  }

  // ----- what growing the heap does to the address space -----

  /** ksbrk from end to newEnd: both ends are backed, unless the limit test refuses. */
  ghost function SpaceAfterSbrk(s: Space, end: nat, newEnd: nat): Space {
    if newEnd > HEAP_END then s else BackAll(s, end, 1, newEnd, READ_WRITE)
  }

  /** request_space calls ksbrk(0) first, which backs the byte at the end. */
  ghost function SpaceAfterRequest(s: Space, end: nat, n: nat): Space {
    SpaceAfterSbrk(SpaceAfterSbrk(s, end, end), end, GrownEnd(end, n))
  }

  /** kmalloc touches the address space only if no block fits. */
  ghost function SpaceAfterMalloc(s: Space, h: Heap, n: nat): Space {
    if n == 0 || FirstFit(h.blocks, n, 0) < |h.blocks| then s else SpaceAfterRequest(s, h.end, n)
  }

  /** Whether the calls find the frames they need. */
  ghost predicate SbrkRoom(s: Space, end: nat, newEnd: nat) {
    newEnd <= HEAP_END && FindsFrames(s, end, 1, newEnd, READ_WRITE)
  }

  ghost predicate RequestRoom(s: Space, end: nat, n: nat) {
    SbrkRoom(s, end, end) && SbrkRoom(SpaceAfterSbrk(s, end, end), end, GrownEnd(end, n))
  }

  /** When they take the null pointer for a page table. */
  ghost predicate SbrkStarves(s: Space, end: nat, newEnd: nat) {
    newEnd <= HEAP_END && LoopStarves(s, end, 1, newEnd, READ_WRITE)
  }

  ghost predicate RequestStarves(s: Space, end: nat, n: nat) {
    SbrkStarves(s, end, end) || SbrkStarves(SpaceAfterSbrk(s, end, end), end, GrownEnd(end, n))
  }

  ghost predicate MallocStarves(s: Space, h: Heap, n: nat) {
    n > 0 && FirstFit(h.blocks, n, 0) == |h.blocks| && RequestStarves(s, h.end, n)
  }

  lemma SbrkOwnedIff(s: Space, base: set<nat>, limit: nat, end: nat, newEnd: nat)
    requires IsOwned(s, base, limit)
    ensures IsOwned(SpaceAfterSbrk(s, end, newEnd), base, limit) <==> !SbrkStarves(s, end, newEnd)
    ensures SbrkStarves(s, end, newEnd) ==> SpaceAfterSbrk(s, end, newEnd).free == {}
  {
    if newEnd <= HEAP_END { BackAllOwnedIff(s, base, limit, end, 1, newEnd, READ_WRITE); }
  }

  /** kmalloc keeps one holder for every frame exactly when it does not starve. */
  lemma MallocOwnedIff(s: Space, base: set<nat>, limit: nat, h: Heap, n: u32)
    requires IsOwned(s, base, limit)
    ensures IsOwned(SpaceAfterMalloc(s, h, n), base, limit) <==> !MallocStarves(s, h, n)
    ensures MallocStarves(s, h, n) ==> SpaceAfterMalloc(s, h, n).free == {}
  {
    hide IsOwned, SpaceAfterSbrk, SbrkStarves;
    var (m, newEnd) := (SpaceAfterSbrk(s, h.end, h.end), GrownEnd(h.end, n));
    SbrkOwnedIff(s, base, limit, h.end, h.end);
    if SbrkStarves(s, h.end, h.end) {
      SbrkWithoutFrames(m, h.end, newEnd);
    } else {
      SbrkOwnedIff(m, base, limit, h.end, newEnd);
    }
  }

  lemma SbrkWithoutFrames(s: Space, end: nat, newEnd: nat)
    requires s.free == {}
    ensures SpaceAfterSbrk(s, end, newEnd) == s && !SbrkStarves(s, end, newEnd)
  {
    if newEnd <= HEAP_END { BackAllWithoutFrames(s, end, 1, newEnd, READ_WRITE); }
  }

  /** ksbrk keeps the heap resident, and makes what it adds resident. */
  lemma SbrkResident(s: Space, base: set<nat>, limit: nat, end: nat, newEnd: nat)
    requires IsOwned(s, base, limit) && Resident(s, end) && HEAP_START <= end <= HEAP_END
    requires !SbrkStarves(s, end, newEnd)
    ensures Resident(SpaceAfterSbrk(s, end, newEnd), end)
    ensures SbrkRoom(s, end, newEnd) ==> Resident(SpaceAfterSbrk(s, end, newEnd), newEnd)
  {
    hide IsOwned, BackAll, LoopStarves, FindsFrames;
    if newEnd <= HEAP_END {
      LoopKeepsRange(s, base, limit, end, 1, newEnd, READ_WRITE, HEAP_START, end + 1);
      LoopMaps(s, base, limit, end, 1, newEnd, READ_WRITE, HEAP_START);
    }
  }

  /** A request keeps the heap resident up to the end it leaves. */
  lemma RequestResident(s: Space, base: set<nat>, limit: nat, end: nat, n: u32)
    requires IsOwned(s, base, limit) && Resident(s, end) && HEAP_START <= end <= HEAP_END
    requires !RequestStarves(s, end, n)
    ensures Resident(SpaceAfterRequest(s, end, n), end)
    ensures RequestRoom(s, end, n) ==> Resident(SpaceAfterRequest(s, end, n), GrownEnd(end, n))
  {
    hide IsOwned, SpaceAfterSbrk, SbrkStarves, SbrkRoom, Resident;
    var m := SpaceAfterSbrk(s, end, end);
    SbrkOwnedIff(s, base, limit, end, end);
    SbrkResident(s, base, limit, end, end);
    SbrkResident(m, base, limit, end, GrownEnd(end, n));
  }

  /**
   * For a heap that is mapped: a request finds its frames exactly when it passes the limit test and there
   * are more free frames than its rounds before the last one take, counted on the page tables before it;
   * and it starves exactly when, counting down, a missing table comes up at the last frame.
   */
  lemma RequestRoomIff(s: Space, base: set<nat>, limit: nat, end: nat, n: u32)
    requires IsOwned(s, base, limit) && Resident(s, end) && HEAP_START <= end <= HEAP_END
    ensures s.Typed()
    ensures var grown := GrownEnd(end, n);
      RequestRoom(s, end, n) <==>
        grown <= HEAP_END && s.free != {} && (grown >= end ==> |s.free| > Needed(s, end, end, 1, grown))
    ensures RequestStarves(s, end, n) <==>
              GrownEnd(end, n) <= HEAP_END && RunsOut(s, end, end, 1, GrownEnd(end, n), |s.free|)
  {
    hide BackAll, LoopStarves, FindsFrames, Needed, RunsOut;
    var grown := GrownEnd(end, n);
    OwnedIsSane(s, base, limit);
    LoopOverMapped(s, base, limit, end, 1, end, READ_WRITE);
    if grown <= HEAP_END {
      LoopStarvesIff(s, base, limit, end, 1, grown, READ_WRITE);
      if grown >= end {
        FindsFramesIff(s, base, limit, end, 1, grown, READ_WRITE);
      } else {
        BackAllDone(s, end, 1, grown, READ_WRITE);
      }
    }
  }

  /** A request that stays on pages the heap has changes no page, and needs only one frame at a time. */
  lemma QuietRequest(s: Space, base: set<nat>, limit: nat, end: nat, n: u32)
    requires IsOwned(s, base, limit) && s.free != {} && HEAP_START <= end && end + n + META <= HEAP_END
    requires Resident(s, end + n + META)
    ensures SpaceAfterRequest(s, end, n) == s && RequestRoom(s, end, n) && !RequestStarves(s, end, n)
    ensures GrownEnd(end, n) == end + n + META
  {
    hide IsOwned, BackAll, LoopStarves, FindsFrames;
    LoopOverMapped(s, base, limit, end, 1, end, READ_WRITE);
    LoopOverMapped(s, base, limit, end, 1, end + n + META, READ_WRITE);
  }

  // ----- headers and payloads -----

  predicate InBlock(b: Block, x: nat) {
    InHeader(b, x) || InPayload(b, b.size, x)
  }

  /** Headers end at end_of_heap, and a payload byte lies above it exactly at the end of a long last block. */
  lemma AboveEndIff(h: Heap, long: nat, i: nat, x: nat)
    requires Shape(h, long) && i < |h.blocks| && InBlock(h.blocks[i], x)
    ensures HEAP_START <= x < h.end + META
    ensures InHeader(h.blocks[i], x) ==> x < h.end
    ensures x > h.end <==>
              i == long && i + 1 == |h.blocks| && InPayload(h.blocks[i], h.blocks[i].size, x)
              && x - h.blocks[i].addr > h.blocks[i].size
  {
    var last := |h.blocks| - 1;
    if i > 0 { InOrder(h, long, 0, i); }
    if i < last { InOrder(h, long, i, last); }
  }

  /**
   * Every byte of every header and payload lies in a mapped page exactly when the long block has a
   * successor or the page of the last byte it reaches is mapped.
   */
  lemma EveryByteMappedIff(s: Space, h: Heap, long: nat)
    requires Shape(h, long) && Resident(s, h.end)
    ensures (forall i: nat, x: nat :: i < |h.blocks| && InBlock(h.blocks[i], x) ==> MappedAt(s, x))
       <==> long + 1 < |h.blocks| || MappedAt(s, h.end + META - 1)
  {
    var top := h.end + META - 1;
    if long + 1 == |h.blocks| {
      assert h.end == Limit(h, long, long);
      assert InBlock(h.blocks[long], top);
    }
    if long + 1 < |h.blocks| || MappedAt(s, top) {
      forall i: nat, x: nat | i < |h.blocks| && InBlock(h.blocks[i], x)
        ensures MappedAt(s, x)
      {
        AboveEndIff(h, long, i, x);
        if x > h.end { TailMapped(s, h.end, x); }
      }
    }
  }

  /** The bytes just above end_of_heap share the page of the first or of the last of them. */
  lemma TailMapped(s: Space, end: nat, x: nat)
    requires HEAP_START <= end <= HEAP_END && end < x < end + META
    requires MappedAt(s, end) && MappedAt(s, end + META - 1)
    ensures MappedAt(s, x)
  {
    if x / PAGE_SIZE == end / PAGE_SIZE {
      SamePage(end, x);
    } else {
      SamePage(x, end + META - 1);
    }
  }

  /** Unless end_of_heap lies in the last META - 1 bytes of a page, that is always so. */
  lemma EndOfPage(s: Space, end: nat)
    requires HEAP_START <= end <= HEAP_END && Resident(s, end) && end % PAGE_SIZE <= PAGE_SIZE - META
    ensures MappedAt(s, end + META - 1)
  {
    assert MappedAt(s, end);
    SamePage(end, end + META - 1);
  }
}
