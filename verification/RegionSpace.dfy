/** What vmm_alloc and vmm_free do to regions, heap and address space together (kernel/vmm.c), as functions. */
module RegionSpace {
  import opened Machine
  import opened PageTables
  import opened SpaceModel
  import opened Ownership
  import opened PagingTheorems
  import opened MappingLoops
  import opened FrameCounts
  import opened Sharing
  import opened HeapModel
  import opened HeapTheorems
  import opened HeapSpace
  import opened RegionModel
  import opened RegionTheorems

  /** The records of the regions are live heap pointers, and no two are the same. */
  ghost predicate RecordsLive(h: Heap, rs: seq<Region>) {
    && (forall i :: 0 <= i < |rs| ==> Live(h, rs[i].node, NODE_SIZE))
    && (forall i, j :: 0 <= i < j < |rs| ==> rs[i].node != rs[j].node)
  }

  /** kmalloc leaves the records live, and returns none of them. */
  lemma RecordsKept(h: Heap, long: nat, rs: seq<Region>, n: u32, room: bool)
    requires Shape(h, long) && RecordsLive(h, rs)
    ensures var (g, r) := Malloc(h, n, room);
      RecordsLive(g, rs) && (r != 0 ==> Live(g, r, n) && forall i :: 0 <= i < |rs| ==> rs[i].node != r)
  {
    NewIsLive(h, n, room);
    forall i | 0 <= i < |rs|
      ensures var (g, r) := Malloc(h, n, room);
        Live(g, rs[i].node, NODE_SIZE) && (r != 0 ==> rs[i].node != r)
    {
      MallocKeepsLive(h, long, n, room, rs[i].node, NODE_SIZE);
    }
  }

  /** kfree of a pointer that is no record leaves the records live. */
  lemma RecordsStay(h: Heap, long: nat, rs: seq<Region>, i: nat)
    requires Shape(h, long) && RecordsLive(h, rs) && i < |h.blocks|
    requires !IsRecord(rs, h.blocks[i].addr + META)
    ensures RecordsLive(Free(h, i), rs)
  {
    hide Live;
    forall j | 0 <= j < |rs|
      ensures Live(Free(h, i), rs[j].node, NODE_SIZE)
    {
      FreeLiveIff(h, long, i, rs[j].node, NODE_SIZE);
    }
  }

  ghost predicate IsRecord(rs: seq<Region>, ptr: nat) {
    exists i :: 0 <= i < |rs| && rs[i].node == ptr
  }

  lemma RecordsSplit(h: Heap, rs: seq<Region>, i: nat, size: nat, node: nat)
    requires RecordsLive(h, rs) && i < |rs| && size < rs[i].size && node != 0 && Live(h, node, NODE_SIZE)
    requires forall j :: 0 <= j < |rs| ==> rs[j].node != node
    ensures RecordsLive(h, SplitRegion(rs, i, size, node))
  {
    hide Live;
    var g := SplitRegion(rs, i, size, node);
    assert forall j :: 0 <= j < |g| ==>
      g[j].node == (if j <= i then rs[j].node else if j == i + 1 then node else rs[j - 1].node);
  }

  lemma RecordsMerge(h: Heap, rs: seq<Region>, i: nat)
    requires RecordsLive(h, rs) && i + 1 < |rs|
    ensures RecordsLive(h, Merge(rs, i))
  {
    hide Live;
    var g := Merge(rs, i);
    assert forall j :: 0 <= j < |g| ==> g[j].node == (if j <= i then rs[j].node else rs[j + 1].node);
  }

  // ----- vmm_alloc as a function of the state before it -----

  /** The mapping loop: the pages of the region and, its bound being inclusive, the one after. */
  ghost function SpaceAfterBacking(s: Space, base: nat, size: nat, flags: u32): Space {
    if base + size >= WINDOW then s else BackAll(s, base, PAGE_SIZE, base + size, flags)
  }

  /** The loop finds all its frames. */
  ghost predicate BackingRoom(s: Space, base: nat, size: nat, flags: u32) {
    base + size < WINDOW && FindsFrames(s, base, PAGE_SIZE, base + size, flags)
  }

  /** The loop takes the null pointer for a page table. */
  ghost predicate BackingStarves(s: Space, base: nat, size: nat, flags: u32) {
    base + size < WINDOW && LoopStarves(s, base, PAGE_SIZE, base + size, flags)
  }

  /** The heap after kmalloc of a region record, and the record, or 0. */
  ghost function RecordFor(s: Space, h: Heap): (Heap, nat) {
    Malloc(h, NODE_SIZE, RequestRoom(s, h.end, NODE_SIZE))
  }

  /** How long the chosen region is when its pages are mapped: without a record it is not split. */
  function GrantedSize(rs: seq<Region>, i: nat, size: nat, node: nat): nat
    requires i < |rs|
  {
    if node == 0 then rs[i].size else size
  }

  datatype Allocation = Allocation(regions: seq<Region>, ptr: nat, heap: Heap, space: Space, starves: bool)

  /** All that vmm_alloc leaves, for the region it settles on. */
  ghost function Granted(s: Space, h: Heap, rs: seq<Region>, i: nat, size: nat, flags: u32): Allocation
    requires i < |rs| && size < rs[i].size
  {
    var (heap, node) := RecordFor(s, h);
    var (t, base, granted) := (SpaceAfterMalloc(s, h, NODE_SIZE), rs[i].base, GrantedSize(rs, i, size, node));
    var split := SplitRegion(rs, i, size, node);
    var backed := BackingRoom(t, base, granted, flags);
    Allocation(if backed then WithFlag(split, i, false) else split, if backed then base else 0,
               heap, SpaceAfterBacking(t, base, granted, flags),
               MallocStarves(s, h, NODE_SIZE) || BackingStarves(t, base, granted, flags))
  }

  ghost function Allocate(s: Space, h: Heap, rs: seq<Region>, size: u32, flags: u32): Allocation {
    ChosenSuits(rs, size);
    match Chosen(rs, size)
    case None => Allocation(rs, 0, h, s, false)
    case Some(i) => Granted(s, h, rs, i, AlignUp(size), flags)
  }

  /** The list is what AllocRegion makes of it, and the result is null exactly without a region or its frames. */
  lemma AllocateIff(s: Space, h: Heap, rs: seq<Region>, size: u32, flags: u32)
    requires Tiling(rs)
    ensures var (a, node) := (Allocate(s, h, rs, size, flags), RecordFor(s, h).1);
      match Chosen(rs, size) {
        case None => (a.regions, a.ptr) == (rs, 0)
        case Some(i) =>
          var t := SpaceAfterMalloc(s, h, NODE_SIZE);
          && i < |rs|
          && var backed := BackingRoom(t, rs[i].base, GrantedSize(rs, i, AlignUp(size), node), flags);
          (a.regions, a.ptr) == AllocRegion(rs, size, node, backed) && (a.ptr == 0 <==> !backed)
      }
  {
    ChosenSuits(rs, size);
    var c := Chosen(rs, size);
    if c.Some? { RegionAligned(rs, c.value); }
  }

  /** Region i is the first that is free and holds the request. */
  predicate FirstSuiting(rs: seq<Region>, size: nat, i: nat) {
    i < |rs| && rs[i].free && rs[i].size >= size && forall j :: 0 <= j < i ==> !(rs[j].free && rs[j].size >= size)
  }

  /**
   * The result is the base of the first region that suits, or null. The addresses handed out go from free
   * to used and all others keep their flag; a call that answers null changes the flag of no address. The
   * range is the request, rounded up, unless there was no record to split with.
   */
  ghost predicate Hands(rs: seq<Region>, g: seq<Region>, ptr: nat, size: u32, record: bool) {
    if ptr == 0 then SameFree(rs, g)
    else
      && (exists i: nat :: FirstSuiting(rs, size, i) && rs[i].base == ptr)
      && exists end: nat ::
        && Takes(rs, g, ptr, end) && ptr + size <= end
        && (record ==> end < ptr + size + 4096 && (end - ptr) % 4096 == 0)
  }

  /** Regions are whole pages, so they hold a request exactly when they hold it rounded up. */
  lemma RoundedFits(rs: seq<Region>, size: u32, i: nat)
    requires Tiling(rs) && Chosen(rs, size) == Some(i)
    ensures FirstSuiting(rs, size, i)
  {
    ChosenSuits(rs, size);
    AlignedSize(size);
    var s := AlignUp(size);
    FirstFreeSuits(rs, s, 0);
    forall j | 0 <= j < i
      ensures !(rs[j].free && rs[j].size >= size)
    {
      assert !Suits(rs[j], s);
      assert IsPages(rs[j].size);
      RoundedUp(rs[j].size, size, s);
    }
  }

  lemma RoundedUp(pages: nat, size: nat, s: nat)
    requires pages % 4096 == 0 && s % 4096 == 0 && size <= s < size + 4096
    ensures pages >= size ==> pages >= s
  {
    hide *;
    var (p, q) := (pages / 4096, s / 4096);
    assert pages == 4096 * p && s == 4096 * q;
    if p < q { assert 4096 * p <= 4096 * q - 4096; }
  }

  lemma AllocateHands(s: Space, h: Heap, rs: seq<Region>, size: u32, flags: u32)
    requires Tiling(rs)
    ensures var a := Allocate(s, h, rs, size, flags);
      Hands(rs, a.regions, a.ptr, size, RecordFor(s, h).1 != 0)
  {
    hide Allocate, RecordFor, Tiling, Takes, SameFree, BackingRoom, SpaceAfterMalloc, AlignUp;
    AllocateIff(s, h, rs, size, flags);
    ChosenSuits(rs, size);
    AlignedSize(size);
    var (c, node) := (Chosen(rs, size), RecordFor(s, h).1);
    if c.Some? {
      var (i, t) := (c.value, SpaceAfterMalloc(s, h, NODE_SIZE));
      var backed := BackingRoom(t, rs[i].base, GrantedSize(rs, i, AlignUp(size), node), flags);
      AllocTakes(rs, size, node, backed);
      var len := if node == 0 then rs[i].size else AlignUp(size);
      var (g, ptr) := AllocRegion(rs, size, node, backed);
      RoundedFits(rs, size, i);
      if ptr != 0 {
        assert FirstSuiting(rs, size, i) && rs[i].base == ptr;
        var end := ptr + len;
        assert Takes(rs, g, ptr, end) && ptr + size <= end;
        assert node != 0 ==> end < ptr + size + 4096 && (end - ptr) % 4096 == 0;
      }
    } else {
      AllocTakes(rs, size, node, false);
    }
  }

  // ----- what a result is -----

  /**
   * Byte x lies in a mapped page whose frame is in use, is no table and no baseline frame, and is behind
   * no other page mapped since boot; and behind no other page at all exactly if it is not one of the low
   * frames that the static tables map.
   */
  ghost predicate PrivateAt(s: Space, base: set<nat>, limit: nat, x: u32) {
    && MappedAt(s, x)
    && var (i, j) := (PdIndex(x), PtIndex(x));
    && var f := s.Target(i, j);
    && f < limit && f !in s.free && f !in base
    && (forall k: nat :: k < ENTRIES && s.HasTable(k) ==> s.Table(k) != f)
    && (forall k: nat, l: nat :: Dynamic(k) && l < ENTRIES && s.Mapped(k, l) && s.Target(k, l) == f ==>
          k == i && l == j)
    && (OtherPage(s, f, PageOf(i, j)) <==> f < SHARED_END)
  }

  ghost predicate PrivateRange(s: Space, base: set<nat>, limit: nat, lo: nat, hi: nat) {
    forall x: u32 :: lo <= x < hi ==> PrivateAt(s, base, limit, x)
  }

  lemma MappedIsPrivate(s: Space, base: set<nat>, limit: nat, lo: nat, hi: nat)
    requires IsOwned(s, base, limit) && MappedRange(s, lo, hi)
    requires VIRTUAL_MEMORY_START <= lo && hi <= VIRTUAL_MEMORY_END
    ensures PrivateRange(s, base, limit, lo, hi)
  {
    hide Owned, OtherPage;
    var owner :| Owned(s, base, owner, limit);
    forall x: u32 | lo <= x < hi
      ensures PrivateAt(s, base, limit, x)
    {
      assert MappedAt(s, x);
      RegionTable(x);
      PageHasOwnFrame(s, base, owner, limit, PdIndex(x), PtIndex(x));
      PageSharedIff(s, base, owner, limit, PdIndex(x), PtIndex(x));
    }
  }

  /** The managed range lies between the identity table and the kernel's. */
  lemma RegionTable(x: u32)
    requires VIRTUAL_MEMORY_START <= x < VIRTUAL_MEMORY_END
    ensures Dynamic(PdIndex(x))
  {
  }

  // ----- what vmm_alloc keeps -----

  /** The loop keeps one holder for every frame exactly when it does not starve. */
  lemma BackingOwnedIff(s: Space, base: set<nat>, limit: nat, at: nat, size: nat, flags: PageFlags)
    requires IsOwned(s, base, limit)
    ensures IsOwned(SpaceAfterBacking(s, at, size, flags), base, limit) <==> !BackingStarves(s, at, size, flags)
    ensures BackingStarves(s, at, size, flags) ==> SpaceAfterBacking(s, at, size, flags).free == {}
  {
    if at + size < WINDOW { BackAllOwnedIff(s, base, limit, at, PAGE_SIZE, at + size, flags); }
  }

  lemma BackingWithoutFrames(s: Space, at: nat, size: nat, flags: u32)
    requires s.free == {}
    ensures SpaceAfterBacking(s, at, size, flags) == s && !BackingStarves(s, at, size, flags)
  {
    if at + size < WINDOW { BackAllWithoutFrames(s, at, PAGE_SIZE, at + size, flags); }
  }

  /** A loop that does not starve leaves the heap mapped, and maps its range if it finds its frames. */
  lemma BackingMaps(s: Space, base: set<nat>, limit: nat, at: nat, size: nat, flags: PageFlags, end: nat)
    requires IsOwned(s, base, limit) && at % PAGE_SIZE == 0 && at + size < WINDOW && end <= HEAP_END
    requires !BackingStarves(s, at, size, flags) && Resident(s, end)
    ensures Resident(SpaceAfterBacking(s, at, size, flags), end)
    ensures BackingRoom(s, at, size, flags) ==> MappedRange(SpaceAfterBacking(s, at, size, flags), at, at + size)
  {
    hide IsOwned, BackAll, LoopStarves, FindsFrames;
    LoopKeepsRange(s, base, limit, at, PAGE_SIZE, at + size, flags, HEAP_START, end + 1);
    LoopMaps(s, base, limit, at, PAGE_SIZE, at + size, flags, at);
  }

  /** How many frames the loop needs, counted on the page tables before it. */
  lemma BackingRoomIff(s: Space, base: set<nat>, limit: nat, at: nat, size: nat, flags: PageFlags)
    requires IsOwned(s, base, limit) && at + size < WINDOW
    ensures s.Typed()
    ensures BackingRoom(s, at, size, flags) <==> |s.free| > Needed(s, at, at, PAGE_SIZE, at + size)
    ensures BackingStarves(s, at, size, flags) <==> RunsOut(s, at, at, PAGE_SIZE, at + size, |s.free|)
  {
    hide FindsFrames, LoopStarves, Needed, RunsOut, IsOwned, Space.Sane;
    OwnedIsSane(s, base, limit);
    FindsFramesIff(s, base, limit, at, PAGE_SIZE, at + size, flags);
    LoopStarvesIff(s, base, limit, at, PAGE_SIZE, at + size, flags);
  }

  // ----- the entries of the pages -----

  /** Pages of the range that were not mapped before have the frame, the flags and the present bit in their entry. */
  ghost predicate GivenFlags(s: Space, n: Space, lo: nat, hi: nat, flags: PageFlags) {
    forall x: u32 :: lo <= x < hi && !MappedAt(s, x) ==>
      MappedAt(n, x) &&
      var (i, j) := (PdIndex(x), PtIndex(x)); n.Pte(i, j) == n.Target(i, j) * PAGE_SIZE + flags + 1 - flags % 2
  }

  lemma SbrkKeepsPage(s: Space, base: set<nat>, limit: nat, end: nat, newEnd: nat, x: u32)
    requires IsOwned(s, base, limit) && !SbrkStarves(s, end, newEnd) && HEAP_START <= end
    requires x < VIRTUAL_MEMORY_END
    ensures var n := SpaceAfterSbrk(s, end, newEnd);
      s.Typed() && n.Typed() && (MappedAt(n, x) <==> MappedAt(s, x))
  {
    hide IsOwned, BackAll, LoopStarves;
    OwnedIsSane(s, base, limit);
    if newEnd <= HEAP_END {
      BackAllEntries(s, base, limit, end, 1, newEnd, READ_WRITE);
      OutsideWindow(x);
      if y: u32 :| end <= y <= newEnd && PdIndex(y) == PdIndex(x) && PtIndex(y) == PtIndex(x) { BelowHeap(x, y); }
    }
  }

  lemma BelowHeap(x: u32, y: u32)
    requires x < VIRTUAL_MEMORY_END && HEAP_START <= y
    ensures PdIndex(x) != PdIndex(y)
  {
  }

  lemma RecordKeepsPage(s: Space, base: set<nat>, limit: nat, h: Heap, x: u32)
    requires IsOwned(s, base, limit) && !MallocStarves(s, h, NODE_SIZE) && HEAP_START <= h.end
    requires x < VIRTUAL_MEMORY_END
    ensures MappedAt(SpaceAfterMalloc(s, h, NODE_SIZE), x) <==> MappedAt(s, x)
  {
    hide IsOwned, SpaceAfterSbrk, SbrkStarves, MappedAt;
    if FirstFit(h.blocks, NODE_SIZE, 0) == |h.blocks| {
      SbrkOwnedIff(s, base, limit, h.end, h.end);
      SbrkKeepsPage(s, base, limit, h.end, h.end, x);
      SbrkKeepsPage(SpaceAfterSbrk(s, h.end, h.end), base, limit, h.end, GrownEnd(h.end, NODE_SIZE), x);
    }
  }

  /** The pages that vmm_alloc adds to the range it hands out get the flags it was given. */
  lemma GrantedFlags(s: Space, base: set<nat>, limit: nat, h: Heap, at: nat, size: nat, flags: PageFlags)
    requires IsOwned(s, base, limit) && HEAP_START <= h.end && at + size <= VIRTUAL_MEMORY_END
    requires !MallocStarves(s, h, NODE_SIZE)
    requires var t := SpaceAfterMalloc(s, h, NODE_SIZE);
      !BackingStarves(t, at, size, flags) && MappedRange(SpaceAfterBacking(t, at, size, flags), at, at + size)
    ensures GivenFlags(s, SpaceAfterBacking(SpaceAfterMalloc(s, h, NODE_SIZE), at, size, flags), at, at + size, flags)
  {
    hide IsOwned, SpaceAfterMalloc, MallocStarves, BackAll, LoopStarves, PdIndex, PtIndex;
    var t := SpaceAfterMalloc(s, h, NODE_SIZE);
    var n := SpaceAfterBacking(t, at, size, flags);
    MallocOwnedIff(s, base, limit, h, NODE_SIZE);
    BackAllEntries(t, base, limit, at, PAGE_SIZE, at + size, flags);
    forall x: u32 | at <= x < at + size && !MappedAt(s, x)
      ensures MappedAt(n, x)
      ensures n.Pte(PdIndex(x), PtIndex(x)) == n.Target(PdIndex(x), PtIndex(x)) * PAGE_SIZE + flags + 1 - flags % 2
    {
      RecordKeepsPage(s, base, limit, h, x);
      OutsideWindow(x);
      assert MappedAt(n, x);
    }
  }

  lemma AllocateFlags(s: Space, base: set<nat>, limit: nat, h: Heap, rs: seq<Region>, size: u32, flags: PageFlags)
    requires IsOwned(s, base, limit) && HEAP_START <= h.end && Tiling(rs)
    requires Allocate(s, h, rs, size, flags).ptr != 0 && !Allocate(s, h, rs, size, flags).starves
    ensures var a := Allocate(s, h, rs, size, flags);
      GivenFlags(s, a.space, a.ptr, a.ptr + size, flags)
  {
    hide IsOwned, SpaceAfterMalloc, MallocStarves, BackAll, LoopStarves, FindsFrames, RecordFor, Tiling, GivenFlags,
         MappedRange;
    ChosenSuits(rs, size);
    AlignedSize(size);
    var i := Chosen(rs, size).value;
    RegionAligned(rs, i);
    var (t, at, granted) :=
      (SpaceAfterMalloc(s, h, NODE_SIZE), rs[i].base, GrantedSize(rs, i, AlignUp(size), RecordFor(s, h).1));
    MallocOwnedIff(s, base, limit, h, NODE_SIZE);
    NothingMapped(t, at);
    LoopMaps(t, base, limit, at, PAGE_SIZE, at + granted, flags, at);
    FewerMapped(SpaceAfterBacking(t, at, granted, flags), at, at + granted + 1, at + granted);
    GrantedFlags(s, base, limit, h, at, granted, flags);
    FewerGiven(s, SpaceAfterBacking(t, at, granted, flags), at, at + granted, at + size, flags);
  }

  lemma NothingMapped(s: Space, at: nat)
    ensures MappedRange(s, at, at)
  {
  }

  lemma FewerMapped(s: Space, lo: nat, hi: nat, less: nat)
    requires MappedRange(s, lo, hi) && less <= hi
    ensures MappedRange(s, lo, less)
  {
  }

  lemma FewerGiven(s: Space, n: Space, lo: nat, hi: nat, less: nat, flags: PageFlags)
    requires GivenFlags(s, n, lo, hi, flags) && less <= hi
    ensures GivenFlags(s, n, lo, less, flags)
  {
  }
}
