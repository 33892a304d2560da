/** What runs of the kernel's memory mean for its clients. */
module RunTheorems {
  import opened Machine
  import opened PageTables
  import opened SpaceModel
  import opened PagingTheorems
  import opened HeapModel
  import opened HeapMemory
  import opened HeapTheorems
  import opened HeapSteps
  import opened HeapStores
  import opened HeapSpace
  import opened RegionModel
  import opened RegionTheorems
  import opened RegionSpace
  import opened KernelRuns

  // ----- the pointers clients hold -----

  /** What clients hold after a call: a returned pointer with the size asked for, until they release it. */
  ghost function HeldAfter(w: World, held: map<nat, nat>, e: Event): map<nat, nat> {
    match e
    case Kmalloc(n) =>
      var ptr := Malloc(w.heap, n, RequestRoom(w.space, w.heap.end, n)).1;
      if ptr != 0 then held[ptr := n] else held
    case Kfree(ptr) => held - {ptr}
    case _ => held
  }

  ghost function Held(w: World, held: map<nat, nat>, events: seq<Event>): map<nat, nat> {
    if events == [] then held
    else
      var front := events[..|events| - 1];
      HeldAfter(RunAll(w, front), Held(w, held, front), events[|events| - 1])
  }

  /** The pointers held are exactly the live pointers that are no region records, with their sizes. */
  ghost predicate Books(w: World, held: map<nat, nat>) {
    forall ptr: nat, n: nat :: Owns(w, ptr, n) <==> ptr in held && held[ptr] == n
  }

  lemma OwnsMayUse(w: World, base: set<nat>, limit: nat, ptr: nat, n: nat)
    requires Good(w, base, limit) && Owns(w, ptr, n)
    ensures var i := Position(w.heap.blocks, ptr, 0); MayUse(w, ptr) && w.heap.blocks[i].asked == n
  {
    var j: nat :| j < |w.heap.blocks| && w.heap.blocks[j].addr + META == ptr && w.heap.blocks[j].asked == n;
    PositionIs(w.heap, LongOf(w.mem, w.heap), j);
  }

  lemma KmallocBooks(w: World, held: map<nat, nat>, n: u32, base: set<nat>, limit: nat)
    requires Good(w, base, limit) && Books(w, held)
    ensures Books(NextKmalloc(w, n), HeldAfter(w, held, Event.Kmalloc(n)))
  {
    hide Live, Malloc, MallocMemory, RequestRoom, Sound, IsOwned, Resident, Tiling;
    var room := RequestRoom(w.space, w.heap.end, n);
    var (long, r) := (LongOf(w.mem, w.heap), Malloc(w.heap, n, room).1);
    RecordsKept(w.heap, long, w.regions, n, room);
    forall ptr: nat, k: nat
      ensures Owns(NextKmalloc(w, n), ptr, k) <==>
                ptr in HeldAfter(w, held, Event.Kmalloc(n)) && HeldAfter(w, held, Event.Kmalloc(n))[ptr] == k
    {
      MallocLiveIff(w.heap, long, n, room, ptr, k);
      assert Owns(w, ptr, k) <==> ptr in held && held[ptr] == k;
    }
  }

  lemma KfreeBooks(w: World, held: map<nat, nat>, ptr: nat, base: set<nat>, limit: nat)
    requires Good(w, base, limit) && Books(w, held)
    ensures Books(NextKfree(w, ptr), HeldAfter(w, held, Event.Kfree(ptr)))
  {
    hide Live, FreeMemory, Sound, IsOwned, Resident, Tiling;
    var (long, i) := (LongOf(w.mem, w.heap), Position(w.heap.blocks, ptr, 0));
    if ptr in held {
      assert Owns(w, ptr, held[ptr]);
      OwnsMayUse(w, base, limit, ptr, held[ptr]);
    }
    forall p: nat, k: nat
      ensures Owns(NextKfree(w, ptr), p, k) <==> p in held - {ptr} && held[p] == k
    {
      assert Owns(w, p, k) <==> p in held && held[p] == k;
      if MayUse(w, ptr) { FreeLiveIff(w.heap, long, i, p, k); }
    }
  }

  /** vmm_alloc makes one record live, and lists it; so to clients nothing changes. */
  lemma VmmAllocBooks(w: World, held: map<nat, nat>, size: u32, flags: PageFlags, base: set<nat>, limit: nat)
    requires Good(w, base, limit) && Books(w, held)
    ensures Books(NextVmmAlloc(w, size, flags), held)
  {
    hide Live, Malloc, MallocMemory, RequestRoom, Sound, IsOwned, Resident, Tiling, IsRecord;
    ChosenSuits(w.regions, size);
    var c := Chosen(w.regions, size);
    if c.Some? {
      var room := RequestRoom(w.space, w.heap.end, NODE_SIZE);
      var (long, node) := (LongOf(w.mem, w.heap), Malloc(w.heap, NODE_SIZE, room).1);
      forall ptr: nat, k: nat
        ensures Owns(NextVmmAlloc(w, size, flags), ptr, k) <==> ptr in held && held[ptr] == k
      {
        MallocLiveIff(w.heap, long, NODE_SIZE, room, ptr, k);
        GrantedRecords(w.space, w.heap, w.regions, c.value, AlignUp(size), flags, ptr);
        assert Owns(w, ptr, k) <==> ptr in held && held[ptr] == k;
      }
    } else {
      forall ptr: nat, k: nat
        ensures Owns(NextVmmAlloc(w, size, flags), ptr, k) <==> ptr in held && held[ptr] == k
      {
        assert Owns(w, ptr, k) <==> ptr in held && held[ptr] == k;
      }
    }
  }

  lemma GrantedRecords(s: Space, h: Heap, rs: seq<Region>, i: nat, size: nat, flags: PageFlags, ptr: nat)
    requires i < |rs| && size < rs[i].size
    ensures var node := RecordFor(s, h).1;
      IsRecord(Granted(s, h, rs, i, size, flags).regions, ptr) <==> IsRecord(rs, ptr) || (node != 0 && ptr == node)
  {
    hide RecordFor, SpaceAfterMalloc, BackingRoom, SpaceAfterBacking, MallocStarves, BackingStarves, IsRecord,
         SplitRegion, WithFlag;
    var node := RecordFor(s, h).1;
    var split := SplitRegion(rs, i, size, node);
    SplitRecords(rs, i, size, node, ptr);
    FlagRecords(split, i, ptr);
  }

  lemma SplitRecords(rs: seq<Region>, i: nat, size: nat, node: nat, ptr: nat)
    requires i < |rs| && size < rs[i].size
    ensures i < |SplitRegion(rs, i, size, node)|
    ensures IsRecord(SplitRegion(rs, i, size, node), ptr) <==> IsRecord(rs, ptr) || (node != 0 && ptr == node)
  {
    if node != 0 {
      var split := SplitRegion(rs, i, size, node);
      SplitElement(rs, i, size, node, i + 1);
      forall j | 0 <= j < |rs|
        ensures split[if j <= i then j else j + 1].node == rs[j].node
      {
        SplitElement(rs, i, size, node, if j <= i then j else j + 1);
      }
      forall j | 0 <= j < |split| && j != i + 1
        ensures split[j].node == rs[if j <= i then j else j - 1].node
      {
        SplitElement(rs, i, size, node, j);
      }
    }
  }

  lemma FlagRecords(rs: seq<Region>, i: nat, ptr: nat)
    requires i < |rs|
    ensures IsRecord(WithFlag(rs, i, false), ptr) <==> IsRecord(rs, ptr)
  {
    var g := WithFlag(rs, i, false);
    assert |g| == |rs| && forall j :: 0 <= j < |rs| ==> g[j].node == rs[j].node;
  }

  lemma NextBooks(w: World, held: map<nat, nat>, e: Event, base: set<nat>, limit: nat)
    requires Good(w, base, limit) && Books(w, held)
    ensures Books(Next(w, e), HeldAfter(w, held, e))
  {
    hide Good, Books, NextKmalloc, NextKfree, NextVmmAlloc;
    GoodIsSound(w, base, limit);
    match e
    case Kmalloc(n) => KmallocBooks(w, held, n, base, limit);
    case Kfree(ptr) => KfreeBooks(w, held, ptr, base, limit);
    case Write(_, _, _) => SameBooks(w, NextWrite(w, e), held);
    case VmmAlloc(size, flags) => VmmAllocBooks(w, held, size, flags, base, limit);
    case VmmFree(ptr) =>
      FreeDoesNothing(w.regions, ptr);
      SameBooks(w, w.(regions := FreeRegion(w.regions, ptr, HEAP_START)), held);
  }

  lemma SameBooks(w: World, n: World, held: map<nat, nat>)
    requires Books(w, held) && n.heap == w.heap && n.regions == w.regions
    ensures Books(n, held)
  {
    forall ptr: nat, k: nat
      ensures Owns(n, ptr, k) <==> ptr in held && held[ptr] == k
    {
      assert Owns(w, ptr, k) <==> ptr in held && held[ptr] == k;
    }
  }

  /**
   * Over every run without harm, a pointer is live with the size asked for exactly from the call that
   * returned it to the kfree that was given it: kmalloc returns no pointer that is held, and kfree ends
   * the life of its argument alone.
   */
  lemma {:induction false} HeldIsLive(w: World, held: map<nat, nat>, events: seq<Event>, base: set<nat>, limit: nat)
    requires Good(w, base, limit) && Books(w, held) && NeverHarmful(w, events)
    ensures Good(RunAll(w, events), base, limit) && Books(RunAll(w, events), Held(w, held, events))
    decreases |events|
  {
    hide Good, Books, Harmful, Next, HeldAfter;
    if events != [] {
      var front := events[..|events| - 1];
      HeldIsLive(w, held, front, base, limit);
      NextBooks(RunAll(w, front), Held(w, held, front), events[|events| - 1], base, limit);
      NextGoodIff(RunAll(w, front), events[|events| - 1], base, limit);
    }
  }

  /** So kfree of a pointer that was returned earlier and not released since never reaches the panic branch. */
  lemma KfreeOfHeld(w: World, held: map<nat, nat>, events: seq<Event>, base: set<nat>, limit: nat, ptr: nat)
    requires Good(w, base, limit) && Books(w, held) && NeverHarmful(w, events) && ptr in Held(w, held, events)
    ensures var n := RunAll(w, events);
      && Live(n.heap, ptr, Held(w, held, events)[ptr]) && MayUse(n, ptr)
      && HEAP_START < ptr < HEAP_END && ptr >= META && InWindow(ptr - META, META)
      && HeaderAt(n.mem, ptr - META).canary == CANARY
  {
    hide Good, HeaderAt, Held, RunAll;
    HeldIsLive(w, held, events, base, limit);
    var n := RunAll(w, events);
    assert Owns(n, ptr, Held(w, held, events)[ptr]);
    OwnsMayUse(n, base, limit, ptr, Held(w, held, events)[ptr]);
    GoodIsSound(n, base, limit);
    ReleaseFindsCanary(n.mem, n.heap, Position(n.heap.blocks, ptr, 0));
  }

  // ----- the bytes clients wrote -----

  /** Growing the heap for n bytes puts the new header over byte x. */
  ghost predicate GrowsOver(w: World, n: u32, x: nat) {
    && n > 0 && Grows(w.heap, n) && RequestRoom(w.space, w.heap.end, n)
    && w.heap.end <= x < w.heap.end + META
  }

  /** The step neither releases ptr nor overwrites the byte at the offset, nor grows the heap over it. */
  ghost predicate Spares(w: World, e: Event, ptr: nat, offset: nat) {
    match e
    case Kmalloc(n) => !GrowsOver(w, n, ptr + offset)
    case Kfree(p) => p != ptr
    case Write(p, o, _) => p + o != ptr + offset
    case VmmAlloc(size, _) => Chosen(w.regions, size).Some? ==> !GrowsOver(w, NODE_SIZE, ptr + offset)
    case VmmFree(_) => true
  }

  ghost predicate SparedThroughout(w: World, events: seq<Event>, ptr: nat, offset: nat) {
    events != [] ==>
      var front := events[..|events| - 1];
      SparedThroughout(w, front, ptr, offset) && Spares(RunAll(w, front), events[|events| - 1], ptr, offset)
  }

  ghost predicate NoHeaderAt(h: Heap, x: nat) {
    forall j: nat :: j < |h.blocks| ==> !InHeader(h.blocks[j], x)
  }

  /** Byte number offset of what ptr points to is the client's, and no header shares it. */
  ghost predicate ClientHas(w: World, ptr: nat, n: nat, offset: nat) {
    Owns(w, ptr, n) && offset < n && NoHeaderAt(w.heap, ptr + offset)
  }

  lemma HasClientByte(w: World, base: set<nat>, limit: nat, ptr: nat, n: nat, offset: nat)
    requires Good(w, base, limit) && ClientHas(w, ptr, n, offset)
    ensures ClientByte(w.heap, ptr + offset) && InWindow(ptr + offset, 1)
  {
    var j: nat :| j < |w.heap.blocks| && w.heap.blocks[j].addr + META == ptr && w.heap.blocks[j].asked == n;
    assert InPayload(w.heap.blocks[j], w.heap.blocks[j].asked, ptr + offset);
    HeadersInside(w.heap, LongOf(w.mem, w.heap), j);
  }

  lemma MallocNoHeader(h: Heap, long: nat, n: u32, room: bool, x: nat)
    requires Shape(h, long) && ClientByte(h, x) && !(n > 0 && Grows(h, n) && room && h.end <= x < h.end + META)
    ensures NoHeaderAt(Malloc(h, n, room).0, x)
  {
    FirstFitFits(h.blocks, n, 0);
    var (i, g) := (FirstFit(h.blocks, n, 0), Malloc(h, n, room).0.blocks);
    var k: nat :| k < |h.blocks| && InPayload(h.blocks[k], h.blocks[k].asked, x);
    forall j: nat | j < |g|
      ensures !InHeader(g[j], x)
    {
      if n > 0 && i < |h.blocks| && h.blocks[i].size > n + META + MIN_BLOCK {
        if j < i { assert g[j] == h.blocks[j]; }
        if j == i { assert g[j].addr == h.blocks[i].addr; assert !InHeader(h.blocks[i], x); }
        if j == i + 1 && InHeader(g[j], x) { PayloadsDisjoint(h, long, i, k, x); }
        if j > i + 1 { assert g[j] == h.blocks[j - 1]; }
      } else if j < |h.blocks| {
        assert g[j].addr == h.blocks[j].addr && !InHeader(h.blocks[j], x);
      }
    }
  }

  lemma FreeNoHeader(h: Heap, i: nat, x: nat)
    requires i < |h.blocks| && NoHeaderAt(h, x)
    ensures NoHeaderAt(Free(h, i), x)
  {
    var g := Free(h, i).blocks;
    forall j: nat | j < |g|
      ensures !InHeader(g[j], x)
    {
      var b := if |g| < |h.blocks| && j > i then j + 1 else j;
      assert g[j].addr == h.blocks[b].addr && !InHeader(h.blocks[b], x);
    }
  }

  /** kmalloc changes a client's byte only where the new header of a growing heap comes to lie. */
  lemma MallocByte(m: Bytes, h: Heap, n: u32, room: bool, x: nat)
    requires Sound(m, h) && ClientByte(h, x) && InWindow(x, 1)
    requires !(n > 0 && Grows(h, n) && room && h.end <= x < h.end + META)
    ensures Byte(MallocMemory(m, h, n, room), x) == Byte(m, x)
  {
    hide HeaderAt, CutMemory, WithFree, GrowMemory;
    FirstFitFits(h.blocks, n, 0);
    var (long, i) := (LongOf(m, h), FirstFit(h.blocks, n, 0));
    if n > 0 && i < |h.blocks| {
      ServeOutside(m, h, n, i);
      KeepsClientBytes(m, ServeMemory(m, h, n, i), h, long, i,
                       if h.blocks[i].size > n + META + MIN_BLOCK then n + 2 * META else META);
    } else if n > 0 && Grows(h, n) && room {
      GrowthKeepsOtherBytes(m, h, long, n, x);
    }
  }

  lemma ServeOutside(m: Bytes, h: Heap, n: nat, i: nat)
    requires Sound(m, h) && n > 0 && i < |h.blocks| && Fits(h.blocks[i], n)
    ensures var len := if h.blocks[i].size > n + META + MIN_BLOCK then n + 2 * META else META;
      SameOutside(m, ServeMemory(m, h, n, i), h.blocks[i].addr, len)
  {
    hide HeaderAt, CutMemory, WithFree;
    var (long, a) := (LongOf(m, h), h.blocks[i].addr);
    HeadersInside(h, long, i);
    if h.blocks[i].size > n + META + MIN_BLOCK {
      CutInMemory(m, h, long, i, n);
      CutHeaders(m, a, n);
      SetFree(CutMemory(m, a, n), a, false);
    } else {
      SetFree(m, a, false);
    }
  }

  lemma FreeByte(m: Bytes, h: Heap, i: nat, x: nat)
    requires Sound(m, h) && i < |h.blocks| && ClientByte(h, x) && InWindow(x, 1)
    ensures Byte(FreeMemory(m, h, i), x) == Byte(m, x)
  {
    hide HeaderAt, MergeMemory, WithFree;
    var (long, a) := (LongOf(m, h), h.blocks[i].addr);
    HeadersInside(h, long, i);
    if i + 1 < |h.blocks| && h.blocks[i + 1].IsFree() {
      HeadersInside(h, long, i + 1);
      MergeHeaders(m, a, h.blocks[i + 1].addr);
    } else {
      SetFree(m, a, true);
    }
    KeepsClientBytes(m, FreeMemory(m, h, i), h, long, i, META);
  }

  lemma NextKeepsByte(w: World, e: Event, base: set<nat>, limit: nat, ptr: nat, n: nat, offset: nat)
    requires Good(w, base, limit) && ClientHas(w, ptr, n, offset) && Spares(w, e, ptr, offset)
    ensures InWindow(ptr + offset, 1)
    ensures NoHeaderAt(Next(w, e).heap, ptr + offset) && Byte(Next(w, e).mem, ptr + offset) == Byte(w.mem, ptr + offset)
  {
    hide Good, HeaderAt, MallocMemory, FreeMemory, Malloc, Free, RequestRoom, Owns, SpaceAfterMalloc, Granted;
    HasClientByte(w, base, limit, ptr, n, offset);
    GoodIsSound(w, base, limit);
    var (long, x) := (LongOf(w.mem, w.heap), ptr + offset);
    match e
    case Kmalloc(k) =>
      var room := RequestRoom(w.space, w.heap.end, k);
      MallocNoHeader(w.heap, long, k, room, x);
      MallocByte(w.mem, w.heap, k, room, x);
    case Kfree(p) =>
      var i := Position(w.heap.blocks, p, 0);
      if MayUse(w, p) {
        FreeNoHeader(w.heap, i, x);
        FreeByte(w.mem, w.heap, i, x);
      }
    case Write(_, _, _) =>
    case VmmAlloc(size, flags) =>
      if Chosen(w.regions, size).Some? {
        var room := RequestRoom(w.space, w.heap.end, NODE_SIZE);
        MallocNoHeader(w.heap, long, NODE_SIZE, room, x);
        MallocByte(w.mem, w.heap, NODE_SIZE, room, x);
        GrantedHeap(w, size, flags);
      }
    case VmmFree(_) =>
  }

  lemma GrantedHeap(w: World, size: u32, flags: PageFlags)
    requires Sound(w.mem, w.heap) && Chosen(w.regions, size).Some?
    ensures NextVmmAlloc(w, size, flags).heap
         == Malloc(w.heap, NODE_SIZE, RequestRoom(w.space, w.heap.end, NODE_SIZE)).0
  {
    hide MallocMemory, RequestRoom, Malloc;
  }

  /**
   * Over every run without harm, a byte that a client has reads back as it was last written, until the
   * client overwrites it, releases the block, or the heap grows over it.
   */
  lemma {:induction false} BytesReadBack(w: World, held: map<nat, nat>, events: seq<Event>, base: set<nat>, limit: nat,
                                         ptr: nat, n: nat, offset: nat)
    requires Good(w, base, limit) && Books(w, held) && NeverHarmful(w, events)
    requires ClientHas(w, ptr, n, offset) && SparedThroughout(w, events, ptr, offset)
    ensures InWindow(ptr + offset, 1) && ClientHas(RunAll(w, events), ptr, n, offset)
    ensures Byte(RunAll(w, events).mem, ptr + offset) == Byte(w.mem, ptr + offset)
    ensures Held(w, held, events).Keys >= {ptr}
    decreases |events|
  {
    hide Good, Harmful, Next, Spares, NoHeaderAt, Byte;
    if events == [] {
      HasClientByte(w, base, limit, ptr, n, offset);
      assert Owns(w, ptr, n);
    } else {
      var (front, e) := (events[..|events| - 1], events[|events| - 1]);
      BytesReadBack(w, held, front, base, limit, ptr, n, offset);
      HeldIsLive(w, held, front, base, limit);
      HeldIsLive(w, held, events, base, limit);
      NextKeepsByte(RunAll(w, front), e, base, limit, ptr, n, offset);
      StillHeld(RunAll(w, front), Held(w, held, front), e, base, limit, ptr, n, offset);
      assert Owns(RunAll(w, events), ptr, n);
    }
  }

  lemma StillHeld(w: World, held: map<nat, nat>, e: Event, base: set<nat>, limit: nat, ptr: nat, n: nat, offset: nat)
    requires Good(w, base, limit) && Books(w, held) && Owns(w, ptr, n) && Spares(w, e, ptr, offset)
    ensures ptr in HeldAfter(w, held, e) && HeldAfter(w, held, e)[ptr] == n
  {
    hide Malloc, RequestRoom;
    if e.Kmalloc? { MallocLiveIff(w.heap, LongOf(w.mem, w.heap), e.n, RequestRoom(w.space, w.heap.end, e.n), ptr, n); }
  }

  // ----- harmful writes -----

  /**
   * A write that faults or damages a header goes to the last META bytes of the long block: it faults
   * only if nothing follows the block and end_of_heap lies in the last bytes of a page.
   */
  lemma HarmfulWrites(w: World, e: Event, long: nat, base: set<nat>, limit: nat)
    requires Good(w, base, limit) && e.Write? && Shape(w.heap, long)
    ensures Harmful(w, e) ==>
              && MayWrite(w, e) && Position(w.heap.blocks, e.ptr, 0) == long
              && e.offset + META >= w.heap.blocks[long].size
    ensures Faults(w, e) ==>
              && long + 1 == |w.heap.blocks| && e.offset + META > w.heap.blocks[long].size
              && w.heap.end % PAGE_SIZE > PAGE_SIZE - META
    ensures Damages(w, e) ==> long + 1 < |w.heap.blocks|
  {
    hide HeaderAt, ChangesHeader, IsOwned, Tiling, RecordsLive;
    if MayWrite(w, e) {
      var (i, x) := (Position(w.heap.blocks, e.ptr, 0), e.ptr + e.offset);
      assert InPayload(w.heap.blocks[i], w.heap.blocks[i].size, x);
      AboveEndIff(w.heap, long, i, x);
      StoreSoundIff(w.mem, w.heap, i, e.offset, e.value);
      ClientByteIff(w.heap, long, i, e.offset);
      if i + 1 < |w.heap.blocks| && ClientByte(w.heap, x) { OutsideHeader(w.mem, w.heap, i + 1, x, e.value); }
      if x > w.heap.end && w.heap.end % PAGE_SIZE <= PAGE_SIZE - META {
        EndOfPage(w.space, w.heap.end);
        assert MappedAt(w.space, w.heap.end);
        TailMapped(w.space, w.heap.end, x);
      }
    }
  }

  /** Before the first growth no write is harmful: all bytes asked for are mapped and clear of headers. */
  lemma NoGrowthNoHarm(w: World, e: Event, base: set<nat>, limit: nat)
    requires Good(w, base, limit) && w.heap.end == HEAP_START + INITIAL && e.Write?
    ensures !Harmful(w, e)
  {
    HarmfulWrites(w, e, LongOf(w.mem, w.heap), base, limit);
  }
}
