/** What kmalloc and kfree keep, over all runs, and exactly where the long block hurts. */
module HeapTheorems {
  import opened Machine
  import opened HeapModel

  ghost predicate HasShape(h: Heap) {
    exists long: nat :: Shape(h, long)
  }

  // ----- one call -----

  /** A growth request whose 32-bit sum wraps, so that the limit test of ksbrk lets it through. */
  predicate WrapsIntoHeap(h: Heap, n: u32, room: bool) {
    n > 0 && Grows(h, n) && h.end + n + META >= WORD && (room || GrownEnd(h.end, n) < h.end)
  }

  lemma WrappedBlock(h: Heap, n: u32, l: nat)
    requires h.end + n + META >= WORD && GrownEnd(h.end, n) <= HEAP_END
    ensures !Shape(Grow(h, n), l)
  {
    assert Grow(h, n).blocks[|h.blocks|] == Block(h.end, n, n);
  }

  /** The end of the heap follows from the list, so moving it alone breaks the shape. */
  lemma MovedEnd(h: Heap, long: nat, end: nat, l: nat)
    requires Shape(h, long) && end != h.end
    ensures !Shape(h.(end := end), l)
  {
    var g := h.(end := end);
    if l != long && l < |h.blocks| {
      var i := if l < long then l else long;
      assert h.blocks[i + 1].addr == Limit(h, i, long) != Limit(g, i, l);
    }
  }

  /** kmalloc keeps the shape of the list exactly when its sum does not wrap into the heap. */
  lemma MallocShapeIff(h: Heap, long: nat, n: u32, room: bool)
    requires Shape(h, long)
    ensures var g := Malloc(h, n, room).0;
      if WrapsIntoHeap(h, n, room) then !HasShape(g) else Shape(g, LongAfterMalloc(h, n, long))
  {
    var i := FirstFit(h.blocks, n, 0);
    FirstFitFits(h.blocks, n, 0);
    if n == 0 {
    } else if i < |h.blocks| {
      if h.blocks[i].size > n + META + MIN_BLOCK {
        CutShape(h, long, i, n);
        TakeShape(Cut(h, i, n), LongAfterMalloc(h, n, long), i, n);
      } else {
        TakeShape(h, long, i, n);
      }
    } else if WrapsIntoHeap(h, n, room) {
      forall l: nat
        ensures !Shape(Malloc(h, n, room).0, l)
      {
        if room { WrappedBlock(h, n, l); } else { MovedEnd(h, long, GrownEnd(h.end, n), l); }
      }
    } else if room && Grows(h, n) {
      GrowShape(h, long, n);
    }
  }

  /** A request below half a gigabyte never wraps, whatever the state of the heap. */
  lemma SmallRequestsNeverWrap(h: Heap, long: nat, n: u32, room: bool)
    requires Shape(h, long) && n + META <= 0x1FFF_FFFF
    ensures !WrapsIntoHeap(h, n, room)
  {
  }

  /**
   * kmalloc serves from the lowest block that is free and large enough, and goes to ksbrk only if
   * there is none. What it grants is at least what was asked and at most META + MIN_BLOCK more, and
   * a block it splits off is larger than MIN_BLOCK.
   */
  lemma MallocGrants(h: Heap, long: nat, n: u32, room: bool, ptr: nat)
    requires Shape(h, long) && n > 0 && Malloc(h, n, room).1 == ptr && ptr != 0
    ensures var (g, i) := (Malloc(h, n, room).0, FirstFit(h.blocks, n, 0));
      && i < |g.blocks| && ptr == g.blocks[i].addr + META && g.blocks[i].asked == n
      && n <= g.blocks[i].size <= n + META + MIN_BLOCK
      && (forall j :: 0 <= j < i ==> !Fits(h.blocks[j], n) && g.blocks[j] == h.blocks[j])
      && (i < |h.blocks| <==> exists j :: 0 <= j < |h.blocks| && Fits(h.blocks[j], n))
      && (i < |h.blocks| ==> g.end == h.end)
      && (|g.blocks| > |h.blocks| && i < |h.blocks| ==> g.blocks[i + 1].IsFree() && g.blocks[i + 1].size > MIN_BLOCK)
  {
    FirstFitFits(h.blocks, n, 0);
  }

  /** Block i is the lowest that is free and holds n bytes. */
  predicate LowestFit(blocks: seq<Block>, n: nat, i: nat) {
    && i < |blocks| && blocks[i].IsFree() && blocks[i].size >= n
    && forall j :: 0 <= j < i ==> !(blocks[j].IsFree() && blocks[j].size >= n)
  }

  /** Nothing is asked, or no free block is large enough and the heap cannot grow for it. */
  ghost predicate Refused(h: Heap, n: nat, room: bool) {
    || n == 0
    || ((forall j :: 0 <= j < |h.blocks| ==> !(h.blocks[j].IsFree() && h.blocks[j].size >= n))
        && !(room && (h.end + (n + 16) % 0x1_0000_0000) % 0x1_0000_0000 <= 0xE000_0000))
  }

  /**
   * The lowest fit is served in its place, and nothing else changes: it is split if more than a header and
   * 64 bytes are left over, and taken whole otherwise.
   */
  ghost predicate ServesLowest(h: Heap, g: Heap, ptr: nat, n: nat) {
    forall i: nat :: n > 0 && LowestFit(h.blocks, n, i) ==>
      var b := h.blocks[i];
      && ptr == b.addr + 16 && g.end == h.end
      && (b.size > n + 80 ==>
            g.blocks == h.blocks[..i] + [Block(b.addr, n, n), Block(b.addr + n + 16, b.size - n - 16, 0)]
                        + h.blocks[i + 1..])
      && (b.size <= n + 80 ==> g.blocks == h.blocks[..i] + [Block(b.addr, b.size, n)] + h.blocks[i + 1..])
  }

  lemma MallocServes(h: Heap, n: u32, room: bool)
    ensures ServesLowest(h, Malloc(h, n, room).0, Malloc(h, n, room).1, n)
  {
    FirstFitFits(h.blocks, n, 0);
    forall i: nat | n > 0 && LowestFit(h.blocks, n, i)
      ensures i == FirstFit(h.blocks, n, 0)
    {
    }
  }

  /** kmalloc answers null exactly then, and otherwise serves the lowest fit if there is one. */
  lemma MallocAnswers(h: Heap, n: u32, room: bool)
    ensures Malloc(h, n, room).1 == 0 <==> Refused(h, n, room)
    ensures ServesLowest(h, Malloc(h, n, room).0, Malloc(h, n, room).1, n)
    ensures Refused(h, n, room) ==>
              var (g, end) := (Malloc(h, n, room).0, (h.end + (n + 16) % 0x1_0000_0000) % 0x1_0000_0000);
              g.blocks == h.blocks && (g.end == h.end || (end < h.end && g.end == end))
  {
    FirstFitFits(h.blocks, n, 0);
    MallocServes(h, n, room);
    hide ServesLowest, LowestFit, Cut, Take, Grow;
  }

  /** Without a fit, a granted request is a new block at the old end of the heap, and nothing else changes. */
  lemma MallocAppends(h: Heap, n: u32, room: bool)
    requires n > 0 && Malloc(h, n, room).1 != 0
    requires forall j :: 0 <= j < |h.blocks| ==> !(h.blocks[j].IsFree() && h.blocks[j].size >= n)
    ensures Malloc(h, n, room).1 == h.end + 16
    ensures Malloc(h, n, room).0.blocks == h.blocks + [Block(h.end, n, n)]
    ensures Malloc(h, n, room).0.end == (h.end + (n + 16) % 0x1_0000_0000) % 0x1_0000_0000
  {
    FirstFitFits(h.blocks, n, 0);
  }

  /** kfree: the block is free, and takes in its successor exactly if that is free. */
  lemma FreeEffect(h: Heap, i: nat)
    requires i < |h.blocks|
    ensures Free(h, i).end == h.end
    ensures Free(h, i).blocks ==
              if i + 1 < |h.blocks| && h.blocks[i + 1].IsFree() then
                h.blocks[..i] + [Block(h.blocks[i].addr, h.blocks[i].size + h.blocks[i + 1].size + 16, 0)]
                + h.blocks[i + 2..]
              else h.blocks[..i] + [Block(h.blocks[i].addr, h.blocks[i].size, 0)] + h.blocks[i + 1..]
  {
  }

  // ----- all runs -----

  /** Requests, and releases of the block at a position that is in use. */
  datatype Op = Request(n: u32, room: bool) | Release(i: nat)

  predicate Enabled(h: Heap, op: Op) {
    op.Release? ==> op.i < |h.blocks| && !h.blocks[op.i].IsFree()
  }

  /** A release of a position that is not in use is not something a client does; it changes nothing. */
  function Step(h: Heap, op: Op): Heap {
    match op
    case Request(n, room) => Malloc(h, n, room).0
    case Release(i) => if Enabled(h, op) then Free(h, i) else h
  }

  function Run(h: Heap, ops: seq<Op>): Heap {
    if ops == [] then h else Step(Run(h, ops[..|ops| - 1]), ops[|ops| - 1])
  }

  predicate StepWraps(h: Heap, op: Op) {
    op.Request? && WrapsIntoHeap(h, op.n, op.room)
  }

  predicate NeverWraps(ops: seq<Op>) {
    ops != [] ==>
      var front := ops[..|ops| - 1];
      NeverWraps(front) && !StepWraps(Run(Initial(), front), ops[|ops| - 1])
  }

  ghost predicate ShapedThroughout(ops: seq<Op>) {
    HasShape(Run(Initial(), ops)) && (ops != [] ==> ShapedThroughout(ops[..|ops| - 1]))
  }

  lemma StepShapeIff(h: Heap, op: Op)
    requires HasShape(h)
    ensures HasShape(Step(h, op)) <==> !StepWraps(h, op)
  {
    var long: nat :| Shape(h, long);
    match op
    case Request(n, room) => MallocShapeIff(h, long, n, room);
    case Release(i) => if Enabled(h, op) { FreeShape(h, long, i); }
  }

  /**
   * Over every run of kmalloc, kfree of live blocks and growth, in any order, the list keeps its
   * shape in every state exactly when no request wraps: it covers the heap in address order without
   * gap, and overlaps only by the long block's last META bytes.
   */
  lemma {:induction false} ShapeOverRunsIff(ops: seq<Op>)
    ensures ShapedThroughout(ops) <==> NeverWraps(ops)
    decreases |ops|
  {
    hide HasShape, StepWraps, Step;
    if ops == [] {
      InitialHasShape();
    } else {
      var front := ops[..|ops| - 1];
      ShapeOverRunsIff(front);
      if HasShape(Run(Initial(), front)) { StepShapeIff(Run(Initial(), front), ops[|ops| - 1]); }
    }
  }

  lemma InitialHasShape()
    ensures HasShape(Initial())
  {
    InitialShape();
  }

  // ----- who overlaps whom -----

  lemma {:induction false} InOrder(h: Heap, long: nat, i: nat, j: nat)
    requires Shape(h, long) && i < j < |h.blocks|
    ensures h.blocks[i].addr + META <= Limit(h, i, long) <= h.blocks[j].addr
    ensures i + 1 < j ==> h.blocks[j].addr > Limit(h, i, long) + META
    decreases j - i
  {
    assert h.blocks[i + 1].addr == Limit(h, i, long);
    if i + 1 < j { InOrder(h, long, i + 1, j); }
  }

  /** x is one of the first n payload bytes of block b. */
  predicate InPayload(b: Block, n: nat, x: nat) {
    b.addr + META <= x < b.addr + META + n
  }

  predicate InHeader(b: Block, x: nat) {
    b.addr <= x < b.addr + META
  }

  /** No byte belongs to the payloads of two blocks, grown heap or not. */
  lemma PayloadsDisjoint(h: Heap, long: nat, i: nat, j: nat, x: nat)
    requires Shape(h, long) && i < |h.blocks| && j < |h.blocks|
    requires InPayload(h.blocks[i], h.blocks[i].size, x) && InPayload(h.blocks[j], h.blocks[j].size, x)
    ensures i == j
  {
    if i < j { InOrder(h, long, i, j); } else if j < i { InOrder(h, long, j, i); }
  }

  lemma HeadersDisjoint(h: Heap, long: nat, i: nat, j: nat, x: nat)
    requires Shape(h, long) && i < |h.blocks| && j < |h.blocks|
    requires InHeader(h.blocks[i], x) && InHeader(h.blocks[j], x)
    ensures i == j
  {
    if i < j { InOrder(h, long, i, j); } else if j < i { InOrder(h, long, j, i); }
  }

  /**
   * The first n payload bytes of block i reach into the header of block j exactly when i is the
   * long block, j its successor, and fewer than META bytes of the payload are left over.
   */
  lemma RequestMeetsHeaderIff(h: Heap, long: nat, i: nat, n: nat, j: nat)
    requires Shape(h, long) && i < |h.blocks| && j < |h.blocks| && n <= h.blocks[i].size
    ensures (exists x: nat :: InPayload(h.blocks[i], n, x) && InHeader(h.blocks[j], x))
        <==> i == long && j == i + 1 && n + META > h.blocks[i].size
  {
    if i < j {
      InOrder(h, long, i, j);
      if i == long && j == i + 1 && n + META > h.blocks[i].size {
        var x := h.blocks[j].addr;
        assert h.blocks[i + 1].addr == Limit(h, i, long);
        assert InPayload(h.blocks[i], n, x) && InHeader(h.blocks[j], x);
      }
    } else if j < i {
      InOrder(h, long, j, i);
    }
  }

  /** Until the heap first grows no payload meets a header. */
  lemma NoOverlapBeforeGrowth(h: Heap, long: nat, i: nat, j: nat, x: nat)
    requires Shape(h, long) && h.end == HEAP_START + INITIAL
    requires i < |h.blocks| && j < |h.blocks| && InPayload(h.blocks[i], h.blocks[i].size, x)
    ensures !InHeader(h.blocks[j], x)
  {
    RequestMeetsHeaderIff(h, long, i, h.blocks[i].size, j);
  }

  // ----- clients -----

  /** ptr is what kmalloc(n) returned, and was not given back. */
  ghost predicate Live(h: Heap, ptr: nat, n: nat) {
    n > 0 && exists j: nat :: j < |h.blocks| && h.blocks[j].addr + META == ptr && h.blocks[j].asked == n
  }

  lemma CutKeeps(h: Heap, i: nat, n: nat, j: nat)
    requires i < |h.blocks| && n + META <= h.blocks[i].size && j < |h.blocks| && j != i
    ensures var g := Cut(h, i, n).blocks;
      |g| == |h.blocks| + 1 && g[if j < i then j else j + 1] == h.blocks[j] && g[i].addr == h.blocks[i].addr
  {
  }

  /** kmalloc leaves every live pointer live, and what it returns was not live before. */
  lemma MallocKeepsLive(h: Heap, long: nat, n: u32, room: bool, ptr: nat, k: nat)
    requires Shape(h, long) && Live(h, ptr, k)
    ensures var (g, r) := Malloc(h, n, room); Live(g, ptr, k) && (r != 0 ==> r != ptr && Live(g, r, n))
  {
    FirstFitFits(h.blocks, n, 0);
    var i := FirstFit(h.blocks, n, 0);
    var j: nat :| j < |h.blocks| && h.blocks[j].addr + META == ptr && h.blocks[j].asked == k;
    var g := Malloc(h, n, room).0.blocks;
    if n > 0 && i < |h.blocks| {
      if j < i { InOrder(h, long, j, i); } else { InOrder(h, long, i, j); }
      if h.blocks[i].size > n + META + MIN_BLOCK {
        CutKeeps(h, i, n, j);
        assert g[if j < i then j else j + 1] == h.blocks[j];
      } else {
        assert g[j] == h.blocks[j];
      }
      assert g[i].addr == h.blocks[i].addr && g[i].asked == n;
    } else {
      assert g[j] == h.blocks[j];
      if |g| > |h.blocks| { assert g[i] == Block(h.end, n, n); EndApart(h, long, j); }
    }
  }

  /** kmalloc makes exactly the pointer it returns live, and ends the life of none. */
  lemma MallocLiveIff(h: Heap, long: nat, n: u32, room: bool, ptr: nat, k: nat)
    requires Shape(h, long)
    ensures var (g, r) := Malloc(h, n, room);
      && (Live(g, ptr, k) <==> Live(h, ptr, k) || (r != 0 && ptr == r && k == n))
      && (r != 0 ==> !Live(h, r, k))
  {
    var (g, r) := Malloc(h, n, room);
    if Live(h, ptr, k) { MallocKeepsLive(h, long, n, room, ptr, k); }
    if r != 0 && Live(h, r, k) { MallocKeepsLive(h, long, n, room, r, k); }
    NewIsLive(h, n, room);
    if Live(g, ptr, k) {
      var j: nat :| j < |g.blocks| && g.blocks[j].addr + META == ptr && g.blocks[j].asked == k;
      MallocOldBlock(h, n, room, j);
    }
  }

  /** A block in use after kmalloc is the one that was served or was in use before. */
  lemma MallocOldBlock(h: Heap, n: u32, room: bool, j: nat)
    requires var g := Malloc(h, n, room).0; j < |g.blocks| && !g.blocks[j].IsFree()
    ensures var (g, r) := Malloc(h, n, room);
      g.blocks[j] in h.blocks || (r != 0 && g.blocks[j].addr + META == r && g.blocks[j].asked == n)
  {
    FirstFitFits(h.blocks, n, 0);
    var i := FirstFit(h.blocks, n, 0);
    var g := Malloc(h, n, room).0.blocks;
    if n > 0 && i < |h.blocks| && h.blocks[i].size > n + META + MIN_BLOCK {
      if j < i {
        assert g[j] == h.blocks[j];
      } else if j > i + 1 {
        assert g[j] == h.blocks[j - 1];
      }
    }
  }

  /** kfree ends the life of the pointer it is given, and of no other. */
  lemma FreeLiveIff(h: Heap, long: nat, i: nat, ptr: nat, k: nat)
    requires Shape(h, long) && i < |h.blocks|
    ensures Live(Free(h, i), ptr, k) <==> Live(h, ptr, k) && ptr != h.blocks[i].addr + META
  {
    var g := Free(h, i).blocks;
    var merged := |g| < |h.blocks|;
    if Live(h, ptr, k) && ptr != h.blocks[i].addr + META {
      var j: nat :| j < |h.blocks| && h.blocks[j].addr + META == ptr && h.blocks[j].asked == k;
      assert g[if merged && j > i then j - 1 else j] == h.blocks[j];
    }
    if Live(Free(h, i), ptr, k) {
      var j: nat :| j < |g| && g[j].addr + META == ptr && g[j].asked == k;
      assert j != i;
      var b := if merged && j > i then j + 1 else j;
      assert g[j] == h.blocks[b];
      if b < i { InOrder(h, long, b, i); } else { InOrder(h, long, i, b); }
    }
  }

  lemma EndApart(h: Heap, long: nat, j: nat)
    requires Shape(h, long) && j < |h.blocks|
    ensures h.blocks[j].addr < h.end
  {
    if j < |h.blocks| - 1 { InOrder(h, long, j, |h.blocks| - 1); }
  }

  lemma NewIsLive(h: Heap, n: u32, room: bool)
    ensures var (g, r) := Malloc(h, n, room); r != 0 ==> Live(g, r, n)
  {
    FirstFitFits(h.blocks, n, 0);
    var i := FirstFit(h.blocks, n, 0);
    var (g, r) := Malloc(h, n, room);
    if r != 0 {
      assert g.blocks[i].addr + META == r && g.blocks[i].asked == n;
    }
  }

  // ----- conservation -----

  function TotalBytes(blocks: seq<Block>): nat {
    if blocks == [] then 0
    else TotalBytes(blocks[..|blocks| - 1]) + blocks[|blocks| - 1].size + META
  }

  lemma {:induction false} PrefixBytes(h: Heap, long: nat, n: nat)
    requires Shape(h, long) && n < |h.blocks|
    ensures TotalBytes(h.blocks[..n + 1]) ==
              Limit(h, n, long) - HEAP_START + (if long <= n then META else 0)
    decreases n
  {
    assert h.blocks[..n + 1][..n] == h.blocks[..n];
    if n == 0 {
      assert TotalBytes(h.blocks[..0]) == 0;
    } else {
      PrefixBytes(h, long, n - 1);
      assert h.blocks[n - 1 + 1].addr == Limit(h, n - 1, long);
    }
  }

  /** Headers and payloads always add up to one header more than the heap has bytes. */
  lemma BytesConserved(h: Heap, long: nat)
    requires Shape(h, long)
    ensures TotalBytes(h.blocks) == h.end - HEAP_START + META
  {
    PrefixBytes(h, long, |h.blocks| - 1);
    assert h.blocks[..|h.blocks|] == h.blocks;
  }

  /** So a call changes the sum only by growing, and then by the request and a header. */
  lemma MallocBytes(h: Heap, long: nat, n: u32, room: bool)
    requires Shape(h, long) && !WrapsIntoHeap(h, n, room)
    ensures var g := Malloc(h, n, room).0;
      TotalBytes(g.blocks) == TotalBytes(h.blocks) + (if n > 0 && room && Grows(h, n) then n + META else 0)
  {
    MallocShapeIff(h, long, n, room);
    BytesConserved(h, long);
    BytesConserved(Malloc(h, n, room).0, LongAfterMalloc(h, n, long));
    FirstFitFits(h.blocks, n, 0);
  }

  lemma FreeBytes(h: Heap, long: nat, i: nat)
    requires Shape(h, long) && i < |h.blocks|
    ensures TotalBytes(Free(h, i).blocks) == TotalBytes(h.blocks) && Free(h, i).end == h.end
  {
    FreeShape(h, long, i);
    BytesConserved(h, long);
    BytesConserved(Free(h, i), if |Free(h, i).blocks| < |h.blocks| && i < long then long - 1 else long);
  }

  // ----- failing runs -----

  /** kmalloc(0x10000) then kmalloc(1): the first client's last 16 bytes are the second's header. */
  lemma GrowthOverlaps()
    ensures var h := Run(Initial(), [Request(0x1_0000, true), Request(1, true)]);
      && h.blocks == [Block(HEAP_START, 0x1_0000, 0x1_0000), Block(HEAP_START + 0x1_0000, 1, 1)]
      && InPayload(h.blocks[0], h.blocks[0].asked, HEAP_START + 0x1_0000)
      && InHeader(h.blocks[1], HEAP_START + 0x1_0000)
  {
    var first, second := Request(0x1_0000, true), Request(1, true);
    assert [first, second][..1] == [first] && [first][..0] == [];
    var h0 := Initial();
    assert Run(h0, [first]) == Step(Run(h0, []), first) == Malloc(h0, 0x1_0000, true).0;
    assert FirstFit(h0.blocks, 0x1_0000, 0) == 0;
    var h1 := Malloc(h0, 0x1_0000, true).0;
    assert h1.blocks == [Block(HEAP_START, 0x1_0000, 0x1_0000)];
    assert FirstFit(h1.blocks, 1, 0) == FirstFit(h1.blocks, 1, 1) == 1;
  }

  /** kmalloc(0x30000000) on the fresh heap: the sum wraps to 0x10010, the test passes, the list is broken. */
  lemma RequestWraps()
    ensures var h := Malloc(Initial(), 0x3000_0000, true).0;
      && WrapsIntoHeap(Initial(), 0x3000_0000, true) && !HasShape(h)
      && h.end == 0x1_0010 && h.blocks[1] == Block(HEAP_START + INITIAL, 0x3000_0000, 0x3000_0000)
  {
    InitialShape();
    assert FirstFit(Initial().blocks, 0x3000_0000, 0) == FirstFit(Initial().blocks, 0x3000_0000, 1) == 1;
    MallocShapeIff(Initial(), 0, 0x3000_0000, true);
  }

  /** The bound of SmallRequestsNeverWrap is tight: on the fully grown heap the next request wraps. */
  lemma SmallestWrap(h: Heap, long: nat)
    requires Shape(h, long) && h.end == HEAP_END
    ensures WrapsIntoHeap(h, 0x1FFF_FFF0, true) && 0x1FFF_FFF0 + META == 0x1FFF_FFFF + 1
  {
    var i := FirstFit(h.blocks, 0x1FFF_FFF0, 0);
    FirstFitFits(h.blocks, 0x1FFF_FFF0, 0);
    var last := |h.blocks| - 1;
    forall j | 0 <= j <= last
      ensures h.blocks[j].size < 0x1FFF_FFF0
    {
      if j > 0 { InOrder(h, long, 0, j); }
      if j < last { InOrder(h, long, j, last); }
    }
  }
}
