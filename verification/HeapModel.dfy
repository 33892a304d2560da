/**
 * The kernel heap (kernel/kmalloc.c) as a list of blocks in address order. A block is a 16-byte
 * header followed by `size` bytes of payload.
 *
 * The first block is given INITIAL bytes of payload although only INITIAL bytes, header included,
 * lie below end_of_heap. One block of the list therefore always reaches META bytes too far; the
 * model calls it the long block and follows it.
 */
module HeapModel {
  import opened Machine

  const HEAP_START := 0xD000_0000
  const HEAP_END := 0xE000_0000
  const INITIAL := 0x1_0000
  const META := 16
  const MIN_BLOCK := 64

  /** `asked` is the number of bytes the holder asked for, 0 while the block is free. */
  datatype Block = Block(addr: nat, size: nat, asked: nat) {
    predicate IsFree() {
      asked == 0
    }
  }

  datatype Heap = Heap(blocks: seq<Block>, end: nat)

  // ----- the operations -----

  function Initial(): Heap {
    Heap([Block(HEAP_START, INITIAL, 0)], HEAP_START + INITIAL)
  }

  predicate Fits(b: Block, n: nat) {
    b.IsFree() && b.size >= n
  }

  /** find_first_free_kernel_block, from position i on; the length of the list if nothing fits. */
  function FirstFit(blocks: seq<Block>, n: nat, i: nat): (r: nat)
    requires i <= |blocks|
    ensures i <= r <= |blocks|
    decreases |blocks| - i
  {
    if i == |blocks| || Fits(blocks[i], n) then i else FirstFit(blocks, n, i + 1)
  }

  /** Block i shortened to n bytes, and a free block made of what is left after a header. */
  function Cut(h: Heap, i: nat, n: nat): Heap
    requires i < |h.blocks| && n + META <= h.blocks[i].size
  {
    var b := h.blocks[i];
    var rest := Block(b.addr + n + META, b.size - n - META, 0);
    h.(blocks := h.blocks[..i] + [b.(size := n), rest] + h.blocks[i + 1..])
  }

  function Take(h: Heap, i: nat, n: nat): Heap
    requires i < |h.blocks|
  {
    h.(blocks := h.blocks[i := h.blocks[i].(asked := n)])
  }

  /** The end of the heap that ksbrk computes, in 32-bit arithmetic. */
  function GrownEnd(end: nat, n: nat): u32 {
    Wrap(end + Wrap(n + META))
  }

  function Grow(h: Heap, n: nat): Heap {
    Heap(h.blocks + [Block(h.end, n, n)], GrownEnd(h.end, n))
  }

  /** Whether the request goes to ksbrk and gets through its limit test. */
  predicate Grows(h: Heap, n: nat) {
    FirstFit(h.blocks, n, 0) == |h.blocks| && GrownEnd(h.end, n) <= HEAP_END
  }

  /**
   * kmalloc. `room` says whether ksbrk finds the frames it needs; a sum that wraps below the old end
   * needs none, and then end_of_heap moves even if the call fails. The pointer is 0 on failure.
   */
  function Malloc(h: Heap, n: u32, room: bool): (Heap, nat) {
    if n == 0 then (h, 0)
    else
      var i := FirstFit(h.blocks, n, 0);
      FirstFitFits(h.blocks, n, 0);
      if i < |h.blocks| then
        var b := h.blocks[i];
        (Take(if b.size > n + META + MIN_BLOCK then Cut(h, i, n) else h, i, n), b.addr + META)
      else if GrownEnd(h.end, n) > HEAP_END then (h, 0)
      else if room then (Grow(h, n), h.end + META)
      else (h.(end := if GrownEnd(h.end, n) < h.end then GrownEnd(h.end, n) else h.end), 0)
  }

  /** kfree of the block at position i: it takes in its successor if that is free, and no other. */
  function Free(h: Heap, i: nat): Heap
    requires i < |h.blocks|
  {
    var b := h.blocks[i];
    if i + 1 < |h.blocks| && h.blocks[i + 1].IsFree() then
      var merged := Block(b.addr, b.size + h.blocks[i + 1].size + META, 0);
      h.(blocks := h.blocks[..i] + [merged] + h.blocks[i + 2..])
    else h.(blocks := h.blocks[i := b.(asked := 0)])
  }

  lemma {:induction false} FirstFitFits(blocks: seq<Block>, n: nat, i: nat)
    requires i <= |blocks|
    ensures var r := FirstFit(blocks, n, i);
      && (r < |blocks| ==> Fits(blocks[r], n))
      && forall j :: i <= j < r ==> !Fits(blocks[j], n)
    decreases |blocks| - i
  {
    if i < |blocks| && !Fits(blocks[i], n) { FirstFitFits(blocks, n, i + 1); }
  }

  // ----- the shape of the list -----

  /** Where block i ends for its neighbour: one header earlier than its payload if it is long. */
  function Limit(h: Heap, i: nat, long: nat): int
    requires i < |h.blocks|
  {
    h.blocks[i].addr + META + h.blocks[i].size - (if i == long then META else 0)
  }

  /**
   * The list starts at the heap start, runs without gap to end_of_heap, and overlaps in exactly one
   * place: the long block's last META bytes. Before the first growth the long block is the last.
   */
  ghost predicate Shape(h: Heap, long: nat) {
    var n := |h.blocks|;
    && long < n && h.blocks[0].addr == HEAP_START
    && (forall i :: 0 <= i < n - 1 ==> h.blocks[i + 1].addr == Limit(h, i, long))
    && h.end == Limit(h, n - 1, long) && h.end <= HEAP_END
    && (forall i :: 0 <= i < n ==> h.blocks[i].size > 0 && h.blocks[i].asked <= h.blocks[i].size)
    && h.blocks[long].size > MIN_BLOCK
    && (h.end == HEAP_START + INITIAL ==> long == n - 1) && h.end >= HEAP_START + INITIAL
  }

  lemma InitialShape()
    ensures Shape(Initial(), 0)
  {
  }

  /** Where the long block is after a call. */
  function LongAfterMalloc(h: Heap, n: u32, long: nat): nat {
    var i := FirstFit(h.blocks, n, 0);
    FirstFitFits(h.blocks, n, 0);
    if n > 0 && i < |h.blocks| && h.blocks[i].size > n + META + MIN_BLOCK && i <= long then long + 1 else long
  }

  lemma CutElement(h: Heap, i: nat, n: nat, j: nat)
    requires i < |h.blocks| && n + META <= h.blocks[i].size && j <= |h.blocks|
    ensures var (g, b) := (Cut(h, i, n), h.blocks[i]);
      && |g.blocks| == |h.blocks| + 1 && g.end == h.end
      && g.blocks[j] == (if j < i then h.blocks[j]
                         else if j == i then b.(size := n)
                         else if j == i + 1 then Block(b.addr + n + META, b.size - n - META, 0)
                         else h.blocks[j - 1])
  {
  }

  lemma CutNext(h: Heap, long: nat, i: nat, n: nat, j: nat)
    requires i < |h.blocks| && n + META <= h.blocks[i].size && j < |h.blocks|
    requires forall k :: 0 <= k < |h.blocks| - 1 ==> h.blocks[k + 1].addr == Limit(h, k, long)
    ensures |Cut(h, i, n).blocks| == |h.blocks| + 1
    ensures Cut(h, i, n).blocks[j + 1].addr == Limit(Cut(h, i, n), j, if i <= long then long + 1 else long)
  {
    CutElement(h, i, n, j);
    CutElement(h, i, n, j + 1);
    hide Cut;
    if j < i {
      assert h.blocks[j + 1].addr == Limit(h, j, long);
    } else if j > i {
      assert h.blocks[(j - 1) + 1].addr == Limit(h, j - 1, long);
    }
  }

  lemma CutShape(h: Heap, long: nat, i: nat, n: nat)
    requires Shape(h, long) && i < |h.blocks| && h.blocks[i].IsFree()
    requires 0 < n && h.blocks[i].size > n + META + MIN_BLOCK
    ensures Shape(Cut(h, i, n), if i <= long then long + 1 else long) && Cut(h, i, n).end == h.end
  {
    hide Cut;
    var g := Cut(h, i, n);
    var l := if i <= long then long + 1 else long;
    CutElement(h, i, n, 0);
    CutElement(h, i, n, l);
    CutElement(h, i, n, |h.blocks|);
    forall j | 0 <= j < |g.blocks| - 1
      ensures g.blocks[j + 1].addr == Limit(g, j, l)
    {
      CutNext(h, long, i, n, j);
    }
    forall j | 0 <= j < |g.blocks|
      ensures g.blocks[j].size > 0 && g.blocks[j].asked <= g.blocks[j].size
    {
      CutElement(h, i, n, j);
    }
  }

  lemma TakeShape(h: Heap, long: nat, i: nat, n: nat)
    requires Shape(h, long) && i < |h.blocks| && n <= h.blocks[i].size
    ensures Shape(Take(h, i, n), long)
  {
    var g := Take(h, i, n);
    forall j | 0 <= j < |g.blocks| - 1
      ensures g.blocks[j + 1].addr == Limit(g, j, long)
    {
      assert h.blocks[j + 1].addr == Limit(h, j, long);
    }
  }

  lemma GrowShape(h: Heap, long: nat, n: nat)
    requires Shape(h, long) && 0 < n && h.end + n + META <= HEAP_END
    ensures Shape(Grow(h, n), long)
  {
    var g := Grow(h, n);
    forall j | 0 <= j < |g.blocks| - 1
      ensures g.blocks[j + 1].addr == Limit(g, j, long)
    {
      if j < |h.blocks| - 1 { assert h.blocks[j + 1].addr == Limit(h, j, long); }
    }
  }

  lemma MergeNext(h: Heap, long: nat, i: nat, j: nat)
    requires i + 1 < |h.blocks| && h.blocks[i + 1].IsFree() && j + 2 < |h.blocks|
    requires forall k :: 0 <= k < |h.blocks| - 1 ==> h.blocks[k + 1].addr == Limit(h, k, long)
    ensures Free(h, i).blocks[j + 1].addr == Limit(Free(h, i), j, if i < long then long - 1 else long)
  {
    if j < i {
      assert h.blocks[j + 1].addr == Limit(h, j, long);
    } else {
      assert h.blocks[i + 1].addr == Limit(h, i, long);
      assert h.blocks[(j + 1) + 1].addr == Limit(h, j + 1, long);
    }
  }

  lemma FreeShape(h: Heap, long: nat, i: nat)
    requires Shape(h, long) && i < |h.blocks|
    ensures Shape(Free(h, i), if |Free(h, i).blocks| < |h.blocks| && i < long then long - 1 else long)
  {
    var g := Free(h, i);
    if |g.blocks| == |h.blocks| {
      TakeShape(h, long, i, 0);
    } else {
      var l := if i < long then long - 1 else long;
      assert h.blocks[i + 1].addr == Limit(h, i, long);
      assert forall j :: 0 <= j < i ==> g.blocks[j] == h.blocks[j];
      assert forall j :: i < j < |g.blocks| ==> g.blocks[j] == h.blocks[j + 1];
      assert forall j :: 0 <= j < |g.blocks| - 1 ==> g.blocks[j + 1].addr == Limit(g, j, l) by {
        hide Free, Limit;
        forall j | 0 <= j < |g.blocks| - 1
          ensures g.blocks[j + 1].addr == Limit(g, j, l)
        {
          MergeNext(h, long, i, j);
        }
      }
    }
  }
}
