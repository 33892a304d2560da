/** How each change kmalloc and kfree make to the headers in memory is a change of the list. */
module HeapSteps {
  import opened Machine
  import opened HeapModel
  import opened HeapMemory
  import opened HeapTheorems

  /** Headers lie inside the bytes, so all their addresses and links are words. */
  lemma HeadersInside(h: Heap, long: nat, i: nat)
    requires Shape(h, long) && i < |h.blocks|
    ensures HEAP_START <= h.blocks[i].addr && h.blocks[i].addr + META <= h.end
    ensures h.blocks[i].addr + META + h.blocks[i].size <= h.end + META
    ensures InWindow(h.blocks[i].addr, META) && NextAddr(h.blocks, i) < WORD && h.blocks[i].size < WORD
  {
    if i > 0 { InOrder(h, long, 0, i); }
    if i + 1 < |h.blocks| {
      InOrder(h, long, i, |h.blocks| - 1);
      NextInside(h, long, i + 1);
    }
  }

  lemma NextInside(h: Heap, long: nat, i: nat)
    requires Shape(h, long) && i < |h.blocks|
    ensures h.blocks[i].addr <= h.end
  {
    if i + 1 < |h.blocks| { InOrder(h, long, i, |h.blocks| - 1); }
  }

  /** Bytes written between the header of block i and the next header disturb no other header. */
  lemma OtherHeaderKept(m: Bytes, n: Bytes, h: Heap, long: nat, i: nat, len: nat, j: nat)
    requires Shape(h, long) && i < |h.blocks| && j < |h.blocks| && j != i
    requires h.blocks[i].addr + len <= Limit(h, i, long)
    requires SameOutside(m, n, h.blocks[i].addr, len)
    ensures InWindow(h.blocks[j].addr, META) && HeaderAt(n, h.blocks[j].addr) == HeaderAt(m, h.blocks[j].addr)
  {
    hide HeaderAt;
    HeadersInside(h, long, j);
    if j < i { InOrder(h, long, j, i); } else { InOrder(h, long, i, j); }
    HeaderKept(m, n, h.blocks[j].addr, h.blocks[i].addr, len);
  }

  /** block->free = false, or true with no free successor: only the flag of block i changes. */
  lemma TakeInMemory(m: Bytes, h: Heap, long: nat, i: nat, n: nat)
    requires Shape(h, long) && Represents(m, h.blocks) && i < |h.blocks| && n <= h.blocks[i].size
    ensures InWindow(h.blocks[i].addr, META)
    ensures Represents(WithFree(m, h.blocks[i].addr, n == 0), Take(h, i, n).blocks)
  {
    assert Listed(m, h.blocks, i);
    var g := Take(h, i, n);
    var p := WithFree(m, h.blocks[i].addr, n == 0);
    SetFree(m, h.blocks[i].addr, n == 0);
    HeaderFits(h, long, i);
    hide WithFree, HeaderAt;
    forall j: nat | j < |g.blocks|
      ensures Listed(p, g.blocks, j)
    {
      assert NextAddr(g.blocks, j) == NextAddr(h.blocks, j);
      if j != i {
        OtherHeaderKept(m, p, h, long, i, META, j);
        StaysListed(m, p, h.blocks, j, g.blocks, j);
      }
    }
  }

  lemma HeaderFits(h: Heap, long: nat, i: nat)
    requires Shape(h, long) && i < |h.blocks|
    ensures h.blocks[i].addr + META <= Limit(h, i, long)
  {
  }

  // ----- splitting -----

  /** The writes of the splitting branch, in their order. */
  function CutMemory(m: Bytes, a: nat, n: nat): Bytes
    requires InWindow(a, META) && InWindow(a + META + n, META) && a + META + n < WORD
    requires n + META <= HeaderAt(m, a).size
  {
    var head := HeaderAt(m, a);
    NewHeaderAt(WithSize(m, a, n), a, a + META + n, head.next, head.size - n - META)
  }

  function NewHeaderAt(m: Bytes, a: nat, b: nat, next: u32, size: u32): Bytes
    requires InWindow(a, META) && InWindow(b, META) && b < WORD
  {
    WithNext(WithCanary(WithSize(WithNext(WithFree(m, b, true), b, next), b, size), b), a, b)
  }

  lemma NewHeader(m: Bytes, b: nat, next: u32, size: u32, free: bool)
    requires InWindow(b, META)
    ensures var n := WithCanary(WithSize(WithNext(WithFree(m, b, free), b, next), b, size), b);
      HeaderAt(n, b) == Header(next, size, free, CANARY) && SameOutside(m, n, b, META)
  {
    var m1 := WithFree(m, b, free);
    var m2 := WithNext(m1, b, next);
    var m3 := WithSize(m2, b, size);
    hide WithFree, WithNext, WithSize, WithCanary, HeaderAt;
    SetFree(m, b, free);
    SetNext(m1, b, next);
    SetSize(m2, b, size);
    SetCanary(m3, b);
  }

  lemma CutHeaders(m: Bytes, a: nat, n: nat)
    requires InWindow(a, META) && InWindow(a + META + n, META) && a + META + n < WORD
    requires n + META <= HeaderAt(m, a).size
    ensures var p := CutMemory(m, a, n);
      && HeaderAt(p, a) == HeaderAt(m, a).(next := a + META + n, size := n)
      && HeaderAt(p, a + META + n) == Header(HeaderAt(m, a).next, HeaderAt(m, a).size - n - META, true, CANARY)
      && SameOutside(m, p, a, n + 2 * META)
  {
    hide WithFree, WithNext, WithSize, WithCanary, HeaderAt, NewHeaderAt;
    var head := HeaderAt(m, a);
    SetSize(m, a, n);
    LinkedHeaders(WithSize(m, a, n), a, a + META + n, head.next, head.size - n - META);
  }

  /** The new header behind the block, and the block's link to it. */
  lemma LinkedHeaders(m: Bytes, a: nat, b: nat, next: u32, size: u32)
    requires InWindow(a, META) && InWindow(b, META) && a + META <= b < WORD
    ensures var p := NewHeaderAt(m, a, b, next, size);
      && HeaderAt(p, a) == HeaderAt(m, a).(next := b) && HeaderAt(p, b) == Header(next, size, true, CANARY)
      && SameOutside(m, p, a, b + META - a)
  {
    var n := WithCanary(WithSize(WithNext(WithFree(m, b, true), b, next), b, size), b);
    assert NewHeaderAt(m, a, b, next, size) == WithNext(n, a, b);
    hide WithFree, WithNext, WithSize, WithCanary, HeaderAt, NewHeaderAt;
    NewHeader(m, b, next, size, true);
    HeaderKept(m, n, a, b, META);
    SetNext(n, a, b);
    HeaderKept(n, WithNext(n, a, b), b, a, META);
  }

  lemma CutBlocks(h: Heap, i: nat, n: nat, j: nat)
    requires i < |h.blocks| && n + META <= h.blocks[i].size && j <= |h.blocks|
    ensures var g := Cut(h, i, n).blocks;
      && |g| == |h.blocks| + 1
      && g[i] == h.blocks[i].(size := n) && NextAddr(g, i) == h.blocks[i].addr + META + n
      && g[i + 1] == Block(h.blocks[i].addr + META + n, h.blocks[i].size - n - META, 0)
      && NextAddr(g, i + 1) == NextAddr(h.blocks, i)
      && (j < i ==> g[j] == h.blocks[j] && NextAddr(g, j) == NextAddr(h.blocks, j))
      && (j > i + 1 ==> g[j] == h.blocks[j - 1] && NextAddr(g, j) == NextAddr(h.blocks, j - 1))
  {
  }

  lemma MergeBlocks(h: Heap, i: nat, j: nat)
    requires i + 1 < |h.blocks| && h.blocks[i + 1].IsFree() && j + 1 < |h.blocks|
    ensures var g := Free(h, i).blocks;
      && |g| == |h.blocks| - 1
      && g[i] == Block(h.blocks[i].addr, h.blocks[i].size + h.blocks[i + 1].size + META, 0)
      && NextAddr(g, i) == NextAddr(h.blocks, i + 1)
      && (j < i ==> g[j] == h.blocks[j] && NextAddr(g, j) == NextAddr(h.blocks, j))
      && (j > i ==> g[j] == h.blocks[j + 1] && NextAddr(g, j) == NextAddr(h.blocks, j + 1))
  {
  }

  lemma CutInMemory(m: Bytes, h: Heap, long: nat, i: nat, n: nat)
    requires Shape(h, long) && Represents(m, h.blocks) && i < |h.blocks|
    requires h.blocks[i].IsFree() && 0 < n && h.blocks[i].size > n + META + MIN_BLOCK
    ensures InWindow(h.blocks[i].addr, META) && InWindow(h.blocks[i].addr + META + n, META)
    ensures h.blocks[i].addr + META + n < WORD && n + META <= HeaderAt(m, h.blocks[i].addr).size
    ensures Represents(CutMemory(m, h.blocks[i].addr, n), Cut(h, i, n).blocks)
  {
    hide HeaderAt, CutMemory, Cut, NextAddr;
    var g := Cut(h, i, n);
    var a := h.blocks[i].addr;
    assert Listed(m, h.blocks, i);
    HeadersInside(h, long, i);
    CutHeaders(m, a, n);
    var p := CutMemory(m, a, n);
    CutBlocks(h, i, n, 0);
    assert Listed(p, g.blocks, i) && Listed(p, g.blocks, i + 1);
    forall j: nat | j < |g.blocks|
      ensures Listed(p, g.blocks, j)
    {
      CutBlocks(h, i, n, j);
      if j < i {
        OtherHeaderKept(m, p, h, long, i, n + 2 * META, j);
        StaysListed(m, p, h.blocks, j, g.blocks, j);
      } else if j > i + 1 {
        OtherHeaderKept(m, p, h, long, i, n + 2 * META, j - 1);
        StaysListed(m, p, h.blocks, j - 1, g.blocks, j);
      }
    }
  }

  // ----- growing -----

  /** The header that request_space writes at the old end of the heap. */
  function EndHeader(m: Bytes, end: nat, n: u32): Bytes
    requires InWindow(end, META)
  {
    WithCanary(WithFree(WithNext(WithSize(m, end, n), end, 0), end, false), end)
  }

  /** kmalloc then links the last block to it. */
  function GrowMemory(m: Bytes, last: nat, end: nat, n: u32): Bytes
    requires InWindow(last, META) && InWindow(end, META) && end < WORD
  {
    WithNext(EndHeader(m, end, n), last, end)
  }

  lemma EndHeaderIs(m: Bytes, end: nat, n: u32)
    requires InWindow(end, META)
    ensures HeaderAt(EndHeader(m, end, n), end) == Header(0, n, false, CANARY)
    ensures SameOutside(m, EndHeader(m, end, n), end, META)
  {
    hide WithFree, WithNext, WithSize, WithCanary, HeaderAt;
    var m1 := WithSize(m, end, n);
    var m2 := WithNext(m1, end, 0);
    var m3 := WithFree(m2, end, false);
    SetSize(m, end, n);
    SetNext(m1, end, 0);
    SetFree(m2, end, false);
    SetCanary(m3, end);
  }

  /** The list is still there while its last block is not linked to the new one. */
  lemma EndHeaderKeeps(m: Bytes, h: Heap, long: nat, n: u32)
    requires Shape(h, long) && Represents(m, h.blocks)
    ensures InWindow(h.end, META) && Represents(EndHeader(m, h.end, n), h.blocks)
  {
    hide HeaderAt, EndHeader;
    EndHeaderIs(m, h.end, n);
    var p := EndHeader(m, h.end, n);
    forall j: nat | j < |h.blocks|
      ensures Listed(p, h.blocks, j)
    {
      assert Listed(m, h.blocks, j);
      HeadersInside(h, long, j);
      HeaderKept(m, p, h.blocks[j].addr, h.end, META);
      StaysListed(m, p, h.blocks, j, h.blocks, j);
    }
  }

  lemma GrowHeaders(m: Bytes, last: nat, end: nat, n: u32)
    requires InWindow(last, META) && InWindow(end, META) && end < WORD && last + META <= end
    ensures var p := GrowMemory(m, last, end, n);
      && HeaderAt(p, end) == Header(0, n, false, CANARY)
      && HeaderAt(p, last) == HeaderAt(m, last).(next := end)
      && forall a: nat :: InWindow(a, META) && a + META <= last ==> HeaderAt(p, a) == HeaderAt(m, a)
  {
    hide WithNext, EndHeader, HeaderAt;
    var m4 := EndHeader(m, end, n);
    EndHeaderIs(m, end, n);
    HeaderKept(m, m4, last, end, META);
    var p := WithNext(m4, last, end);
    SetNext(m4, last, end);
    HeaderKept(m4, p, end, last, META);
    forall a: nat | InWindow(a, META) && a + META <= last
      ensures HeaderAt(p, a) == HeaderAt(m, a)
    {
      HeaderKept(m, m4, a, end, META);
      HeaderKept(m4, p, a, last, META);
    }
  }

  lemma GrowInMemory(m: Bytes, h: Heap, long: nat, n: u32)
    requires Shape(h, long) && Represents(m, h.blocks) && n > 0
    ensures var last := h.blocks[|h.blocks| - 1].addr;
      && InWindow(last, META) && InWindow(h.end, META) && h.end < WORD
      && Represents(GrowMemory(m, last, h.end, n), Grow(h, n).blocks)
  {
    var k := |h.blocks| - 1;
    var last := h.blocks[k].addr;
    var g := Grow(h, n);
    HeadersInside(h, long, k);
    GrowHeaders(m, last, h.end, n);
    var p := GrowMemory(m, last, h.end, n);
    hide HeaderAt, GrowMemory;
    assert Listed(m, h.blocks, k);
    assert Listed(p, g.blocks, k) && Listed(p, g.blocks, k + 1);
    forall j: nat | j < |g.blocks|
      ensures Listed(p, g.blocks, j)
    {
      if j < k {
        HeadersInside(h, long, j);
        InOrder(h, long, j, k);
        StaysListed(m, p, h.blocks, j, g.blocks, j);
      }
    }
  }

  // ----- releasing -----

  /** The writes of kfree when the successor, at b, is free. */
  function MergeMemory(m: Bytes, a: nat, b: nat): Bytes
    requires InWindow(a, META) && InWindow(b, META)
  {
    WithSize(WithNext(WithFree(m, a, true), a, HeaderAt(m, b).next), a,
             Wrap(HeaderAt(m, a).size + HeaderAt(m, b).size + META))
  }

  lemma MergeHeaders(m: Bytes, a: nat, b: nat)
    requires InWindow(a, META) && InWindow(b, META)
    ensures var p := MergeMemory(m, a, b);
      && HeaderAt(p, a) == HeaderAt(m, a).(next := HeaderAt(m, b).next, free := true,
                                           size := Wrap(HeaderAt(m, a).size + HeaderAt(m, b).size + META))
      && SameOutside(m, p, a, META)
  {
    var m1 := WithFree(m, a, true);
    var m2 := WithNext(m1, a, HeaderAt(m, b).next);
    var size := Wrap(HeaderAt(m, a).size + HeaderAt(m, b).size + META);
    assert MergeMemory(m, a, b) == WithSize(m2, a, size);
    hide WithFree, WithNext, WithSize, HeaderAt, MergeMemory;
    SetFree(m, a, true);
    SetNext(m1, a, HeaderAt(m, b).next);
    SetSize(m2, a, size);
  }

  lemma MergedSize(h: Heap, long: nat, i: nat)
    requires Shape(h, long) && i + 1 < |h.blocks|
    ensures var size := h.blocks[i].size + h.blocks[i + 1].size + META; size < WORD && Wrap(size) == size
  {
    HeadersInside(h, long, i + 1);
    InOrder(h, long, i, i + 1);
    HeadersInside(h, long, i);
  }

  lemma MergedListed(m: Bytes, h: Heap, long: nat, i: nat)
    requires Shape(h, long) && Represents(m, h.blocks) && i + 1 < |h.blocks| && h.blocks[i + 1].IsFree()
    ensures InWindow(h.blocks[i].addr, META) && InWindow(h.blocks[i + 1].addr, META)
    ensures |Free(h, i).blocks| == |h.blocks| - 1
    ensures Listed(MergeMemory(m, h.blocks[i].addr, h.blocks[i + 1].addr), Free(h, i).blocks, i)
  {
    hide HeaderAt, MergeMemory, Free, NextAddr, Shape, Wrap;
    assert Listed(m, h.blocks, i) && Listed(m, h.blocks, i + 1);
    MergeBlocks(h, i, 0);
    MergedSize(h, long, i);
    MergeHeaders(m, h.blocks[i].addr, h.blocks[i + 1].addr);
  }

  lemma MergeInMemory(m: Bytes, h: Heap, long: nat, i: nat)
    requires Shape(h, long) && Represents(m, h.blocks) && i + 1 < |h.blocks| && h.blocks[i + 1].IsFree()
    ensures InWindow(h.blocks[i].addr, META) && InWindow(h.blocks[i + 1].addr, META)
    ensures Represents(MergeMemory(m, h.blocks[i].addr, h.blocks[i + 1].addr), Free(h, i).blocks)
  {
    MergedListed(m, h, long, i);
    var g := Free(h, i);
    var a, b := h.blocks[i].addr, h.blocks[i + 1].addr;
    HeaderFits(h, long, i);
    hide HeaderAt, MergeMemory, Free, NextAddr;
    MergeHeaders(m, a, b);
    var p := MergeMemory(m, a, b);
    forall j: nat | j < |g.blocks|
      ensures Listed(p, g.blocks, j)
    {
      MergeBlocks(h, i, j);
      if j < i {
        OtherHeaderKept(m, p, h, long, i, META, j);
        StaysListed(m, p, h.blocks, j, g.blocks, j);
      } else if j > i {
        OtherHeaderKept(m, p, h, long, i, META, j + 1);
        StaysListed(m, p, h.blocks, j + 1, g.blocks, j);
      }
    }
  }

  // ----- the clients' bytes -----

  /** x is a byte some client asked for, and no header shares it. */
  ghost predicate ClientByte(h: Heap, x: nat) {
    (exists i: nat :: i < |h.blocks| && InPayload(h.blocks[i], h.blocks[i].asked, x))
    && forall j: nat :: j < |h.blocks| ==> !InHeader(h.blocks[j], x)
  }

  ghost predicate ClientBytesKept(m: Bytes, n: Bytes, h: Heap) {
    forall x: nat :: InWindow(x, 1) && ClientByte(h, x) ==> Byte(n, x) == Byte(m, x)
  }

  /** Writes to the header of a block, or to anything up to the next block if it is free. */
  lemma KeepsClientBytes(m: Bytes, n: Bytes, h: Heap, long: nat, i: nat, len: nat)
    requires Shape(h, long) && i < |h.blocks| && SameOutside(m, n, h.blocks[i].addr, len)
    requires len <= META || (h.blocks[i].IsFree() && h.blocks[i].addr + len <= Limit(h, i, long))
    ensures ClientBytesKept(m, n, h)
  {
    forall x: nat | InWindow(x, 1) && ClientByte(h, x)
      ensures Byte(n, x) == Byte(m, x)
    {
      var k: nat :| k < |h.blocks| && InPayload(h.blocks[k], h.blocks[k].asked, x);
      assert !InHeader(h.blocks[i], x);
      if h.blocks[i].addr <= x < h.blocks[i].addr + len { PayloadsDisjoint(h, long, i, k, x); }
    }
  }

  /** Growing touches no client byte outside the new header. */
  lemma GrowthKeepsOtherBytes(m: Bytes, h: Heap, long: nat, n: u32, x: nat)
    requires Shape(h, long) && Represents(m, h.blocks) && ClientByte(h, x) && InWindow(x, 1)
    requires !(h.end <= x < h.end + META)
    ensures var last := h.blocks[|h.blocks| - 1].addr;
      && InWindow(last, META) && InWindow(h.end, META) && h.end < WORD
      && Byte(GrowMemory(m, last, h.end, n), x) == Byte(m, x)
  {
    hide EndHeader, WithNext, HeaderAt;
    var k := |h.blocks| - 1;
    var last := h.blocks[k].addr;
    HeadersInside(h, long, k);
    EndHeaderIs(m, h.end, n);
    SetNext(EndHeader(m, h.end, n), last, h.end);
    assert !InHeader(h.blocks[k], x);
  }

  /** Until it grows over them: growth keeps the clients' bytes exactly when no long last block is in use to its end. */
  lemma GrowthKeepsClientBytesIff(h: Heap, long: nat, n: u32)
    requires Shape(h, long) && n > 0
    ensures (forall m: Bytes :: Represents(m, h.blocks) ==> GrowthKeeps(m, h, n)) <==>
              !(long == |h.blocks| - 1 && h.blocks[long].asked + META > h.blocks[long].size)
  {
    if long == |h.blocks| - 1 && h.blocks[long].asked + META > h.blocks[long].size {
      var m := HeadersWritten(h, long, |h.blocks|);
      var marked := StoreByte(m, h.end, 1);
      TailIsClients(h, long);
      HeadersInside(h, long, long);
      ClientStoreKeeps(m, h, long, h.end, 1);
      GrowthClears(marked, h, long, n);
    } else {
      forall m: Bytes | Represents(m, h.blocks)
        ensures GrowthKeeps(m, h, n)
      {
        GrowthSpares(m, h, long, n);
      }
    }
  }

  /** Some memory that holds the headers of the first k blocks. */
  ghost function HeadersWritten(h: Heap, long: nat, k: nat): (m: Bytes)
    requires Shape(h, long) && k <= |h.blocks|
    ensures forall i: nat :: i < k ==> Listed(m, h.blocks, i)
  {
    if k == 0 then Blank()
    else
      HeadersInside(h, long, k - 1);
      var m := HeadersWritten(h, long, k - 1);
      var (a, next) := (h.blocks[k - 1].addr, NextAddr(h.blocks, k - 1));
      HeaderWritten(m, h, long, k - 1);
      WithCanary(WithSize(WithNext(WithFree(m, a, h.blocks[k - 1].IsFree()), a, next), a, h.blocks[k - 1].size), a)
  }

  function Blank(): Bytes {
    seq(0x1000_0010, i => 0)
  }

  lemma HeaderWritten(m: Bytes, h: Heap, long: nat, k: nat)
    requires Shape(h, long) && k < |h.blocks| && forall i: nat :: i < k ==> Listed(m, h.blocks, i)
    requires InWindow(h.blocks[k].addr, META) && h.blocks[k].size < WORD && NextAddr(h.blocks, k) < WORD
    ensures var (b, a) := (h.blocks[k], h.blocks[k].addr);
      var n := WithCanary(WithSize(WithNext(WithFree(m, a, b.IsFree()), a, NextAddr(h.blocks, k)), a, b.size), a);
      forall i: nat :: i <= k ==> Listed(n, h.blocks, i)
  {
    hide WithFree, WithNext, WithSize, WithCanary, HeaderAt;
    var (b, a) := (h.blocks[k], h.blocks[k].addr);
    var n := WithCanary(WithSize(WithNext(WithFree(m, a, b.IsFree()), a, NextAddr(h.blocks, k)), a, b.size), a);
    NewHeader(m, a, NextAddr(h.blocks, k), b.size, b.IsFree());
    HeaderFits(h, long, k);
    forall i: nat | i < k
      ensures Listed(n, h.blocks, i)
    {
      OtherHeaderKept(m, n, h, long, k, META, i);
      StaysListed(m, n, h.blocks, i, h.blocks, i);
    }
  }

  /** The stores of growing change no byte that a client asked for and no header shared. */
  ghost predicate GrowthKeeps(m: Bytes, h: Heap, n: u32) {
    h.blocks != [] &&
    var last := h.blocks[|h.blocks| - 1].addr;
    && InWindow(last, META) && InWindow(h.end, META) && h.end < WORD
    && ClientBytesKept(m, GrowMemory(m, last, h.end, n), h)
  }

  lemma TailIsClients(h: Heap, long: nat)
    requires Shape(h, long) && long == |h.blocks| - 1 && h.blocks[long].asked + META > h.blocks[long].size
    ensures ClientByte(h, h.end) && InWindow(h.end, 1)
  {
    assert InPayload(h.blocks[long], h.blocks[long].asked, h.end);
    forall j: nat | j < |h.blocks|
      ensures !InHeader(h.blocks[j], h.end)
    {
      HeadersInside(h, long, j);
    }
  }

  /** The new header begins with a null link. */
  lemma GrowthClears(m: Bytes, h: Heap, long: nat, n: u32)
    requires Shape(h, long) && Represents(m, h.blocks) && n > 0
    requires ClientByte(h, h.end) && InWindow(h.end, 1) && Byte(m, h.end) == 1
    ensures !GrowthKeeps(m, h, n)
  {
    hide GrowMemory, HeaderAt;
    GrowInMemory(m, h, long, n);
    var last := h.blocks[|h.blocks| - 1].addr;
    var p := GrowMemory(m, last, h.end, n);
    HeadersInside(h, long, |h.blocks| - 1);
    GrowHeaders(m, last, h.end, n);
    FirstByte(p, h.end);
  }

  lemma FirstByte(m: Bytes, a: nat)
    requires InWindow(a, META)
    ensures HeaderAt(m, a).next == 0 ==> Byte(m, a) == 0
  {
  }

  lemma GrowthSpares(m: Bytes, h: Heap, long: nat, n: u32)
    requires Shape(h, long) && Represents(m, h.blocks) && n > 0
    requires !(long == |h.blocks| - 1 && h.blocks[long].asked + META > h.blocks[long].size)
    ensures GrowthKeeps(m, h, n)
  {
    hide GrowMemory, HeaderAt;
    GrowInMemory(m, h, long, n);
    var (k, last) := (|h.blocks| - 1, h.blocks[|h.blocks| - 1].addr);
    forall x: nat | InWindow(x, 1) && ClientByte(h, x)
      ensures Byte(GrowMemory(m, last, h.end, n), x) == Byte(m, x)
    {
      var i: nat :| i < |h.blocks| && InPayload(h.blocks[i], h.blocks[i].asked, x);
      if i < k { InOrder(h, long, i, k); HeadersInside(h, long, k); }
      GrowthKeepsOtherBytes(m, h, long, n, x);
    }
  }

  // ----- the canary -----

  /** A client's byte that no header shares can be written without touching the list. */
  lemma ClientStoreKeeps(m: Bytes, h: Heap, long: nat, x: nat, v: u8)
    requires Shape(h, long) && Represents(m, h.blocks) && ClientByte(h, x) && InWindow(x, 1)
    ensures Represents(StoreByte(m, x, v), h.blocks)
  {
    hide HeaderAt;
    var p := StoreByte(m, x, v);
    assert SameOutside(m, p, x, 1);
    forall j: nat | j < |h.blocks|
      ensures Listed(p, h.blocks, j)
    {
      assert Listed(m, h.blocks, j);
      assert !InHeader(h.blocks[j], x);
      HeaderKept(m, p, h.blocks[j].addr, x, 1);
      StaysListed(m, p, h.blocks, j, h.blocks, j);
    }
  }

  /**
   * A client's byte is safe from every header unless it is among the last META payload bytes of the
   * long block and the long block has a successor.
   */
  lemma ClientByteIff(h: Heap, long: nat, i: nat, offset: nat)
    requires Shape(h, long) && i < |h.blocks| && offset < h.blocks[i].asked
    ensures ClientByte(h, h.blocks[i].addr + META + offset) <==>
              !(i == long && i + 1 < |h.blocks| && offset + META >= h.blocks[i].size)
  {
    var x := h.blocks[i].addr + META + offset;
    assert InPayload(h.blocks[i], h.blocks[i].asked, x);
    forall j: nat | j < |h.blocks|
      ensures InHeader(h.blocks[j], x) <==> i == long && j == i + 1 && offset + META >= h.blocks[i].size
    {
      if j < i { InOrder(h, long, j, i); } else if i < j { InOrder(h, long, i, j); }
      if i + 1 < |h.blocks| { assert h.blocks[i + 1].addr == Limit(h, i, long); }
    }
    if i == long && i + 1 < |h.blocks| && offset + META >= h.blocks[i].size {
      assert InHeader(h.blocks[i + 1], x);
    }
  }

  /**
   * There a client that keeps to the bytes it asked for destroys its neighbour's canary, and kfree
   * of the neighbour's valid pointer panics.
   */
  lemma ClientBreaksCanary(m: Bytes, h: Heap, long: nat, v: u8)
    requires Shape(h, long) && Represents(m, h.blocks)
    requires long + 1 < |h.blocks| && h.blocks[long].asked + 4 > h.blocks[long].size
    ensures var x := h.blocks[long + 1].addr + 12;
      && InPayload(h.blocks[long], h.blocks[long].asked, x) && InWindow(h.blocks[long + 1].addr, META)
      && (v != CANARY % 0x100 ==> HeaderAt(StoreByte(m, x, v), h.blocks[long + 1].addr).canary != CANARY)
  {
    assert h.blocks[long + 1].addr == Limit(h, long, long);
    HeadersInside(h, long, long + 1);
    var a := h.blocks[long + 1].addr;
    var p := StoreByte(m, a + 12, v);
    assert Byte(p, a + 12) == v;
    assert Load32(p, a + 12) % 0x100 == v;
  }
}
