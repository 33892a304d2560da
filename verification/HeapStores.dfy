/** What whole calls of kmalloc and kfree, and stores of their clients, do to the heap's bytes. */
module HeapStores {
  import opened Machine
  import opened HeapModel
  import opened HeapMemory
  import opened HeapTheorems
  import opened HeapSteps

  /** The list has its shape, and memory holds every header with its link and its canary. */
  ghost predicate Sound(m: Bytes, h: Heap) {
    exists long: nat :: Shape(h, long) && Represents(m, h.blocks)
  }

  ghost function LongOf(m: Bytes, h: Heap): (long: nat)
    requires Sound(m, h)
    ensures Shape(h, long) && Represents(m, h.blocks)
  {
    var long: nat :| Shape(h, long) && Represents(m, h.blocks);
    long
  }

  // ----- what one call writes -----

  ghost function ServeMemory(m: Bytes, h: Heap, n: nat, i: nat): Bytes
    requires Sound(m, h) && n > 0 && i < |h.blocks| && Fits(h.blocks[i], n)
  {
    var (long, a) := (LongOf(m, h), h.blocks[i].addr);
    HeadersInside(h, long, i);
    var split := h.blocks[i].size > n + META + MIN_BLOCK;
    if split then
      CutInMemory(m, h, long, i, n);
      WithFree(CutMemory(m, a, n), a, false)
    else WithFree(m, a, false)
  }

  ghost function ExtendMemory(m: Bytes, h: Heap, n: u32): Bytes
    requires Sound(m, h) && n > 0
  {
    GrowInMemory(m, h, LongOf(m, h), n);
    GrowMemory(m, h.blocks[|h.blocks| - 1].addr, h.end, n)
  }

  ghost function MallocMemory(m: Bytes, h: Heap, n: u32, room: bool): Bytes
    requires Sound(m, h)
  {
    FirstFitFits(h.blocks, n, 0);
    if n == 0 then m
    else if FirstFit(h.blocks, n, 0) < |h.blocks| then ServeMemory(m, h, n, FirstFit(h.blocks, n, 0))
    else if Grows(h, n) && room then ExtendMemory(m, h, n)
    else m
  }

  ghost function FreeMemory(m: Bytes, h: Heap, i: nat): Bytes
    requires Sound(m, h) && i < |h.blocks|
  {
    HeadersInside(h, LongOf(m, h), i);
    if i + 1 < |h.blocks| && h.blocks[i + 1].IsFree() then
      MergeInMemory(m, h, LongOf(m, h), i);
      MergeMemory(m, h.blocks[i].addr, h.blocks[i + 1].addr)
    else WithFree(m, h.blocks[i].addr, true)
  }

  // ----- each step -----

  lemma IsSound(m: Bytes, h: Heap, long: nat)
    requires Shape(h, long) && Represents(m, h.blocks)
    ensures Sound(m, h)
  {
  }

  lemma ServeSound(m: Bytes, h: Heap, n: nat, i: nat)
    requires Sound(m, h) && n > 0 && i < |h.blocks| && Fits(h.blocks[i], n)
    ensures Sound(ServeMemory(m, h, n, i),
                  Take(if h.blocks[i].size > n + META + MIN_BLOCK then Cut(h, i, n) else h, i, n))
  {
    hide HeaderAt, CutMemory, WithFree, Cut, Take;
    var (long, a) := (LongOf(m, h), h.blocks[i].addr);
    HeadersInside(h, long, i);
    if h.blocks[i].size > n + META + MIN_BLOCK {
      CutInMemory(m, h, long, i, n);
      CutShape(h, long, i, n);
      CutBlocks(h, i, n, i);
      var g, l := Cut(h, i, n), if i <= long then long + 1 else long;
      TakeInMemory(CutMemory(m, a, n), g, l, i, n);
      TakeShape(g, l, i, n);
      IsSound(WithFree(CutMemory(m, a, n), a, false), Take(g, i, n), l);
    } else {
      TakeInMemory(m, h, long, i, n);
      TakeShape(h, long, i, n);
      IsSound(WithFree(m, a, false), Take(h, i, n), long);
    }
  }

  lemma MallocSoundIff(m: Bytes, h: Heap, n: u32, room: bool)
    requires Sound(m, h)
    ensures Sound(MallocMemory(m, h, n, room), Malloc(h, n, room).0) <==> !WrapsIntoHeap(h, n, room)
  {
    hide Represents, Shape, ServeMemory, ExtendMemory;
    var long := LongOf(m, h);
    MallocShapeIff(h, long, n, room);
    FirstFitFits(h.blocks, n, 0);
    var i := FirstFit(h.blocks, n, 0);
    var g := Malloc(h, n, room).0;
    if WrapsIntoHeap(h, n, room) {
      assert !HasShape(g);
    } else if n > 0 && i < |h.blocks| {
      ServeSound(m, h, n, i);
    } else if n > 0 && Grows(h, n) && room {
      ExtendSound(m, h, n);
    } else {
      SameHeap(m, h, g, long);
    }
  }

  lemma ExtendSound(m: Bytes, h: Heap, n: u32)
    requires Sound(m, h) && n > 0 && Grows(h, n) && !WrapsIntoHeap(h, n, true)
    ensures Sound(ExtendMemory(m, h, n), Grow(h, n))
  {
    hide HeaderAt, GrowMemory;
    var long := LongOf(m, h);
    GrowInMemory(m, h, long, n);
    GrowShape(h, long, n);
    IsSound(ExtendMemory(m, h, n), Grow(h, n), long);
  }

  lemma SameHeap(m: Bytes, h: Heap, g: Heap, long: nat)
    requires Sound(m, h) && Shape(g, long) && g.blocks == h.blocks
    ensures Sound(m, g)
  {
    IsSound(m, g, long);
  }

  lemma FreeSound(m: Bytes, h: Heap, i: nat)
    requires Sound(m, h) && i < |h.blocks|
    ensures Sound(FreeMemory(m, h, i), Free(h, i))
  {
    hide HeaderAt, MergeMemory, WithFree;
    var long := LongOf(m, h);
    FreeShape(h, long, i);
    var l := if |Free(h, i).blocks| < |h.blocks| && i < long then long - 1 else long;
    if i + 1 < |h.blocks| && h.blocks[i + 1].IsFree() {
      MergeInMemory(m, h, long, i);
    } else {
      TakeInMemory(m, h, long, i, 0);
    }
    IsSound(FreeMemory(m, h, i), Free(h, i), l);
  }

  // ----- clients' stores -----

  /** Storing v at x changes what the header at a says. Bytes 9 to 11 are padding. */
  predicate ChangesHeader(m: Bytes, a: nat, x: nat, v: u8)
    requires InWindow(x, 1)
  {
    || ((a <= x < a + 8 || a + 12 <= x < a + 16) && v != Byte(m, x))
    || (x == a + 8 && (v == 0) != (Byte(m, x) == 0))
  }

  lemma ChangesHeaderIff(m: Bytes, a: nat, x: nat, v: u8)
    requires InWindow(a, META) && InWindow(x, 1)
    ensures HeaderAt(StoreByte(m, x, v), a) != HeaderAt(m, a) <==> ChangesHeader(m, a, x, v)
  {
    var n := StoreByte(m, x, v);
    assert Byte(n, x) == v && forall y: nat :: InWindow(y, 1) && y != x ==> Byte(n, y) == Byte(m, y);
    OneByteOfWord(m, a, x, v);
    OneByteOfWord(m, a + 4, x, v);
    OneByteOfWord(m, a + 12, x, v);
  }

  /** A word changes exactly when one of its bytes does. */
  lemma OneByteOfWord(m: Bytes, a: nat, x: nat, v: u8)
    requires InWindow(a, 4) && InWindow(x, 1)
    ensures Load32(StoreByte(m, x, v), a) != Load32(m, a) <==> a <= x < a + 4 && v != Byte(m, x)
  {
    var n := StoreByte(m, x, v);
    assert Byte(n, x) == v && forall y: nat :: InWindow(y, 1) && y != x ==> Byte(n, y) == Byte(m, y);
  }

  /**
   * A store to a byte that the client of block i asked for leaves every header intact exactly when it
   * does not change the header behind the block.
   */
  lemma StoreSoundIff(m: Bytes, h: Heap, i: nat, offset: nat, v: u8)
    requires Sound(m, h) && i < |h.blocks| && offset < h.blocks[i].asked
    ensures var x := h.blocks[i].addr + META + offset;
      && InWindow(x, 1)
      && (Sound(StoreByte(m, x, v), h) <==>
            !(i + 1 < |h.blocks| && ChangesHeader(m, h.blocks[i + 1].addr, x, v)))
  {
    hide HeaderAt, ChangesHeader;
    var (long, x) := (LongOf(m, h), h.blocks[i].addr + META + offset);
    HeadersInside(h, long, i);
    ClientByteIff(h, long, i, offset);
    if ClientByte(h, x) {
      ClientStoreKeeps(m, h, long, x, v);
      IsSound(StoreByte(m, x, v), h, long);
      if i + 1 < |h.blocks| { OutsideHeader(m, h, i + 1, x, v); }
    } else {
      TailWrite(m, h, long, x, v);
      ChangesHeaderIff(m, h.blocks[long + 1].addr, x, v);
    }
  }

  lemma OutsideHeader(m: Bytes, h: Heap, j: nat, x: nat, v: u8)
    requires j < |h.blocks| && ClientByte(h, x) && InWindow(x, 1)
    ensures !ChangesHeader(m, h.blocks[j].addr, x, v)
  {
    assert !InHeader(h.blocks[j], x);
  }

  /** A write into the header behind the long block leaves the list alone unless that header changes. */
  lemma TailWrite(m: Bytes, h: Heap, long: nat, x: nat, v: u8)
    requires Shape(h, long) && Represents(m, h.blocks) && long + 1 < |h.blocks| && InWindow(x, 1)
    requires h.blocks[long].addr + h.blocks[long].size <= x < h.blocks[long].addr + META + h.blocks[long].size
    ensures InHeader(h.blocks[long + 1], x) && InWindow(h.blocks[long + 1].addr, META)
    ensures Sound(StoreByte(m, x, v), h) <==>
              HeaderAt(StoreByte(m, x, v), h.blocks[long + 1].addr) == HeaderAt(m, h.blocks[long + 1].addr)
  {
    hide HeaderAt;
    var p, a := StoreByte(m, x, v), h.blocks[long + 1].addr;
    HeadersInside(h, long, long + 1);
    assert a == Limit(h, long, long);
    assert Listed(m, h.blocks, long + 1);
    if HeaderAt(p, a) == HeaderAt(m, a) {
      forall j: nat | j < |h.blocks|
        ensures Listed(p, h.blocks, j)
      {
        assert Listed(m, h.blocks, j);
        if j != long + 1 { OtherHeaderKept(m, p, h, long, long + 1, META, j); }
        StaysListed(m, p, h.blocks, j, h.blocks, j);
      }
      IsSound(p, h, long);
    } else {
      assert !Listed(p, h.blocks, long + 1);
    }
  }

  /** kfree of any listed block finds its canary, so it does not panic. */
  lemma ReleaseFindsCanary(m: Bytes, h: Heap, i: nat)
    requires Sound(m, h) && i < |h.blocks|
    ensures InWindow(h.blocks[i].addr, META) && HeaderAt(m, h.blocks[i].addr).canary == CANARY
    ensures HEAP_START < h.blocks[i].addr + META < HEAP_END
  {
    hide HeaderAt;
    var long := LongOf(m, h);
    assert Listed(m, h.blocks, i);
    HeadersInside(h, long, i);
    if i < |h.blocks| - 1 { InOrder(h, long, i, |h.blocks| - 1); HeadersInside(h, long, |h.blocks| - 1); }
  }
}
