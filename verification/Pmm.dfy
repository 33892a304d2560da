/**
 * The physical memory manager (kernel/pmm.c): a bitmap with one bit per 4096-byte block, set when
 * the block is in use.
 */
module Pmm {
  import opened Machine
  import opened Bitmap
  import opened Arithmetic

  const E820_USABLE := 1

  datatype MemoryMapEntry = MemoryMapEntry(base: u64, length: u64, kind: u32)
  datatype MemoryRegion = MemoryRegion(start: u32, length: u32)

  // ----- what the source computes, on sets of blocks -----

  /** calculate_num_blocks: one more than the quotient, also for exact multiples. */
  function NumBlocks(size: u32): nat {
    size / PAGE_SIZE + 1
  }

  /** The blocks that marking a region touches. */
  ghost function Span(base: u32, size: u32): set<nat> {
    Interval(base / PAGE_SIZE, base / PAGE_SIZE + NumBlocks(size))
  }

  function TotalLength(entries: seq<MemoryMapEntry>): u32 {
    if entries == [] then 0
    else Wrap(TotalLength(entries[..|entries| - 1]) + entries[|entries| - 1].length)
  }

  /** The lengths of all entries, usable or not. */
  function Lengths(entries: seq<MemoryMapEntry>): (lengths: seq<nat>)
    ensures |lengths| == |entries| && forall i :: 0 <= i < |entries| ==> lengths[i] == entries[i].length
  {
    seq(|entries|, i requires 0 <= i < |entries| => entries[i].length)
  }

  /** The total is their sum, in 32 bits. */
  lemma {:induction false} TotalIsSum(entries: seq<MemoryMapEntry>)
    ensures TotalLength(entries) == Sum(Lengths(entries)) % 0x1_0000_0000
    decreases |entries|
  {
    if entries == [] {
      assert Lengths(entries) == [];
    } else {
      var n := |entries| - 1;
      TotalIsSum(entries[..n]);
      assert Lengths(entries) == Lengths(entries[..n]) + [entries[n].length];
      SumConcat(Lengths(entries[..n]), [entries[n].length]);
      SumOne(entries[n].length);
      hide Sum, Lengths;
      WordSum(Sum(Lengths(entries[..n])), entries[n].length);
    }
  }

  ghost function EntrySpan(e: MemoryMapEntry): set<nat> {
    Span(Wrap(e.base), Wrap(e.length))
  }

  /** The used blocks after the memory map has been gone through, in order. */
  ghost function AfterMap(used: set<nat>, entries: seq<MemoryMapEntry>): set<nat> {
    if entries == [] then used
    else
      var before := AfterMap(used, entries[..|entries| - 1]);
      var e := entries[|entries| - 1];
      if e.kind == E820_USABLE then before - EntrySpan(e) + {0} else before + EntrySpan(e)
  }

  ghost function AfterReserved(used: set<nat>, regions: seq<MemoryRegion>): set<nat> {
    if regions == [] then used
    else
      var r := regions[|regions| - 1];
      AfterReserved(used, regions[..|regions| - 1]) + Span(r.start, r.length)
  }

  /** The used blocks that initialisation leaves, from the blocks whose bits were set before. */
  ghost function InitialUsed(before: set<nat>, entries: seq<MemoryMapEntry>, addr: u32,
                             reserved: seq<MemoryRegion>): set<nat> {
    var size := TotalLength(entries) / PAGE_SIZE;
    AfterReserved(AfterMap(before + Interval(0, 8 * size), entries) + Span(addr, size), reserved)
  }

  // ----- first fit -----

  ghost predicate FreeRun(free: set<nat>, start: nat, n: nat) {
    forall b :: start <= b < start + n ==> b in free
  }

  /** start is the lowest block that begins n free blocks in a row. */
  ghost predicate IsFirstRun(free: set<nat>, start: nat, n: nat) {
    FreeRun(free, start, n) && forall s: nat :: s < start ==> !FreeRun(free, s, n)
  }

  ghost function FirstRun(free: set<nat>, n: nat): Option<nat> {
    if exists s: nat :: IsFirstRun(free, s, n) then
      var s: nat :| IsFirstRun(free, s, n);
      Some(s)
    else None
  }

  lemma FirstRunIs(free: set<nat>, start: nat, n: nat)
    requires IsFirstRun(free, start, n)
    ensures FirstRun(free, n) == Some(start)
  {
  }

  /** What alloc_blocks returns, by the guard and the search. */
  ghost function AllocBlocksResult(free: set<nat>, bytes: u32): Option<nat> {
    if |free| < bytes then None else FirstRun(free, NumBlocks(bytes))
  }

  class FrameAllocator {
    /** The megabyte at the bitmap address; 2^18 words hold every block number marking can reach. */
    const words: array<u32>
    /** g_bitmap_size: how many blocks are managed. */
    var size: nat
    var addr: u32

    constructor (memory: array<u32>)
      requires memory.Length == 0x4_0000
      ensures words == memory && Valid() && size == 0
    {
      words := memory;
      size := 0;
      addr := 0;
    }

    ghost predicate Valid()
      reads this
    {
      words.Length == 0x4_0000 && size < 0x10_0000
    }

    ghost function Used(): set<nat>
      reads words
    {
      UsedSet(words[..])
    }

    ghost function Free(): set<nat>
      reads this, words
    {
      Interval(0, size) - Used()
    }

    method MarkBlockFree(block: nat)
      requires Valid() && block < 0x80_0000
      modifies words
      ensures Used() == old(Used()) - {block}
    {
      ClearBlock(words[..], block);
      words[block / 32] := ClearBit(words[block / 32], block % 32);
      assert words[..] == old(words[..])[block / 32 := words[block / 32]];
    }

    method MarkBlockUsed(block: nat)
      requires Valid() && block < 0x80_0000
      modifies words
      ensures Used() == old(Used()) + {block}
    {
      SetBlock(words[..], block);
      words[block / 32] := SetBit(words[block / 32], block % 32);
      assert words[..] == old(words[..])[block / 32 := words[block / 32]];
    }

    method IsBlockUsed(block: nat) returns (used: bool)
      requires Valid() && block < 0x80_0000
      ensures used <==> block in Used()
    {
      used := TestBit(words[block / 32], block % 32);
    }

    method MarkRegionFree(base: u32, size: u32)
      requires Valid()
      modifies words
      ensures Used() == old(Used()) - Span(base, size) + {0}
    {
      var align := base / PAGE_SIZE;
      var blocks := NumBlocks(size);
      while blocks > 0
        invariant blocks >= 0 && align + blocks == base / PAGE_SIZE + NumBlocks(size)
        invariant base / PAGE_SIZE <= align
        invariant Used() == old(Used()) - Interval(base / PAGE_SIZE, align)
      {
        MarkBlockFree(align);
        align, blocks := align + 1, blocks - 1;
      }
      MarkBlockUsed(0);
    }

    method MarkRegionUsed(base: u32, size: u32)
      requires Valid()
      modifies words
      ensures Used() == old(Used()) + Span(base, size)
    {
      var align := base / PAGE_SIZE;
      var blocks := NumBlocks(size);
      while blocks > 0
        invariant blocks >= 0 && align + blocks == base / PAGE_SIZE + NumBlocks(size)
        invariant base / PAGE_SIZE <= align
        invariant Used() == old(Used()) + Interval(base / PAGE_SIZE, align)
      {
        MarkBlockUsed(align);
        align, blocks := align + 1, blocks - 1;
      }
    }

    /** memset(bitmap, 0xff, n): n bytes, so eight times n blocks. */
    method FillBytes(n: nat)
      requires Valid() && n <= 0x10_0000
      modifies words
      ensures Used() == old(Used()) + Interval(0, 8 * n)
    {
      var i := 0;
      while i < n
        invariant i <= n
        invariant Used() == old(Used()) + Interval(0, 8 * i)
      {
        ghost var before := words[..];
        FillByte(words[..], i);
        words[i / 4] := FillLane(words[i / 4], i % 4);
        assert words[..] == before[i / 4 := words[i / 4]];
        i := i + 1;
      }
    }

    method GetNumFreeBlocks() returns (count: nat)
      requires Valid()
      ensures count == |Free()|
    {
      count := 0;
      for i := 0 to size
        invariant count == |Interval(0, i) - Used()|
      {
        var used := IsBlockUsed(i);
        OneMore(i, Used());
        if !used {
          count := count + 1;
        }
      }
    }

    method Initialize(entries: seq<MemoryMapEntry>, bitmapAddr: u32, reserved: seq<MemoryRegion>)
      requires Valid()
      modifies this, words
      ensures Valid() && size == TotalLength(entries) / PAGE_SIZE && addr == bitmapAddr
      ensures size == Sum(Lengths(entries)) % 0x1_0000_0000 / 4096
      ensures Used() == InitialUsed(old(Used()), entries, bitmapAddr, reserved)
    {
      size := CalculateBitmapSize(entries);
      addr := bitmapAddr;
      FillBytes(size);
      MarkMap(entries);
      MarkRegionUsed(bitmapAddr, size);
      MarkReserved(reserved);
    }

    method MarkMap(entries: seq<MemoryMapEntry>)
      requires Valid()
      modifies words
      ensures Used() == AfterMap(old(Used()), entries)
    {
      for i := 0 to |entries|
        invariant Used() == AfterMap(old(Used()), entries[..i])
      {
        assert entries[..i + 1][..i] == entries[..i];
        var e := entries[i];
        if e.kind == E820_USABLE {
          MarkRegionFree(Wrap(e.base), Wrap(e.length));
        } else {
          MarkRegionUsed(Wrap(e.base), Wrap(e.length));
        }
      }
      assert entries[..|entries|] == entries;
    }

    method MarkReserved(reserved: seq<MemoryRegion>)
      requires Valid()
      modifies words
      ensures Used() == AfterReserved(old(Used()), reserved)
    {
      for i := 0 to |reserved|
        invariant Used() == AfterReserved(old(Used()), reserved[..i])
      {
        assert reserved[..i + 1][..i] == reserved[..i];
        MarkRegionUsed(reserved[i].start, reserved[i].length);
      }
      assert reserved[..|reserved|] == reserved;
    }

    static method CalculateBitmapSize(entries: seq<MemoryMapEntry>) returns (blocks: nat)
      ensures blocks == TotalLength(entries) / PAGE_SIZE < 0x10_0000
      ensures blocks == Sum(Lengths(entries)) % 0x1_0000_0000 / 4096
    {
      TotalIsSum(entries);
      var total: u32 := 0;
      for i := 0 to |entries|
        invariant total == TotalLength(entries[..i])
      {
        assert entries[..i + 1][..i] == entries[..i];
        total := Wrap(total + entries[i].length);
      }
      assert entries[..|entries|] == entries;
      blocks := total / PAGE_SIZE;
    }

    lemma FreeIs(b: nat)
      ensures b in Free() <==> b < size && b !in Used()
    {
    }

    /** The lowest free block, or -1. */
    method FindFirstFreeBlock() returns (block: int)
      requires Valid()
      ensures if Free() == {} then block == -1 else block >= 0 && IsMin(Free(), block)
    {
      for i := 0 to size
        invariant Free() !! Interval(0, i)
      {
        var used := IsBlockUsed(i);
        if !used {
          assert i in Free();
          return i;
        }
      }
      return -1;
    }

    method FindFirstFreeSequence(n: nat) returns (start: int)
      requires Valid() && n > 0
      ensures start == match FirstRun(Free(), n) { case None => -1 case Some(s) => s }
      ensures start != -1 ==> 0 <= start && start + n <= size
    {
      hide FrameAllocator.Free, FrameAllocator.Used;
      var consecutive := 0;
      for i := 0 to size
        invariant consecutive <= i && consecutive < n
        invariant FreeRun(Free(), i - consecutive, consecutive)
        invariant consecutive < i ==> i - consecutive - 1 !in Free()
        invariant forall s: nat :: s + n <= i ==> !FreeRun(Free(), s, n)
      {
        var used := IsBlockUsed(i);
        FreeIs(i);
        if !used {
          consecutive := consecutive + 1;
          if consecutive == n {
            start := i - n + 1;
            assert FreeRun(Free(), start, n);
            FirstRunIs(Free(), start, n);
            return;
          }
          forall s: nat | s + n <= i + 1
            ensures !FreeRun(Free(), s, n)
          {
            if s + n == i + 1 { assert i - consecutive !in Free(); }
          }
        } else {
          consecutive := 0;
          forall s: nat | s + n <= i + 1
            ensures !FreeRun(Free(), s, n)
          {
            if s + n == i + 1 { assert i !in Free(); }
          }
        }
      }
      start := -1;
      forall s: nat
        ensures !FreeRun(Free(), s, n)
      {
        FreeIs(s + n - 1);
        if s + n > size { assert s + n - 1 !in Free(); }
      }
    }

    /** First fit on single blocks; 0 is the null pointer. */
    method AllocBlock() returns (address: u32)
      requires Valid()
      modifies words
      ensures if old(Free()) == {} then address == 0 && Used() == old(Used())
              else address == Min(old(Free())) * PAGE_SIZE && Used() == old(Used()) + {Min(old(Free()))}
                   && Free() == old(Free()) - {Min(old(Free()))}
    {
      var block := FindFirstFreeBlock();
      if block == -1 {
        return 0;
      }
      MarkBlockUsed(block);
      address := block * PAGE_SIZE;
    }

    method FreeBlock(address: u32)
      requires Valid()
      modifies words
      ensures Used() == old(Used()) - {address / PAGE_SIZE}
      ensures Free() == old(Free()) + ({address / PAGE_SIZE} * Interval(0, size))
    {
      MarkBlockFree(address / PAGE_SIZE);
    }

    /** First fit on runs. The guard compares a number of free blocks with a number of bytes. */
    method AllocBlocks(bytes: u32) returns (address: u32)
      requires Valid()
      modifies words
      ensures match AllocBlocksResult(old(Free()), bytes)
              case None => address == 0 && Used() == old(Used())
              case Some(start) => address == start * PAGE_SIZE && Used() == old(Used()) + Span(address, bytes)
    {
      var available := GetNumFreeBlocks();
      if available < bytes {
        return 0;
      }
      var blocks := NumBlocks(bytes);
      var start := FindFirstFreeSequence(blocks);
      if start == -1 {
        return 0;
      }
      address := start * PAGE_SIZE;
      MarkRegionUsed(address, bytes);
    }

    method FreeBlocks(address: u32, bytes: u32)
      requires Valid()
      modifies words
      ensures Used() == old(Used()) - Span(address, bytes) + {0}
    {
      MarkRegionFree(address, bytes);
    }

    method GetUsedPhysicalMemory() returns (bytes: u32)
      requires Valid()
      ensures bytes == |Interval(0, size) * Used()| * PAGE_SIZE
    {
      var free := GetNumFreeBlocks();
      SplitSize(size, Used());
      bytes := (size - free) * PAGE_SIZE;
    }

    method GetAvailablePhysicalMemory() returns (bytes: u32)
      requires Valid()
      ensures bytes == |Free()| * PAGE_SIZE
    {
      var free := GetNumFreeBlocks();
      SplitSize(size, Used());
      bytes := free * PAGE_SIZE;
    }
  }

  lemma OneMore(i: nat, used: set<nat>)
    ensures |Interval(0, i + 1) - used| == |Interval(0, i) - used| + (if i in used then 0 else 1)
  {
    if i in used {
      assert Interval(0, i + 1) - used == Interval(0, i) - used;
    } else {
      assert Interval(0, i + 1) - used == (Interval(0, i) - used) + {i};
    }
  }

  lemma {:induction false} IntervalSize(n: nat)
    ensures |Interval(0, n)| == n
  {
    if n == 0 {
      assert Interval(0, 0) == {};
    } else {
      IntervalSize(n - 1);
      OneMore(n - 1, {});
      assert Interval(0, n) - {} == Interval(0, n);
      assert Interval(0, n - 1) - {} == Interval(0, n - 1);
    }
  }

  /** Every managed block is counted once, as free or as used. */
  lemma SplitSize(n: nat, used: set<nat>)
    ensures |Interval(0, n) - used| + |Interval(0, n) * used| == n
  {
    IntervalSize(n);
    assert Interval(0, n) == (Interval(0, n) - used) + (Interval(0, n) * used);
  }
}
