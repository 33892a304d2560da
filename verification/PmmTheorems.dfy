/** What the physical memory manager promises, stated without its loops. */
module PmmTheorems {
  import opened Machine
  import opened Arithmetic
  import opened Pmm

  /** Entry i is the last one of the map that touches block b. */
  ghost predicate LastToTouch(entries: seq<MemoryMapEntry>, i: nat, b: nat) {
    i < |entries| && b in EntrySpan(entries[i])
    && forall j :: i < j < |entries| ==> b !in EntrySpan(entries[j])
  }

  /** The last entry of the map that touches block b says the block is usable. */
  ghost predicate LastSaysUsable(entries: seq<MemoryMapEntry>, b: nat) {
    exists i: nat :: LastToTouch(entries, i, b) && entries[i].kind == E820_USABLE
  }

  lemma {:induction false} AfterMapExact(used: set<nat>, entries: seq<MemoryMapEntry>, b: nat)
    requires b in used
    ensures b !in AfterMap(used, entries) <==> b != 0 && LastSaysUsable(entries, b)
    decreases |entries|
  {
    if entries != [] {
      var n := |entries| - 1;
      AfterMapExact(used, entries[..n], b);
      if b in EntrySpan(entries[n]) {
        assert LastToTouch(entries, n, b);
      } else {
        assert forall i: nat :: LastToTouch(entries, i, b) <==> LastToTouch(entries[..n], i, b);
      }
    }
  }

  lemma {:induction false} AfterReservedExact(used: set<nat>, regions: seq<MemoryRegion>, b: nat)
    ensures b in AfterReserved(used, regions)
        <==> b in used || exists i :: 0 <= i < |regions| && b in Span(regions[i].start, regions[i].length)
    decreases |regions|
  {
    if regions != [] {
      var n := |regions| - 1;
      AfterReservedExact(used, regions[..n], b);
      assert forall i :: 0 <= i < n ==> regions[..n][i] == regions[i];
    }
  }

  /**
   * Whatever the bitmap memory held before, after initialisation a managed block is free exactly
   * when it is not block 0, no reserved region and no part of the bitmap touches it, and the last
   * map entry that touches it is usable.
   */
  lemma InitialisationExact(before: set<nat>, entries: seq<MemoryMapEntry>, addr: u32,
                            reserved: seq<MemoryRegion>, b: nat)
    requires b < TotalLength(entries) / PAGE_SIZE
    ensures b !in InitialUsed(before, entries, addr, reserved) <==>
              (b != 0 && LastSaysUsable(entries, b)
               && b !in Span(addr, TotalLength(entries) / PAGE_SIZE)
               && forall i :: 0 <= i < |reserved| ==> b !in Span(reserved[i].start, reserved[i].length))
  {
    var size := TotalLength(entries) / PAGE_SIZE;
    var filled := before + Interval(0, 8 * size);
    AfterMapExact(filled, entries, b);
    AfterReservedExact(AfterMap(filled, entries) + Span(addr, size), reserved, b);
  }

  lemma TotalOfOne(e: MemoryMapEntry)
    ensures TotalLength([e]) == e.length % 0x1_0000_0000
  {
    TotalIsSum([e]);
    assert Lengths([e]) == [e.length];
    SumOne(e.length);
  }

  lemma LengthsConcat(a: seq<MemoryMapEntry>, b: seq<MemoryMapEntry>)
    ensures Lengths(a + b) == Lengths(a) + Lengths(b)
  {
    assert |Lengths(a + b)| == |a| + |b|;
  }

  lemma TotalOfBoth(a: seq<MemoryMapEntry>, b: seq<MemoryMapEntry>)
    ensures TotalLength(a + b) == (TotalLength(a) + TotalLength(b)) % 0x1_0000_0000
  {
    hide *;
    TotalIsSum(a);
    TotalIsSum(b);
    TotalIsSum(a + b);
    LengthsConcat(a, b);
    SumConcat(Lengths(a), Lengths(b));
    WordSum(Sum(Lengths(a)), Sum(Lengths(b)));
  }

  /** Which entries the total counts: all, whatever their kind, each by its own length. */
  lemma TotalLaws(a: seq<MemoryMapEntry>, b: seq<MemoryMapEntry>, e: MemoryMapEntry)
    ensures TotalLength([]) == 0 && TotalLength([e]) == e.length % 0x1_0000_0000
    ensures TotalLength(a + b) == (TotalLength(a) + TotalLength(b)) % 0x1_0000_0000
    ensures Lengths(a) == Lengths(b) ==> TotalLength(a) == TotalLength(b)
  {
    assert TotalLength([]) == 0;
    hide TotalLength, Sum, Lengths;
    TotalOfOne(e);
    TotalOfBoth(a, b);
    TotalIsSum(a);
    TotalIsSum(b);
  }

  /** The map of an ordinary machine with 16 MB less a hole: reserved entries count like usable ones. */
  lemma OrdinaryTotal()
    ensures TotalLength([MemoryMapEntry(0, 0x9_FC00, 1), MemoryMapEntry(0x9_FC00, 0x400, 2),
                         MemoryMapEntry(0xF_0000, 0x1_0000, 2), MemoryMapEntry(0x10_0000, 0xF0_0000, 1)]) == 0xFB_0000
  {
    var entries := [MemoryMapEntry(0, 0x9_FC00, 1), MemoryMapEntry(0x9_FC00, 0x400, 2),
                    MemoryMapEntry(0xF_0000, 0x1_0000, 2), MemoryMapEntry(0x10_0000, 0xF0_0000, 1)];
    TotalIsSum(entries);
    var lengths := [0x9_FC00, 0x400, 0x1_0000, 0xF0_0000];
    assert Lengths(entries) == lengths;
    assert lengths[1..][1..][1..] == [0xF0_0000] && lengths[1..][1..][1..][1..] == [];
    assert Sum(lengths) == 0x9_FC00 + (0x400 + (0x1_0000 + (0xF0_0000 + 0)));
  }

  // ----- the free blocks by addresses -----

  /** Rounding a region of length bytes from base on, both cut to 32 bits, reaches block b. */
  predicate Reaches(base: nat, length: nat, b: nat) {
    base % 0x1_0000_0000 / 4096 <= b <= base % 0x1_0000_0000 / 4096 + length % 0x1_0000_0000 / 4096
  }

  /** The last entry that reaches block b is usable memory. */
  ghost predicate MapGives(entries: seq<MemoryMapEntry>, b: nat) {
    exists i: nat ::
      && i < |entries| && Reaches(entries[i].base, entries[i].length, b) && entries[i].kind == 1
      && forall j :: i < j < |entries| ==> !Reaches(entries[j].base, entries[j].length, b)
  }

  lemma MapGivesIff(entries: seq<MemoryMapEntry>, b: nat)
    ensures MapGives(entries, b) <==> LastSaysUsable(entries, b)
  {
    assert forall j :: 0 <= j < |entries| ==>
      (b in EntrySpan(entries[j]) <==> Reaches(entries[j].base, entries[j].length, b));
    if i: nat :| LastToTouch(entries, i, b) && entries[i].kind == E820_USABLE {
      assert Reaches(entries[i].base, entries[i].length, b);
    }
    if i: nat :| i < |entries| && Reaches(entries[i].base, entries[i].length, b) && entries[i].kind == 1
                 && forall j :: i < j < |entries| ==> !Reaches(entries[j].base, entries[j].length, b) {
      assert LastToTouch(entries, i, b);
    }
  }

  lemma SpanReaches(base: u32, length: u32, b: nat)
    ensures b in Span(base, length) <==> Reaches(base, length, b)
  {
  }

  /** No reserved region reaches block b. */
  predicate Unreserved(reserved: seq<MemoryRegion>, b: nat) {
    forall i :: 0 <= i < |reserved| ==> !Reaches(reserved[i].start, reserved[i].length, b)
  }

  lemma UnreservedIff(reserved: seq<MemoryRegion>, b: nat)
    ensures Unreserved(reserved, b)
       <==> forall i :: 0 <= i < |reserved| ==> b !in Span(reserved[i].start, reserved[i].length)
  {
    hide Span, Reaches;
    forall i | 0 <= i < |reserved|
      ensures b in Span(reserved[i].start, reserved[i].length)
         <==> Reaches(reserved[i].start, reserved[i].length, b)
    {
      SpanReaches(reserved[i].start, reserved[i].length, b);
    }
  }

  /** A block is given out exactly if it is managed, not block 0, and neither bitmap nor reserved regions reach it. */
  lemma FreeExact(before: set<nat>, entries: seq<MemoryMapEntry>, addr: u32, reserved: seq<MemoryRegion>, b: nat)
    ensures var size := Sum(Lengths(entries)) % 0x1_0000_0000 / 4096;
      b in Interval(0, size) - InitialUsed(before, entries, addr, reserved) <==>
        (0 < b < size && MapGives(entries, b) && !Reaches(addr, size, b) && Unreserved(reserved, b))
  {
    hide InitialUsed, TotalLength, Sum, Lengths, MapGives, LastSaysUsable, Span, Reaches, Unreserved;
    TotalIsSum(entries);
    MapGivesIff(entries, b);
    UnreservedIff(reserved, b);
    var size := TotalLength(entries) / PAGE_SIZE;
    SpanReaches(addr, size, b);
    if b < size {
      InitialisationExact(before, entries, addr, reserved, b);
    }
  }

  /** The region list of kernel/kernel.c keeps every block below 4 MB, and the one at 4 MB, in use. */
  lemma LowMemoryReserved(before: set<nat>, entries: seq<MemoryMapEntry>, addr: u32, b: nat)
    requires b <= 0x400
    ensures b in InitialUsed(before, entries, addr, [MemoryRegion(0, 0x40_0000)])
  {
    var size := TotalLength(entries) / PAGE_SIZE;
    var mapped := AfterMap(before + Interval(0, 8 * size), entries) + Span(addr, size);
    var list := [MemoryRegion(0, 0x40_0000)];
    assert b in Span(list[0].start, list[0].length);
    AfterReservedExact(mapped, list, b);
  }

  /** The rounding marks a block that is not wholly inside the region, for every region. */
  lemma SpanNeverInside(base: u32, size: u32)
    ensures exists b :: b in Span(base, size) && !(base <= b * PAGE_SIZE && (b + 1) * PAGE_SIZE <= base + size)
  {
    var last := base / PAGE_SIZE + size / PAGE_SIZE;
    assert last in Span(base, size);
    assert base / PAGE_SIZE in Span(base, size);
    assert base <= base / PAGE_SIZE * PAGE_SIZE ==> (last + 1) * PAGE_SIZE > base + size;
  }

  /** Marking a region reaches every byte of it exactly when its two remainders fit in one block. */
  lemma SpanCoversIff(base: u32, size: u32)
    ensures (forall a :: base <= a < base + size ==> a / PAGE_SIZE in Span(base, size))
        <==> base % PAGE_SIZE + size % PAGE_SIZE <= PAGE_SIZE
  {
    if base % PAGE_SIZE + size % PAGE_SIZE <= PAGE_SIZE {
      forall a | base <= a < base + size
        ensures a / PAGE_SIZE in Span(base, size)
      {
        assert a / PAGE_SIZE <= base / PAGE_SIZE + size / PAGE_SIZE;
      }
    } else {
      var a := base + size - 1;
      assert a / PAGE_SIZE !in Span(base, size);
    }
  }

  // ----- allocation -----

  /** Taking the lowest free block leaves one block fewer, and giving it back undoes the call. */
  lemma AllocThenFree(all: set<nat>, used: set<nat>)
    requires all - used != {}
    ensures var m := Min(all - used);
            |all - (used + {m})| == |all - used| - 1 && used + {m} - {m} == used
  {
    var m := Min(all - used);
    assert all - (used + {m}) == (all - used) - {m};
  }

  /** Used plus available bytes is the whole managed memory. */
  lemma MemoryConserved(n: nat, used: set<nat>)
    ensures |Interval(0, n) * used| * PAGE_SIZE + |Interval(0, n) - used| * PAGE_SIZE == n * PAGE_SIZE
  {
    SplitSize(n, used);
  }

  /** A run exists exactly when the search finds one, and then it finds the lowest. */
  lemma {:induction false} FirstRunExists(free: set<nat>, s: nat, n: nat)
    requires FreeRun(free, s, n)
    ensures FirstRun(free, n).Some? && IsFirstRun(free, FirstRun(free, n).value, n)
    ensures FirstRun(free, n).value <= s
    decreases s
  {
    if t: nat :| t < s && FreeRun(free, t, n) {
      FirstRunExists(free, t, n);
    } else {
      FirstRunIs(free, s, n);
    }
  }

  /** A granted run was wholly free, holds the request, and freeing it restores the bitmap. */
  lemma AllocBlocksSound(all: set<nat>, used: set<nat>, bytes: u32, start: u32)
    requires 0 in used
    requires AllocBlocksResult(all - used, bytes) == Some(start / PAGE_SIZE) && start % PAGE_SIZE == 0
    ensures Span(start, bytes) <= all - used
    ensures |Span(start, bytes)| * PAGE_SIZE > bytes
    ensures used + Span(start, bytes) - Span(start, bytes) + {0} == used
  {
    var free := all - used;
    var s := start / PAGE_SIZE;
    var n := NumBlocks(bytes);
    assert IsFirstRun(free, s, n) by {
      var t: nat :| IsFirstRun(free, t, n);
      FirstRunIs(free, t, n);
    }
    RunSize(s, n);
    assert used + Span(start, bytes) - Span(start, bytes) == used;
  }

  lemma {:induction false} RunSize(s: nat, n: nat)
    ensures |Interval(s, s + n)| == n
  {
    if n == 0 {
      assert Interval(s, s) == {};
    } else {
      RunSize(s, n - 1);
      assert Interval(s, s + n) == Interval(s, s + n - 1) + {s + n - 1};
    }
  }

  /**
   * alloc_blocks succeeds exactly when a long enough run exists and the number of free blocks is
   * at least the number of bytes asked for; so it never grants a megabyte.
   */
  lemma AllocBlocksExact(free: set<nat>, bytes: u32)
    ensures AllocBlocksResult(free, bytes).Some?
        <==> (exists s: nat :: FreeRun(free, s, NumBlocks(bytes))) && bytes <= |free|
    ensures free <= Interval(0, 0xf_ffff) && bytes >= 0x10_0000 ==> AllocBlocksResult(free, bytes) == None
  {
    if s: nat :| FreeRun(free, s, NumBlocks(bytes)) {
      FirstRunExists(free, s, NumBlocks(bytes));
    }
    if free <= Interval(0, 0xf_ffff) {
      IntervalSize(0xf_ffff);
      SubsetSize(free, Interval(0, 0xf_ffff));
    }
  }

  lemma {:induction false} SubsetSize(a: set<nat>, b: set<nat>)
    requires a <= b
    ensures |a| <= |b|
  {
    assert b == a + (b - a);
  }

  /** Two free blocks in a row hold 4096 bytes, and the request for them is refused. */
  lemma AllocBlocksRefusesARun()
    ensures var free: set<nat> := {5, 6};
            FreeRun(free, 5, NumBlocks(4096)) && AllocBlocksResult(free, 4096) == None
  {
  }
}
