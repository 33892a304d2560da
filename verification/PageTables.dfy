/**
 * Two-level 32-bit page tables as values: entries, the walk the processor does, and what one call
 * of map_address or unmap_address (kernel/paging.c) makes of them.
 */
module PageTables {
  import opened Machine
  import opened Bits

  const ENTRIES := 1024
  const FRAMES := 0x10_0000

  /** The directory entry that maps the directory itself. */
  const SELF := 1023

  const PRESENT: u32 := 1
  const READ_WRITE: u32 := 2

  /** The flag bits of an entry lie below the twelve-bit page offset. */
  type PageFlags = f: u32 | f < 4096

  type Page = p: seq<u32> | |p| == ENTRIES witness seq(1024, i => 0)
  type Ram = r: seq<Page> | |r| == FRAMES witness seq<Page>(0x10_0000, i => Zeros())

  function Zeros(): (p: Page)
    ensures forall j :: 0 <= j < ENTRIES ==> p[j] == 0
  {
    seq(ENTRIES, j => 0)
  }

  // ----- entries (the macros of kernel/paging.h:12-17) -----

  /** TEST_FLAG(entry, PRESENT) */
  predicate Present(e: u32) {
    e % 2 == 1
  }

  /** The bit that lets the processor write through an entry (section 4.3 of the Intel manual, volume 3A). */
  predicate Writable(e: u32) {
    e / 2 % 2 == 1
  }

  /** GET_ADDR, as a frame number */
  function Frame(e: u32): (f: nat)
    ensures f < FRAMES
  {
    e / PAGE_SIZE
  }

  /** SET_ADDR: the address bits of a over the flag bits of e */
  function SetAddr(e: u32, a: u32): u32 {
    a / PAGE_SIZE * PAGE_SIZE + e % PAGE_SIZE
  }

  /** SET_FLAG */
  function SetFlag(e: u32, flags: u32): u32 {
    Or32(e, flags);
    Or(e, flags)
  }

  /** SET_ADDR then SET_FLAG on an entry. */
  function MakeEntry(e: u32, a: u32, flags: u32): u32 {
    SetFlag(SetAddr(e, a), flags)
  }

  lemma OrParity(a: nat, b: nat)
    ensures Or(a, b) % 2 == 1 <==> a % 2 == 1 || b % 2 == 1
  {
  }

  /** The entry map_address writes holds the frame of the address, and is present if a flag says so. */
  lemma EntryFields(e: u32, a: u32, flags: PageFlags)
    ensures Frame(MakeEntry(e, a, flags)) == a / PAGE_SIZE
    ensures Present(MakeEntry(e, a, flags)) <==> Present(e) || flags % 2 == 1
    ensures e == 0 ==> MakeEntry(e, a, flags) == a / PAGE_SIZE * PAGE_SIZE + flags
  {
    hide Or;
    OrLow12(a / PAGE_SIZE, e % PAGE_SIZE, flags);
    OrParity(SetAddr(e, a), flags);
    OrZero(flags);
    LowBit(a / PAGE_SIZE, e % PAGE_SIZE);
    LowBit(e / PAGE_SIZE, e % PAGE_SIZE);
  }

  lemma EntryParts(frame: nat, flags: PageFlags)
    requires frame < FRAMES
    ensures Frame(frame * PAGE_SIZE + flags) == frame
    ensures Present(frame * PAGE_SIZE + flags) <==> flags % 2 == 1
  {
  }

  /** An entry made from zero: the frame with the flags below it. */
  lemma FreshEntry(frame: nat, flags: PageFlags)
    requires frame < FRAMES && flags % 2 == 1
    ensures var e := MakeEntry(0, frame * PAGE_SIZE, flags);
            e == frame * PAGE_SIZE + flags && Present(e) && Frame(e) == frame
  {
    EntryFields(0, frame * PAGE_SIZE, flags);
  }

  lemma OddFits(flags: u32)
    ensures flags + 1 - flags % 2 < 0x1_0000_0000 && (flags + 1 - flags % 2) % 2 == 1
    ensures flags < 4096 ==> flags + 1 - flags % 2 < 4096
  {
    hide *;
    assert flags == 2 * (flags / 2) + flags % 2;
  }

  /** PRESENT | flags */
  function WithPresent(flags: u32): (f: u32)
    ensures f == flags + 1 - flags % 2
    ensures f % 2 == 1 && (flags < 4096 ==> f < 4096)
  {
    OrOne(flags);
    OddFits(flags);
    Or(1, flags)
  }

  lemma OrOne(x: nat)
    ensures Or(1, x) == x + 1 - x % 2
  {
    OrZero(x / 2);
  }

  /** The entry holds the address it was made for, whatever that is, exactly when the flags are flag bits only. */
  lemma FlagsKeepAddressIff(flags: u32)
    ensures (forall a: u32 :: Frame(MakeEntry(0, a, flags)) == a / PAGE_SIZE) <==> flags < 4096
  {
    hide Or;
    if flags < 4096 {
      forall a: u32
        ensures Frame(MakeEntry(0, a, flags)) == a / PAGE_SIZE
      {
        EntryFields(0, a, flags);
      }
    } else {
      OrZero(flags);
      assert Frame(MakeEntry(0, 0, flags)) != 0 / PAGE_SIZE;
    }
  }

  /** The entry for frame p names frame p, in spite of flags above the flag bits. */
  predicate KeepsFrame(p: nat, flags: u32)
    requires p < FRAMES
  {
    Frame(MakeEntry(0, p * PAGE_SIZE, WithPresent(flags))) == p
  }

  /** Then those flags make no difference at all. */
  lemma KeptFrameFlags(p: nat, flags: u32)
    requires p < FRAMES
    ensures flags < 4096 ==> KeepsFrame(p, flags)
    ensures KeepsFrame(p, flags) ==>
              MakeEntry(0, p * PAGE_SIZE, WithPresent(flags)) == MakeEntry(0, p * PAGE_SIZE, WithPresent(flags % 4096))
  {
    hide Or;
    EntryHalves(p, flags);
    EntryHalves(p, flags % 4096);
    OrZero(p);
  }

  /** The address bits of such an entry are those of the frame and of the flags, the rest are flags. */
  lemma EntryHalves(p: nat, flags: u32)
    requires p < FRAMES
    ensures MakeEntry(0, p * PAGE_SIZE, WithPresent(flags))
         == Or(p, flags / 4096) * 4096 + Or(0, Or(1, flags % 4096))
    ensures Or(0, Or(1, flags % 4096)) < 4096
  {
    hide Or;
    OrTwelve(0, 1, flags / 4096, flags % 4096);
    OrLow12(0, 1, flags % 4096);
    OrLow12(0, 0, Or(1, flags % 4096));
    OrZero(flags / 4096);
    OrTwelve(p, 0, flags / 4096, Or(1, flags % 4096));
  }

  lemma OrTwelve(a: nat, x: nat, b: nat, y: nat)
    requires x < 4096 && y < 4096
    ensures Or(a * 4096 + x, b * 4096 + y) == Or(a, b) * 4096 + Or(x, y)
  {
    hide Or, Shl;
    assert Pow2(12) == 4096;
    ShlIsProduct(a, 12);
    ShlIsProduct(b, 12);
    ShlIsProduct(Or(a, b), 12);
    OrSplit(a, x, b, y, 12);
  }

  /** With any flags at all, the entry is present if a flag says so. */
  lemma EntryPresent(e: u32, a: u32, flags: u32)
    ensures Present(MakeEntry(e, a, flags)) <==> Present(e) || flags % 2 == 1
  {
    hide Or, SetAddr;
    SetAddrParity(e, a);
    OrParity(SetAddr(e, a), flags);
  }

  lemma SetAddrParity(e: u32, a: u32)
    ensures Present(SetAddr(e, a)) <==> Present(e)
  {
    hide Or;
    LowBit(a / PAGE_SIZE, e % PAGE_SIZE);
    LowBit(e / PAGE_SIZE, e % PAGE_SIZE);
  }

  lemma LowBit(high: nat, low: nat)
    ensures (high * 4096 + low) % 2 == low % 2
  {
    hide *;
    assert high * 4096 + low == 2 * (high * 2048) + low;
  }

  // ----- virtual addresses -----

  function PdIndex(va: u32): (i: nat)
    ensures i < ENTRIES
  {
    va / 0x40_0000 % ENTRIES
  }

  function PtIndex(va: u32): (j: nat)
    ensures j < ENTRIES
  {
    va / PAGE_SIZE % ENTRIES
  }

  /** Both indices are digits of the page number. */
  lemma PageNumber(va: u32)
    ensures PdIndex(va) == va / PAGE_SIZE / ENTRIES && PtIndex(va) == va / PAGE_SIZE % ENTRIES
  {
    hide Or;
  }

  /** The virtual address of word j of table i in the self-map window. */
  function WindowAddress(i: nat, j: nat): u32
    requires i < ENTRIES && j < ENTRIES
  {
    0xFFC0_0000 + i * PAGE_SIZE + j * 4
  }

  /** Stepping by pages from a 4 MB boundary numbers the entries of one table. */
  lemma AlignedIndex(base: u32, i: nat)
    requires base % 0x40_0000 == 0 && base + 0x40_0000 <= WORD && i < ENTRIES
    ensures PtIndex(base + i * PAGE_SIZE) == i && PdIndex(base + i * PAGE_SIZE) == base / 0x40_0000
  {
  }

  /** The two-level walk: the physical address behind va, if every level is present. */
  function Walk(ram: Ram, dir: nat, va: u32): (r: Option<u32>)
    requires dir < FRAMES
  {
    var pde := ram[dir][PdIndex(va)];
    if !Present(pde) then None
    else
      var pte := ram[Frame(pde)][PtIndex(va)];
      if !Present(pte) then None else Some(Frame(pte) * PAGE_SIZE + va % PAGE_SIZE)
  }

  /** The walk finds an entry at both levels, and both let the processor write. */
  predicate Writes(ram: Ram, dir: nat, va: u32)
    requires dir < FRAMES
  {
    var pde := ram[dir][PdIndex(va)];
    Present(pde) && Writable(pde) && var pte := ram[Frame(pde)][PtIndex(va)]; Present(pte) && Writable(pte)
  }

  function Poke(ram: Ram, frame: nat, word: nat, v: u32): Ram
    requires frame < FRAMES && word < ENTRIES
  {
    ram[frame := ram[frame][word := v]]
  }

  lemma WindowIndices(i: nat, j: nat)
    requires i < ENTRIES && j < ENTRIES
    ensures PdIndex(WindowAddress(i, j)) == SELF && PtIndex(WindowAddress(i, j)) == i
    ensures WindowAddress(i, j) % PAGE_SIZE == j * 4
  {
  }

  /** With the self-map in place, word j of the window page i is word j of table i itself. */
  lemma WindowWalk(ram: Ram, dir: nat, i: nat, j: nat)
    requires dir < FRAMES && i < ENTRIES && j < ENTRIES
    requires Present(ram[dir][SELF]) && Frame(ram[dir][SELF]) == dir
    requires Present(ram[dir][i])
    ensures Walk(ram, dir, WindowAddress(i, j)) == Some(Frame(ram[dir][i]) * PAGE_SIZE + j * 4)
    ensures WindowAddress(i, j) % 4 == 0
  {
    WindowIndices(i, j);
  }

  /** A physical address is a frame and a word in it. */
  lemma SplitAddress(frame: nat, word: nat)
    requires frame < FRAMES && word < ENTRIES
    ensures (frame * PAGE_SIZE + word * 4) / PAGE_SIZE == frame
    ensures (frame * PAGE_SIZE + word * 4) % PAGE_SIZE / 4 == word
  {
  }

  /** The virtual address of word j of page (i, p). */
  function WordAddress(i: nat, p: nat, j: nat): u32
    requires i < ENTRIES && p < ENTRIES && j < ENTRIES
  {
    i * 0x40_0000 + p * PAGE_SIZE + j * 4
  }

  lemma WordIndices(i: nat, p: nat, j: nat)
    requires i < ENTRIES && p < ENTRIES && j < ENTRIES
    ensures PdIndex(WordAddress(i, p, j)) == i && PtIndex(WordAddress(i, p, j)) == p
    ensures WordAddress(i, p, j) % PAGE_SIZE == j * 4
  {
    var va := WordAddress(i, p, j);
    assert va / PAGE_SIZE == i * ENTRIES + p;
    assert va / 0x40_0000 == i;
  }

  lemma WordWalk(ram: Ram, dir: nat, i: nat, p: nat, j: nat)
    requires dir < FRAMES && i < ENTRIES && p < ENTRIES && j < ENTRIES
    requires Present(ram[dir][i]) && Present(ram[Frame(ram[dir][i])][p])
    ensures WordAddress(i, p, j) % 4 == 0
    ensures Walk(ram, dir, WordAddress(i, p, j)) == Some(Frame(ram[Frame(ram[dir][i])][p]) * PAGE_SIZE + j * 4)
  {
    WordIndices(i, p, j);
  }
}
