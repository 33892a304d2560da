/** Paging as the boot loader sets it up (boot/stage2/paging.c): the tables are written by address. */
module BootPaging {
  import opened Machine
  import opened PageTables
  import opened Ownership
  import opened Layout

  const PAGING_DIRECTORY := 0x64
  const IDENTITY_MAP_TABLE := 0x60
  const KERNEL_MAP_TABLE := 0x62

  /** One of the two loops: entry j of the table maps frame first + j, and nothing else is written. */
  method FillTable(before: Ram, table: nat, first: nat, virtualBase: u32) returns (ram: Ram)
    requires table < FRAMES && first + ENTRIES <= FRAMES
    requires virtualBase % 0x40_0000 == 0 && virtualBase + 0x40_0000 <= WORD
    ensures IsFilled(ram, table, first, PRESENT)
    ensures ram == before[table := ram[table]]
  {
    hide MakeEntry, PtIndex;
    ram := before;
    var physical: int, virtual: int := first * PAGE_SIZE, virtualBase;
    for i := 0 to ENTRIES
      invariant physical == (first + i) * PAGE_SIZE && virtual == virtualBase + i * PAGE_SIZE
      invariant forall j :: 0 <= j < i ==> ram[table][j] == (first + j) * PAGE_SIZE + PRESENT
      invariant ram == before[table := ram[table]]
    {
      FreshEntry(first + i, 1);
      AlignedIndex(virtualBase, i);
      ram := Poke(ram, table, PtIndex(virtual), MakeEntry(0, physical, PRESENT));
      physical, virtual := physical + PAGE_SIZE, virtual + PAGE_SIZE;
    }
  }

  /** The kernel table is never zeroed; its loop writes every entry, so that does not matter. */
  method InitializePaging(before: Ram) returns (ram: Ram)
    ensures IsLayout(ram, PAGING_DIRECTORY, IDENTITY_MAP_TABLE, KERNEL_MAP_TABLE, 3, PRESENT)
    ensures forall f :: 0 <= f < FRAMES && f !in {PAGING_DIRECTORY, IDENTITY_MAP_TABLE, KERNEL_MAP_TABLE} ==>
              ram[f] == before[f]
  {
    ram := before[PAGING_DIRECTORY := Zeros()][IDENTITY_MAP_TABLE := Zeros()];
    ram := FillTable(ram, IDENTITY_MAP_TABLE, 0, 0);
    ram := FillTable(ram, KERNEL_MAP_TABLE, KERNEL_FRAME, 0xC000_0000);
    FreshEntry(IDENTITY_MAP_TABLE, 3);
    FreshEntry(KERNEL_MAP_TABLE, 3);
    FreshEntry(PAGING_DIRECTORY, 3);
    ram := Poke(ram, PAGING_DIRECTORY, PdIndex(0), MakeEntry(0, IDENTITY_MAP_TABLE * PAGE_SIZE, 3));
    ram := Poke(ram, PAGING_DIRECTORY, PdIndex(0xC000_0000), MakeEntry(0, KERNEL_MAP_TABLE * PAGE_SIZE, 3));
    ram := Poke(ram, PAGING_DIRECTORY, SELF, MakeEntry(0, PAGING_DIRECTORY * PAGE_SIZE, 3));
  }
}
