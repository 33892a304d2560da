/** The address space that both paging initialisers build: boot/stage2/paging.c and kernel/paging.c. */
module Layout {
  import opened Machine
  import opened PageTables
  import opened Ownership

  /**
   * Three directory entries and no more: the first 4 MB, the kernel's 4 MB, and the directory. The
   * two initialisers differ in the flags of the identity table's directory entry and of the
   * kernel's pages.
   */
  ghost predicate IsLayout(ram: Ram, dir: nat, identity: nat, kernel: nat,
                           identityFlags: PageFlags, kernelFlags: PageFlags) {
    && dir < FRAMES && identity < FRAMES && kernel < FRAMES
    && ram[dir][0] == identity * PAGE_SIZE + identityFlags
    && ram[dir][KERNEL] == kernel * PAGE_SIZE + 3
    && ram[dir][SELF] == dir * PAGE_SIZE + 3
    && (forall i :: 0 <= i < ENTRIES && i != 0 && i != KERNEL && i != SELF ==> ram[dir][i] == 0)
    && IsFilled(ram, identity, 0, 1) && IsFilled(ram, kernel, KERNEL_FRAME, kernelFlags)
  }

  /** The table maps a contiguous 4 MB from frame `first`. */
  ghost predicate IsFilled(ram: Ram, table: nat, first: nat, flags: PageFlags)
    requires table < FRAMES
  {
    forall j :: 0 <= j < ENTRIES ==> ram[table][j] == (first + j) * PAGE_SIZE + flags
  }

  /** What every virtual address means. */
  function Meaning(dir: nat, identity: nat, kernel: nat, va: u32): Option<u32>
    requires dir < FRAMES && identity < FRAMES && kernel < FRAMES
  {
    if va < 0x40_0000 then Some(va)
    else if 0xC000_0000 <= va < 0xC040_0000 then Some(va - 0xC000_0000 + 0x10_0000)
    else if va < 0xFFC0_0000 then None
    else
      var page := (va - 0xFFC0_0000) / PAGE_SIZE;
      var offset := va % PAGE_SIZE;
      if page == 0 then Some(identity * PAGE_SIZE + offset)
      else if page == KERNEL then Some(kernel * PAGE_SIZE + offset)
      else if page == SELF then Some(dir * PAGE_SIZE + offset)
      else None
  }

  lemma LayoutShape(ram: Ram, dir: nat, identity: nat, kernel: nat,
                    identityFlags: PageFlags, kernelFlags: PageFlags)
    requires IsLayout(ram, dir, identity, kernel, identityFlags, kernelFlags)
    requires identityFlags % 2 == 1 && kernelFlags % 2 == 1
    ensures forall i :: 0 <= i < ENTRIES ==> (Present(ram[dir][i]) <==> i == 0 || i == KERNEL || i == SELF)
    ensures Frame(ram[dir][0]) == identity && Frame(ram[dir][KERNEL]) == kernel && Frame(ram[dir][SELF]) == dir
    ensures forall j :: 0 <= j < ENTRIES ==> Present(ram[identity][j]) && Frame(ram[identity][j]) == j
    ensures forall j :: 0 <= j < ENTRIES ==> Present(ram[kernel][j]) && Frame(ram[kernel][j]) == KERNEL_FRAME + j
  {
    EntryParts(identity, identityFlags);
    EntryParts(kernel, 3);
    EntryParts(dir, 3);
    forall j | 0 <= j < ENTRIES
      ensures Present(ram[identity][j]) && Frame(ram[identity][j]) == j
      ensures Present(ram[kernel][j]) && Frame(ram[kernel][j]) == KERNEL_FRAME + j
    {
      EntryParts(j, 1);
      EntryParts(KERNEL_FRAME + j, kernelFlags);
    }
  }

  /**
   * In the layout, every virtual address walks to its meaning: identity below 4 MB, the kernel's
   * load address above 0xC0000000, the three present tables in the window, nothing elsewhere.
   */
  lemma LayoutMeaning(ram: Ram, dir: nat, identity: nat, kernel: nat,
                      identityFlags: PageFlags, kernelFlags: PageFlags, va: u32)
    requires IsLayout(ram, dir, identity, kernel, identityFlags, kernelFlags)
    requires identityFlags % 2 == 1 && kernelFlags % 2 == 1
    ensures Walk(ram, dir, va) == Meaning(dir, identity, kernel, va)
  {
    LayoutShape(ram, dir, identity, kernel, identityFlags, kernelFlags);
    hide IsLayout, IsFilled;
    var i, j := PdIndex(va), PtIndex(va);
    assert va == i * 0x40_0000 + j * PAGE_SIZE + va % PAGE_SIZE;
    assert i == 0 <==> va < 0x40_0000;
    assert i == KERNEL <==> 0xC000_0000 <= va < 0xC040_0000;
    assert i == SELF <==> 0xFFC0_0000 <= va;
    if i == SELF {
      assert (va - 0xFFC0_0000) / PAGE_SIZE == j;
    }
  }

  /**
   * And it can be written exactly in the kernel's 4 MB, if the kernel's pages have that flag, and in the
   * window pages of the kernel's table and of the directory, and of the identity table if its directory
   * entry has the flag. The first 4 MB are read-only in both address spaces.
   */
  lemma LayoutWrites(ram: Ram, dir: nat, identity: nat, kernel: nat,
                     identityFlags: PageFlags, kernelFlags: PageFlags, va: u32)
    requires IsLayout(ram, dir, identity, kernel, identityFlags, kernelFlags)
    requires identityFlags % 2 == 1 && kernelFlags % 2 == 1
    ensures Writes(ram, dir, va) <==>
              || (0xC000_0000 <= va < 0xC040_0000 && kernelFlags / 2 % 2 == 1)
              || (0xFFC0_0000 <= va < 0xFFC0_1000 && identityFlags / 2 % 2 == 1)
              || 0xFFF0_0000 <= va < 0xFFF0_1000
              || 0xFFFF_F000 <= va
  {
    LayoutShape(ram, dir, identity, kernel, identityFlags, kernelFlags);
    var (i, j) := (PdIndex(va), PtIndex(va));
    assert va == i * 0x40_0000 + j * PAGE_SIZE + va % PAGE_SIZE;
    if i == 0 {
      FlagWrites(j, 1);
    } else if i == KERNEL {
      FlagWrites(KERNEL_FRAME + j, kernelFlags);
      FlagWrites(kernel, 3);
    } else if i == SELF {
      FlagWrites(dir, 3);
      FlagWrites(identity, identityFlags);
      FlagWrites(kernel, 3);
    }
  }

  lemma FlagWrites(frame: nat, flags: PageFlags)
    requires frame < FRAMES
    ensures Writable(frame * PAGE_SIZE + flags) <==> flags / 2 % 2 == 1
  {
  }
}
