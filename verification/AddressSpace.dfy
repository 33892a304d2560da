/**
 * The page tables as the kernel edits them (kernel/paging.c): every access goes through a virtual
 * address and the walk, and tables are reached through the window that the self-map opens.
 */
module Paging {
  import opened Machine
  import opened Pmm
  import opened PageTables
  import opened SpaceModel
  import opened Ownership
  import opened PagingTheorems
  import opened Layout
  import opened Staging
  import BootPaging

  class AddressSpace {
    const pmm: FrameAllocator
    var ram: Ram
    /** cr3, as a frame number */
    var dir: nat

    /** The frames that were in use when paging was set up. */
    ghost var base: set<nat>
    ghost var owner: map<nat, Holder>
    /** The allocator ran dry where the source does not look, and the books were closed. */
    ghost var starved: bool

    ghost function State(): Space
      reads this, pmm, pmm.words
    {
      Space(ram, dir, pmm.Free())
    }

    /** Enough for map_address to find its way. */
    ghost predicate Walkable()
      reads this, pmm, pmm.words
    {
      pmm.Valid() && State().Sane()
    }

    /**
     * Every frame has one holder, unless the allocator once ran dry under a missing table; and then
     * it is still dry.
     */
    ghost predicate Valid()
      reads this, pmm, pmm.words
    {
      Walkable() && if starved then State().free == {} else Owned(State(), base, owner, pmm.size)
    }

    constructor (pmm: FrameAllocator, ram: Ram, dir: nat)
      ensures this.pmm == pmm && this.ram == ram && this.dir == dir && !starved
    {
      this.pmm, this.ram, this.dir := pmm, ram, dir;
      base, owner, starved := {}, map[], false;
    }

    method LoadWord(va: u32) returns (v: u32)
      requires dir < FRAMES && va % 4 == 0 && Walk(ram, dir, va).Some?
      ensures var pa := Walk(ram, dir, va).value; v == ram[pa / PAGE_SIZE][pa % PAGE_SIZE / 4]
    {
      var pa := Walk(ram, dir, va).value;
      v := ram[pa / PAGE_SIZE][pa % PAGE_SIZE / 4];
    }

    method StoreWord(va: u32, v: u32)
      requires dir < FRAMES && va % 4 == 0 && Walk(ram, dir, va).Some?
      modifies `ram
      ensures var pa := Walk(old(ram), dir, va).value;
              ram == Poke(old(ram), pa / PAGE_SIZE, pa % PAGE_SIZE / 4, v)
    {
      var pa := Walk(ram, dir, va).value;
      ram := Poke(ram, pa / PAGE_SIZE, pa % PAGE_SIZE / 4, v);
    }

    /** Reads word j of table i through the window. */
    method LoadEntry(i: nat, j: nat) returns (v: u32)
      requires Walkable() && i < ENTRIES && j < ENTRIES && State().HasTable(i)
      ensures v == State().Pte(i, j)
    {
      hide Walk, WindowAddress;
      WindowWalk(ram, dir, i, j);
      SplitAddress(State().Table(i), j);
      v := LoadWord(WindowAddress(i, j));
    }

    /** Writes word j of table i through the window: it lands in exactly that word of that frame. */
    method StoreEntry(i: nat, j: nat, v: u32)
      requires Walkable() && i < ENTRIES && j < ENTRIES && State().HasTable(i)
      modifies `ram
      ensures ram == Poke(old(ram), old(State().Table(i)), j, v)
    {
      hide Walk, WindowAddress;
      WindowWalk(ram, dir, i, j);
      SplitAddress(State().Table(i), j);
      StoreWord(WindowAddress(i, j), v);
    }

    /** memset(page_table_va, 0, sizeof(PageTable)) */
    method ZeroTable(i: nat)
      requires Walkable() && i < SELF && State().HasTable(i)
      modifies `ram
      ensures ram == old(ram)[old(State().Table(i)) := Zeros()]
    {
      ghost var t := State().Table(i);
      for j := 0 to ENTRIES
        invariant Walkable() && State().HasTable(i) && State().Table(i) == t
        invariant ram == old(ram)[t := ram[t]]
        invariant forall k :: 0 <= k < j ==> ram[t][k] == 0
      {
        PokeTableSane(State(), i, j, 0);
        StoreEntry(i, j, 0);
      }
      assert ram[t] == Zeros();
    }

    /** alloc_block, seen from here: 0 when nothing is free. */
    method AllocFrame() returns (address: u32)
      requires Walkable()
      modifies pmm.words
      ensures Walkable() && State() == old(State()).Taken()
      ensures address == old(State()).NextFrame() * PAGE_SIZE
      ensures address == 0 <==> old(State()).free == {}
    {
      ghost var s := State();
      TakenSane(s);
      address := pmm.AllocBlock();
      assert State().free == s.Taken().free;
    }

    /**
     * The first half of map_address: a missing table comes from alloc_block, unchecked, and its directory
     * entry is present and writable.
     */
    method EnsureTable(pdi: nat)
      requires Walkable() && pdi < ENTRIES
      modifies `ram, pmm.words
      ensures Walkable() && State() == old(State()).WithTable(pdi)
      ensures State().HasTable(pdi)
      ensures ram[dir][pdi] == if old(State()).HasTable(pdi) then old(ram[dir][pdi])
                               else old(State()).NextFrame() * PAGE_SIZE + 3
    {
      var pde := LoadEntry(SELF, pdi);
      if !Present(pde) {
        ghost var s := State();
        TableAdded(s, pdi);
        AddTableEffect(s, pdi, s.NextFrame());
        var table := AllocFrame();
        StoreEntry(SELF, pdi, MakeEntry(0, table, 3));
        AddTableSteps(s, pdi, ram);
        ZeroTable(pdi);
        assert State() == s.AddTable(pdi, s.NextFrame());
      }
    }

    /**
     * map_address. Inside the window the directory itself is the table, so such a call adds a table
     * of the caller's choice, and nothing is promised about later walks.
     */
    method MapAddress(va: u32, pa: u32, flags: u32) returns (added: bool)
      requires Walkable()
      modifies `ram, pmm.words
      ensures pmm.Valid() && (PdIndex(va) < SELF ==> Walkable())
      ensures (State(), added) == old(State()).Map(PdIndex(va), PtIndex(va), pa, flags)
      ensures PdIndex(va) < SELF ==>
                && (added <==> !old(State()).Mapped(PdIndex(va), PtIndex(va)))
                && State().Pde(PdIndex(va)) == (if old(State()).HasTable(PdIndex(va)) then old(State()).Pde(PdIndex(va))
                                                else old(State()).NextFrame() * PAGE_SIZE + 3)
                && (added && flags < 4096 ==> Walk(ram, dir, va) == Some(pa / PAGE_SIZE * PAGE_SIZE + va % PAGE_SIZE))
    {
      var pdi, pti := PdIndex(va), PtIndex(va);
      EnsureTable(pdi);
      ghost var m := State();
      var pte := LoadEntry(pdi, pti);
      MapAnswers(old(State()), pdi, pti);
      if Present(pte) {
        return false;
      }
      if pdi < SELF { SetPageEffect(m, pdi, pti, pa, flags); }
      StoreEntry(pdi, pti, MakeEntry(pte, pa, WithPresent(flags)));
      added := true;
    }

    method UnmapAddress(va: u32)
      requires Walkable()
      modifies `ram, pmm.words
      ensures State() == old(State()).Unmap(PdIndex(va), PtIndex(va), pmm.size)
      ensures PdIndex(va) < SELF ==> Walk(ram, dir, va) == None
    {
      var pdi, pti := PdIndex(va), PtIndex(va);
      var pde := LoadEntry(SELF, pdi);
      if Present(pde) {
        var pte := LoadEntry(pdi, pti);
        if Present(pte) {
          ghost var s := State();
          StoreEntry(pdi, pti, 0);
          pmm.FreeBlock(Frame(pte) * PAGE_SIZE);
          assert State().free == s.Unmap(pdi, pti, pmm.size).free;
        }
      }
    }

    /** The same, with the books: the frame of a page mapped since boot goes back, and only that. */
    method UnmapPage(va: u32)
      requires Valid() && !starved && Dynamic(PdIndex(va))
      modifies this, pmm.words
      ensures Valid() && !starved && base == old(base) && dir == old(dir)
      ensures State() == old(State()).Unmap(PdIndex(va), PtIndex(va), pmm.size)
      ensures State().free == old(State()).free + (if old(State()).Mapped(PdIndex(va), PtIndex(va))
                                                   then {old(State()).Target(PdIndex(va), PtIndex(va))} else {})
    {
      hide Owned, Space.Unmap, FrameAllocator.Free, PdIndex, PtIndex;
      ghost var s, i, j := State(), PdIndex(va), PtIndex(va);
      ghost var o := UnmapBooks(s, base, owner, pmm.size, i, j);
      UnmapAddress(va);
      owner := o;
    }

    /** The body of the mapping loops of vmm_alloc and ksbrk; false when no frame was left. */
    method BackFrame(va: u32, flags: u32) returns (ok: bool)
      requires Walkable() && PdIndex(va) < SELF
      modifies `ram, pmm.words
      ensures Walkable() && (State(), ok) == old(State()).Back(PdIndex(va), PtIndex(va), flags)
      ensures if ok then old(State()).free != {} else State() == old(State()) && State().free == {}
    {
      ghost var s := State();
      TakenSane(s);
      BackSane(s, PdIndex(va), PtIndex(va), flags);
      var frame := AllocFrame();
      if frame == 0 {
        assert State().free == s.free;
        return false;
      }
      var added := MapAddress(va, frame, flags);
      if !added {
        ghost var free := State().free;
        pmm.FreeBlock(frame);
        assert State().free == free + {Min(s.free)};
      }
      ok := true;
    }

    /** The same body, with the books on who holds which frame. */
    method BackPage(va: u32, flags: PageFlags) returns (ok: bool)
      requires Valid() && PdIndex(va) < SELF
      modifies this, pmm.words
      ensures Valid() && base == old(base) && dir == old(dir)
      ensures (State(), ok) == old(State()).Back(PdIndex(va), PtIndex(va), flags)
      ensures if ok then old(State()).free != {} else State() == old(State()) && State().free == {}
      ensures starved == (old(starved) || Starves(old(State()), PdIndex(va)))
    {
      hide Owned, Space.Back, Starves, OwnerAfterBack, FrameAllocator.Free;
      ghost var s := State();
      BackSane(s, PdIndex(va), PtIndex(va), flags);
      BackStep(s, base, owner, pmm.size, PdIndex(va), PtIndex(va), flags, starved);
      ghost var o := OwnerAfterBack(s, owner, PdIndex(va), PtIndex(va));
      ok := BackFrame(va, flags);
      owner, starved := o, starved || Starves(s, PdIndex(va));
    }

    /**
     * The body of the loop that sets up the kernel heap: what alloc_block returns is mapped without
     * a look, so an empty allocator puts frame 0 behind the page. From a page that is mapped already the
     * loop turns back, and the frame stays taken.
     */
    method MapUnchecked(va: u32, flags: PageFlags) returns (ok: bool)
      requires Valid() && PdIndex(va) < SELF
      modifies this, pmm.words
      ensures Walkable() && dir == old(dir) && base == old(base)
      ensures ok == !old(State()).Mapped(PdIndex(va), PtIndex(va))
      ensures old(starved) || ok ==>
                Valid() && starved == (old(starved) || old(State()).free == {} || Starves(old(State()), PdIndex(va)))
      ensures !old(starved) && !ok ==> State() == old(State()).Taken() && starved == old(starved)
      ensures !starved && ok ==> State() == old(State()).Back(PdIndex(va), PtIndex(va), flags).0
    {
      hide Owned, Space.Back, Space.Map, Starves, OwnerAfterBack, FrameAllocator.Free;
      ghost var s, i, j := State(), PdIndex(va), PtIndex(va);
      ghost var o := owner;
      UncheckedAnswers(s, i, j, flags);
      if starved || !s.Mapped(i, j) {
        UncheckedStep(s, base, owner, pmm.size, i, j, flags, starved);
        o := OwnerAfterBack(s, owner, i, j);
      }
      var frame := AllocFrame();
      ok := MapAddress(va, frame, flags);
      if ok || starved {
        owner, starved := o, starved || s.free == {} || Starves(s, i);
      }
    }

    /**
     * memset(va, 0, 4096) on a mapped page. The processor keeps the translation it loaded for the
     * first byte, also if the stores clear the entry that it came from.
     */
    method ZeroPage(i: nat, p: nat)
      requires Walkable() && i < ENTRIES && p < ENTRIES && State().Mapped(i, p) && State().Target(i, p) != dir
      modifies `ram
      ensures Walkable() && ram == old(ram)[old(State().Target(i, p)) := Zeros()]
    {
      hide Walk, WordAddress;
      ghost var s, f := State(), State().Target(i, p);
      WordWalk(ram, dir, i, p, 0);
      SplitAddress(f, 0);
      var page := Walk(ram, dir, WordAddress(i, p, 0)).value / PAGE_SIZE;
      for j := 0 to ENTRIES
        invariant ram == old(ram)[f := ram[f]]
        invariant forall k :: 0 <= k < j ==> ram[f][k] == 0
      {
        ram := Poke(ram, page, j, 0);
      }
      assert ram[f] == Zeros();
      FrameSane(s, f, Zeros());
    }

    /**
     * allocate_page_directory and allocate_page_table, which are the same code. When the page was
     * mapped already the frame stays taken; from an empty allocator frame 0 is mapped and cleared.
     */
    method AllocatePage(va: u32) returns (pa: u32)
      requires Walkable()
      modifies `ram, pmm.words
      ensures Walkable() && State() == NewPage(old(State()), PdIndex(va), PtIndex(va))
      ensures pa == if old(State()).Mapped(PdIndex(va), PtIndex(va)) then 0 else old(State()).NextFrame() * PAGE_SIZE
    {
      ghost var s := State();
      var i, j := PdIndex(va), PtIndex(va);
      NewPageMaps(s, i, j);
      hide Space.Map, PdIndex, PtIndex, FrameAllocator.Free;
      pa := AllocFrame();
      var added := MapAddress(va, pa, READ_WRITE);
      if !added {
        return 0;
      }
      ZeroPage(i, j);
    }

    /** Stores word j of staged page k through its address 0x500000 + k * 0x1000. */
    method StoreStaged(k: nat, j: nat, v: u32, ghost t: nat, ghost pages: seq<nat>)
      requires pmm.Valid() && Staged(State(), t, pages) && k < |pages| && j < ENTRIES
      modifies `ram
      ensures Staged(State(), t, pages)
      ensures pages[k] < FRAMES && ram == Poke(old(ram), pages[k], j, v)
    {
      hide Walk, WordAddress;
      assert Present(Slot(State(), t, k)) && Frame(Slot(State(), t, k)) == pages[k];
      WordWalk(ram, dir, STAGE, FIRST + k, j);
      SplitAddress(pages[k], j);
      ghost var s := State();
      StoreWord(WordAddress(STAGE, FIRST + k, j), v);
      StagedKept(s, State(), t, pages);
    }

    /** One of the two loops: the staged table maps 4 MB from frame `first`. */
    method FillStaged(k: nat, first: nat, flags: PageFlags, virtualBase: u32, ghost t: nat, ghost pages: seq<nat>)
      requires pmm.Valid() && Staged(State(), t, pages) && k < |pages|
      requires first + ENTRIES <= FRAMES && flags % 2 == 1
      requires virtualBase % 0x40_0000 == 0 && virtualBase + 0x40_0000 <= WORD
      modifies `ram
      ensures Staged(State(), t, pages) && pages[k] < FRAMES && IsFilled(ram, pages[k], first, flags)
      ensures ram == old(ram)[pages[k] := ram[pages[k]]]
    {
      hide MakeEntry, PtIndex;
      var physical: int, virtual: int := first * PAGE_SIZE, virtualBase;
      assert pages[k] < FRAMES by { assert Frame(Slot(State(), t, k)) == pages[k]; }
      for i := 0 to ENTRIES
        invariant physical == (first + i) * PAGE_SIZE && virtual == virtualBase + i * PAGE_SIZE
        invariant Staged(State(), t, pages)
        invariant forall j :: 0 <= j < i ==> ram[pages[k]][j] == (first + j) * PAGE_SIZE + flags
        invariant ram == old(ram)[pages[k] := ram[pages[k]]]
      {
        FreshEntry(first + i, flags);
        AlignedIndex(virtualBase, i);
        StoreStaged(k, PtIndex(virtual), MakeEntry(0, physical, flags), t, pages);
        physical, virtual := physical + PAGE_SIZE, virtual + PAGE_SIZE;
      }
    }

    /** The first allocation of initialize_paging: 0x500000 needs a table as well as a page. */
    method StageDirectory() returns (pa: u32, ghost frame: nat, ghost t: nat)
      requires Walkable() && !State().HasTable(STAGE)
      modifies `ram, pmm.words
      ensures Walkable() && (pa == 0 <==> old(State()).free == {})
      ensures State().free <= old(State()).free
      ensures |State().free| == if |old(State()).free| < 2 then 0 else |old(State()).free| - 2
      ensures |old(State()).free| >= 2 ==>
                && pa == frame * PAGE_SIZE && frame in old(State()).free && frame < FRAMES
                && Staged(State(), t, [frame]) && ram[frame] == Zeros()
    {
      hide NewPage, Staged, FrameAllocator.Free, Space.Sane, PdIndex, PtIndex;
      WordIndices(STAGE, FIRST, 0);
      ghost var s := State();
      FirstNewPage(s);
      frame, t := s.NextFrame(), s.Taken().NextFrame();
      pa := AllocatePage(0x50_0000);
    }

    /** The other two, at 0x501000 and 0x502000; without a frame they answer null. */
    method StageTable(k: nat, ghost t: nat, ghost pages: seq<nat>) returns (pa: u32, ghost frame: nat)
      requires Walkable() && 1 <= k < 3
      requires State().free != {} ==> Staged(State(), t, pages) && |pages| == k
      modifies `ram, pmm.words
      ensures Walkable() && State().free <= old(State()).free
      ensures if old(State()).free == {} then pa == 0 && State().free == {} else
                && pa == frame * PAGE_SIZE != 0 && frame in old(State()).free && frame < FRAMES
                && Staged(State(), t, pages + [frame])
                && |State().free| == |old(State()).free| - 1
                && forall f :: f in pages && f < FRAMES ==> ram[f] == old(ram)[f]
    {
      hide NewPage, Staged, FrameAllocator.Free, Space.Sane, PdIndex, PtIndex;
      WordIndices(STAGE, FIRST + k, 0);
      ghost var s := State();
      NextNewPage(s, t, pages, k);
      frame := s.NextFrame();
      pa := AllocatePage(0x50_0000 + k * 0x1000);
    }

    /** The entries of the new directory, stored through 0x500000. */
    method StageEntries(directory: u32, kernel: u32, identity: u32,
                        ghost d: nat, ghost b: nat, ghost c: nat, ghost t: nat)
      requires d < FRAMES && b < FRAMES && c < FRAMES
      requires directory == d * PAGE_SIZE && kernel == b * PAGE_SIZE && identity == c * PAGE_SIZE
      requires pmm.Valid() && Staged(State(), t, [d, b, c])
      requires ram[d] == Zeros() && IsFilled(ram, c, 0, 1) && IsFilled(ram, b, KERNEL_FRAME, 3)
      modifies `ram
      ensures IsLayout(ram, d, c, b, 1, 3)
    {
      hide Staged, MakeEntry, PdIndex, IsLayout, IsFilled;
      StagedApart(State(), t, d, b, c);
      DirectoryIndices();
      ghost var pages := [d, b, c];
      ghost var before := ram;
      StoreStaged(0, PdIndex(0), MakeEntry(0, identity, PRESENT), t, pages);
      StoreStaged(0, PdIndex(0xC000_0000), MakeEntry(0, kernel, 3), t, pages);
      StoreStaged(0, SELF, MakeEntry(0, directory, 3), t, pages);
      ThreeEntries(before, ram, d, b, c);
    }

    /** The two loops that fill the new tables. */
    method FillStagedTables(ghost d: nat, ghost b: nat, ghost c: nat, ghost t: nat)
      requires pmm.Valid() && Staged(State(), t, [d, b, c])
      requires d < FRAMES && b < FRAMES && c < FRAMES
      modifies `ram
      ensures Staged(State(), t, [d, b, c]) && ram[d] == old(ram)[d]
      ensures IsFilled(ram, c, 0, 1) && IsFilled(ram, b, KERNEL_FRAME, 3)
    {
      StagedApart(State(), t, d, b, c);
      hide Staged;
      FillStaged(1, KERNEL_FRAME, 3, 0xC000_0000, t, [d, b, c]);
      FillStaged(2, 0, PRESENT, 0, t, [d, b, c]);
    }

    /** switch_current_page_directory: the baseline frames are those in use from here on. */
    method Switch(directory: u32, ghost d: nat, ghost b: nat, ghost c: nat, ghost free: set<nat>)
      requires pmm.Valid() && d < FRAMES && directory == d * PAGE_SIZE && IsLayout(ram, d, c, b, 1, 3)
      requires d in free && b in free && c in free && pmm.Free() <= free <= Interval(1, pmm.size)
      requires d !in pmm.Free() && b !in pmm.Free() && c !in pmm.Free() && d != b && d != c
      modifies this
      ensures ram == old(ram) && dir == d && Valid() && !starved && owner == map[]
      ensures base == Interval(0, pmm.size) - State().free
    {
      dir := directory / PAGE_SIZE;
      base, owner, starved := Interval(0, pmm.size) - pmm.Free(), map[], false;
      LayoutOwned(State(), base, pmm.size, c, b);
    }

    /**
     * initialize_paging. It switches to the new directory exactly when there are four free frames;
     * otherwise it returns on the boot loader's directory with no frame left. The test after the
     * second allocation looks at the first result again and so never fires; the test after the third
     * makes up for it, because an allocator that is dry stays dry.
     */
    method InitializePaging() returns (done: bool, ghost identityTable: nat, ghost kernelTable: nat)
      requires pmm.Valid() && dir == BootPaging.PAGING_DIRECTORY
      requires IsLayout(ram, dir, BootPaging.IDENTITY_MAP_TABLE, BootPaging.KERNEL_MAP_TABLE, 3, 1)
      requires forall f :: f in pmm.Free() ==> f > 0x400
      modifies this, pmm.words
      ensures Valid() && (done <==> |old(pmm.Free())| >= 4)
      ensures done ==>
                && !starved && owner == map[] && base == Interval(0, pmm.size) - State().free
                && IsLayout(ram, dir, identityTable, kernelTable, 1, 3)
                && dir in old(pmm.Free()) && identityTable in old(pmm.Free()) && kernelTable in old(pmm.Free())
                && State().free <= old(pmm.Free()) && |State().free| == |old(pmm.Free())| - 4
      ensures !done ==> dir == old(dir) && State().free == {} && starved
    {
      hide Staged, FrameAllocator.Free, IsLayout, Space.Sane, Owned;
      FreeIsManaged(pmm);
      BootState(State(), pmm.size);
      ghost var free := State().free;
      identityTable, kernelTable := 0, 0;
      var directory, kernel, identity;
      ghost var d, t;
      directory, d, t := StageDirectory();
      if directory == 0 {
        starved := true;
        return false, 0, 0;
      }
      kernel, identity, kernelTable, identityTable := StageTables(d, t);
      if identity == 0 {
        starved := true;
        return false, 0, 0;
      }
      BuildAndSwitch(directory, kernel, identity, d, kernelTable, identityTable, t, free);
      done := true;
    }

    /** The second and third allocation. The test between them looks at the first result again. */
    method StageTables(ghost d: nat, ghost t: nat)
      returns (kernel: u32, identity: u32, ghost b: nat, ghost c: nat)
      requires Walkable() && (State().free != {} ==> Staged(State(), t, [d]))
      modifies `ram, pmm.words
      ensures Walkable() && State().free <= old(State()).free
      ensures identity == 0 <==> |old(State()).free| < 2
      ensures identity == 0 ==> State().free == {}
      ensures identity != 0 ==>
                && Staged(State(), t, [d, b, c]) && (d < FRAMES ==> ram[d] == old(ram)[d])
                && kernel == b * PAGE_SIZE && b in old(State()).free && b < FRAMES
                && identity == c * PAGE_SIZE && c in old(State()).free && c < FRAMES
                && |State().free| == |old(State()).free| - 2
    {
      hide Staged, FrameAllocator.Free, Space.Sane, AddressSpace.State;
      ghost var pages := [d];
      kernel, b := StageTable(1, t, pages);
      pages := pages + [b];
      identity, c := StageTable(2, t, pages);
      assert pages + [c] == [d, b, c];
    }

    method BuildAndSwitch(directory: u32, kernel: u32, identity: u32,
                          ghost d: nat, ghost b: nat, ghost c: nat, ghost t: nat, ghost free: set<nat>)
      requires pmm.Valid() && Staged(State(), t, [d, b, c]) && d < FRAMES && b < FRAMES && c < FRAMES
      requires directory == d * PAGE_SIZE && kernel == b * PAGE_SIZE && identity == c * PAGE_SIZE
      requires ram[d] == Zeros()
      requires State().free <= free && {d, b, c} <= free && free <= Interval(1, pmm.size)
      modifies this
      ensures Valid() && !starved && owner == map[] && base == Interval(0, pmm.size) - State().free
      ensures IsLayout(ram, dir, c, b, 1, 3) && dir == d && State().free == old(State()).free
    {
      FillStagedTables(d, b, c, t);
      StagedApart(State(), t, d, b, c);
      StageEntries(directory, kernel, identity, d, b, c, t);
      Switch(directory, d, b, c, free);
    }
  }

  /** The boot loader's address space is fit to allocate in. */
  lemma BootState(s: Space, limit: nat)
    requires s.dir == BootPaging.PAGING_DIRECTORY && limit <= FRAMES && s.free <= Interval(0, limit)
    requires IsLayout(s.ram, s.dir, BootPaging.IDENTITY_MAP_TABLE, BootPaging.KERNEL_MAP_TABLE, 3, 1)
    requires forall f :: f in s.free ==> f > 0x400
    ensures s.Sane() && !s.HasTable(STAGE) && s.free <= Interval(1, limit)
  {
    LayoutSane(s, BootPaging.IDENTITY_MAP_TABLE, BootPaging.KERNEL_MAP_TABLE, 3, 1);
  }

  /** A page is there after its table was added exactly if it was there before. */
  lemma MapAnswers(s: Space, i: nat, j: nat)
    requires s.Sane() && i < ENTRIES && j < ENTRIES
    ensures s.WithTable(i).Typed() && (s.WithTable(i).Mapped(i, j) <==> s.Mapped(i, j))
  {
    if !s.HasTable(i) { AddTableEffect(s, i, s.NextFrame()); }
  }

  lemma DirectoryIndices()
    ensures PdIndex(0) == 0 && PdIndex(0xC000_0000) == KERNEL
  {
  }

  /** The three entries complete the layout. */
  lemma ThreeEntries(before: Ram, after: Ram, d: nat, b: nat, c: nat)
    requires d < FRAMES && b < FRAMES && c < FRAMES && d != b && d != c && before[d] == Zeros()
    requires IsFilled(before, c, 0, 1) && IsFilled(before, b, KERNEL_FRAME, 3)
    requires after == Poke(Poke(Poke(before, d, 0, MakeEntry(0, c * PAGE_SIZE, PRESENT)),
                                d, KERNEL, MakeEntry(0, b * PAGE_SIZE, 3)), d, SELF, MakeEntry(0, d * PAGE_SIZE, 3))
    ensures IsLayout(after, d, c, b, 1, 3)
  {
    hide MakeEntry;
    FreshEntry(c, 1);
    FreshEntry(b, 3);
    FreshEntry(d, 3);
    assert after[b] == before[b] && after[c] == before[c];
  }

  lemma FreeIsManaged(pmm: FrameAllocator)
    ensures pmm.Free() <= Interval(0, pmm.size)
  {
  }

  ghost function UnmapBooks(s: Space, base: set<nat>, owner: map<nat, Holder>, limit: nat, i: nat, j: nat):
    (o: map<nat, Holder>)
    requires Owned(s, base, owner, limit) && Dynamic(i) && j < ENTRIES
    ensures Owned(s.Unmap(i, j, limit), base, o, limit)
    ensures s.Unmap(i, j, limit).Sane() && s.Unmap(i, j, limit).dir == s.dir
    ensures s.Unmap(i, j, limit).free == s.free + (if s.Mapped(i, j) then {s.Target(i, j)} else {})
  {
    if s.Mapped(i, j) then
      UnmapOwned(s, base, owner, limit, i, j);
      owner - {s.Target(i, j)}
    else owner
  }

  lemma BackStep(s: Space, base: set<nat>, owner: map<nat, Holder>, limit: nat,
                 i: nat, j: nat, flags: PageFlags, starved: bool)
    requires s.Sane() && i < SELF && j < ENTRIES
    requires if starved then s.free == {} else Owned(s, base, owner, limit)
    ensures var n := s.Back(i, j, flags).0;
      && n.Sane()
      && if starved || Starves(s, i) then n.free == {}
         else Owned(n, base, OwnerAfterBack(s, owner, i, j), limit)
  {
    if !starved { BackOwnedIff(s, base, owner, limit, i, j, flags); }
    BackSane(s, i, j, flags);
    if s.free != {} && Starves(s, i) { StarvedTable(s, i, j, flags); }
  }

  lemma UncheckedAnswers(s: Space, i: nat, j: nat, flags: PageFlags)
    requires s.Sane() && i < SELF && j < ENTRIES
    ensures s.Taken().Sane() && s.NextFrame() < FRAMES
    ensures var (n, ok) := s.Taken().Map(i, j, s.NextFrame() * PAGE_SIZE, flags);
      (ok <==> !s.Mapped(i, j)) && (!ok ==> n == s.Taken())
  {
    TakenSane(s);
    if !s.HasTable(i) { AddTableEffect(s.Taken(), i, s.Taken().NextFrame()); }
  }

  lemma UncheckedStep(s: Space, base: set<nat>, owner: map<nat, Holder>, limit: nat,
                      i: nat, j: nat, flags: PageFlags, starved: bool)
    requires s.Sane() && i < SELF && j < ENTRIES && (starved || !s.Mapped(i, j))
    requires if starved then s.free == {} else Owned(s, base, owner, limit)
    ensures s.Taken().Sane() && s.NextFrame() < FRAMES
    ensures var (n, ok) := s.Taken().Map(i, j, s.NextFrame() * PAGE_SIZE, flags);
      && n.Sane()
      && if starved || s.free == {} || Starves(s, i) then n.free == {}
         else ok && n == s.Back(i, j, flags).0 && Owned(n, base, OwnerAfterBack(s, owner, i, j), limit)
  {
    TakenSane(s);
    MapKeepsSane(s.Taken(), i, j, s.NextFrame() * PAGE_SIZE, flags);
    if !starved && s.free != {} {
      BackOwnedIff(s, base, owner, limit, i, j, flags);
      if Starves(s, i) {
        StarvedTable(s, i, j, flags);
      } else if !s.HasTable(i) {
        TableAdded(s.Taken(), i);
        AddTableEffect(s.Taken(), i, s.Taken().NextFrame());
      }
    }
  }

  lemma AddTableSteps(s: Space, i: nat, ram: Ram)
    requires s.Sane() && i < SELF && !s.HasTable(i)
    requires ram == Poke(s.ram, s.dir, i, MakeEntry(0, s.NextFrame() * PAGE_SIZE, 3))
    ensures var n := Space(ram, s.dir, s.Taken().free);
      && n.Sane() && n.HasTable(i) && n.Table(i) == s.NextFrame()
  {
    hide MakeEntry;
    EntryFields(0, s.NextFrame() * PAGE_SIZE, 3);
    SaneFrom(s, Space(ram, s.dir, s.Taken().free), i);
  }
}
