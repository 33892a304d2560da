/** memory_test (kernel/paging.c:219-245): the kernel's own check of allocation and mapping. */
module MemoryTest {
  import opened Machine
  import opened Pmm
  import opened PageTables
  import opened SpaceModel
  import opened Ownership
  import opened PagingTheorems
  import opened Paging

  const START_ADDR := 0x50_0000
  const END_ADDR := 0x51_0000

  /** The directory entry behind all addresses of the test. */
  const TEST_TABLE := 1

  /** The test can go on: every frame has one holder, and the next page can be backed. */
  ghost predicate Ready(s: Space, base: set<nat>, owner: map<nat, Holder>, limit: nat) {
    Owned(s, base, owner, limit) && s.free != {} && !Starves(s, TEST_TABLE)
  }

  /** Taking a frame and mapping it is one round of the allocation loops, short of giving it back. */
  lemma TakenMap(s: Space, j: nat, flags: PageFlags)
    requires s.Sane() && j < ENTRIES && s.free != {}
    ensures s.Taken().Sane()
    ensures var (m, added) := s.Taken().Map(TEST_TABLE, j, Min(s.free) * PAGE_SIZE, flags);
      && (s.Mapped(TEST_TABLE, j) ==> !added && m == s.Taken())
      && (!s.Mapped(TEST_TABLE, j) && (s.HasTable(TEST_TABLE) || !Starves(s, TEST_TABLE)) ==>
            added && m == s.Back(TEST_TABLE, j, flags).0)
  {
    TakenSane(s);
    if !s.HasTable(TEST_TABLE) { AddTableEffect(s.Taken(), TEST_TABLE, s.Taken().NextFrame()); }
  }

  /** After mapping and unmapping, the test is as ready as before. */
  lemma ReadyAgain(s: Space, base: set<nat>, owner: map<nat, Holder>, limit: nat, j: nat, flags: PageFlags)
    requires Ready(s, base, owner, limit) && j < ENTRIES && !s.Mapped(TEST_TABLE, j)
    ensures var n := s.Back(TEST_TABLE, j, flags).0.Unmap(TEST_TABLE, j, limit);
      && Ready(n, base, OwnerAfterBack(s, owner, TEST_TABLE, j) - {Min(s.free)}, limit)
      && n.NextFrame() == Min(s.free) && OtherPagesKept(s, n, TEST_TABLE, j) && !n.Mapped(TEST_TABLE, j)
  {
    BackOwnedIff(s, base, owner, limit, TEST_TABLE, j, flags);
    MapThenUnmap(s, base, owner, limit, TEST_TABLE, j, flags);
    var m := s.Back(TEST_TABLE, j, flags).0;
    UnmapOwned(m, base, OwnerAfterBack(s, owner, TEST_TABLE, j), limit, TEST_TABLE, j);
    UnmapSane(m, TEST_TABLE, j, limit);
  }

  lemma SamePages(s: Space, n: Space, m: Space)
    requires s.Typed() && n.Typed() && m.Typed() && PagesKept(s, n) && PagesKept(n, m)
    ensures PagesKept(s, m)
  {
    forall k: nat, l: nat | k < SELF && l < ENTRIES
      ensures (m.Mapped(k, l) <==> s.Mapped(k, l)) && (s.Mapped(k, l) ==> m.Pte(k, l) == s.Pte(k, l))
    {
      assert n.Mapped(k, l) <==> s.Mapped(k, l);
    }
  }

  /** Every page outside the self-map window translates as before. */
  ghost predicate PagesKept(s: Space, n: Space)
    requires s.Typed() && n.Typed()
  {
    forall k: nat, l: nat :: k < SELF && l < ENTRIES ==>
      (n.Mapped(k, l) <==> s.Mapped(k, l)) && (s.Mapped(k, l) ==> n.Pte(k, l) == s.Pte(k, l))
  }

  lemma AllPagesKept(s: Space, n: Space, j: nat)
    requires s.Typed() && n.Typed() && j < ENTRIES && OtherPagesKept(s, n, TEST_TABLE, j)
    requires !s.Mapped(TEST_TABLE, j) && !n.Mapped(TEST_TABLE, j)
    ensures PagesKept(s, n)
  {
  }

  lemma TestIndex(va: u32)
    requires START_ADDR <= va < END_ADDR
    ensures PdIndex(va) == TEST_TABLE && Dynamic(TEST_TABLE)
    ensures va - va % 4 >= 0 && PdIndex(va - va % 4) == PdIndex(va) && PtIndex(va - va % 4) == PtIndex(va)
  {
    assert (va - va % 4) / PAGE_SIZE == va / PAGE_SIZE;
  }

  lemma MappedWalks(s: Space, va: u32)
    requires s.Typed() && s.Mapped(PdIndex(va), PtIndex(va))
    ensures Walk(s.ram, s.dir, va).Some?
  {
  }

  /** What a round leaves: the state as it was, or one table more behind the test's addresses. */
  ghost predicate RoundKeeps(s: Space, n: Space)
    requires s.Typed() && n.Typed()
  {
    && (s.HasTable(TEST_TABLE) ==> n == s)
    && PagesKept(s, n) && s.dir == n.dir && (n == s || n.HasTable(TEST_TABLE))
    && n.free <= s.free && |n.free| + 1 >= |s.free|
    && (!s.HasTable(TEST_TABLE) && n.HasTable(TEST_TABLE) ==> |n.free| + 1 == |s.free|)
  }

  lemma ReadySane(s: Space, base: set<nat>, owner: map<nat, Holder>, limit: nat)
    requires Ready(s, base, owner, limit)
    ensures s.Sane()
  {
  }

  /** The beginning of a round: alloc_block, then map_address. */
  method TakeAndMap(space: AddressSpace, va: u32) returns (frame: u32, added: bool)
    requires space.Walkable() && START_ADDR <= va < END_ADDR
    requires Ready(space.State(), space.base, space.owner, space.pmm.size)
    modifies space`ram, space.pmm.words
    ensures space.Walkable() && frame == old(space.State()).NextFrame() * PAGE_SIZE
    ensures added == !old(space.State()).Mapped(TEST_TABLE, PtIndex(va))
    ensures space.State() == if added then old(space.State()).Back(TEST_TABLE, PtIndex(va), READ_WRITE).0
                             else old(space.State()).Taken()
  {
    hide Owned, Space.Back, Space.Map, Starves, FrameAllocator.Free, Walk;
    TestIndex(va);
    TakenMap(space.State(), PtIndex(va), READ_WRITE);
    frame := space.AllocFrame();
    added := space.MapAddress(va, frame, READ_WRITE);
  }

  /** One round of the loop, for one byte address. */
  method TestAddress(space: AddressSpace, va: u32) returns (ok: bool)
    requires space.Walkable() && !space.starved && START_ADDR <= va < END_ADDR
    requires Ready(space.State(), space.base, space.owner, space.pmm.size)
    modifies space`ram, space`owner, space.pmm.words
    ensures space.Walkable() && Ready(space.State(), space.base, space.owner, space.pmm.size)
    ensures ok && RoundKeeps(old(space.State()), space.State()) && space.State().HasTable(1)
  {
    hide Ready, RoundKeeps, Space.Back, Space.Unmap, Space.Taken, OwnerAfterBack, FrameAllocator.Free,
         Walk, PtIndex, PdIndex;
    ghost var s, owner := space.State(), space.owner;
    ghost var j := PtIndex(va);
    TestIndex(va);
    ReadySane(s, space.base, owner, space.pmm.size);
    var frame, added := TakeAndMap(space, va);
    if !added {
      GiveBack(space, frame, s);
      NothingDone(s);
      return true;
    }
    RoundDone(s, space.base, owner, space.pmm.size, j);
    ReadByte(space, va);
    space.UnmapAddress(va);
    ReadySane(space.State(), space.base, OwnerAfterBack(s, owner, TEST_TABLE, j) - {Min(s.free)}, space.pmm.size);
    space.owner := OwnerAfterBack(s, owner, TEST_TABLE, j) - {Min(s.free)};
    ok := ComesBack(space, frame);
  }

  lemma NothingDone(s: Space)
    requires s.Typed()
    ensures RoundKeeps(s, s)
  {
  }

  /** char test_var = *(char *)virtual_addr: the access does not fault. */
  method ReadByte(space: AddressSpace, va: u32)
    requires space.Walkable() && START_ADDR <= va < END_ADDR
    requires space.State().Mapped(TEST_TABLE, PtIndex(va))
  {
    hide Walk;
    TestIndex(va);
    MappedWalks(space.State(), va - va % 4);
    var word := space.LoadWord(va - va % 4);
  }

  /** The end of a round: the allocator must hand out the frame that was just unmapped. */
  method ComesBack(space: AddressSpace, frame: u32) returns (ok: bool)
    requires space.Walkable() && Ready(space.State(), space.base, space.owner, space.pmm.size)
    modifies space.pmm.words
    ensures ok <==> frame == old(space.State().NextFrame()) * PAGE_SIZE
    ensures ok ==> space.Walkable() && space.State() == old(space.State())
  {
    hide Owned, Starves, FrameAllocator.Free;
    ghost var n := space.State();
    TakenSane(n);
    var again := space.AllocFrame();
    if again != frame {
      return false;
    }
    space.pmm.FreeBlock(again);
    GivenBack(n, space.State().free, space.pmm.size, space.base, space.owner);
    ok := true;
  }

  /** The branch for a page that is mapped already: the frame goes back. */
  method GiveBack(space: AddressSpace, frame: u32, ghost s: Space)
    requires space.Walkable() && Ready(s, space.base, space.owner, space.pmm.size)
    requires space.State() == s.Taken() && frame == s.NextFrame() * PAGE_SIZE
    modifies space.pmm.words
    ensures space.Walkable() && space.State() == s
  {
    ReadySane(s, space.base, space.owner, space.pmm.size);
    hide Owned, Starves, FrameAllocator.Free;
    space.pmm.FreeBlock(frame);
    GivenBack(s, space.State().free, space.pmm.size, space.base, space.owner);
  }

  /** Taking the lowest free frame and giving it back restores what is free. */
  lemma GivenBack(s: Space, free: set<nat>, limit: nat, base: set<nat>, owner: map<nat, Holder>)
    requires Owned(s, base, owner, limit) && s.free != {}
    requires free == s.Taken().free + ({s.NextFrame()} * Interval(0, limit))
    ensures free == s.free
  {
    assert Min(s.free) in Interval(0, limit);
  }

  lemma RoundDone(s: Space, base: set<nat>, owner: map<nat, Holder>, limit: nat, j: nat)
    requires Ready(s, base, owner, limit) && j < ENTRIES && !s.Mapped(TEST_TABLE, j)
    ensures var m := s.Back(TEST_TABLE, j, READ_WRITE).0;
      && m.Typed() && m.Mapped(TEST_TABLE, j)
      && var n := m.Unmap(TEST_TABLE, j, limit);
      && Ready(n, base, OwnerAfterBack(s, owner, TEST_TABLE, j) - {Min(s.free)}, limit)
      && n.NextFrame() == Min(s.free) && RoundKeeps(s, n) && n.HasTable(TEST_TABLE)
  {
    ReadyAgain(s, base, owner, limit, j, READ_WRITE);
    MapThenUnmap(s, base, owner, limit, TEST_TABLE, j, READ_WRITE);
    var n := s.Back(TEST_TABLE, j, READ_WRITE).0.Unmap(TEST_TABLE, j, limit);
    AllPagesKept(s, n, j);
    assert s.free <= n.free + {s.Taken().NextFrame()};
    assert !s.HasTable(TEST_TABLE) ==> n.free == s.free - {s.Taken().NextFrame()};
  }

  /**
   * memory_test: from every state in which each frame has one holder, it passes if there is a frame
   * for a page, and one more for the table if that is missing. It leaves every translation as it
   * was, and the whole state if the table was there.
   */
  method MemoryTest(space: AddressSpace) returns (passed: bool)
    requires space.Valid() && !space.starved
    requires space.State().free != {} && !Starves(space.State(), TEST_TABLE)
    modifies space`ram, space`owner, space.pmm.words
    ensures passed && space.Valid() && RoundKeeps(old(space.State()), space.State()) && space.State().HasTable(1)
  {
    hide Owned, Starves, FrameAllocator.Free, AddressSpace.State;
    ghost var s := space.State();
    var va: u32 := START_ADDR;
    while va < END_ADDR
      invariant START_ADDR <= va <= END_ADDR && space.Walkable() && !space.starved
      invariant Ready(space.State(), space.base, space.owner, space.pmm.size)
      invariant RoundKeeps(s, space.State()) && (va > START_ADDR ==> space.State().HasTable(1))
    {
      ghost var n := space.State();
      var ok := TestAddress(space, va);
      RoundsKeep(s, n, space.State());
      if !ok {
        return false;
      }
      va := va + 1;
    }
    passed := true;
  }

  lemma RoundsKeep(s: Space, n: Space, m: Space)
    requires s.Typed() && n.Typed() && m.Typed() && RoundKeeps(s, n) && RoundKeeps(n, m)
    ensures RoundKeeps(s, m)
  {
    SamePages(s, n, m);
  }

  // ----- when the frames run out -----

  /** One round of the loop from any state, null pointers included. */
  ghost function TestRound(s: Space, j: nat, limit: nat): Space
    requires s.Sane() && j < ENTRIES
  {
    TakenSane(s);
    MapKeepsSane(s.Taken(), TEST_TABLE, j, s.NextFrame() * PAGE_SIZE, READ_WRITE);
    var p := s.NextFrame();
    var (m, added) := s.Taken().Map(TEST_TABLE, j, p * PAGE_SIZE, READ_WRITE);
    if !added then Freed(m, p, limit)
    else
      var n := m.Unmap(TEST_TABLE, j, limit);
      if n.NextFrame() != p then n.Taken() else Freed(n.Taken(), p, limit)
  }

  /** free_block */
  ghost function Freed(s: Space, p: nat, limit: nat): Space {
    s.(free := s.free + ({p} * Interval(0, limit)))
  }

  /**
   * A round keeps one holder for every frame exactly when there is a frame for the page, and one for
   * the table if that is missing. Without a frame for the page the round frees block 0.
   */
  lemma RoundOwnedIff(s: Space, base: set<nat>, limit: nat, j: nat)
    requires IsOwned(s, base, limit) && j < ENTRIES
    ensures s.Sane()
    ensures IsOwned(TestRound(s, j, limit), base, limit) <==> s.free != {} && !Starves(s, TEST_TABLE)
    ensures s.free == {} ==> 0 in TestRound(s, j, limit).free
  {
    hide Owned, Space.Back, Space.Map, OwnerAfterBack;
    var owner :| Owned(s, base, owner, limit);
    OwnedFacts(s, base, owner, limit);
    if s.free == {} {
      RoundFreesNull(s, j, limit);
      NullFrameNotOwned(TestRound(s, j, limit), base, limit);
    } else if Starves(s, TEST_TABLE) {
      RoundStarves(s, j, limit);
      forall o
        ensures !Owned(TestRound(s, j, limit), base, o, limit)
      {
        NullTableNotOwned(TestRound(s, j, limit), base, o, limit, TEST_TABLE);
      }
    } else {
      RoundRestores(s, base, owner, limit, j);
    }
  }

  lemma OwnedFacts(s: Space, base: set<nat>, owner: map<nat, Holder>, limit: nat)
    requires Owned(s, base, owner, limit)
    ensures s.Sane() && limit > 0
  {
    assert 0 in Interval(0, limit);
  }

  lemma NullFrameNotOwned(s: Space, base: set<nat>, limit: nat)
    requires 0 in s.free
    ensures !IsOwned(s, base, limit)
  {
  }

  lemma RoundFreesNull(s: Space, j: nat, limit: nat)
    requires s.Sane() && j < ENTRIES && limit > 0 && s.free == {}
    ensures 0 in TestRound(s, j, limit).free
  {
    TakenSane(s);
    var t := s.Taken();
    assert 0 in Interval(0, limit);
    if !s.HasTable(TEST_TABLE) { AddTableEffect(t, TEST_TABLE, 0); }
    if !t.WithTable(TEST_TABLE).Mapped(TEST_TABLE, j) {
      SetPageEffect(t.WithTable(TEST_TABLE), TEST_TABLE, j, 0, READ_WRITE);
      var n := t.Map(TEST_TABLE, j, 0, READ_WRITE).0.Unmap(TEST_TABLE, j, limit);
      assert n.free == {0};
    }
  }

  lemma RoundStarves(s: Space, j: nat, limit: nat)
    requires s.Sane() && j < ENTRIES && Starves(s, TEST_TABLE)
    ensures var n := TestRound(s, j, limit); n.Typed() && n.HasTable(TEST_TABLE) && n.Table(TEST_TABLE) == 0
  {
    TakenSane(s);
    var (t, p) := (s.Taken(), s.NextFrame());
    AddTableEffect(t, TEST_TABLE, 0);
    SetPageEffect(t.AddTable(TEST_TABLE, 0), TEST_TABLE, j, p * PAGE_SIZE, READ_WRITE);
    var m := t.Map(TEST_TABLE, j, p * PAGE_SIZE, READ_WRITE).0;
    assert m.Mapped(TEST_TABLE, j) && m.Target(TEST_TABLE, j) == p;
    var n := m.Unmap(TEST_TABLE, j, limit);
    assert n.Pde(TEST_TABLE) == m.Pde(TEST_TABLE);
  }

  lemma RoundRestores(s: Space, base: set<nat>, owner: map<nat, Holder>, limit: nat, j: nat)
    requires Ready(s, base, owner, limit) && j < ENTRIES
    ensures IsOwned(TestRound(s, j, limit), base, limit)
  {
    hide Owned, Space.Back, Space.Map, OwnerAfterBack, Starves;
    OwnedFacts(s, base, owner, limit);
    TakenMap(s, j, READ_WRITE);
    if s.Mapped(TEST_TABLE, j) {
      GivenBack(s, Freed(s.Taken(), s.NextFrame(), limit).free, limit, base, owner);
      assert TestRound(s, j, limit) == s;
    } else {
      RoundDone(s, base, owner, limit, j);
      var n := s.Back(TEST_TABLE, j, READ_WRITE).0.Unmap(TEST_TABLE, j, limit);
      var o := OwnerAfterBack(s, owner, TEST_TABLE, j) - {Min(s.free)};
      GivenBack(n, Freed(n.Taken(), n.NextFrame(), limit).free, limit, base, o);
      assert TestRound(s, j, limit) == n;
    }
  }
}
