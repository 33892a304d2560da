/** What map_address, unmap_address and the allocation loops promise about the address space. */
module PagingTheorems {
  import opened Machine
  import opened PageTables
  import opened SpaceModel
  import opened Ownership

  // ----- one call of map_address -----

  /** Every page outside the self-map window, other than (i, j), translates as before. */
  ghost predicate OtherPagesKept(s: Space, n: Space, i: nat, j: nat)
    requires s.Typed() && n.Typed()
  {
    forall k: nat, l: nat :: k < SELF && l < ENTRIES && (k != i || l != j) ==>
      (n.Mapped(k, l) <==> s.Mapped(k, l)) && (s.Mapped(k, l) ==> n.Pte(k, l) == s.Pte(k, l))
  }

  /** The table behind entry i is the table of no other entry outside the window. */
  ghost predicate TableApart(s: Space, i: nat)
    requires s.Typed() && i < ENTRIES
  {
    forall k: nat :: k < SELF && k != i && s.HasTable(k) ==> s.Table(k) != s.Table(i)
  }

  /** Neither a free frame nor frame 0 is a table. */
  lemma NoTable(s: Space, base: set<nat>, owner: map<nat, Holder>, limit: nat, t: nat)
    requires Owned(s, base, owner, limit) && (t in s.free || t == 0)
    ensures forall k: nat :: k < SELF && s.HasTable(k) ==> s.Table(k) != t
  {
    forall k: nat | k < SELF && s.HasTable(k)
      ensures s.Table(k) != t
    {
      if Dynamic(k) { assert s.Table(k) in owner.Keys; } else { assert s.Table(k) in base; }
    }
  }

  lemma AddTableKeepsPages(s: Space, base: set<nat>, owner: map<nat, Holder>, limit: nat, i: nat, t: nat)
    requires Owned(s, base, owner, limit) && Dynamic(i) && !s.HasTable(i) && (t in s.free || t == 0)
    ensures forall j :: 0 <= j < ENTRIES ==> OtherPagesKept(s, s.AddTable(i, t), i, j)
    ensures forall j :: 0 <= j < ENTRIES ==> !s.AddTable(i, t).Mapped(i, j)
    ensures TableApart(s.AddTable(i, t), i)
  {
    AddTableEffect(s, i, t);
    NoTable(s, base, owner, limit, t);
    var n := s.AddTable(i, t);
    forall k: nat | k < SELF && k != i && n.HasTable(k)
      ensures n.Table(k) != n.Table(i)
    {
      assert s.HasTable(k);
    }
  }

  lemma SetPageKeepsPages(s: Space, i: nat, j: nat, phys: u32, flags: u32)
    requires s.Sane() && i < SELF && s.HasTable(i) && j < ENTRIES && TableApart(s, i)
    ensures OtherPagesKept(s, s.SetPage(i, j, phys, flags), i, j)
  {
    SetPageEffect(s, i, j, phys, flags);
    var n := s.SetPage(i, j, phys, flags);
    forall k: nat, l: nat | k < SELF && l < ENTRIES && (k != i || l != j)
      ensures (n.Mapped(k, l) <==> s.Mapped(k, l)) && (s.Mapped(k, l) ==> n.Pte(k, l) == s.Pte(k, l))
    {
      if k != i && s.HasTable(k) { assert n.ram[s.Table(k)] == s.ram[s.Table(k)]; }
    }
  }

  lemma OwnTablesApart(s: Space, base: set<nat>, owner: map<nat, Holder>, limit: nat, i: nat)
    requires Owned(s, base, owner, limit) && Dynamic(i) && s.HasTable(i)
    ensures TableApart(s, i)
  {
    forall k: nat | k < SELF && k != i && s.HasTable(k)
      ensures s.Table(k) != s.Table(i)
    {
      TablesDiffer(s, base, owner, limit, i, k);
    }
  }

  /**
   * map_address adds exactly one binding, with any flags and also when it takes the null pointer for a
   * missing table. It answers false, and changes nothing, exactly when the page is mapped; otherwise
   * the page's entry is the address, the flags and the present bit, a missing table is added with a
   * present and writable directory entry, and every other page translates as before.
   */
  lemma MapAddsOneBinding(s: Space, base: set<nat>, owner: map<nat, Holder>, limit: nat,
                          i: nat, j: nat, phys: u32, flags: u32)
    requires Owned(s, base, owner, limit) && i < SELF && j < ENTRIES
    ensures var (n, added) := s.Map(i, j, phys, flags);
      && (added <==> !s.Mapped(i, j))
      && (!added ==> n == s)
      && (added ==> n.Mapped(i, j) && n.Pte(i, j) == MakeEntry(0, phys, WithPresent(flags)))
      && (added && flags < 4096 ==> n.Pte(i, j) == phys / PAGE_SIZE * PAGE_SIZE + flags + 1 - flags % 2)
      && n.HasTable(i) && n.Pde(i) == (if s.HasTable(i) then s.Pde(i) else s.NextFrame() * PAGE_SIZE + 3)
      && (forall k: nat :: k < ENTRIES && k != i ==> n.Pde(k) == s.Pde(k))
      && n.dir == s.dir && OtherPagesKept(s, n, i, j)
  {
    if s.Mapped(i, j) { return; }
    assert Dynamic(i);
    var m := s.WithTable(i);
    TableAdded(s, i);
    if !s.HasTable(i) {
      AddTableKeepsPages(s, base, owner, limit, i, s.NextFrame());
      AddTableEffect(s, i, s.NextFrame());
    } else {
      OwnTablesApart(s, base, owner, limit, i);
    }
    SetPageKeepsPages(m, i, j, phys, flags);
    SetPageEffect(m, i, j, phys, flags);
    assert m.Pte(i, j) == 0;
    if flags < 4096 { EntryFields(0, phys, WithPresent(flags)); }
    KeptTwice(s, m, m.SetPage(i, j, phys, flags), i, j);
  }

  lemma KeptTwice(s: Space, m: Space, n: Space, i: nat, j: nat)
    requires s.Typed() && m.Typed() && n.Typed()
    requires OtherPagesKept(s, m, i, j) && OtherPagesKept(m, n, i, j)
    ensures OtherPagesKept(s, n, i, j)
  {
    forall k: nat, l: nat | k < SELF && l < ENTRIES && (k != i || l != j)
      ensures (n.Mapped(k, l) <==> s.Mapped(k, l)) && (s.Mapped(k, l) ==> n.Pte(k, l) == s.Pte(k, l))
    {
      assert m.Mapped(k, l) <==> s.Mapped(k, l);
    }
  }

  /** The same, said about the processor's walk of any two virtual addresses. */
  lemma KeptWalks(s: Space, n: Space, i: nat, j: nat, va: u32)
    requires s.Typed() && n.Typed() && OtherPagesKept(s, n, i, j)
    requires PdIndex(va) != SELF && (PdIndex(va) != i || PtIndex(va) != j)
    ensures Walk(n.ram, n.dir, va) == Walk(s.ram, s.dir, va)
  {
    assert n.Mapped(PdIndex(va), PtIndex(va)) <==> s.Mapped(PdIndex(va), PtIndex(va));
  }

  // ----- the loop bodies of vmm_alloc and ksbrk -----

  /**
   * The one case the loops do not check for: the page table is missing and the frame just taken
   * was the last, so map_address takes the null pointer for a table.
   */
  ghost predicate Starves(s: Space, i: nat)
    requires s.Typed() && i < SELF
  {
    !s.HasTable(i) && s.free != {} && s.free - {Min(s.free)} == {}
  }

  ghost function OwnerAfterBack(s: Space, owner: map<nat, Holder>, i: nat, j: nat): map<nat, Holder>
    requires s.Sane() && i < SELF && j < ENTRIES
  {
    if s.free == {} || s.Mapped(i, j) then owner
    else
      var p := Min(s.free);
      if s.HasTable(i) then owner[p := PageOf(i, j)]
      else owner[s.Taken().NextFrame() := TableOf(i)][p := PageOf(i, j)]
  }

  /** One round of the loops keeps the ownership of frames exactly when it does not starve. */
  lemma BackOwnedIff(s: Space, base: set<nat>, owner: map<nat, Holder>, limit: nat,
                     i: nat, j: nat, flags: PageFlags)
    requires Owned(s, base, owner, limit) && i < SELF && j < ENTRIES
    ensures var n := s.Back(i, j, flags).0;
      if Starves(s, i) then forall o :: !Owned(n, base, o, limit)
      else Owned(n, base, OwnerAfterBack(s, owner, i, j), limit)
  {
    if s.free != {} {
      var p := Min(s.free);
      TakenSane(s);
      if s.Mapped(i, j) {
        assert s.Taken().free + {p} == s.free;
        assert s.Back(i, j, flags).0 == s;
      } else if s.HasTable(i) {
        SetPageOwned(s, base, owner, limit, i, j, p, flags);
        assert s.Back(i, j, flags).0 == s.SetPage(i, j, p * PAGE_SIZE, flags).(free := s.free - {p});
      } else if Starves(s, i) {
        StarvedTable(s, i, j, flags);
        forall o
          ensures !Owned(s.Back(i, j, flags).0, base, o, limit)
        {
          NullTableNotOwned(s.Back(i, j, flags).0, base, o, limit, i);
        }
      } else {
        var t := s.Taken().NextFrame();
        assert t in s.free && t != p;
        AddTableOwned(s, base, owner, limit, i, t);
        AddTableEffect(s, i, t);
        var o := owner[t := TableOf(i)];
        var m := s.AddTable(i, t);
        SetPageOwned(m, base, o, limit, i, j, p, flags);
        TwoFrames(s, i, j, t, p, flags);
      }
    }
  }

  /** Flags above the flag bits put another frame than the one taken behind the page. */
  ghost predicate Spills(s: Space, i: nat, j: nat, flags: u32)
    requires s.Sane() && i < SELF && j < ENTRIES
  {
    s.free != {} && !s.Mapped(i, j) && !KeepsFrame(Min(s.free), flags)
  }

  /** For all 32 bits of flags, a round keeps the ownership of frames exactly when it neither starves nor spills. */
  lemma BackFlagsOwnedIff(s: Space, base: set<nat>, owner: map<nat, Holder>, limit: nat, i: nat, j: nat, flags: u32)
    requires Owned(s, base, owner, limit) && i < SELF && j < ENTRIES
    ensures IsOwned(s.Back(i, j, flags).0, base, limit) <==> !Starves(s, i) && !Spills(s, i, j, flags)
  {
    hide KeepsFrame;
    if Starves(s, i) {
      StarvedTable(s, i, j, flags);
      forall o
        ensures !Owned(s.Back(i, j, flags).0, base, o, limit)
      {
        NullTableNotOwned(s.Back(i, j, flags).0, base, o, limit, i);
      }
    } else if Spills(s, i, j, flags) {
      forall o
        ensures !Owned(s.Back(i, j, flags).0, base, o, limit)
      {
        SpilledNotOwned(s, base, owner, limit, i, j, flags, o);
      }
    } else {
      BackOwnedIff(s, base, owner, limit, i, j, flags % 4096);
      SameFlags(s, base, owner, limit, i, j, flags);
    }
  }

  lemma SameFlags(s: Space, base: set<nat>, owner: map<nat, Holder>, limit: nat, i: nat, j: nat, flags: u32)
    requires Owned(s, base, owner, limit) && i < SELF && j < ENTRIES
    requires !Starves(s, i) && !Spills(s, i, j, flags)
    ensures s.Back(i, j, flags) == s.Back(i, j, flags % 4096)
  {
    hide MakeEntry, KeepsFrame;
    if s.free != {} && !s.Mapped(i, j) {
      var p := Min(s.free);
      KeptFrameFlags(p, flags);
      TakenSane(s);
      if !s.HasTable(i) {
        AddTableEffect(s.Taken(), i, s.Taken().NextFrame());
      } else {
        assert Dynamic(i) && s.Pte(i, j) == 0;
      }
    }
  }

  /** The frame that was taken is then neither free nor held by anything. */
  lemma SpilledNotOwned(s: Space, base: set<nat>, owner: map<nat, Holder>, limit: nat, i: nat, j: nat, flags: u32,
                        o: map<nat, Holder>)
    requires Owned(s, base, owner, limit) && i < SELF && j < ENTRIES
    requires !Starves(s, i) && Spills(s, i, j, flags)
    ensures !Owned(s.Back(i, j, flags).0, base, o, limit)
  {
    hide Space.Back, KeepsFrame, PagesHeld, TablesHeld, Clean, StaticTables;
    var p, n := Min(s.free), s.Back(i, j, flags).0;
    SpilledPages(s, base, owner, limit, i, j, flags);
    assert p in Interval(0, limit) && p !in base;
  }

  lemma SpilledPages(s: Space, base: set<nat>, owner: map<nat, Holder>, limit: nat, i: nat, j: nat, flags: u32)
    requires Owned(s, base, owner, limit) && i < SELF && j < ENTRIES
    requires !Starves(s, i) && Spills(s, i, j, flags)
    ensures var (n, p) := (s.Back(i, j, flags).0, Min(s.free));
      && n.Typed() && p !in n.free && forall h :: !Holds(n, p, h)
  {
    hide MakeEntry;
    var p, m := Min(s.free), s.Taken().WithTable(i);
    TakenTable(s, base, owner, limit, i, j);
    SetPageKeepsPages(m, i, j, p * PAGE_SIZE, flags);
    SetPageEffect(m, i, j, p * PAGE_SIZE, flags);
    var n := m.SetPage(i, j, p * PAGE_SIZE, flags);
    KeptTwice(s, m, n, i, j);
    forall h
      ensures !Holds(n, p, h)
    {
      if h.PageOf? && Dynamic(h.i) && h.j < ENTRIES && s.Mapped(h.i, h.j) { assert s.Target(h.i, h.j) in owner.Keys; }
    }
  }

  /** Taking the frame for a page, and then one for its table if that is missing, leaves the page to be added. */
  lemma TakenTable(s: Space, base: set<nat>, owner: map<nat, Holder>, limit: nat, i: nat, j: nat)
    requires Owned(s, base, owner, limit) && i < SELF && j < ENTRIES
    requires s.free != {} && !Starves(s, i) && !s.Mapped(i, j)
    ensures var (m, p) := (s.Taken().WithTable(i), Min(s.free));
      && s.Taken().Sane() && m.Sane() && m.HasTable(i) && m.Pte(i, j) == 0 && TableApart(m, i)
      && OtherPagesKept(s, m, i, j) && !m.Mapped(i, j) && p !in m.free
      && forall k: nat :: k < SELF && m.HasTable(k) ==> m.Table(k) != p
  {
    var p, t := Min(s.free), s.Taken();
    TakenSane(s);
    assert Dynamic(i);
    NoTable(s, base, owner, limit, p);
    if !s.HasTable(i) {
      var f := t.NextFrame();
      assert f in s.free && f != p;
      AddTableKeepsPages(s, base, owner, limit, i, f);
      AddTableEffect(s, i, f);
      AddTableEffect(t, i, f);
      var (a, m) := (s.AddTable(i, f), t.WithTable(i));
      PagesOfRam(s, a, m, i, j);
      forall k: nat | k < SELF && m.HasTable(k)
        ensures m.Table(k) != p
        ensures k != i ==> m.Table(k) != m.Table(i)
      {
        assert a.HasTable(k) && (k != i ==> s.HasTable(k));
      }
    } else {
      OwnTablesApart(s, base, owner, limit, i);
      forall k: nat | k < SELF && t.HasTable(k)
        ensures t.Table(k) != p
        ensures k != i ==> t.Table(k) != t.Table(i)
      {
        assert s.HasTable(k);
      }
    }
  }

  /** Taking the page's frame before or after the table's makes no difference. */
  lemma TwoFrames(s: Space, i: nat, j: nat, t: nat, p: nat, flags: PageFlags)
    requires s.Sane() && i < SELF && j < ENTRIES && !s.HasTable(i) && s.free != {}
    requires p == Min(s.free) && t == s.Taken().NextFrame() && t in s.free && t != p
    ensures s.AddTable(i, t).HasTable(i) && !s.AddTable(i, t).Mapped(i, j)
    ensures var n := s.AddTable(i, t).SetPage(i, j, p * PAGE_SIZE, flags);
            s.Back(i, j, flags) == (n.(free := n.free - {p}), true)
  {
    TakenSane(s);
    AddTableEffect(s, i, t);
    AddTableEffect(s.Taken(), i, t);
    var m := s.Taken().AddTable(i, t);
    assert m.ram == s.AddTable(i, t).ram;
    assert s.free - {p} - {t} == s.free - {t} - {p};
    assert m.Pte(i, j) == 0;
  }

  lemma NullTableNotOwned(s: Space, base: set<nat>, owner: map<nat, Holder>, limit: nat, i: nat)
    requires s.Typed() && Dynamic(i) && s.HasTable(i) && s.Table(i) == 0
    ensures !Owned(s, base, owner, limit)
  {
    if TablesHeld(s, owner) { assert 0 in owner.Keys; }
  }

  lemma StarvedTable(s: Space, i: nat, j: nat, flags: u32)
    requires s.Sane() && i < SELF && j < ENTRIES && Starves(s, i)
    ensures var n := s.Back(i, j, flags).0; n.Typed() && n.HasTable(i) && n.Table(i) == 0 && n.free == {}
  {
    TakenSane(s);
    AddTableEffect(s.Taken(), i, 0);
    SetPageEffect(s.Taken().AddTable(i, 0), i, j, Min(s.free) * PAGE_SIZE, flags);
  }

  /** A round that does not starve keeps every page mapped, and maps the page it is about. */
  lemma BackKeepsMapped(s: Space, base: set<nat>, owner: map<nat, Holder>, limit: nat,
                        i: nat, j: nat, flags: PageFlags)
    requires Owned(s, base, owner, limit) && i < SELF && j < ENTRIES && !Starves(s, i)
    ensures var (n, ok) := s.Back(i, j, flags);
      && n.Typed() && (ok <==> s.free != {}) && (ok ==> n.Mapped(i, j))
      && (ok && !s.Mapped(i, j) ==> n.Pte(i, j) == Min(s.free) * PAGE_SIZE + flags + 1 - flags % 2)
      && (s.Mapped(i, j) ==> n == s) && OtherPagesKept(s, n, i, j)
  {
    hide MakeEntry, WithPresent, TablesHeld, PagesHeld, StaticTables, Holds, Clean;
    if s.free != {} {
      var p, m := Min(s.free), s.Taken().WithTable(i);
      TakenSane(s);
      if s.Mapped(i, j) {
        assert s.Taken().free + {p} == s.free;
      } else {
        TakenTable(s, base, owner, limit, i, j);
        SetPageKeepsPages(m, i, j, p * PAGE_SIZE, flags);
        SetPageEffect(m, i, j, p * PAGE_SIZE, flags);
        EntryFields(0, p * PAGE_SIZE, WithPresent(flags));
        KeptTwice(s, m, m.SetPage(i, j, p * PAGE_SIZE, flags), i, j);
      }
    }
  }

  lemma PagesOfRam(s: Space, m: Space, n: Space, i: nat, j: nat)
    requires s.Typed() && m.Typed() && n.Typed() && n.ram == m.ram && n.dir == m.dir
    requires OtherPagesKept(s, m, i, j)
    ensures OtherPagesKept(s, n, i, j)
  {
    forall k: nat, l: nat | k < SELF && l < ENTRIES && (k != i || l != j)
      ensures (n.Mapped(k, l) <==> s.Mapped(k, l)) && (s.Mapped(k, l) ==> n.Pte(k, l) == s.Pte(k, l))
    {
      assert m.Mapped(k, l) <==> s.Mapped(k, l);
    }
  }

  // ----- writing -----

  /** A page mapped since boot can be written exactly when its own entry says so: its directory entry does. */
  lemma WritesIff(s: Space, base: set<nat>, owner: map<nat, Holder>, limit: nat, va: u32)
    requires Owned(s, base, owner, limit) && Dynamic(PdIndex(va)) && s.Mapped(PdIndex(va), PtIndex(va))
    ensures Writes(s.ram, s.dir, va) <==> Writable(s.Pte(PdIndex(va), PtIndex(va)))
  {
    assert s.Pde(PdIndex(va)) == s.Table(PdIndex(va)) * PAGE_SIZE + 3;
  }

  /** In particular a page that a round of the loops maps with the writable bit, also behind a new table. */
  lemma BackWrites(s: Space, base: set<nat>, owner: map<nat, Holder>, limit: nat, va: u32, flags: PageFlags)
    requires Owned(s, base, owner, limit) && PdIndex(va) < SELF && !s.Mapped(PdIndex(va), PtIndex(va))
    requires s.free != {} && !Starves(s, PdIndex(va))
    ensures var n := s.Back(PdIndex(va), PtIndex(va), flags).0;
      && n.Typed() && n.Pde(PdIndex(va)) == n.Table(PdIndex(va)) * PAGE_SIZE + 3
      && (Writes(n.ram, n.dir, va) <==> flags / 2 % 2 == 1)
  {
    hide PdIndex, PtIndex, Space.Back, Starves, Writes, Owned, OwnerAfterBack;
    var (i, j) := (PdIndex(va), PtIndex(va));
    UnmappedIsDynamic(s, base, owner, limit, i, j);
    BackKeepsMapped(s, base, owner, limit, i, j, flags);
    BackOwnedIff(s, base, owner, limit, i, j, flags);
    WritesIff(s.Back(i, j, flags).0, base, OwnerAfterBack(s, owner, i, j), limit, va);
    EntryWrites(Min(s.free), flags);
    OwnDirectoryEntry(s.Back(i, j, flags).0, base, OwnerAfterBack(s, owner, i, j), limit, i);
  }

  lemma UnmappedIsDynamic(s: Space, base: set<nat>, owner: map<nat, Holder>, limit: nat, i: nat, j: nat)
    requires Owned(s, base, owner, limit) && i < SELF && j < ENTRIES && !s.Mapped(i, j)
    ensures s.Sane() && Dynamic(i)
  {
  }

  lemma OwnDirectoryEntry(s: Space, base: set<nat>, owner: map<nat, Holder>, limit: nat, i: nat)
    requires Owned(s, base, owner, limit) && Dynamic(i) && s.HasTable(i)
    ensures s.Pde(i) == s.Table(i) * PAGE_SIZE + 3
  {
  }

  lemma EntryWrites(p: nat, flags: PageFlags)
    requires p < FRAMES
    ensures Writable(p * PAGE_SIZE + flags + 1 - flags % 2) <==> flags / 2 % 2 == 1
  {
  }

  // ----- mapped pages are memory -----

  /**
   * A page mapped since boot has a frame in use that no other page mapped since boot has, and that is no
   * table and no baseline frame.
   */
  lemma PageHasOwnFrame(s: Space, base: set<nat>, owner: map<nat, Holder>, limit: nat, i: nat, j: nat)
    requires Owned(s, base, owner, limit) && Dynamic(i) && j < ENTRIES && s.Mapped(i, j)
    ensures var f := s.Target(i, j);
      && f < limit && f !in s.free && f !in base
      && (forall k: nat :: k < ENTRIES && s.HasTable(k) ==> s.Table(k) != f)
      && (forall k: nat, l: nat :: Dynamic(k) && l < ENTRIES && s.Mapped(k, l) && s.Target(k, l) == f ==>
            k == i && l == j)
  {
    var f := s.Target(i, j);
    assert owner[f] == PageOf(i, j);
    assert f in owner.Keys;
    forall k: nat | k < ENTRIES && s.HasTable(k)
      ensures s.Table(k) != f
    {
      if Dynamic(k) { assert owner[s.Table(k)] == TableOf(k); } else { assert s.Table(k) in base; }
    }
  }

  /** The directory and every table hold the same entries. */
  ghost predicate SameTables(s: Space, n: Space)
    requires s.Typed() && n.Typed()
  {
    n.dir == s.dir && n.ram[s.dir] == s.ram[s.dir]
    && forall k: nat :: k < ENTRIES && s.HasTable(k) ==> n.ram[s.Table(k)] == s.ram[s.Table(k)]
  }

  lemma SameTablesWalk(s: Space, n: Space, va: u32)
    requires s.Typed() && n.Typed() && SameTables(s, n)
    ensures Walk(n.ram, n.dir, va) == Walk(s.ram, s.dir, va)
  {
    if s.HasTable(PdIndex(va)) { assert n.ram[s.Table(PdIndex(va))] == s.ram[s.Table(PdIndex(va))]; }
  }

  /**
   * A store to a word of such a page changes that word alone: not the translation of any address,
   * not the ownership of any frame, and not what any other word of any such page holds. So among
   * themselves pages mapped since boot are plain memory, whatever frames lie behind them.
   */
  lemma StoreIsLocal(s: Space, base: set<nat>, owner: map<nat, Holder>, limit: nat,
                     i: nat, j: nat, w: nat, v: u32)
    requires Owned(s, base, owner, limit) && Dynamic(i) && j < ENTRIES && s.Mapped(i, j) && w < ENTRIES
    ensures var n := s.(ram := Poke(s.ram, s.Target(i, j), w, v));
      && n.Typed() && SameTables(s, n) && Owned(n, base, owner, limit)
      && n.ram[s.Target(i, j)][w] == v
      && (forall k: nat, l: nat, x: nat :: Dynamic(k) && l < ENTRIES && s.Mapped(k, l) && x < ENTRIES ==>
            (k == i && l == j && x == w) || n.ram[s.Target(k, l)][x] == s.ram[s.Target(k, l)][x])
  {
    var f := s.Target(i, j);
    PageHasOwnFrame(s, base, owner, limit, i, j);
    var n := s.(ram := Poke(s.ram, f, w, v));
    assert s.HasTable(SELF) && s.Table(SELF) == s.dir;
    OwnedSame(s, n, base, owner, limit);
  }

  lemma OwnedSame(s: Space, n: Space, base: set<nat>, owner: map<nat, Holder>, limit: nat)
    requires Owned(s, base, owner, limit) && n.Typed() && n.free == s.free && SameTables(s, n)
    ensures Owned(n, base, owner, limit)
  {
    assert s.HasTable(0);
    SaneFrom(s, n, 0);
    StaticSame(s, n, base, 0, 0, PRESENT);
    StaticSame(s, n, base, KERNEL, KERNEL_FRAME, 3);
    HeldSame(s, n, owner);
    forall f | f in owner
      ensures Holds(n, f, owner[f])
    {
      assert Holds(s, f, owner[f]);
      assert s.HasTable(owner[f].i);
    }
  }

  lemma HeldSame(s: Space, n: Space, owner: map<nat, Holder>)
    requires s.Typed() && n.Typed() && SameTables(s, n)
    requires TablesHeld(s, owner) && PagesHeld(s, owner) && Clean(s)
    ensures TablesHeld(n, owner) && PagesHeld(n, owner) && Clean(n)
  {
    forall k: nat | Dynamic(k) && n.HasTable(k)
      ensures s.HasTable(k) && n.Table(k) == s.Table(k)
    {
      assert n.Pde(k) == s.Pde(k);
    }
    forall k: nat, l: nat | Dynamic(k) && l < ENTRIES && n.HasTable(k)
      ensures n.Mapped(k, l) <==> s.Mapped(k, l)
      ensures n.Pte(k, l) == s.Pte(k, l)
    {
      assert s.HasTable(k);
    }
  }

  lemma StaticSame(s: Space, n: Space, base: set<nat>, k: nat, first: nat, flags: PageFlags)
    requires s.Typed() && n.Typed() && k < ENTRIES && StaticTable(s, base, k, first, flags) && SameTables(s, n)
    ensures StaticTable(n, base, k, first, flags)
  {
    assert s.HasTable(k) && n.Pde(k) == s.Pde(k);
    forall l | 0 <= l < ENTRIES
      ensures n.Mapped(k, l) && n.Pte(k, l) == s.Pte(k, l)
    {
      assert s.Mapped(k, l);
    }
  }

  // ----- all runs -----

  datatype Op = BackPage(i: nat, j: nat, flags: PageFlags) | UnmapPage(i: nat, j: nat)

  /** Pages are backed outside the self-map window; only pages mapped since boot are unmapped. */
  predicate Allowed(op: Op) {
    op.j < ENTRIES && if op.BackPage? then op.i < SELF else Dynamic(op.i)
  }

  ghost function Step(s: Space, op: Op, limit: nat): Space
    requires Allowed(op)
  {
    if !s.Sane() then s
    else match op
      case BackPage(i, j, flags) => s.Back(i, j, flags).0
      case UnmapPage(i, j) => s.Unmap(i, j, limit)
  }

  ghost function Run(s: Space, ops: seq<Op>, limit: nat): Space
    requires forall k :: 0 <= k < |ops| ==> Allowed(ops[k])
  {
    if ops == [] then s else Step(Run(s, ops[..|ops| - 1], limit), ops[|ops| - 1], limit)
  }

  ghost predicate IsOwned(s: Space, base: set<nat>, limit: nat) {
    exists o :: Owned(s, base, o, limit)
  }

  ghost predicate StepStarves(s: Space, op: Op)
    requires Allowed(op)
  {
    s.Sane() && op.BackPage? && Starves(s, op.i)
  }

  lemma StepOwnedIff(s: Space, base: set<nat>, limit: nat, op: Op)
    requires IsOwned(s, base, limit) && Allowed(op)
    ensures IsOwned(Step(s, op, limit), base, limit) <==> !StepStarves(s, op)
  {
    var owner :| Owned(s, base, owner, limit);
    match op
    case BackPage(i, j, flags) =>
      BackOwnedIff(s, base, owner, limit, i, j, flags);
    case UnmapPage(i, j) =>
      if s.Mapped(i, j) { UnmapOwned(s, base, owner, limit, i, j); }
  }

  /** Every state that the run passes through is owned. */
  ghost predicate OwnedThroughout(s: Space, base: set<nat>, limit: nat, ops: seq<Op>)
    requires forall k :: 0 <= k < |ops| ==> Allowed(ops[k])
  {
    IsOwned(Run(s, ops, limit), base, limit)
    && (ops != [] ==> OwnedThroughout(s, base, limit, ops[..|ops| - 1]))
  }

  ghost predicate NeverStarves(s: Space, limit: nat, ops: seq<Op>)
    requires forall k :: 0 <= k < |ops| ==> Allowed(ops[k])
  {
    ops != [] ==>
      var front := ops[..|ops| - 1];
      NeverStarves(s, limit, front) && !StepStarves(Run(s, front, limit), ops[|ops| - 1])
  }

  /**
   * Over every run, each frame in use has exactly one holder in every state, so none leaks and none
   * is shared, exactly when no step of the run starves.
   */
  lemma {:induction false} OwnedOverRunsIff(s: Space, base: set<nat>, limit: nat, ops: seq<Op>)
    requires IsOwned(s, base, limit)
    requires forall k :: 0 <= k < |ops| ==> Allowed(ops[k])
    ensures OwnedThroughout(s, base, limit, ops) <==> NeverStarves(s, limit, ops)
    decreases |ops|
  {
    hide IsOwned, StepStarves, Step;
    if ops != [] {
      var front := ops[..|ops| - 1];
      OwnedOverRunsIff(s, base, limit, front);
      if IsOwned(Run(s, front, limit), base, limit) {
        StepOwnedIff(Run(s, front, limit), base, limit, ops[|ops| - 1]);
      }
    }
  }

  // ----- memory_test -----

  /**
   * memory_test, for every state and every unmapped page: taking a frame, mapping it and unmapping
   * the page again makes the allocator return the same frame, every translation is as before, and
   * no frame is gone but the one that holds a table that was missing.
   */
  lemma MapThenUnmap(s: Space, base: set<nat>, owner: map<nat, Holder>, limit: nat,
                     i: nat, j: nat, flags: PageFlags)
    requires Owned(s, base, owner, limit) && Dynamic(i) && j < ENTRIES
    requires s.free != {} && !s.Mapped(i, j) && !Starves(s, i)
    ensures var m := s.Back(i, j, flags).0;
      && m.Typed() && m.Mapped(i, j) && m.Target(i, j) == Min(s.free)
      && var n := m.Unmap(i, j, limit);
      && n.Typed() && n.free != {} && n.NextFrame() == Min(s.free)
      && (if s.HasTable(i) then n == s else n.free == s.free - {s.Taken().NextFrame()})
      && !n.Mapped(i, j) && OtherPagesKept(s, n, i, j)
  {
    var p := Min(s.free);
    if s.HasTable(i) {
      TakenSane(s);
      SetPageOwned(s, base, owner, limit, i, j, p, flags);
      UnmapOldTable(s, base, owner, limit, i, j, p, flags);
      assert s.Back(i, j, flags).0 == s.SetPage(i, j, p * PAGE_SIZE, flags).(free := s.free - {p});
    } else {
      var t := s.Taken().NextFrame();
      TwoFrames(s, i, j, t, p, flags);
      AddTableOwned(s, base, owner, limit, i, t);
      AddTableEffect(s, i, t);
      AddTableKeepsPages(s, base, owner, limit, i, t);
      var a := s.AddTable(i, t);
      UnmapOldTable(a, base, owner[t := TableOf(i)], limit, i, j, p, flags);
      assert s.Back(i, j, flags).0 == a.SetPage(i, j, p * PAGE_SIZE, flags).(free := a.free - {p});
    }
  }

  /** With the table present, mapping a page and unmapping it is the identity on the whole state. */
  lemma UnmapOldTable(s: Space, base: set<nat>, owner: map<nat, Holder>, limit: nat,
                      i: nat, j: nat, p: nat, flags: PageFlags)
    requires Owned(s, base, owner, limit) && Dynamic(i) && j < ENTRIES && s.HasTable(i)
    requires p in s.free && !s.Mapped(i, j)
    ensures var m := s.SetPage(i, j, p * PAGE_SIZE, flags).(free := s.free - {p});
      && m.Typed() && m.Mapped(i, j) && m.Target(i, j) == p && m.Unmap(i, j, limit) == s
  {
    hide MakeEntry, Holds, PagesHeld, TablesHeld, StaticTable;
    SetPageEffect(s, i, j, p * PAGE_SIZE, flags);
    SetPageOwned(s, base, owner, limit, i, j, p, flags);
    var m := s.SetPage(i, j, p * PAGE_SIZE, flags).(free := s.free - {p});
    UnmapOwned(m, base, owner[p := PageOf(i, j)], limit, i, j);
    UnmapSane(m, i, j, limit);
    var n := m.Unmap(i, j, limit);
    assert n.ram[s.Table(i)] == s.ram[s.Table(i)];
    assert n.ram == s.ram;
    assert n.free == s.free;
  }
}
