/**
 * Who holds which frame. The frames in use are the baseline frames that paging set up, the frames
 * of tables added since, and the frames behind pages mapped since; every frame has one holder.
 */
module Ownership {
  import opened Machine
  import opened PageTables
  import opened SpaceModel

  datatype Holder = TableOf(i: nat) | PageOf(i: nat, j: nat)

  /** The directory entry of the kernel image, KERNEL_VIRTUAL_ADDR >> 22. */
  const KERNEL := 768

  /** KERNEL_LOAD_ADDR, as a frame number. */
  const KERNEL_FRAME := 0x100

  /** Directory entries whose tables come and go after paging is set up. */
  predicate Dynamic(i: nat) {
    i < SELF && i != 0 && i != KERNEL
  }

  /** A static table is a baseline frame other than frame 0, and maps 4 MB of frames in a row. */
  ghost predicate StaticTable(s: Space, base: set<nat>, i: nat, first: nat, flags: PageFlags)
    requires s.Typed() && i < ENTRIES
  {
    && s.HasTable(i) && s.Table(i) in base && s.Table(i) != 0
    && forall j :: 0 <= j < ENTRIES ==> s.Mapped(i, j) && s.Pte(i, j) == (first + j) * PAGE_SIZE + flags
  }

  /** The first 4 MB at their own addresses, and the kernel's 4 MB from its load address. */
  ghost predicate StaticTables(s: Space, base: set<nat>)
    requires s.Typed()
  {
    StaticTable(s, base, 0, 0, PRESENT) && StaticTable(s, base, KERNEL, KERNEL_FRAME, 3)
  }

  ghost predicate Accounts(s: Space, base: set<nat>, held: set<nat>, limit: nat) {
    && limit <= FRAMES && 0 in base && s.dir in base
    && base !! held && s.free !! base && s.free !! held
    && s.free + base + held == Interval(0, limit)
  }

  /** Every table has its holder, and a directory entry that is present and writable and says no more. */
  ghost predicate TablesHeld(s: Space, owner: map<nat, Holder>)
    requires s.Typed()
  {
    forall i: nat :: Dynamic(i) && s.HasTable(i) ==>
      s.Table(i) in owner && owner[s.Table(i)] == TableOf(i) && s.Pde(i) == s.Table(i) * PAGE_SIZE + 3
  }

  ghost predicate PagesHeld(s: Space, owner: map<nat, Holder>)
    requires s.Typed()
  {
    forall i: nat, j: nat :: Dynamic(i) && j < ENTRIES && s.Mapped(i, j) ==>
      s.Target(i, j) in owner && owner[s.Target(i, j)] == PageOf(i, j)
  }

  /** The holder really is there, and really points to frame f. */
  ghost predicate Holds(s: Space, f: nat, h: Holder)
    requires s.Typed()
  {
    match h
    case TableOf(i) => Dynamic(i) && s.HasTable(i) && s.Table(i) == f
    case PageOf(i, j) => Dynamic(i) && j < ENTRIES && s.Mapped(i, j) && s.Target(i, j) == f
  }

  /** Entries that are not present are zero. */
  ghost predicate Clean(s: Space)
    requires s.Typed()
  {
    forall i: nat, j: nat :: Dynamic(i) && j < ENTRIES && s.HasTable(i) && !s.Mapped(i, j) ==> s.Pte(i, j) == 0
  }

  ghost predicate Owned(s: Space, base: set<nat>, owner: map<nat, Holder>, limit: nat) {
    && s.Sane() && Accounts(s, base, owner.Keys, limit)
    && StaticTables(s, base)
    && TablesHeld(s, owner) && PagesHeld(s, owner)
    && (forall f :: f in owner ==> Holds(s, f, owner[f]))
    && Clean(s)
  }

  // ----- a change behind one directory entry -----

  predicate About(h: Holder, i: nat) {
    h.i == i
  }

  /** Every other directory entry keeps its table, with its contents. */
  ghost predicate OthersKept(s: Space, n: Space, i: nat)
    requires s.Typed() && n.Typed()
  {
    forall k: nat {:trigger s.HasTable(k)} {:trigger n.HasTable(k)} :: k < SELF && k != i ==>
      n.Pde(k) == s.Pde(k) && (s.HasTable(k) ==> n.ram[s.Table(k)] == s.ram[s.Table(k)])
  }

  /** The table behind entry i and its pages are held in the books o. */
  ghost predicate EntryHeld(n: Space, o: map<nat, Holder>, i: nat)
    requires n.Typed() && i < ENTRIES
  {
    && n.HasTable(i) && n.Table(i) in o && o[n.Table(i)] == TableOf(i) && n.Pde(i) == n.Table(i) * PAGE_SIZE + 3
    && forall j: nat :: j < ENTRIES ==>
         if n.Mapped(i, j) then n.Target(i, j) in o && o[n.Target(i, j)] == PageOf(i, j)
         else n.Pte(i, j) == 0
  }

  ghost predicate BooksAgree(n: Space, owner: map<nat, Holder>, o: map<nat, Holder>, i: nat)
    requires n.Typed()
  {
    && (forall f :: f in owner && !About(owner[f], i) ==> f in o && o[f] == owner[f])
    && (forall f :: f in o && !About(o[f], i) ==> f in owner && owner[f] == o[f])
    && (forall f :: f in o && About(o[f], i) ==> Holds(n, f, o[f]))
  }

  lemma OwnedFrom(s: Space, n: Space, base: set<nat>, owner: map<nat, Holder>, o: map<nat, Holder>,
                  limit: nat, i: nat)
    requires Owned(s, base, owner, limit) && Dynamic(i)
    requires n.Sane() && Accounts(n, base, o.Keys, limit)
    requires OthersKept(s, n, i) && EntryHeld(n, o, i) && BooksAgree(n, owner, o, i)
    ensures Owned(n, base, o, limit)
  {
    StaticKept(s, n, base, i, 0, 0, PRESENT);
    StaticKept(s, n, base, i, KERNEL, KERNEL_FRAME, 3);
    HeldKept(s, n, owner, o, i);
    forall f | f in o
      ensures Holds(n, f, o[f])
    {
      if !About(o[f], i) {
        assert Holds(s, f, owner[f]);
        assert s.HasTable(o[f].i);
      }
    }
  }

  lemma StaticKept(s: Space, n: Space, base: set<nat>, i: nat, k: nat, first: nat, flags: PageFlags)
    requires s.Typed() && n.Typed() && OthersKept(s, n, i)
    requires k < SELF && k != i && StaticTable(s, base, k, first, flags)
    ensures StaticTable(n, base, k, first, flags)
  {
    assert s.HasTable(k);
    forall j | 0 <= j < ENTRIES
      ensures n.Mapped(k, j) && n.Pte(k, j) == s.Pte(k, j)
    {
      assert s.Mapped(k, j);
    }
  }

  lemma HeldKept(s: Space, n: Space, owner: map<nat, Holder>, o: map<nat, Holder>, i: nat)
    requires s.Typed() && n.Typed() && TablesHeld(s, owner) && PagesHeld(s, owner) && Clean(s)
    requires i < SELF && OthersKept(s, n, i) && EntryHeld(n, o, i) && BooksAgree(n, owner, o, i)
    ensures TablesHeld(n, o) && PagesHeld(n, o) && Clean(n)
  {
    forall k: nat | Dynamic(k) && n.HasTable(k)
      ensures n.Table(k) in o && o[n.Table(k)] == TableOf(k) && n.Pde(k) == n.Table(k) * PAGE_SIZE + 3
    {
      if k != i { assert s.HasTable(k); }
    }
    forall k: nat, j: nat | Dynamic(k) && j < ENTRIES && n.HasTable(k)
      ensures n.Mapped(k, j) ==> n.Target(k, j) in o && o[n.Target(k, j)] == PageOf(k, j)
      ensures !n.Mapped(k, j) ==> n.Pte(k, j) == 0
    {
      if k != i {
        assert s.HasTable(k) && n.Pte(k, j) == s.Pte(k, j);
        assert n.Mapped(k, j) <==> s.Mapped(k, j);
      }
    }
  }

  /** Tables behind different entries are different frames. */
  lemma TablesDiffer(s: Space, base: set<nat>, owner: map<nat, Holder>, limit: nat, i: nat, k: nat)
    requires Owned(s, base, owner, limit)
    requires Dynamic(i) && k < SELF && k != i && s.HasTable(i) && s.HasTable(k)
    ensures s.Table(k) != s.Table(i)
  {
    if Dynamic(k) {
      assert owner[s.Table(k)] == TableOf(k);
    } else {
      assert s.Table(k) in base;
    }
    assert owner[s.Table(i)] == TableOf(i);
  }

  /** A change confined to the table behind entry i leaves the other entries alone. */
  lemma OthersKeptFrom(s: Space, n: Space, base: set<nat>, owner: map<nat, Holder>, limit: nat, i: nat)
    requires Owned(s, base, owner, limit) && n.Typed()
    requires Dynamic(i) && s.HasTable(i)
    requires forall k :: 0 <= k < ENTRIES ==> n.Pde(k) == s.Pde(k)
    requires forall f :: 0 <= f < FRAMES && f != s.Table(i) ==> n.ram[f] == s.ram[f]
    ensures OthersKept(s, n, i)
  {
    forall k: nat | k < SELF && k != i && s.HasTable(k)
      ensures n.ram[s.Table(k)] == s.ram[s.Table(k)]
    {
      TablesDiffer(s, base, owner, limit, i, k);
    }
  }

  // ----- the three elementary changes -----

  lemma AddTableOwned(s: Space, base: set<nat>, owner: map<nat, Holder>, limit: nat, i: nat, t: nat)
    requires Owned(s, base, owner, limit) && Dynamic(i) && !s.HasTable(i) && t in s.free
    ensures Owned(s.AddTable(i, t), base, owner[t := TableOf(i)], limit)
  {
    AddTableEffect(s, i, t);
    var n := s.AddTable(i, t);
    var o := owner[t := TableOf(i)];
    assert o.Keys == owner.Keys + {t};
    forall k: nat | k < SELF && k != i && s.HasTable(k)
      ensures n.ram[s.Table(k)] == s.ram[s.Table(k)]
    {
      assert Dynamic(k) || s.Table(k) in base;
    }
    assert BooksAgree(n, owner, o, i) by {
      forall f | f in owner
        ensures !About(owner[f], i)
      {
        assert Holds(s, f, owner[f]);
      }
    }
    OwnedFrom(s, n, base, owner, o, limit, i);
  }

  lemma SetPageOwned(s: Space, base: set<nat>, owner: map<nat, Holder>, limit: nat,
                     i: nat, j: nat, p: nat, flags: PageFlags)
    requires Owned(s, base, owner, limit) && Dynamic(i) && s.HasTable(i)
    requires j < ENTRIES && !s.Mapped(i, j) && p in s.free
    ensures var n := s.SetPage(i, j, p * PAGE_SIZE, flags);
            Owned(n.(free := n.free - {p}), base, owner[p := PageOf(i, j)], limit)
  {
    SetPageEffect(s, i, j, p * PAGE_SIZE, flags);
    var m := s.SetPage(i, j, p * PAGE_SIZE, flags);
    var n := m.(free := m.free - {p});
    SaneFrom(m, n, i);
    var o := owner[p := PageOf(i, j)];
    assert o.Keys == owner.Keys + {p};
    OthersKeptFrom(s, n, base, owner, limit, i);
    EntrySteps(s, n, owner, o, i, j, p);
    OwnedFrom(s, n, base, owner, o, limit, i);
  }

  lemma EntrySteps(s: Space, n: Space, owner: map<nat, Holder>, o: map<nat, Holder>,
                   i: nat, j: nat, p: nat)
    requires s.Typed() && n.Typed() && Dynamic(i) && j < ENTRIES
    requires p !in owner && o == owner[p := PageOf(i, j)]
    requires EntryHeld(s, owner, i) && forall f :: f in owner ==> Holds(s, f, owner[f])
    requires !s.Mapped(i, j) && n.Mapped(i, j) && n.Target(i, j) == p
    requires n.Pde(i) == s.Pde(i)
    requires forall k :: 0 <= k < ENTRIES && k != j ==> n.Pte(i, k) == s.Pte(i, k)
    ensures EntryHeld(n, o, i) && BooksAgree(n, owner, o, i)
  {
    forall k: nat | k < ENTRIES && k != j
      ensures n.Mapped(i, k) <==> s.Mapped(i, k)
    {
    }
    forall f | f in o && About(o[f], i)
      ensures Holds(n, f, o[f])
    {
      if f != p { assert Holds(s, f, owner[f]); }
    }
  }

  lemma UnmapOwned(s: Space, base: set<nat>, owner: map<nat, Holder>, limit: nat, i: nat, j: nat)
    requires Owned(s, base, owner, limit) && Dynamic(i) && j < ENTRIES && s.Mapped(i, j)
    ensures Owned(s.Unmap(i, j, limit), base, owner - {s.Target(i, j)}, limit)
    ensures s.Unmap(i, j, limit).free == s.free + {s.Target(i, j)}
  {
    var p := s.Target(i, j);
    var n := s.Unmap(i, j, limit);
    var o := owner - {p};
    assert owner[p] == PageOf(i, j);
    assert n.free == s.free + {p};
    assert o.Keys == owner.Keys - {p};
    UnmapSane(s, i, j, limit);
    OthersKeptFrom(s, n, base, owner, limit, i);
    EntryForgets(s, n, owner, o, i, j, p);
    OwnedFrom(s, n, base, owner, o, limit, i);
  }

  lemma EntryForgets(s: Space, n: Space, owner: map<nat, Holder>, o: map<nat, Holder>,
                     i: nat, j: nat, p: nat)
    requires s.Typed() && n.Typed() && Dynamic(i) && j < ENTRIES
    requires p in owner && owner[p] == PageOf(i, j) && o == owner - {p}
    requires EntryHeld(s, owner, i) && forall f :: f in owner ==> Holds(s, f, owner[f])
    requires !n.Mapped(i, j) && n.Pte(i, j) == 0 && n.Pde(i) == s.Pde(i)
    requires forall k :: 0 <= k < ENTRIES && k != j ==> n.Pte(i, k) == s.Pte(i, k)
    ensures EntryHeld(n, o, i) && BooksAgree(n, owner, o, i)
  {
    forall k: nat | k < ENTRIES && k != j
      ensures n.Mapped(i, k) <==> s.Mapped(i, k)
      ensures s.Mapped(i, k) ==> s.Target(i, k) != p
    {
    }
    forall f | f in o && About(o[f], i)
      ensures Holds(n, f, o[f])
    {
      assert Holds(s, f, owner[f]);
      assert s.Target(i, j) == p;
    }
  }

  lemma UnmapSane(s: Space, i: nat, j: nat, limit: nat)
    requires s.Sane() && i < SELF && j < ENTRIES && s.Mapped(i, j)
    requires s.Target(i, j) != 0 && s.Target(i, j) != s.dir
    ensures s.Unmap(i, j, limit).Sane()
    ensures var n := s.Unmap(i, j, limit);
      && !n.Mapped(i, j) && n.HasTable(i) && n.Pte(i, j) == 0
      && (forall k :: 0 <= k < ENTRIES ==> n.Pde(k) == s.Pde(k))
      && (forall k :: 0 <= k < ENTRIES && k != j ==> n.Pte(i, k) == s.Pte(i, k))
      && (forall f :: 0 <= f < FRAMES && f != s.Table(i) ==> n.ram[f] == s.ram[f])
  {
    var n := s.Unmap(i, j, limit);
    forall k | 0 <= k < SELF && n.HasTable(k)
      ensures n.Table(k) != n.dir
    {
      assert s.HasTable(k);
    }
    assert n.Pde(SELF) == s.Pde(SELF);
  }
}
