/**
 * The kernel's memory as one value: physical frames, the active directory, and the free frames.
 * One function per call of kernel/paging.c, and the lemmas that say what a call changes.
 */
module SpaceModel {
  import opened Machine
  import opened PageTables

  datatype Space = Space(ram: Ram, dir: nat, free: set<nat>) {
    /** The numbers in the state are frame numbers. */
    ghost predicate Typed() {
      dir < FRAMES && forall f :: f in free ==> f < FRAMES
    }

    ghost function Pde(i: nat): u32
      requires Typed() && i < ENTRIES
    {
      ram[dir][i]
    }

    ghost function Table(i: nat): nat
      requires Typed() && i < ENTRIES
    {
      Frame(Pde(i))
    }

    ghost function Pte(i: nat, j: nat): u32
      requires Typed() && i < ENTRIES && j < ENTRIES
    {
      ram[Table(i)][j]
    }

    ghost predicate HasTable(i: nat)
      requires Typed() && i < ENTRIES
    {
      Present(Pde(i))
    }

    ghost predicate Mapped(i: nat, j: nat)
      requires Typed() && i < ENTRIES && j < ENTRIES
    {
      HasTable(i) && Present(Pte(i, j))
    }

    /** The frame behind page (i, j). */
    ghost function Target(i: nat, j: nat): nat
      requires Typed() && i < ENTRIES && j < ENTRIES
    {
      Frame(Pte(i, j))
    }

    /**
     * What every call relies on, also after the allocator has run dry: the directory maps itself,
     * no table is the directory, and neither frame 0 nor the directory is up for allocation.
     */
    ghost predicate Sane() {
      && Typed()
      && 0 !in free && dir !in free && dir != 0
      && HasTable(SELF) && Table(SELF) == dir
      && forall i :: 0 <= i < SELF && HasTable(i) ==> Table(i) != dir
    }

    /** What alloc_block returns, as a frame number: 0 when nothing is free. */
    ghost function NextFrame(): nat {
      if free == {} then 0 else Min(free)
    }

    /** A zeroed table in frame t behind directory entry i. */
    ghost function AddTable(i: nat, t: nat): Space
      requires Typed() && i < ENTRIES && t < FRAMES
    {
      Space(Poke(ram, dir, i, MakeEntry(0, t * PAGE_SIZE, 3))[t := Zeros()], dir, free - {t})
    }

    ghost function SetPage(i: nat, j: nat, phys: u32, flags: u32): Space
      requires Typed() && i < ENTRIES && j < ENTRIES
    {
      this.(ram := Poke(ram, Table(i), j, MakeEntry(Pte(i, j), phys, WithPresent(flags))))
    }

    /** map_address: the table is added first if it is missing, from whatever alloc_block returns. */
    ghost function WithTable(i: nat): Space
      requires Typed() && i < ENTRIES
    {
      if HasTable(i) then this else AddTable(i, NextFrame())
    }

    ghost function Map(i: nat, j: nat, phys: u32, flags: u32): (Space, bool)
      requires Sane() && i < ENTRIES && j < ENTRIES
    {
      TableAdded(this, i);
      var s := WithTable(i);
      if s.Mapped(i, j) then (s, false) else (s.SetPage(i, j, phys, flags), true)
    }

    /** unmap_address, when `limit` blocks are managed. */
    ghost function Unmap(i: nat, j: nat, limit: nat): Space
      requires Typed() && i < ENTRIES && j < ENTRIES
    {
      if !Mapped(i, j) then this
      else Space(Poke(ram, Table(i), j, 0), dir, free + ({Target(i, j)} * Interval(0, limit)))
    }

    /** alloc_block as a step: the lowest free frame leaves the free set. */
    ghost function Taken(): Space {
      this.(free := free - {NextFrame()})
    }

    /**
     * The loop body of vmm_alloc and ksbrk: take a frame, map it, and give it back if the page was
     * mapped already. The flag is false when no frame was left.
     */
    ghost function Back(i: nat, j: nat, flags: u32): (Space, bool)
      requires Sane() && i < SELF && j < ENTRIES
    {
      if free == {} then (this, false)
      else
        TakenSane(this);
        var (s, added) := Taken().Map(i, j, Min(free) * PAGE_SIZE, flags);
        if added then (s, true) else (s.(free := s.free + {Min(free)}), true)
    }
  }

  lemma SaneFrom(s: Space, n: Space, i: nat)
    requires s.Sane() && n.Typed() && n.dir == s.dir && n.free <= s.free && i < SELF
    requires forall k :: 0 <= k < ENTRIES && k != i ==> n.Pde(k) == s.Pde(k)
    requires n.HasTable(i) ==> n.Table(i) != n.dir
    ensures n.Sane()
  {
    forall k | 0 <= k < SELF && n.HasTable(k)
      ensures n.Table(k) != n.dir
    {
      if k != i { assert s.HasTable(k); }
    }
    assert n.Pde(SELF) == s.Pde(SELF);
  }

  lemma TakenSane(s: Space)
    requires s.Sane()
    ensures s.Taken().Sane()
  {
    assert !s.HasTable(0) || s.Table(0) != s.dir;
    SaneFrom(s, s.Taken(), 0);
  }

  /** A word written into a table keeps the state sane. */
  lemma PokeTableSane(s: Space, i: nat, j: nat, v: u32)
    requires s.Sane() && i < SELF && s.HasTable(i) && j < ENTRIES
    ensures var n := s.(ram := Poke(s.ram, s.Table(i), j, v));
      n.Sane() && forall k :: 0 <= k < ENTRIES ==> n.Pde(k) == s.Pde(k)
  {
    SaneFrom(s, s.(ram := Poke(s.ram, s.Table(i), j, v)), i);
  }

  /** Adding a table keeps the state sane and touches only entry i and frame t. */
  lemma AddTableEffect(s: Space, i: nat, t: nat)
    requires s.Sane() && i < SELF && !s.HasTable(i) && t < FRAMES && t != s.dir
    ensures var n := s.AddTable(i, t);
      && n.Sane() && n.HasTable(i) && n.Table(i) == t && n.Pde(i) == t * PAGE_SIZE + 3
      && (forall j :: 0 <= j < ENTRIES ==> n.Pte(i, j) == 0)
      && (forall k :: 0 <= k < ENTRIES && k != i ==> n.Pde(k) == s.Pde(k))
      && (forall f :: 0 <= f < FRAMES && f != s.dir && f != t ==> n.ram[f] == s.ram[f])
  {
    EntryFields(0, t * PAGE_SIZE, 3);
    SaneFrom(s, s.AddTable(i, t), i);
  }

  lemma TableAdded(s: Space, i: nat)
    requires s.Sane() && i < ENTRIES
    ensures s.WithTable(i).Sane() && s.WithTable(i).HasTable(i)
  {
    if !s.HasTable(i) { AddTableEffect(s, i, s.NextFrame()); }
  }

  /** Writing one page entry keeps the state sane, with any flags at all, and touches only that entry. */
  lemma SetPageEffect(s: Space, i: nat, j: nat, phys: u32, flags: u32)
    requires s.Sane() && i < SELF && s.HasTable(i) && j < ENTRIES
    ensures var n := s.SetPage(i, j, phys, flags);
      && n.Sane() && n.Mapped(i, j) && (flags < 4096 ==> n.Target(i, j) == phys / PAGE_SIZE)
      && n.Pte(i, j) == MakeEntry(s.Pte(i, j), phys, WithPresent(flags))
      && (forall k :: 0 <= k < ENTRIES ==> n.Pde(k) == s.Pde(k))
      && (forall k :: 0 <= k < ENTRIES && k != j ==> n.Pte(i, k) == s.Pte(i, k))
      && (forall f :: 0 <= f < FRAMES && f != s.Table(i) ==> n.ram[f] == s.ram[f])
  {
    EntryPresent(s.Pte(i, j), phys, WithPresent(flags));
    if flags < 4096 { EntryFields(s.Pte(i, j), phys, WithPresent(flags)); }
    assert s.HasTable(i);
    SaneFrom(s, s.SetPage(i, j, phys, flags), i);
  }

  lemma MapKeepsSane(s: Space, i: nat, j: nat, phys: u32, flags: u32)
    requires s.Sane() && i < SELF && j < ENTRIES
    ensures s.Map(i, j, phys, flags).0.Sane()
  {
    TableAdded(s, i);
    var n := s.WithTable(i);
    if !n.Mapped(i, j) { SetPageEffect(n, i, j, phys, flags); }
  }

  /** A frame that was free before and goes back to the allocator does no harm to the walk. */
  lemma GiveBackSane(n: Space, s: Space, p: nat)
    requires n.Sane() && s.Sane() && n.dir == s.dir && p in s.free
    ensures n.(free := n.free + {p}).Sane()
  {
    var m := n.(free := n.free + {p});
    forall k | 0 <= k < SELF && m.HasTable(k)
      ensures m.Table(k) != m.dir
    {
      assert n.HasTable(k);
    }
    assert m.Pde(SELF) == n.Pde(SELF);
  }

  /** One round of the mapping loops keeps the state sane, with any flags and any number of frames. */
  lemma BackSane(s: Space, i: nat, j: nat, flags: u32)
    requires s.Sane() && i < SELF && j < ENTRIES
    ensures s.Back(i, j, flags).0.Sane() && s.Back(i, j, flags).0.dir == s.dir
    ensures s.Back(i, j, flags).1 <==> s.free != {}
    ensures s.free == {} ==> s.Back(i, j, flags).0 == s
  {
    if s.free != {} {
      TakenSane(s);
      MapKeepsSane(s.Taken(), i, j, Min(s.free) * PAGE_SIZE, flags);
      GiveBackSane(s.Taken().Map(i, j, Min(s.free) * PAGE_SIZE, flags).0, s, Min(s.free));
    }
  }
}
