/**
 * How kernel/paging.c builds its new directory and tables: under the boot page tables it maps three
 * fresh pages at 0x500000, 0x501000 and 0x502000 and fills them through those addresses.
 */
module Staging {
  import opened Machine
  import opened PageTables
  import opened SpaceModel
  import opened Ownership
  import opened Layout

  /** The directory entry of the staging pages, and the table entry of the first. */
  const STAGE := 1
  const FIRST := 0x100

  /** allocate_page_directory and allocate_page_table: take a frame, map it, zero it through the map. */
  ghost function NewPage(s: Space, i: nat, j: nat): Space
    requires s.Sane() && i < ENTRIES && j < ENTRIES
  {
    TakenSane(s);
    var (m, added) := s.Taken().Map(i, j, s.NextFrame() * PAGE_SIZE, READ_WRITE);
    if added then m.(ram := m.ram[s.NextFrame() := Zeros()]) else m
  }

  /** The page is added unless it was mapped, from an empty allocator too; frame 0 is then behind it. */
  lemma NewPageMaps(s: Space, i: nat, j: nat)
    requires s.Sane() && i < ENTRIES && j < ENTRIES
    ensures s.Taken().Sane()
    ensures var (m, added) := s.Taken().Map(i, j, s.NextFrame() * PAGE_SIZE, READ_WRITE);
      && (added <==> !s.Mapped(i, j)) && m.Sane() && m.dir == s.dir && m.HasTable(i)
      && (added ==> m.Mapped(i, j) && m.Target(i, j) == s.NextFrame() != m.dir)
      && m.free == (if s.HasTable(i) then s.Taken().free else s.Taken().Taken().free)
  {
    TakenSane(s);
    var t := s.Taken();
    if i == SELF {
      if !s.Mapped(i, j) { NewTableMaps(t, j, s.NextFrame()); }
    } else {
      if !s.HasTable(i) { AddTableEffect(t, i, t.NextFrame()); }
      if !s.Mapped(i, j) { SetPageEffect(t.WithTable(i), i, j, s.NextFrame() * PAGE_SIZE, READ_WRITE); }
    }
  }

  /** In the window, where the directory is the table, the new page is a new table. */
  lemma NewTableMaps(s: Space, j: nat, f: nat)
    requires s.Sane() && j < ENTRIES && !s.HasTable(j) && f < FRAMES && f != s.dir
    ensures var m := s.SetPage(SELF, j, f * PAGE_SIZE, READ_WRITE);
      m.Sane() && m.HasTable(SELF) && m.Mapped(SELF, j) && m.Target(SELF, j) == f
  {
    EntryFields(s.Pde(j), f * PAGE_SIZE, WithPresent(READ_WRITE));
    SaneFrom(s, s.SetPage(SELF, j, f * PAGE_SIZE, READ_WRITE), j);
  }

  /** A frame other than the directory may change freely without harm to the walk. */
  lemma FrameSane(s: Space, f: nat, p: Page)
    requires s.Sane() && f < FRAMES && f != s.dir
    ensures s.(ram := s.ram[f := p]).Sane()
  {
    assert s.HasTable(0) ==> s.Table(0) != s.dir;
    SaneFrom(s, s.(ram := s.ram[f := p]), 0);
  }

  lemma NewPageSane(s: Space, i: nat, j: nat)
    requires s.Sane() && i < ENTRIES && j < ENTRIES
    ensures NewPage(s, i, j).Sane() && NewPage(s, i, j).dir == s.dir
    ensures NewPage(s, i, j).free == (if s.HasTable(i) then s.Taken().free else s.Taken().Taken().free)
  {
    NewPageMaps(s, i, j);
    var m := s.Taken().Map(i, j, s.NextFrame() * PAGE_SIZE, READ_WRITE).0;
    FrameSane(m, s.NextFrame(), Zeros());
  }

  /** Entry k of the staging pages, in the staging table t. */
  ghost function Slot(s: Space, t: nat, k: nat): u32
    requires t < FRAMES && k < 3
  {
    s.ram[t][FIRST + k]
  }

  /** Behind the staging entry is table t, whose slots are the given frames and nothing more. */
  ghost predicate Staged(s: Space, t: nat, pages: seq<nat>) {
    && s.Sane() && s.HasTable(STAGE) && s.Table(STAGE) == t && t !in s.free && |pages| <= 3
    && (forall k: nat :: k < 3 ==> (Present(Slot(s, t, k)) <==> k < |pages|))
    && (forall k: nat :: k < |pages| ==> Frame(Slot(s, t, k)) == pages[k])
    && Apart(s, t, pages)
  }

  /** The staged frames differ from each other, from the tables, and from what is free. */
  ghost predicate Apart(s: Space, t: nat, pages: seq<nat>) {
    && (forall k :: 0 <= k < |pages| ==> pages[k] !in s.free && pages[k] != s.dir && pages[k] != t)
    && (forall k, l :: 0 <= k < l < |pages| ==> pages[k] != pages[l])
  }

  /** Frames other than the directory and the staging table may change freely. */
  lemma StagedKept(s: Space, n: Space, t: nat, pages: seq<nat>)
    requires Staged(s, t, pages) && n.dir == s.dir && n.free == s.free
    requires n.ram[s.dir] == s.ram[s.dir] && n.ram[t] == s.ram[t]
    ensures Staged(n, t, pages)
  {
    assert forall k :: 0 <= k < ENTRIES ==> n.Pde(k) == s.Pde(k);
    assert s.HasTable(STAGE);
    SaneFrom(s, n, STAGE);
    assert forall k: nat :: k < 3 ==> Slot(n, t, k) == Slot(s, t, k);
  }

  lemma NextStage(s: Space, t: nat, pages: seq<nat>)
    requires Staged(s, t, pages) && |pages| < 3 && s.free != {}
    ensures var p := Min(s.free);
      var n := NewPage(s, STAGE, FIRST + |pages|);
      && Staged(n, t, pages + [p]) && n.free == s.free - {p} && n.dir == s.dir
      && n.ram == s.ram[t := n.ram[t]][p := Zeros()]
  {
    var p := Min(s.free);
    var j := FIRST + |pages|;
    TakenSane(s);
    assert !Present(Slot(s, t, |pages|));
    SetPageEffect(s.Taken(), STAGE, j, p * PAGE_SIZE, READ_WRITE);
    var m := s.Taken().SetPage(STAGE, j, p * PAGE_SIZE, READ_WRITE);
    SlotAdded(s, m, t, pages, p);
    StagedKept(m, NewPage(s, STAGE, j), t, pages + [p]);
  }

  lemma SlotAdded(s: Space, m: Space, t: nat, pages: seq<nat>, p: nat)
    requires Staged(s, t, pages) && |pages| < 3 && p in s.free
    requires m.Sane() && m.dir == s.dir && m.free == s.free - {p} && m.Pde(STAGE) == s.Pde(STAGE)
    requires Present(Slot(m, t, |pages|)) && Frame(Slot(m, t, |pages|)) == p
    requires forall k :: 0 <= k < ENTRIES && k != FIRST + |pages| ==> m.ram[t][k] == s.ram[t][k]
    ensures Staged(m, t, pages + [p])
  {
    assert forall k: nat :: k < 3 && k != |pages| ==> Slot(m, t, k) == Slot(s, t, k);
  }

  lemma FirstStage(s: Space)
    requires s.Sane() && !s.HasTable(STAGE) && s.free != {} && s.Taken().free != {}
    ensures var p, t := Min(s.free), s.Taken().NextFrame();
      var n := NewPage(s, STAGE, FIRST);
      && p != t && t in s.free && n.dir == s.dir && n.free == s.free - {p} - {t}
      && Staged(n, t, [p]) && n.ram[p] == Zeros()
  {
    var p := Min(s.free);
    TakenSane(s);
    var t := s.Taken().NextFrame();
    AddTableEffect(s.Taken(), STAGE, t);
    var a := s.Taken().AddTable(STAGE, t);
    assert forall k: nat :: k < 3 ==> Slot(a, t, k) == 0;
    assert Staged(a, t, []);
    SetPageEffect(a, STAGE, FIRST, p * PAGE_SIZE, READ_WRITE);
    var m := a.SetPage(STAGE, FIRST, p * PAGE_SIZE, READ_WRITE);
    FirstSlot(a, m, t, p);
    StagedKept(m, NewPage(s, STAGE, FIRST), t, [p]);
  }

  lemma FirstSlot(a: Space, m: Space, t: nat, p: nat)
    requires Staged(a, t, []) && p !in a.free && p != t && p != a.dir
    requires m.Sane() && m.dir == a.dir && m.free == a.free && m.Pde(STAGE) == a.Pde(STAGE)
    requires Present(Slot(m, t, 0)) && Frame(Slot(m, t, 0)) == p
    requires forall k :: 0 <= k < ENTRIES && k != FIRST ==> m.ram[t][k] == a.ram[t][k]
    ensures Staged(m, t, [p])
  {
    assert forall k: nat :: 0 < k < 3 ==> Slot(m, t, k) == Slot(a, t, k);
  }

  lemma TwoFree(s: Space)
    requires s.Sane() && |s.free| >= 2
    ensures s.free != {} && s.Taken().free != {}
    ensures var t := s.Taken().NextFrame(); t in s.free && |s.free - {Min(s.free)} - {t}| == |s.free| - 2
  {
    var one := s.free - {Min(s.free)};
    assert |one| == |s.free| - 1;
    assert s.Taken().free == one;
    assert |one - {Min(one)}| == |one| - 1;
  }

  lemma TakenSize(s: Space)
    ensures |s.Taken().free| == if s.free == {} then 0 else |s.free| - 1
  {
  }

  /** The first staging page, from any number of free frames. */
  lemma FirstNewPage(s: Space)
    requires s.Sane() && !s.HasTable(STAGE)
    ensures var n := NewPage(s, STAGE, FIRST);
      && n.Sane() && n.free <= s.free && |n.free| == (if |s.free| < 2 then 0 else |s.free| - 2)
      && (s.NextFrame() == 0 <==> s.free == {})
      && (|s.free| >= 2 ==> s.NextFrame() in s.free && s.NextFrame() < FRAMES
                            && Staged(n, s.Taken().NextFrame(), [s.NextFrame()]) && n.ram[s.NextFrame()] == Zeros())
  {
    hide NewPage, Staged;
    TakenSize(s);
    TakenSize(s.Taken());
    NewPageSane(s, STAGE, FIRST);
    if |s.free| >= 2 {
      TwoFree(s);
      FirstStage(s);
    }
  }

  /** The next one, which needs one frame. */
  lemma NextNewPage(s: Space, t: nat, pages: seq<nat>, k: nat)
    requires s.Sane() && 1 <= k < 3 && (s.free != {} ==> Staged(s, t, pages) && |pages| == k)
    ensures var n := NewPage(s, STAGE, FIRST + k);
      && n.Sane() && n.free <= s.free
      && if s.free == {} then n.free == {} && s.NextFrame() == 0
         else
           && !s.Mapped(STAGE, FIRST + k) && s.NextFrame() in s.free && 0 < s.NextFrame() < FRAMES
           && Staged(n, t, pages + [s.NextFrame()]) && |n.free| == |s.free| - 1
           && forall f :: f in pages && f < FRAMES ==> n.ram[f] == s.ram[f]
  {
    TakenSize(s);
    NewPageSane(s, STAGE, FIRST + k);
    if s.free != {} {
      NextStage(s, t, pages);
      assert !Present(Slot(s, t, k));
      assert forall f :: f in pages ==> f != t && f != s.NextFrame();
    }
  }

  lemma StagedApart(s: Space, t: nat, d: nat, b: nat, c: nat)
    requires Staged(s, t, [d, b, c])
    ensures d != b && d != c && b != c && d !in s.free && b !in s.free && c !in s.free
    ensures d < FRAMES && b < FRAMES && c < FRAMES
  {
    var pages := [d, b, c];
    assert pages[0] != pages[1] && pages[0] != pages[2] && pages[1] != pages[2];
    assert forall k: nat :: k < 3 ==> Frame(Slot(s, t, k)) == pages[k];
    assert pages[0] < FRAMES && pages[1] < FRAMES && pages[2] < FRAMES;
  }

  /** The boot loader's layout, with its tables in use, is enough to start from. */
  lemma LayoutSane(s: Space, identity: nat, kernel: nat, identityFlags: PageFlags, kernelFlags: PageFlags)
    requires s.Typed() && IsLayout(s.ram, s.dir, identity, kernel, identityFlags, kernelFlags)
    requires identityFlags % 2 == 1 && kernelFlags % 2 == 1
    requires 0 !in s.free && s.dir !in s.free && s.dir != 0 && identity != s.dir && kernel != s.dir
    ensures s.Sane() && forall i :: 0 <= i < ENTRIES && s.HasTable(i) ==> i == 0 || i == KERNEL || i == SELF
  {
    LayoutShape(s.ram, s.dir, identity, kernel, identityFlags, kernelFlags);
    forall i | 0 <= i < SELF && s.HasTable(i)
      ensures s.Table(i) != s.dir
    {
      assert Present(s.ram[s.dir][i]);
    }
  }

  /** The layout the kernel builds holds every frame in use as a baseline frame. */
  lemma LayoutOwned(s: Space, base: set<nat>, limit: nat, identity: nat, kernel: nat)
    requires s.Typed() && IsLayout(s.ram, s.dir, identity, kernel, 1, 3)
    requires limit <= FRAMES && s.free <= Interval(0, limit) && base == Interval(0, limit) - s.free
    requires {0, s.dir, identity, kernel} <= base && s.dir !in {0, identity, kernel} && identity != 0 && kernel != 0
    ensures Owned(s, base, map[], limit)
  {
    LayoutSane(s, identity, kernel, 1, 3);
    LayoutShape(s.ram, s.dir, identity, kernel, 1, 3);
    assert s.Table(0) == identity && s.Table(KERNEL) == kernel;
    forall j | 0 <= j < ENTRIES
      ensures s.Mapped(0, j) && s.Mapped(KERNEL, j)
    {
    }
    forall i: nat | Dynamic(i)
      ensures !s.HasTable(i)
    {
    }
  }
}
