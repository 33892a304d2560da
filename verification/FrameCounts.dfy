/**
 * The mapping loops counted instead of followed: how many frames a loop takes can be read off the page
 * tables before it starts.
 */
module FrameCounts {
  import opened Machine
  import opened PageTables
  import opened SpaceModel
  import opened Ownership
  import opened PagingTheorems
  import opened MappingLoops

  // ----- one round -----

  /** The frames that backing a page takes: one if it is unmapped, and one more if its table is missing. */
  ghost function RoundCost(s: Space, i: nat, j: nat): nat
    requires s.Typed() && i < ENTRIES && j < ENTRIES
  {
    (if s.Mapped(i, j) then 0 else 1) + (if s.HasTable(i) then 0 else 1)
  }

  /** After a round, the page and its table are there, and nothing else is new. */
  ghost predicate OnePageNew(s: Space, n: Space, i: nat, j: nat)
    requires s.Typed() && n.Typed()
  {
    && (forall k: nat :: k < SELF ==> (n.HasTable(k) <==> s.HasTable(k) || k == i))
    && (forall k: nat, l: nat :: k < SELF && l < ENTRIES ==> (n.Mapped(k, l) <==> s.Mapped(k, l) || (k == i && l == j)))
  }

  lemma BackCounts(s: Space, base: set<nat>, owner: map<nat, Holder>, limit: nat, i: nat, j: nat, flags: PageFlags)
    requires Owned(s, base, owner, limit) && i < SELF && j < ENTRIES && !Starves(s, i) && s.free != {}
    ensures var n := s.Back(i, j, flags).0;
      n.Typed() && OnePageNew(s, n, i, j) && |n.free| == |s.free| - RoundCost(s, i, j)
  {
    BackKeepsMapped(s, base, owner, limit, i, j, flags);
    var n := s.Back(i, j, flags).0;
    BackTables(s, i, j, flags);
    forall k: nat, l: nat | k < SELF && l < ENTRIES
      ensures n.Mapped(k, l) <==> s.Mapped(k, l) || (k == i && l == j)
    {
    }
  }

  lemma BackTables(s: Space, i: nat, j: nat, flags: PageFlags)
    requires s.Sane() && i < SELF && j < ENTRIES && !Starves(s, i) && s.free != {}
    ensures var n := s.Back(i, j, flags).0;
      && n.Typed() && (forall k: nat :: k < SELF ==> (n.HasTable(k) <==> s.HasTable(k) || k == i))
      && |n.free| == |s.free| - RoundCost(s, i, j)
  {
    var p := Min(s.free);
    var t := s.Taken();
    TakenSane(s);
    assert |t.free| == |s.free| - 1;
    if s.Mapped(i, j) {
      assert t.free + {p} == s.free;
    } else if s.HasTable(i) {
      SetPageEffect(t, i, j, p * PAGE_SIZE, flags);
    } else {
      AddTableEffect(t, i, t.NextFrame());
      SetPageEffect(t.AddTable(i, t.NextFrame()), i, j, p * PAGE_SIZE, flags);
      assert |t.free - {t.NextFrame()}| == |t.free| - 1;
    }
  }

  // ----- a loop -----

  /** A round at va is the first to reach its page, in a loop that starts at `from`. */
  predicate FirstOfPage(from: nat, va: u32, step: nat) {
    va < from + step || (va - step) / PAGE_SIZE != va / PAGE_SIZE
  }

  predicate FirstOfTable(from: nat, va: u32, step: nat) {
    va < from + step || (va - step) / 0x40_0000 != va / 0x40_0000
  }

  ghost predicate NewTable(s: Space, from: nat, va: u32, step: nat)
    requires s.Typed()
  {
    !s.HasTable(PdIndex(va)) && FirstOfTable(from, va, step)
  }

  /** The frames that the round at va takes, by the tables as they are before the loop. */
  ghost function Cost(s: Space, from: nat, va: u32, step: nat): nat
    requires s.Typed()
  {
    (if !s.Mapped(PdIndex(va), PtIndex(va)) && FirstOfPage(from, va, step) then 1 else 0)
    + (if NewTable(s, from, va, step) then 1 else 0)
  }

  /** The frames that all rounds from va on take, but for the last. */
  ghost function Needed(s: Space, from: nat, va: nat, step: nat, last: nat): nat
    requires s.Typed() && step > 0 && last < WINDOW
    decreases last + step - va
  {
    if va + step > last then 0 else Cost(s, from, va, step) + Needed(s, from, va + step, step, last)
  }

  /** Counting down from `left` frames, some round needs a new table when exactly one frame is left. */
  ghost predicate RunsOut(s: Space, from: nat, va: nat, step: nat, last: nat, left: int)
    requires s.Typed() && step > 0 && last < WINDOW
    decreases last + step - va
  {
    va <= last &&
    ((left == 1 && NewTable(s, from, va, step))
     || RunsOut(s, from, va + step, step, last, left - Cost(s, from, va, step)))
  }

  lemma Between(a: nat, b: nat, c: nat)
    requires a <= b <= c
    ensures a / 4096 == c / 4096 ==> b / 4096 == c / 4096
    ensures a / 0x40_0000 == c / 0x40_0000 ==> b / 0x40_0000 == c / 0x40_0000
  {
    hide *;
  }

  lemma Indices(a: u32, b: u32)
    ensures PdIndex(a) == PdIndex(b) <==> a / 0x40_0000 == b / 0x40_0000
    ensures PdIndex(a) == PdIndex(b) && PtIndex(a) == PtIndex(b) <==> a / PAGE_SIZE == b / PAGE_SIZE
  {
    hide PdIndex, PtIndex;
    PageNumber(a);
    PageNumber(b);
    TableNumber(a);
    TableNumber(b);
  }

  lemma TableNumber(a: u32)
    ensures a / 0x40_0000 == a / 4096 / 1024
  {
    hide *;
  }

  /** The rest of a loop costs the same by the tables before its first round and after it. */
  lemma CostMoves(s: Space, n: Space, from: u32, va: u32, step: nat)
    requires s.Typed() && n.Typed() && OnePageNew(s, n, PdIndex(from), PtIndex(from))
    requires step > 0 && va < WINDOW && (va == from + step || va >= from + 2 * step)
    ensures Cost(n, from + step, va, step) == Cost(s, from, va, step)
    ensures NewTable(n, from + step, va, step) <==> NewTable(s, from, va, step)
  {
    hide PdIndex, PtIndex;
    OutsideWindow(va);
    Indices(from, va);
    Between(from, va - step, va);
  }

  lemma {:induction false} NeededMoves(s: Space, n: Space, from: u32, va: nat, step: nat, last: nat)
    requires s.Typed() && n.Typed() && OnePageNew(s, n, PdIndex(from), PtIndex(from))
    requires step > 0 && (va == from + step || va >= from + 2 * step) && last < WINDOW
    ensures Needed(n, from + step, va, step, last) == Needed(s, from, va, step, last)
    decreases last + step - va
  {
    hide OnePageNew, Cost, PdIndex, PtIndex;
    if va + step <= last {
      CostMoves(s, n, from, va, step);
      NeededMoves(s, n, from, va + step, step, last);
    }
  }

  lemma {:induction false} RunsOutMoves(s: Space, n: Space, from: u32, va: nat, step: nat, last: nat, left: int)
    requires s.Typed() && n.Typed() && OnePageNew(s, n, PdIndex(from), PtIndex(from))
    requires step > 0 && (va == from + step || va >= from + 2 * step) && last < WINDOW
    ensures RunsOut(n, from + step, va, step, last, left) <==> RunsOut(s, from, va, step, last, left)
    decreases last + step - va
  {
    hide OnePageNew, Cost, NewTable, PdIndex, PtIndex;
    if va <= last {
      CostMoves(s, n, from, va, step);
      RunsOutMoves(s, n, from, va + step, step, last, left - Cost(s, from, va, step));
    }
  }

  lemma FirstCost(s: Space, va: u32, step: nat)
    requires s.Typed() && step > 0
    ensures Cost(s, va, va, step) == RoundCost(s, PdIndex(va), PtIndex(va))
    ensures NewTable(s, va, va, step) <==> !s.HasTable(PdIndex(va))
  {
  }

  /**
   * A loop finds its frames exactly when there are more free frames than its rounds before the last one
   * take, as counted on the page tables before the loop.
   */
  lemma {:induction false} FindsFramesIff(s: Space, base: set<nat>, limit: nat,
                                          va: nat, step: nat, last: nat, flags: PageFlags)
    requires IsOwned(s, base, limit) && step > 0 && va <= last < WINDOW
    ensures s.Typed()
    ensures FindsFrames(s, va, step, last, flags) <==> |s.free| > Needed(s, va, va, step, last)
    decreases last + step - va
  {
    hide Owned, Space.Back, Cost, RoundCost, OnePageNew, PdIndex, PtIndex;
    OwnedIsSane(s, base, limit);
    OutsideWindow(va);
    BackAllStep(s, va, step, last, flags);
    var (i, j) := (PdIndex(va), PtIndex(va));
    var n := s.Back(i, j, flags).0;
    if va + step > last {
      BackAllDone(n, va + step, step, last, flags);
    } else if s.free != {} {
      FirstCost(s, va, step);
      if Starves(s, i) {
        StarvedTable(s, i, j, flags);
        BackAllWithoutFrames(n, va + step, step, last, flags);
        StarvingCosts(s, i, j);
      } else {
        var owner :| Owned(s, base, owner, limit);
        BackCounts(s, base, owner, limit, i, j, flags);
        StepOwnedIff(s, base, limit, BackPage(i, j, flags));
        FindsFramesIff(n, base, limit, va + step, step, last, flags);
        NeededMoves(s, n, va, va + step, step, last);
      }
    }
  }

  lemma StarvingCosts(s: Space, i: nat, j: nat)
    requires s.Typed() && i < SELF && j < ENTRIES && Starves(s, i)
    ensures RoundCost(s, i, j) == 2 && |s.free| == 1
  {
    assert s.free == {Min(s.free)};
  }

  lemma StarvesIff(s: Space, i: nat)
    requires s.Typed() && i < SELF
    ensures Starves(s, i) <==> !s.HasTable(i) && |s.free| == 1
  {
    if s.free != {} {
      assert |s.free - {Min(s.free)}| == |s.free| - 1;
    }
  }

  /** A loop starves exactly when, counting down from the free frames, a missing table comes up at the last. */
  lemma {:induction false} LoopStarvesIff(s: Space, base: set<nat>, limit: nat,
                                          va: nat, step: nat, last: nat, flags: PageFlags)
    requires IsOwned(s, base, limit) && step > 0 && last < WINDOW
    ensures s.Typed()
    ensures LoopStarves(s, va, step, last, flags) <==> RunsOut(s, va, va, step, last, |s.free|)
    decreases last + step - va
  {
    hide Owned, Space.Back, Starves, Cost, RoundCost, NewTable, OnePageNew, PdIndex, PtIndex;
    OwnedIsSane(s, base, limit);
    if va <= last {
      OutsideWindow(va);
      BackAllStep(s, va, step, last, flags);
      FirstCost(s, va, step);
      var (i, j) := (PdIndex(va), PtIndex(va));
      StarvesIff(s, i);
      var n := s.Back(i, j, flags).0;
      if s.free == {} {
        BackAllWithoutFrames(s, va, step, last, flags);
        NeverRunsOut(s, va, va, step, last, 0);
      } else if !Starves(s, i) {
        var owner :| Owned(s, base, owner, limit);
        BackCounts(s, base, owner, limit, i, j, flags);
        StepOwnedIff(s, base, limit, BackPage(i, j, flags));
        LoopStarvesIff(n, base, limit, va + step, step, last, flags);
        RunsOutMoves(s, n, va, va + step, step, last, |n.free|);
      }
    }
  }

  lemma {:induction false} NeverRunsOut(s: Space, from: nat, va: nat, step: nat, last: nat, left: int)
    requires s.Typed() && step > 0 && last < WINDOW && left <= 0
    ensures !RunsOut(s, from, va, step, last, left)
    decreases last + step - va
  {
    hide Cost, NewTable;
    if va <= last { NeverRunsOut(s, from, va + step, step, last, left - Cost(s, from, va, step)); }
  }
}
