/** The loops that put frames behind a range of addresses, in ksbrk and in vmm_alloc. */
module MappingLoops {
  import opened Machine
  import opened PageTables
  import opened SpaceModel
  import opened Ownership
  import opened PagingTheorems

  /** Addresses below this one are outside the self-map window. */
  const WINDOW := 0xFFC0_0000

  lemma OutsideWindow(va: u32)
    requires va < WINDOW
    ensures PdIndex(va) < SELF
  {
  }

  /**
   * The addresses va, va + step, ... up to and including last get a page each, while frames last.
   * Without a frame a round changes nothing, so stopping there and going on are the same.
   */
  ghost function BackAll(s: Space, va: nat, step: nat, last: nat, flags: u32): Space
    requires step > 0 && last < WINDOW
    decreases last + step - va
  {
    if va > last then s
    else
      OutsideWindow(va);
      var n := if s.Sane() then s.Back(PdIndex(va), PtIndex(va), flags).0 else s;
      BackAll(n, va + step, step, last, flags)
  }

  /** Some round of the loop takes the null pointer for a page table. */
  ghost predicate LoopStarves(s: Space, va: nat, step: nat, last: nat, flags: u32)
    requires step > 0 && last < WINDOW
    decreases last + step - va
  {
    va <= last && s.Sane() &&
    (OutsideWindow(va);
     Starves(s, PdIndex(va)) || LoopStarves(s.Back(PdIndex(va), PtIndex(va), flags).0, va + step, step, last, flags))
  }

  /** Every round of the loop finds a frame, so the loop runs to its end. */
  ghost predicate FindsFrames(s: Space, va: nat, step: nat, last: nat, flags: u32)
    requires step > 0 && last < WINDOW
    decreases last + step - va
  {
    va > last ||
    (s.Sane() && s.free != {} &&
     (OutsideWindow(va);
      FindsFrames(s.Back(PdIndex(va), PtIndex(va), flags).0, va + step, step, last, flags)))
  }

  lemma BackAllStep(s: Space, va: nat, step: nat, last: nat, flags: u32)
    requires step > 0 && last < WINDOW && va <= last && s.Sane()
    ensures PdIndex(va) < SELF
    ensures BackAll(s, va, step, last, flags)
         == BackAll(s.Back(PdIndex(va), PtIndex(va), flags).0, va + step, step, last, flags)
    ensures LoopStarves(s, va, step, last, flags) <==>
              Starves(s, PdIndex(va))
              || LoopStarves(s.Back(PdIndex(va), PtIndex(va), flags).0, va + step, step, last, flags)
    ensures FindsFrames(s, va, step, last, flags) <==>
              s.free != {} && FindsFrames(s.Back(PdIndex(va), PtIndex(va), flags).0, va + step, step, last, flags)
  {
    OutsideWindow(va);
  }

  lemma BackAllDone(s: Space, va: nat, step: nat, last: nat, flags: u32)
    requires step > 0 && last < WINDOW && va > last
    ensures BackAll(s, va, step, last, flags) == s && !LoopStarves(s, va, step, last, flags)
    ensures FindsFrames(s, va, step, last, flags)
  {
  }

  lemma {:induction false} BackAllWithoutFrames(s: Space, va: nat, step: nat, last: nat, flags: u32)
    requires step > 0 && last < WINDOW && s.free == {}
    ensures BackAll(s, va, step, last, flags) == s && !LoopStarves(s, va, step, last, flags)
    ensures FindsFrames(s, va, step, last, flags) <==> va > last
    decreases last + step - va
  {
    if va <= last {
      OutsideWindow(va);
      BackAllWithoutFrames(s, va + step, step, last, flags);
    }
  }

  /** The whole loop keeps one holder for every frame exactly when no round of it starves. */
  lemma {:induction false} BackAllOwnedIff(s: Space, base: set<nat>, limit: nat,
                                           va: nat, step: nat, last: nat, flags: PageFlags)
    requires step > 0 && last < WINDOW && IsOwned(s, base, limit)
    ensures IsOwned(BackAll(s, va, step, last, flags), base, limit) <==> !LoopStarves(s, va, step, last, flags)
    ensures LoopStarves(s, va, step, last, flags) ==> BackAll(s, va, step, last, flags).free == {}
    decreases last + step - va
  {
    hide Owned, Space.Back, Starves;
    if va <= last {
      OutsideWindow(va);
      var op := BackPage(PdIndex(va), PtIndex(va), flags);
      OwnedIsSane(s, base, limit);
      StepOwnedIff(s, base, limit, op);
      var n := s.Back(PdIndex(va), PtIndex(va), flags).0;
      if Starves(s, PdIndex(va)) {
        StarvedTable(s, PdIndex(va), PtIndex(va), flags);
        BackAllWithoutFrames(n, va + step, step, last, flags);
      } else {
        BackAllOwnedIff(n, base, limit, va + step, step, last, flags);
      }
    }
  }

  lemma OwnedIsSane(s: Space, base: set<nat>, limit: nat)
    requires IsOwned(s, base, limit)
    ensures s.Sane()
  {
  }

  // ----- what a loop leaves in the tables -----

  ghost predicate Visits(lo: nat, last: nat, k: nat, l: nat) {
    exists x: u32 :: lo <= x <= last && PdIndex(x) == k && PtIndex(x) == l
  }

  /**
   * Entries of pages that were mapped stay; every other page that is mapped now was passed by the loop, and
   * its entry is its frame, the flags and the present bit.
   */
  ghost predicate LoopEntries(s: Space, n: Space, lo: nat, last: nat, flags: PageFlags)
    requires s.Typed() && n.Typed()
  {
    forall k: nat, l: nat :: k < SELF && l < ENTRIES ==>
      && (s.Mapped(k, l) ==> n.Mapped(k, l) && n.Pte(k, l) == s.Pte(k, l))
      && (n.Mapped(k, l) && !s.Mapped(k, l) ==>
            n.Pte(k, l) == n.Target(k, l) * PAGE_SIZE + flags + 1 - flags % 2 && Visits(lo, last, k, l))
  }

  lemma BackEntries(s: Space, base: set<nat>, owner: map<nat, Holder>, limit: nat, va: u32, flags: PageFlags)
    requires Owned(s, base, owner, limit) && PdIndex(va) < SELF && !Starves(s, PdIndex(va))
    ensures var n := s.Back(PdIndex(va), PtIndex(va), flags).0;
      n.Typed() && LoopEntries(s, n, va, va, flags)
  {
    hide Space.Back, Starves, PdIndex, PtIndex, Owned;
    var (i, j) := (PdIndex(va), PtIndex(va));
    BackOnlyAnswer(s, base, owner, limit, i, j, flags);
    BackKeepsMapped(s, base, owner, limit, i, j, flags);
    var n := s.Back(i, j, flags).0;
    if s.free != {} && !s.Mapped(i, j) { EntryFrame(Min(s.free), flags); }
    forall k: nat, l: nat | k < SELF && l < ENTRIES
      ensures s.Mapped(k, l) ==> n.Mapped(k, l) && n.Pte(k, l) == s.Pte(k, l)
      ensures n.Mapped(k, l) && !s.Mapped(k, l) ==>
                n.Pte(k, l) == n.Target(k, l) * PAGE_SIZE + flags + 1 - flags % 2 && Visits(va, va, k, l)
    {
      if k != i || l != j { assert n.Mapped(k, l) <==> s.Mapped(k, l); } else { assert Visits(va, va, k, l); }
    }
  }

  lemma BackOnlyAnswer(s: Space, base: set<nat>, owner: map<nat, Holder>, limit: nat, i: nat, j: nat, flags: PageFlags)
    requires Owned(s, base, owner, limit) && i < SELF && j < ENTRIES
    ensures s.Sane() && (s.free == {} ==> s.Back(i, j, flags).0 == s)
    ensures s.free != {} ==> Min(s.free) < FRAMES
  {
    BackSane(s, i, j, flags);
  }

  lemma EntryFrame(p: nat, flags: PageFlags)
    requires p < FRAMES
    ensures Frame(p * PAGE_SIZE + flags + 1 - flags % 2) == p
  {
  }

  lemma EntriesTwice(s: Space, m: Space, n: Space, lo: nat, mid: nat, next: nat, last: nat, flags: PageFlags)
    requires s.Typed() && m.Typed() && n.Typed() && lo <= mid <= last && lo <= next
    requires LoopEntries(s, m, lo, mid, flags) && LoopEntries(m, n, next, last, flags)
    ensures LoopEntries(s, n, lo, last, flags)
  {
    hide PdIndex, PtIndex;
    forall k: nat, l: nat | k < SELF && l < ENTRIES
      ensures s.Mapped(k, l) ==> n.Mapped(k, l) && n.Pte(k, l) == s.Pte(k, l)
      ensures n.Mapped(k, l) && !s.Mapped(k, l) ==>
                n.Pte(k, l) == n.Target(k, l) * PAGE_SIZE + flags + 1 - flags % 2 && Visits(lo, last, k, l)
    {
      if m.Mapped(k, l) && !s.Mapped(k, l) {
        var x: u32 :| lo <= x <= mid && PdIndex(x) == k && PtIndex(x) == l;
        assert Visits(lo, last, k, l);
      } else if n.Mapped(k, l) && !m.Mapped(k, l) {
        var x: u32 :| next <= x <= last && PdIndex(x) == k && PtIndex(x) == l;
        assert Visits(lo, last, k, l);
      }
    }
  }

  /** A loop that does not starve adds entries for the pages it passes, with the flags it was given, and no others. */
  lemma {:induction false} BackAllEntries(s: Space, base: set<nat>, limit: nat,
                                          va: nat, step: nat, last: nat, flags: PageFlags)
    requires IsOwned(s, base, limit) && step > 0 && last < WINDOW && !LoopStarves(s, va, step, last, flags)
    ensures s.Typed() && BackAll(s, va, step, last, flags).Typed()
    ensures LoopEntries(s, BackAll(s, va, step, last, flags), va, last, flags)
    decreases last + step - va
  {
    hide Owned, Space.Back, Starves, PdIndex, PtIndex, LoopEntries;
    OwnedIsSane(s, base, limit);
    if va <= last {
      OutsideWindow(va);
      var op := BackPage(PdIndex(va), PtIndex(va), flags);
      var owner :| Owned(s, base, owner, limit);
      BackEntries(s, base, owner, limit, va, flags);
      StepOwnedIff(s, base, limit, op);
      var n := s.Back(PdIndex(va), PtIndex(va), flags).0;
      BackAllEntries(n, base, limit, va + step, step, last, flags);
      EntriesTwice(s, n, BackAll(n, va + step, step, last, flags), va, va, va + step, last, flags);
    } else {
      NoEntries(s, va, last, flags);
    }
  }

  lemma NoEntries(s: Space, lo: nat, last: nat, flags: PageFlags)
    requires s.Typed()
    ensures LoopEntries(s, s, lo, last, flags)
  {
  }
}
