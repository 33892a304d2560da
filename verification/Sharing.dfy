/**
 * Which frames are reachable through more than one page. The static tables map the first 4 MB at its
 * own addresses and 4 MB from the kernel's load address, writable, in the kernel's half; the kernel
 * reserves the first 4 MB only, so the frames of the last megabyte mapped there are handed out again.
 */
module Sharing {
  import opened Machine
  import opened PageTables
  import opened SpaceModel
  import opened Ownership
  import opened PagingTheorems

  /** The first frame that no static table maps. */
  const SHARED_END := KERNEL_FRAME + ENTRIES

  /** A page outside the self-map window, other than the holder, has frame f behind it. */
  ghost predicate OtherPage(s: Space, f: nat, h: Holder)
    requires s.Typed()
  {
    exists k: nat, l: nat :: k < SELF && l < ENTRIES && s.Mapped(k, l) && s.Target(k, l) == f && h != PageOf(k, l)
  }

  lemma StaticTargets(s: Space, base: set<nat>, l: nat)
    requires s.Typed() && StaticTables(s, base) && l < ENTRIES
    ensures s.Mapped(0, l) && s.Target(0, l) == l
    ensures s.Mapped(KERNEL, l) && s.Target(KERNEL, l) == KERNEL_FRAME + l
  {
    EntryParts(l, PRESENT);
    EntryParts(KERNEL_FRAME + l, 3);
  }

  /** A frame given out since boot, to a page or a table, has another page in front of it exactly when it is low. */
  lemma SharedIff(s: Space, base: set<nat>, owner: map<nat, Holder>, limit: nat, f: nat)
    requires Owned(s, base, owner, limit) && f in owner
    ensures OtherPage(s, f, owner[f]) <==> f < SHARED_END
  {
    if k: nat, l: nat :| k < SELF && l < ENTRIES && s.Mapped(k, l) && s.Target(k, l) == f && owner[f] != PageOf(k, l) {
      assert !Dynamic(k);
      StaticTargets(s, base, l);
    }
    if f < SHARED_END {
      assert Holds(s, f, owner[f]);
      var (k, l) := if f < ENTRIES then (0, f) else (KERNEL, f - KERNEL_FRAME);
      StaticTargets(s, base, l);
      assert s.Mapped(k, l) && s.Target(k, l) == f;
    }
  }

  /** In particular the frame behind a page mapped since boot. */
  lemma PageSharedIff(s: Space, base: set<nat>, owner: map<nat, Holder>, limit: nat, i: nat, j: nat)
    requires Owned(s, base, owner, limit) && Dynamic(i) && j < ENTRIES && s.Mapped(i, j)
    ensures s.Target(i, j) in owner && owner[s.Target(i, j)] == PageOf(i, j)
    ensures OtherPage(s, s.Target(i, j), PageOf(i, j)) <==> s.Target(i, j) < SHARED_END
  {
    SharedIff(s, base, owner, limit, s.Target(i, j));
  }

  /** First fit hands the low frames out first, so while one is left the next page shares it with the kernel's. */
  lemma NextPageIsShared(s: Space, base: set<nat>, owner: map<nat, Holder>, limit: nat,
                         i: nat, j: nat, flags: PageFlags)
    requires Owned(s, base, owner, limit) && Dynamic(i) && j < ENTRIES && !s.Mapped(i, j)
    requires s.free != {} && !Starves(s, i) && KERNEL_FRAME <= Min(s.free) < SHARED_END
    ensures var (n, l) := (s.Back(i, j, flags).0, Min(s.free) - KERNEL_FRAME);
      && n.Typed() && Owned(n, base, OwnerAfterBack(s, owner, i, j), limit)
      && n.Mapped(i, j) && n.Target(i, j) == Min(s.free)
      && n.Mapped(KERNEL, l) && n.Target(KERNEL, l) == n.Target(i, j)
  {
    BackOwnedIff(s, base, owner, limit, i, j, flags);
    MapThenUnmap(s, base, owner, limit, i, j, flags);
    StaticTargets(s.Back(i, j, flags).0, base, Min(s.free) - KERNEL_FRAME);
  }

  // ----- over runs -----

  /** No page and no table given out since boot has another page in front of its frame. */
  ghost predicate Unshared(s: Space)
    requires s.Typed()
  {
    && (forall i: nat, j: nat :: Dynamic(i) && j < ENTRIES && s.Mapped(i, j) ==>
          !OtherPage(s, s.Target(i, j), PageOf(i, j)))
    && (forall i: nat :: Dynamic(i) && s.HasTable(i) ==> !OtherPage(s, s.Table(i), TableOf(i)))
  }

  lemma UnsharedIf(s: Space, base: set<nat>, owner: map<nat, Holder>, limit: nat)
    requires Owned(s, base, owner, limit) && forall f :: f in owner ==> f >= SHARED_END
    ensures Unshared(s)
  {
    forall i: nat, j: nat | Dynamic(i) && j < ENTRIES && s.Mapped(i, j)
      ensures !OtherPage(s, s.Target(i, j), PageOf(i, j))
    {
      PageSharedIff(s, base, owner, limit, i, j);
    }
    forall i: nat | Dynamic(i) && s.HasTable(i)
      ensures !OtherPage(s, s.Table(i), TableOf(i))
    {
      SharedIff(s, base, owner, limit, s.Table(i));
    }
  }

  ghost predicate AllAllowed(ops: seq<Op>) {
    forall k :: 0 <= k < |ops| ==> Allowed(ops[k])
  }

  /** All runs from s that do not starve lead to states in which nothing is shared. */
  ghost predicate NeverShared(s: Space, limit: nat) {
    forall ops: seq<Op> :: AllAllowed(ops) && NeverStarves(s, limit, ops) ==>
      Run(s, ops, limit).Typed() && Unshared(Run(s, ops, limit))
  }

  /**
   * From the address space as paging sets it up, no run ever puts a frame behind a page and the kernel's
   * own pages at the same time exactly when no free frame lies below the end of what those pages map.
   */
  lemma NeverSharedIff(s: Space, base: set<nat>, limit: nat)
    requires Owned(s, base, map[], limit) && |s.free| >= 2
    requires forall f :: f in s.free ==> f >= KERNEL_FRAME
    ensures NeverShared(s, limit) <==> forall f :: f in s.free ==> f >= SHARED_END
  {
    if forall f :: f in s.free ==> f >= SHARED_END {
      forall ops: seq<Op> | AllAllowed(ops) && NeverStarves(s, limit, ops)
        ensures Run(s, ops, limit).Typed() && Unshared(Run(s, ops, limit))
      {
        RunUnshared(s, base, limit, ops);
      }
    }
    if f :| f in s.free && f < SHARED_END {
      RunShares(s, base, limit);
    }
  }

  lemma RunUnshared(s: Space, base: set<nat>, limit: nat, ops: seq<Op>)
    requires Owned(s, base, map[], limit) && AllAllowed(ops) && NeverStarves(s, limit, ops)
    requires forall f :: f in s.free ==> f >= SHARED_END
    ensures Run(s, ops, limit).Typed() && Unshared(Run(s, ops, limit))
  {
    hide Unshared;
    OwnedOverRunsIff(s, base, limit, ops);
    var n := Run(s, ops, limit);
    assert IsOwned(n, base, limit);
    var o :| Owned(n, base, o, limit);
    forall f | f in o
      ensures f >= SHARED_END
    {
      assert f in o.Keys && f in Interval(0, limit) && f !in base;
    }
    UnsharedIf(n, base, o, limit);
  }

  lemma RunShares(s: Space, base: set<nat>, limit: nat)
    requires Owned(s, base, map[], limit) && |s.free| >= 2
    requires KERNEL_FRAME <= Min(s.free) < SHARED_END
    ensures !NeverShared(s, limit)
  {
    hide Space.Back, Holds, PagesHeld, Clean, Accounts, StaticTables, OtherPage;
    var op := BackPage(1, 0, READ_WRITE);
    assert !s.HasTable(1);
    assert |s.free - {Min(s.free)}| == |s.free| - 1;
    NextPageIsShared(s, base, map[], limit, 1, 0, READ_WRITE);
    OneStep(s, op, limit);
    var n := s.Back(1, 0, READ_WRITE).0;
    IsOtherPage(n, 1, 0, KERNEL, Min(s.free) - KERNEL_FRAME);
    assert AllAllowed([op]) && !Unshared(Run(s, [op], limit));
  }

  lemma OneStep(s: Space, op: Op, limit: nat)
    requires Allowed(op)
    ensures Run(s, [op], limit) == Step(s, op, limit)
    ensures NeverStarves(s, limit, [op]) <==> !StepStarves(s, op)
  {
    hide Step, StepStarves;
    assert [op][..0] == [];
    assert Run(s, [op][..0], limit) == s && NeverStarves(s, limit, [op][..0]);
  }

  lemma IsOtherPage(s: Space, i: nat, j: nat, k: nat, l: nat)
    requires s.Typed() && i < ENTRIES && j < ENTRIES && k < SELF && l < ENTRIES && (k != i || l != j)
    requires s.Mapped(k, l) && s.Target(k, l) == s.Target(i, j)
    ensures OtherPage(s, s.Target(i, j), PageOf(i, j))
  {
  }
}
