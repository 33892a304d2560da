/** A state right after paging is set up in which the next page starves. */
module Starvation {
  import opened Machine
  import opened PageTables
  import opened SpaceModel
  import opened Ownership
  import opened Staging
  import opened PagingTheorems

  function Filled(first: nat, flags: PageFlags): (p: Page)
    requires first + ENTRIES <= FRAMES
    ensures forall j :: 0 <= j < ENTRIES ==> p[j] == (first + j) * PAGE_SIZE + flags
  {
    seq(ENTRIES, j requires 0 <= j < ENTRIES => (first + j) * PAGE_SIZE + flags)
  }

  function Blank(): (r: Ram)
    ensures forall f :: 0 <= f < FRAMES ==> r[f] == Zeros()
  {
    seq<Page>(FRAMES, f => Zeros())
  }

  /** Directory in frame 1, identity table in 2, kernel table in 3, frame 4 free, and no more. */
  ghost function LastFrameState(): Space {
    var dir := Zeros()[0 := 2 * PAGE_SIZE + 1][KERNEL := 3 * PAGE_SIZE + 3][SELF := 1 * PAGE_SIZE + 3];
    Space(Blank()[1 := dir][2 := Filled(0, 1)][3 := Filled(KERNEL_FRAME, 3)], 1, {4})
  }

  /** It is owned, mapping the first page behind an absent table starves, and ownership is lost. */
  lemma OwnershipCanBeLost()
    ensures var s := LastFrameState();
      && Owned(s, {0, 1, 2, 3}, map[], 5) && Starves(s, STAGE)
      && !IsOwned(s.Back(STAGE, 0, READ_WRITE).0, {0, 1, 2, 3}, 5)
  {
    var s := LastFrameState();
    assert s.ram[1][STAGE] == 0;
    assert Interval(0, 5) - s.free == {0, 1, 2, 3};
    LayoutOwned(s, {0, 1, 2, 3}, 5, 2, 3);
    assert s.free - {Min(s.free)} == {};
    BackOwnedIff(s, {0, 1, 2, 3}, map[], 5, STAGE, 0, READ_WRITE);
  }
}
