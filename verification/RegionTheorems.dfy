/** What the region list keeps over all runs, and where vmm_alloc and vmm_free fall short. */
module RegionTheorems {
  import opened Machine
  import HeapModel
  import opened RegionModel

  predicate IsPages(size: nat) {
    size > 0 && size % PAGE_SIZE == 0
  }

  /** The regions are whole pages and cover the range without gap or overlap, in order. */
  ghost predicate Tiling(rs: seq<Region>) {
    && rs != [] && rs[0].base == VIRTUAL_MEMORY_START
    && (forall i :: 0 <= i < |rs| - 1 ==> rs[i + 1].base == rs[i].base + rs[i].size)
    && rs[|rs| - 1].base + rs[|rs| - 1].size == VIRTUAL_MEMORY_END
    && (forall i :: 0 <= i < |rs| ==> IsPages(rs[i].size))
  }

  lemma InitialTiling(node: nat)
    ensures Tiling(InitialRegions(node))
  {
  }

  lemma AlignedSize(size: u32)
    ensures AlignUp(size) % PAGE_SIZE == 0
    ensures 0 < size <= 0xFFFF_F000 ==> size <= AlignUp(size) < size + PAGE_SIZE
    ensures AlignUp(size) == 0 <==> size == 0 || size > 0xFFFF_F000
  {
  }

  lemma PagesDiffer(a: nat, b: nat)
    requires IsPages(a) && IsPages(b)
    ensures IsPages(a + b) && (a > b ==> IsPages(a - b))
  {
  }

  lemma SplitElement(rs: seq<Region>, i: nat, size: nat, node: nat, j: nat)
    requires i < |rs| && size < rs[i].size && node != 0 && j <= |rs|
    ensures var g := SplitRegion(rs, i, size, node);
      && |g| == |rs| + 1
      && g[j] == (if j < i then rs[j] else if j == i then rs[i].(size := size)
                  else if j == i + 1 then Region(rs[i].base + size, rs[i].size - size, true, node) else rs[j - 1])
  {
  }

  lemma SplitTiling(rs: seq<Region>, i: nat, size: nat, node: nat)
    requires Tiling(rs) && i < |rs| && IsPages(size)
    ensures Tiling(SplitRegion(rs, i, size, node))
  {
    var g := SplitRegion(rs, i, size, node);
    if g != rs {
      hide IsPages, SplitRegion;
      SplitElement(rs, i, size, node, 0);
      SplitElement(rs, i, size, node, |rs|);
      assert IsPages(rs[i].size);
      PagesDiffer(rs[i].size, size);
      forall j | 0 <= j < |g|
        ensures IsPages(g[j].size) && (j < |rs| ==> g[j + 1].base == g[j].base + g[j].size)
      {
        SplitElement(rs, i, size, node, j);
        if j < |rs| { SplitElement(rs, i, size, node, j + 1); }
      }
    }
  }

  lemma SetFreeTiling(rs: seq<Region>, i: nat, free: bool)
    requires Tiling(rs) && i < |rs|
    ensures Tiling(WithFlag(rs, i, free))
  {
    var g := WithFlag(rs, i, free);
    forall j | 0 <= j < |g| - 1
      ensures g[j + 1].base == g[j].base + g[j].size
    {
      assert rs[j + 1].base == rs[j].base + rs[j].size;
    }
  }

  /** vmm_alloc keeps the tiling, also when it splits and then finds no frame or no record. */
  lemma AllocTiling(rs: seq<Region>, size: u32, node: nat, backed: bool)
    requires Tiling(rs)
    ensures Tiling(AllocRegion(rs, size, node, backed).0)
  {
    ChosenSuits(rs, size);
    AlignedSize(size);
    var c := Chosen(rs, size);
    if c.Some? {
      SplitTiling(rs, c.value, AlignUp(size), node);
      SetFreeTiling(SplitRegion(rs, c.value, AlignUp(size), node), c.value, false);
    }
  }

  lemma MergeElement(rs: seq<Region>, i: nat, j: nat)
    requires i + 1 < |rs| && j + 1 < |rs|
    ensures var g := Merge(rs, i);
      && |g| == |rs| - 1
      && g[j] == (if j < i then rs[j]
                  else if j == i then rs[i].(size := rs[i].size + rs[i + 1].size, free := true) else rs[j + 1])
  {
  }

  lemma MergeTiling(rs: seq<Region>, i: nat)
    requires Tiling(rs) && i + 1 < |rs|
    ensures Tiling(Merge(rs, i))
  {
    hide IsPages, Merge;
    var g := Merge(rs, i);
    MergeElement(rs, i, 0);
    MergeElement(rs, i, |rs| - 2);
    assert IsPages(rs[i].size) && IsPages(rs[i + 1].size);
    PagesDiffer(rs[i].size, rs[i + 1].size);
    assert rs[i + 1].base == rs[i].base + rs[i].size;
    forall j | 0 <= j < |g|
      ensures IsPages(g[j].size) && (j < |g| - 1 ==> g[j + 1].base == g[j].base + g[j].size)
    {
      MergeElement(rs, i, j);
      if j < |g| - 1 { MergeElement(rs, i, j + 1); }
    }
  }

  /** vmm_free keeps the tiling whatever its bound is. */
  lemma FreeTiling(rs: seq<Region>, ptr: nat, bound: nat)
    requires Tiling(rs)
    ensures Tiling(FreeRegion(rs, ptr, bound))
  {
    hide Tiling, Merge, WithFlag;
    FindFinds(rs, ptr, 0);
    var i := Find(rs, ptr, 0);
    if i + 1 < |rs| { MergeTiling(rs, i); }
    if i < |rs| { SetFreeTiling(rs, i, true); }
  }

  // ----- all runs -----

  datatype Op = Request(size: u32, node: nat, backed: bool) | Release(ptr: nat)

  function Run(rs: seq<Region>, ops: seq<Op>, bound: nat): seq<Region> {
    if ops == [] then rs
    else
      var before := Run(rs, ops[..|ops| - 1], bound);
      match ops[|ops| - 1]
      case Request(size, node, backed) => AllocRegion(before, size, node, backed).0
      case Release(ptr) => FreeRegion(before, ptr, bound)
  }

  /**
   * After every run of requests, failed requests and releases, the regions tile the range and their
   * sizes add up to it, with the guard of vmm_free as it stands or with any other bound.
   */
  lemma {:induction false} RunTiles(node: nat, ops: seq<Op>, bound: nat)
    ensures var rs := Run(InitialRegions(node), ops, bound);
      Tiling(rs) && TotalSize(rs) == VIRTUAL_MEMORY_END - VIRTUAL_MEMORY_START
    decreases |ops|
  {
    if ops == [] {
      InitialTiling(node);
    } else {
      var before := Run(InitialRegions(node), ops[..|ops| - 1], bound);
      RunTiles(node, ops[..|ops| - 1], bound);
      match ops[|ops| - 1]
      case Request(size, n, backed) => AllocTiling(before, size, n, backed);
      case Release(ptr) => FreeTiling(before, ptr, bound);
    }
    TilingTotal(Run(InitialRegions(node), ops, bound));
  }

  lemma {:induction false} PrefixTotal(rs: seq<Region>, n: nat)
    requires Tiling(rs) && n < |rs|
    ensures TotalSize(rs[..n + 1]) == rs[n].base + rs[n].size - VIRTUAL_MEMORY_START
    decreases n
  {
    assert rs[..n + 1][..n] == rs[..n];
    if n == 0 {
      assert TotalSize(rs[..0]) == 0;
    } else {
      PrefixTotal(rs, n - 1);
      assert rs[n - 1 + 1].base == rs[n - 1].base + rs[n - 1].size;
    }
  }

  lemma TilingTotal(rs: seq<Region>)
    requires Tiling(rs)
    ensures TotalSize(rs) == VIRTUAL_MEMORY_END - VIRTUAL_MEMORY_START
  {
    PrefixTotal(rs, |rs| - 1);
    assert rs[..|rs|] == rs;
  }

  // ----- which addresses are free -----

  /** Address x lies in a region that is free. */
  predicate FreeAt(rs: seq<Region>, x: nat) {
    exists i :: 0 <= i < |rs| && rs[i].base <= x < rs[i].base + rs[i].size && rs[i].free
  }

  /** The addresses from lo up to but not including hi go from free to used, and no other changes. */
  ghost predicate Takes(rs: seq<Region>, g: seq<Region>, lo: nat, hi: nat) {
    forall x: nat :: if lo <= x < hi then FreeAt(rs, x) && !FreeAt(g, x) else FreeAt(g, x) == FreeAt(rs, x)
  }

  /** They become free, and no other changes. */
  ghost predicate Frees(rs: seq<Region>, g: seq<Region>, lo: nat, hi: nat) {
    forall x: nat :: FreeAt(g, x) <==> FreeAt(rs, x) || lo <= x < hi
  }

  ghost predicate SameFree(rs: seq<Region>, g: seq<Region>) {
    forall x: nat :: FreeAt(g, x) == FreeAt(rs, x)
  }

  /** In a tiling an address has one region. */
  lemma OneRegion(rs: seq<Region>, i: nat, j: nat, x: nat)
    requires Tiling(rs) && i < |rs| && j < |rs|
    requires rs[i].base <= x < rs[i].base + rs[i].size && rs[j].base <= x < rs[j].base + rs[j].size
    ensures i == j
  {
    if i < j { RegionsInOrder(rs, i, j); } else if j < i { RegionsInOrder(rs, j, i); }
  }

  /** Splitting a free region changes no address. */
  lemma SplitSameFree(rs: seq<Region>, i: nat, size: nat, node: nat)
    requires i < |rs| && rs[i].free
    ensures SameFree(rs, SplitRegion(rs, i, size, node))
  {
    var g := SplitRegion(rs, i, size, node);
    if g != rs {
      hide SplitRegion;
      forall x: nat
        ensures FreeAt(g, x) == FreeAt(rs, x)
      {
        if k :| 0 <= k < |rs| && rs[k].base <= x < rs[k].base + rs[k].size && rs[k].free {
          var j := if k < i || (k == i && x < rs[i].base + size) then k else k + 1;
          SplitElement(rs, i, size, node, j);
          assert g[j].base <= x < g[j].base + g[j].size && g[j].free;
        }
        if j :| 0 <= j < |g| && g[j].base <= x < g[j].base + g[j].size && g[j].free {
          SplitElement(rs, i, size, node, j);
          var k := if j <= i then j else j - 1;
          assert rs[k].base <= x < rs[k].base + rs[k].size && rs[k].free;
        }
      }
    }
  }

  /** Setting the flag of one region changes its addresses and no other. */
  lemma FlagOneRegion(rs: seq<Region>, i: nat, free: bool, x: nat)
    requires Tiling(rs) && i < |rs|
    ensures FreeAt(WithFlag(rs, i, free), x) <==>
              if rs[i].base <= x < rs[i].base + rs[i].size then free else FreeAt(rs, x)
  {
    var g := WithFlag(rs, i, free);
    if rs[i].base <= x < rs[i].base + rs[i].size {
      if free { assert g[i].free; }
      if j :| 0 <= j < |g| && g[j].base <= x < g[j].base + g[j].size && g[j].free { OneRegion(rs, i, j, x); }
    } else {
      if j :| 0 <= j < |g| && g[j].base <= x < g[j].base + g[j].size && g[j].free {
        assert rs[j] == g[j];
      }
      if j :| 0 <= j < |rs| && rs[j].base <= x < rs[j].base + rs[j].size && rs[j].free {
        assert g[j] == rs[j];
      }
    }
  }

  lemma FlagTakes(rs: seq<Region>, i: nat)
    requires Tiling(rs) && i < |rs| && rs[i].free
    ensures Takes(rs, WithFlag(rs, i, false), rs[i].base, rs[i].base + rs[i].size)
  {
    forall x: nat
      ensures if rs[i].base <= x < rs[i].base + rs[i].size then FreeAt(rs, x) && !FreeAt(WithFlag(rs, i, false), x)
              else FreeAt(WithFlag(rs, i, false), x) == FreeAt(rs, x)
    {
      FlagOneRegion(rs, i, false, x);
    }
  }

  lemma TakesAfter(rs: seq<Region>, split: seq<Region>, g: seq<Region>, lo: nat, hi: nat)
    requires SameFree(rs, split) && Takes(split, g, lo, hi)
    ensures Takes(rs, g, lo, hi)
  {
    forall x: nat
      ensures if lo <= x < hi then FreeAt(rs, x) && !FreeAt(g, x) else FreeAt(g, x) == FreeAt(rs, x)
    {
      assert FreeAt(split, x) == FreeAt(rs, x);
    }
  }

  /** Splitting a free region and taking its first part. */
  lemma SplitTakes(rs: seq<Region>, i: nat, size: nat, node: nat)
    requires Tiling(rs) && i < |rs| && rs[i].free && IsPages(size)
    ensures var split := SplitRegion(rs, i, size, node);
      && i < |split| && SameFree(rs, split)
      && Takes(rs, WithFlag(split, i, false), rs[i].base, rs[i].base + split[i].size)
  {
    hide Takes, SameFree;
    var split := SplitRegion(rs, i, size, node);
    SplitTiling(rs, i, size, node);
    SplitSameFree(rs, i, size, node);
    FlagTakes(split, i);
    TakesAfter(rs, split, WithFlag(split, i, false), split[i].base, split[i].base + split[i].size);
  }

  /**
   * vmm_alloc takes exactly the range it returns: those addresses go from free to used, and every other
   * address keeps its flag. A call that returns null changes the flag of no address.
   */
  lemma AllocTakes(rs: seq<Region>, size: u32, node: nat, backed: bool)
    requires Tiling(rs)
    ensures var (g, ptr) := AllocRegion(rs, size, node, backed);
      if ptr == 0 then SameFree(rs, g)
      else
        var i := Chosen(rs, size);
        && i.Some? && i.value < |rs| && ptr == rs[i.value].base
        && Takes(rs, g, ptr, ptr + (if node == 0 then rs[i.value].size else AlignUp(size)))
  {
    ChosenSuits(rs, size);
    AlignedSize(size);
    var c := Chosen(rs, size);
    if c.Some? {
      var (i, s) := (c.value, AlignUp(size));
      RegionAligned(rs, i);
      SplitTakes(rs, i, s, node);
    } else {
      assert SameFree(rs, rs);
    }
  }

  lemma FreeAfterMerge(rs: seq<Region>, i: nat, x: nat, k: nat)
    requires i + 1 < |rs| && k < |rs| && rs[i + 1].free && rs[i + 1].base == rs[i].base + rs[i].size
    requires rs[k].base <= x < rs[k].base + rs[k].size && (rs[k].free || k == i)
    ensures FreeAt(Merge(rs, i), x)
  {
    hide Merge;
    var j := if k <= i then k else k - 1;
    MergeElement(rs, i, j);
    assert Merge(rs, i)[j].base <= x < Merge(rs, i)[j].base + Merge(rs, i)[j].size && Merge(rs, i)[j].free;
  }

  lemma FreeBeforeMerge(rs: seq<Region>, i: nat, x: nat, j: nat)
    requires i + 1 < |rs| && rs[i + 1].free && rs[i + 1].base == rs[i].base + rs[i].size
    requires var g := Merge(rs, i);
      j < |g| && g[j].base <= x < g[j].base + g[j].size && g[j].free
    ensures FreeAt(rs, x) || rs[i].base <= x < rs[i].base + rs[i].size
  {
    MergeElement(rs, i, 0);
    hide Merge;
    MergeElement(rs, i, j);
    var k := if j < i then j else if j == i then (if x < rs[i + 1].base then i else i + 1) else j + 1;
    assert rs[k].base <= x < rs[k].base + rs[k].size && (rs[k].free || k == i);
  }

  /** Merging a region with a free successor frees its addresses and changes no other. */
  lemma MergeFrees(rs: seq<Region>, i: nat)
    requires Tiling(rs) && i + 1 < |rs| && rs[i + 1].free
    ensures Frees(rs, Merge(rs, i), rs[i].base, rs[i].base + rs[i].size)
  {
    assert rs[i + 1].base == rs[i].base + rs[i].size;
    hide Merge, Tiling;
    var g := Merge(rs, i);
    forall x: nat
      ensures FreeAt(g, x) <==> FreeAt(rs, x) || rs[i].base <= x < rs[i].base + rs[i].size
    {
      if k: nat :| k < |rs| && rs[k].base <= x < rs[k].base + rs[k].size && (rs[k].free || k == i) {
        FreeAfterMerge(rs, i, x, k);
      }
      if j: nat :| j < |g| && g[j].base <= x < g[j].base + g[j].size && g[j].free {
        FreeBeforeMerge(rs, i, x, j);
      }
    }
  }

  /**
   * vmm_free of the base of a region that the bound admits frees that region's addresses, and no others; a
   * free successor is taken in.
   */
  lemma FreeFrees(rs: seq<Region>, i: nat, bound: nat)
    requires Tiling(rs) && i < |rs| && bound <= rs[i].base
    ensures var g := FreeRegion(rs, rs[i].base, bound);
      && Frees(rs, g, rs[i].base, rs[i].base + rs[i].size)
      && |g| == if i + 1 < |rs| && rs[i + 1].free then |rs| - 1 else |rs|
  {
    hide Merge, WithFlag, Frees;
    FindsOwnBase(rs, i);
    RegionAligned(rs, i);
    assert IsPages(rs[i].size);
    if i + 1 < |rs| && rs[i + 1].free {
      MergeElement(rs, i, 0);
      MergeFrees(rs, i);
    } else {
      FlagFrees(rs, i);
    }
  }

  lemma FlagFrees(rs: seq<Region>, i: nat)
    requires Tiling(rs) && i < |rs|
    ensures Frees(rs, WithFlag(rs, i, true), rs[i].base, rs[i].base + rs[i].size)
    ensures |WithFlag(rs, i, true)| == |rs|
  {
    forall x: nat
      ensures FreeAt(WithFlag(rs, i, true), x) <==> FreeAt(rs, x) || rs[i].base <= x < rs[i].base + rs[i].size
    {
      FlagOneRegion(rs, i, true, x);
    }
  }

  /** Any other pointer changes nothing. */
  lemma FreeIgnores(rs: seq<Region>, ptr: nat, bound: nat)
    requires (forall i :: 0 <= i < |rs| ==> rs[i].base != ptr) || ptr < bound
    ensures FreeRegion(rs, ptr, bound) == rs
  {
    FindFinds(rs, ptr, 0);
  }

  // ----- one call -----

  lemma {:induction false} RegionsInOrder(rs: seq<Region>, i: nat, j: nat)
    requires Tiling(rs) && i < j < |rs|
    ensures rs[i].base + rs[i].size <= rs[j].base
    decreases j - i
  {
    assert rs[i + 1].base == rs[i].base + rs[i].size;
    if i + 1 < j { RegionsInOrder(rs, i + 1, j); }
  }

  lemma {:induction false} RegionAligned(rs: seq<Region>, i: nat)
    requires Tiling(rs) && i < |rs|
    ensures rs[i].base % PAGE_SIZE == 0
    ensures VIRTUAL_MEMORY_START <= rs[i].base && rs[i].base + rs[i].size <= VIRTUAL_MEMORY_END
  {
    if i < |rs| - 1 { RegionsInOrder(rs, i, |rs| - 1); }
    if i > 0 {
      RegionAligned(rs, i - 1);
      assert rs[i - 1 + 1].base == rs[i - 1].base + rs[i - 1].size;
    }
  }

  /**
   * A non-null result is the base of one region of the new list: page-aligned, in use now and free
   * before, at least as long as asked, and apart from every other region.
   */
  lemma AllocSound(rs: seq<Region>, size: u32, node: nat, ptr: nat)
    requires Tiling(rs) && AllocRegion(rs, size, node, true).1 == ptr && ptr != 0
    ensures var (g, i) := (AllocRegion(rs, size, node, true).0, Chosen(rs, size));
      && i.Some? && i.value < |g| && i.value < |rs| && rs[i.value].free && !g[i.value].free
      && g[i.value].base == ptr && ptr % PAGE_SIZE == 0 && g[i.value].size >= size > 0
      && (node != 0 ==> g[i.value].size == AlignUp(size))
      && forall j :: 0 <= j < |g| && j != i.value ==>
           g[j].base + g[j].size <= ptr || ptr + g[i.value].size <= g[j].base
  {
    ChosenSuits(rs, size);
    AlignedSize(size);
    AllocTiling(rs, size, node, true);
    var (g, i) := (AllocRegion(rs, size, node, true).0, Chosen(rs, size).value);
    RegionAligned(g, i);
    forall j | 0 <= j < |g| && j != i
      ensures g[j].base + g[j].size <= ptr || ptr + g[i].size <= g[j].base
    {
      if j < i { RegionsInOrder(g, j, i); } else { RegionsInOrder(g, i, j); }
    }
  }

  ghost predicate IsFirstFit(rs: seq<Region>, s: nat, i: nat) {
    i < |rs| && Suits(rs[i], s) && forall j :: 0 <= j < i ==> !Suits(rs[j], s)
  }

  /**
   * vmm_alloc gets as far as its pages exactly when the aligned size is not 0 and the first free
   * region that holds it is longer than it: an exact fit is refused, even if a later region is not.
   */
  lemma ChosenIff(rs: seq<Region>, size: u32)
    requires Tiling(rs)
    ensures Chosen(rs, size).Some? <==>
              (0 < size <= 0xFFFF_F000
               && exists i: nat :: IsFirstFit(rs, AlignUp(size), i) && rs[i].size > AlignUp(size))
  {
    AlignedSize(size);
    var s := AlignUp(size);
    FirstFreeSuits(rs, s, 0);
    var i := FirstFree(rs, s, 0);
    if i < |rs| {
      assert IsFirstFit(rs, s, i) && IsPages(rs[i].size);
      if rs[i].size > s { LongerByAPage(rs[i].size, s); }
    }
  }

  lemma LongerByAPage(a: nat, b: nat)
    requires a % PAGE_SIZE == 0 && b % PAGE_SIZE == 0 && a > b
    ensures a >= b + PAGE_SIZE
  {
  }

  /** Two free regions, and a request for the length of the first is refused. */
  lemma ExactFitRefused()
    ensures var rs := [Region(VIRTUAL_MEMORY_START, 0x1000, true, 1),
                       Region(VIRTUAL_MEMORY_START + 0x1000,
                              VIRTUAL_MEMORY_END - VIRTUAL_MEMORY_START - 0x1000, true, 2)];
      Tiling(rs) && Suits(rs[1], 0x1000 + BUFFER) && AllocRegion(rs, 0x1000, 3, true) == (rs, 0)
  {
  }

  /**
   * A request that was split off but found no frame leaves a free region of exactly its size, so
   * the same request is refused from then on, whatever frames and records there are.
   */
  lemma FailedRequestIsRefused(rs: seq<Region>, size: u32, node: nat, node': nat, backed: bool)
    requires Tiling(rs) && Chosen(rs, size).Some? && node != 0
    ensures var g := AllocRegion(rs, size, node, false).0;
      AllocRegion(g, size, node', backed) == (g, 0)
  {
    ChosenSuits(rs, size);
    var s := AlignUp(size);
    var g := AllocRegion(rs, size, node, false).0;
    FirstFreeSuits(rs, s, 0);
    FirstFreeSuits(g, s, 0);
    var i := FirstFree(rs, s, 0);
    assert Suits(g[i], s) && g[i].size == s;
    assert forall j :: 0 <= j < i ==> g[j] == rs[j];
    assert FirstFree(g, s, 0) == i;
  }

  lemma FindsOwnBase(rs: seq<Region>, i: nat)
    requires Tiling(rs) && i < |rs|
    ensures Find(rs, rs[i].base, 0) == i
  {
    FindFinds(rs, rs[i].base, 0);
    var f := Find(rs, rs[i].base, 0);
    assert IsPages(rs[f].size);
    if f < i { RegionsInOrder(rs, f, i); }
  }

  /** The base of a region in use: exactly when the bound lets it through does vmm_free free it. */
  lemma FreeActsIff(rs: seq<Region>, i: nat, bound: nat)
    requires Tiling(rs) && i < |rs| && !rs[i].free
    ensures var g := FreeRegion(rs, rs[i].base, bound);
      if bound <= rs[i].base then i < |g| && g[i].base == rs[i].base && g[i].free else g == rs
  {
    RegionAligned(rs, i);
    FindsOwnBase(rs, i);
    assert IsPages(rs[i].size);
    if i + 1 < |rs| { MergeElement(rs, i, i); }
  }

  /** With the bound the source has, that is never: no call of vmm_free changes the list. */
  lemma FreeDoesNothing(rs: seq<Region>, ptr: nat)
    ensures FreeRegion(rs, ptr, HeapModel.HEAP_START) == rs
  {
  }
}
