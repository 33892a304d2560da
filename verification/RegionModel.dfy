/** The list of virtual regions (kernel/vmm.c), which always tiles one address range. */
module RegionModel {
  import opened Machine

  const VIRTUAL_MEMORY_START := 0x40_0000
  const VIRTUAL_MEMORY_END := 0xC000_0000
  const BUFFER := 0x10
  /** sizeof(VirtualMemoryRegion) */
  const NODE_SIZE := 16

  /** `node` is where kmalloc put the region's own record. */
  datatype Region = Region(base: nat, size: nat, free: bool, node: nat)

  // ----- the operations -----

  function InitialRegions(node: nat): seq<Region> {
    [Region(VIRTUAL_MEMORY_START, VIRTUAL_MEMORY_END - VIRTUAL_MEMORY_START, true, node)]
  }

  /** align_size_to_page_size, in 32-bit arithmetic: the topmost sizes become 0. */
  function AlignUp(size: u32): u32 {
    Wrap(size + PAGE_SIZE - 1) / PAGE_SIZE * PAGE_SIZE
  }

  predicate Suits(r: Region, size: nat) {
    r.free && r.size >= size
  }

  /** find_first_free_virtual_memory_region, from position i on. */
  function FirstFree(rs: seq<Region>, size: nat, i: nat): nat
    requires i <= |rs|
    decreases |rs| - i
  {
    if i == |rs| || Suits(rs[i], size) then i else FirstFree(rs, size, i + 1)
  }

  /** split_virtual_memory_region; node is what kmalloc returned, and 0 means it failed. */
  function SplitRegion(rs: seq<Region>, i: nat, size: nat, node: nat): seq<Region>
    requires i < |rs|
  {
    var r := rs[i];
    if r.size <= size || node == 0 then rs
    else rs[..i] + [r.(size := size), Region(r.base + size, r.size - size, true, node)] + rs[i + 1..]
  }

  function WithFlag(rs: seq<Region>, i: nat, free: bool): seq<Region>
    requires i < |rs|
  {
    rs[i := rs[i].(free := free)]
  }

  /** The region vmm_alloc settles on, if it gets past its tests. */
  function Chosen(rs: seq<Region>, size: u32): Option<nat> {
    var s := AlignUp(size);
    var i := FirstFree(rs, s, 0);
    FirstFreeSuits(rs, s, 0);
    if s == 0 || i == |rs| || rs[i].size < s + BUFFER then None else Some(i)
  }

  /** vmm_alloc. `backed` says whether every page of the region got a frame. */
  function AllocRegion(rs: seq<Region>, size: u32, node: nat, backed: bool): (seq<Region>, nat) {
    ChosenSuits(rs, size);
    match Chosen(rs, size)
    case None => (rs, 0)
    case Some(i) =>
      var split := SplitRegion(rs, i, AlignUp(size), node);
      if backed then (WithFlag(split, i, false), rs[i].base) else (split, 0)
  }

  /** find_memory_region, from position i on. */
  function Find(rs: seq<Region>, ptr: nat, i: nat): nat
    requires i <= |rs|
    decreases |rs| - i
  {
    if i == |rs| || rs[i].base == ptr then i else Find(rs, ptr, i + 1)
  }

  /**
   * vmm_free, with the lower bound of its guard as a parameter: the source has KERNEL_HEAP_START
   * there. The successor is taken in if it is free.
   */
  function FreeRegion(rs: seq<Region>, ptr: nat, bound: nat): seq<Region> {
    FindFinds(rs, ptr, 0);
    var i := Find(rs, ptr, 0);
    if ptr == 0 || VIRTUAL_MEMORY_END <= ptr || ptr < bound || i == |rs| then rs
    else if i + 1 < |rs| && rs[i + 1].free then Merge(rs, i)
    else WithFlag(rs, i, true)
  }

  function Merge(rs: seq<Region>, i: nat): seq<Region>
    requires i + 1 < |rs|
  {
    rs[..i] + [rs[i].(size := rs[i].size + rs[i + 1].size, free := true)] + rs[i + 2..]
  }

  lemma {:induction false} FirstFreeSuits(rs: seq<Region>, size: nat, i: nat)
    requires i <= |rs|
    ensures var r := FirstFree(rs, size, i);
      && i <= r <= |rs| && (r < |rs| ==> Suits(rs[r], size))
      && forall j :: i <= j < r ==> !Suits(rs[j], size)
    decreases |rs| - i
  {
    if i < |rs| && !Suits(rs[i], size) { FirstFreeSuits(rs, size, i + 1); }
  }

  lemma ChosenSuits(rs: seq<Region>, size: u32)
    ensures var c := Chosen(rs, size);
      c.Some? ==> c.value < |rs| && Suits(rs[c.value], AlignUp(size) + BUFFER) && AlignUp(size) > 0
  {
    FirstFreeSuits(rs, AlignUp(size), 0);
  }

  lemma {:induction false} FindFinds(rs: seq<Region>, ptr: nat, i: nat)
    requires i <= |rs|
    ensures var r := Find(rs, ptr, i);
      && i <= r <= |rs| && (r < |rs| ==> rs[r].base == ptr)
      && forall j :: i <= j < r ==> rs[j].base != ptr
    decreases |rs| - i
  {
    if i < |rs| && rs[i].base != ptr { FindFinds(rs, ptr, i + 1); }
  }

  /** get_total_size */
  function TotalSize(rs: seq<Region>): nat {
    if rs == [] then 0 else TotalSize(rs[..|rs| - 1]) + rs[|rs| - 1].size
  }
}
