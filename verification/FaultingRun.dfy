/**
 * A run after which a client faults on a byte it asked for (kernel/kmalloc.c:19-25): the long block is
 * the last one and ends in the next page.
 */
module FaultingRun {
  import opened Machine
  import opened PagingTheorems
  import opened HeapModel
  import opened HeapStores
  import opened HeapSpace
  import opened KernelRuns
  import opened RunTheorems

  const FIRST := HEAP_START + META
  const SECOND := HEAP_START + 0x1_0000 + META

  const CALLS :=
    [Event.Kmalloc(0x1_0000), Event.Kmalloc(0xFE8), Event.Kfree(SECOND), Event.Kfree(FIRST), Event.Kmalloc(0x1_0FF8)]

  /** A request that needs no page the heap does not have. */
  lemma QuietKmalloc(w: World, n: u32, base: set<nat>, limit: nat)
    requires Good(w, base, limit) && w.space.free != {} && w.heap.end + n + META <= HEAP_END
    requires FirstFit(w.heap.blocks, n, 0) == |w.heap.blocks| ==> Resident(w.space, w.heap.end + n + META)
    ensures Good(Next(w, Event.Kmalloc(n)), base, limit)
    ensures Next(w, Event.Kmalloc(n)) ==
              w.(mem := Next(w, Event.Kmalloc(n)).mem, heap := Malloc(w.heap, n, true).0)
  {
    hide Sound, IsOwned, MallocMemory, SpaceAfterRequest, RequestRoom, RequestStarves, Resident;
    EndInside(w.mem, w.heap);
    if FirstFit(w.heap.blocks, n, 0) == |w.heap.blocks| {
      QuietRequest(w.space, base, limit, w.heap.end, n);
    }
    NextGoodIff(w, Event.Kmalloc(n), base, limit);
  }

  ghost function Steps(w: World): seq<World> {
    var w1 := Next(w, Event.Kmalloc(0x1_0000));
    var w2 := Next(w1, Event.Kmalloc(0xFE8));
    var w3 := Next(w2, Event.Kfree(SECOND));
    var w4 := Next(w3, Event.Kfree(FIRST));
    [w, w1, w2, w3, w4, Next(w4, Event.Kmalloc(0x1_0FF8))]
  }

  lemma RunIsSteps(w: World)
    ensures RunAll(w, CALLS) == Steps(w)[5]
  {
    hide Next;
    var r := CALLS;
    assert r[..4][..3] == r[..3] && r[..3][..2] == r[..2] && r[..2][..1] == r[..1] && r[..1][..0] == [];
    assert RunAll(w, r[..0]) == w;
    assert RunAll(w, r[..1]) == Steps(w)[1];
    assert RunAll(w, r[..2]) == Steps(w)[2];
    assert RunAll(w, r[..3]) == Steps(w)[3];
    assert RunAll(w, r[..4]) == Steps(w)[4];
  }

  /**
   * Residency fails. From the heap as it is set up, with its seventeen pages, three requests and two
   * releases leave one block whose payload ends sixteen bytes above end_of_heap, in the next page,
   * which nobody has mapped: the client's write to a byte it asked for faults.
   */
  lemma PayloadCanBeUnmapped(w: World, base: set<nat>, limit: nat, v: u8)
    requires Good(w, base, limit) && w.heap == Initial() && w.regions == [] && w.space.free != {}
    requires Resident(w.space, HEAP_START + 0x1_0FFF) && !MappedAt(w.space, HEAP_START + 0x1_1000)
    ensures var n := RunAll(w, CALLS);
      && Good(n, base, limit) && n.space == w.space
      && n.heap == Heap([Block(HEAP_START, 0x1_0FF8, 0x1_0FF8)], HEAP_START + 0x1_0FF8)
      && Shape(n.heap, 0) && ClientHas(n, FIRST, 0x1_0FF8, 0x1_0FF0)
      && Harmful(n, Write(FIRST, 0x1_0FF0, v)) && Next(n, Write(FIRST, 0x1_0FF0, v)).faulted
  {
    hide Next, Good;
    RunIsSteps(w);
    FirstThree(w, base, limit);
    LastTwo(Steps(w)[3], base, limit);
    FinalBlock(Steps(w)[5], base, limit, v);
  }

  ghost predicate TwoBlocks(w: World) {
    w.heap == Heap([Block(HEAP_START, 0x1_0000, 0x1_0000), Block(HEAP_START + 0x1_0000, 0xFE8, 0)],
                   HEAP_START + 0x1_0FF8)
  }

  lemma FirstThree(w: World, base: set<nat>, limit: nat)
    requires Good(w, base, limit) && w.heap == Initial() && w.regions == [] && w.space.free != {}
    requires Resident(w.space, HEAP_START + 0x1_0FFF)
    ensures var n := Steps(w)[3];
      Good(n, base, limit) && n.space == w.space && n.regions == [] && TwoBlocks(n)
  {
    hide Sound, IsOwned, MallocMemory, FreeMemory, SpaceAfterMalloc, RequestRoom;
    var h1 := Heap([Block(HEAP_START, 0x1_0000, 0x1_0000)], HEAP_START + 0x1_0000);
    assert FirstFit(w.heap.blocks, 0x1_0000, 0) == 0;
    QuietKmalloc(w, 0x1_0000, base, limit);
    var w1 := Next(w, Event.Kmalloc(0x1_0000));
    assert w1.heap == h1;
    assert FirstFit(h1.blocks, 0xFE8, 0) == FirstFit(h1.blocks, 0xFE8, 1) == 1;
    assert Resident(w1.space, HEAP_START + 0x1_0FF8);
    QuietKmalloc(w1, 0xFE8, base, limit);
    var w2 := Next(w1, Event.Kmalloc(0xFE8));
    assert w2.heap.blocks == [h1.blocks[0], Block(HEAP_START + 0x1_0000, 0xFE8, 0xFE8)];
    assert Position(w2.heap.blocks, SECOND, 0) == Position(w2.heap.blocks, SECOND, 1) == 1;
    NextGoodIff(w2, Event.Kfree(SECOND), base, limit);
  }

  lemma LastTwo(w: World, base: set<nat>, limit: nat)
    requires Good(w, base, limit) && w.space.free != {} && w.regions == [] && TwoBlocks(w)
    ensures var n := Next(Next(w, Event.Kfree(FIRST)), Event.Kmalloc(0x1_0FF8));
      && Good(n, base, limit) && n.space == w.space && n.regions == []
      && n.heap == Heap([Block(HEAP_START, 0x1_0FF8, 0x1_0FF8)], HEAP_START + 0x1_0FF8)
  {
    hide Sound, IsOwned, MallocMemory, FreeMemory, SpaceAfterMalloc, RequestRoom;
    assert Position(w.heap.blocks, FIRST, 0) == 0;
    NextGoodIff(w, Event.Kfree(FIRST), base, limit);
    var w4 := Next(w, Event.Kfree(FIRST));
    assert w4.heap.blocks == [Block(HEAP_START, 0x1_0FF8, 0)];
    assert FirstFit(w4.heap.blocks, 0x1_0FF8, 0) == 0;
    QuietKmalloc(w4, 0x1_0FF8, base, limit);
  }

  lemma FinalBlock(w: World, base: set<nat>, limit: nat, v: u8)
    requires Good(w, base, limit) && !MappedAt(w.space, HEAP_START + 0x1_1000) && w.regions == []
    requires w.heap == Heap([Block(HEAP_START, 0x1_0FF8, 0x1_0FF8)], HEAP_START + 0x1_0FF8)
    ensures Shape(w.heap, 0) && ClientHas(w, FIRST, 0x1_0FF8, 0x1_0FF0)
    ensures Harmful(w, Write(FIRST, 0x1_0FF0, v)) && Next(w, Write(FIRST, 0x1_0FF0, v)).faulted
  {
    assert Position(w.heap.blocks, FIRST, 0) == 0;
    assert w.heap.blocks[0].asked == 0x1_0FF8;
  }
}
