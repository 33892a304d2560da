/** Reading sectors through the BIOS (boot/stage2/disk.c, and the transfer of boot/stage2/x86.asm:82-123). */
module Disk {
  import opened Machine
  import opened Arithmetic

  const SECTOR_SIZE := 512
  const NUM_TRIES := 3

  // ----- addresses -----

  /** linear_to_segment_offset */
  function LinearToSegmentOffset(linear: u32): (u16, u16) {
    ((linear / 16) % 0x1_0000, linear % 16)
  }

  /** The byte a segment and an offset name in real mode. */
  function RealAddress(segment: u16, offset: u16): nat {
    16 * segment + offset
  }

  /** Only the low 20 bits of a buffer address survive, so the buffer must lie in the first megabyte. */
  lemma SegmentOffsetIff(linear: u32)
    ensures var (segment, offset) := LinearToSegmentOffset(linear);
      && RealAddress(segment, offset) == linear % 0x10_0000
      && (RealAddress(segment, offset) == linear <==> linear < 0x10_0000)
  {
    var q := linear / 16;
    assert linear % 0x10_0000 == 16 * (q % 0x1_0000) + linear % 16 by {
      assert q == 0x1_0000 * (q / 0x1_0000) + q % 0x1_0000;
    }
  }

  datatype Chs = Chs(cylinder: u8, head: u8, sector: u8)

  /** Heads per cylinder and sectors per track; lba_to_chs divides by both. */
  datatype Shape = Shape(heads: u8, sectors: u8) {
    predicate Usable() { heads > 0 && sectors > 0 }

    /** What eight bits of cylinder number can reach. */
    function Reach(): (r: nat)
      requires Usable()
      ensures r > 0
    {
      Positive(heads, sectors);
      256 * (heads * sectors)
    }
  }

  /** lba_to_chs */
  function LbaToChs(lba: u32, shape: Shape): Chs
    requires shape.Usable()
  {
    Positive(shape.heads, shape.sectors);
    var (h, s) := (shape.heads as nat, shape.sectors as nat);
    Chs((lba / (h * s)) % 256, (lba / s) % h, (lba % s + 1) % 256)
  }

  /** The sector a drive of this shape finds at a cylinder, head and sector number. */
  function ChsToLba(chs: Chs, shape: Shape): int {
    (chs.cylinder * shape.heads + chs.head) * shape.sectors + (chs.sector - 1)
  }

  predicate Addresses(chs: Chs, shape: Shape) {
    chs.head < shape.heads && 1 <= chs.sector <= shape.sectors
  }

  /** The drive finds the block asked for, modulo what eight bits of cylinder number can reach. */
  lemma ChsReaches(lba: u32, shape: Shape)
    requires shape.Usable()
    ensures Addresses(LbaToChs(lba, shape), shape)
    ensures ChsToLba(LbaToChs(lba, shape), shape) == lba % shape.Reach()
  {
    var (h, s) := (shape.heads as nat, shape.sectors as nat);
    DivideTwice(lba, s, h);
    Split(lba, h, s);
  }

  lemma Split(x: nat, h: nat, s: nat)
    requires h > 0 && s > 0
    ensures Times(256, Times(h, s)) > 0
    ensures Times(Times(x / s / h % 256, h) + x / s % h, s) + x % s == x % Times(256, Times(h, s))
  {
    Positive(h, s);
    var c, track := x / s / h, x / s;
    var cylinders := c / 256;
    assert c == Times(cylinders, 256) + c % 256;
    assert Times(256, Times(h, s)) > 0;
    hide Times;
    Divided(x, s);
    Divided(track, h);
    Regroup(cylinders, c % 256, track % h, x % s, h, s);
    PairFits(c % 256, track % h, 256, h);
    var low := Times(c % 256, h) + track % h;
    PairFits(low, x % s, Times(256, h), s);
    Reorder(256, h, s);
    Quotient(x, Times(256, Times(h, s)), cylinders, Times(low, s) + x % s);
  }

  lemma Regroup(cylinders: int, c: int, head: int, sector: int, h: int, s: int)
    ensures Times(Times(Times(cylinders, 256) + c, h) + head, s) + sector
         == Times(cylinders, Times(256, Times(h, s))) + (Times(Times(c, h) + head, s) + sector)
  {
    hide Times;
    Distribute(Times(cylinders, 256), c, h);
    Reorder(cylinders, 256, h);
    Distribute(Times(cylinders, Times(256, h)), Times(c, h) + head, s);
    Reorder(cylinders, Times(256, h), s);
    Reorder(256, h, s);
  }

  /** So the round trip holds exactly below 256 cylinders. */
  lemma ChsRoundTripIff(lba: u32, shape: Shape)
    requires shape.Usable()
    ensures ChsToLba(LbaToChs(lba, shape), shape) == lba <==> lba < shape.Reach()
  {
    ChsReaches(lba, shape);
    hide LbaToChs, ChsToLba, Shape.Reach;
    RemainderIff(lba, shape.Reach());
  }

  /** Every location of the drive is named by one triple only. */
  lemma ChsIsUnique(a: Chs, b: Chs, shape: Shape)
    requires shape.Usable() && Addresses(a, shape) && Addresses(b, shape)
    requires ChsToLba(a, shape) == ChsToLba(b, shape)
    ensures a == b
  {
    ChsDigits(a, shape);
    ChsDigits(b, shape);
  }

  /** Every location below 256 cylinders is reached: its block number leads back to it. */
  lemma LocationRoundTrip(a: Chs, shape: Shape)
    requires shape.Usable() && Addresses(a, shape)
    ensures 0 <= ChsToLba(a, shape) < 256 * (shape.heads * shape.sectors) <= 0x100_0000
    ensures LbaToChs(ChsToLba(a, shape), shape) == a
  {
    LocationBound(a, shape);
    ChsReaches(ChsToLba(a, shape), shape);
    hide LbaToChs, ChsToLba, Shape.Reach;
    RemainderIff(ChsToLba(a, shape), shape.Reach());
    ChsIsUnique(LbaToChs(ChsToLba(a, shape), shape), a, shape);
  }

  lemma LocationBound(a: Chs, shape: Shape)
    requires shape.Usable() && Addresses(a, shape)
    ensures 0 <= ChsToLba(a, shape) < shape.Reach() == 256 * (shape.heads * shape.sectors) <= 0x100_0000
  {
    var (h, s) := (shape.heads as nat, shape.sectors as nat);
    PairFits(a.cylinder, a.head, 256, h);
    PairFits(Times(a.cylinder, h) + a.head, a.sector - 1, Times(256, h), s);
    Reorder(256, h, s);
    ProductGrows(h, 256, s);
  }

  /** The triple can be read back from the location. */
  lemma ChsDigits(a: Chs, shape: Shape)
    requires shape.Usable() && Addresses(a, shape)
    ensures var x := ChsToLba(a, shape);
      x >= 0 && a.sector == x % shape.sectors + 1
             && a.head == x / shape.sectors % shape.heads && a.cylinder == x / shape.sectors / shape.heads
  {
    hide Shape.Reach;
    var track := a.cylinder * shape.heads + a.head;
    PairFits(a.cylinder, a.head, 256, shape.heads);
    Quotient(track * shape.sectors + (a.sector - 1), shape.sectors, track, a.sector - 1);
    Quotient(track, shape.heads, a.cylinder, a.head);
  }

  /** Two block numbers share a location exactly when they differ by a multiple of the reach. */
  lemma ChsCollideIff(a: u32, b: u32, shape: Shape)
    requires shape.Usable()
    ensures LbaToChs(a, shape) == LbaToChs(b, shape) <==> a % shape.Reach() == b % shape.Reach()
  {
    ChsReaches(a, shape);
    ChsReaches(b, shape);
    if a % shape.Reach() == b % shape.Reach() {
      ChsIsUnique(LbaToChs(a, shape), LbaToChs(b, shape), shape);
    }
  }

  // ----- transfers -----

  /** The sector field has six bits. */
  const SECTOR_LIMIT := 64

  /** Whether the drive has the location that the registers of a request name, and which sector that is. */
  predicate Found(chs: Chs, shape: Shape) {
    chs.head < shape.heads && 1 <= chs.sector % SECTOR_LIMIT <= shape.sectors
  }

  function FoundAt(chs: Chs, shape: Shape): int {
    var cylinder: int := chs.cylinder + 256 * (chs.sector / SECTOR_LIMIT);
    (cylinder * shape.heads + chs.head) * shape.sectors + (chs.sector % SECTOR_LIMIT - 1)
  }

  /** Drives report at most 63 sectors per track (boot/stage2/x86.asm:170-174), and then the fields do not mix. */
  lemma FieldsApart(chs: Chs, shape: Shape)
    requires shape.sectors < SECTOR_LIMIT && Addresses(chs, shape)
    ensures Found(chs, shape) && FoundAt(chs, shape) == ChsToLba(chs, shape)
  {
  }

  /** In general a location is found exactly if its sector number fits in six bits. */
  lemma FieldsApartIff(chs: Chs, shape: Shape)
    requires Addresses(chs, shape)
    ensures Found(chs, shape) && FoundAt(chs, shape) == ChsToLba(chs, shape) <==> chs.sector < 64
  {
    var (h, s, k) := (shape.heads as nat, shape.sectors as nat, chs.sector / 64);
    assert chs.sector == 64 * k + chs.sector % 64;
    if k > 0 {
      Positive(h, s);
      Spill(chs.cylinder, 256 * k, chs.head, h, s);
      ProductGrows(1, h * s, 256 * k);
      OneProduct(256 * k);
      assert Times(256 * k, Times(h, s)) == Times(h * s, 256 * k);
      hide Times;
    }
  }

  lemma Spill(cylinder: int, more: int, head: int, h: int, s: int)
    ensures ((cylinder + more) * h + head) * s == (cylinder * h + head) * s + Times(more, Times(h, s))
  {
    assert forall a, b :: Times(a, b) == a * b;
    Distribute(cylinder, more, h);
    Distribute(Times(cylinder, h) + head, Times(more, h), s);
    Reorder(more, h, s);
  }

  /** What the BIOS makes of one request: all of it, or an error after some of the bytes arrived. */
  datatype Attempt = Done | Failed(bytes: nat)

  function Overlay(memory: seq<u8>, at: nat, data: seq<u8>): (r: seq<u8>)
    requires at + |data| <= |memory|
    ensures |r| == |memory|
    ensures forall i :: 0 <= i < |memory| ==> r[i] == if at <= i < at + |data| then data[i - at] else memory[i]
  {
    memory[..at] + data + memory[at + |data|..]
  }

  /** The two memories differ at most in the given range. */
  ghost predicate SameOutside(a: seq<u8>, b: seq<u8>, lo: int, hi: int) {
    && |a| == |b|
    && forall i :: 0 <= i < |a| && !(lo <= i < hi) ==> a[i] == b[i]
  }

  /** A disk and the memory it transfers into. `outcome` decides how each request turns out. */
  class Drive {
    const shape: Shape
    const image: seq<u8>
    const outcome: nat -> Attempt
    const memory: array<u8>
    var attempts: nat

    constructor (shape: Shape, image: seq<u8>, outcome: nat -> Attempt, memory: array<u8>)
      ensures this.shape == shape && this.image == image && this.outcome == outcome && this.memory == memory
      ensures attempts == 0
    {
      this.shape, this.image, this.outcome, this.memory, attempts := shape, image, outcome, memory, 0;
    }

    /** The drive serves count sectors from a location it has; an empty request is an error. */
    predicate Serves(start: int, count: nat) {
      count > 0 && start >= 0 && SECTOR_SIZE * (start + count) <= |image|
    }

    function Data(start: int, count: nat): (bytes: seq<u8>)
      requires Serves(start, count)
      ensures |bytes| == SECTOR_SIZE * count
    {
      image[SECTOR_SIZE * start..SECTOR_SIZE * (start + count)]
    }

    /**
     * x86_disk_read. The BIOS takes the sector from the low six bits of CL and puts the upper two in
     * front of the cylinder.
     */
    method Transfer(chs: Chs, count: u8, segment: u16, offset: u16) returns (error: bool)
      requires RealAddress(segment, offset) + SECTOR_SIZE * count <= memory.Length
      modifies this`attempts, memory
      ensures attempts == old(attempts) + 1
      ensures error <==> !(Found(chs, shape) && Serves(FoundAt(chs, shape), count) && outcome(old(attempts)).Done?)
      ensures !error ==>
                memory[..] == Overlay(old(memory[..]), RealAddress(segment, offset), Data(FoundAt(chs, shape), count))
      ensures error ==> SameOutside(memory[..], old(memory[..]), RealAddress(segment, offset),
                                    RealAddress(segment, offset) + SECTOR_SIZE * count)
    {
      hide FoundAt;
      var at := RealAddress(segment, offset);
      var start := FoundAt(chs, shape);
      error := true;
      if Found(chs, shape) && Serves(start, count) {
        var data := Data(start, count);
        match outcome(attempts) {
          case Done => error := false;
          case Failed(bytes) => data := data[..if bytes < |data| then bytes else |data|];
        }
        forall i | 0 <= i < |data| {
          memory[at + i] := data[i];
        }
      }
      attempts := attempts + 1;
    }

    /** Request number k for these sectors succeeds. */
    predicate Succeeds(lba: u32, count: nat, k: nat)
      requires shape.Usable()
    {
      Serves(lba % shape.Reach(), count) && outcome(k).Done?
    }

    /** All requests that disk_read is willing to make from number k on fail. */
    predicate GivesUp(lba: u32, count: nat, k: nat)
      requires shape.Usable()
    {
      forall i :: k <= i < k + NUM_TRIES ==> !Succeeds(lba, count, i)
    }

    /** The number of requests made. */
    function Tries(lba: u32, count: nat, k: nat): nat
      requires shape.Usable()
    {
      if Succeeds(lba, count, k) then 1 else if Succeeds(lba, count, k + 1) then 2 else 3
    }

    /** disk_read */
    method DiskRead(lba: u32, num_sectors: u16, address: u32) returns (error: bool)
      requires shape.Usable() && shape.sectors < SECTOR_LIMIT
      requires address % 0x10_0000 + SECTOR_SIZE * (num_sectors % 256) <= memory.Length
      modifies this`attempts, memory
      ensures error <==> GivesUp(lba, num_sectors % 256, old(attempts))
      ensures attempts == old(attempts) + Tries(lba, num_sectors % 256, old(attempts))
      ensures error <==>
                && !Succeeds(lba, num_sectors % 256, old(attempts))
                && !Succeeds(lba, num_sectors % 256, old(attempts) + 1)
                && !Succeeds(lba, num_sectors % 256, old(attempts) + 2)
      ensures !error ==> Serves(lba % shape.Reach(), num_sectors % 256)
      ensures !error ==> memory[..] == Overlay(old(memory[..]), address % 0x10_0000,
                                               Data(lba % shape.Reach(), num_sectors % 256))
      ensures error ==> SameOutside(memory[..], old(memory[..]), address % 0x10_0000,
                                    address % 0x10_0000 + SECTOR_SIZE * (num_sectors % 256))
    {
      hide LbaToChs, ChsToLba, FoundAt, Found, Addresses, Shape.Reach;
      var (segment, offset) := LinearToSegmentOffset(address);
      SegmentOffsetIff(address);
      var chs := LbaToChs(lba, shape);
      ChsReaches(lba, shape);
      FieldsApart(chs, shape);
      ghost var count: nat := num_sectors % 256;
      ghost var at := address % 0x10_0000;
      var i := 0;
      while i < NUM_TRIES
        invariant 0 <= i <= NUM_TRIES
        invariant attempts == old(attempts) + i
        invariant forall k :: old(attempts) <= k < attempts ==> !Succeeds(lba, count, k)
        invariant SameOutside(memory[..], old(memory[..]), at, at + SECTOR_SIZE * count)
      {
        error := Transfer(chs, num_sectors % 256, segment, offset);
        if !error {
          assert memory[..] == Overlay(old(memory[..]), at, Data(lba % shape.Reach(), count));
          assert Succeeds(lba, count, old(attempts) + i);
          return;
        }
        i := i + 1;
      }
      error := true;
    }
  }
}
