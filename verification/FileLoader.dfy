/** Reading the directory and the table, finding a file and loading it (boot/stage2/FAT.c:37-55 and :79-127). */
module FileLoader {
  import opened Machine
  import opened Arithmetic
  import opened Bits
  import opened Fat12
  import opened Disk

  const DIRECTORY_ENTRY_BYTE_SIZE := 32
  const NAME_SIZE := 11

  /** The fields of the boot sector that locate the clusters. */
  datatype Bpb = Bpb(bytesPerSector: u16, sectorsPerCluster: u8, reservedSectors: u16,
                     numFATs: u8, maxRootDirEntries: u16, sectorsPerFAT: u16) {
    /** How far read_file moves its output pointer after each cluster. */
    function Stride(): int {
      Times(sectorsPerCluster, bytesPerSector)
    }

    /** All copies of the table. */
    function FatSectors(): (n: nat)
      ensures n < 0x100_0000
    {
      Small(numFATs, sectorsPerFAT);
      Times(numFATs, sectorsPerFAT)
    }

    function DirectorySectors(): (n: nat)
      requires bytesPerSector > 0
      ensures n < 0x20_0000
    {
      DividedIsSmaller(maxRootDirEntries * DIRECTORY_ENTRY_BYTE_SIZE, bytesPerSector);
      maxRootDirEntries * DIRECTORY_ENTRY_BYTE_SIZE / bytesPerSector
    }

    /** The first sector of the data area. */
    function DirectoryEnd(): nat
      requires bytesPerSector > 0
    {
      reservedSectors + DirectorySectors() + FatSectors()
    }

    /** The first sector of a cluster, in unsigned 32-bit arithmetic. */
    function ClusterLba(c: u32): u32
      requires bytesPerSector > 0
    {
      Wrap(DirectoryEnd() + Times(Wrap(c - 2), sectorsPerCluster))
    }
  }

  /** For the data clusters of a FAT12 volume that arithmetic never wraps. */
  lemma ClusterLbaExact(bpb: Bpb, c: u32)
    requires bpb.bytesPerSector > 0 && 2 <= c < 0x1000
    ensures bpb.ClusterLba(c) == bpb.DirectoryEnd() + Times(c - 2, bpb.sectorsPerCluster)
  {
    hide Times;
    ProductGrows(c - 2, 0x1000, bpb.sectorsPerCluster);
    ProductGrows(bpb.numFATs, 256, bpb.sectorsPerFAT);
    Small(0x1000, bpb.sectorsPerCluster);
    Small(256, bpb.sectorsPerFAT);
    DividedIsSmaller(bpb.maxRootDirEntries * DIRECTORY_ENTRY_BYTE_SIZE, bpb.bytesPerSector);
  }

  // ----- the areas of the volume -----

  /** The data area begins behind the reserved sectors, the tables and the root directory. */
  lemma ClusterPlace(bpb: Bpb, c: u32)
    requires bpb.bytesPerSector > 0 && 2 <= c < 0x1000
    ensures bpb.ClusterLba(c) == bpb.reservedSectors + bpb.numFATs * bpb.sectorsPerFAT
                               + bpb.maxRootDirEntries * 32 / bpb.bytesPerSector + (c - 2) * bpb.sectorsPerCluster
  {
    ClusterLbaExact(bpb, c);
    hide Bpb.ClusterLba;
  }

  /** How many sectors the tables and the root directory take, by the fields. */
  lemma AreaSizes(bpb: Bpb)
    requires bpb.bytesPerSector > 0
    ensures bpb.FatSectors() == bpb.numFATs * bpb.sectorsPerFAT < 0x100_0000
    ensures bpb.DirectorySectors() == bpb.maxRootDirEntries * 32 / bpb.bytesPerSector < 0x20_0000
  {
  }

  lemma AreasAdd(bpb: Bpb)
    requires bpb.bytesPerSector > 0
    ensures bpb.reservedSectors + bpb.FatSectors() + bpb.DirectorySectors() == bpb.ClusterLba(2)
  {
    ClusterLbaExact(bpb, 2);
    OneProduct(bpb.sectorsPerCluster);
    hide Bpb.ClusterLba;
  }

  /** Sector s lies in a reserved sector, in a copy of the table or in the root directory. */
  ghost predicate SystemSector(bpb: Bpb, s: int)
    requires bpb.bytesPerSector > 0
  {
    var directory := bpb.reservedSectors + bpb.FatSectors();
    || 0 <= s < bpb.reservedSectors
    || (exists copy :: InCopy(bpb, copy, s))
    || directory <= s < directory + bpb.DirectorySectors()
  }

  predicate InCopy(bpb: Bpb, copy: int, s: int) {
    var start := bpb.reservedSectors + copy * bpb.sectorsPerFAT;
    0 <= copy < bpb.numFATs && start <= s < start + bpb.sectorsPerFAT
  }

  /** The system area is what lies below cluster 2, without a gap. */
  lemma SystemSectorIff(bpb: Bpb, s: int)
    requires bpb.bytesPerSector > 0
    ensures SystemSector(bpb, s) <==> 0 <= s < bpb.ClusterLba(2)
  {
    hide Bpb.ClusterLba, Bpb.FatSectors, Bpb.DirectorySectors, InCopy;
    AreasAdd(bpb);
    CopiesIff(bpb, s);
  }

  /** Copy after copy, the tables fill the sectors between the reserved ones and the directory. */
  lemma CopiesIff(bpb: Bpb, s: int)
    ensures (exists copy :: InCopy(bpb, copy, s))
       <==> bpb.reservedSectors <= s < bpb.reservedSectors + bpb.FatSectors()
  {
    var (n, f, r) := (bpb.numFATs as nat, bpb.sectorsPerFAT as nat, s - bpb.reservedSectors);
    if copy :| InCopy(bpb, copy, s) {
      CopyEnds(copy, n, f);
    }
    if 0 <= r < n * f {
      Divided(r, f);
      CopyBelow(r / f, r, n, f);
      assert InCopy(bpb, r / f, s);
    }
  }

  lemma CopyEnds(copy: nat, n: nat, f: nat)
    requires copy < n
    ensures 0 <= copy * f && copy * f + f <= n * f
  {
    ProductGrows(copy + 1, n, f);
    ProductGrows(0, copy, f);
  }

  lemma CopyBelow(copy: nat, r: nat, n: nat, f: nat)
    requires copy * f <= r < n * f
    ensures copy < n
  {
    if n <= copy { ProductGrows(n, copy, f); }
  }

  /** No sector of a data cluster is in it. */
  lemma DataSectors(bpb: Bpb, c: u32, s: int)
    requires bpb.bytesPerSector > 0 && 2 <= c < 0x1000
    requires bpb.ClusterLba(c) <= s < bpb.ClusterLba(c) + bpb.sectorsPerCluster
    ensures !SystemSector(bpb, s)
  {
    hide Bpb.ClusterLba, Bpb.DirectoryEnd, SystemSector, Times;
    SystemSectorIff(bpb, s);
    ClusterLbaExact(bpb, 2);
    ClusterLbaExact(bpb, c);
    OneProduct(bpb.sectorsPerCluster);
    ProductGrows(0, c - 2, bpb.sectorsPerCluster);
  }

  /** The boot sector of a 1.44 MB floppy: two tables of nine sectors and 224 directory entries. */
  lemma FloppyAreas(c: u32)
    requires 2 <= c < 0x1000
    ensures Bpb(512, 1, 1, 2, 224, 9).ClusterLba(c) == 33 + (c - 2)
  {
    ClusterPlace(Bpb(512, 1, 1, 2, 224, 9), c);
  }

  /** Without an error count sectors from number start on are in memory; nothing else has changed. */
  ghost predicate AreaRead(disk: Drive, before: seq<u8>, after: seq<u8>, buffer: u32, error: bool,
                           start: nat, count: nat)
    requires disk.shape.Usable()
  {
    var (at, from) := (buffer % 0x10_0000, start % disk.shape.Reach());
    && SameOutside(after, before, at, at + 512 * count)
    && (!error ==> at + 512 * count <= |after| && 512 * (from + count) <= |disk.image|
                   && after[at..at + 512 * count] == disk.image[512 * from..512 * (from + count)])
  }

  lemma AreaArrives(disk: Drive, before: seq<u8>, after: seq<u8>, buffer: u32, start: nat, count: nat)
    requires disk.shape.Usable() && disk.Serves(start % disk.shape.Reach(), count)
    requires buffer % 0x10_0000 + 512 * count <= |before|
    requires after == Overlay(before, buffer % 0x10_0000, disk.Data(start % disk.shape.Reach(), count))
    ensures AreaRead(disk, before, after, buffer, false, start, count)
  {
    hide Shape.Reach, Overlay;
  }

  lemma AreaFailed(disk: Drive, before: seq<u8>, after: seq<u8>, buffer: u32, start: nat, count: nat)
    requires disk.shape.Usable()
    requires SameOutside(after, before, buffer % 0x10_0000, buffer % 0x10_0000 + 512 * count)
    ensures AreaRead(disk, before, after, buffer, true, start, count)
  {
    hide Shape.Reach, SameOutside;
  }

  lemma CutTwice(n: nat)
    ensures n % 0x1_0000 % 256 == n % 256
  {
  }

  /** read_directory_buffer: the sectors between the tables and cluster 2. */
  method ReadDirectoryBuffer(bpb: Bpb, disk: Drive, directory_buffer: u32) returns (error: bool)
    requires disk.shape.Usable() && disk.shape.sectors < SECTOR_LIMIT && bpb.bytesPerSector > 0
    requires directory_buffer % 0x10_0000 + 512 * (bpb.DirectorySectors() % 256) <= disk.memory.Length
    modifies disk`attempts, disk.memory
    ensures AreaRead(disk, old(disk.memory[..]), disk.memory[..], directory_buffer, error,
                     bpb.reservedSectors + bpb.FatSectors(), bpb.DirectorySectors() % 256)
    ensures error <==>
              disk.GivesUp(bpb.reservedSectors + bpb.FatSectors(), bpb.DirectorySectors() % 256, old(disk.attempts))
  {
    hide Shape.Reach, Overlay, Drive.GivesUp, Drive.Tries, Drive.Serves, Drive.Data, AreaRead, Bpb.FatSectors,
         Bpb.DirectorySectors;
    var directory_sector := bpb.reservedSectors + bpb.FatSectors();
    var directory_num_sectors := bpb.DirectorySectors();
    CutTwice(directory_num_sectors);
    ghost var before := disk.memory[..];
    error := disk.DiskRead(directory_sector, directory_num_sectors % 0x1_0000, directory_buffer);
    if error {
      AreaFailed(disk, before, disk.memory[..], directory_buffer, directory_sector, directory_num_sectors % 256);
    } else {
      AreaArrives(disk, before, disk.memory[..], directory_buffer, directory_sector, directory_num_sectors % 256);
    }
  }

  /** read_FAT: the sectors between the reserved ones and the directory. */
  method ReadFat(fat_buffer: u32, disk: Drive, bpb: Bpb) returns (error: bool)
    requires disk.shape.Usable() && disk.shape.sectors < SECTOR_LIMIT
    requires fat_buffer % 0x10_0000 + 512 * (bpb.FatSectors() % 256) <= disk.memory.Length
    modifies disk`attempts, disk.memory
    ensures AreaRead(disk, old(disk.memory[..]), disk.memory[..], fat_buffer, error,
                     bpb.reservedSectors, bpb.FatSectors() % 256)
    ensures error <==> disk.GivesUp(bpb.reservedSectors, bpb.FatSectors() % 256, old(disk.attempts))
  {
    hide Shape.Reach, Overlay, Drive.GivesUp, Drive.Tries, Drive.Serves, Drive.Data, AreaRead, Bpb.FatSectors;
    var fat_num_sectors := bpb.FatSectors();
    CutTwice(fat_num_sectors);
    ghost var before := disk.memory[..];
    error := disk.DiskRead(bpb.reservedSectors, fat_num_sectors % 0x1_0000, fat_buffer);
    if error {
      AreaFailed(disk, before, disk.memory[..], fat_buffer, bpb.reservedSectors, fat_num_sectors % 256);
    } else {
      AreaArrives(disk, before, disk.memory[..], fat_buffer, bpb.reservedSectors, fat_num_sectors % 256);
    }
  }

  lemma Small(n: nat, x: u16)
    requires n <= 0x1000
    ensures 0 <= Times(n, x) <= n * 0xFFFF
  {
  }

  lemma DividedIsSmaller(x: nat, d: nat)
    requires d > 0
    ensures 0 <= x / d <= x
  {
    Divided(x, d);
    OneProduct(x / d);
    assert Times(x / d, d) == Times(d, x / d);
    hide Times;
    ProductGrows(1, d, x / d);
  }

  /** Different clusters are different sectors of the disk, as long as the later one is in reach. */
  lemma ClustersApart(bpb: Bpb, shape: Shape, a: u32, b: u32)
    requires bpb.bytesPerSector > 0 && shape.Usable() && 2 <= a < b < 0x1000
    requires bpb.ClusterLba(b) + bpb.sectorsPerCluster <= shape.Reach()
    requires bpb.sectorsPerCluster > 0
    ensures bpb.ClusterLba(a) + bpb.sectorsPerCluster <= bpb.ClusterLba(b)
    ensures bpb.ClusterLba(a) % shape.Reach() == bpb.ClusterLba(a)
    ensures bpb.ClusterLba(b) % shape.Reach() == bpb.ClusterLba(b)
  {
    hide Times, Shape.Reach;
    ClusterLbaExact(bpb, a);
    ClusterLbaExact(bpb, b);
    Distribute(a - 2, 1, bpb.sectorsPerCluster);
    OneProduct(bpb.sectorsPerCluster);
    ProductGrows(a - 1, b - 2, bpb.sectorsPerCluster);
    RemainderIff(bpb.ClusterLba(a), shape.Reach());
    RemainderIff(bpb.ClusterLba(b), shape.Reach());
  }

  // ----- the directory -----

  datatype DirectoryEntry = DirectoryEntry(fileName: seq<u8>, clusterHiBytes: u16, clusterLoBytes: u16)

  /** get_starting_cluster */
  function GetStartingCluster(entry: DirectoryEntry): (start: u32)
    ensures start / 0x1_0000 == entry.clusterHiBytes && start % 0x1_0000 == entry.clusterLoBytes
  {
    HalvesAdd(entry.clusterHiBytes, entry.clusterLoBytes);
    Or(Shl(entry.clusterHiBytes, 16), entry.clusterLoBytes)
  }

  lemma HalvesAdd(high: u16, low: u16)
    ensures Or(Shl(high, 16), low) == high * 0x1_0000 + low
  {
    assert Pow2(12) == 0x1000 && Pow2(16) == 0x1_0000;
    hide Or, Shl, Pow2;
    OrCommutes(low, Shl(high, 16));
    FieldsAdd(high, low, 16);
  }

  /** memcmp of utils/memtools.c */
  method Memcmp(a: seq<u8>, b: seq<u8>, n: nat) returns (differ: int)
    requires n <= |a| && n <= |b|
    ensures differ == 0 <==> a[..n] == b[..n]
  {
    for i := 0 to n
      invariant a[..i] == b[..i]
    {
      if a[i] != b[i] {
        assert a[..n][i] != b[..n][i];
        return 1;
      }
    }
    return 0;
  }

  /** find_file: the first entry with this name, if any. */
  method FindFile(filename: seq<u8>, directory: seq<DirectoryEntry>, count: nat) returns (found: Option<nat>)
    requires count <= |directory| && NAME_SIZE <= |filename|
    requires forall i :: 0 <= i < count ==> |directory[i].fileName| == NAME_SIZE
    ensures found.Some? ==>
              && found.value < count && directory[found.value].fileName == filename[..11]
              && forall i :: 0 <= i < found.value ==> directory[i].fileName != filename[..11]
    ensures found.None? <==> forall i :: 0 <= i < count ==> directory[i].fileName != filename[..11]
  {
    for i := 0 to count
      invariant forall j :: 0 <= j < i ==> directory[j].fileName != filename[..NAME_SIZE]
    {
      var differ := Memcmp(filename, directory[i].fileName, NAME_SIZE);
      assert directory[i].fileName[..NAME_SIZE] == directory[i].fileName;
      if differ == 0 {
        return Some(i);
      }
    }
    return None;
  }

  // ----- loading a chain -----

  /** Where cluster number k of the file goes, by the 32-bit output pointer. */
  function Output(output: u32, bpb: Bpb, k: nat): u32 {
    if k == 0 then output else Wrap(Output(output, bpb, k - 1) + bpb.Stride())
  }

  /** The byte of the first megabyte that the transfer really starts at. */
  function Target(output: u32, bpb: Bpb, k: nat): nat {
    Output(output, bpb, k) % 0x10_0000
  }

  /** The reads of one file: which cluster from where to where. */
  datatype Job = Job(drive: Drive, bpb: Bpb, output: u32, chain: seq<u32>) {
    ghost predicate Ready() {
      && drive.shape.Usable() && drive.shape.sectors < SECTOR_LIMIT
      && bpb.bytesPerSector > 0
      && forall k: nat :: k < |chain| ==> Fits(k)
    }

    ghost predicate Fits(k: nat) {
      Target(output, bpb, k) + SECTOR_SIZE * bpb.sectorsPerCluster <= drive.memory.Length
    }

    /** The number of requests made before cluster k, when all earlier reads succeed. */
    ghost function Requests(first: nat, k: nat): nat
      requires k <= |chain| && drive.shape.Usable() && bpb.bytesPerSector > 0
    {
      if k == 0 then first
      else
        var n := Requests(first, k - 1);
        n + drive.Tries(bpb.ClusterLba(chain[k - 1]), bpb.sectorsPerCluster, n)
    }

    /** disk_read gives up on cluster k. */
    ghost predicate FailsAt(first: nat, k: nat)
      requires k < |chain| && drive.shape.Usable() && bpb.bytesPerSector > 0
    {
      drive.GivesUp(bpb.ClusterLba(chain[k]), bpb.sectorsPerCluster, Requests(first, k))
    }

    /** The drive has the sectors of cluster k. */
    ghost predicate OnDisk(k: nat)
      requires k < |chain| && drive.shape.Usable() && bpb.bytesPerSector > 0
    {
      drive.Serves(bpb.ClusterLba(chain[k]) % drive.shape.Reach(), bpb.sectorsPerCluster)
    }

    ghost function Bytes(k: nat): (bytes: seq<u8>)
      requires k < |chain| && drive.shape.Usable() && bpb.bytesPerSector > 0 && OnDisk(k)
      ensures |bytes| == SECTOR_SIZE * bpb.sectorsPerCluster
    {
      drive.Data(bpb.ClusterLba(chain[k]) % drive.shape.Reach(), bpb.sectorsPerCluster)
    }

    /** Memory after the first k clusters have arrived. */
    ghost function Loaded(memory: seq<u8>, k: nat): (r: seq<u8>)
      requires Ready() && k <= |chain| && |memory| == drive.memory.Length
      requires forall i: nat :: i < k ==> OnDisk(i)
      ensures |r| == |memory|
    {
      if k == 0 then memory
      else
        assert Fits(k - 1);
        Overlay(Loaded(memory, k - 1), Target(output, bpb, k - 1), Bytes(k - 1))
    }

    /** The contents of the file's first k clusters, in chain order. */
    ghost function Contents(k: nat): seq<u8>
      requires drive.shape.Usable() && bpb.bytesPerSector > 0 && k <= |chain|
      requires forall i: nat :: i < k ==> OnDisk(i)
    {
      if k == 0 then [] else Contents(k - 1) + Bytes(k - 1)
    }
  }

  /**
   * By the fields alone: of the first n clusters that were loaded, cluster k is in memory in full, and it is
   * what the data area holds at its place. A later cluster overwrites it only if sectors are shorter than 512.
   */
  ghost predicate Arrived(job: Job, memory: seq<u8>, k: nat, n: nat)
    requires k < n <= |job.chain| && job.drive.shape.Usable() && job.bpb.bytesPerSector > 0
  {
    var bpb, size := job.bpb, 512 * job.bpb.sectorsPerCluster;
    var at := job.output + k * (bpb.sectorsPerCluster * bpb.bytesPerSector);
    var place := bpb.reservedSectors + bpb.numFATs * bpb.sectorsPerFAT
                 + bpb.maxRootDirEntries * 32 / bpb.bytesPerSector + (job.chain[k] - 2) * bpb.sectorsPerCluster;
    (&& 2 <= job.chain[k] < 0x1000 && place < job.drive.shape.Reach()
     && (bpb.bytesPerSector >= 512 || k == n - 1)
     && job.output + (n - 1) * (bpb.sectorsPerCluster * bpb.bytesPerSector) < 0x10_0000) ==>
      SameBytes(memory, at, job.drive.image, 512 * place, size)
  }

  /** The bytes of memory from a certain address on are those of the disk from a certain place on. */
  predicate SameBytes(memory: seq<u8>, at: int, image: seq<u8>, from: int, size: nat) {
    && 0 <= at && at + size <= |memory| && 0 <= from && from + size <= |image|
    && memory[at..at + size] == image[from..from + size]
  }

  lemma BytesAt(job: Job, k: nat)
    requires k < |job.chain| && job.drive.shape.Usable() && job.bpb.bytesPerSector > 0 && job.OnDisk(k)
    requires job.bpb.ClusterLba(job.chain[k]) < job.drive.shape.Reach()
    ensures var place := 512 * job.bpb.ClusterLba(job.chain[k]);
      && place + 512 * job.bpb.sectorsPerCluster <= |job.drive.image|
      && job.Bytes(k) == job.drive.image[place..place + 512 * job.bpb.sectorsPerCluster]
  {
    hide Bpb.ClusterLba, Shape.Reach;
    RemainderIff(job.bpb.ClusterLba(job.chain[k]), job.drive.shape.Reach());
  }

  predicate Holds(memory: seq<u8>, at: int, bytes: seq<u8>) {
    0 <= at <= at + |bytes| <= |memory| && memory[at..at + |bytes|] == bytes
  }

  /** A cluster stays in memory while later ones arrive behind it. */
  lemma {:induction false} ClusterStays(job: Job, memory: seq<u8>, k: nat, n: nat)
    requires job.Ready() && k < n <= |job.chain| && |memory| == job.drive.memory.Length
    requires forall i: nat :: i < n ==> job.OnDisk(i)
    requires job.bpb.bytesPerSector >= SECTOR_SIZE || k == n - 1
    requires job.output + Times(n - 1, job.bpb.Stride()) < 0x10_0000
    ensures Holds(job.Loaded(memory, n), job.output + Times(k, job.bpb.Stride()), job.Bytes(k))
  {
    var size, stride := SECTOR_SIZE * job.bpb.sectorsPerCluster, job.bpb.Stride();
    LongStride(job.bpb);
    StrideIs(job.bpb);
    hide Times, Bpb.Stride, Bpb.ClusterLba, Shape.Reach, Drive.Data, Drive.Serves, Job.OnDisk, Job.Bytes, Overlay;
    ProductGrows(k, n - 1, stride);
    OutputSteps(job.output, job.bpb, n - 1);
    assert job.Fits(n - 1) && job.OnDisk(n - 1);
    if k < n - 1 {
      ProductGrows(n - 2, n - 1, stride);
      ClusterStays(job, memory, k, n - 1);
      ProductGrows(k + 1, n - 1, stride);
      Distribute(k, 1, stride);
      OneProduct(stride);
    }
  }

  lemma LongStride(bpb: Bpb)
    ensures bpb.bytesPerSector >= SECTOR_SIZE ==> bpb.Stride() >= SECTOR_SIZE * bpb.sectorsPerCluster
  {
    StrideIs(bpb);
    if bpb.bytesPerSector == SECTOR_SIZE { StrideOf512(bpb); }
    OneProduct(bpb.bytesPerSector);
    if bpb.sectorsPerCluster == 0 { assert bpb.Stride() == 0; }
  }

  ghost predicate Delivered(job: Job, memory: seq<u8>, n: nat)
    requires n <= |job.chain| && job.drive.shape.Usable() && job.bpb.bytesPerSector > 0
  {
    forall k: nat :: k < n ==> Arrived(job, memory, k, n)
  }

  lemma AllArrived(job: Job, memory: seq<u8>, n: nat)
    requires job.Ready() && n <= |job.chain| && |memory| == job.drive.memory.Length
    requires forall i: nat :: i < n ==> job.OnDisk(i)
    ensures Delivered(job, job.Loaded(memory, n), n)
  {
    hide Arrived, Bpb.ClusterLba, Bpb.Stride, Shape.Reach, Job.OnDisk, Job.Loaded, Times;
    forall k: nat | k < n
      ensures Arrived(job, job.Loaded(memory, n), k, n)
    {
      OneArrived(job, memory, k, n);
    }
  }

  lemma ArrivedAt(job: Job, memory: seq<u8>, k: nat, n: nat)
    requires job.Ready() && k < n <= |job.chain| && |memory| == job.drive.memory.Length
    requires forall i: nat :: i < n ==> job.OnDisk(i)
    requires job.bpb.bytesPerSector >= SECTOR_SIZE || k == n - 1
    requires job.output + Times(n - 1, job.bpb.Stride()) < 0x10_0000
    requires job.bpb.ClusterLba(job.chain[k]) < job.drive.shape.Reach()
    ensures SameBytes(job.Loaded(memory, n), job.output + Times(k, job.bpb.Stride()),
                      job.drive.image, 512 * job.bpb.ClusterLba(job.chain[k]), 512 * job.bpb.sectorsPerCluster)
  {
    hide Bpb.ClusterLba, Bpb.Stride, Shape.Reach, Job.OnDisk, Job.Loaded, Job.Bytes, Times;
    assert job.OnDisk(k);
    BytesAt(job, k);
    ClusterStays(job, memory, k, n);
  }

  lemma Products(n: int, bpb: Bpb)
    ensures Times(n, bpb.Stride()) == n * (bpb.sectorsPerCluster * bpb.bytesPerSector)
  {
  }

  lemma OneArrived(job: Job, memory: seq<u8>, k: nat, n: nat)
    requires job.Ready() && k < n <= |job.chain| && |memory| == job.drive.memory.Length
    requires forall i: nat :: i < n ==> job.OnDisk(i)
    ensures Arrived(job, job.Loaded(memory, n), k, n)
  {
    hide Bpb.ClusterLba, Bpb.Stride, Shape.Reach, Job.OnDisk, Job.Loaded, Job.Bytes, Job.Fits, SameBytes, Times;
    var bpb := job.bpb;
    Products(k, bpb);
    Products(n - 1, bpb);
    if 2 <= job.chain[k] < 0x1000 {
      ClusterPlace(bpb, job.chain[k]);
      if && bpb.ClusterLba(job.chain[k]) < job.drive.shape.Reach()
         && (bpb.bytesPerSector >= 512 || k == n - 1) && job.output + Times(n - 1, bpb.Stride()) < 0x10_0000
      {
        ArrivedAt(job, memory, k, n);
      }
    }
  }

  lemma WalkStarts(fat: seq<u8>, start: u32, chain: seq<u32>)
    requires IsWalk(fat, start, chain)
    ensures chain != [] && chain[0] == start
  {
  }

  /** What the loop finds in the table. */
  lemma WalkStep(fat: seq<u8>, start: u32, chain: seq<u32>, k: nat)
    requires IsWalk(fat, start, chain) && k < |chain|
    ensures InTable(fat, chain[k])
    ensures k + 1 < |chain| ==> GetNextCluster(fat, chain[k]) == chain[k + 1] < END_OF_CHAIN
  {
    hide GetNextCluster, InTable;
    if k + 1 < |chain| { assert Leads(fat, chain, k); }
  }

  lemma FirstRound(job: Job, first: nat, before: seq<u8>)
    requires job.Ready() && |before| == job.drive.memory.Length
    ensures Output(job.output, job.bpb, 0) == job.output && job.Requests(first, 0) == first
    ensures job.Loaded(before, 0) == before
  {
  }

  /** What one round of the loop does, in terms of the request it makes. */
  lemma NextRound(job: Job, first: nat, before: seq<u8>, k: nat)
    requires job.Ready() && k < |job.chain| && |before| == job.drive.memory.Length
    requires forall i: nat :: i < k ==> job.OnDisk(i)
    ensures var (drive, bpb) := (job.drive, job.bpb);
      var (lba, n, at) := (bpb.ClusterLba(job.chain[k]), job.Requests(first, k), Output(job.output, bpb, k));
      && at % 0x10_0000 == Target(job.output, bpb, k)
      && at % 0x10_0000 + SECTOR_SIZE * bpb.sectorsPerCluster <= drive.memory.Length
      && Output(job.output, bpb, k + 1) == Wrap(at + bpb.Stride())
      && job.Requests(first, k + 1) == n + drive.Tries(lba, bpb.sectorsPerCluster, n)
      && (job.FailsAt(first, k) <==> drive.GivesUp(lba, bpb.sectorsPerCluster, n))
      && (job.OnDisk(k) <==> drive.Serves(lba % drive.shape.Reach(), bpb.sectorsPerCluster))
      && (job.OnDisk(k) ==> job.Loaded(before, k + 1) ==
                              Overlay(job.Loaded(before, k), at % 0x10_0000,
                                      drive.Data(lba % drive.shape.Reach(), bpb.sectorsPerCluster)))
  {
    hide Bpb.ClusterLba, Bpb.Stride, Shape.Reach, Drive.Tries, Drive.GivesUp, Drive.Serves, Drive.Data, Overlay;
    assert job.Fits(k);
  }

  /**
   * read_file. It follows the chain to its end, or stops at the first cluster that cannot be read;
   * everything before that cluster has arrived. So it also returns from a cycle, if a read fails.
   */
  method ReadFile(entry: DirectoryEntry, disk: Drive, bpb: Bpb, output_buffer: u32, fat: seq<u8>,
                  ghost chain: seq<u32>)
    returns (error: bool)
    requires IsWalk(fat, GetStartingCluster(entry), chain) && Job(disk, bpb, output_buffer, chain).Ready()
    requires EndsAt(fat, chain[|chain| - 1])
             || Job(disk, bpb, output_buffer, chain).FailsAt(disk.attempts, |chain| - 1)
    modifies disk`attempts, disk.memory
    ensures error <==>
              exists k: nat :: k < |chain| && Job(disk, bpb, output_buffer, chain).FailsAt(old(disk.attempts), k)
    ensures !error ==> Delivered(Job(disk, bpb, output_buffer, chain), disk.memory[..], |chain|)
    ensures !error ==>
              && (forall k: nat :: k < |chain| ==> Job(disk, bpb, output_buffer, chain).OnDisk(k))
              && disk.memory[..] == Job(disk, bpb, output_buffer, chain).Loaded(old(disk.memory[..]), |chain|)
              && disk.attempts == Job(disk, bpb, output_buffer, chain).Requests(old(disk.attempts), |chain|)
    ensures error ==>
              exists k: nat :: k < |chain| && StoppedAt(Job(disk, bpb, output_buffer, chain), old(disk.attempts),
                                                        old(disk.memory[..]), disk.memory[..], k)
  {
    hide Fat12.GetNextCluster, InTable, IsWalk, Leads, Shape.Reach, Bits.Or, Bits.Shl, Bits.And, Overlay, SameOutside,
         Bpb.ClusterLba, Bpb.Stride, Drive.Tries, Drive.GivesUp, Drive.Serves, Drive.Data, Job.Contents, Delivered,
         Job.Requests, Job.FailsAt, Job.OnDisk, Job.Loaded, Job.Bytes, Job.Fits, Output, Target;

    WalkStarts(fat, GetStartingCluster(entry), chain);
    ghost var job := Job(disk, bpb, output_buffer, chain);
    ghost var first := disk.attempts;
    FirstRound(job, first, old(disk.memory[..]));
    var current, output := GetStartingCluster(entry), output_buffer;
    ghost var k: nat := 0;
    error := false;
    while true
      invariant k < |chain| && current == chain[k] && output == Output(output_buffer, bpb, k)
      invariant disk.attempts == job.Requests(first, k)
      invariant forall i: nat :: i < k ==> !job.FailsAt(first, i) && job.OnDisk(i)
      invariant disk.memory[..] == job.Loaded(old(disk.memory[..]), k)
      decreases |chain| - k
    {
      NextRound(job, first, old(disk.memory[..]), k);
      error := disk.DiskRead(bpb.ClusterLba(current), bpb.sectorsPerCluster, output);
      output := Wrap(output + bpb.Stride());
      if error {
        assert StoppedAt(job, first, old(disk.memory[..]), disk.memory[..], k);
        return;
      }
      WalkStep(fat, GetStartingCluster(entry), chain, k);
      k := k + 1;
      current := GetNextCluster(fat, current);
      if current >= END_OF_CHAIN {
        AllArrived(job, old(disk.memory[..]), |chain|);
        return;
      }
    }
  }

  /** Cluster k could not be read, and the clusters before it are all that has changed outside its target. */
  ghost predicate StoppedAt(job: Job, first: nat, before: seq<u8>, after: seq<u8>, k: nat)
    requires job.Ready() && k < |job.chain| && |before| == job.drive.memory.Length
  {
    && job.FailsAt(first, k)
    && (forall i: nat :: i < k ==> !job.FailsAt(first, i) && job.OnDisk(i))
    && SameOutside(after, job.Loaded(before, k), Target(job.output, job.bpb, k),
                   Target(job.output, job.bpb, k) + SECTOR_SIZE * job.bpb.sectorsPerCluster)
  }

  lemma StrideOf512(bpb: Bpb)
    requires bpb.bytesPerSector == SECTOR_SIZE
    ensures bpb.Stride() == SECTOR_SIZE * bpb.sectorsPerCluster
  {
  }

  /** The output pointer has then moved by what has arrived. */
  lemma {:induction false} OutputMoves(job: Job, k: nat)
    requires job.Ready() && k <= |job.chain|
    requires forall i: nat :: i < k ==> job.OnDisk(i)
    requires job.bpb.bytesPerSector == SECTOR_SIZE
    requires job.output + |job.Contents(k)| <= 0x10_0000
    ensures Output(job.output, job.bpb, k) == job.output + |job.Contents(k)|
  {
    hide Bpb.ClusterLba, Bpb.Stride, Shape.Reach, Drive.Data, Drive.Serves, Job.OnDisk, Job.Bytes, Times, Wrap;
    if k > 0 {
      assert job.OnDisk(k - 1);
      StrideOf512(job.bpb);
      OutputMoves(job, k - 1);
      NoWrap(Output(job.output, job.bpb, k - 1) + job.bpb.Stride());
    }
  }

  /** With the sector size of the drive, what has arrived is the file's contents in one piece. */
  lemma {:induction false} LoadedIsContents(job: Job, memory: seq<u8>, k: nat)
    requires job.Ready() && 0 < k <= |job.chain| && |memory| == job.drive.memory.Length
    requires forall i: nat :: i < k ==> job.OnDisk(i)
    requires job.bpb.bytesPerSector == SECTOR_SIZE
    requires job.output + |job.Contents(k)| <= 0x10_0000
    ensures job.output + |job.Contents(k)| <= |memory|
    ensures job.Loaded(memory, k) == Overlay(memory, job.output, job.Contents(k))
  {
    hide Bpb.ClusterLba, Bpb.Stride, Shape.Reach, Drive.Data, Times, Output, Overlay, Job.Bytes;
    assert job.OnDisk(k - 1);
    assert job.Fits(k - 1);
    OutputMoves(job, k - 1);
    var before, last := job.Contents(k - 1), job.Bytes(k - 1);
    assert Target(job.output, job.bpb, k - 1) == job.output + |before|;
    if k == 1 {
      assert before + last == last;
      assert job.Loaded(memory, 0) == memory;
    } else {
      LoadedIsContents(job, memory, k - 1);
      OverlayNext(memory, job.output, before, last);
    }
  }

  lemma OverlayNext(memory: seq<u8>, at: nat, a: seq<u8>, b: seq<u8>)
    requires at + |a| + |b| <= |memory|
    ensures Overlay(Overlay(memory, at, a), at + |a|, b) == Overlay(memory, at, a + b)
  {
  }

  /**
   * Transfers come in sectors of 512 bytes whatever the boot sector says. For two clusters or more
   * that sector size is therefore also necessary: another one leaves a gap or overwrites.
   */
  lemma SectorSizeIff(job: Job, k: nat)
    requires Spread(job, k)
    ensures (forall memory: seq<u8> :: |memory| == job.drive.memory.Length ==>
               job.Loaded(memory, k) == Overlay(memory, job.output, job.Contents(k)))
       <==> job.bpb.bytesPerSector == SECTOR_SIZE
  {
    hide Bpb.ClusterLba, Bpb.Stride, Shape.Reach, Drive.Data, Drive.Serves, Times, Overlay, Output, Job.Loaded,
         Job.Contents;
    if job.bpb.bytesPerSector == SECTOR_SIZE {
      forall memory: seq<u8> | |memory| == job.drive.memory.Length
        ensures job.Loaded(memory, k) == Overlay(memory, job.output, job.Contents(k))
      {
        LoadedIsContents(job, memory, k);
      }
    } else {
      var p := Missed(job, k);
      MissedBy(job, k);
      var other: u8 := if job.Contents(k)[p - job.output] == 0 then 1 else 0;
      var memory: seq<u8> := seq(job.drive.memory.Length, _ => other);
      Untouched(job, memory, p, k);
      assert job.Loaded(memory, k)[p] == other;
      assert Overlay(memory, job.output, job.Contents(k))[p] == job.Contents(k)[p - job.output];
    }
  }

  /** k clusters of at least two are on the disk, and all they may touch lies in memory and below one megabyte. */
  ghost predicate Spread(job: Job, k: nat) {
    && job.Ready() && 2 <= k <= |job.chain| && (forall i: nat :: i < k ==> job.OnDisk(i))
    && job.output + |job.Contents(k)| <= job.drive.memory.Length
    && job.output + |job.Contents(k)| <= 0x10_0000
    && job.output + Times(k - 1, job.bpb.Stride()) + SECTOR_SIZE * job.bpb.sectorsPerCluster <= 0x10_0000
  }

  /** A byte that belongs to the first k clusters and that no transfer reaches. */
  ghost function Missed(job: Job, k: nat): int {
    var size := SECTOR_SIZE * job.bpb.sectorsPerCluster;
    if job.bpb.bytesPerSector > SECTOR_SIZE then job.output + size else job.output + Times(k, size) - 1
  }

  lemma {:induction false} ContentsSize(job: Job, k: nat)
    requires job.drive.shape.Usable() && job.bpb.bytesPerSector > 0 && k <= |job.chain|
    requires forall i: nat :: i < k ==> job.OnDisk(i)
    ensures |job.Contents(k)| == Times(k, SECTOR_SIZE * job.bpb.sectorsPerCluster)
  {
    var size := SECTOR_SIZE * job.bpb.sectorsPerCluster;
    OneProduct(size);
    hide Times, Bpb.ClusterLba, Shape.Reach, Drive.Data, Drive.Serves;
    if k > 0 {
      ContentsSize(job, k - 1);
      Distribute(k - 1, 1, size);
    }
  }

  /** Below one megabyte the output pointer moves in steps. */
  lemma {:induction false} OutputSteps(output: u32, bpb: Bpb, k: nat)
    requires output + Times(k, bpb.Stride()) < 0x10_0000
    ensures Target(output, bpb, k) == Output(output, bpb, k) == output + Times(k, bpb.Stride())
  {
    hide Times, Bpb.Stride, Wrap;
    StrideIs(bpb);
    OneProduct(bpb.Stride());
    if k > 0 {
      Distribute(k - 1, 1, bpb.Stride());
      OutputSteps(output, bpb, k - 1);
      NoWrap(Output(output, bpb, k - 1) + bpb.Stride());
    }
  }

  lemma NoWrap(x: nat)
    requires x < WORD
    ensures Wrap(x) == x
  {
  }

  /** No transfer reaches that byte. */
  lemma MissedBy(job: Job, k: nat)
    requires Spread(job, k) && job.bpb.bytesPerSector != SECTOR_SIZE
    ensures job.output <= Missed(job, k) < job.output + |job.Contents(k)|
    ensures forall i: nat :: i < k ==> Avoids(job, i, Missed(job, k))
  {
    var size, stride := SECTOR_SIZE * job.bpb.sectorsPerCluster, job.bpb.Stride();
    assert job.OnDisk(0) && size > 0;
    StrideIs(job.bpb);
    ContentsSize(job, k);
    hide Times, Bpb.Stride, Bpb.ClusterLba, Shape.Reach, Drive.Data, Drive.Serves, Job.Contents, Job.OnDisk;
    OneProduct(size);
    ProductGrows(2, k, size);
    Distribute(1, 1, size);
    forall i: nat | i < k
      ensures Avoids(job, i, Missed(job, k))
    {
      ProductGrows(i, k - 1, stride);
      OutputSteps(job.output, job.bpb, i);
      if job.bpb.bytesPerSector > SECTOR_SIZE {
        OneProduct(stride);
        if i > 0 { ProductGrows(1, i, stride); } else { assert Output(job.output, job.bpb, 0) == job.output; }
      } else {
        ShorterSteps(k - 1, stride, size);
        Distribute(k - 1, 1, size);
      }
    }
  }

  lemma ShorterSteps(n: nat, stride: nat, size: nat)
    requires n > 0 && stride < size
    ensures Times(n, stride) < Times(n, size)
  {
    assert Times(n, stride) == Times(stride, n) && Times(n, size) == Times(size, n);
    hide Times;
    OneProduct(n);
    Distribute(stride, 1, n);
    ProductGrows(stride + 1, size, n);
  }

  /** The transfer of cluster i does not reach byte p. */
  ghost predicate Avoids(job: Job, i: nat, p: int) {
    var at := Target(job.output, job.bpb, i);
    !(at <= p < at + SECTOR_SIZE * job.bpb.sectorsPerCluster)
  }

  lemma {:induction false} Untouched(job: Job, memory: seq<u8>, p: nat, k: nat)
    requires job.Ready() && k <= |job.chain| && |memory| == job.drive.memory.Length && p < |memory|
    requires forall i: nat :: i < k ==> job.OnDisk(i) && Avoids(job, i, p)
    ensures job.Loaded(memory, k)[p] == memory[p]
  {
    hide Bpb.ClusterLba, Bpb.Stride, Shape.Reach, Drive.Data, Drive.Serves, Times, Overlay;
    if k > 0 {
      Untouched(job, memory, p, k - 1);
      assert job.Fits(k - 1) && job.OnDisk(k - 1) && Avoids(job, k - 1, p);
    }
  }

  lemma StrideIs(bpb: Bpb)
    ensures bpb.sectorsPerCluster > 0 && bpb.bytesPerSector < SECTOR_SIZE ==>
              bpb.Stride() < SECTOR_SIZE * bpb.sectorsPerCluster
    ensures bpb.sectorsPerCluster > 0 && bpb.bytesPerSector > SECTOR_SIZE ==>
              bpb.Stride() > SECTOR_SIZE * bpb.sectorsPerCluster
    ensures bpb.Stride() >= 0
  {
    var (n, b) := (bpb.sectorsPerCluster as nat, bpb.bytesPerSector as nat);
    assert Times(n, b) == Times(b, n) && Times(SECTOR_SIZE, n) == SECTOR_SIZE * n;
    hide Times;
    OneProduct(n);
    Distribute(b, 1, n);
    Distribute(SECTOR_SIZE, 1, n);
    ProductGrows(0, b, n);
    if b < SECTOR_SIZE {
      ProductGrows(b + 1, SECTOR_SIZE, n);
    } else if b > SECTOR_SIZE {
      ProductGrows(SECTOR_SIZE + 1, b, n);
    }
  }

  /**
   * A drive and a file with which it fails: sectors of 256 bytes by the boot sector, two clusters, and
   * a disk full of ones. Every read succeeds, and the last byte of the file does not arrive.
   */
  method LoadWithSmallSectors() returns (drive: Drive, error: bool)
    ensures fresh(drive) && fresh(drive.memory) && drive.memory.Length == 0x400 && !error
    ensures drive.image == Ones(0x1000) && drive.memory[0x3FF] == 0
    ensures var job := Job(drive, Bpb(256, 1, 1, 0, 0, 0), 0, [2, 3]);
      && job.Ready() && job.OnDisk(0) && job.OnDisk(1)
      && |job.Contents(2)| == 0x400 && job.Contents(2)[0x3FF] == 1
  {
    var memory := new u8[0x400](_ => 0);
    drive := new Drive(Shape(1, 8), Ones(0x1000), _ => Done, memory);
    SmallSectors(drive, Bpb(256, 1, 1, 0, 0, 0));
    error := LoadTwoClusters(drive);
  }

  method LoadTwoClusters(drive: Drive) returns (error: bool)
    requires drive.shape == Shape(1, 8) && |drive.image| == 0x1000 && drive.memory.Length == 0x400
    requires drive.memory[0x3FF] == 0 && forall k :: drive.outcome(k) == Done
    modifies drive`attempts, drive.memory
    ensures !error && drive.memory[0x3FF] == 0
  {
    hide Job.Loaded, Job.Contents, Job.OnDisk, Job.Ready, Job.FailsAt, Job.Requests, StoppedAt, Overlay, IsWalk, EndsAt,
         Pack, Target, Bpb.ClusterLba, Shape.Reach, GetStartingCluster;
    var bpb := Bpb(256, 1, 1, 0, 0, 0);
    var fat := Pack([0, 0, 3, 0xFFF]);
    SmallSectors(drive, bpb);
    SmallChain(fat);
    ghost var job := Job(drive, bpb, 0, [2, 3]);
    ghost var before, first := drive.memory[..], drive.attempts;
    NeverFails(job, first, 0);
    NeverFails(job, first, 1);
    StartsAtTwo();
    error := ReadFile(DirectoryEntry([], 0, 2), drive, bpb, 0, fat, [2, 3]);
    assert Avoids(job, 0, 0x3FF) && Avoids(job, 1, 0x3FF);
    Untouched(job, before, 0x3FF, 2);
    assert drive.memory[..][0x3FF] == 0;
  }

  lemma StartsAtTwo()
    ensures GetStartingCluster(DirectoryEntry([], 0, 2)) == 2
  {
    hide Or, Shl;
    HalvesAdd(0, 2);
  }

  lemma NeverFails(job: Job, first: nat, k: nat)
    requires job.Ready() && k < |job.chain| && job.OnDisk(k) && forall n :: job.drive.outcome(n) == Done
    ensures !job.FailsAt(first, k)
  {
    hide Bpb.ClusterLba, Shape.Reach, Drive.Serves, Job.Requests;
    assert job.drive.Succeeds(job.bpb.ClusterLba(job.chain[k]), job.bpb.sectorsPerCluster, job.Requests(first, k));
  }

  lemma SmallPlaces(bpb: Bpb)
    requires bpb == Bpb(256, 1, 1, 0, 0, 0)
    ensures bpb.ClusterLba(2) % Shape(1, 8).Reach() == 1 && bpb.ClusterLba(3) % Shape(1, 8).Reach() == 2
  {
    ClusterPlace(bpb, 2);
    ClusterPlace(bpb, 3);
    assert Shape(1, 8).Reach() == 2048;
    hide Bpb.ClusterLba, Shape.Reach;
    RemainderIff(1, 2048);
    RemainderIff(2, 2048);
  }

  lemma SmallReads(drive: Drive, bpb: Bpb)
    requires drive.shape == Shape(1, 8) && |drive.image| == 0x1000 && bpb == Bpb(256, 1, 1, 0, 0, 0)
    ensures var job := Job(drive, bpb, 0, [2, 3]);
      && job.OnDisk(0) && job.OnDisk(1)
      && job.Bytes(0) == drive.image[512..1024] && job.Bytes(1) == drive.image[1024..1536]
  {
    hide Bpb.ClusterLba, Shape.Reach;
    SmallPlaces(bpb);
  }

  lemma SmallTargets(bpb: Bpb)
    requires bpb == Bpb(256, 1, 1, 0, 0, 0)
    ensures Target(0, bpb, 0) == 0 && Target(0, bpb, 1) == 256
  {
    assert bpb.Stride() == 256;
    hide Bpb.Stride;
    assert Output(0, bpb, 0) == 0 && Output(0, bpb, 1) == 256;
  }

  lemma SmallSectors(drive: Drive, bpb: Bpb)
    requires drive.shape == Shape(1, 8) && |drive.image| == 0x1000 && drive.memory.Length == 0x400
    requires bpb == Bpb(256, 1, 1, 0, 0, 0)
    ensures var job := Job(drive, bpb, 0, [2, 3]);
      && job.Ready() && job.OnDisk(0) && job.OnDisk(1)
      && Target(0, bpb, 0) == 0 && Target(0, bpb, 1) == 256
      && job.Contents(2) == drive.image[512..1536]
  {
    hide Bpb.ClusterLba, Bpb.Stride, Shape.Reach, Target, Job.OnDisk, Job.Bytes;
    var job := Job(drive, bpb, 0, [2, 3]);
    SmallReads(drive, bpb);
    SmallTargets(bpb);
    assert job.Fits(0) && job.Fits(1);
    assert job.Contents(0) == [] && job.Contents(1) == drive.image[512..1024];
  }

  lemma SmallChain(fat: seq<u8>)
    requires fat == Pack([0, 0, 3, 0xFFF])
    ensures IsChain(fat, 2, [2, 3])
  {
    hide Pack, GetNextCluster;
    PackThenRead([0, 0, 3, 0xFFF], 2);
    PackThenRead([0, 0, 3, 0xFFF], 3);
    assert Leads(fat, [2, 3], 0);
  }

  function Ones(n: nat): (bytes: seq<u8>)
    ensures |bytes| == n && forall i :: 0 <= i < n ==> bytes[i] == 1
  {
    seq(n, _ => 1)
  }
}
