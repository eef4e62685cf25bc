/**
 Loading a file in boot/stage2/stage2.c: reading the allocation table and following the chain of
 clusters, in real-mode memory.
 */
module Loader {
  import opened Fat12
  import opened Transfer

  /** `ready` is whether INT 13h gives the drive's parameters; a sector that fails three tries is missing. */
  datatype Disk = Disk(ready: bool, drive: Drive, sectors: map<nat, seq<byte>>)

  ghost predicate GoodDisk(d: Disk) {
    GoodDrive(d.drive) && forall s :: s in d.sectors ==> |d.sectors[s]| == SECTOR
  }

  datatype Read = ReadError | ReadOk(bytes: seq<byte>)

  /** `disk_read_sector`: what INT 13h delivers for the packed registers. */
  function ReadSector(d: Disk, lba: nat): (r: Read)
    requires GoodDisk(d)
    ensures r.ReadOk? ==> |r.bytes| == SECTOR
    ensures lba < Capacity(d.drive) ==>
              r == if lba in d.sectors then ReadOk(d.sectors[lba]) else ReadError
  {
    ChsExactly(d.drive, lba);
    var s := DecodeChs(d.drive, PackChs(d.drive, lba));
    if s in d.sectors then ReadOk(d.sectors[s]) else ReadError
  }

  // ----- Memory -----

  const FAT_AT: nat := 0x2200            // offsets in stage 2's segment
  const KERNEL_AT: nat := 0x4000
  const BUFFER: nat := 0x1800            // from the table's buffer up to stage 2's stack

  /** The table ends below the stack. */
  predicate TableFits(b: Bpb) {
    b.sectorsPerFat == 0 || Span(b.bytesPerSector, b.sectorsPerFat - 1) + SECTOR <= BUFFER
  }

  /** A volume that `fat_init` accepted, with a table that ends below the loader's stack. */
  ghost predicate Mounted(b: Bpb, d: Disk) {
    InRange(b) && FieldsSet(b) && Accepted(b) && TableFits(b) && GoodDisk(d)
  }

  // ----- Where a load goes -----

  /** Byte `q` is in the table's buffer or in the whole sectors of the file, on a volume of 512-byte sectors. */
  predicate InBuffers(b: Bpb, base: nat, size: nat, q: nat) {
    || base + FAT_AT <= q < base + FAT_AT + b.sectorsPerFat * SECTOR
    || base + KERNEL_AT <= q < base + KERNEL_AT + SectorCount(size, SECTOR) * SECTOR
  }

  /**
   A load stores only within its buffers if and only if the file's last sector starts below 1 MiB; a
   longer file goes on at address 0, over the interrupt vectors.
   */
  lemma LoadStaysInBuffersExactly(b: Bpb, base: nat, size: nat)
    requires base + TWO16 <= MEGABYTE
    ensures var at, n := base + KERNEL_AT, SectorCount(size, SECTOR);
      && ((forall q :: Written(at, SECTOR, n, q) ==> InBuffers(b, base, size, q)) <==> BelowMegabyte(at, SECTOR, n))
      && (!BelowMegabyte(at, SECTOR, n) ==>
          exists q :: 0 <= q < SECTOR && Written(at, SECTOR, n, q) && !InBuffers(b, base, size, q))
  {
    hide Target;
    var at, n := base + KERNEL_AT, SectorCount(size, SECTOR);
    if BelowMegabyte(at, SECTOR, n) {
      forall q: nat | Written(at, SECTOR, n, q) ensures InBuffers(b, base, size, q) {
        var j :| 0 <= j < n && Covers(at, SECTOR, j, q);
        TargetBelow(at, SECTOR, n, j);
      }
    } else {
      var j := (MEGABYTE - at + (SECTOR - 1)) / SECTOR;
      assert MEGABYTE <= at + j * SECTOR < MEGABYTE + SECTOR;
      assert j < n;
      var q := SectorTarget(at, SECTOR, j);
      assert Covers(at, SECTOR, j, q);
      assert Written(at, SECTOR, n, q) && !InBuffers(b, base, size, q);
    }
  }

  /** The load stores nothing to the part of the table's buffer that chains are looked up in. */
  ghost predicate TableKept(base: nat, stride: nat, n: nat) {
    var at := base + KERNEL_AT;
    forall q :: base + FAT_AT <= q < base + FAT_AT + BUFFER ==> !Written(at, stride, n, q)
  }

  /** With 512-byte sectors, if and only if the load does not come round to it. */
  lemma TableKeptExactly(base: nat, n: nat)
    requires base + TWO16 <= MEGABYTE
    ensures TableKept(base, SECTOR, n) <==> base + KERNEL_AT + n * SECTOR <= MEGABYTE + base + FAT_AT
  {
    hide Target;
    var at, table := base + KERNEL_AT, base + FAT_AT;
    if at + n * SECTOR <= MEGABYTE + table {
      forall q, j | table <= q < table + BUFFER && 0 <= j < n ensures !Covers(at, SECTOR, j, q) {
        assert at + Span(SECTOR, j) + SECTOR <= MEGABYTE + table;
      }
    } else {
      var j := (MEGABYTE + table - at) / SECTOR;
      assert MEGABYTE + table - SECTOR < at + j * SECTOR <= MEGABYTE + table;
      assert Covers(at, SECTOR, j, table) && j < n;
      assert Written(at, SECTOR, n, table) && !TableKept(base, SECTOR, n);
    }
  }

  lemma BelowKeepsTable(base: nat, stride: nat, n: nat)
    requires BelowMegabyte(base + KERNEL_AT, stride, n)
    ensures TableKept(base, stride, n)
  {
    hide Target, Span;
    var at := base + KERNEL_AT;
    forall q, j | base + FAT_AT <= q < base + FAT_AT + BUFFER && 0 <= j < n ensures !Covers(at, stride, j, q) {
      TargetBelow(at, stride, n, j);
    }
  }

  // ----- The file on disk -----

  /** A value that the loader follows. */
  predicate Continues(c: nat) {
    2 <= c < BAD_CLUSTER
  }

  /** Of the 4096 values: free, reserved, bad and end-of-chain ones end a chain. */
  lemma ChainEnds(c: nat)
    ensures Continues(c) <==> c != 0 && c != 1 && c != 0xFF7 && c < 0xFF8
  {
  }

  /** The entry of cluster `c` in the bytes that start with the table. */
  function Entry(fat: seq<byte>, c: nat): nat {
    if EntryOffset(c) + 1 < |fat| then NextCluster(fat, c) else 0
  }

  /** The `k`-th value of the chain that starts at `first`. */
  function Nth(fat: seq<byte>, first: nat, k: nat): nat {
    if k == 0 then first else Entry(fat, Nth(fat, first, k - 1))
  }

  /** Sector `j` of a file lies in this cluster of its chain ... */
  function ClusterIndex(b: Bpb, j: nat): nat
    requires b.sectorsPerCluster != 0
  {
    j / b.sectorsPerCluster
  }

  /** ... and is this sector of that cluster. */
  function SectorIndex(b: Bpb, j: nat): nat
    requires b.sectorsPerCluster != 0
  {
    j % b.sectorsPerCluster
  }

  function FileLba(b: Bpb, fat: seq<byte>, first: nat, j: nat): nat
    requires FieldsSet(b)
  {
    var c := Nth(fat, first, ClusterIndex(b, j));
    if c < 2 then 0 else ClusterLba(b, c) + SectorIndex(b, j)
  }

  function FileSector(b: Bpb, d: Disk, fat: seq<byte>, first: nat, j: nat): (r: Read)
    requires FieldsSet(b) && GoodDisk(d)
    ensures r.ReadOk? ==> |r.bytes| == SECTOR
  {
    ReadSector(d, FileLba(b, fat, first, j))
  }

  /** The chain goes on for `k` clusters after the first. */
  ghost predicate GoesOnFor(fat: seq<byte>, first: nat, k: nat) {
    forall n :: 1 <= n <= k ==> Continues(Nth(fat, first, n))
  }

  /** The chain goes on up to the cluster of sector `j`; its first value is not looked at. */
  ghost predicate Reached(b: Bpb, fat: seq<byte>, first: nat, j: nat)
    requires FieldsSet(b)
  {
    GoesOnFor(fat, first, ClusterIndex(b, j))
  }

  /** The chain supplies enough clusters, and every sector needed can be read. */
  ghost predicate Loadable(b: Bpb, d: Disk, fat: seq<byte>, first: nat, size: nat)
    requires FieldsSet(b) && GoodDisk(d)
  {
    forall j :: 0 <= j < SectorCount(size, b.bytesPerSector) ==>
      Reached(b, fat, first, j) && FileSector(b, d, fat, first, j).ReadOk?
  }

  function BytesOf(r: Read): seq<byte> {
    if r.ReadOk? then r.bytes else []
  }

  /** The first `n` sectors of the file's clusters, one after the other. */
  function FileBytes(b: Bpb, d: Disk, fat: seq<byte>, first: nat, n: nat): seq<byte>
    requires FieldsSet(b) && GoodDisk(d)
  {
    if n == 0 then [] else FileBytes(b, d, fat, first, n - 1) + BytesOf(FileSector(b, d, fat, first, n - 1))
  }

  // ----- The allocation table -----

  function TableSector(b: Bpb, d: Disk, i: nat): (r: Read)
    requires GoodDisk(d)
    ensures r.ReadOk? ==> |r.bytes| == SECTOR
  {
    ReadSector(d, b.reserved + i)
  }

  ghost predicate TableReadable(b: Bpb, d: Disk)
    requires GoodDisk(d)
  {
    forall i :: 0 <= i < b.sectorsPerFat ==> TableSector(b, d, i).ReadOk?
  }

  /** The first `n` sectors of the first table on the disk. */
  function TableSectors(b: Bpb, d: Disk, n: nat): (r: seq<seq<byte>>)
    requires GoodDisk(d)
    ensures |r| == n
  {
    if n == 0 then [] else TableSectors(b, d, n - 1) + [BytesOf(TableSector(b, d, n - 1))]
  }

  function Table(b: Bpb, d: Disk): seq<byte>
    requires GoodDisk(d)
  {
    Joined(TableSectors(b, d, b.sectorsPerFat))
  }

  lemma {:induction false} TableSectorsWhole(b: Bpb, d: Disk, n: nat)
    requires GoodDisk(d) && n <= b.sectorsPerFat && TableReadable(b, d)
    ensures WholeSectors(TableSectors(b, d, n))
  {
    hide TableSector;
    if n > 0 {
      TableSectorsWhole(b, d, n - 1);
      assert TableSector(b, d, n - 1).ReadOk?;
    }
  }

  /** The table lies right after the reserved sectors. */
  lemma TableSectorOnDisk(b: Bpb, d: Disk, i: nat)
    requires GoodDisk(d) && b.reserved + b.sectorsPerFat <= Capacity(d.drive) && i < b.sectorsPerFat
    ensures var s := b.reserved + i;
      TableSector(b, d, i) == if s in d.sectors then ReadOk(d.sectors[s]) else ReadError
  {
  }

  lemma {:induction false} TableSectorsAt(b: Bpb, d: Disk, n: nat, i: nat)
    requires GoodDisk(d) && i < n
    ensures TableSectors(b, d, n)[i] == BytesOf(TableSector(b, d, i))
    decreases n
  {
    hide TableSector;
    if i < n - 1 {
      TableSectorsAt(b, d, n - 1, i);
    }
  }

  /** Byte `p` of the table is that byte of the sectors after the reserved ones. */
  lemma TableByteOnDisk(b: Bpb, d: Disk, p: nat)
    requires GoodDisk(d) && b.reserved + b.sectorsPerFat <= Capacity(d.drive) && TableReadable(b, d)
    requires p < b.sectorsPerFat * 512
    ensures |Table(b, d)| == b.sectorsPerFat * 512
    ensures var s := b.reserved + p / 512;
      s in d.sectors && |d.sectors[s]| == 512 && Table(b, d)[p] == d.sectors[s][p % 512]
  {
    hide TableSector, TableSectors, Joined, ReadSector, Capacity;
    TableSectorsWhole(b, d, b.sectorsPerFat);
    JoinedByte(TableSectors(b, d, b.sectorsPerFat), p);
    TableSectorsAt(b, d, b.sectorsPerFat, p / 512);
    TableSectorOnDisk(b, d, p / 512);
  }

  /** Sector `i` of the table is in memory where it belongs. */
  ghost predicate TableInPlace(b: Bpb, d: Disk, mem: seq<byte>, base: nat, i: nat) {
    && b.reserved + i in d.sectors && base + 0x2200 + 512 * (i + 1) <= |mem|
    && mem[base + 0x2200 + 512 * i..base + 0x2200 + 512 * (i + 1)] == d.sectors[b.reserved + i]
  }

  lemma TabledInPlace(b: Bpb, d: Disk, mem: seq<byte>, base: nat, i: nat)
    requires GoodDisk(d) && TableFits(b) && b.bytesPerSector == 512 && |mem| == REAL_MEMORY && base + TWO16 <= MEGABYTE
    requires b.reserved + b.sectorsPerFat <= Capacity(d.drive) && TableReadable(b, d) && i < b.sectorsPerFat
    ensures TableInPlace(b, d, Tabled(b, d, mem, base), base, i)
  {
    hide TableSector, TableSectors, StoreAll, ReadSector, Capacity, Target;
    var sectors := TableSectors(b, d, b.sectorsPerFat);
    TableSectorsWhole(b, d, b.sectorsPerFat);
    TableSectorsAt(b, d, b.sectorsPerFat, i);
    TableSectorOnDisk(b, d, i);
    TableTarget(b, base, i);
    AllInPlace(mem, base + FAT_AT, SECTOR, sectors, i);
  }

  /** Memory with the table read in. */
  function Tabled(b: Bpb, d: Disk, mem: seq<byte>, base: nat): (r: seq<byte>)
    requires GoodDisk(d)
    ensures |r| == |mem|
  {
    StoreAll(mem, base + FAT_AT, b.bytesPerSector, TableSectors(b, d, b.sectorsPerFat))
  }

  /** What the loader looks clusters up in: memory from the start of the table to the stack. */
  function Buffer(b: Bpb, d: Disk, mem: seq<byte>, base: nat): seq<byte>
    requires GoodDisk(d) && base + KERNEL_AT <= |mem|
  {
    Tabled(b, d, mem, base)[base + FAT_AT..base + FAT_AT + BUFFER]
  }

  /** A cluster number whose entry lies below the stack; every number of a FAT12 volume does. */
  predicate InReach(c: nat) {
    c + c / 2 + 1 < BUFFER
  }

  // ----- A well-formed volume -----

  /** Every entry of a cluster is another cluster, or one of the values that are not. */
  ghost predicate GoodTable(b: Bpb, fat: seq<byte>)
    requires FieldsSet(b)
  {
    && 3 * (ClusterCount(b) + 2) / 2 + 1 < |fat| && ClusterCount(b) < 4085
    && forall c :: IsCluster(b, c) ==> IsCluster(b, Entry(fat, c)) || !Continues(Entry(fat, c))
  }

  /** The entry of a cluster of the volume lies within the table. */
  lemma EntryInTable(b: Bpb, fat: seq<byte>, more: seq<byte>, c: nat)
    requires FieldsSet(b) && GoodTable(b, fat) && IsCluster(b, c)
    ensures Entry(fat + more, c) == Entry(fat, c)
    ensures IsCluster(b, Entry(fat, c)) || !Continues(Entry(fat, c))
  {
    hide ClusterCount, Unpack;
    assert EntryOffset(c) == c + c / 2;
  }

  /** On a well-formed volume it does not matter what memory holds after the table. */
  lemma ReachedInTable(b: Bpb, d: Disk, fat: seq<byte>, more: seq<byte>, first: nat, j: nat)
    requires FieldsSet(b) && GoodDisk(d) && GoodTable(b, fat) && IsCluster(b, first)
    ensures Reached(b, fat + more, first, j) <==> Reached(b, fat, first, j)
    ensures Reached(b, fat, first, j) ==> FileSector(b, d, fat + more, first, j) == FileSector(b, d, fat, first, j)
  {
    hide GoodTable, ClusterCount, Nth, ReadSector, ClusterLba, ClusterIndex, SectorIndex, GoesOnFor;
    ReachedTogether(b, fat, more, first, ClusterIndex(b, j));
  }

  lemma GoesOnOneMore(fat: seq<byte>, first: nat, k: nat)
    ensures GoesOnFor(fat, first, k + 1) <==> GoesOnFor(fat, first, k) && Continues(Nth(fat, first, k + 1))
  {
    hide Nth, Continues;
  }

  lemma {:induction false} ReachedTogether(b: Bpb, fat: seq<byte>, more: seq<byte>, first: nat, k: nat)
    requires FieldsSet(b) && GoodTable(b, fat) && IsCluster(b, first)
    ensures GoesOnFor(fat + more, first, k) <==> GoesOnFor(fat, first, k)
    ensures GoesOnFor(fat, first, k) ==> Nth(fat + more, first, k) == Nth(fat, first, k)
    ensures GoesOnFor(fat, first, k) ==> IsCluster(b, Nth(fat, first, k))
    decreases k
  {
    hide Entry, ClusterCount, GoesOnFor, GoodTable;
    if k == 0 {
      NoStep(fat, first);
      NoStep(fat + more, first);
    } else {
      ReachedTogether(b, fat, more, first, k - 1);
      GoesOnOneMore(fat, first, k - 1);
      GoesOnOneMore(fat + more, first, k - 1);
      if GoesOnFor(fat, first, k - 1) {
        EntryInTable(b, fat, more, Nth(fat, first, k - 1));
      }
    }
  }

  lemma NoStep(fat: seq<byte>, first: nat)
    ensures GoesOnFor(fat, first, 0)
  {
  }

  lemma LoadableInTable(b: Bpb, d: Disk, fat: seq<byte>, more: seq<byte>, first: nat, size: nat)
    requires FieldsSet(b) && GoodDisk(d) && GoodTable(b, fat) && IsCluster(b, first)
    ensures Loadable(b, d, fat + more, first, size) <==> Loadable(b, d, fat, first, size)
  {
    hide GoodTable, ClusterCount, Reached, FileSector;
    forall j | 0 <= j < SectorCount(size, b.bytesPerSector)
      ensures Reached(b, fat + more, first, j) && FileSector(b, d, fat + more, first, j).ReadOk? <==>
              Reached(b, fat, first, j) && FileSector(b, d, fat, first, j).ReadOk?
    {
      ReachedInTable(b, d, fat, more, first, j);
    }
  }

  lemma {:induction false} BytesInTable(b: Bpb, d: Disk, fat: seq<byte>, more: seq<byte>, first: nat, n: nat)
    requires FieldsSet(b) && GoodDisk(d) && GoodTable(b, fat) && IsCluster(b, first)
    requires forall j :: 0 <= j < n ==> Reached(b, fat, first, j)
    ensures FileBytes(b, d, fat + more, first, n) == FileBytes(b, d, fat, first, n)
    decreases n
  {
    hide GoodTable, ClusterCount, Reached, FileSector;
    if n > 0 {
      BytesInTable(b, d, fat, more, first, n - 1);
      ReachedInTable(b, d, fat, more, first, n - 1);
    }
  }

  /** Where sector `j` of a file should be: in the cluster that comes `j / s` after the first of its chain. */
  function FileSectorAt(b: Bpb, fat: seq<byte>, first: nat, j: nat): int
    requires FieldsSet(b)
  {
    var c := Nth(fat, first, j / b.sectorsPerCluster);
    b.reserved + b.fats * b.sectorsPerFat + RootSectors(b) + (c - 2) * b.sectorsPerCluster + j % b.sectorsPerCluster
  }

  /**
   On a well-formed volume that CHS can address, every sector of a file that its chain reaches is a
   sector of the volume's data area, and is read from exactly there.
   */
  lemma FileSectorInVolume(b: Bpb, d: Disk, fat: seq<byte>, more: seq<byte>, first: nat, j: nat)
    requires Mounted(b, d) && b.totalSectors <= Capacity(d.drive)
    requires GoodTable(b, fat) && IsCluster(b, first) && Reached(b, fat + more, first, j)
    ensures var lba := FileLba(b, fat + more, first, j);
      && FirstData(b) <= lba < b.totalSectors
      && lba == FileSectorAt(b, fat, first, j)
      && FileSector(b, d, fat + more, first, j) == if lba in d.sectors then ReadOk(d.sectors[lba]) else ReadError
  {
    hide ReadSector, GoodTable, Accepted, Nth, ClusterCount, ClusterLba, FirstData, ClusterIndex, SectorIndex,
         GoesOnFor, FileSectorAt;
    var k := ClusterIndex(b, j);
    ReachedTogether(b, fat, more, first, k);
    ClusterInVolume(b, Nth(fat, first, k));
    SectorIndexBound(b, j);
    AtIsLba(b, fat, first, j);
  }

  lemma AtIsLba(b: Bpb, fat: seq<byte>, first: nat, j: nat)
    requires FieldsSet(b) && Nth(fat, first, ClusterIndex(b, j)) >= 2
    ensures FileSectorAt(b, fat, first, j) == ClusterLba(b, Nth(fat, first, ClusterIndex(b, j))) + SectorIndex(b, j)
  {
    hide RootSectors, Nth;
  }

  /** Byte `p` of a file is that byte of its sectors. */
  lemma {:induction false} FileByte(b: Bpb, d: Disk, fat: seq<byte>, first: nat, n: nat, p: nat)
    requires FieldsSet(b) && GoodDisk(d) && p < n * 512
    requires forall j :: 0 <= j < n ==> FileSector(b, d, fat, first, j).ReadOk?
    ensures |FileBytes(b, d, fat, first, n)| == n * 512
    ensures FileBytes(b, d, fat, first, n)[p] == FileSector(b, d, fat, first, p / 512).bytes[p % 512]
    decreases n
  {
    hide FileSector;
    assert FileSector(b, d, fat, first, n - 1).ReadOk?;
    if n > 1 {
      FileByte(b, d, fat, first, n - 1, if p < (n - 1) * 512 then p else 0);
    }
  }

  /** Byte `p` of `bytes` is byte `i` of sector `s`. */
  ghost predicate ByteOnDisk(d: Disk, s: int, i: nat, bytes: seq<byte>, p: nat) {
    s in d.sectors && i < |d.sectors[s]| && p < |bytes| && bytes[p] == d.sectors[s][i]
  }

  /**
   Byte `p` of a loadable file of a well-formed volume: that byte of sector `j % s` of the cluster that
   the chain reaches after `j / s` steps, with `j = p / 512` and `s` sectors to a cluster.
   */
  lemma FileByteOnDisk(b: Bpb, d: Disk, fat: seq<byte>, first: nat, size: nat, p: nat)
    requires Mounted(b, d) && b.bytesPerSector == 512 && b.totalSectors <= Capacity(d.drive)
    requires GoodTable(b, fat) && IsCluster(b, first) && Loadable(b, d, fat, first, size) && p < size
    ensures ByteOnDisk(d, FileSectorAt(b, fat, first, p / 512), p % 512,
                       FileBytes(b, d, fat, first, SectorCount(size, 512)), p)
  {
    hide ReadSector, FileSector, FileBytes, GoodTable, ClusterCount, Nth, FileLba, FileSectorAt, Accepted, Reached,
         FirstData, Capacity;
    var n := SectorCount(size, 512);
    FileByte(b, d, fat, first, n, p);
    assert fat + [] == fat;
    FileSectorInVolume(b, d, fat, [], first, p / 512);
  }

  lemma SectorIndexBound(b: Bpb, j: nat)
    requires FieldsSet(b)
    ensures SectorIndex(b, j) < b.sectorsPerCluster
  {
    Recompose(j, b.sectorsPerCluster);
  }

  // ----- Reading the table -----

  /** `fat_read_table`. */
  method ReadTable(b: Bpb, d: Disk, mem: array<byte>, base: nat) returns (ok: bool)
    requires Mounted(b, d) && mem.Length == REAL_MEMORY && base + TWO16 <= MEGABYTE
    modifies mem
    ensures ok <==> TableReadable(b, d)
    ensures ok ==> mem[..] == Tabled(b, d, old(mem[..]), base)
    ensures ok && b.bytesPerSector == 512 && b.reserved + b.sectorsPerFat <= Capacity(d.drive) ==>
      forall i :: 0 <= i < b.sectorsPerFat ==> TableInPlace(b, d, mem[..], base, i)
    ensures SameOutside(old(mem[..]), mem[..], base + FAT_AT, base + FAT_AT + TableSpan(b))
  {
    hide ReadSector, GoodDrive, Accepted, InRange, TableSector, StoreAll, Span, Target, PutSector, TableInPlace,
         Capacity;
    NothingStored(mem[..], base + FAT_AT, b.bytesPerSector);
    for i := 0 to b.sectorsPerFat
      invariant forall k :: 0 <= k < i ==> TableSector(b, d, k).ReadOk?
      invariant mem[..] == StoreAll(old(mem[..]), base + FAT_AT, b.bytesPerSector, TableSectors(b, d, i))
      invariant SameOutside(old(mem[..]), mem[..], base + FAT_AT, base + FAT_AT + TableSpan(b))
    {
      var r := TableSector(b, d, i);
      if r.ReadError? {
        return false;
      }
      TableTarget(b, base, i);
      ghost var before := mem[..];
      StoreSector(mem, base + (FAT_AT + Span(b.bytesPerSector, i)) % TWO16, r.bytes);
      PutOutside(before, base + FAT_AT + Span(b.bytesPerSector, i), r.bytes);
      StoreOneMore(old(mem[..]), base + FAT_AT, b.bytesPerSector, TableSectors(b, d, i), r.bytes);
    }
    if b.bytesPerSector == 512 && b.reserved + b.sectorsPerFat <= Capacity(d.drive) {
      forall i | 0 <= i < b.sectorsPerFat ensures TableInPlace(b, d, mem[..], base, i) {
        TabledInPlace(b, d, old(mem[..]), base, i);
      }
    }
    return true;
  }

  /** From the first byte of the table in memory to the end of its last sector. */
  function TableSpan(b: Bpb): nat {
    if b.sectorsPerFat == 0 then 0 else Span(b.bytesPerSector, b.sectorsPerFat - 1) + SECTOR
  }

  lemma TableTarget(b: Bpb, base: nat, i: nat)
    requires TableFits(b) && i < b.sectorsPerFat && base + TWO16 <= MEGABYTE
    ensures SectorTarget(base + FAT_AT, b.bytesPerSector, i) == base + FAT_AT + Span(b.bytesPerSector, i)
    ensures Span(b.bytesPerSector, i) + SECTOR <= TableSpan(b) <= BUFFER
  {
    hide Span, Target;
    SpanOrder(b.bytesPerSector, i, b.sectorsPerFat - 1);
  }

  // ----- Following the chain -----

  /** Cluster and sector number of the `i`-th sector of cluster `k`. */
  lemma Position(b: Bpb, k: nat, i: nat)
    requires FieldsSet(b) && i < b.sectorsPerCluster
    ensures ClusterIndex(b, k * b.sectorsPerCluster + i) == k && SectorIndex(b, k * b.sectorsPerCluster + i) == i
  {
    QuotientUnique(k, i, b.sectorsPerCluster);
  }

  lemma QuotientUnique(k: nat, i: nat, n: nat)
    requires i < n
    ensures (k * n + i) / n == k && (k * n + i) % n == i
  {
    var x := k * n + i;
    Recompose(x, n);
    SmallFactor(x / n, x % n, n, k);
    SmallFactor(k, i, n, x / n);
  }

  /** The sectors are those that the disk delivered. */
  ghost predicate FromDisk(d: Disk, sectors: seq<seq<byte>>)
    requires GoodDisk(d)
  {
    forall n :: 0 <= n < |sectors| ==> IsSector(d, sectors[n])
  }

  ghost predicate IsSector(d: Disk, bytes: seq<byte>)
    requires GoodDisk(d)
  {
    exists lba :: ReadSector(d, lba) == ReadOk(bytes)
  }

  /** The sectors are the first ones of the file. */
  ghost predicate Loaded(b: Bpb, d: Disk, fat: seq<byte>, first: nat, sectors: seq<seq<byte>>)
    requires FieldsSet(b) && GoodDisk(d)
  {
    forall n :: 0 <= n < |sectors| ==>
      Reached(b, fat, first, n) && FileSector(b, d, fat, first, n) == ReadOk(sectors[n])
  }

  /** One more sector: read it, and store it where `linear` points. */
  method LoadSector(d: Disk, mem: array<byte>, lba: nat, linear: nat, ghost at: nat, ghost stride: nat, ghost j: nat)
    returns (ok: bool, ghost bytes: seq<byte>)
    requires GoodDisk(d) && mem.Length == REAL_MEMORY && linear == at + Span(stride, j)
    modifies mem
    ensures ok <==> ReadSector(d, lba).ReadOk?
    ensures ok ==> ReadSector(d, lba) == ReadOk(bytes)
    ensures mem[..] == if ok then PutSector(old(mem[..]), SectorTarget(at, stride, j), bytes) else old(mem[..])
  {
    hide ReadSector, GoodDrive, PutSector;
    var r := ReadSector(d, lba);
    bytes := [];
    if r.ReadError? {
      return false, bytes;
    }
    bytes := r.bytes;
    TargetWraps(linear);
    StoreSector(mem, linear / 16 % TWO16 * 16 + linear % 16, r.bytes);
    ok := true;
  }

  /** The sectors from number `from` on are those of the disk from `lba` on. */
  ghost predicate Follow(d: Disk, sectors: seq<seq<byte>>, from: nat, lba: nat)
    requires GoodDisk(d)
  {
    forall n :: from <= n < |sectors| ==> ReadSector(d, lba + (n - from)) == ReadOk(sectors[n])
  }

  /** The inner loop: the sectors of a cluster, as many as the file still needs. */
  method LoadCluster(b: Bpb, d: Disk, mem: array<byte>, cluster: nat, linear0: nat, remaining0: nat, ghost size: nat,
                     ghost start: seq<byte>, ghost at: nat, ghost before: seq<seq<byte>>)
    returns (ok: bool, linear: nat, remaining: nat, ghost sectors: seq<seq<byte>>)
    requires FieldsSet(b) && GoodDisk(d) && mem.Length == REAL_MEMORY && cluster >= 2
    requires Span(b.bytesPerSector, |before|) + remaining0 == size && remaining0 > 0
    requires linear0 == at + Span(b.bytesPerSector, |before|)
    requires mem[..] == StoreAll(start, at, b.bytesPerSector, before)
    modifies mem
    ensures mem[..] == StoreAll(start, at, b.bytesPerSector, sectors)
    ensures before <= sectors && |sectors| <= |before| + b.sectorsPerCluster
    ensures |sectors| <= SectorCount(size, b.bytesPerSector)
    ensures Follow(d, sectors, |before|, ClusterLba(b, cluster))
    ensures !ok ==>
      && |sectors| < |before| + b.sectorsPerCluster && |sectors| < SectorCount(size, b.bytesPerSector)
      && ReadSector(d, ClusterLba(b, cluster) + (|sectors| - |before|)).ReadError?
    ensures ok ==> remaining < remaining0
    ensures ok && remaining == 0 ==> |sectors| == SectorCount(size, b.bytesPerSector)
    ensures ok && remaining > 0 ==>
      && |sectors| == |before| + b.sectorsPerCluster && linear == at + Span(b.bytesPerSector, |sectors|)
      && Span(b.bytesPerSector, |sectors|) + remaining == size
  {
    hide ReadSector, GoodDrive, ClusterLba, SectorCount, Span, StoreAll, PutSector, SectorTarget;
    var lba := ClusterLba(b, cluster);
    var i := 0;
    linear, remaining, sectors := linear0, remaining0, before;
    SectorFits(size, b.bytesPerSector, |before|);
    while i < b.sectorsPerCluster && remaining > 0
      invariant 0 <= i <= b.sectorsPerCluster && |sectors| == |before| + i && before <= sectors
      invariant i > 0 ==> remaining < remaining0
      invariant remaining > 0 ==> Span(b.bytesPerSector, |sectors|) + remaining == size
      invariant remaining > 0 ==> linear == at + Span(b.bytesPerSector, |sectors|)
      invariant |sectors| <= SectorCount(size, b.bytesPerSector)
      invariant remaining == 0 ==> |sectors| == SectorCount(size, b.bytesPerSector)
      invariant Follow(d, sectors, |before|, lba)
      invariant mem[..] == StoreAll(start, at, b.bytesPerSector, sectors)
      decreases b.sectorsPerCluster - i
    {
      SectorFits(size, b.bytesPerSector, |sectors|);
      SpanStep(b.bytesPerSector, |sectors|);
      ghost var bytes;
      ok, bytes := LoadSector(d, mem, lba + i, linear, at, b.bytesPerSector, |sectors|);
      if !ok {
        return;
      }
      StoreOneMore(start, at, b.bytesPerSector, sectors, bytes);
      sectors := sectors + [bytes];
      var chunk := if b.bytesPerSector > remaining then remaining else b.bytesPerSector;
      linear := linear + chunk;
      remaining := remaining - chunk;
      i := i + 1;
    }
    ok := true;
  }

  /** The sectors of the `k`-th cluster are the next ones of the file. */
  lemma ClusterLoaded(b: Bpb, d: Disk, fat: seq<byte>, first: nat, before: seq<seq<byte>>, sectors: seq<seq<byte>>,
                      k: nat)
    requires FieldsSet(b) && GoodDisk(d) && Loaded(b, d, fat, first, before) && before <= sectors
    requires |before| == k * b.sectorsPerCluster && |sectors| <= |before| + b.sectorsPerCluster
    requires Nth(fat, first, k) >= 2 && GoesOnFor(fat, first, k)
    requires Follow(d, sectors, |before|, ClusterLba(b, Nth(fat, first, k)))
    ensures Loaded(b, d, fat, first, sectors)
    ensures |sectors| < |before| + b.sectorsPerCluster ==>
      FileSector(b, d, fat, first, |sectors|) ==
        ReadSector(d, ClusterLba(b, Nth(fat, first, k)) + (|sectors| - |before|))
  {
    hide ReadSector, Nth, GoesOnFor, ClusterLba, ClusterIndex, SectorIndex;
    forall n | |before| <= n < |before| + b.sectorsPerCluster
      ensures Reached(b, fat, first, n)
      ensures FileSector(b, d, fat, first, n) ==
              ReadSector(d, ClusterLba(b, Nth(fat, first, k)) + (n - |before|))
    {
      Position(b, k, n - |before|);
    }
  }

  /** A file that needs a cluster after the chain's end is not loadable. */
  lemma ChainTooShort(b: Bpb, d: Disk, fat: seq<byte>, first: nat, size: nat, k: nat)
    requires FieldsSet(b) && GoodDisk(d) && k >= 1 && Span(b.bytesPerSector, k * b.sectorsPerCluster) < size
    requires !Continues(Nth(fat, first, k))
    ensures !Loadable(b, d, fat, first, size)
  {
    hide Nth, Continues, Span, FileSector, SectorCount;
    var j := k * b.sectorsPerCluster;
    Position(b, k, 0);
    SectorFits(size, b.bytesPerSector, j);
    assert !Reached(b, fat, first, j);
  }

  /** `fat12_next_cluster` on the table in memory. */
  method FollowChain(mem: array<byte>, base: nat, cluster: nat) returns (next: nat)
    requires mem.Length == REAL_MEMORY && base + TWO16 <= MEGABYTE
    ensures IsEntry(next)
    ensures InReach(cluster) ==> next == Entry(mem[base + FAT_AT..base + FAT_AT + BUFFER], cluster)
  {
    var offset := (cluster + cluster / 2) % TWO16;
    var lo, hi := mem[base + FAT_AT + offset], mem[base + FAT_AT + offset + 1];
    next := Unpack(cluster % 2 == 1, lo, hi);
  }

  /** Every value that the loader follows has its entry below the stack. */
  lemma FollowedInReach(c: nat)
    requires Continues(c)
    ensures InReach(c)
  {
  }

  /** A load that keeps the table keeps it whenever it stops. */
  lemma BufferKept(start: seq<byte>, base: nat, stride: nat, sectors: seq<seq<byte>>, n: nat)
    requires TableKept(base, stride, n) && |sectors| <= n && base + KERNEL_AT <= |start|
    ensures StoreAll(start, base + KERNEL_AT, stride, sectors)[base + FAT_AT..base + FAT_AT + BUFFER] ==
            start[base + FAT_AT..base + FAT_AT + BUFFER]
  {
    hide StoreAll, TableKept, SameInside;
    var table := base + FAT_AT;
    BytesKept(start, base, stride, sectors, n);
    SameSlice(start, StoreAll(start, base + KERNEL_AT, stride, sectors), table, table + BUFFER);
  }

  lemma BytesKept(start: seq<byte>, base: nat, stride: nat, sectors: seq<seq<byte>>, n: nat)
    requires TableKept(base, stride, n) && |sectors| <= n
    ensures SameInside(start, StoreAll(start, base + KERNEL_AT, stride, sectors), base + FAT_AT, base + FAT_AT + BUFFER)
  {
    hide StoreAll, TableKept;
    var mem := StoreAll(start, base + KERNEL_AT, stride, sectors);
    forall q | base + FAT_AT <= q < base + FAT_AT + BUFFER && q < |start| ensures mem[q] == start[q] {
      ByteKept(start, base, stride, sectors, n, q);
    }
  }

  lemma ByteKept(start: seq<byte>, base: nat, stride: nat, sectors: seq<seq<byte>>, n: nat, q: nat)
    requires TableKept(base, stride, n) && |sectors| <= n && base + FAT_AT <= q < base + FAT_AT + BUFFER && q < |start|
    ensures StoreAll(start, base + KERNEL_AT, stride, sectors)[q] == start[q]
  {
    hide StoreAll, Written;
    var at := base + KERNEL_AT;
    if Written(at, stride, |sectors|, q) {
      FewerWritten(at, stride, |sectors|, n, q);
    } else {
      UnwrittenKept(start, at, stride, sectors, q);
    }
  }

  lemma FollowIsFromDisk(d: Disk, before: seq<seq<byte>>, sectors: seq<seq<byte>>, lba: nat)
    requires GoodDisk(d) && FromDisk(d, before) && before <= sectors && Follow(d, sectors, |before|, lba)
    ensures FromDisk(d, sectors)
  {
    hide ReadSector;
    forall n | 0 <= n < |sectors| ensures IsSector(d, sectors[n]) {
      if n < |before| {
        assert sectors[n] == before[n];
      } else {
        assert ReadSector(d, lba + (n - |before|)) == ReadOk(sectors[n]);
      }
    }
  }

  /** The outer loop of `fat_load_file`, with the table in its buffer. */
  method LoadChain(b: Bpb, d: Disk, mem: array<byte>, base: nat, first: nat, size: nat)
    returns (ok: bool, ghost sectors: seq<seq<byte>>)
    requires FieldsSet(b) && GoodDisk(d) && mem.Length == REAL_MEMORY && base + TWO16 <= MEGABYTE && first >= 2
    modifies mem
    ensures mem[..] == StoreAll(old(mem[..]), base + KERNEL_AT, b.bytesPerSector, sectors) && FromDisk(d, sectors)
    ensures |sectors| <= SectorCount(size, b.bytesPerSector)
    ensures ok ==> |sectors| == SectorCount(size, b.bytesPerSector)
    ensures TableKept(base, b.bytesPerSector, SectorCount(size, b.bytesPerSector)) && InReach(first) ==>
      var fat := old(mem[base + FAT_AT..base + FAT_AT + BUFFER]);
      (ok <==> Loadable(b, d, fat, first, size)) && Loaded(b, d, fat, first, sectors)
  {
    hide ReadSector, GoodDrive, Entry, Loaded, Loadable, SectorCount, InReach, Span, StoreAll, TableKept, Follow,
         FromDisk, GoesOnFor, ClusterLba, FileSector;
    ghost var start, fat, at := mem[..], mem[base + FAT_AT..base + FAT_AT + BUFFER], base + KERNEL_AT;
    ghost var count := SectorCount(size, b.bytesPerSector);
    ghost var safe := TableKept(base, b.bytesPerSector, count) && InReach(first);
    var linear: nat, cluster: nat, remaining: nat := base + KERNEL_AT, first, size;
    ghost var k: nat := 0;
    sectors := [];
    StartLoad(b, d, start, fat, at, first);
    while remaining > 0
      invariant mem[..] == StoreAll(start, at, b.bytesPerSector, sectors) && FromDisk(d, sectors)
      invariant |sectors| <= count && (remaining == 0 ==> |sectors| == count)
      invariant remaining > 0 ==> Span(b.bytesPerSector, |sectors|) + remaining == size
      invariant remaining > 0 ==> linear == at + Span(b.bytesPerSector, |sectors|)
      invariant remaining > 0 ==> |sectors| == k * b.sectorsPerCluster
      invariant cluster >= 2
      invariant safe ==> cluster == Nth(fat, first, k) && InReach(cluster) && GoesOnFor(fat, first, k)
      invariant safe ==> Loaded(b, d, fat, first, sectors)
      decreases remaining
    {
      ghost var before := sectors;
      ok, linear, remaining, sectors := LoadCluster(b, d, mem, cluster, linear, remaining, size, start, at, before);
      FollowIsFromDisk(d, before, sectors, ClusterLba(b, cluster));
      if safe {
        ClusterLoaded(b, d, fat, first, before, sectors, k);
        BufferKept(start, base, b.bytesPerSector, sectors, count);
      }
      if !ok {
        if safe {
          NotLoadable(b, d, fat, first, size, |sectors|);
        }
        return;
      }
      if remaining == 0 {
        break;
      }
      cluster := FollowChain(mem, base, cluster);
      Distribute(k, b.sectorsPerCluster);
      GoesOnOneMore(fat, first, k);
      k := k + 1;
      if cluster == BAD_CLUSTER || cluster < 2 || cluster >= 0xFF8 {
        if safe {
          ChainTooShort(b, d, fat, first, size, k);
        }
        return false, sectors;
      }
      FollowedInReach(cluster);
    }
    if safe {
      AllLoadable(b, d, fat, first, size, sectors);
    }
    ok := true;
  }

  lemma StartLoad(b: Bpb, d: Disk, start: seq<byte>, fat: seq<byte>, at: nat, first: nat)
    requires FieldsSet(b) && GoodDisk(d)
    ensures StoreAll(start, at, b.bytesPerSector, []) == start && FromDisk(d, []) && Loaded(b, d, fat, first, [])
    ensures Span(b.bytesPerSector, 0) == 0 && SectorCount(0, b.bytesPerSector) == 0 && GoesOnFor(fat, first, 0)
  {
  }

  lemma NotLoadable(b: Bpb, d: Disk, fat: seq<byte>, first: nat, size: nat, j: nat)
    requires FieldsSet(b) && GoodDisk(d) && j < SectorCount(size, b.bytesPerSector)
    requires FileSector(b, d, fat, first, j).ReadError?
    ensures !Loadable(b, d, fat, first, size)
  {
    hide FileSector, Reached, SectorCount;
  }

  lemma AllLoadable(b: Bpb, d: Disk, fat: seq<byte>, first: nat, size: nat, sectors: seq<seq<byte>>)
    requires FieldsSet(b) && GoodDisk(d) && Loaded(b, d, fat, first, sectors)
    requires |sectors| == SectorCount(size, b.bytesPerSector)
    ensures Loadable(b, d, fat, first, size)
  {
    hide FileSector, Reached, SectorCount;
  }

  // ----- The whole load -----

  /** The bytes of the file, one after the other, are those of the sectors loaded. */
  lemma {:induction false} FileIsJoined(b: Bpb, d: Disk, fat: seq<byte>, first: nat, sectors: seq<seq<byte>>)
    requires FieldsSet(b) && GoodDisk(d) && Loaded(b, d, fat, first, sectors)
    ensures FileBytes(b, d, fat, first, |sectors|) == Joined(sectors) && WholeSectors(sectors)
    decreases |sectors|
  {
    hide FileSector, Reached;
    if sectors != [] {
      var n := |sectors| - 1;
      FileIsJoined(b, d, fat, first, sectors[..n]);
      assert FileSector(b, d, fat, first, n) == ReadOk(sectors[n]);
    }
  }

  /** The first `size` bytes of the file's clusters are at `at`. */
  ghost predicate InPlace(b: Bpb, d: Disk, fat: seq<byte>, first: nat, size: nat, mem: seq<byte>, at: nat)
    requires GoodDisk(d) && FieldsSet(b)
  {
    var all := FileBytes(b, d, fat, first, SectorCount(size, b.bytesPerSector));
    size <= |all| && at + size <= |mem| && mem[at..at + size] == all[..size]
  }

  /** Byte `p` of the file is at `at + p` modulo 1 MiB. */
  ghost predicate InPlaceWrapped(b: Bpb, d: Disk, fat: seq<byte>, first: nat, size: nat, mem: seq<byte>, at: nat)
    requires GoodDisk(d) && FieldsSet(b)
  {
    var all := FileBytes(b, d, fat, first, SectorCount(size, b.bytesPerSector));
    size <= |all| && MEGABYTE <= |mem| && forall p :: 0 <= p < size ==> mem[(at + p) % MEGABYTE] == all[p]
  }

  lemma LoadedInPlace(b: Bpb, d: Disk, fat: seq<byte>, first: nat, size: nat, base: nat, start: seq<byte>,
                      sectors: seq<seq<byte>>)
    requires FieldsSet(b) && GoodDisk(d) && |start| == REAL_MEMORY && base + TWO16 <= MEGABYTE
    requires Loaded(b, d, fat, first, sectors) && |sectors| == SectorCount(size, b.bytesPerSector)
    requires TableKept(base, b.bytesPerSector, |sectors|)
    ensures var at := base + KERNEL_AT;
      FileInPlace(b, d, fat, first, size, StoreAll(start, at, b.bytesPerSector, sectors), at)
  {
    hide Loaded, StoreAll, TableKept, SectorCount, InPlace, InPlaceWrapped;
    if b.bytesPerSector == SECTOR {
      TableKeptExactly(base, |sectors|);
      SectorsInPlace(b, d, fat, first, size, start, base + KERNEL_AT, sectors);
    }
  }

  lemma SectorsInPlace(b: Bpb, d: Disk, fat: seq<byte>, first: nat, size: nat, start: seq<byte>, at: nat,
                       sectors: seq<seq<byte>>)
    requires FieldsSet(b) && GoodDisk(d) && b.bytesPerSector == SECTOR && |start| == REAL_MEMORY && at <= MEGABYTE
    requires Loaded(b, d, fat, first, sectors) && |sectors| == SectorCount(size, SECTOR)
    ensures var mem := StoreAll(start, at, SECTOR, sectors);
      && (BelowMegabyte(at, SECTOR, |sectors|) ==> InPlace(b, d, fat, first, size, mem, at))
      && (at % SECTOR == 0 && |sectors| * SECTOR <= MEGABYTE ==> InPlaceWrapped(b, d, fat, first, size, mem, at))
  {
    hide FileBytes, Loaded, Joined, StoreAll, Target;
    FileIsJoined(b, d, fat, first, sectors);
    var mem, n := StoreAll(start, at, SECTOR, sectors), |sectors|;
    assert size <= n * SECTOR;
    if n > 0 {
      JoinedByte(sectors, 0);
    }
    if BelowMegabyte(at, SECTOR, n) {
      SideBySide(start, at, sectors);
      assert mem[at..at + size] == mem[at..at + n * SECTOR][..size];
    }
    if at % SECTOR == 0 && n * SECTOR <= MEGABYTE {
      forall p | 0 <= p < size ensures mem[(at + p) % MEGABYTE] == Joined(sectors)[p] {
        ByteWrapped(start, at, sectors, p);
      }
    }
  }

  /**
   What a load did: it stored the table, and then disk sectors at their targets, one for each that the
   file needs if it succeeded.
   */
  ghost predicate Stored(b: Bpb, d: Disk, mem: seq<byte>, mem': seq<byte>, base: nat, sectors: seq<seq<byte>>)
    requires GoodDisk(d)
  {
    mem' == StoreAll(Tabled(b, d, mem, base), base + KERNEL_AT, b.bytesPerSector, sectors) && FromDisk(d, sectors)
  }

  /**
   `fat_load_file`.  It ends even when the chain is a cycle.  Memory afterwards is exactly that of
   storing the table and then `sectors` at their targets, one for each sector of the file on success.
   While these do not reach the table in memory, it succeeds exactly when the table can be read, the
   chain supplies enough clusters and every sector needed can be read; and then they are the file's.
   */
  method LoadFile(b: Bpb, d: Disk, mem: array<byte>, base: nat, first: nat, size: nat)
    returns (ok: bool, ghost sectors: seq<seq<byte>>)
    requires Mounted(b, d) && mem.Length == REAL_MEMORY && base + TWO16 <= MEGABYTE
    modifies mem
    ensures first < 2 ==> !ok && mem[..] == old(mem[..])
    ensures first >= 2 && !TableReadable(b, d) ==>
      !ok && SameOutside(old(mem[..]), mem[..], base + FAT_AT, base + FAT_AT + TableSpan(b))
    ensures first >= 2 && TableReadable(b, d) ==> Stored(b, d, old(mem[..]), mem[..], base, sectors)
    ensures |sectors| <= SectorCount(size, b.bytesPerSector)
    ensures ok ==> |sectors| == SectorCount(size, b.bytesPerSector)
    ensures TableKept(base, b.bytesPerSector, SectorCount(size, b.bytesPerSector)) && InReach(first) ==>
      var fat := Buffer(b, d, old(mem[..]), base);
      && (ok <==> first >= 2 && TableReadable(b, d) && Loadable(b, d, fat, first, size))
      && (ok ==> Loaded(b, d, fat, first, sectors) && FileInPlace(b, d, fat, first, size, mem[..], base + KERNEL_AT))
    ensures OnlyTargets(b, base, |sectors|, old(mem[..]), mem[..])
    ensures ok ==> AllTargets(base + KERNEL_AT, b.bytesPerSector, sectors, mem[..])
  {
    hide ReadSector, GoodDrive, Accepted, Loadable, Loaded, TableReadable, TableKept, SectorCount, StoreAll, FromDisk,
         TableSpan, TableFits, SameOutside, OnlyTargets, AllTargets, FileInPlace, InReach;
    ghost var before := mem[..];
    sectors := [];
    if first < 2 {
      UntouchedOnly(b, base, before, before);
      return false, sectors;
    }
    var read := ReadTable(b, d, mem, base);
    ghost var tabled := mem[..];
    if !read {
      UntouchedOnly(b, base, before, tabled);
      return false, sectors;
    }
    ok, sectors := LoadChain(b, d, mem, base, first, size);
    StoredTargets(b, d, base, before, tabled, sectors);
    if ok && TableKept(base, b.bytesPerSector, |sectors|) && InReach(first) {
      LoadedInPlace(b, d, Buffer(b, d, before, base), first, size, base, tabled, sectors);
    }
  }

  lemma UntouchedOnly(b: Bpb, base: nat, mem: seq<byte>, mem': seq<byte>)
    requires mem == mem' || SameOutside(mem, mem', base + FAT_AT, base + FAT_AT + TableSpan(b))
    ensures OnlyTargets(b, base, 0, mem, mem')
  {
    hide TableSpan, Covers;
  }

  lemma StoredTargets(b: Bpb, d: Disk, base: nat, mem: seq<byte>, tabled: seq<byte>, sectors: seq<seq<byte>>)
    requires GoodDisk(d) && |mem| == REAL_MEMORY && FromDisk(d, sectors)
    requires SameOutside(mem, tabled, base + FAT_AT, base + FAT_AT + TableSpan(b))
    ensures var mem' := StoreAll(tabled, base + KERNEL_AT, b.bytesPerSector, sectors);
      && OnlyTargets(b, base, |sectors|, mem, mem')
      && AllTargets(base + KERNEL_AT, b.bytesPerSector, sectors, mem')
  {
    hide StoreAll, Written, FromSector, TableSpan, FromDisk;
    DiskSectorsWhole(d, sectors);
    var at, stride := base + KERNEL_AT, b.bytesPerSector;
    var mem' := StoreAll(tabled, at, stride, sectors);
    forall q | 0 <= q < |mem| && !Written(at, stride, |sectors|, q) ensures mem'[q] == tabled[q] {
      UnwrittenKept(tabled, at, stride, sectors, q);
    }
    forall q: nat | Written(at, stride, |sectors|, q)
      ensures q < |mem'| && FromSector(at, stride, sectors, q, mem'[q])
    {
      WrittenIsStored(tabled, at, stride, sectors, q);
    }
  }

  /** Only the table's bytes, and those in the way of `n` sectors, have changed. */
  ghost predicate OnlyTargets(b: Bpb, base: nat, n: nat, mem: seq<byte>, mem': seq<byte>) {
    var at := base + KERNEL_AT;
    && |mem| == |mem'|
    && forall q ::
      (&& 0 <= q < |mem| && !Written(at, b.bytesPerSector, n, q)
       && !(base + FAT_AT <= q < base + FAT_AT + TableSpan(b))) ==> mem'[q] == mem[q]
  }

  /** On a volume of 512-byte sectors the file's bytes are where they belong. */
  ghost predicate FileInPlace(b: Bpb, d: Disk, fat: seq<byte>, first: nat, size: nat, mem: seq<byte>, at: nat)
    requires GoodDisk(d) && FieldsSet(b)
  {
    b.bytesPerSector == SECTOR ==>
      && (BelowMegabyte(at, SECTOR, SectorCount(size, SECTOR)) ==> InPlace(b, d, fat, first, size, mem, at))
      && (at % SECTOR == 0 ==> InPlaceWrapped(b, d, fat, first, size, mem, at))
  }

  lemma DiskSectorsWhole(d: Disk, sectors: seq<seq<byte>>)
    requires GoodDisk(d) && FromDisk(d, sectors)
    ensures WholeSectors(sectors)
  {
    hide ReadSector;
    forall n | 0 <= n < |sectors| ensures |sectors[n]| == SECTOR {
      var lba :| ReadSector(d, lba) == ReadOk(sectors[n]);
    }
  }

  /**
   Stage 2 runs at 0x5000.  A successful load of a kernel one byte over 0xF7000 leaves a disk sector
   over the interrupt vectors.
   */
  method LoadLongKernel(b: Bpb, d: Disk, mem: array<byte>, first: nat) returns (ok: bool)
    requires Mounted(b, d) && b.bytesPerSector == SECTOR && mem.Length == REAL_MEMORY
    modifies mem
    ensures ok ==> IsSector(d, mem[..SECTOR])
  {
    hide ReadSector, GoodDrive, Accepted, StoreAll, TableReadable, TableKept, Loaded, Loadable, Target, IsSector;
    ghost var before, sectors := mem[..], [];
    ok, sectors := LoadFile(b, d, mem, 0x5000, first, 0xF_7001);
    if ok {
      LongKernelExample(b, d, before, mem[..], sectors);
    }
  }

  lemma LongKernelExample(b: Bpb, d: Disk, mem: seq<byte>, mem': seq<byte>, sectors: seq<seq<byte>>)
    requires GoodDisk(d) && b.bytesPerSector == SECTOR && |mem| == REAL_MEMORY
    requires Stored(b, d, mem, mem', 0x5000, sectors) && |sectors| == SectorCount(0xF_7001, SECTOR)
    ensures |mem'| == |mem| && IsSector(d, mem'[..SECTOR])
  {
    hide StoreAll, Tabled, IsSector, Target;
    DiskSectorsWhole(d, sectors);
    assert |sectors| == 1977;
    AllInPlace(Tabled(b, d, mem, 0x5000), 0x9000, SECTOR, sectors, 1976);
    assert SectorTarget(0x9000, SECTOR, 1976) == 0;
    assert mem'[..SECTOR] == sectors[1976];
  }
}
