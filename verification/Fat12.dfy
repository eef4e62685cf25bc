/**
 The FAT12 volume as boot/stage2/stage2.c reads it: the packed allocation table, the geometry in the
 boot sector, and the CHS (cylinder, head, sector) addressing of boot/stage2/disk.asm.
 Layout as in "FAT Type Determination" and the FAT12 entry layout of the Microsoft FAT specification 1.03.
 */
module Fat12 {

  type byte = b: int | 0 <= b < 256

  const TWO16: nat := 0x1_0000
  const TWO32: nat := 0x1_0000_0000
  const SECTOR: nat := 512
  const BAD_CLUSTER: nat := 0xFF7

  // ----- Packed 12-bit entries -----

  /** `offset` in `fat12_next_cluster`, a 16-bit sum. */
  function EntryOffset(cluster: nat): nat {
    (cluster + cluster / 2) % TWO16
  }

  /** The entry from its two bytes: the high 12 bits for odd clusters, the low 12 for even ones. */
  function Unpack(odd: bool, lo: byte, hi: byte): nat {
    if odd then lo / 16 + hi * 16 else lo + hi % 16 * 256
  }

  /** `fat12_next_cluster`. */
  function NextCluster(fat: seq<byte>, cluster: nat): nat
    requires EntryOffset(cluster) + 1 < |fat|
  {
    Unpack(cluster % 2 == 1, fat[EntryOffset(cluster)], fat[EntryOffset(cluster) + 1])
  }

  predicate IsEntry(v: nat) {
    v < 4096
  }

  /** Two entries in three bytes, as the standard lays them out. */
  function PackPair(a: nat, b: nat): (r: seq<byte>)
    requires IsEntry(a) && IsEntry(b)
    ensures |r| == 3
  {
    [a % 256, a / 256 + b % 16 * 16, b / 16]
  }

  /** A whole table; an odd last entry is followed by a zero half-byte. */
  function Pack(es: seq<nat>): (r: seq<byte>)
    requires forall v :: v in es ==> IsEntry(v)
    ensures |r| == (3 * |es| + 1) / 2
    decreases |es|
  {
    if es == [] then []
    else if |es| == 1 then PackPair(es[0], 0)[..2]
    else PackPair(es[0], es[1]) + Pack(es[2..])
  }

  /** Entry `i` straddles bytes `i + i / 2` and the next, both in the table. */
  lemma PackedBytes(es: seq<nat>, i: nat)
    requires (forall v :: v in es ==> IsEntry(v)) && i < |es|
    ensures i + i / 2 + 1 < |Pack(es)|
  {
  }

  lemma UnpackPair(a: nat, b: nat)
    requires IsEntry(a) && IsEntry(b)
    ensures var p := PackPair(a, b);
      Unpack(false, p[0], p[1]) == a && Unpack(true, p[1], p[2]) == b
  {
  }

  /** The first one or two entries of a table. */
  lemma PackedFirst(es: seq<nat>, i: nat)
    requires (forall v :: v in es ==> IsEntry(v)) && i < |es| && i < 2
    ensures i + i / 2 + 1 < |Pack(es)|
    ensures Unpack(i % 2 == 1, Pack(es)[i + i / 2], Pack(es)[i + i / 2 + 1]) == es[i]
  {
    hide Unpack, PackPair;
    PackedBytes(es, i);
    assert es[0] in es;
    if |es| > 1 {
      assert es[1] in es;
      UnpackPair(es[0], es[1]);
    } else {
      UnpackPair(es[0], 0);
    }
  }

  lemma {:induction false} PackedEntry(es: seq<nat>, i: nat)
    requires (forall v :: v in es ==> IsEntry(v)) && i < |es|
    ensures i + i / 2 + 1 < |Pack(es)|
    ensures Unpack(i % 2 == 1, Pack(es)[i + i / 2], Pack(es)[i + i / 2 + 1]) == es[i]
    decreases |es|
  {
    hide Unpack, PackPair;
    if i < 2 {
      PackedFirst(es, i);
    } else {
      PackedEntry(es[2..], i - 2);
      assert (i - 2) + (i - 2) / 2 + 3 == i + i / 2;
      assert Pack(es)[3..] == Pack(es[2..]);
    }
  }

  /** Decoding any packed table gives back every entry, as long as the offset fits in 16 bits. */
  lemma DecodePacked(es: seq<nat>, i: nat)
    requires (forall v :: v in es ==> IsEntry(v)) && i < |es| && i + i / 2 < TWO16
    ensures EntryOffset(i) + 1 < |Pack(es)| && NextCluster(Pack(es), i) == es[i]
  {
    hide Pack, Unpack;
    PackedEntry(es, i);
    assert EntryOffset(i) == i + i / 2;
  }

  lemma PackExample()
    ensures Pack([0x123, 0x456, 0x789]) == [0x23, 0x61, 0x45, 0x89, 0x07]
  {
    assert [0x123, 0x456, 0x789][2..] == [0x789];
  }

  // ----- Geometry -----

  function Le16(s: seq<byte>, at: nat): nat
    requires at + 1 < |s|
  {
    (s[at] as int) + (s[at + 1] as int) * 256
  }

  function Le32(s: seq<byte>, at: nat): nat
    requires at + 3 < |s|
  {
    Le16(s, at) + Le16(s, at + 2) * TWO16
  }

  /** The boot sector's fields. */
  datatype Bpb = Bpb(bytesPerSector: nat, sectorsPerCluster: nat, reserved: nat, fats: nat,
                     rootEntries: nat, totalSectors: nat, sectorsPerFat: nat)

  function ReadBpb(s: seq<byte>): (b: Bpb)
    requires |s| == SECTOR
    ensures InRange(b)
  {
    var small := Le16(s, 19);
    Bpb(Le16(s, 11), s[13], Le16(s, 14), s[16], Le16(s, 17), if small == 0 then Le32(s, 32) else small, Le16(s, 22))
  }

  /** Numbers as the disk holds them, low byte first. */
  function Bytes16(n: nat): (r: seq<byte>)
    requires n < 0x1_0000
    ensures |r| == 2
  {
    [n % 256, n / 256]
  }

  function Bytes32(n: nat): (r: seq<byte>)
    requires n < 0x1_0000_0000
    ensures |r| == 4
  {
    [n % 256, n / 256 % 256, n / 0x1_0000 % 256, n / 0x100_0000]
  }

  /** Reading back what was laid out. */
  lemma LittleEndian(s: seq<byte>, at: nat)
    ensures forall n :: 0 <= n < 0x1_0000 && at + 2 <= |s| && s[at..at + 2] == Bytes16(n) ==> Le16(s, at) == n
    ensures forall n :: 0 <= n < 0x1_0000_0000 && at + 4 <= |s| && s[at..at + 4] == Bytes32(n) ==> Le32(s, at) == n
  {
    forall n | 0 <= n < 0x1_0000 && at + 2 <= |s| && s[at..at + 2] == Bytes16(n) ensures Le16(s, at) == n {
      assert s[at..at + 2][0] == s[at] && s[at..at + 2][1] == s[at + 1];
    }
    forall n | 0 <= n < 0x1_0000_0000 && at + 4 <= |s| && s[at..at + 4] == Bytes32(n) ensures Le32(s, at) == n {
      var t := s[at..at + 4];
      assert t[0] == s[at] && t[1] == s[at + 1] && t[2] == s[at + 2] && t[3] == s[at + 3];
      FourBytes(n);
    }
  }

  lemma FourBytes(n: nat)
    ensures n == n % 256 + n / 256 % 256 * 256 + (n / 0x1_0000 % 256 + n / 0x100_0000 * 256) * 0x1_0000
  {
    var a, b, c := n / 256, n / 0x1_0000, n / 0x100_0000;
    assert n == n % 256 + 256 * a;
    assert a == a % 256 + 256 * b;
    assert b == b % 256 + 256 * c;
  }

  /** A boot sector with its fields where the standard puts them: bytes 11 to 23, and 32 to 35. */
  function BootSector(jump: seq<byte>, b: Bpb, small: nat, media: byte, geometry: seq<byte>, large: nat,
                      rest: seq<byte>): (s: seq<byte>)
    requires InRange(b) && |jump| == 11 && |geometry| == 8 && |rest| == 476
    requires small < 0x1_0000 && large < 0x1_0000_0000
    ensures |s| == SECTOR
  {
    jump + Bytes16(b.bytesPerSector) + [b.sectorsPerCluster] + Bytes16(b.reserved) + [b.fats] +
    Bytes16(b.rootEntries) + Bytes16(small) + [media] + Bytes16(b.sectorsPerFat) + geometry + Bytes32(large) + rest
  }

  /** The fields are read back from there; the number of sectors is the small one unless that is 0. */
  lemma ReadBpbRoundTrip(jump: seq<byte>, b: Bpb, small: nat, media: byte, geometry: seq<byte>, large: nat,
                         rest: seq<byte>)
    requires InRange(b) && |jump| == 11 && |geometry| == 8 && |rest| == 476
    requires small < 0x1_0000 && large < 0x1_0000_0000 && b.totalSectors == if small != 0 then small else large
    ensures ReadBpb(BootSector(jump, b, small, media, geometry, large, rest)) == b
  {
    var s := BootSector(jump, b, small, media, geometry, large, rest);
    BootSectorFields(jump, b, small, media, geometry, large, rest);
    hide BootSector, Bytes16, Bytes32, Le16, Le32;
    LittleEndian(s, 11);
    LittleEndian(s, 14);
    LittleEndian(s, 17);
    LittleEndian(s, 19);
    LittleEndian(s, 22);
    LittleEndian(s, 32);
  }

  lemma BootSectorFields(jump: seq<byte>, b: Bpb, small: nat, media: byte, geometry: seq<byte>, large: nat,
                         rest: seq<byte>)
    requires InRange(b) && |jump| == 11 && |geometry| == 8 && |rest| == 476
    requires small < 0x1_0000 && large < 0x1_0000_0000
    ensures var s := BootSector(jump, b, small, media, geometry, large, rest);
      && s[11..13] == Bytes16(b.bytesPerSector) && s[13] == b.sectorsPerCluster && s[14..16] == Bytes16(b.reserved)
      && s[16] == b.fats && s[17..19] == Bytes16(b.rootEntries) && s[19..21] == Bytes16(small)
      && s[22..24] == Bytes16(b.sectorsPerFat) && s[32..36] == Bytes32(large)
  {
    hide Bytes16, Bytes32;
  }

  predicate InRange(b: Bpb) {
    && b.bytesPerSector < TWO16 && b.sectorsPerCluster < 256 && b.reserved < TWO16 && b.fats < 256
    && b.rootEntries < TWO16 && b.totalSectors < TWO32 && b.sectorsPerFat < TWO16
  }

  predicate FieldsSet(b: Bpb) {
    && b.bytesPerSector != 0 && b.sectorsPerCluster != 0 && b.reserved != 0 && b.fats != 0
    && b.sectorsPerFat != 0 && b.totalSectors != 0
  }

  function RootSectors(b: Bpb): nat
    requires b.bytesPerSector != 0
  {
    (b.rootEntries * 32 + (b.bytesPerSector - 1)) / b.bytesPerSector
  }

  function FirstRoot(b: Bpb): nat {
    b.reserved + b.fats * b.sectorsPerFat
  }

  function FirstData(b: Bpb): nat
    requires b.bytesPerSector != 0
  {
    FirstRoot(b) + RootSectors(b)
  }

  /** How many sectors `n` tables take, one after the other. */
  function TableSpace(b: Bpb, n: nat): nat {
    if n == 0 then 0 else TableSpace(b, n - 1) + b.sectorsPerFat
  }

  lemma {:induction false} TableSpaceValue(b: Bpb, n: nat)
    ensures TableSpace(b, n) == n * b.sectorsPerFat
  {
    if n > 0 {
      TableSpaceValue(b, n - 1);
      Distribute(n - 1, b.sectorsPerFat);
    }
  }

  /** The root directory starts right after the reserved sectors and all the tables, and takes no more than it needs. */
  lemma RootPlace(b: Bpb)
    requires b.bytesPerSector != 0
    ensures FirstRoot(b) == b.reserved + TableSpace(b, b.fats) && FirstData(b) == FirstRoot(b) + RootSectors(b)
    ensures b.rootEntries * 32 <= RootSectors(b) * b.bytesPerSector
    ensures RootSectors(b) > 0 ==> (RootSectors(b) - 1) * b.bytesPerSector < b.rootEntries * 32
  {
    TableSpaceValue(b, b.fats);
    var n, d, q := b.rootEntries * 32, b.bytesPerSector, RootSectors(b);
    Recompose(n + (d - 1), d);
    if q > 0 {
      Distribute(q - 1, d);
    }
  }

  /** `g_data_sectors`, a subtraction modulo 2^32. */
  function DataSectors(b: Bpb): nat
    requires b.bytesPerSector != 0
  {
    (b.totalSectors - FirstData(b)) % TWO32
  }

  function ClusterCount(b: Bpb): nat
    requires b.bytesPerSector != 0 && b.sectorsPerCluster != 0
  {
    DataSectors(b) / b.sectorsPerCluster
  }

  /** `fat_init` returns 0. */
  predicate Accepted(b: Bpb) {
    FieldsSet(b) && ClusterCount(b) < 4085
  }

  lemma FirstDataBound(b: Bpb)
    requires InRange(b) && FieldsSet(b)
    ensures FirstData(b) < 0x200_0000
  {
    MulBound(b.fats, b.sectorsPerFat, 255, 0xFFFF);
    DivBound(b.rootEntries * 32, b.bytesPerSector);
  }

  lemma MulBound(x: nat, y: nat, mx: nat, my: nat)
    requires x <= mx && y <= my
    ensures x * y <= mx * my
  {
    assert x * y <= mx * y <= mx * my;
  }

  lemma DivBound(n: nat, d: nat)
    requires d > 0
    ensures (n + (d - 1)) / d <= n
  {
    if n > 0 {
      ProductAtLeast(n, d);
      QuotientAtMost(n + (d - 1), d, n);
    }
  }

  lemma ProductAtLeast(n: nat, d: nat)
    requires n > 0 && d > 0
    ensures n + (d - 1) <= n * d
  {
    MulBound(n - 1, 1, n - 1, d);
    Distribute(n - 1, d);
  }

  lemma QuotientAtMost(x: nat, d: nat, q: nat)
    requires d > 0 && x <= q * d
    ensures x / d <= q
  {
  }

  lemma SmallFactor(k: nat, r: nat, d: nat, q: nat)
    requires r < d && q * d <= k * d + r
    ensures q <= k
  {
    if k < q {
      Distribute(k, d);
      MulBound(k + 1, d, q, d);
    }
  }

  lemma QuotientAtLeast(x: nat, d: nat, q: nat)
    requires d > 0 && q * d <= x
    ensures x / d >= q
  {
    Recompose(x, d);
    SmallFactor(x / d, x % d, d, q);
  }

  /**
   The subtraction never goes wrong unnoticed: a volume is accepted exactly when its fields are set,
   its data area starts within it, and it has fewer than 4085 clusters.
   */
  lemma AcceptedExactly(b: Bpb)
    requires InRange(b)
    ensures Accepted(b) <==>
            && b.bytesPerSector != 0 && b.sectorsPerCluster != 0 && b.reserved != 0 && b.fats != 0
            && b.sectorsPerFat != 0 && b.totalSectors != 0 && FirstData(b) <= b.totalSectors
            && (b.totalSectors - FirstData(b)) / b.sectorsPerCluster < 4085
  {
    hide DataSectors, FirstData, InRange;
    if FieldsSet(b) {
      DataSectorsValue(b);
      if FirstData(b) > b.totalSectors {
        MulBound(b.sectorsPerCluster, 4085, 255, 4085);
        QuotientAtLeast(DataSectors(b), b.sectorsPerCluster, 4085);
      }
    }
  }

  /** The difference, if it does not wrap; a very large number, if it does. */
  lemma DataSectorsValue(b: Bpb)
    requires InRange(b) && FieldsSet(b)
    ensures FirstData(b) <= b.totalSectors ==> DataSectors(b) == b.totalSectors - FirstData(b)
    ensures FirstData(b) > b.totalSectors ==> DataSectors(b) >= 255 * 4085
    ensures b.sectorsPerCluster <= 255
  {
    hide FirstData;
    FirstDataBound(b);
  }

  function ClusterLba(b: Bpb, cluster: nat): nat
    requires b.bytesPerSector != 0 && cluster >= 2
  {
    FirstData(b) + (cluster - 2) * b.sectorsPerCluster
  }

  /** The clusters a volume has are numbered from 2. */
  predicate IsCluster(b: Bpb, c: nat)
    requires FieldsSet(b)
  {
    2 <= c < ClusterCount(b) + 2
  }

  /**
   On an accepted volume the reserved sectors, the tables, the root directory and the clusters
   follow one another without overlap, and every cluster lies within the volume.
   */
  lemma ClustersInVolume(b: Bpb, c: nat, d: nat)
    requires InRange(b) && Accepted(b) && IsCluster(b, c) && IsCluster(b, d) && c < d
    ensures b.reserved <= FirstRoot(b) <= FirstData(b) <= ClusterLba(b, c)
    ensures ClusterLba(b, c) + b.sectorsPerCluster <= ClusterLba(b, d)
    ensures ClusterLba(b, d) + b.sectorsPerCluster <= b.totalSectors
  {
    hide RootSectors, ClusterCount, Accepted, InRange;
    ClusterInVolume(b, d);
    var spc := b.sectorsPerCluster;
    Distribute(c - 2, spc);
    MulBound(c - 1, spc, d - 2, spc);
  }

  /** The clusters follow the root directory one after the other, from number 2 on. */
  lemma ClustersSideBySide(b: Bpb, c: nat)
    requires FieldsSet(b) && c >= 2
    ensures ClusterLba(b, 2) == FirstRoot(b) + RootSectors(b)
    ensures ClusterLba(b, c + 1) == ClusterLba(b, c) + b.sectorsPerCluster
  {
    hide FirstRoot, RootSectors;
    Distribute(c - 2, b.sectorsPerCluster);
  }

  lemma ClusterInVolume(b: Bpb, c: nat)
    requires InRange(b) && Accepted(b) && IsCluster(b, c)
    ensures FirstData(b) <= ClusterLba(b, c) && ClusterLba(b, c) + b.sectorsPerCluster <= b.totalSectors
  {
    hide FirstData, DataSectors, InRange;
    CountWithoutWrap(b);
    ClusterFits(FirstData(b), b.totalSectors, b.sectorsPerCluster, c, ClusterCount(b));
  }

  lemma CountWithoutWrap(b: Bpb)
    requires InRange(b) && Accepted(b)
    ensures FirstData(b) <= b.totalSectors
    ensures ClusterCount(b) == (b.totalSectors - FirstData(b)) / b.sectorsPerCluster
  {
    hide FirstData, DataSectors, InRange;
    AcceptedExactly(b);
    DataSectorsValue(b);
  }

  lemma ClusterFits(first: nat, total: nat, spc: nat, c: nat, count: nat)
    requires spc > 0 && first <= total && count == (total - first) / spc && 2 <= c < count + 2
    ensures 0 <= (c - 2) * spc && first + (c - 2) * spc + spc <= total
  {
    Recompose(total - first, spc);
    Distribute(c - 2, spc);
    MulBound(c - 1, spc, count, spc);
  }

  // ----- CHS addressing -----

  datatype Drive = Drive(sectorsPerTrack: nat, heads: nat)

  /** What `disk_get_params` can yield. */
  ghost predicate GoodDrive(d: Drive) {
    1 <= d.sectorsPerTrack <= 63 && 1 <= d.heads <= 256
  }

  /** The three registers handed to INT 13h. */
  datatype Registers = Registers(ch: byte, cl: byte, dh: byte)

  /** `lba_to_chs`: sector from 1, head and cylinder. */
  function ChsSector(d: Drive, lba: nat): nat
    requires GoodDrive(d)
  {
    lba % d.sectorsPerTrack + 1
  }

  function ChsTrack(d: Drive, lba: nat): nat
    requires GoodDrive(d)
  {
    lba / d.sectorsPerTrack
  }

  function ChsHead(d: Drive, lba: nat): nat
    requires GoodDrive(d)
  {
    ChsTrack(d, lba) % d.heads
  }

  function ChsCylinder(d: Drive, lba: nat): nat
    requires GoodDrive(d)
  {
    ChsTrack(d, lba) / d.heads
  }

  /** The packing in `disk_read_sector`. */
  function PackChs(d: Drive, lba: nat): Registers
    requires GoodDrive(d)
  {
    var cylinder := ChsCylinder(d, lba);
    Registers(cylinder % 256, cylinder / 4 % 256 / 64 * 64 + ChsSector(d, lba) % 64, ChsHead(d, lba) % 256)
  }

  /** The sector the BIOS reads: cylinder in CH and the top two bits of CL, sector from 1, head in DH. */
  function DecodeChs(d: Drive, r: Registers): int
    requires GoodDrive(d)
  {
    var cylinder := (r.ch as int) + (r.cl as int) / 64 * 256;
    (cylinder * d.heads + r.dh as int) * d.sectorsPerTrack + ((r.cl as int) % 64 - 1)
  }

  function Capacity(d: Drive): nat {
    1024 * d.heads * d.sectorsPerTrack
  }

  lemma PackedFields(cylinder: nat, sector: nat)
    requires 1 <= sector <= 63
    ensures var cl := cylinder / 4 % 256 / 64 * 64 + sector % 64;
      cl < 256 && cl % 64 == sector && cylinder % 256 + cl / 64 * 256 == cylinder % 1024
  {
    var h, t, low := cylinder / 1024, cylinder / 256 % 4, cylinder % 256;
    assert cylinder == 1024 * h + 256 * t + low;
    assert cylinder / 4 == 256 * h + (64 * t + low / 4);
    HighBits(h, t, low / 4);
    var cl := t * 64 + sector;
    assert cl / 64 == t && cl % 64 == sector;
  }

  lemma HighBits(h: nat, t: nat, r: nat)
    requires t < 4 && r < 64
    ensures (256 * h + (64 * t + r)) % 256 / 64 == t
  {
  }

  lemma Recompose(n: nat, d: nat)
    requires d > 0
    ensures n / d * d + n % d == n && n % d < d
  {
  }

  /** Sector, head and cylinder make up the address again. */
  lemma ChsParts(d: Drive, lba: nat)
    requires GoodDrive(d)
    ensures 1 <= ChsSector(d, lba) <= d.sectorsPerTrack && ChsHead(d, lba) < d.heads
    ensures (ChsCylinder(d, lba) * d.heads + ChsHead(d, lba)) * d.sectorsPerTrack + (ChsSector(d, lba) - 1) == lba
  {
    var track := ChsTrack(d, lba);
    Recompose(lba, d.sectorsPerTrack);
    Recompose(track, d.heads);
    assert ChsCylinder(d, lba) * d.heads + ChsHead(d, lba) == track;
  }

  /** The registers keep ten bits of the cylinder. */
  lemma ChsDecodes(d: Drive, lba: nat)
    requires GoodDrive(d)
    ensures DecodeChs(d, PackChs(d, lba)) ==
            (ChsCylinder(d, lba) % 1024 * d.heads + ChsHead(d, lba)) * d.sectorsPerTrack + (ChsSector(d, lba) - 1)
  {
    hide ChsSector, ChsHead, ChsCylinder;
    ChsParts(d, lba);
    PackedFields(ChsCylinder(d, lba), ChsSector(d, lba));
    var r := PackChs(d, lba);
    assert r.dh == ChsHead(d, lba);
  }

  /**
   CHS addressing is exact exactly below the drive's capacity: above it the ten bits of the cylinder
   wrap and another sector is read.
   */
  lemma ChsExactly(d: Drive, lba: nat)
    requires GoodDrive(d)
    ensures DecodeChs(d, PackChs(d, lba)) == lba <==> lba < Capacity(d)
  {
    hide PackChs, DecodeChs, ChsSector, ChsHead, ChsCylinder;
    ChsParts(d, lba);
    ChsDecodes(d, lba);
    CylinderWraps(ChsCylinder(d, lba), d.heads, ChsHead(d, lba), d.sectorsPerTrack, ChsSector(d, lba) - 1);
  }

  /** The last sector of a 1.44 MB floppy, and one on cylinder 0x3FF. */
  lemma ChsExample()
    ensures PackChs(Drive(18, 2), 2879) == Registers(79, 18, 1)
    ensures PackChs(Drive(63, 16), 0x3FF * 1008 + 5 * 63 + 8) == Registers(0xFF, 0xC9, 5)
  {
  }

  lemma CylinderWraps(cyl: nat, heads: nat, head: nat, spt: nat, s: nat)
    requires head < heads && s < spt
    ensures var lba := (cyl * heads + head) * spt + s;
      && ((cyl % 1024 * heads + head) * spt + s == lba <==> cyl < 1024)
      && (cyl < 1024 <==> lba < 1024 * heads * spt)
  {
    var lba := (cyl * heads + head) * spt + s;
    var low := cyl % 1024;
    if cyl >= 1024 {
      assert low < cyl;
      assert low * heads < cyl * heads by { StrictMul(low, cyl, heads); }
      StrictMul(low * heads + head, cyl * heads + head, spt);
      MulBound(1024, heads, cyl, heads);
      MulBound(1024 * heads, spt, cyl * heads + head, spt);
    } else {
      assert cyl * heads + head < 1024 * heads by { MulBound(cyl + 1, heads, 1024, heads); Distribute(cyl, heads); }
      MulBound(cyl * heads + head + 1, spt, 1024 * heads, spt);
      Distribute(cyl * heads + head, spt);
    }
  }

  lemma Distribute(a: nat, b: nat)
    ensures (a + 1) * b == a * b + b
  {
  }

  lemma StrictMul(a: nat, b: nat, m: nat)
    requires a < b && m > 0
    ensures a * m < b * m
  {
    MulBound(a + 1, m, b, m);
    Distribute(a, m);
  }
}
