/**
 Reading the boot sector, looking a file up in the root directory, and the whole of stage 2
 (boot/stage2/stage2.c).
 */
module Directory {
  import opened Fat12
  import opened Loader
  import opened Transfer

  const ENTRY: nat := 32
  const NAME: nat := 11
  const BOOT_AT: nat := 0x2000
  const ROOT_AT: nat := 0x3400
  const STACK: nat := 0x3A00             // where stage 2's stack may reach down to

  /** `fat_init`: get the drive's parameters, read the boot sector, parse it, and check it. */
  method FatInit(d: Disk, mem: array<byte>, base: nat) returns (ok: bool, b: Bpb)
    requires GoodDisk(d) && base + KERNEL_AT <= mem.Length
    modifies mem
    ensures ok <==> d.ready && ReadSector(d, 0).ReadOk? && Accepted(ReadBpb(ReadSector(d, 0).bytes))
    ensures ok ==> b == ReadBpb(ReadSector(d, 0).bytes) && InRange(b) && FirstData(b) <= b.totalSectors
    ensures SameOutside(old(mem[..]), mem[..], base + 0x2000, base + 0x2200)
  {
    hide ReadSector, GoodDrive, InRange, DataSectors, FirstData;
    b := Bpb(0, 0, 0, 0, 0, 0, 0);
    if !d.ready {
      return false, b;
    }
    var r := ReadSector(d, 0);
    if r.ReadError? {
      return false, b;
    }
    StoreSector(mem, base + BOOT_AT, r.bytes);
    PutOutside(old(mem[..]), base + BOOT_AT, r.bytes);
    PutThere(old(mem[..]), base + BOOT_AT, r.bytes);
    b := ReadBpb(mem[base + BOOT_AT..base + BOOT_AT + SECTOR]);
    AcceptedExactly(b);
    ok := FieldsSet(b) && ClusterCount(b) < 4085;
  }

  lemma PutThere(mem: seq<byte>, at: nat, bytes: seq<byte>)
    requires |bytes| == SECTOR && at + SECTOR <= |mem|
    ensures PutSector(mem, at, bytes)[at..at + SECTOR] == bytes
    ensures forall hi :: at + SECTOR <= hi <= |mem| ==>
              PutSector(mem, at, bytes)[at..hi] == bytes + mem[at + SECTOR..hi]
  {
  }

  /** How many entries the loader looks at in a sector. */
  function PerSector(b: Bpb): nat {
    b.bytesPerSector / ENTRY
  }

  /** All entries looked at lie below the stack. */
  predicate RootFits(b: Bpb) {
    ROOT_AT + b.bytesPerSector <= STACK
  }

  /** What memory holds after the buffer of 512 bytes, as far as the loader looks. */
  ghost predicate GoodTail(b: Bpb, tail: seq<byte>) {
    |tail| == TailLength(b)
  }

  function TailLength(b: Bpb): nat {
    if b.bytesPerSector > SECTOR then b.bytesPerSector - SECTOR else 0
  }

  /** What the loader looks at for sector `i` of the directory. */
  function RootView(b: Bpb, d: Disk, tail: seq<byte>, i: nat): (r: Read)
    requires GoodDisk(d)
    ensures r.ReadOk? ==> |r.bytes| == SECTOR + |tail|
  {
    match ReadSector(d, FirstRoot(b) + i)
    case ReadError => ReadError
    case ReadOk(bytes) => ReadOk(bytes + tail)
  }

  /** Entry `j` of a directory sector. */
  function Slot(bytes: seq<byte>, j: nat): (e: seq<byte>)
    requires j * ENTRY + ENTRY <= |bytes|
    ensures |e| == ENTRY
  {
    bytes[j * ENTRY..j * ENTRY + ENTRY]
  }

  /** The directory starts right after the tables. */
  lemma RootViewOnDisk(b: Bpb, d: Disk, tail: seq<byte>, i: nat)
    requires GoodDisk(d) && b.bytesPerSector != 0 && FirstData(b) <= Capacity(d.drive) && i < RootSectors(b)
    ensures var s := b.reserved + b.fats * b.sectorsPerFat + i;
      RootView(b, d, tail, i) == if s in d.sectors then ReadOk(d.sectors[s] + tail) else ReadError
  {
    hide Capacity, RootSectors;
  }

  /** An entry with its fields where the standard puts them. */
  function LaidOut(name: seq<byte>, attribute: byte, other: seq<byte>, cluster: nat, size: nat): (e: seq<byte>)
    requires |name| == 11 && |other| == 14 && cluster < 0x1_0000 && size < 0x1_0000_0000
    ensures |e| == 32
  {
    name + [attribute] + other + Bytes16(cluster) + Bytes32(size)
  }

  /**
   The search takes an entry exactly when it has the name, does not start with 0 or 0xE5, and is neither
   a directory (bit 4), a label (bit 3) nor, as all long names are by that bit, part of a long name; and
   it reads its cluster and size back.
   */
  lemma EntryRoundTrip(name: seq<byte>, attribute: byte, other: seq<byte>, cluster: nat, size: nat, wanted: seq<byte>)
    requires |name| == 11 && |other| == 14 && cluster < 0x1_0000 && size < 0x1_0000_0000 && |wanted| == 11
    ensures var e := LaidOut(name, attribute, other, cluster, size);
      && Le16(e, 26) == cluster && Le32(e, 28) == size
      && (IsEnd(e) <==> name[0] == 0)
      && (IsHit(e, wanted) <==>
          name == wanted && name[0] != 0 && name[0] != 0xE5 &&
          (attribute as int as bv8) & 0x10 == 0 && (attribute as int as bv8) & 0x08 == 0)
  {
    var e := LaidOut(name, attribute, other, cluster, size);
    assert e[26..28] == Bytes16(cluster) && e[28..32] == Bytes32(size);
    LittleEndian(e, 26);
    LittleEndian(e, 28);
    assert e[11] == attribute && e[0] == name[0] && e[..8] == name[..8] && e[8..11] == name[8..11];
    assert name == name[..8] + name[8..11] && wanted == wanted[..8] + wanted[8..11];
    AttributeBits(attribute as int as bv8, attribute);
  }

  lemma AttributeBits(v: bv8, n: int)
    requires 0 <= n < 256 && v == n as bv8
    ensures n / 16 % 2 == 1 <==> v & 0x10 != 0
    ensures n / 8 % 2 == 1 <==> v & 0x08 != 0
  {
  }

  predicate IsEnd(e: seq<byte>)
    requires |e| == ENTRY
  {
    e[0] == 0x00
  }

  /** Deleted, part of a long name, a directory or a volume label. */
  predicate IsSkipped(e: seq<byte>)
    requires |e| == ENTRY
  {
    var attribute: int := e[11];
    e[0] == 0xE5 || attribute == 0x0F || attribute / 16 % 2 == 1 || attribute / 8 % 2 == 1
  }

  /** A file with this name. */
  predicate IsHit(e: seq<byte>, name: seq<byte>)
    requires |e| == ENTRY && |name| == NAME
  {
    !IsEnd(e) && !IsSkipped(e) && e[..8] == name[..8] && e[8..11] == name[8..11]
  }

  /** The search goes past this entry. */
  predicate GoesOn(e: seq<byte>, name: seq<byte>)
    requires |e| == ENTRY && |name| == NAME
  {
    !IsEnd(e) && !IsHit(e, name)
  }

  /** The whole sector is searched without an end or a hit. */
  ghost predicate PassesSector(b: Bpb, d: Disk, tail: seq<byte>, name: seq<byte>, i: nat)
    requires GoodDisk(d) && |name| == NAME && GoodTail(b, tail)
  {
    var r := RootView(b, d, tail, i);
    r.ReadOk? && forall j :: 0 <= j < PerSector(b) ==> GoesOn(Slot(r.bytes, j), name)
  }

  /** Entry `j` of sector `i` is the one `fat_find_file` should return: a hit, with nothing before it to stop at. */
  ghost predicate IsAnswer(b: Bpb, d: Disk, tail: seq<byte>, name: seq<byte>, i: nat, j: nat)
    requires GoodDisk(d) && |name| == NAME && GoodTail(b, tail)
  {
    && (forall k :: 0 <= k < i ==> PassesSector(b, d, tail, name, k))
    && RootView(b, d, tail, i).ReadOk? && j < PerSector(b)
    && (forall k :: 0 <= k < j ==> GoesOn(Slot(RootView(b, d, tail, i).bytes, k), name))
    && IsHit(Slot(RootView(b, d, tail, i).bytes, j), name)
  }

  /** There is at most one answer. */
  lemma AnswerUnique(b: Bpb, d: Disk, tail: seq<byte>, name: seq<byte>, i: nat, j: nat, i': nat, j': nat)
    requires GoodDisk(d) && |name| == NAME && GoodTail(b, tail)
    requires IsAnswer(b, d, tail, name, i, j)
    ensures IsAnswer(b, d, tail, name, i', j') ==> i == i' && j == j'
  {
    hide IsHit, IsEnd, RootView, Slot;
    if i' < i {
      assert PassesSector(b, d, tail, name, i');
    } else if i < i' {
      assert IsAnswer(b, d, tail, name, i', j') ==> PassesSector(b, d, tail, name, i);
    }
  }

  /** The inner loop of `fat_find_file`: the first of `count` entries that ends the search, `count` for none. */
  method FindStop(bytes: seq<byte>, name: seq<byte>, count: nat) returns (j: nat)
    requires |name| == NAME && count * ENTRY <= |bytes|
    ensures j <= count && forall k :: 0 <= k < j ==> GoesOn(Slot(bytes, k), name)
    ensures j < count ==> !GoesOn(Slot(bytes, j), name)
  {
    for n := 0 to count
      invariant forall k :: 0 <= k < n ==> GoesOn(Slot(bytes, k), name)
    {
      var e := Slot(bytes, n);
      if IsEnd(e) {
        return n;
      }
      if !IsSkipped(e) && e[..8] == name[..8] && e[8..11] == name[8..11] {
        return n;
      }
    }
    return count;
  }

  /** The directory has an answer for the name, and it gives this cluster and size. */
  ghost predicate Lists(b: Bpb, d: Disk, tail: seq<byte>, name: seq<byte>, first: nat, size: nat)
    requires GoodDisk(d) && |name| == NAME && GoodTail(b, tail) && b.bytesPerSector != 0
  {
    exists i, j :: 0 <= i < RootSectors(b) && 0 <= j && IsAnswer(b, d, tail, name, i, j)
      && Gives(b, d, tail, i, j, first, size)
  }

  /** Entry `j` of sector `i` holds this cluster and size. */
  ghost predicate Gives(b: Bpb, d: Disk, tail: seq<byte>, i: nat, j: nat, first: nat, size: nat)
    requires GoodDisk(d) && GoodTail(b, tail)
  {
    && RootView(b, d, tail, i).ReadOk? && j < PerSector(b)
    && first == Le16(Slot(RootView(b, d, tail, i).bytes, j), 26)
    && size == Le32(Slot(RootView(b, d, tail, i).bytes, j), 28)
  }

  /** That is what an entry laid out there holds. */
  lemma GivesWhatIsThere(b: Bpb, d: Disk, tail: seq<byte>, i: nat, j: nat, name: seq<byte>, attribute: byte,
                         other: seq<byte>, cluster: nat, bytes: nat, first: nat, size: nat)
    requires GoodDisk(d) && GoodTail(b, tail) && RootView(b, d, tail, i).ReadOk? && j < b.bytesPerSector / 32
    requires |name| == 11 && |other| == 14 && cluster < 0x1_0000 && bytes < 0x1_0000_0000
    requires RootView(b, d, tail, i).bytes[32 * j..32 * j + 32] == LaidOut(name, attribute, other, cluster, bytes)
    ensures Gives(b, d, tail, i, j, first, size) <==> first == cluster && size == bytes
  {
    hide RootView, LaidOut;
    EntryRoundTrip(name, attribute, other, cluster, bytes, name);
  }

  /** There is no answer for the name. */
  ghost predicate Absent(b: Bpb, d: Disk, tail: seq<byte>, name: seq<byte>)
    requires GoodDisk(d) && |name| == NAME && GoodTail(b, tail) && b.bytesPerSector != 0
  {
    forall i, j :: 0 <= i < RootSectors(b) && 0 <= j ==> !IsAnswer(b, d, tail, name, i, j)
  }

  /** All the sectors of the directory count. */
  lemma ListedWherever(b: Bpb, d: Disk, tail: seq<byte>, name: seq<byte>, i: nat, j: nat, first: nat, size: nat)
    requires GoodDisk(d) && |name| == NAME && GoodTail(b, tail) && b.bytesPerSector != 0
    requires IsAnswer(b, d, tail, name, i, j) && Gives(b, d, tail, i, j, first, size)
    requires i * b.bytesPerSector < b.rootEntries * 32
    ensures Lists(b, d, tail, name, first, size) && !Absent(b, d, tail, name)
  {
    hide IsAnswer, Gives, RootSectors;
    assert i < RootSectors(b) by {
      RootPlace(b);
      if RootSectors(b) <= i { MulBound(RootSectors(b), b.bytesPerSector, i, b.bytesPerSector); }
    }
  }

  /** A directory gives one cluster and size for a name. */
  lemma ListsOnce(b: Bpb, d: Disk, tail: seq<byte>, name: seq<byte>, first: nat, size: nat, first': nat, size': nat)
    requires GoodDisk(d) && |name| == NAME && GoodTail(b, tail) && b.bytesPerSector != 0
    requires Lists(b, d, tail, name, first, size)
    ensures Lists(b, d, tail, name, first', size') ==> first == first' && size == size'
  {
    hide IsAnswer, RootView, Slot, Le16, Le32;
    var i, j :| 0 <= i < RootSectors(b) && 0 <= j && IsAnswer(b, d, tail, name, i, j)
      && Gives(b, d, tail, i, j, first, size);
    forall i', j' | 0 <= i' && 0 <= j' ensures IsAnswer(b, d, tail, name, i', j') ==> i == i' && j == j' {
      AnswerUnique(b, d, tail, name, i, j, i', j');
    }
  }

  /**
   `fat_find_file`: finds the file exactly when the directory holds an answer within its sectors, and
   then returns that entry's first cluster and size.  It stores only to the directory buffer.
   */
  method FindFile(b: Bpb, d: Disk, mem: array<byte>, base: nat, name: seq<byte>)
    returns (found: bool, first: nat, size: nat)
    requires GoodDisk(d) && |name| == NAME && b.bytesPerSector != 0 && RootFits(b) && base + KERNEL_AT <= mem.Length
    modifies mem
    ensures found ==> Lists(b, d, TailOf(b, old(mem[..]), base), name, first, size)
    ensures !found ==> Absent(b, d, TailOf(b, old(mem[..]), base), name)
    ensures SameOutside(old(mem[..]), mem[..], base + 0x3400, base + 0x3600)
  {
    hide IsHit, RootView, Slot, Le16, Le32, GoodDrive, SameOutside, PutSector, TailOf;
    found, first, size := false, 0, 0;
    ghost var tail := TailOf(b, mem[..], base);
    OutsideSame(mem[..], base + ROOT_AT);
    for i := 0 to RootSectors(b)
      invariant !found && forall k :: 0 <= k < i ==> PassesSector(b, d, tail, name, k)
      invariant SameOutside(old(mem[..]), mem[..], base + ROOT_AT, base + ROOT_AT + SECTOR)
    {
      var r := ReadSector(d, FirstRoot(b) + i);
      if r.ReadError? {
        Unreadable(b, d, tail, i);
        NoAnswerPast(b, d, tail, name, i);
        return;
      }
      ghost var before := mem[..];
      StoreSector(mem, base + ROOT_AT, r.bytes);
      StoredView(b, d, old(mem[..]), before, base, i);
      var bytes := mem[base + ROOT_AT..base + ROOT_AT + SECTOR + TailLength(b)];
      var count := b.bytesPerSector / ENTRY;
      var j := FindStop(bytes, name, count);
      if j < count {
        var e := Slot(bytes, j);
        if IsEnd(e) {
          assert PassesBefore(bytes, name, j);
          NoAnswerPast(b, d, tail, name, i);
          return;
        }
        assert IsAnswer(b, d, tail, name, i, j) && Gives(b, d, tail, i, j, Le16(e, 26), Le32(e, 28));
        found, first, size := true, Le16(e, 26), Le32(e, 28);
        return;
      }
      assert PassesSector(b, d, tail, name, i);
    }
    NoAnswerBefore(b, d, tail, name, RootSectors(b));
  }

  /** The memory after the directory buffer that the loader looks at. */
  function TailOf(b: Bpb, mem: seq<byte>, base: nat): (t: seq<byte>)
    requires RootFits(b) && base + KERNEL_AT <= |mem|
    ensures |t| == TailLength(b)
  {
    mem[base + ROOT_AT + SECTOR..base + ROOT_AT + SECTOR + TailLength(b)]
  }

  lemma OutsideSame(mem: seq<byte>, at: nat)
    ensures SameOutside(mem, mem, at, at + SECTOR)
  {
  }

  lemma Unreadable(b: Bpb, d: Disk, tail: seq<byte>, i: nat)
    requires GoodDisk(d) && ReadSector(d, FirstRoot(b) + i).ReadError?
    ensures RootView(b, d, tail, i).ReadError?
  {
  }

  /** With sector `i` in the directory buffer, memory from there on is what the loader should look at. */
  lemma StoredView(b: Bpb, d: Disk, start: seq<byte>, before: seq<byte>, base: nat, i: nat)
    requires GoodDisk(d) && RootFits(b) && base + KERNEL_AT <= |start| && ReadSector(d, FirstRoot(b) + i).ReadOk?
    requires SameOutside(start, before, base + ROOT_AT, base + ROOT_AT + SECTOR)
    ensures var mem := PutSector(before, base + ROOT_AT, ReadSector(d, FirstRoot(b) + i).bytes);
      && SameOutside(start, mem, base + ROOT_AT, base + ROOT_AT + SECTOR)
      && RootView(b, d, TailOf(b, start, base), i) ==
         ReadOk(mem[base + ROOT_AT..base + ROOT_AT + SECTOR + TailLength(b)])
  {
    hide ReadSector;
    var at, bytes := base + ROOT_AT, ReadSector(d, FirstRoot(b) + i).bytes;
    PutThere(before, at, bytes);
    assert before[at + SECTOR..at + SECTOR + TailLength(b)] == start[at + SECTOR..at + SECTOR + TailLength(b)];
  }

  lemma EndIsNoHit(e: seq<byte>, name: seq<byte>)
    requires |e| == ENTRY && |name| == NAME && IsEnd(e)
    ensures !IsHit(e, name) && !GoesOn(e, name)
  {
  }

  /** A sector that the search passes holds no answer. */
  lemma NoAnswerBefore(b: Bpb, d: Disk, tail: seq<byte>, name: seq<byte>, n: nat)
    requires GoodDisk(d) && |name| == NAME && GoodTail(b, tail)
    requires forall k :: 0 <= k < n ==> PassesSector(b, d, tail, name, k)
    ensures forall i, j :: 0 <= i < n && 0 <= j ==> !IsAnswer(b, d, tail, name, i, j)
  {
    hide IsHit, IsEnd, RootView, Slot;
    forall i, j | 0 <= i < n && 0 <= j ensures !IsAnswer(b, d, tail, name, i, j) {
      assert PassesSector(b, d, tail, name, i);
    }
  }

  /** A sector that cannot be read, or that ends the directory, ends the search for good. */
  lemma NoAnswerPast(b: Bpb, d: Disk, tail: seq<byte>, name: seq<byte>, n: nat)
    requires GoodDisk(d) && |name| == NAME && GoodTail(b, tail)
    requires forall k :: 0 <= k < n ==> PassesSector(b, d, tail, name, k)
    requires RootView(b, d, tail, n).ReadError? || EndsIn(RootView(b, d, tail, n).bytes, name, PerSector(b))
    ensures forall i, j :: 0 <= i && 0 <= j ==> !IsAnswer(b, d, tail, name, i, j)
  {
    hide IsHit, RootView, Slot;
    NoAnswerBefore(b, d, tail, name, n);
    var r := RootView(b, d, tail, n);
    if r.ReadOk? {
      var e :| 0 <= e < PerSector(b) && IsEnd(Slot(r.bytes, e)) && PassesBefore(r.bytes, name, e);
      EndIsNoHit(Slot(r.bytes, e), name);
      assert forall j :: 0 <= j ==> !IsAnswer(b, d, tail, name, n, j);
    }
    assert !PassesSector(b, d, tail, name, n);
  }

  ghost predicate PassesBefore(bytes: seq<byte>, name: seq<byte>, j: nat)
    requires |name| == NAME && j * ENTRY <= |bytes|
  {
    forall k :: 0 <= k < j ==> GoesOn(Slot(bytes, k), name)
  }

  /** The first entry of the sector that stops the search is the end of the directory. */
  ghost predicate EndsIn(bytes: seq<byte>, name: seq<byte>, count: nat)
    requires |name| == NAME && count * ENTRY <= |bytes|
  {
    exists j :: 0 <= j < count && IsEnd(Slot(bytes, j)) && PassesBefore(bytes, name, j)
  }

  // ----- Stage 2 -----

  /** "KERNEL     " and "KERNEL  BIN". */
  const KERNEL: seq<byte> := [75, 69, 82, 78, 69, 76, 32, 32, 32, 32, 32]
  const KERNEL_BIN: seq<byte> := [75, 69, 82, 78, 69, 76, 32, 32, 66, 73, 78]

  lemma KernelNames()
    ensures |KERNEL| == 11 && forall i :: 0 <= i < 11 ==> KERNEL[i] == "KERNEL     "[i] as int
    ensures |KERNEL_BIN| == 11 && forall i :: 0 <= i < 11 ==> KERNEL_BIN[i] == "KERNEL  BIN"[i] as int
  {
  }

  /** `fat_init` succeeds. */
  ghost predicate Boots(d: Disk)
    requires GoodDisk(d)
  {
    d.ready && ReadSector(d, 0).ReadOk? && Accepted(ReadBpb(ReadSector(d, 0).bytes))
  }

  ghost function Volume(d: Disk): Bpb
    requires GoodDisk(d) && ReadSector(d, 0).ReadOk?
  {
    ReadBpb(ReadSector(d, 0).bytes)
  }

  /** The kernel file, looked for under its two names in turn. */
  ghost predicate IsKernel(b: Bpb, d: Disk, tail: seq<byte>, first: nat, size: nat)
    requires GoodDisk(d) && GoodTail(b, tail) && b.bytesPerSector != 0
  {
    Lists(b, d, tail, KERNEL, first, size) || (Absent(b, d, tail, KERNEL) && Lists(b, d, tail, KERNEL_BIN, first, size))
  }

  /** A file called KERNEL goes before one called KERNEL.BIN. */
  lemma KernelFirst(b: Bpb, d: Disk, tail: seq<byte>, first: nat, size: nat)
    requires GoodDisk(d) && GoodTail(b, tail) && b.bytesPerSector != 0
    ensures Lists(b, d, tail, KERNEL, first, size) ==> IsKernel(b, d, tail, first, size)
    ensures Absent(b, d, tail, KERNEL) ==>
      (IsKernel(b, d, tail, first, size) <==> Lists(b, d, tail, KERNEL_BIN, first, size))
  {
    hide IsAnswer, RootView, Slot, Le16, Le32, Gives;
  }

  /** A file on a well-formed volume of 512-byte sectors, whose load does not come round to the table. */
  ghost predicate Ordinary(b: Bpb, d: Disk, base: nat, first: nat, size: nat)
    requires GoodDisk(d) && FieldsSet(b)
  {
    && b.bytesPerSector == SECTOR && TableKept(base, SECTOR, SectorCount(size, SECTOR))
    && IsCluster(b, first) && ClusterCount(b) < 4085
    && (TableReadable(b, d) ==> GoodTable(b, Table(b, d)))
  }

  /** The file found is the only one it could be. */
  lemma KernelOnce(b: Bpb, d: Disk, tail: seq<byte>, first: nat, size: nat, first': nat, size': nat)
    requires GoodDisk(d) && GoodTail(b, tail) && b.bytesPerSector != 0 && IsKernel(b, d, tail, first, size)
    ensures IsKernel(b, d, tail, first', size') ==> first == first' && size == size'
  {
    hide IsAnswer, RootView, Slot, Le16, Le32;
    if Lists(b, d, tail, KERNEL, first, size) {
      ListsOnce(b, d, tail, KERNEL, first, size, first', size');
    } else {
      ListsOnce(b, d, tail, KERNEL_BIN, first, size, first', size');
    }
  }

  /** Find the kernel under either name. */
  method FindKernel(b: Bpb, d: Disk, mem: array<byte>, base: nat) returns (found: bool, first: nat, size: nat)
    requires GoodDisk(d) && b.bytesPerSector != 0 && RootFits(b) && base + KERNEL_AT <= mem.Length
    modifies mem
    ensures found ==> IsKernel(b, d, TailOf(b, old(mem[..]), base), first, size)
    ensures !found ==> forall f, z :: !IsKernel(b, d, TailOf(b, old(mem[..]), base), f, z)
  {
    hide Lists, Absent, TailOf, SameOutside;
    ghost var tail := TailOf(b, mem[..], base);
    found, first, size := FindFile(b, d, mem, base, KERNEL);
    if !found {
      SameTail(b, old(mem[..]), mem[..], base, base + ROOT_AT);
      found, first, size := FindFile(b, d, mem, base, KERNEL_BIN);
      if !found {
        NoKernel(b, d, tail);
      }
    }
  }

  lemma SameTail(b: Bpb, mem: seq<byte>, mem': seq<byte>, base: nat, at: nat)
    requires RootFits(b) && base + KERNEL_AT <= |mem| && at <= base + ROOT_AT && SameOutside(mem, mem', at, at + SECTOR)
    ensures TailOf(b, mem', base) == TailOf(b, mem, base)
  {
  }

  /** The boot sector's table and directory leave the loader's stack alone. */
  ghost predicate Fits(d: Disk)
    requires GoodDisk(d)
  {
    Boots(d) ==> TableFits(Volume(d)) && RootFits(Volume(d))
  }

  /** What stage 2 looks for: the kernel file of the volume in drive `d`. */
  ghost predicate TheKernel(d: Disk, mem: seq<byte>, base: nat, first: nat, size: nat)
    requires GoodDisk(d) && Fits(d) && Boots(d) && base + KERNEL_AT <= |mem|
  {
    IsKernel(Volume(d), d, TailOf(Volume(d), mem, base), first, size)
  }

  /**
   `stage2_main` up to the jump.  It jumps only to a kernel found on an accepted volume; and for an
   ordinary kernel file it jumps exactly when the table can be read and the file is loadable, with
   the file's bytes in place.
   */
  method Stage2(d: Disk, mem: array<byte>, base: nat) returns (jumps: bool)
    requires GoodDisk(d) && mem.Length == REAL_MEMORY && base + TWO16 <= MEGABYTE && Fits(d)
    modifies mem
    ensures jumps ==> Boots(d) && TableReadable(Volume(d), d)
    ensures jumps ==> exists first, size :: first >= 2 && TheKernel(d, old(mem[..]), base, first, size)
    ensures Boots(d) ==>
      forall first, size ::
        TheKernel(d, old(mem[..]), base, first, size) && Ordinary(Volume(d), d, base, first, size) ==>
          && (jumps <==> TableReadable(Volume(d), d) && Loadable(Volume(d), d, Table(Volume(d), d), first, size))
          && (jumps ==> KernelInPlace(Volume(d), d, first, size, mem[..], base + KERNEL_AT))
  {
    hide ReadSector, GoodDrive, ClusterCount, IsKernel, Absent, Ordinary, Loadable, Table, TableReadable,
         KernelInPlace, Stored, OnlyTargets, AllTargets, FileInPlace, Loaded, TableKept, SectorCount, TailOf,
         SameOutside, Buffer, RootFits, TableFits;
    ghost var start := mem[..];
    var ok, b := FatInit(d, mem, base);
    if !ok {
      return false;
    }
    SameTail(b, start, mem[..], base, base + BOOT_AT);
    var found, first, size := FindKernel(b, d, mem, base);
    if !found {
      return false;
    }
    ghost var before, sectors := mem[..], [];
    jumps, sectors := LoadFile(b, d, mem, base, first, size);
    forall f, z ensures TheKernel(d, start, base, f, z) ==> f == first && z == size {
      KernelOnce(b, d, TailOf(b, start, base), first, size, f, z);
    }
    assert TheKernel(d, start, base, first, size);
    if Ordinary(b, d, base, first, size) {
      OrdinaryInReach(b, d, base, first, size);
      OrdinaryLoad(b, d, before, mem[..], base, first, size, jumps);
    }
  }

  /** The kernel's bytes are where they belong. */
  ghost predicate KernelInPlace(b: Bpb, d: Disk, first: nat, size: nat, mem: seq<byte>, at: nat)
    requires GoodDisk(d) && FieldsSet(b)
  {
    FileInPlace(b, d, Table(b, d), first, size, mem, at)
  }

  lemma NoKernel(b: Bpb, d: Disk, tail: seq<byte>)
    requires GoodDisk(d) && GoodTail(b, tail) && b.bytesPerSector != 0
    requires Absent(b, d, tail, KERNEL) && Absent(b, d, tail, KERNEL_BIN)
    ensures forall first, size :: !IsKernel(b, d, tail, first, size)
  {
    hide IsAnswer, RootView, Slot, Le16, Le32;
  }

  lemma OrdinaryInReach(b: Bpb, d: Disk, base: nat, first: nat, size: nat)
    requires GoodDisk(d) && FieldsSet(b) && Ordinary(b, d, base, first, size)
    ensures TableKept(base, b.bytesPerSector, SectorCount(size, b.bytesPerSector)) && InReach(first) && first >= 2
  {
    hide ClusterCount, TableReadable, Table, GoodTable, TableKept, SectorCount;
  }

  /** On a volume of 512-byte sectors the buffer starts with the table. */
  lemma BufferStartsWithTable(b: Bpb, d: Disk, mem: seq<byte>, base: nat)
    requires Mounted(b, d) && b.bytesPerSector == SECTOR && TableReadable(b, d)
    requires |mem| == REAL_MEMORY && base + TWO16 <= MEGABYTE
    ensures exists more :: Buffer(b, d, mem, base) == Table(b, d) + more
  {
    hide TableReadable, StoreAll, TableSectors, Accepted, InRange, Joined, GoodDrive;
    var n, at := b.sectorsPerFat, base + FAT_AT;
    var sectors := TableSectors(b, d, n);
    TableSectorsWhole(b, d, n);
    SideBySide(mem, at, sectors);
    var tabled := Tabled(b, d, mem, base);
    var more := tabled[at + n * SECTOR..at + BUFFER];
    assert tabled[at..at + BUFFER] == tabled[at..at + n * SECTOR] + more;
    assert Buffer(b, d, mem, base) == Table(b, d) + more;
  }

  /** For an ordinary file what `LoadFile` promises is about the table alone. */
  lemma OrdinaryLoad(b: Bpb, d: Disk, before: seq<byte>, after: seq<byte>, base: nat, first: nat, size: nat, ok: bool)
    requires Mounted(b, d) && |before| == REAL_MEMORY && base + TWO16 <= MEGABYTE && Ordinary(b, d, base, first, size)
    requires
      var fat := Buffer(b, d, before, base);
      && (ok <==> first >= 2 && TableReadable(b, d) && Loadable(b, d, fat, first, size))
      && (ok ==> FileInPlace(b, d, fat, first, size, after, base + KERNEL_AT))
    ensures ok <==> TableReadable(b, d) && Loadable(b, d, Table(b, d), first, size)
    ensures ok ==> KernelInPlace(b, d, first, size, after, base + KERNEL_AT)
  {
    hide ReadSector, GoodTable, ClusterCount, Reached, FileSector, FileBytes, Table, TableReadable, Accepted, Buffer,
         TableKept, SectorCount;
    if TableReadable(b, d) {
      BufferStartsWithTable(b, d, before, base);
      var more :| Buffer(b, d, before, base) == Table(b, d) + more;
      LoadableInTable(b, d, Table(b, d), more, first, size);
      if Loadable(b, d, Table(b, d), first, size) {
        BytesInTable(b, d, Table(b, d), more, first, SectorCount(size, SECTOR));
      }
    }
  }
}
