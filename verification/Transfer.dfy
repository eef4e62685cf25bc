/**
 How disk reads fill real-mode memory: INT 13h stores whole sectors of 512 bytes at a segment and an
 offset, and boot/stage2/stage2.c steps from one to the next by what the boot sector gives as the size of
 a sector, here the `stride`.
 */
module Transfer {
  import opened Fat12

  const MEGABYTE: nat := 0x10_0000
  const REAL_MEMORY: nat := 0x10_FFF0    // all that segment and offset can name

  /** The distance between the first of the sectors and number `n`. */
  function Span(stride: nat, n: nat): nat {
    n * stride
  }

  lemma SpanStep(stride: nat, n: nat)
    ensures Span(stride, 0) == 0 && Span(stride, n + 1) == Span(stride, n) + stride
  {
    Distribute(n, stride);
  }

  lemma SpanOrder(stride: nat, m: nat, n: nat)
    requires m <= n
    ensures Span(stride, m) <= Span(stride, n)
  {
    MulBound(m, stride, n, stride);
  }

  /** Where a read to `linear` goes: the segment, `linear >> 4`, keeps 16 bits. */
  function Target(linear: nat): nat {
    linear / 16 % TWO16 * 16 + linear % 16
  }

  lemma TargetWraps(linear: nat)
    ensures Target(linear) == linear % MEGABYTE
  {
    var seg, off := linear / 16, linear % 16;
    assert linear == 16 * (seg / TWO16 * TWO16 + seg % TWO16) + off;
    assert linear == MEGABYTE * (seg / TWO16) + (16 * (seg % TWO16) + off);
  }

  /** Where sector `j` of those loaded at `at` goes; `stride` is the size of a sector by the boot sector. */
  function SectorTarget(at: nat, stride: nat, j: nat): (t: nat)
    ensures t == (at + Span(stride, j)) % MEGABYTE
  {
    TargetWraps(at + Span(stride, j));
    Target(at + Span(stride, j))
  }

  /** How many sectors a file takes. */
  function SectorCount(size: nat, stride: nat): nat
    requires stride > 0
  {
    (size + (stride - 1)) / stride
  }

  /** As few as hold it. */
  lemma SectorCountLeast(size: nat, stride: nat)
    requires stride > 0
    ensures var n := SectorCount(size, stride);
      size <= n * stride && (n > 0 ==> (n - 1) * stride < size)
  {
    var n := SectorCount(size, stride);
    Recompose(size + (stride - 1), stride);
    if n > 0 {
      Distribute(n - 1, stride);
    }
  }

  /** Sector `j` is stored over byte `q`. */
  predicate Covers(at: nat, stride: nat, j: nat, q: nat) {
    SectorTarget(at, stride, j) <= q < SectorTarget(at, stride, j) + SECTOR
  }

  /** One of the first `n` sectors is. */
  ghost predicate Written(at: nat, stride: nat, n: nat, q: nat) {
    exists j :: 0 <= j < n && Covers(at, stride, j, q)
  }

  /** Memory once a sector has been stored. */
  function PutSector(mem: seq<byte>, at: nat, bytes: seq<byte>): (r: seq<byte>)
    ensures |r| == |mem|
  {
    if |bytes| == SECTOR && at + SECTOR <= |mem| then mem[..at] + bytes + mem[at + SECTOR..] else mem
  }

  /** Memory once the sectors have been stored one after the other. */
  function StoreAll(mem: seq<byte>, at: nat, stride: nat, sectors: seq<seq<byte>>): (r: seq<byte>)
    ensures |r| == |mem|
  {
    if sectors == [] then mem else
    var n := |sectors| - 1;
    PutSector(StoreAll(mem, at, stride, sectors[..n]), SectorTarget(at, stride, n), sectors[n])
  }

  ghost predicate WholeSectors(sectors: seq<seq<byte>>) {
    forall n :: 0 <= n < |sectors| ==> |sectors[n]| == SECTOR
  }

  lemma StoreOneMore(mem: seq<byte>, at: nat, stride: nat, sectors: seq<seq<byte>>, bytes: seq<byte>)
    ensures StoreAll(mem, at, stride, sectors + [bytes]) ==
            PutSector(StoreAll(mem, at, stride, sectors), SectorTarget(at, stride, |sectors|), bytes)
  {
    assert (sectors + [bytes])[..|sectors|] == sectors;
  }

  /** A byte that no sector covers is as it was. */
  lemma {:induction false} UnwrittenKept(mem: seq<byte>, at: nat, stride: nat, sectors: seq<seq<byte>>, q: nat)
    requires q < |mem| && !Written(at, stride, |sectors|, q)
    ensures StoreAll(mem, at, stride, sectors)[q] == mem[q]
    decreases |sectors|
  {
    hide SectorTarget;
    if sectors != [] {
      var n := |sectors| - 1;
      assert !Covers(at, stride, n, q);
      UnwrittenKept(mem, at, stride, sectors[..n], q);
    }
  }

  /** Byte `q` is that of the sector stored over it last. */
  lemma {:induction false} LastWriter(mem: seq<byte>, at: nat, stride: nat, sectors: seq<seq<byte>>, j: nat, q: nat)
    requires |mem| == REAL_MEMORY && WholeSectors(sectors) && j < |sectors| && Covers(at, stride, j, q)
    requires forall m :: j < m < |sectors| ==> !Covers(at, stride, m, q)
    ensures q < |mem| && StoreAll(mem, at, stride, sectors)[q] == sectors[j][q - SectorTarget(at, stride, j)]
    decreases |sectors|
  {
    hide Target, Span;
    var n := |sectors| - 1;
    if j < n {
      assert !Covers(at, stride, n, q);
      LastWriter(mem, at, stride, sectors[..n], j, q);
    }
  }

  /** Value `v` at `q` is from one of the sectors, in its place. */
  ghost predicate FromSector(at: nat, stride: nat, sectors: seq<seq<byte>>, q: nat, v: byte) {
    exists j :: 0 <= j < |sectors| && |sectors[j]| == SECTOR && Covers(at, stride, j, q)
      && v == sectors[j][q - SectorTarget(at, stride, j)]
  }

  /** Every byte that a sector covers has been stored to. */
  lemma {:induction false} WrittenIsStored(mem: seq<byte>, at: nat, stride: nat, sectors: seq<seq<byte>>, q: nat)
    requires |mem| == REAL_MEMORY && WholeSectors(sectors) && Written(at, stride, |sectors|, q)
    ensures q < |mem| && FromSector(at, stride, sectors, q, StoreAll(mem, at, stride, sectors)[q])
    decreases |sectors|
  {
    hide SectorTarget, StoreAll;
    var n := |sectors| - 1;
    StoreOneMore(mem, at, stride, sectors[..n], sectors[n]);
    assert sectors[..n] + [sectors[n]] == sectors;
    if Covers(at, stride, n, q) {
      LastWriter(mem, at, stride, sectors, n, q);
    } else {
      WrittenIsStored(mem, at, stride, sectors[..n], q);
      var j :| 0 <= j < n && Covers(at, stride, j, q)
        && StoreAll(mem, at, stride, sectors[..n])[q] == sectors[..n][j][q - SectorTarget(at, stride, j)];
      NotCovered(StoreAll(mem, at, stride, sectors[..n]), SectorTarget(at, stride, n), sectors[n], q);
      assert sectors[j] == sectors[..n][j];
    }
  }

  lemma NotCovered(mem: seq<byte>, at: nat, bytes: seq<byte>, q: nat)
    requires q < |mem| && !(at <= q < at + SECTOR)
    ensures PutSector(mem, at, bytes)[q] == mem[q]
  {
  }

  // ----- Sectors that keep clear of one another -----

  /** Two sectors less than 1 MiB apart do not overlap. */
  lemma TargetsApart(at: nat, stride: nat, n: nat, i: nat, j: nat, q: nat)
    requires SECTOR <= stride && Span(stride, n) <= MEGABYTE && i < j < n
    ensures !(Covers(at, stride, i, q) && Covers(at, stride, j, q))
  {
    hide Target;
    SpanApart(stride, n, i, j);
    hide Span;
    WrapShift(at + Span(stride, i), Span(stride, j) - Span(stride, i));
  }

  lemma SpanApart(stride: nat, n: nat, i: nat, j: nat)
    requires i < j < n
    ensures stride <= Span(stride, j) - Span(stride, i) <= Span(stride, n) - stride
  {
    hide Span;
    SpanStep(stride, i);
    SpanOrder(stride, i + 1, j);
    SpanOrder(stride, j + 1, n);
    SpanStep(stride, j);
  }

  lemma WrapShift(x: nat, delta: nat)
    requires 0 < delta < MEGABYTE
    ensures (x + delta) % MEGABYTE == x % MEGABYTE + delta || (x + delta) % MEGABYTE == x % MEGABYTE + delta - MEGABYTE
  {
  }

  /** Sectors that take no more than 1 MiB are all in place at the end. */
  lemma AllInPlace(mem: seq<byte>, at: nat, stride: nat, sectors: seq<seq<byte>>, j: nat)
    requires |mem| == REAL_MEMORY && WholeSectors(sectors) && j < |sectors|
    requires SECTOR <= stride && Span(stride, |sectors|) <= MEGABYTE
    ensures var t := SectorTarget(at, stride, j);
      t + SECTOR <= |mem| && StoreAll(mem, at, stride, sectors)[t..t + SECTOR] == sectors[j]
  {
    hide Target, Span, StoreAll;
    var t := SectorTarget(at, stride, j);
    var mem' := StoreAll(mem, at, stride, sectors);
    forall q | t <= q < t + SECTOR ensures mem'[q] == sectors[j][q - t] {
      forall m | j < m < |sectors| ensures !Covers(at, stride, m, q) {
        TargetsApart(at, stride, |sectors|, j, m, q);
      }
      LastWriter(mem, at, stride, sectors, j, q);
    }
    assert mem'[t..t + SECTOR] == sectors[j];
  }

  /** The last sector starts below 1 MiB. */
  predicate BelowMegabyte(at: nat, stride: nat, n: nat) {
    n == 0 || at + Span(stride, n - 1) < MEGABYTE
  }

  lemma TargetBelow(at: nat, stride: nat, n: nat, j: nat)
    requires BelowMegabyte(at, stride, n) && j < n
    ensures SectorTarget(at, stride, j) == at + Span(stride, j)
  {
    hide Target, Span;
    SpanOrder(stride, j, n - 1);
  }

  /** The sectors one after the other. */
  function Joined(sectors: seq<seq<byte>>): seq<byte> {
    if sectors == [] then [] else Joined(sectors[..|sectors| - 1]) + sectors[|sectors| - 1]
  }

  /** Sectors of 512 bytes stored below 1 MiB lie one after the other, and nothing else changes. */
  lemma {:induction false} SideBySide(mem: seq<byte>, at: nat, sectors: seq<seq<byte>>)
    requires |mem| == REAL_MEMORY && WholeSectors(sectors) && BelowMegabyte(at, SECTOR, |sectors|) && at <= MEGABYTE
    ensures var n, mem' := |sectors|, StoreAll(mem, at, SECTOR, sectors);
      && at + n * SECTOR <= |mem| && mem'[at..at + n * SECTOR] == Joined(sectors)
      && SameOutside(mem, mem', at, at + n * SECTOR)
    decreases |sectors|
  {
    hide Target, StoreAll, PutSector, SameOutside;
    if sectors == [] {
      NothingStored(mem, at, SECTOR);
      OutsideNothing(mem, at);
    } else {
      var n, last := |sectors| - 1, sectors[|sectors| - 1];
      SideBySide(mem, at, sectors[..n]);
      TargetBelow(at, SECTOR, |sectors|, n);
      assert sectors == sectors[..n] + [last];
      StoreOneMore(mem, at, SECTOR, sectors[..n], last);
      Appended(mem, StoreAll(mem, at, SECTOR, sectors[..n]), at, n * SECTOR, last);
    }
  }

  lemma OutsideNothing(mem: seq<byte>, at: nat)
    ensures SameOutside(mem, mem, at, at)
  {
  }

  /** Bytes outside `lo .. hi` are as they were. */
  ghost predicate SameOutside(mem: seq<byte>, mem': seq<byte>, lo: nat, hi: nat) {
    |mem| == |mem'| && forall q :: 0 <= q < |mem| && !(lo <= q < hi) ==> mem'[q] == mem[q]
  }

  /** A sector stored right after `done` bytes extends them. */
  lemma Appended(start: seq<byte>, mem: seq<byte>, at: nat, done: nat, bytes: seq<byte>)
    requires |bytes| == SECTOR && at + done + SECTOR <= |mem| && SameOutside(start, mem, at, at + done)
    ensures var mem' := PutSector(mem, at + done, bytes);
      && mem'[at..at + done + SECTOR] == mem[at..at + done] + bytes
      && SameOutside(start, mem', at, at + done + SECTOR)
  {
    var mem' := PutSector(mem, at + done, bytes);
    assert mem'[at..at + done + SECTOR] == mem'[at..at + done] + mem'[at + done..at + done + SECTOR];
    assert mem'[at..at + done] == mem[at..at + done];
  }

  // ----- Going round 1 MiB -----

  /** Byte `p` of the sectors, joined. */
  lemma {:induction false} JoinedByte(sectors: seq<seq<byte>>, p: nat)
    requires WholeSectors(sectors) && p < |sectors| * SECTOR
    ensures |Joined(sectors)| == |sectors| * SECTOR && Joined(sectors)[p] == sectors[p / SECTOR][p % SECTOR]
    decreases |sectors|
  {
    var n := |sectors| - 1;
    if n > 0 {
      JoinedByte(sectors[..n], if p < n * SECTOR then p else 0);
    }
  }

  lemma WrappedOffset(x: nat, r: nat)
    requires x % SECTOR == 0 && r < SECTOR
    ensures (x + r) % MEGABYTE == x % MEGABYTE + r
  {
    var y := x / SECTOR;
    assert x == SECTOR * (y / 2048 * 2048 + y % 2048);
    assert x == MEGABYTE * (y / 2048) + SECTOR * (y % 2048);
  }

  /** Stored at a multiple of 512 they may go round 1 MiB: byte `p` is at its address modulo 1 MiB. */
  lemma ByteWrapped(mem: seq<byte>, at: nat, sectors: seq<seq<byte>>, p: nat)
    requires |mem| == REAL_MEMORY && WholeSectors(sectors) && at % SECTOR == 0
    requires |sectors| * SECTOR <= MEGABYTE && p < |sectors| * SECTOR
    ensures |Joined(sectors)| == |sectors| * SECTOR
    ensures StoreAll(mem, at, SECTOR, sectors)[(at + p) % MEGABYTE] == Joined(sectors)[p]
  {
    hide StoreAll, Joined, SectorTarget;
    var j, r := p / SECTOR, p % SECTOR;
    JoinedByte(sectors, p);
    AllInPlace(mem, at, SECTOR, sectors, j);
    var t := SectorTarget(at, SECTOR, j);
    WrappedOffset(at + Span(SECTOR, j), r);
    assert StoreAll(mem, at, SECTOR, sectors)[t..t + SECTOR][r] == sectors[j][r];
  }

  /** INT 13h stores one whole sector. */
  method StoreSector(mem: array<byte>, at: nat, bytes: seq<byte>)
    requires |bytes| == SECTOR && at + SECTOR <= mem.Length
    modifies mem
    ensures mem[..] == PutSector(old(mem[..]), at, bytes)
  {
    for p := 0 to SECTOR
      invariant forall q :: 0 <= q < mem.Length ==>
        mem[q] == if at <= q < at + p then bytes[q - at] else old(mem[q])
    {
      mem[at + p] := bytes[p];
    }
    assert mem[..] == PutSector(old(mem[..]), at, bytes);
  }

  lemma NothingStored(mem: seq<byte>, at: nat, stride: nat)
    ensures StoreAll(mem, at, stride, []) == mem
  {
  }

  lemma PutOutside(mem: seq<byte>, at: nat, bytes: seq<byte>)
    ensures SameOutside(mem, PutSector(mem, at, bytes), at, at + SECTOR)
  {
  }

  lemma SectorFits(size: nat, stride: nat, j: nat)
    requires stride > 0 && Span(stride, j) < size
    ensures j < SectorCount(size, stride)
    ensures size <= Span(stride, j + 1) ==> SectorCount(size, stride) == j + 1
  {
    var q := SectorCount(size, stride);
    Recompose(size + (stride - 1), stride);
    Distribute(q, stride);
    assert size <= q * stride;
    if q <= j {
      MulBound(q, stride, j, stride);
    }
    if size <= (j + 1) * stride {
      SmallFactor(j + 1, stride - 1, stride, q);
    }
  }

  /** Bytes from `lo` up to `hi` are as they were. */
  ghost predicate SameInside(mem: seq<byte>, mem': seq<byte>, lo: nat, hi: nat) {
    |mem| == |mem'| && forall q :: lo <= q < hi && q < |mem| ==> mem'[q] == mem[q]
  }

  lemma FewerWritten(at: nat, stride: nat, m: nat, n: nat, q: nat)
    requires m <= n && Written(at, stride, m, q)
    ensures Written(at, stride, n, q)
  {
    hide Covers;
  }

  lemma SameSlice(mem: seq<byte>, mem': seq<byte>, lo: nat, hi: nat)
    requires lo <= hi <= |mem| && SameInside(mem, mem', lo, hi)
    ensures |mem| == |mem'| && mem'[lo..hi] == mem[lo..hi]
  {
  }

  /** Every byte in the way of the sectors holds a byte of one of them. */
  ghost predicate AllTargets(at: nat, stride: nat, sectors: seq<seq<byte>>, mem: seq<byte>) {
    forall q: nat :: Written(at, stride, |sectors|, q) ==> q < |mem| && FromSector(at, stride, sectors, q, mem[q])
  }
}
