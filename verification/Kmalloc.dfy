/**
 The kernel heap of kernel/mm/kmalloc.c as a list of blocks.

 A heap is a sequence of blocks laid out end to end from `HEAP_START`; each block is a 16-byte
 header followed by `size` payload bytes.  This module defines what `kmalloc` and `kfree` do to
 that sequence and proves the properties of the allocator; `KernelHeap` proves that the code,
 which follows `next` pointers between headers in memory, does exactly this.
 */
module Kmalloc {

  const HEADER_SIZE: nat := 16          // ALIGN8(sizeof(block_t)) on a 32-bit target
  const HEAP_START: nat := 0x10_0000    // __heap_start
  const HEAP_SIZE: nat := 0x10_0000
  const WORD: nat := 0x1_0000_0000      // size_t arithmetic is modulo 2^32
  const MAX_REQUEST: nat := 0xFFFF_FFF8 // the largest size that ALIGN8 does not wrap to 0

  datatype Block = Block(size: nat, free: bool)

  /** A live block as a client sees it: the address of its header and its payload size. */
  datatype Allocation = Allocation(header: nat, size: nat)

  function Align8(n: nat): nat {
    (n + 7) % WORD / 8 * 8
  }

  function Extent(b: Block): nat {
    HEADER_SIZE + b.size
  }

  function Span(bs: seq<Block>): nat {
    if bs == [] then 0 else Extent(bs[0]) + Span(bs[1..])
  }

  /** The live blocks of a list whose first header is at address `at`. */
  function Live(bs: seq<Block>, at: nat): set<Allocation> {
    if bs == [] then {} else
    (if bs[0].free then {} else {Allocation(at, bs[0].size)}) + Live(bs[1..], at + Extent(bs[0]))
  }

  ghost predicate GoodSizes(bs: seq<Block>) {
    forall i :: 0 <= i < |bs| ==> bs[i].size > 0 && bs[i].size % 8 == 0
  }

  ghost predicate NoFreeNeighbours(bs: seq<Block>) {
    forall i, j :: 0 <= i && j == i + 1 && j < |bs| ==> !(bs[i].free && bs[j].free)
  }

  ghost predicate Tidy(bs: seq<Block>) {
    GoodSizes(bs) && NoFreeNeighbours(bs)
  }

  /** The list tiles the heap exactly, in positive multiples of 8, with no two free neighbours. */
  ghost predicate Canonical(bs: seq<Block>) {
    Tidy(bs) && Span(bs) == HEAP_SIZE
  }

  // ----- The operations -----

  const INITIAL: seq<Block> := [Block(HEAP_SIZE - HEADER_SIZE, true)]

  /** What becomes of the block chosen for an (aligned) request of `n` bytes. */
  function Carve(b: Block, n: nat): seq<Block> {
    if b.size >= n + HEADER_SIZE + 8
    then [Block(n, false), Block(b.size - n - HEADER_SIZE, true)]
    else [Block(b.size, false)]
  }

  predicate Fits(b: Block, n: nat) {
    b.free && b.size >= n
  }

  /** First fit: the list after a request for `n` aligned bytes. */
  function Allocate(bs: seq<Block>, n: nat): seq<Block> {
    if bs == [] then []
    else if Fits(bs[0], n) then Carve(bs[0], n) + bs[1..]
    else [bs[0]] + Allocate(bs[1..], n)
  }

  /** The header address of the block a request gets, or 0 when none fits. */
  function Chosen(bs: seq<Block>, at: nat, n: nat): nat {
    if bs == [] then 0
    else if Fits(bs[0], n) then at
    else Chosen(bs[1..], at + Extent(bs[0]), n)
  }

  /** The payload size of the block a request gets. */
  function ChosenSize(bs: seq<Block>, n: nat): nat {
    if bs == [] then 0
    else if Fits(bs[0], n) then Carve(bs[0], n)[0].size
    else ChosenSize(bs[1..], n)
  }

  function MarkFree(bs: seq<Block>, at: nat, header: nat): seq<Block> {
    if bs == [] then []
    else if at == header then [Block(bs[0].size, true)] + bs[1..]
    else [bs[0]] + MarkFree(bs[1..], at + Extent(bs[0]), header)
  }

  function Merge(a: Block, b: Block): Block {
    Block(a.size + HEADER_SIZE + b.size, true)
  }

  /** The coalescing sweep: every maximal run of free blocks becomes one block. */
  function Coalesce(bs: seq<Block>): seq<Block>
    decreases |bs|
  {
    if |bs| <= 1 then bs
    else if bs[0].free && bs[1].free then Coalesce([Merge(bs[0], bs[1])] + bs[2..])
    else [bs[0]] + Coalesce(bs[1..])
  }

  /** `kmalloc(size)` as (list afterwards, pointer returned); the pointer 0 is NULL. */
  function Malloc(bs: seq<Block>, size: nat): (seq<Block>, nat) {
    var n := Align8(size);
    if size == 0 then (bs, 0)
    else
      var h := Chosen(bs, HEAP_START, n);
      (Allocate(bs, n), if h == 0 then 0 else h + HEADER_SIZE)
  }

  /** `kfree(ptr)`. */
  function Free(bs: seq<Block>, ptr: nat): seq<Block> {
    if ptr < HEADER_SIZE then bs else Coalesce(MarkFree(bs, HEAP_START, ptr - HEADER_SIZE))
  }

  ghost predicate LivePointer(bs: seq<Block>, ptr: nat) {
    ptr >= HEADER_SIZE && exists a :: a in Live(bs, HEAP_START) && a.header + HEADER_SIZE == ptr
  }

  ghost function AllocationOf(bs: seq<Block>, ptr: nat): (a: Allocation)
    requires LivePointer(bs, ptr)
    ensures a in Live(bs, HEAP_START) && a.header + HEADER_SIZE == ptr
  {
    var a :| a in Live(bs, HEAP_START) && a.header + HEADER_SIZE == ptr; a
  }

  // ----- Where live blocks are -----

  lemma {:induction false} LiveRange(bs: seq<Block>, at: nat, a: Allocation)
    requires a in Live(bs, at)
    ensures at <= a.header && a.header + HEADER_SIZE + a.size <= at + Span(bs)
  {
    if a != Allocation(at, bs[0].size) || a !in Live(bs[..1], at) {
      if a in Live(bs[1..], at + Extent(bs[0])) {
        LiveRange(bs[1..], at + Extent(bs[0]), a);
      }
    }
  }

  /** The live blocks of the tail are those of the list past its first block. */
  lemma LiveTail(bs: seq<Block>, at: nat)
    requires bs != []
    ensures Live(bs[1..], at + Extent(bs[0])) == (set a | a in Live(bs, at) && a.header != at)
  {
    forall a | a in Live(bs[1..], at + Extent(bs[0])) ensures a.header != at {
      LiveRange(bs[1..], at + Extent(bs[0]), a);
    }
  }

  lemma {:induction false} LiveDisjoint(bs: seq<Block>, at: nat, a: Allocation, b: Allocation)
    requires a in Live(bs, at) && b in Live(bs, at) && a != b
    ensures a.header + HEADER_SIZE + a.size <= b.header || b.header + HEADER_SIZE + b.size <= a.header
  {
    var rest := at + Extent(bs[0]);
    if a in Live(bs[1..], rest) { LiveRange(bs[1..], rest, a); }
    if b in Live(bs[1..], rest) { LiveRange(bs[1..], rest, b); }
    if a in Live(bs[1..], rest) && b in Live(bs[1..], rest) {
      LiveDisjoint(bs[1..], rest, a, b);
    }
  }

  lemma {:induction false} SpanConcat(a: seq<Block>, b: seq<Block>)
    ensures Span(a + b) == Span(a) + Span(b)
  {
    if a == [] {
      assert a + b == b;
    } else {
      SpanConcat(a[1..], b);
      assert (a + b)[1..] == a[1..] + b;
    }
  }

  lemma {:induction false} LiveConcat(a: seq<Block>, b: seq<Block>, at: nat)
    ensures Live(a + b, at) == Live(a, at) + Live(b, at + Span(a))
  {
    if a == [] {
      assert a + b == b;
    } else {
      LiveConcat(a[1..], b, at + Extent(a[0]));
      assert (a + b)[1..] == a[1..] + b;
    }
  }

  // ----- Canonical lists are determined by their live blocks -----

  /**
   Two tidy lists over the same range with the same live blocks are the same list: the free
   blocks, their headers and their order are all forced.
   */
  lemma {:induction false} TidyUnique(a: seq<Block>, b: seq<Block>, at: nat)
    requires Tidy(a) && Tidy(b)
    requires Span(a) == Span(b) && Live(a, at) == Live(b, at)
    ensures a == b
  {
    if a == [] || b == [] {
      return;
    }
    FirstSizesAgree(a, b, at);
    LiveTail(a, at);
    LiveTail(b, at);
    TidyUnique(a[1..], b[1..], at + Extent(a[0]));
    assert a == [a[0]] + a[1..] && b == [b[0]] + b[1..];
  }

  lemma FirstSizesAgree(a: seq<Block>, b: seq<Block>, at: nat)
    requires a != [] && b != [] && Tidy(a) && Tidy(b)
    requires Span(a) == Span(b) && Live(a, at) == Live(b, at)
    ensures a[0] == b[0]
  {
    LiveTail(a, at);
    LiveTail(b, at);
    if !a[0].free {
      assert Allocation(at, a[0].size) in Live(b, at);
    } else if b[0].free {
      FreeNotLonger(a, b, at);
      FreeNotLonger(b, a, at);
    }
  }

  lemma FreeNotLonger(a: seq<Block>, b: seq<Block>, at: nat)
    requires a != [] && b != [] && Tidy(a) && Tidy(b) && a[0].free && b[0].free
    requires Span(a) == Span(b) && Live(a, at) == Live(b, at)
    ensures b[0].size <= a[0].size
  {
    var next := at + Extent(a[0]);
    if |a| > 1 {
      assert !a[1].free;
      var first := Allocation(next, a[1].size);
      assert first in Live(a[1..], next);
      assert first in Live(b[1..], at + Extent(b[0]));
      LiveRange(b[1..], at + Extent(b[0]), first);
    } else {
      assert a[1..] == [];
    }
  }

  // ----- Allocation -----

  lemma CarveFacts(b: Block, n: nat, at: nat)
    requires Fits(b, n)
    ensures var c := Carve(b, n);
      && Span(c) == Extent(b)
      && Live(c, at) == {Allocation(at, c[0].size)}
      && n <= c[0].size < n + HEADER_SIZE + 8
  {
    var c := Carve(b, n);
    if |c| == 2 {
      var t := c[1..];
      assert t[0] == c[1] && t[1..] == [];
      assert Span(t) == Extent(c[1]);
      assert Live(t, at + Extent(c[0])) == {};
    } else {
      assert c[1..] == [];
    }
  }

  /** What a request gets and what it leaves, for a list that starts at `at`. */
  ghost predicate GetsOne(bs: seq<Block>, after: seq<Block>, at: nat, got: Allocation, n: nat) {
    && Live(after, at) == Live(bs, at) + {got} && got !in Live(bs, at)
    && n <= got.size < n + HEADER_SIZE + 8 && at <= got.header
    && forall a :: a in Live(bs, at) ==> a.header != got.header
  }

  lemma CarveFirst(bs: seq<Block>, at: nat, n: nat)
    requires bs != [] && Fits(bs[0], n)
    ensures var after := Carve(bs[0], n) + bs[1..];
      Span(after) == Span(bs) && GetsOne(bs, after, at, Allocation(at, Carve(bs[0], n)[0].size), n)
  {
    var c := Carve(bs[0], n);
    CarveFacts(bs[0], n, at);
    SpanConcat(c, bs[1..]);
    LiveConcat(c, bs[1..], at);
    LiveTail(bs, at);
  }

  lemma SkipFirst(bs: seq<Block>, at: nat, tail: seq<Block>, got: Allocation, n: nat)
    requires bs != [] && GetsOne(bs[1..], tail, at + Extent(bs[0]), got, n)
    ensures GetsOne(bs, [bs[0]] + tail, at, got, n)
  {
    LiveTail(bs, at);
    var r := [bs[0]] + tail;
    assert r[1..] == tail;
  }

  /** A successful request adds exactly one live block; a failed one changes nothing. */
  lemma {:induction false} AllocateLive(bs: seq<Block>, at: nat, n: nat)
    requires at > 0
    ensures Span(Allocate(bs, n)) == Span(bs)
    ensures Chosen(bs, at, n) == 0 ==> Allocate(bs, n) == bs
    ensures Chosen(bs, at, n) != 0 ==>
      GetsOne(bs, Allocate(bs, n), at, Allocation(Chosen(bs, at, n), ChosenSize(bs, n)), n)
  {
    hide Live, Carve, GetsOne;
    if bs == [] {
    } else if Fits(bs[0], n) {
      CarveFirst(bs, at, n);
    } else {
      var end, tail := at + Extent(bs[0]), Allocate(bs[1..], n);
      AllocateLive(bs[1..], end, n);
      assert ([bs[0]] + tail)[1..] == tail;
      if Chosen(bs, at, n) == 0 {
        assert bs == [bs[0]] + bs[1..];
      } else {
        SkipFirst(bs, at, tail, Allocation(Chosen(bs[1..], end, n), ChosenSize(bs[1..], n)), n);
      }
    }
  }

  lemma TidyPrepend(b: Block, bs: seq<Block>)
    requires Tidy(bs) && b.size > 0 && b.size % 8 == 0
    requires bs != [] ==> !(b.free && bs[0].free)
    ensures Tidy([b] + bs)
  {
    var r := [b] + bs;
    assert forall i :: 1 <= i < |r| ==> r[i] == bs[i - 1];
    forall i, j | 0 <= i && j == i + 1 && j < |r| ensures !(r[i].free && r[j].free) {
      if i > 0 { assert !(bs[i - 1].free && bs[j - 1].free); }
    }
  }

  lemma TidyTail(bs: seq<Block>)
    requires Tidy(bs) && bs != []
    ensures Tidy(bs[1..]) && bs[0].size > 0 && bs[0].size % 8 == 0
    ensures |bs| > 1 ==> !(bs[0].free && bs[1].free)
  {
    var t := bs[1..];
    assert forall i :: 0 <= i < |t| ==> t[i] == bs[i + 1];
    forall i, j | 0 <= i && j == i + 1 && j < |t| ensures !(t[i].free && t[j].free) {
      assert !(bs[i + 1].free && bs[j + 1].free);
    }
  }

  lemma CarveTidy(b: Block, n: nat, rest: seq<Block>)
    requires Fits(b, n) && n > 0 && n % 8 == 0 && b.size % 8 == 0
    requires Tidy(rest) && (rest != [] ==> !rest[0].free)
    ensures Tidy(Carve(b, n) + rest)
  {
    hide Tidy;
    var c := Carve(b, n);
    if |c| == 2 {
      TidyPrepend(c[1], rest);
      TidyPrepend(c[0], [c[1]] + rest);
      assert c + rest == [c[0]] + ([c[1]] + rest);
    } else {
      TidyPrepend(c[0], rest);
      assert c + rest == [c[0]] + rest;
    }
  }

  lemma {:induction false} AllocateTidy(bs: seq<Block>, n: nat)
    requires Tidy(bs) && n > 0 && n % 8 == 0
    ensures Tidy(Allocate(bs, n))
    ensures bs != [] ==> Allocate(bs, n) != []
    ensures bs != [] && !bs[0].free ==> !Allocate(bs, n)[0].free
  {
    hide Tidy;
    if bs != [] {
      TidyTail(bs);
      if Fits(bs[0], n) {
        CarveTidy(bs[0], n, bs[1..]);
      } else {
        AllocateTidy(bs[1..], n);
        TidyPrepend(bs[0], Allocate(bs[1..], n));
      }
    }
  }

  // ----- Freeing -----

  lemma {:induction false} MarkFreeLive(bs: seq<Block>, at: nat, a: Allocation)
    requires a in Live(bs, at)
    ensures Span(MarkFree(bs, at, a.header)) == Span(bs)
    ensures Live(MarkFree(bs, at, a.header), at) == Live(bs, at) - {a}
    ensures GoodSizes(bs) ==> GoodSizes(MarkFree(bs, at, a.header))
  {
    var r := MarkFree(bs, at, a.header);
    LiveTail(bs, at);
    if at == a.header {
      assert r[1..] == bs[1..];
    } else {
      MarkFreeLive(bs[1..], at + Extent(bs[0]), a);
      assert r[1..] == MarkFree(bs[1..], at + Extent(bs[0]), a.header);
    }
  }

  lemma MergeFacts(bs: seq<Block>, at: nat)
    requires |bs| >= 2 && bs[0].free && bs[1].free
    ensures var merged := [Merge(bs[0], bs[1])] + bs[2..];
      && Span(merged) == Span(bs)
      && Live(merged, at) == Live(bs, at)
      && (GoodSizes(bs) ==> GoodSizes(merged))
  {
    var merged := [Merge(bs[0], bs[1])] + bs[2..];
    assert merged[1..] == bs[2..] && bs[1..][1..] == bs[2..];
    assert bs[1..][0] == bs[1];
  }

  /** The sweep moves no live block and leaves no two free neighbours. */
  lemma {:induction false} CoalesceFacts(bs: seq<Block>, at: nat)
    ensures Span(Coalesce(bs)) == Span(bs)
    ensures Live(Coalesce(bs), at) == Live(bs, at)
    ensures NoFreeNeighbours(Coalesce(bs))
    ensures GoodSizes(bs) ==> GoodSizes(Coalesce(bs))
    ensures bs != [] ==> Coalesce(bs) != [] && Coalesce(bs)[0].free == bs[0].free
    decreases |bs|
  {
    if |bs| <= 1 {
    } else if bs[0].free && bs[1].free {
      var merged := [Merge(bs[0], bs[1])] + bs[2..];
      CoalesceFacts(merged, at);
      MergeFacts(bs, at);
    } else {
      CoalesceFacts(bs[1..], at + Extent(bs[0]));
      assert Coalesce(bs) == [bs[0]] + Coalesce(bs[1..]);
      KeptFirst(bs, Coalesce(bs[1..]), at);
    }
  }

  /** A block that is not merged goes in front of the rest of the sweep. */
  lemma KeptFirst(bs: seq<Block>, rest: seq<Block>, at: nat)
    requires |bs| > 1 && !(bs[0].free && bs[1].free) && rest != [] && rest[0].free == bs[1].free
    requires Span(rest) == Span(bs[1..]) && Live(rest, at + Extent(bs[0])) == Live(bs[1..], at + Extent(bs[0]))
    requires NoFreeNeighbours(rest) && (GoodSizes(bs[1..]) ==> GoodSizes(rest))
    ensures var r := [bs[0]] + rest;
      && Span(r) == Span(bs) && Live(r, at) == Live(bs, at) && NoFreeNeighbours(r)
      && (GoodSizes(bs) ==> GoodSizes(r))
  {
    var r := [bs[0]] + rest;
    assert r[1..] == rest;
    if GoodSizes(bs) {
      assert forall i :: 0 <= i < |bs| - 1 ==> bs[1..][i] == bs[i + 1];
    }
  }

  // ----- The allocator's promises -----

  lemma InitialCanonical()
    ensures Canonical(INITIAL) && Live(INITIAL, HEAP_START) == {}
    ensures INITIAL == [Block(0xF_FFF0, true)]
  {
    assert INITIAL[1..] == [];
  }

  /** The first request that fits gets the start of the heap. */
  lemma FirstMalloc(size: nat)
    requires 0 < size <= 0xF_FFF0
    ensures Malloc(INITIAL, size).1 == 0x10_0010
  {
    Align8Facts(size);
  }

  /** A request for nothing gets NULL, and freeing NULL does nothing. */
  lemma NothingAsked(bs: seq<Block>)
    ensures Malloc(bs, 0) == (bs, 0) && Free(bs, 0) == bs
  {
  }

  lemma Align8Facts(size: nat)
    requires 0 < size < WORD
    ensures size <= MAX_REQUEST ==> size <= Align8(size) < size + 8 && Align8(size) % 8 == 0
    ensures size > MAX_REQUEST ==> Align8(size) == 0
  {
  }

  /** The block list is the only canonical list with its set of live blocks. */
  lemma CanonicalUnique(a: seq<Block>, b: seq<Block>)
    requires Canonical(a) && Canonical(b) && Live(a, HEAP_START) == Live(b, HEAP_START)
    ensures a == b
  {
    TidyUnique(a, b, HEAP_START);
  }

  /**
   `kmalloc` keeps the list canonical, and on success adds one live block: its pointer is 8-aligned
   and inside the heap, its payload is between ALIGN8(size) and ALIGN8(size) + 16 bytes, and it
   overlaps no other live block.
   */
  lemma MallocEffect(bs: seq<Block>, size: nat)
    requires Canonical(bs) && size <= MAX_REQUEST
    ensures var (after, p) := Malloc(bs, size);
      && Canonical(after)
      && (p == 0 ==> after == bs)
      && (p != 0 ==>
            var s := ChosenSize(bs, Align8(size));
            var a := Allocation(p - HEADER_SIZE, s);
            && Align8(size) <= s <= Align8(size) + 16
            && p % 8 == 0
            && HEAP_START + HEADER_SIZE <= p && p + s <= HEAP_START + HEAP_SIZE
            && 0x10_0010 <= p && p + s <= 0x20_0000
            && Live(after, HEAP_START) == Live(bs, HEAP_START) + {a}
            && a !in Live(bs, HEAP_START)
            && (forall b :: b in Live(bs, HEAP_START) ==>
                  b.header + HEADER_SIZE + b.size <= a.header || a.header + HEADER_SIZE + a.size <= b.header))
  {
    hide Live, Allocate, Chosen, ChosenSize, Span, NoFreeNeighbours;
    var (after, p) := Malloc(bs, size);
    if size == 0 { return; }
    var n := Align8(size);
    Align8Facts(size);
    AllocateLive(bs, HEAP_START, n);
    AllocateTidy(bs, n);
    if p != 0 {
      var s := ChosenSize(bs, n);
      var a := Allocation(p - HEADER_SIZE, s);
      assert a in Live(after, HEAP_START);
      LiveRange(after, HEAP_START, a);
      LiveAligned(after, HEAP_START, a);
      forall b | b in Live(bs, HEAP_START)
        ensures b.header + HEADER_SIZE + b.size <= a.header || a.header + HEADER_SIZE + a.size <= b.header
      {
        LiveDisjoint(after, HEAP_START, a, b);
      }
    }
  }

  lemma {:induction false} LiveAligned(bs: seq<Block>, at: nat, a: Allocation)
    requires a in Live(bs, at) && GoodSizes(bs) && at % 8 == 0
    ensures a.header % 8 == 0 && a.size % 8 == 0 && a.size > 0
  {
    if a in Live(bs[1..], at + Extent(bs[0])) {
      LiveAligned(bs[1..], at + Extent(bs[0]), a);
    }
  }

  /** `kfree` of a live pointer keeps the list canonical and removes exactly that live block. */
  lemma FreeEffect(bs: seq<Block>, ptr: nat)
    requires Canonical(bs) && LivePointer(bs, ptr)
    ensures Canonical(Free(bs, ptr))
    ensures Live(Free(bs, ptr), HEAP_START) == Live(bs, HEAP_START) - {AllocationOf(bs, ptr)}
    ensures !LivePointer(Free(bs, ptr), ptr)
  {
    var a := AllocationOf(bs, ptr);
    var marked := MarkFree(bs, HEAP_START, a.header);
    MarkFreeLive(bs, HEAP_START, a);
    CoalesceFacts(marked, HEAP_START);
    forall b | b in Live(bs, HEAP_START) && b != a ensures b.header != a.header {
      LiveDisjoint(bs, HEAP_START, a, b);
    }
  }

  lemma OneAllocationPerPointer(bs: seq<Block>, a: Allocation)
    requires a in Live(bs, HEAP_START)
    ensures LivePointer(bs, a.header + HEADER_SIZE)
    ensures AllocationOf(bs, a.header + HEADER_SIZE) == a
  {
    var b := AllocationOf(bs, a.header + HEADER_SIZE);
    if a != b { LiveDisjoint(bs, HEAP_START, a, b); }
  }

  /** Allocating and freeing again restores the exact earlier list. */
  lemma MallocThenFree(bs: seq<Block>, size: nat)
    requires Canonical(bs) && size <= MAX_REQUEST
    ensures var (after, p) := Malloc(bs, size);
      p != 0 ==> LivePointer(after, p) && Free(after, p) == bs
  {
    var (after, p) := Malloc(bs, size);
    MallocEffect(bs, size);
    if p != 0 {
      var a := Allocation(p - HEADER_SIZE, ChosenSize(bs, Align8(size)));
      AllocateLive(bs, HEAP_START, Align8(size));
      OneAllocationPerPointer(after, a);
      FreeEffect(after, p);
      CanonicalUnique(Free(after, p), bs);
    }
  }

  /** Frees of two distinct live blocks commute. */
  lemma FreesCommute(bs: seq<Block>, p: nat, q: nat)
    requires Canonical(bs) && LivePointer(bs, p) && LivePointer(bs, q) && p != q
    ensures LivePointer(Free(bs, p), q) && LivePointer(Free(bs, q), p)
    ensures Free(Free(bs, p), q) == Free(Free(bs, q), p)
  {
    var a, b := AllocationOf(bs, p), AllocationOf(bs, q);
    FreeEffect(bs, p);
    FreeEffect(bs, q);
    OneAllocationPerPointer(Free(bs, p), b);
    OneAllocationPerPointer(Free(bs, q), a);
    FreeEffect(Free(bs, p), q);
    FreeEffect(Free(bs, q), p);
    CanonicalUnique(Free(Free(bs, p), q), Free(Free(bs, q), p));
  }

  ghost function FreeAll(bs: seq<Block>, order: seq<nat>): seq<Block>
    decreases order
  {
    if order == [] then bs else FreeAll(Free(bs, order[0]), order[1..])
  }

  /** Freeing all live blocks, in any order, leaves the single initial block. */
  lemma {:induction false} FreeAllRestoresInitial(bs: seq<Block>, order: seq<nat>)
    requires Canonical(bs)
    requires forall i, j :: 0 <= i < j < |order| ==> order[i] != order[j]
    requires forall p :: p in order <==> LivePointer(bs, p)
    ensures FreeAll(bs, order) == INITIAL
    decreases order
  {
    InitialCanonical();
    if order == [] {
      forall a | a in Live(bs, HEAP_START) ensures false {
        OneAllocationPerPointer(bs, a);
      }
      CanonicalUnique(bs, INITIAL);
    } else {
      var p := order[0];
      assert p in order;
      var after := Free(bs, p);
      FreeEffect(bs, p);
      var gone := AllocationOf(bs, p);
      forall q ensures q in order[1..] <==> LivePointer(after, q) {
        if q in order[1..] {
          assert LivePointer(bs, q) && q != p;
          OneAllocationPerPointer(after, AllocationOf(bs, q));
        }
        if LivePointer(after, q) {
          OneAllocationPerPointer(bs, AllocationOf(after, q));
          assert q in order && q != p;
        }
      }
      FreeAllRestoresInitial(after, order[1..]);
    }
  }

  // ----- Completeness: NULL means there is no room -----

  /** `len` bytes from `a` lie in the range of the list and touch no live block. */
  ghost predicate Vacant(bs: seq<Block>, at: nat, a: nat, len: nat) {
    && at <= a && a + len <= at + Span(bs)
    && forall l :: l in Live(bs, at) ==> a + len <= l.header || l.header + HEADER_SIZE + l.size <= a
  }

  lemma {:induction false} VacantMeansFreeBlock(bs: seq<Block>, at: nat, a: nat, n: nat)
    requires Tidy(bs) && at > 0 && Vacant(bs, at, a, HEADER_SIZE + n)
    ensures 0 < Chosen(bs, at, n) <= a
  {
    var end := at + Extent(bs[0]);
    LiveTail(bs, at);
    if bs[0].free && a + HEADER_SIZE + n <= end {
    } else {
      if bs[0].free {
        assert Span(bs) == Extent(bs[0]) + Span(bs[1..]);
        assert !bs[1].free;
        assert Allocation(end, bs[1].size) in Live(bs[1..], end);
      } else {
        assert Allocation(at, bs[0].size) in Live(bs, at);
      }
      VacantMeansFreeBlock(bs[1..], end, a, n);
    }
  }

  lemma {:induction false} FreeBlockIsVacant(bs: seq<Block>, at: nat, n: nat)
    requires at > 0 && Chosen(bs, at, n) != 0
    ensures Vacant(bs, at, Chosen(bs, at, n), HEADER_SIZE + n)
  {
    LiveTail(bs, at);
    var end := at + Extent(bs[0]);
    forall l | l in Live(bs[1..], end) ensures l.header >= end {
      LiveRange(bs[1..], end, l);
    }
    if !Fits(bs[0], n) {
      FreeBlockIsVacant(bs[1..], end, n);
    }
  }

  /**
   `kmalloc` returns NULL exactly when no contiguous range of the heap that misses every live
   block is long enough for a header and ALIGN8(size) bytes.
   */
  lemma MallocCompleteness(bs: seq<Block>, size: nat)
    requires Canonical(bs) && 0 < size <= MAX_REQUEST
    ensures var len := HEADER_SIZE + Align8(size);
            Malloc(bs, size).1 == 0 <==> forall a :: !Vacant(bs, HEAP_START, a, len)
  {
    var n := Align8(size);
    var len := HEADER_SIZE + n;
    forall a | Vacant(bs, HEAP_START, a, len) ensures Malloc(bs, size).1 != 0 {
      VacantMeansFreeBlock(bs, HEAP_START, a, n);
    }
    if Chosen(bs, HEAP_START, n) != 0 {
      FreeBlockIsVacant(bs, HEAP_START, n);
      assert Vacant(bs, HEAP_START, Chosen(bs, HEAP_START, n), len);
    }
  }

  /**
   First fit: the block handed out starts at the lowest address where a header and ALIGN8(size) bytes
   fit between the live blocks.
   */
  lemma MallocIsFirstFit(bs: seq<Block>, size: nat, a: nat)
    requires Canonical(bs) && 0 < size <= MAX_REQUEST
    requires Vacant(bs, HEAP_START, a, HEADER_SIZE + Align8(size))
    ensures HEADER_SIZE <= Malloc(bs, size).1 <= a + HEADER_SIZE
    ensures Vacant(bs, HEAP_START, Malloc(bs, size).1 - HEADER_SIZE, HEADER_SIZE + Align8(size))
  {
    VacantMeansFreeBlock(bs, HEAP_START, a, Align8(size));
    FreeBlockIsVacant(bs, HEAP_START, Align8(size));
  }

  /** The whole free run from a chosen block: its payload when it is not split. */
  lemma {:induction false} ChosenRun(bs: seq<Block>, at: nat, n: nat)
    requires Tidy(bs) && at > 0 && Chosen(bs, at, n) != 0
    ensures var h, s := Chosen(bs, at, n), ChosenSize(bs, n);
      if Vacant(bs, at, h, HEADER_SIZE + n + HEADER_SIZE + 8) then s == n
      else Vacant(bs, at, h, HEADER_SIZE + s) && !Vacant(bs, at, h, HEADER_SIZE + s + 1)
  {
    LiveTail(bs, at);
    var end := at + Extent(bs[0]);
    forall l | l in Live(bs[1..], end) ensures l.header >= end {
      LiveRange(bs[1..], end, l);
    }
    if Fits(bs[0], n) {
      if |bs| > 1 {
        assert !(bs[0].free && bs[1].free);
        assert Allocation(end, bs[1].size) in Live(bs[1..], end);
      } else {
        assert bs[1..] == [];
      }
    } else {
      ChosenRun(bs[1..], end, n);
      var h := Chosen(bs, at, n);
      FreeBlockIsVacant(bs[1..], end, n);
      forall len: nat ensures Vacant(bs, at, h, len) == Vacant(bs[1..], end, h, len) {
      }
    }
  }

  /**
   The payload is exactly ALIGN8(size) when the free run has room for another header and 8 bytes
   after it; otherwise the block takes the run to its end.
   */
  lemma MallocTakesNoMore(bs: seq<Block>, size: nat)
    requires Canonical(bs) && 0 < size <= MAX_REQUEST && Malloc(bs, size).1 != 0
    ensures var n, s, h := Align8(size), ChosenSize(bs, Align8(size)), Malloc(bs, size).1 - HEADER_SIZE;
      if Vacant(bs, HEAP_START, h, HEADER_SIZE + n + HEADER_SIZE + 8) then s == n
      else Vacant(bs, HEAP_START, h, HEADER_SIZE + s) && !Vacant(bs, HEAP_START, h, HEADER_SIZE + s + 1)
  {
    ChosenRun(bs, HEAP_START, Align8(size));
  }

  // ----- Requests that ALIGN8 wraps -----

  /** The size of the first free block, 0 when there is none. */
  function FirstFreeSize(bs: seq<Block>): nat {
    if bs == [] then 0 else if bs[0].free then bs[0].size else FirstFreeSize(bs[1..])
  }

  /**
   For sizes above 0xFFFFFFF8 the rounded size wraps to 0, so a request is served from the first
   free block: a returned pointer has room for the request exactly when the size does not wrap.
   */
  lemma MallocRoomExactlyWhenNoWrap(bs: seq<Block>, size: nat)
    requires Canonical(bs) && 0 < size < WORD && Malloc(bs, size).1 != 0
    ensures size <= ChosenSize(bs, Align8(size)) <==> size <= MAX_REQUEST
  {
    var n := Align8(size);
    Align8Facts(size);
    AllocateLive(bs, HEAP_START, n);
    var a := Allocation(Chosen(bs, HEAP_START, n), ChosenSize(bs, n));
    LiveRange(Allocate(bs, n), HEAP_START, a);
  }

  lemma {:induction false} AllocateZero(bs: seq<Block>)
    requires Tidy(bs)
    ensures FirstFreeSize(bs) >= HEADER_SIZE + 8 ==> !GoodSizes(Allocate(bs, 0))
    ensures FirstFreeSize(bs) < HEADER_SIZE + 8 ==> Tidy(Allocate(bs, 0))
    ensures bs != [] && !bs[0].free ==> Allocate(bs, 0) != [] && !Allocate(bs, 0)[0].free
  {
    if bs == [] {
    } else if bs[0].free {
      var r := Allocate(bs, 0);
      assert r[0] == Carve(bs[0], 0)[0];
    } else {
      AllocateZero(bs[1..]);
      var r, t := Allocate(bs, 0), Allocate(bs[1..], 0);
      assert r[1..] == t;
      if i :| 0 <= i < |t| && !(t[i].size > 0 && t[i].size % 8 == 0) {
        assert r[i + 1] == t[i];
      }
    }
  }

  /** `kmalloc` keeps the list canonical exactly when the size does not wrap or no free block is split. */
  lemma MallocCanonicalExactly(bs: seq<Block>, size: nat)
    requires Canonical(bs) && 0 < size < WORD
    ensures Canonical(Malloc(bs, size).0) <==>
            size <= MAX_REQUEST || FirstFreeSize(bs) < HEADER_SIZE + 8
  {
    Align8Facts(size);
    if size <= MAX_REQUEST {
      MallocEffect(bs, size);
    } else {
      AllocateLive(bs, HEAP_START, 0);
      AllocateZero(bs);
    }
  }

  /** `kmalloc(0xFFFFFFFF)` on the fresh heap hands out a block with no payload at all. */
  lemma WrappedRequestExample()
    ensures Malloc(INITIAL, 0xFFFF_FFFF).0 == [Block(0, false), Block(HEAP_SIZE - 2 * HEADER_SIZE, true)]
    ensures Malloc(INITIAL, 0xFFFF_FFFF).1 == HEAP_START + HEADER_SIZE
    ensures !Canonical(Malloc(INITIAL, 0xFFFF_FFFF).0)
  {
    assert Align8(0xFFFF_FFFF) == 0;
    assert INITIAL[1..] == [] && Fits(INITIAL[0], 0);
    assert Chosen(INITIAL, HEAP_START, 0) == HEAP_START;
    assert Allocate(INITIAL, 0) == Carve(INITIAL[0], 0) + [];
    var (after, p) := Malloc(INITIAL, 0xFFFF_FFFF);
    assert p == HEAP_START + HEADER_SIZE;
    assert Carve(INITIAL[0], 0) == [Block(0, false), Block(HEAP_SIZE - 2 * HEADER_SIZE, true)];
    assert after[0].size == 0;
  }

  // ----- Runs -----

  datatype Op = MallocOp(size: nat) | FreeOp(ptr: nat)

  ghost predicate Allowed(bs: seq<Block>, op: Op) {
    match op
    case MallocOp(size) => size <= MAX_REQUEST
    case FreeOp(ptr) => ptr == 0 || LivePointer(bs, ptr)
  }

  ghost function Apply(bs: seq<Block>, op: Op): seq<Block> {
    match op
    case MallocOp(size) => Malloc(bs, size).0
    case FreeOp(ptr) => Free(bs, ptr)
  }

  ghost predicate AllowedRun(bs: seq<Block>, ops: seq<Op>)
    decreases ops
  {
    ops == [] || (Allowed(bs, ops[0]) && AllowedRun(Apply(bs, ops[0]), ops[1..]))
  }

  ghost function Run(bs: seq<Block>, ops: seq<Op>): seq<Block>
    decreases ops
  {
    if ops == [] then bs else Run(Apply(bs, ops[0]), ops[1..])
  }

  lemma ApplyKeepsCanonical(bs: seq<Block>, op: Op)
    requires Canonical(bs) && Allowed(bs, op)
    ensures Canonical(Apply(bs, op))
    ensures forall a :: a in Live(bs, HEAP_START) && op != FreeOp(a.header + HEADER_SIZE) ==>
              a in Live(Apply(bs, op), HEAP_START)
  {
    match op
    case MallocOp(size) => MallocEffect(bs, size);
    case FreeOp(ptr) =>
      if ptr != 0 { FreeEffect(bs, ptr); }
  }

  /**
   Whatever requests run, the list stays canonical, and a live block keeps its address and size
   until it is itself freed.
   */
  lemma {:induction false} RunKeepsCanonical(bs: seq<Block>, ops: seq<Op>)
    requires Canonical(bs) && AllowedRun(bs, ops)
    ensures Canonical(Run(bs, ops))
    ensures forall a :: a in Live(bs, HEAP_START) && FreeOp(a.header + HEADER_SIZE) !in ops ==>
              a in Live(Run(bs, ops), HEAP_START)
    decreases ops
  {
    if ops != [] {
      ApplyKeepsCanonical(bs, ops[0]);
      RunKeepsCanonical(Apply(bs, ops[0]), ops[1..]);
    }
  }

  /** Every reachable heap: two runs that leave the same live blocks leave the same list. */
  lemma ReachableHeapsAreDetermined(ops: seq<Op>, others: seq<Op>)
    requires AllowedRun(INITIAL, ops) && AllowedRun(INITIAL, others)
    requires Live(Run(INITIAL, ops), HEAP_START) == Live(Run(INITIAL, others), HEAP_START)
    ensures Run(INITIAL, ops) == Run(INITIAL, others)
  {
    InitialCanonical();
    RunKeepsCanonical(INITIAL, ops);
    RunKeepsCanonical(INITIAL, others);
    CanonicalUnique(Run(INITIAL, ops), Run(INITIAL, others));
  }

  // ----- Calls that overlap -----

  /** The second half of `kmalloc`: split and take the block at `header`, whatever it is by now. */
  function Commit(bs: seq<Block>, at: nat, header: nat, n: nat): seq<Block> {
    if bs == [] then []
    else if at == header then Carve(bs[0], n) + bs[1..]
    else [bs[0]] + Commit(bs[1..], at + Extent(bs[0]), header, n)
  }

  /** It carves up the block there and leaves the others. */
  lemma {:induction false} CommitAt(pre: seq<Block>, at: nat, rest: seq<Block>, n: nat)
    requires rest != []
    ensures Commit(pre + rest, at, at + Span(pre), n) == pre + (Carve(rest[0], n) + rest[1..])
  {
    hide Carve, Commit;
    if pre == [] {
      assert pre + rest == rest;
      CommitHere(rest, at, n);
    } else {
      CommitAt(pre[1..], at + Extent(pre[0]), rest, n);
      assert (pre + rest)[1..] == pre[1..] + rest;
      CommitLater(pre + rest, at, at + Span(pre), n);
    }
  }

  lemma CommitHere(bs: seq<Block>, at: nat, n: nat)
    requires bs != []
    ensures Commit(bs, at, at, n) == Carve(bs[0], n) + bs[1..]
  {
    hide Carve;
  }

  lemma CommitLater(bs: seq<Block>, at: nat, header: nat, n: nat)
    requires bs != [] && at != header
    ensures Commit(bs, at, header, n) == [bs[0]] + Commit(bs[1..], at + Extent(bs[0]), header, n)
  {
    hide Carve;
  }

  lemma {:induction false} ChosenAtOrAfter(bs: seq<Block>, at: nat, n: nat)
    requires at > 0
    ensures Chosen(bs, at, n) == 0 || Chosen(bs, at, n) >= at
  {
    if bs != [] { ChosenAtOrAfter(bs[1..], at + Extent(bs[0]), n); }
  }

  /** `kmalloc` is its search followed at once by its second half. */
  lemma {:induction false} SearchThenCommit(bs: seq<Block>, at: nat, n: nat)
    requires at > 0 && Chosen(bs, at, n) != 0
    ensures Commit(bs, at, Chosen(bs, at, n), n) == Allocate(bs, n)
  {
    if !Fits(bs[0], n) {
      ChosenAtOrAfter(bs[1..], at + Extent(bs[0]), n);
      SearchThenCommit(bs[1..], at + Extent(bs[0]), n);
    }
  }

  /** Serving another request from a different block does not change which block a search finds. */
  lemma {:induction false} OtherBlockStays(bs: seq<Block>, at: nat, n: nat, m: nat)
    requires at > 0 && Chosen(bs, at, n) != 0 && Chosen(bs, at, m) != 0
    requires Chosen(bs, at, n) != Chosen(bs, at, m)
    ensures Chosen(Allocate(bs, m), at, n) == Chosen(bs, at, n)
  {
    var end := at + Extent(bs[0]);
    if Fits(bs[0], m) {
      var c := Carve(bs[0], m);
      var after := c + bs[1..];
      if |c| == 2 {
        assert after[1..] == [c[1]] + bs[1..] && after[1..][1..] == bs[1..];
      } else {
        assert after[1..] == bs[1..];
      }
    } else if !Fits(bs[0], n) {
      OtherBlockStays(bs[1..], end, n, m);
      assert Allocate(bs, m)[1..] == Allocate(bs[1..], m);
    }
  }

  /**
   `kmalloc` masks no interrupts.  If one call is preempted between its search and its second half,
   and another call runs in between, the outcome is that of the two calls one after the other if and
   only if their searches find different blocks; otherwise both calls return the same pointer.
   */
  lemma OverlappingMallocs(bs: seq<Block>, size: nat, other: nat)
    requires Canonical(bs) && 0 < size <= MAX_REQUEST && 0 < other <= MAX_REQUEST
    requires Malloc(bs, size).1 != 0 && Malloc(bs, other).1 != 0
    ensures var n, between := Align8(size), Malloc(bs, other).0;
      var found := Chosen(bs, HEAP_START, n);
      && ((Commit(between, HEAP_START, found, n), found + HEADER_SIZE) == Malloc(between, size) <==>
            found != Chosen(bs, HEAP_START, Align8(other)))
      && (found == Chosen(bs, HEAP_START, Align8(other)) ==> found + HEADER_SIZE == Malloc(bs, other).1)
  {
    var n, m := Align8(size), Align8(other);
    var found := Chosen(bs, HEAP_START, n);
    var between := Allocate(bs, m);
    if found != Chosen(bs, HEAP_START, m) {
      OtherBlockStays(bs, HEAP_START, n, m);
      SearchThenCommit(between, HEAP_START, n);
    } else {
      AllocateLive(bs, HEAP_START, m);
      AllocateLive(between, HEAP_START, n);
      assert Allocation(found, ChosenSize(bs, m)) in Live(between, HEAP_START);
    }
  }

  /** Two equal requests on the fresh heap, overlapping in this way, get the same block. */
  lemma OverlappingMallocsExample()
    ensures var first := Malloc(INITIAL, 64);
      var found := Chosen(INITIAL, HEAP_START, 64);
      first.1 == HEAP_START + HEADER_SIZE == found + HEADER_SIZE
  {
    assert Align8(64) == 64 && Fits(INITIAL[0], 64);
    assert Chosen(INITIAL, HEAP_START, 64) == HEAP_START;
  }
}
