/**
 The physical page allocator of kernel/mm/physical.c.

 The specification is a set of used pages and a counter; class `PageBitmap` is the code, over 512
 words of 32 bits, proved to refine it.
 */
module Physical {

  const PAGE_SIZE: nat := 4096
  const PAGE_COUNT: nat := 16384        // 64 MiB
  const LOW_PAGES: nat := 256           // pages below 1 MiB
  const RESERVED_PAGES: nat := 512      // low memory and the heap, pages 0 .. 511
  const WINDOW_PAGES: nat := 1024       // the first 4 MiB, mapped by `paging_init`
  const WORDS: nat := 512
  const TWO32: nat := 0x1_0000_0000

  datatype Frames = Frames(used: set<nat>, free: nat)

  // ----- Counting pages -----

  predicate Within(lo: nat, p: nat, hi: nat) {
    lo <= p < hi
  }

  function Pages(lo: nat, hi: nat): set<nat> {
    set p | lo <= p < hi && Within(lo, p, hi)
  }

  lemma {:induction false} PagesCount(lo: nat, hi: nat)
    requires lo <= hi
    ensures |Pages(lo, hi)| == hi - lo
    decreases hi - lo
  {
    if lo == hi {
      assert Pages(lo, hi) == {};
    } else {
      PagesCount(lo, hi - 1);
      assert Pages(lo, hi) == Pages(lo, hi - 1) + {hi - 1};
    }
  }

  lemma {:induction false} SubsetCount(a: set<nat>, b: set<nat>)
    requires a <= b
    ensures |a| <= |b| && (|a| == |b| ==> a == b)
  {
    assert b == a + (b - a);
    if |a| == |b| {
      assert |b - a| == 0;
    }
  }

  /** The counter is the number of clear bits. */
  ghost predicate Counted(f: Frames) {
    f.used <= Pages(0, PAGE_COUNT) && f.free + |f.used| == PAGE_COUNT
  }

  /** What the allocator relies on: low memory stays reserved. */
  ghost predicate Good(f: Frames) {
    Counted(f) && Pages(0, LOW_PAGES) <= f.used
  }

  // ----- The operations -----

  function Take(f: Frames, page: nat): Frames {
    if page in f.used || f.free == 0 then f else Frames(f.used + {page}, f.free - 1)
  }

  function FirstFree(used: set<nat>, page: nat): (r: nat)
    requires page <= PAGE_COUNT
    ensures page <= r <= PAGE_COUNT
    ensures r < PAGE_COUNT ==> r !in used
    ensures forall p :: page <= p < r ==> p in used
    decreases PAGE_COUNT - page
  {
    if page == PAGE_COUNT || page !in used then page else FirstFree(used, page + 1)
  }

  /** `physical_alloc_page`: the frames afterwards and the address, 0 for none. */
  function Alloc(f: Frames): (Frames, nat) {
    var page := FirstFree(f.used, LOW_PAGES);
    if page == PAGE_COUNT then (f, 0) else (Take(f, page), page * PAGE_SIZE)
  }

  predicate Freeable(f: Frames, address: nat) {
    && address % PAGE_SIZE == 0 && address / PAGE_SIZE < PAGE_COUNT
    && address >= LOW_PAGES * PAGE_SIZE && address / PAGE_SIZE in f.used
  }

  /** `physical_free_page`. */
  function Release(f: Frames, address: nat): Frames {
    if Freeable(f, address) then Frames(f.used - {address / PAGE_SIZE}, f.free + 1) else f
  }

  /** The pages that `reserve_range` covers; rounding the end up is modulo 2^32. */
  function Covered(start: nat, end: nat): set<nat> {
    Pages(start / PAGE_SIZE, (end + PAGE_SIZE - 1) % TWO32 / PAGE_SIZE) * Pages(0, PAGE_COUNT)
  }

  // ----- Properties of the allocator -----

  lemma TakeCounted(f: Frames, page: nat)
    requires Counted(f) && page < PAGE_COUNT
    ensures Counted(Take(f, page)) && Take(f, page).used == f.used + {page}
  {
    if page !in f.used && f.free == 0 {
      PagesCount(0, PAGE_COUNT);
      SubsetCount(f.used, Pages(0, PAGE_COUNT));
      assert false;
    }
  }

  /**
   Allocation fails exactly when the counter is 0; otherwise it returns the lowest unused page, and
   takes that page and no other.
   */
  lemma AllocEffect(f: Frames)
    requires Good(f)
    ensures var (r, address) := Alloc(f);
      && Good(r)
      && (address == 0 <==> f.free == 0)
      && (address == 0 ==> r == f)
      && (address != 0 ==>
          var page := address / PAGE_SIZE;
          && address == page * PAGE_SIZE && LOW_PAGES <= page < PAGE_COUNT
          && page !in f.used && (forall p :: 0 <= p < page ==> p in f.used)
          && r == Frames(f.used + {page}, f.free - 1))
  {
    var page := FirstFree(f.used, LOW_PAGES);
    forall p | 0 <= p < page ensures p in f.used {
      assert p < LOW_PAGES ==> p in Pages(0, LOW_PAGES);
    }
    PagesCount(0, PAGE_COUNT);
    SubsetCount(f.used, Pages(0, PAGE_COUNT));
    if page < PAGE_COUNT {
      TakeCounted(f, page);
      assert page in Pages(0, PAGE_COUNT);
      assert page * PAGE_SIZE / PAGE_SIZE == page;
    } else {
      assert f.used == Pages(0, PAGE_COUNT);
    }
  }

  /** Freeing gives back exactly the page named, and only if it was in use and above 1 MiB. */
  lemma ReleaseEffect(f: Frames, address: nat)
    requires Good(f)
    ensures Good(Release(f, address))
    ensures Release(f, address).used == if Freeable(f, address) then f.used - {address / PAGE_SIZE} else f.used
  {
    if Freeable(f, address) {
      var page := address / PAGE_SIZE;
      assert |f.used - {page}| == |f.used| - 1;
      assert page >= LOW_PAGES;
    }
  }

  /**
   A call frees a page exactly when the address is the start of a page in use between 1 MiB and 64 MiB,
   and then that page only; any other call, at an unaligned address for one, changes nothing.
   */
  lemma ReleaseExactly(f: Frames, address: nat)
    ensures var r := Release(f, address);
      if address % 4096 == 0 && 0x10_0000 <= address < 0x400_0000 && address / 4096 in f.used
      then r.used == f.used - {address / 4096} && r.free == f.free + 1
      else r == f
  {
  }

  /** `reserve_range` takes the pages that have a byte in the range. */
  lemma CoveredExactly(start: nat, end: nat, page: nat)
    requires start < end <= TWO32 - 4096
    ensures page in Covered(start, end) <==>
            page < 16384 && exists a :: start <= a < end && a / 4096 == page
  {
    if page in Covered(start, end) {
      var a := if start > page * 4096 then start else page * 4096;
      assert start <= a < end && a / 4096 == page;
    }
    if page < 16384 && exists a :: start <= a < end && a / 4096 == page {
      var a :| start <= a < end && a / 4096 == page;
      assert page in Pages(start / PAGE_SIZE, (end + PAGE_SIZE - 1) % TWO32 / PAGE_SIZE);
    }
  }

  /**
   `physical_free_page` shields low memory only: a call keeps the heap reserved exactly when it does
   not name a page of the heap, so callers must not free what they do not own.
   */
  lemma HeapStaysReservedExactly(f: Frames, address: nat)
    requires Good(f) && Pages(0, RESERVED_PAGES) <= f.used
    ensures Pages(0, RESERVED_PAGES) <= Release(f, address).used <==>
            !(address % PAGE_SIZE == 0 && LOW_PAGES <= address / PAGE_SIZE < RESERVED_PAGES)
  {
    var page := address / PAGE_SIZE;
    assert page < RESERVED_PAGES ==> page in Pages(0, RESERVED_PAGES);
  }

  /** After initialisation, freeing the first page of the heap gives it to the next allocation. */
  lemma HeapGivenAway()
    ensures var f := Frames(Pages(0, RESERVED_PAGES), PAGE_COUNT - RESERVED_PAGES);
      Alloc(Release(f, 0x10_0000)).1 == 0x10_0000
  {
    var used := Pages(0, RESERVED_PAGES);
    assert 256 in used && 256 !in used - {256};
    assert FirstFree(used - {256}, LOW_PAGES) == 256;
  }

  /** Freeing what was just allocated restores the allocator. */
  lemma AllocThenRelease(f: Frames)
    requires Good(f) && f.free != 0
    ensures Release(Alloc(f).0, Alloc(f).1) == f
  {
    AllocEffect(f);
    var (r, address) := Alloc(f);
    assert r.used - {address / PAGE_SIZE} == f.used;
  }

  /** While fewer than 512 unreserved pages are in use, the page returned lies below 4 MiB. */
  lemma AllocInWindow(f: Frames)
    requires Good(f) && Pages(0, RESERVED_PAGES) <= f.used
    requires |f.used - Pages(0, RESERVED_PAGES)| < WINDOW_PAGES - RESERVED_PAGES
    ensures RESERVED_PAGES * PAGE_SIZE <= Alloc(f).1 < WINDOW_PAGES * PAGE_SIZE
  {
    hide FirstFree, Counted;
    AllocEffect(f);
    var page := FirstFree(f.used, LOW_PAGES);
    PagesCount(0, RESERVED_PAGES);
    assert |f.used| == |f.used - Pages(0, RESERVED_PAGES)| + RESERVED_PAGES by {
      assert f.used == (f.used - Pages(0, RESERVED_PAGES)) + Pages(0, RESERVED_PAGES);
    }
    assert Pages(0, page) <= f.used by {
      forall p | p in Pages(0, page) ensures p in f.used {
        assert p < LOW_PAGES ==> p in Pages(0, LOW_PAGES);
      }
    }
    PagesCount(0, page);
    SubsetCount(Pages(0, page), f.used);
    assert page in Pages(0, RESERVED_PAGES) ==> page in f.used;
  }

  /** Exactly: an allocated page lies below 4 MiB if and only if some page there was unused. */
  lemma AllocInWindowExactly(f: Frames)
    requires Good(f) && f.free != 0
    ensures Alloc(f).1 < WINDOW_PAGES * PAGE_SIZE <==> !(Pages(0, WINDOW_PAGES) <= f.used)
  {
    AllocEffect(f);
    var page := Alloc(f).1 / PAGE_SIZE;
    assert page < WINDOW_PAGES ==> page in Pages(0, WINDOW_PAGES);
  }

  /** The second half of `physical_alloc_page`: mark the page found and count it, whatever it is by now. */
  function Claim(f: Frames, page: nat): Frames {
    Frames(f.used + {page}, (f.free - 1) % TWO32)
  }

  /**
   `physical_alloc_page` masks no interrupts.  If one call is preempted between its test of a page and
   marking it, and another call runs in between, both get the same page, counted twice.
   */
  lemma OverlappingAllocs(f: Frames)
    requires Good(f) && f.free != 0
    ensures var page := FirstFree(f.used, LOW_PAGES);
      && Alloc(f).1 == page * PAGE_SIZE
      && Claim(Alloc(f).0, page).used == Alloc(f).0.used && !Counted(Claim(Alloc(f).0, page))
  {
    AllocEffect(f);
    var (r, address) := Alloc(f);
    var page := FirstFree(f.used, LOW_PAGES);
    assert r.used + {page} == r.used;
  }

  // ----- The bitmap -----

  type Shift = k: bv6 | k < 32

  function TestBit(w: bv32, k: Shift): bool {
    w & (1 << k) != 0
  }

  function SetBit(w: bv32, k: Shift): bv32 {
    w | (1 << k)
  }

  function ClearBit(w: bv32, k: Shift): bv32 {
    w & !(1 << k)
  }

  lemma MaskFacts(w: bv32, a: bv6, b: bv6)
    requires a < 32 && b < 32
    ensures (w | (1 << a)) & (1 << b) != 0 <==> b == a || w & (1 << b) != 0
    ensures (w & !(1 << a)) & (1 << b) != 0 <==> b != a && w & (1 << b) != 0
    ensures 0xFFFF_FFFF & ((1 as bv32) << a) != 0
  {
  }

  lemma BitFacts(w: bv32, a: Shift, b: Shift)
    ensures TestBit(SetBit(w, a), b) <==> b == a || TestBit(w, b)
    ensures TestBit(ClearBit(w, a), b) <==> b != a && TestBit(w, b)
    ensures TestBit(0xFFFF_FFFF, a)
  {
    MaskFacts(w, a, b);
  }

  function ShiftOf(page: nat): Shift {
    (page % 32) as bv6
  }

  lemma ShiftValue(p: nat)
    ensures ShiftOf(p) as nat == p % 32
  {
  }

  lemma ShiftsDiffer(p: nat, q: nat)
    ensures ShiftOf(p) == ShiftOf(q) <==> p % 32 == q % 32
  {
    hide ShiftOf;
    ShiftValue(p);
    ShiftValue(q);
    if p % 32 == q % 32 {
      SameShift(p, q);
    }
  }

  lemma SameShift(p: nat, q: nat)
    requires p % 32 == q % 32
    ensures ShiftOf(p) == ShiftOf(q)
  {
  }

  /** Whether the bit of `page` is set. */
  predicate IsSet(words: seq<bv32>, page: nat)
    requires |words| == WORDS && page < PAGE_COUNT
  {
    TestBit(words[page / 32], ShiftOf(page))
  }

  /** The set of pages a bitmap stands for. */
  function UsedIn(words: seq<bv32>): (u: set<nat>)
    requires |words| == WORDS
    ensures u <= Pages(0, PAGE_COUNT)
    ensures forall p :: 0 <= p < PAGE_COUNT ==> (p in u <==> IsSet(words, p))
  {
    set p | 0 <= p < PAGE_COUNT && IsSet(words, p)
  }

  function WithSet(words: seq<bv32>, page: nat): (r: seq<bv32>)
    requires |words| == WORDS && page < PAGE_COUNT
    ensures |r| == WORDS
  {
    words[page / 32 := SetBit(words[page / 32], ShiftOf(page))]
  }

  function WithClear(words: seq<bv32>, page: nat): (r: seq<bv32>)
    requires |words| == WORDS && page < PAGE_COUNT
    ensures |r| == WORDS
  {
    words[page / 32 := ClearBit(words[page / 32], ShiftOf(page))]
  }

  /** Setting or clearing the bit of one page changes the bit of no other page. */
  lemma OneBitChanges(words: seq<bv32>, page: nat, p: nat)
    requires |words| == WORDS && page < PAGE_COUNT && p < PAGE_COUNT
    ensures IsSet(WithSet(words, page), p) <==> p == page || IsSet(words, p)
    ensures IsSet(WithClear(words, page), p) <==> p != page && IsSet(words, p)
  {
    hide TestBit, SetBit, ClearBit, ShiftOf;
    ShiftsDiffer(page, p);
    BitFacts(words[page / 32], ShiftOf(page), ShiftOf(p));
    assert p / 32 == page / 32 && p % 32 == page % 32 ==> p == page;
  }

  lemma SetPage(words: seq<bv32>, page: nat)
    requires |words| == WORDS && page < PAGE_COUNT
    ensures UsedIn(WithSet(words, page)) == UsedIn(words) + {page}
    ensures UsedIn(WithClear(words, page)) == UsedIn(words) - {page}
  {
    hide WithSet, WithClear, IsSet;
    forall p | 0 <= p < PAGE_COUNT
      ensures IsSet(WithSet(words, page), p) <==> p == page || IsSet(words, p)
      ensures IsSet(WithClear(words, page), p) <==> p != page && IsSet(words, p)
    {
      OneBitChanges(words, page, p);
    }
  }

  lemma AllOnes(words: seq<bv32>)
    requires |words| == WORDS && forall k :: 0 <= k < WORDS ==> words[k] == 0xFFFF_FFFF
    ensures UsedIn(words) == Pages(0, PAGE_COUNT)
  {
    hide TestBit, ShiftOf;
    forall p | 0 <= p < PAGE_COUNT ensures IsSet(words, p) {
      BitFacts(0, ShiftOf(p), ShiftOf(p));
    }
  }

  // ----- The code -----

  class PageBitmap {
    var bits: array<bv32>
    var free: nat

    ghost predicate Valid()
      reads this
    {
      bits.Length == WORDS
    }

    ghost function State(): Frames
      reads this, bits
      requires Valid()
    {
      Frames(UsedIn(bits[..]), free)
    }

    constructor ()
      ensures Valid() && fresh(bits)
    {
      bits := new bv32[WORDS];
      free := 0;
    }

    method MarkUsed(page: nat)
      requires Valid() && page < PAGE_COUNT
      modifies bits
      ensures UsedIn(bits[..]) == old(UsedIn(bits[..])) + {page}
    {
      hide UsedIn, SetBit, ShiftOf;
      SetPage(bits[..], page);
      ghost var after := WithSet(bits[..], page);
      bits[page / 32] := SetBit(bits[page / 32], ShiftOf(page));
      assert bits[..] == after;
    }

    method MarkFree(page: nat)
      requires Valid() && page < PAGE_COUNT
      modifies bits
      ensures UsedIn(bits[..]) == old(UsedIn(bits[..])) - {page}
    {
      hide UsedIn, ClearBit, ShiftOf;
      SetPage(bits[..], page);
      ghost var after := WithClear(bits[..], page);
      bits[page / 32] := ClearBit(bits[page / 32], ShiftOf(page));
      assert bits[..] == after;
    }

    method IsUsed(page: nat) returns (r: bool)
      requires Valid() && page < PAGE_COUNT
      ensures r <==> page in UsedIn(bits[..])
    {
      hide UsedIn, TestBit, ShiftOf;
      r := TestBit(bits[page / 32], ShiftOf(page));
      assert r == IsSet(bits[..], page);
    }

    /** The body of `reserve_range`: mark a page and adjust the counter, once only. */
    method Reserve(page: nat)
      requires Valid() && Counted(State()) && page < PAGE_COUNT
      modifies this`free, bits
      ensures Valid() && State() == Take(old(State()), page)
      ensures Counted(State()) && State().used == old(State().used) + {page}
    {
      hide UsedIn, IsSet;
      TakeCounted(State(), page);
      var used := IsUsed(page);
      if !used {
        MarkUsed(page);
        free := free - 1;
      }
    }

    method ReserveRange(start: nat, end: nat)
      requires Valid() && Counted(State()) && start < TWO32 && end < TWO32
      modifies this`free, bits
      ensures Valid() && Counted(State()) && State().used == old(State().used) + Covered(start, end)
    {
      hide UsedIn, IsSet, Counted;
      ghost var first := start / PAGE_SIZE;
      var last := (end + PAGE_SIZE - 1) % TWO32 / PAGE_SIZE * PAGE_SIZE;
      var address := start / PAGE_SIZE * PAGE_SIZE;
      ghost var page := first;
      while address < last
        invariant Valid() && Counted(State()) && address == page * PAGE_SIZE
        invariant first <= page && (page <= PAGE_COUNT || page == first)
        invariant page <= last / PAGE_SIZE || page == first
        invariant State().used == old(State().used) + Pages(first, page) * Pages(0, PAGE_COUNT)
        decreases last - address
      {
        if address / PAGE_SIZE >= PAGE_COUNT {
          break;
        }
        assert address / PAGE_SIZE == page;
        Reserve(address / PAGE_SIZE);
        assert Pages(first, page + 1) == Pages(first, page) + {page};
        address := address + PAGE_SIZE;
        page := page + 1;
      }
      CoveredUpTo(start, end, page);
    }

    /** `physical_init`; `kernelEnd` is `__kernel_end`, which the linker script keeps at or below 0x98000. */
    method Init(kernelEnd: nat)
      requires Valid() && 0x9000 <= kernelEnd <= 0x9_8000
      modifies this`free, bits
      ensures Valid() && Good(State())
      ensures State() == Frames(Pages(0, RESERVED_PAGES), 15872)
    {
      hide UsedIn, IsSet, Covered;
      FreeAll();
      ReserveRange(0x0000_0000, 0x0000_1000);
      ReserveRange(0x0000_0000, 0x0010_0000);
      ReserveRange(0x0000_9000, kernelEnd);
      ReserveRange(0x0010_0000, 0x0020_0000);
      ReserveRange(0x0009_8000, 0x000A_0000);
      InitCovers(kernelEnd);
      assert State().used == Pages(0, RESERVED_PAGES);
      PagesCount(0, RESERVED_PAGES);
      assert Pages(0, LOW_PAGES) <= Pages(0, RESERVED_PAGES);
    }

    /** The first two loops of `physical_init`. */
    method FreeAll()
      requires Valid()
      modifies this`free, bits
      ensures Valid() && State() == Frames({}, PAGE_COUNT)
    {
      hide UsedIn, IsSet;
      for i := 0 to WORDS
        invariant forall k :: 0 <= k < i ==> bits[k] == 0xFFFF_FFFF
      {
        bits[i] := 0xFFFF_FFFF;
      }
      AllOnes(bits[..]);
      free := 0;
      for page := 0 to PAGE_COUNT
        invariant Valid() && State() == Frames(Pages(page, PAGE_COUNT), page)
      {
        MarkFree(page);
        free := free + 1;
        assert Pages(page + 1, PAGE_COUNT) == Pages(page, PAGE_COUNT) - {page};
      }
    }

    method AllocPage() returns (address: nat)
      requires Valid() && Good(State())
      modifies this`free, bits
      ensures Valid() && (State(), address) == Alloc(old(State()))
    {
      hide UsedIn, IsSet;
      AllocEffect(State());
      for page := LOW_PAGES to PAGE_COUNT
        invariant Valid() && bits[..] == old(bits[..]) && free == old(free)
        invariant FirstFree(State().used, LOW_PAGES) == FirstFree(State().used, page)
      {
        var used := IsUsed(page);
        if !used {
          ClaimPage(page);
          return page * PAGE_SIZE;
        }
      }
      return 0;
    }

    /** The body of the test in `physical_alloc_page`. */
    method ClaimPage(page: nat)
      requires Valid() && page < PAGE_COUNT
      modifies this`free, bits
      ensures Valid() && State() == Claim(old(State()), page)
    {
      MarkUsed(page);
      free := (free - 1) % TWO32;
    }

    method FreePage(address: nat)
      requires Valid() && Good(State())
      modifies this`free, bits
      ensures Valid() && State() == Release(old(State()), address)
    {
      hide UsedIn, IsSet;
      if address % PAGE_SIZE != 0 {
        return;
      }
      var page := address / PAGE_SIZE;
      if page >= PAGE_COUNT || address < 0x0010_0000 {
        return;
      }
      var used := IsUsed(page);
      if !used {
        return;
      }
      MarkFree(page);
      free := free + 1;
    }
  }

  /** Leaving the loop of `reserve_range` at `page` means the whole range is covered. */
  lemma CoveredUpTo(start: nat, end: nat, page: nat)
    requires start / PAGE_SIZE <= page
    requires page >= PAGE_COUNT || page >= (end + PAGE_SIZE - 1) % TWO32 / PAGE_SIZE
    requires page <= (end + PAGE_SIZE - 1) % TWO32 / PAGE_SIZE || page == start / PAGE_SIZE
    ensures Pages(start / PAGE_SIZE, page) * Pages(0, PAGE_COUNT) == Covered(start, end)
  {
  }

  /** The five ranges overlap, and together are pages 0 .. 511. */
  lemma InitCovers(kernelEnd: nat)
    requires 0x9000 <= kernelEnd <= 0x9_8000
    ensures {} + Covered(0, 0x1000) + Covered(0, 0x10_0000) + Covered(0x9000, kernelEnd)
            + Covered(0x10_0000, 0x20_0000) + Covered(0x9_8000, 0xA_0000) == Pages(0, RESERVED_PAGES)
  {
    assert Covered(0, 0x1000) == Pages(0, 1);
    assert Covered(0, 0x10_0000) == Pages(0, LOW_PAGES);
    assert Covered(0x10_0000, 0x20_0000) == Pages(LOW_PAGES, RESERVED_PAGES);
    assert Covered(0x9_8000, 0xA_0000) <= Pages(0, LOW_PAGES);
    assert Covered(0x9000, kernelEnd) <= Pages(0, LOW_PAGES);
  }
}
