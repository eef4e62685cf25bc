/**
 The two-level page tables of kernel/mm/paging.c, together with the page allocator they draw on and
 the TLB (translation lookaside buffer) that caches them.

 Physical memory is a map from frame number to the 1024 words of that frame.  A virtual page is a
 20-bit number, the high ten bits indexing the directory and the low ten a table.  Entries are
 32-bit words: frame number times 4096 plus flags, bit 0 being "present" (32-bit paging, section
 4.3 of the Intel SDM, volume 3A).
 */
module Paging {
  import opened Physical

  const ENTRIES: nat := 1024
  const VIRTUAL_PAGES: nat := 0x10_0000
  const PRESENT: nat := 1
  const WRITABLE: nat := 2

  type Memory = map<nat, seq<nat>>

  /** Frames of the two static arrays `pageDirectory` and `firstPageTable`, inside the kernel image. */
  datatype Image = Image(directory: nat, firstTable: nat)

  ghost predicate GoodImage(k: Image) {
    9 <= k.directory < 0x98 && 9 <= k.firstTable < 0x98 && k.directory != k.firstTable
  }

  datatype Vm = Vm(frames: Frames, mem: Memory, tlb: map<nat, nat>)

  datatype Translation = Unmapped | Mapped(entry: nat)

  predicate IsPresent(entry: nat) {
    entry % 2 == 1
  }

  function FrameOf(entry: nat): nat {
    entry / PAGE_SIZE
  }

  function DirectoryIndex(page: nat): nat {
    page / ENTRIES % ENTRIES
  }

  function TableIndex(page: nat): nat {
    page % ENTRIES
  }

  function Word(mem: Memory, frame: nat, index: nat): nat {
    if frame in mem && index < |mem[frame]| then mem[frame][index] else 0
  }

  function Updated(row: seq<nat>, index: nat, word: nat): seq<nat>
    requires index < |row|
  {
    row[index := word]
  }

  function Store(mem: Memory, frame: nat, index: nat, word: nat): Memory {
    if frame in mem && index < |mem[frame]| then mem[frame := Updated(mem[frame], index, word)] else mem
  }

  predicate HasTable(k: Image, mem: Memory, d: nat) {
    IsPresent(Word(mem, k.directory, d))
  }

  /** The table of directory slot `d`, when present. */
  function TableFrame(k: Image, mem: Memory, d: nat): nat {
    FrameOf(Word(mem, k.directory, d))
  }

  /** The flags of directory slot `d`. */
  function TableFlags(k: Image, mem: Memory, d: nat): nat {
    Word(mem, k.directory, d) % 4096
  }

  /** What the hardware finds for a virtual page. */
  function Walk(k: Image, mem: Memory, page: nat): Translation {
    if !HasTable(k, mem, DirectoryIndex(page)) then Unmapped else
    var e := Word(mem, TableFrame(k, mem, DirectoryIndex(page)), TableIndex(page));
    if IsPresent(e) then Mapped(e) else Unmapped
  }

  ghost predicate AllFrames(mem: Memory) {
    forall f :: 0 <= f < PAGE_COUNT ==> f in mem && |mem[f]| == ENTRIES
  }

  /** Every present directory entry names a frame of memory. */
  ghost predicate WellFormed(k: Image, mem: Memory) {
    && GoodImage(k) && AllFrames(mem)
    && forall d :: 0 <= d < ENTRIES && HasTable(k, mem, d) ==> TableFrame(k, mem, d) < PAGE_COUNT
  }

  /** The address space as a flat map from virtual page to entry. */
  ghost function Flat(k: Image, mem: Memory): map<nat, nat> {
    map page | 0 <= page < VIRTUAL_PAGES && Walk(k, mem, page).Mapped? :: Walk(k, mem, page).entry
  }

  // ----- The operations -----

  function Zeros(n: nat): (r: seq<nat>)
    ensures |r| == n && forall i :: 0 <= i < n ==> r[i] == 0
  {
    if n == 0 then [] else Zeros(n - 1) + [0]
  }

  function Or(entry: nat, flag: nat): nat
    requires flag == PRESENT
  {
    if IsPresent(entry) then entry else entry + flag
  }

  /** The entry that `paging_map` installs. */
  function NewEntry(physical: nat, flags: nat): nat {
    Or(physical / PAGE_SIZE * PAGE_SIZE + flags % PAGE_SIZE, PRESENT)
  }

  function TableEntry(address: nat): nat {
    address / PAGE_SIZE * PAGE_SIZE + PRESENT + WRITABLE
  }

  predicate Aligned(address: nat) {
    address % PAGE_SIZE == 0
  }

  /** The TLB may load any present translation at any time. */
  ghost function Filled(k: Image, mem: Memory, tlb: map<nat, nat>, pages: set<nat>): map<nat, nat> {
    tlb + map page | page in pages && Walk(k, mem, page).Mapped? :: Walk(k, mem, page).entry
  }

  /** The directory and tables once slot `d` has a table, allocating one if needed; no table when memory ran out. */
  function WithTable(k: Image, frames: Frames, mem: Memory, d: nat): (Frames, Memory, bool) {
    if HasTable(k, mem, d) then (frames, mem, true) else
    var (frames', address) := Alloc(frames);
    if address == 0 then (frames', mem, false)
    else (frames', Store(mem[address / PAGE_SIZE := Zeros(ENTRIES)], k.directory, d, TableEntry(address)), true)
  }

  /** Frame and flags can be read back from a word. */
  lemma EntryParts(frame: nat, flags: nat)
    requires flags < PAGE_SIZE
    ensures var e := frame * PAGE_SIZE + flags;
      FrameOf(e) == frame && e % PAGE_SIZE == flags && IsPresent(e) == IsPresent(flags)
  {
    assert frame * PAGE_SIZE == 2 * (frame * 2048);
  }

  lemma TableEntryMeaning(frame: nat)
    ensures var e := TableEntry(frame * PAGE_SIZE);
      IsPresent(e) && FrameOf(e) == frame && e % 4096 == 3
  {
    EntryParts(frame, 0);
    EntryParts(frame, PRESENT + WRITABLE);
  }

  // ----- The invariant -----

  /**
   The tables are pairwise distinct frames, none of them the directory; slot 0 has the static
   table, and every other table was allocated and is still in use.  A directory entry is present and
   writable, and never open to user mode.
   */
  ghost predicate TablesApart(k: Image, frames: Frames, mem: Memory) {
    && HasTable(k, mem, 0) && TableFrame(k, mem, 0) == k.firstTable
    && (forall d :: 1 <= d < ENTRIES && HasTable(k, mem, d) ==>
          TableFrame(k, mem, d) in frames.used && TableFrame(k, mem, d) >= RESERVED_PAGES)
    && (forall d, e :: 0 <= d < e < ENTRIES && HasTable(k, mem, d) && HasTable(k, mem, e) ==>
          TableFrame(k, mem, d) != TableFrame(k, mem, e))
    && (forall d :: 0 <= d < ENTRIES && HasTable(k, mem, d) ==> TableFlags(k, mem, d) == 3)
  }

  ghost predicate Coherent(k: Image, mem: Memory, tlb: map<nat, nat>) {
    forall page :: page in tlb ==> page < VIRTUAL_PAGES && Walk(k, mem, page) == Mapped(tlb[page])
  }

  ghost predicate Inv(k: Image, vm: Vm) {
    && Good(vm.frames) && Pages(0, RESERVED_PAGES) <= vm.frames.used
    && WellFormed(k, vm.mem) && TablesApart(k, vm.frames, vm.mem) && Coherent(k, vm.mem, vm.tlb)
  }

  /** Frame `f` holds the directory or one of the tables. */
  ghost predicate HoldsTables(k: Image, mem: Memory, f: nat) {
    f == k.directory || exists d :: 0 <= d < ENTRIES && HasTable(k, mem, d) && TableFrame(k, mem, d) == f
  }

  lemma TableNotDirectory(k: Image, frames: Frames, mem: Memory, d: nat)
    requires WellFormed(k, mem) && TablesApart(k, frames, mem) && d < ENTRIES && HasTable(k, mem, d)
    ensures TableFrame(k, mem, d) != k.directory
  {
  }

  /** A page number is determined by its two indices, its high and its low ten bits. */
  lemma IndicesDetermine(p: nat, q: nat)
    requires p < VIRTUAL_PAGES && q < VIRTUAL_PAGES
    ensures p == DirectoryIndex(p) * 1024 + TableIndex(p)
    ensures DirectoryIndex(p) < ENTRIES && TableIndex(p) < ENTRIES
    ensures DirectoryIndex(p) == DirectoryIndex(q) && TableIndex(p) == TableIndex(q) <==> p == q
  {
  }

  // ----- Storing one entry in one table -----

  lemma SameDirectory(k: Image, frames: Frames, mem: Memory, mem': Memory)
    requires WellFormed(k, mem) && TablesApart(k, frames, mem) && AllFrames(mem')
    requires mem'[k.directory] == mem[k.directory]
    ensures WellFormed(k, mem') && TablesApart(k, frames, mem')
    ensures forall d :: 0 <= d < ENTRIES ==>
              HasTable(k, mem', d) == HasTable(k, mem, d) && TableFrame(k, mem', d) == TableFrame(k, mem, d)
  {
    assert forall d :: 0 <= d < ENTRIES ==>
              HasTable(k, mem', d) == HasTable(k, mem, d) && TableFrame(k, mem', d) == TableFrame(k, mem, d);
    assert forall d :: 0 <= d < ENTRIES ==> TableFlags(k, mem', d) == TableFlags(k, mem, d);
  }

  /** A store at one index of one table changes the translation of one page. */
  lemma StoreEntry(k: Image, frames: Frames, mem: Memory, page: nat, word: nat)
    requires WellFormed(k, mem) && TablesApart(k, frames, mem) && page < VIRTUAL_PAGES
    requires HasTable(k, mem, DirectoryIndex(page))
    ensures var t := TableFrame(k, mem, DirectoryIndex(page));
      && t in mem && TableIndex(page) < |mem[t]|
      && var mem' := Store(mem, t, TableIndex(page), word);
      && mem'[k.directory] == mem[k.directory]
      && WellFormed(k, mem') && TablesApart(k, frames, mem')
      && Walk(k, mem', page) == (if IsPresent(word) then Mapped(word) else Unmapped)
      && (forall q :: 0 <= q < VIRTUAL_PAGES && q != page ==> Walk(k, mem', q) == Walk(k, mem, q))
  {
    var d := DirectoryIndex(page);
    var t := TableFrame(k, mem, d);
    TableNotDirectory(k, frames, mem, d);
    var mem' := Store(mem, t, TableIndex(page), word);
    assert mem'[k.directory] == mem[k.directory];
    SameDirectory(k, frames, mem, mem');
    forall q | 0 <= q < VIRTUAL_PAGES && q != page ensures Walk(k, mem', q) == Walk(k, mem, q) {
      IndicesDetermine(page, q);
      IndicesDetermine(q, page);
    }
  }

  // ----- Installing a table -----

  /**
   Making sure a slot has a table changes no translation, because a new table is zeroed; the new
   table is a frame nobody was using; and without a free frame nothing changes at all.
   */
  lemma WithTableEffect(k: Image, frames: Frames, mem: Memory, d: nat)
    requires Good(frames) && Pages(0, RESERVED_PAGES) <= frames.used
    requires WellFormed(k, mem) && TablesApart(k, frames, mem) && d < ENTRIES
    ensures var (frames', mem', ok) := WithTable(k, frames, mem, d);
      && Good(frames') && frames.used <= frames'.used && WellFormed(k, mem') && TablesApart(k, frames', mem')
      && (ok <==> HasTable(k, mem, d) || frames.free != 0)
      && (!ok ==> frames' == frames && mem' == mem)
      && (HasTable(k, mem, d) ==> frames' == frames && mem' == mem)
      && (ok ==> HasTable(k, mem', d))
      && (ok && !HasTable(k, mem, d) ==>
          && TableFrame(k, mem', d) !in frames.used && mem'[TableFrame(k, mem', d)] == Zeros(ENTRIES)
          && TableFlags(k, mem', d) == 3
          && frames'.used == frames.used + {TableFrame(k, mem', d)}
          && Alloc(frames).1 == TableFrame(k, mem', d) * PAGE_SIZE)
      && (forall e :: 0 <= e < ENTRIES && HasTable(k, mem, e) ==>
            HasTable(k, mem', e) && TableFrame(k, mem', e) == TableFrame(k, mem, e))
      && (forall e :: 0 <= e < ENTRIES && HasTable(k, mem', e) ==> HasTable(k, mem, e) || e == d)
      && (forall f :: f in mem && f != k.directory && f in frames.used ==> f in mem' && mem'[f] == mem[f])
      && (forall q :: 0 <= q < VIRTUAL_PAGES ==> Walk(k, mem', q) == Walk(k, mem, q))
  {
    hide Walk, Counted, FirstFree, TableEntry;
    if HasTable(k, mem, d) { return; }
    AllocEffect(frames);
    var (frames', address) := Alloc(frames);
    if address == 0 { return; }
    var t := address / PAGE_SIZE;
    assert forall f :: 0 <= f < RESERVED_PAGES ==> f in Pages(0, RESERVED_PAGES);
    InstallTable(k, mem, d, t);
    var mem' := WithTable(k, frames, mem, d).1;
    NewTableApart(k, frames, frames', mem, mem', d, t);
    forall q | 0 <= q < VIRTUAL_PAGES ensures Walk(k, mem', q) == Walk(k, mem, q) {
      NewTableWalk(k, frames, mem, mem', d, t, q);
    }
  }

  /** The directory with a new table in slot `d`. */
  ghost predicate TableAdded(k: Image, mem: Memory, mem': Memory, d: nat, t: nat) {
    && AllFrames(mem) && AllFrames(mem') && d < ENTRIES && t < PAGE_COUNT && mem'[t] == Zeros(ENTRIES)
    && (forall f :: f in mem && f != k.directory && f != t ==> f in mem' && mem'[f] == mem[f])
    && (forall e :: 0 <= e < ENTRIES && e != d ==>
          HasTable(k, mem', e) == HasTable(k, mem, e) && TableFrame(k, mem', e) == TableFrame(k, mem, e))
    && (forall e :: 0 <= e < ENTRIES && e != d ==> TableFlags(k, mem', e) == TableFlags(k, mem, e))
    && !HasTable(k, mem, d) && HasTable(k, mem', d) && TableFrame(k, mem', d) == t && TableFlags(k, mem', d) == 3
  }

  lemma NewTableApart(k: Image, frames: Frames, frames': Frames, mem: Memory, mem': Memory, d: nat, t: nat)
    requires WellFormed(k, mem) && TablesApart(k, frames, mem) && TableAdded(k, mem, mem', d, t)
    requires RESERVED_PAGES <= t && t !in frames.used && frames'.used == frames.used + {t}
    ensures WellFormed(k, mem') && TablesApart(k, frames', mem')
  {
    hide HasTable, TableFrame, TableFlags;
  }

  lemma NewTableWalk(k: Image, frames: Frames, mem: Memory, mem': Memory, d: nat, t: nat, q: nat)
    requires WellFormed(k, mem) && TablesApart(k, frames, mem) && TableAdded(k, mem, mem', d, t)
    requires RESERVED_PAGES <= t && t !in frames.used && q < VIRTUAL_PAGES
    ensures Walk(k, mem', q) == Walk(k, mem, q)
  {
    hide HasTable, TableFrame;
    var e := DirectoryIndex(q);
    if e == d {
      assert Word(mem', t, TableIndex(q)) == 0;
    } else if HasTable(k, mem, e) {
      assert TableFrame(k, mem, e) != t && TableFrame(k, mem, e) != k.directory;
    }
  }

  lemma InstallTable(k: Image, mem: Memory, d: nat, t: nat)
    requires WellFormed(k, mem) && d < ENTRIES && !HasTable(k, mem, d) && t < PAGE_COUNT && t != k.directory
    ensures TableAdded(k, mem, Store(mem[t := Zeros(ENTRIES)], k.directory, d, TableEntry(t * PAGE_SIZE)), d, t)
  {
    TableEntryMeaning(t);
    var cleared := mem[t := Zeros(ENTRIES)];
    assert cleared[k.directory] == mem[k.directory];
  }

  // ----- paging_map and paging_unmap -----

  /**
   `paging_map` as (state afterwards, result).  `fills` are the pages the hardware happens to load
   into the TLB between the store of the entry and `invlpg`.
   */
  ghost function MapPage(k: Image, vm: Vm, virtual: nat, physical: nat, flags: nat, fills: set<nat>): (Vm, int) {
    if !Aligned(virtual) || !Aligned(physical) then (vm, -1) else
    var page := virtual / PAGE_SIZE;
    var d := DirectoryIndex(page);
    var (frames, mem, ok) := WithTable(k, vm.frames, vm.mem, d);
    if !ok then (vm.(frames := frames, mem := mem), -2)
    else if IsPresent(Word(mem, TableFrame(k, mem, d), TableIndex(page)))
    then (vm.(frames := frames, mem := mem), -3)
    else
      var mem' := Store(mem, TableFrame(k, mem, d), TableIndex(page), NewEntry(physical, flags));
      (Vm(frames, mem', Filled(k, mem', vm.tlb, fills) - {page}), 0)
  }

  ghost function UnmapPage(k: Image, vm: Vm, virtual: nat, fills: set<nat>): (Vm, int) {
    if !Aligned(virtual) then (vm, -1) else
    var page := virtual / PAGE_SIZE;
    var d := DirectoryIndex(page);
    if !HasTable(k, vm.mem, d) then (vm, -2)
    else if !IsPresent(Word(vm.mem, TableFrame(k, vm.mem, d), TableIndex(page))) then (vm, -3)
    else
      var mem' := Store(vm.mem, TableFrame(k, vm.mem, d), TableIndex(page), 0);
      (vm.(mem := mem', tlb := Filled(k, mem', vm.tlb, fills) - {page}), 0)
  }

  /** A change at one page, with that page invalidated last, leaves the TLB coherent. */
  lemma InvalidatedCoherent(k: Image, mem: Memory, mem': Memory, tlb: map<nat, nat>, page: nat, fills: set<nat>)
    requires WellFormed(k, mem) && WellFormed(k, mem') && Coherent(k, mem, tlb)
    requires forall f :: f in fills ==> f < VIRTUAL_PAGES
    requires forall q :: 0 <= q < VIRTUAL_PAGES && q != page ==> Walk(k, mem', q) == Walk(k, mem, q)
    ensures Coherent(k, mem', Filled(k, mem', tlb, fills) - {page})
  {
  }

  /** Loading drops no entry, so an entry that has gone stale stays until `invlpg`. */
  lemma LoadingDropsNothing(k: Image, mem: Memory, tlb: map<nat, nat>, pages: set<nat>, page: nat)
    requires page in tlb && (Walk(k, mem, page).Unmapped? || page !in pages)
    ensures page in Filled(k, mem, tlb, pages) && Filled(k, mem, tlb, pages)[page] == tlb[page]
  {
    hide Walk;
  }

  /** Without `invlpg` a translation that was cached would outlive its removal. */
  lemma StaleWithoutInvalidation(k: Image, mem: Memory, tlb: map<nat, nat>, page: nat, pages: set<nat>)
    requires page in tlb && Walk(k, mem, page).Unmapped?
    ensures !Coherent(k, mem, Filled(k, mem, tlb, pages))
  {
    hide Walk, Filled;
    LoadingDropsNothing(k, mem, tlb, pages, page);
  }

  ghost predicate Fills(pages: set<nat>) {
    forall f :: f in pages ==> f < VIRTUAL_PAGES
  }

  /** The entry holds the frame asked for and the flags asked for, and is present. */
  lemma NewEntryMeaning(physical: nat, flags: nat)
    requires Aligned(physical)
    ensures var e := NewEntry(physical, flags);
      && IsPresent(e) && FrameOf(e) == physical / PAGE_SIZE && e % 2 == 1 && e / 4096 == physical / 4096
      && e % PAGE_SIZE / 2 == flags % PAGE_SIZE / 2
  {
    var p, f := physical / PAGE_SIZE, flags % PAGE_SIZE;
    EntryParts(p, f);
    EntryParts(p, if f % 2 == 0 then f + 1 else f);
  }

  /** A frame in use that holds no table has kept its contents. */
  ghost predicate OnlyTablesChange(k: Image, frames: Frames, mem: Memory, mem': Memory) {
    forall f :: f in mem && f in frames.used && !HoldsTables(k, mem, f) ==> f in mem' && mem'[f] == mem[f]
  }

  /**
   `paging_map`: the result says exactly what was wrong; on success the flat map gains the one page
   and nothing else changes; on failure nothing changes.  Result -3 means the page was mapped
   already, so it never follows the allocation of a table.
   */
  lemma MapEffect(k: Image, vm: Vm, virtual: nat, physical: nat, flags: nat, fills: set<nat>)
    requires Inv(k, vm) && virtual < TWO32 && physical < TWO32 && Fills(fills)
    ensures var (vm', result) := MapPage(k, vm, virtual, physical, flags, fills);
      var page := virtual / PAGE_SIZE;
      && Inv(k, vm')
      && (result == -1 <==> !(Aligned(virtual) && Aligned(physical)))
      && (Aligned(virtual) && Aligned(physical) ==>
          && (result == -3 <==> page in Flat(k, vm.mem))
          && (result == -2 <==> !HasTable(k, vm.mem, DirectoryIndex(page)) && vm.frames.free == 0)
          && (result == 0 <==> page !in Flat(k, vm.mem) &&
                               (HasTable(k, vm.mem, DirectoryIndex(page)) || vm.frames.free != 0)))
      && (result != 0 ==> vm' == vm)
      && (result == 0 ==>
          && Flat(k, vm'.mem) == Flat(k, vm.mem)[page := NewEntry(physical, flags)]
          && page !in vm'.tlb
          && vm.frames.used <= vm'.frames.used
          && vm'.frames == (if HasTable(k, vm.mem, DirectoryIndex(page)) then vm.frames else Alloc(vm.frames).0)
          && OnlyTablesChange(k, vm.frames, vm.mem, vm'.mem))
  {
    hide WithTable, Alloc, NewEntry;
    if !Aligned(virtual) || !Aligned(physical) { return; }
    var page := virtual / PAGE_SIZE;
    var d := DirectoryIndex(page);
    WithTableEffect(k, vm.frames, vm.mem, d);
    var (frames, mem, ok) := WithTable(k, vm.frames, vm.mem, d);
    if !ok { return; }
    var t := TableFrame(k, mem, d);
    assert page in Flat(k, vm.mem) <==> IsPresent(Word(mem, t, TableIndex(page))) by {
      assert Walk(k, mem, page) == Walk(k, vm.mem, page);
    }
    if IsPresent(Word(mem, t, TableIndex(page))) { return; }
    var entry := NewEntry(physical, flags);
    NewEntryMeaning(physical, flags);
    StoreEntry(k, frames, mem, page, entry);
    var mem' := Store(mem, t, TableIndex(page), entry);
    InvalidatedCoherent(k, vm.mem, mem', vm.tlb, page, fills);
    FlatUpdate(k, vm.mem, mem', page);
    WithTableFrames(k, vm.frames, vm.mem, d);
    TableStored(k, vm, mem, mem', d, TableIndex(page), entry);
  }

  lemma WithTableFrames(k: Image, frames: Frames, mem: Memory, d: nat)
    ensures var (frames', _, ok) := WithTable(k, frames, mem, d);
      ok ==> frames' == if HasTable(k, mem, d) then frames else Alloc(frames).0
  {
    hide Alloc;
  }

  /** Storing in the table of a slot, new or old, touches no other frame in use. */
  lemma TableStored(k: Image, vm: Vm, mem: Memory, mem': Memory, d: nat, i: nat, word: nat)
    requires WellFormed(k, mem) && d < ENTRIES && HasTable(k, mem, d)
    requires HasTable(k, vm.mem, d) ==> TableFrame(k, mem, d) == TableFrame(k, vm.mem, d)
    requires !HasTable(k, vm.mem, d) ==> TableFrame(k, mem, d) !in vm.frames.used
    requires forall f :: f in vm.mem && f != k.directory && f in vm.frames.used ==> f in mem && mem[f] == vm.mem[f]
    requires mem' == Store(mem, TableFrame(k, mem, d), i, word)
    ensures OnlyTablesChange(k, vm.frames, vm.mem, mem')
  {
    hide HasTable, TableFrame, Updated;
  }

  lemma FlatUpdate(k: Image, mem: Memory, mem': Memory, page: nat)
    requires WellFormed(k, mem) && WellFormed(k, mem') && page < VIRTUAL_PAGES
    requires forall q :: 0 <= q < VIRTUAL_PAGES && q != page ==> Walk(k, mem', q) == Walk(k, mem, q)
    ensures Walk(k, mem', page).Mapped? ==> Flat(k, mem') == Flat(k, mem)[page := Walk(k, mem', page).entry]
    ensures Walk(k, mem', page).Unmapped? ==> Flat(k, mem') == Flat(k, mem) - {page}
  {
    hide Walk;
  }

  /** `paging_unmap`, likewise: success removes the one page from the flat map. */
  lemma UnmapEffect(k: Image, vm: Vm, virtual: nat, fills: set<nat>)
    requires Inv(k, vm) && virtual < TWO32 && Fills(fills)
    ensures var (vm', result) := UnmapPage(k, vm, virtual, fills);
      var page := virtual / PAGE_SIZE;
      && Inv(k, vm') && vm'.frames == vm.frames && vm'.mem[k.directory] == vm.mem[k.directory]
      && (result == -1 <==> !Aligned(virtual))
      && (result == -2 <==> Aligned(virtual) && !HasTable(k, vm.mem, DirectoryIndex(page)))
      && (result == 0 <==> Aligned(virtual) && page in Flat(k, vm.mem))
      && (result != 0 ==> vm' == vm)
      && (result == 0 ==> Flat(k, vm'.mem) == Flat(k, vm.mem) - {page} && page !in vm'.tlb)
      && OnlyTablesChange(k, vm.frames, vm.mem, vm'.mem)
      && (result == 0 ==> Word(vm'.mem, TableFrame(k, vm.mem, DirectoryIndex(page)), TableIndex(page)) == 0)
  {
    hide TablesApart, Counted, Filled, Store, Coherent;
    if !Aligned(virtual) { return; }
    var page := virtual / PAGE_SIZE;
    var d := DirectoryIndex(page);
    if !HasTable(k, vm.mem, d) { return; }
    var t := TableFrame(k, vm.mem, d);
    if !IsPresent(Word(vm.mem, t, TableIndex(page))) { return; }
    StoreEntry(k, vm.frames, vm.mem, page, 0);
    var mem' := Store(vm.mem, t, TableIndex(page), 0);
    InvalidatedCoherent(k, vm.mem, mem', vm.tlb, page, fills);
    FlatUpdate(k, vm.mem, mem', page);
    TableStored(k, vm, vm.mem, mem', d, TableIndex(page), 0);
    Stored(vm.mem, t, TableIndex(page), 0);
  }

  lemma Stored(mem: Memory, frame: nat, index: nat, word: nat)
    ensures frame in mem && index < |mem[frame]| ==> Word(Store(mem, frame, index, word), frame, index) == word
  {
  }

  /** Unmapping undoes mapping: the flat map is as before. */
  lemma MapThenUnmap(k: Image, vm: Vm, virtual: nat, physical: nat, flags: nat, fills: set<nat>, fills': set<nat>)
    requires Inv(k, vm) && virtual < TWO32 && physical < TWO32 && Fills(fills) && Fills(fills')
    requires MapPage(k, vm, virtual, physical, flags, fills).1 == 0
    ensures var (vm', _) := MapPage(k, vm, virtual, physical, flags, fills);
      && Inv(k, vm') && UnmapPage(k, vm', virtual, fills').1 == 0
      && var vm'' := UnmapPage(k, vm', virtual, fills').0;
      && Inv(k, vm'') && Flat(k, vm''.mem) == Flat(k, vm.mem)
  {
    hide MapPage, UnmapPage, Inv, Flat;
    var page := virtual / PAGE_SIZE;
    MapEffect(k, vm, virtual, physical, flags, fills);
    var vm' := MapPage(k, vm, virtual, physical, flags, fills).0;
    UnmapEffect(k, vm', virtual, fills');
    var before := Flat(k, vm.mem);
    var entry := NewEntry(physical, flags);
    assert before[page := entry] - {page} == before;
  }
}
