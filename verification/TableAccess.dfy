/**
 How kernel/mm/paging.c gets at the tables: through their own virtual addresses.
 `physical_to_virtual` is the identity, so what the code reads and writes for frame `f` is whatever
 the virtual page `f` is mapped to at that moment, and it faults when there is nothing.

 `MapVia` and `UnmapVia` are the code with these accesses.  They do what `MapPage` and `UnmapPage`
 of module `Paging` do, where every frame is at hand, exactly when the tables can be reached.
 */
module TableAccess {
  import opened Physical
  import opened Paging

  /** A fault repeats forever: the handler returns to the instruction that faulted. */
  datatype Outcome = Fault | Done(vm: Vm, result: int)

  datatype Cleared = ClearFault | Clear(mem: Memory)

  datatype Found = FindFault | NoTable | Table(frames: Frames, mem: Memory, table: nat)

  /** The frame that virtual page `page` leads to. */
  function Behind(k: Image, mem: Memory, page: nat): nat
    requires Walk(k, mem, page).Mapped?
  {
    FrameOf(Walk(k, mem, page).entry)
  }

  /** The page is mapped to the frame of the same number. */
  predicate Identity(k: Image, mem: Memory, page: nat) {
    Walk(k, mem, page).Mapped? && Behind(k, mem, page) == page
  }

  /** The kernel reaches its directory and every table. */
  ghost predicate TablesReachable(k: Image, mem: Memory) {
    forall f :: HoldsTables(k, mem, f) ==> Identity(k, mem, f)
  }

  // ----- The operations -----

  /** The zeroing loop of `allocate_page_table`, from word `i` on. */
  function ClearVia(k: Image, mem: Memory, page: nat, i: nat): Cleared
    decreases ENTRIES - i
  {
    if i >= ENTRIES then Clear(mem)
    else if Walk(k, mem, page).Unmapped? then ClearFault
    else ClearVia(k, Store(mem, Behind(k, mem, page), i, 0), page, i + 1)
  }

  /** The table of slot `d`, allocated if there is none. */
  function FindVia(k: Image, frames: Frames, mem: Memory, d: nat): Found {
    if Walk(k, mem, k.directory).Unmapped? then FindFault else
    var entry := Word(mem, Behind(k, mem, k.directory), d);
    if IsPresent(entry) then Table(frames, mem, FrameOf(entry)) else
    var (frames', address) := Alloc(frames);
    if address == 0 then NoTable else
    match ClearVia(k, mem, address / PAGE_SIZE, 0)
    case ClearFault => FindFault
    case Clear(mem') =>
      if Walk(k, mem', k.directory).Unmapped? then FindFault
      else Table(frames', Store(mem', Behind(k, mem', k.directory), d, TableEntry(address)), address / PAGE_SIZE)
  }

  /** Store the entry, and then once more with the present bit. */
  ghost function EnterVia(k: Image, vm: Vm, table: nat, page: nat, entry: nat, fills: set<nat>): Outcome {
    var i := TableIndex(page);
    if Walk(k, vm.mem, table).Unmapped? then Fault
    else if IsPresent(Word(vm.mem, Behind(k, vm.mem, table), i)) then Done(vm, -3) else
    var mem := Store(vm.mem, Behind(k, vm.mem, table), i, entry);
    if Walk(k, mem, table).Unmapped? then Fault else
    var f := Behind(k, mem, table);
    var mem' := Store(mem, f, i, Or(Word(mem, f, i), PRESENT));
    Done(vm.(mem := mem', tlb := Filled(k, mem', vm.tlb, fills) - {page}), 0)
  }

  /** `paging_map`. */
  ghost function MapVia(k: Image, vm: Vm, virtual: nat, physical: nat, flags: nat, fills: set<nat>): Outcome {
    if !Aligned(virtual) || !Aligned(physical) then Done(vm, -1) else
    var page := virtual / PAGE_SIZE;
    match FindVia(k, vm.frames, vm.mem, DirectoryIndex(page))
    case FindFault => Fault
    case NoTable => Done(vm, -2)
    case Table(frames, mem, table) =>
      EnterVia(k, vm.(frames := frames, mem := mem), table, page,
               physical / PAGE_SIZE * PAGE_SIZE + flags % PAGE_SIZE, fills)
  }

  /** `paging_unmap`. */
  ghost function UnmapVia(k: Image, vm: Vm, virtual: nat, fills: set<nat>): Outcome {
    if !Aligned(virtual) then Done(vm, -1) else
    var page := virtual / PAGE_SIZE;
    if Walk(k, vm.mem, k.directory).Unmapped? then Fault else
    var entry := Word(vm.mem, Behind(k, vm.mem, k.directory), DirectoryIndex(page));
    if !IsPresent(entry) then Done(vm, -2)
    else if Walk(k, vm.mem, FrameOf(entry)).Unmapped? then Fault else
    var f := Behind(k, vm.mem, FrameOf(entry));
    if !IsPresent(Word(vm.mem, f, TableIndex(page))) then Done(vm, -3) else
    var mem' := Store(vm.mem, f, TableIndex(page), 0);
    Done(vm.(mem := mem', tlb := Filled(k, mem', vm.tlb, fills) - {page}), 0)
  }

  // ----- What a caller can check -----

  /** A call that needs a new table finds the lowest unused frame mapped to itself. */
  ghost predicate SafeMap(k: Image, vm: Vm, virtual: nat, physical: nat) {
    || !Aligned(virtual) || !Aligned(physical) || HasTable(k, vm.mem, DirectoryIndex(virtual / PAGE_SIZE))
    || vm.frames.free == 0 || Identity(k, vm.mem, FirstFree(vm.frames.used, LOW_PAGES))
  }

  /** The page unmapped holds no table. */
  ghost predicate SafeUnmap(k: Image, vm: Vm, virtual: nat) {
    !Aligned(virtual) || !HoldsTables(k, vm.mem, virtual / PAGE_SIZE)
  }

  // ----- Clearing a frame -----

  /** What a frame that holds no table contains does not matter to any translation. */
  lemma OtherRow(k: Image, mem: Memory, f: nat, row: seq<nat>, page: nat)
    requires !HoldsTables(k, mem, f) && page < VIRTUAL_PAGES
    ensures Walk(k, mem[f := row], page) == Walk(k, mem, page)
  {
    IndicesDetermine(page, page);
  }

  lemma {:induction false} ClearRow(k: Image, mem: Memory, page: nat, row: seq<nat>, i: nat)
    requires page < VIRTUAL_PAGES && Walk(k, mem, page).Mapped? && !HoldsTables(k, mem, Behind(k, mem, page))
    requires i <= ENTRIES == |row| && forall j :: 0 <= j < i ==> row[j] == 0
    ensures ClearVia(k, mem[Behind(k, mem, page) := row], page, i) ==
            Clear(mem[Behind(k, mem, page) := Zeros(ENTRIES)])
    decreases ENTRIES - i
  {
    hide Walk, HoldsTables;
    var f := Behind(k, mem, page);
    if i == ENTRIES {
      assert row == Zeros(ENTRIES);
    } else {
      OtherRow(k, mem, f, row, page);
      ClearRow(k, mem, page, row[i := 0], i + 1);
      assert Store(mem[f := row], f, i, 0) == mem[f := row[i := 0]];
    }
  }

  /**
   The loop zeroes the frame that the page leads to, whichever frame that is, as long as it holds
   no table.
   */
  lemma ClearEffect(k: Image, mem: Memory, page: nat)
    requires page < VIRTUAL_PAGES && Walk(k, mem, page).Mapped? && !HoldsTables(k, mem, Behind(k, mem, page))
    requires AllFrames(mem) && Behind(k, mem, page) < PAGE_COUNT
    ensures ClearVia(k, mem, page, 0) == Clear(mem[Behind(k, mem, page) := Zeros(ENTRIES)])
  {
    hide Walk, HoldsTables;
    var f := Behind(k, mem, page);
    ClearRow(k, mem, page, mem[f], 0);
    assert mem[f := mem[f]] == mem;
  }

  // ----- With the tables in reach, the code does what it should -----

  lemma TablesAtHand(k: Image, mem: Memory, d: nat)
    requires WellFormed(k, mem) && TablesReachable(k, mem) && d < ENTRIES
    ensures Identity(k, mem, k.directory)
    ensures HasTable(k, mem, d) ==> Identity(k, mem, TableFrame(k, mem, d))
  {
    hide Walk;
    assert HoldsTables(k, mem, k.directory);
    assert HasTable(k, mem, d) ==> HoldsTables(k, mem, TableFrame(k, mem, d));
  }

  lemma FindRefines(k: Image, vm: Vm, virtual: nat, physical: nat)
    requires Inv(k, vm) && TablesReachable(k, vm.mem) && SafeMap(k, vm, virtual, physical)
    requires virtual < TWO32 && Aligned(virtual) && Aligned(physical)
    ensures var d := DirectoryIndex(virtual / PAGE_SIZE);
      var (frames, mem, ok) := WithTable(k, vm.frames, vm.mem, d);
      && FindVia(k, vm.frames, vm.mem, d) == (if ok then Table(frames, mem, TableFrame(k, mem, d)) else NoTable)
      && (ok ==> Identity(k, mem, TableFrame(k, mem, d)))
  {
    hide Walk, HoldsTables, TablesReachable, Coherent, WithTable, FindVia, FirstFree, TableFrame, TablesApart;
    var d := DirectoryIndex(virtual / PAGE_SIZE);
    TablesAtHand(k, vm.mem, d);
    if HasTable(k, vm.mem, d) {
      FindExisting(k, vm.frames, vm.mem, d);
    } else {
      FindNew(k, vm, d);
      WithTableEffect(k, vm.frames, vm.mem, d);
      AllocEffect(vm.frames);
    }
  }

  lemma FindExisting(k: Image, frames: Frames, mem: Memory, d: nat)
    requires HasTable(k, mem, d) && Identity(k, mem, k.directory)
    ensures FindVia(k, frames, mem, d) == Table(frames, mem, TableFrame(k, mem, d))
    ensures WithTable(k, frames, mem, d) == (frames, mem, true)
  {
    hide Walk, FirstFree, ClearVia;
  }

  lemma FindNew(k: Image, vm: Vm, d: nat)
    requires Inv(k, vm) && !HasTable(k, vm.mem, d) && Identity(k, vm.mem, k.directory)
    requires vm.frames.free == 0 || Identity(k, vm.mem, FirstFree(vm.frames.used, LOW_PAGES))
    ensures var (frames, mem, ok) := WithTable(k, vm.frames, vm.mem, d);
      FindVia(k, vm.frames, vm.mem, d) ==
        if ok then Table(frames, mem, FirstFree(vm.frames.used, LOW_PAGES)) else NoTable
  {
    hide Walk, Coherent, FirstFree, ClearVia, TablesApart, TableEntry;
    AllocEffect(vm.frames);
    if Alloc(vm.frames).1 != 0 {
      TakenCleared(k, vm, FirstFree(vm.frames.used, LOW_PAGES));
    }
  }

  /** Clearing an unused frame that is mapped to itself. */
  lemma TakenCleared(k: Image, vm: Vm, t: nat)
    requires Inv(k, vm) && Identity(k, vm.mem, k.directory) && Identity(k, vm.mem, t)
    requires t !in vm.frames.used && t < PAGE_COUNT
    ensures ClearVia(k, vm.mem, t, 0) == Clear(vm.mem[t := Zeros(ENTRIES)])
    ensures Identity(k, vm.mem[t := Zeros(ENTRIES)], k.directory)
  {
    hide Walk, HoldsTables, Coherent, TablesApart;
    UnusedHoldsNothing(k, vm, t);
    ClearEffect(k, vm.mem, t);
    OtherRow(k, vm.mem, t, Zeros(ENTRIES), k.directory);
  }

  lemma UnusedHoldsNothing(k: Image, vm: Vm, f: nat)
    requires Inv(k, vm) && f !in vm.frames.used
    ensures !HoldsTables(k, vm.mem, f)
  {
    hide Walk, Coherent, Counted;
    assert forall p :: 0 <= p < RESERVED_PAGES ==> p in Pages(0, RESERVED_PAGES);
  }

  /**
   `paging_map`, reaching its tables by their addresses, does what it does on memory at hand if the
   tables and the frame about to become one are mapped to themselves.
   */
  lemma MapRefines(k: Image, vm: Vm, virtual: nat, physical: nat, flags: nat, fills: set<nat>)
    requires Inv(k, vm) && TablesReachable(k, vm.mem) && SafeMap(k, vm, virtual, physical)
    requires virtual < TWO32 && physical < TWO32
    ensures var (vm', result) := MapPage(k, vm, virtual, physical, flags, fills);
      MapVia(k, vm, virtual, physical, flags, fills) == Done(vm', result)
  {
    hide Walk, WithTable, FindVia, EnterVia, Filled, TablesReachable, SafeMap, Coherent, HoldsTables, TablesApart, Good,
         TableFlags, WellFormed, TableFrame, HasTable, Store, Identity;
    if !Aligned(virtual) || !Aligned(physical) { return; }
    var page := virtual / PAGE_SIZE;
    var d := DirectoryIndex(page);
    FindRefines(k, vm, virtual, physical);
    WithTableEffect(k, vm.frames, vm.mem, d);
    var (frames, mem, ok) := WithTable(k, vm.frames, vm.mem, d);
    if ok {
      var entry := physical / PAGE_SIZE * PAGE_SIZE + flags % PAGE_SIZE;
      EnterRefines(k, vm.(frames := frames, mem := mem), page, entry, fills);
    }
  }

  /** The second half, in a table that is in reach. */
  lemma EnterRefines(k: Image, vm: Vm, page: nat, entry: nat, fills: set<nat>)
    requires WellFormed(k, vm.mem) && TablesApart(k, vm.frames, vm.mem) && page < VIRTUAL_PAGES
    requires HasTable(k, vm.mem, DirectoryIndex(page))
    requires Identity(k, vm.mem, TableFrame(k, vm.mem, DirectoryIndex(page)))
    ensures var t, i := TableFrame(k, vm.mem, DirectoryIndex(page)), TableIndex(page);
      EnterVia(k, vm, t, page, entry, fills) ==
        if IsPresent(Word(vm.mem, t, i)) then Done(vm, -3) else
        var mem' := Store(vm.mem, t, i, Or(entry, PRESENT));
        Done(vm.(mem := mem', tlb := Filled(k, mem', vm.tlb, fills) - {page}), 0)
  {
    hide Walk, Filled, TablesApart, Store;
    var t, i := TableFrame(k, vm.mem, DirectoryIndex(page)), TableIndex(page);
    if !IsPresent(Word(vm.mem, t, i)) {
      AbsentPage(k, vm.mem, page);
      StoreEntry(k, vm.frames, vm.mem, page, entry);
      StoreTwice(vm.mem, t, i, entry, Or(entry, PRESENT));
    }
  }

  lemma AbsentPage(k: Image, mem: Memory, page: nat)
    requires !IsPresent(Word(mem, TableFrame(k, mem, DirectoryIndex(page)), TableIndex(page)))
    ensures Walk(k, mem, page).Unmapped?
  {
  }

  lemma StoreTwice(mem: Memory, frame: nat, index: nat, w: nat, w': nat)
    ensures Store(Store(mem, frame, index, w), frame, index, w') == Store(mem, frame, index, w')
    ensures frame in mem && index < |mem[frame]| ==> Word(Store(mem, frame, index, w), frame, index) == w
  {
    if frame in mem && index < |mem[frame]| {
      assert Updated(Updated(mem[frame], index, w), index, w') == Updated(mem[frame], index, w');
    }
  }

  /** `paging_unmap` likewise. */
  lemma UnmapRefines(k: Image, vm: Vm, virtual: nat, fills: set<nat>)
    requires Inv(k, vm) && TablesReachable(k, vm.mem) && virtual < TWO32
    ensures var (vm', result) := UnmapPage(k, vm, virtual, fills);
      UnmapVia(k, vm, virtual, fills) == Done(vm', result)
  {
    hide Walk, Filled, TablesReachable, Coherent;
    TablesAtHand(k, vm.mem, DirectoryIndex(virtual / PAGE_SIZE));
  }

  // ----- When they are not -----

  /** Storing zero only takes translations away. */
  lemma ZeroOnlyUnmaps(k: Image, mem: Memory, f: nat, i: nat, page: nat)
    ensures var after := Walk(k, Store(mem, f, i, 0), page);
      after == Walk(k, mem, page) || after.Unmapped?
  {
  }

  /** Words are as they were or zero, and translations as they were or gone. */
  ghost predicate OnlyLess(k: Image, mem: Memory, mem': Memory) {
    && AllFrames(mem')
    && (forall q :: Walk(k, mem', q) == Walk(k, mem, q) || Walk(k, mem', q).Unmapped?)
    && (forall g, j :: Word(mem', g, j) == Word(mem, g, j) || Word(mem', g, j) == 0)
  }

  /**
   Clearing through a page either faults or leaves zero all over the frame behind it; translations
   and tables are only taken away.
   */
  lemma {:induction false} ClearOnlyUnmaps(k: Image, mem: Memory, page: nat, i: nat)
    requires Walk(k, mem, page).Mapped? && AllFrames(mem)
    ensures var c := ClearVia(k, mem, page, i);
      c.Clear? ==>
        && OnlyLess(k, mem, c.mem)
        && (forall j :: i <= j < ENTRIES ==> Word(c.mem, Behind(k, mem, page), j) == 0)
    decreases ENTRIES - i
  {
    if i < ENTRIES {
      var f := Behind(k, mem, page);
      var mem' := Store(mem, f, i, 0);
      forall q ensures Walk(k, mem', q) == Walk(k, mem, q) || Walk(k, mem', q).Unmapped? {
        ZeroOnlyUnmaps(k, mem, f, i, q);
      }
      if Walk(k, mem', page).Mapped? {
        ClearOnlyUnmaps(k, mem', page, i + 1);
      }
    }
  }

  /** Slot `d` has its table in frame `t`, which the kernel cannot get at. */
  predicate Astray(k: Image, mem: Memory, d: nat, t: nat) {
    d < ENTRIES && HasTable(k, mem, d) && TableFrame(k, mem, d) == t && !Identity(k, mem, t)
  }

  /** What page `t` leads to is neither the directory nor the table that translates `t`. */
  predicate Aside(k: Image, mem: Memory, t: nat) {
    Walk(k, mem, t).Mapped? ==>
      Behind(k, mem, t) != k.directory && Behind(k, mem, t) != TableFrame(k, mem, DirectoryIndex(t))
  }

  /** Once the frame that page `t` leads to is cleared, the page leads nowhere or is translated without that frame. */
  lemma ClearedAside(k: Image, mem: Memory, mem': Memory, t: nat)
    requires t < VIRTUAL_PAGES && Walk(k, mem, t).Mapped? && AllFrames(mem) && ClearVia(k, mem, t, 0) == Clear(mem')
    ensures Aside(k, mem', t)
  {
    ClearOnlyUnmaps(k, mem, t, 0);
    IndicesDetermine(t, t);
    var f := Behind(k, mem, t);
    assert Word(mem', f, DirectoryIndex(t)) == 0 && Word(mem', f, TableIndex(t)) == 0;
  }

  /** The directory store leaves the translation of a page of another slot. */
  lemma OtherSlot(k: Image, mem: Memory, d: nat, word: nat, page: nat)
    requires page < VIRTUAL_PAGES && DirectoryIndex(page) != d
    requires HasTable(k, mem, DirectoryIndex(page)) ==> TableFrame(k, mem, DirectoryIndex(page)) != k.directory
    ensures var mem' := Store(mem, k.directory, d, word);
      && Walk(k, mem', page) == Walk(k, mem, page)
      && TableFrame(k, mem', DirectoryIndex(page)) == TableFrame(k, mem, DirectoryIndex(page))
  {
  }

  lemma ClearUnmapped(k: Image, mem: Memory, page: nat)
    requires Walk(k, mem, page).Unmapped?
    ensures ClearVia(k, mem, page, 0) == ClearFault
  {
  }

  /** Entering the table in the directory leaves it astray. */
  lemma EnteredAstray(k: Image, vm: Vm, mem': Memory, d: nat, t: nat)
    requires Inv(k, vm) && OnlyLess(k, vm.mem, mem') && Aside(k, mem', t)
    requires Walk(k, vm.mem, t).Mapped? && !Identity(k, vm.mem, t)
    requires d < ENTRIES && t < PAGE_COUNT && !HasTable(k, vm.mem, d)
    ensures var mem'' := Store(mem', k.directory, d, TableEntry(t * PAGE_SIZE));
      Astray(k, mem'', d, t) && Aside(k, mem'', t)
  {
    hide Walk, Coherent, TablesApart, Good;
    MappedHasTable(k, vm.mem, t);
    TableKept(k, vm.frames, vm.mem, mem', DirectoryIndex(t));
    OtherSlot(k, mem', d, TableEntry(t * PAGE_SIZE), t);
    TableEntryMeaning(t);
  }

  /** What page `t` leads to, if anything, is all zero. */
  ghost predicate Blank(k: Image, mem: Memory, t: nat) {
    Walk(k, mem, t).Mapped? ==> forall j :: 0 <= j < ENTRIES ==> Word(mem, Behind(k, mem, t), j) == 0
  }

  lemma ClearedBlank(k: Image, mem: Memory, mem': Memory, t: nat)
    requires Walk(k, mem, t).Mapped? && AllFrames(mem) && ClearVia(k, mem, t, 0) == Clear(mem')
    ensures Blank(k, mem', t)
  {
    hide Walk;
    ClearOnlyUnmaps(k, mem, t, 0);
  }

  /** Entering the table in the directory does not touch it. */
  lemma EnteredBlank(k: Image, vm: Vm, mem': Memory, d: nat, t: nat)
    requires Inv(k, vm) && OnlyLess(k, vm.mem, mem') && Aside(k, mem', t) && Blank(k, mem', t)
    requires Walk(k, vm.mem, t).Mapped? && d < ENTRIES && t < PAGE_COUNT && !HasTable(k, vm.mem, d)
    ensures Blank(k, Store(mem', k.directory, d, TableEntry(t * PAGE_SIZE)), t)
  {
    hide Walk, Coherent, TablesApart, Good;
    MappedHasTable(k, vm.mem, t);
    TableKept(k, vm.frames, vm.mem, mem', DirectoryIndex(t));
    OtherSlot(k, mem', d, TableEntry(t * PAGE_SIZE), t);
    if Walk(k, mem', t).Mapped? {
      OtherFrame(mem', k.directory, d, TableEntry(t * PAGE_SIZE), Behind(k, mem', t));
    }
  }

  lemma OtherFrame(mem: Memory, f: nat, i: nat, word: nat, g: nat)
    requires f != g
    ensures forall j :: Word(Store(mem, f, i, word), g, j) == Word(mem, g, j)
  {
  }

  lemma FindAstray(k: Image, vm: Vm, d: nat)
    requires Inv(k, vm) && TablesReachable(k, vm.mem) && d < ENTRIES && !HasTable(k, vm.mem, d) && vm.frames.free != 0
    requires !Identity(k, vm.mem, FirstFree(vm.frames.used, LOW_PAGES))
    ensures var t := FirstFree(vm.frames.used, LOW_PAGES);
      var r := FindVia(k, vm.frames, vm.mem, d);
      && (Walk(k, vm.mem, t).Unmapped? ==> r.FindFault?) && !r.NoTable?
      && (r.Table? ==> r.table == t && Astray(k, r.mem, d, t) && Aside(k, r.mem, t) && Blank(k, r.mem, t))
  {
    hide Walk, HoldsTables, TablesReachable, Coherent, FirstFree, ClearVia, Aside, Astray, Blank, TablesApart;
    var mem, t := vm.mem, FirstFree(vm.frames.used, LOW_PAGES);
    TablesAtHand(k, mem, d);
    AllocEffect(vm.frames);
    if Walk(k, mem, t).Unmapped? {
      ClearUnmapped(k, mem, t);
    } else {
      ClearOnlyUnmaps(k, mem, t, 0);
      var c := ClearVia(k, mem, t, 0);
      if c.Clear? {
        ClearedAside(k, mem, c.mem, t);
        EnteredAstray(k, vm, c.mem, d, t);
        ClearedBlank(k, mem, c.mem, t);
        EnteredBlank(k, vm, c.mem, d, t);
      }
    }
  }

  lemma MappedHasTable(k: Image, mem: Memory, page: nat)
    requires Walk(k, mem, page).Mapped? && page < VIRTUAL_PAGES
    ensures HasTable(k, mem, DirectoryIndex(page)) && DirectoryIndex(page) < ENTRIES
  {
    IndicesDetermine(page, page);
  }

  /** A directory word that was kept or zeroed still does not name the directory. */
  lemma TableKept(k: Image, frames: Frames, mem: Memory, mem': Memory, e: nat)
    requires WellFormed(k, mem) && TablesApart(k, frames, mem) && e < ENTRIES
    requires Word(mem', k.directory, e) == Word(mem, k.directory, e) || Word(mem', k.directory, e) == 0
    ensures HasTable(k, mem', e) ==> TableFrame(k, mem', e) != k.directory
  {
    if HasTable(k, mem', e) {
      TableNotDirectory(k, frames, mem, e);
    }
  }

  /** Storing beside the translation of `t` changes neither it nor the directory. */
  lemma StoreAside(k: Image, mem: Memory, d: nat, t: nat, i: nat, word: nat)
    requires Walk(k, mem, t).Mapped? && Astray(k, mem, d, t) && Aside(k, mem, t)
    ensures var mem' := Store(mem, Behind(k, mem, t), i, word);
      Walk(k, mem', t) == Walk(k, mem, t) && Astray(k, mem', d, t) && Aside(k, mem', t)
  {
  }

  lemma EnterAstray(k: Image, vm: Vm, d: nat, t: nat, page: nat, entry: nat, fills: set<nat>)
    requires Astray(k, vm.mem, d, t) && Aside(k, vm.mem, t) && Blank(k, vm.mem, t) && page < VIRTUAL_PAGES
    ensures var r := EnterVia(k, vm, t, page, entry, fills);
      r.Done? ==> r.result == 0 && Astray(k, r.vm.mem, d, t)
  {
    hide Walk, Astray, Aside, Filled;
    if Walk(k, vm.mem, t).Unmapped? { return; }
    IndicesDetermine(page, page);
    var i := TableIndex(page);
    StoreAside(k, vm.mem, d, t, i, entry);
    var mem := Store(vm.mem, Behind(k, vm.mem, t), i, entry);
    StoreAside(k, mem, d, t, i, Or(Word(mem, Behind(k, mem, t), i), PRESENT));
  }

  lemma AstrayUnreachable(k: Image, mem: Memory, d: nat, t: nat)
    requires Astray(k, mem, d, t)
    ensures !TablesReachable(k, mem)
  {
    assert HoldsTables(k, mem, t);
  }

  /**
   Otherwise `paging_map` faults, or returns 0 and leaves a table that the kernel cannot reach; it
   always faults if the frame about to become a table is not mapped at all.
   */
  lemma UnsafeMapFails(k: Image, vm: Vm, virtual: nat, physical: nat, flags: nat, fills: set<nat>)
    requires Inv(k, vm) && TablesReachable(k, vm.mem) && !SafeMap(k, vm, virtual, physical)
    requires virtual < TWO32 && physical < TWO32
    ensures var r := MapVia(k, vm, virtual, physical, flags, fills);
      && (r.Done? ==> r.result == 0 && !TablesReachable(k, r.vm.mem))
      && (Walk(k, vm.mem, FirstFree(vm.frames.used, LOW_PAGES)).Unmapped? ==> r.Fault?)
  {
    hide Walk, FindVia, EnterVia, Astray, Aside, Blank, HoldsTables, TablesReachable, Coherent;
    var page := virtual / PAGE_SIZE;
    var d := DirectoryIndex(page);
    FindAstray(k, vm, d);
    var found := FindVia(k, vm.frames, vm.mem, d);
    if found.Table? {
      var entry := physical / PAGE_SIZE * PAGE_SIZE + flags % PAGE_SIZE;
      var next := vm.(frames := found.frames, mem := found.mem);
      EnterAstray(k, next, d, found.table, page, entry, fills);
      var r := EnterVia(k, next, found.table, page, entry, fills);
      if r.Done? {
        AstrayUnreachable(k, r.vm.mem, d, found.table);
      }
    }
  }

  // ----- Exactly when the tables stay in reach -----

  /** A new table mapped to itself is in reach, and so are the others. */
  lemma ReachableWithTable(k: Image, vm: Vm, virtual: nat, physical: nat)
    requires Inv(k, vm) && TablesReachable(k, vm.mem) && SafeMap(k, vm, virtual, physical)
    requires virtual < TWO32 && Aligned(virtual) && Aligned(physical)
    ensures TablesReachable(k, WithTable(k, vm.frames, vm.mem, DirectoryIndex(virtual / PAGE_SIZE)).1)
  {
    hide Walk, WithTable, SafeMap, Coherent, HoldsTables, FindVia, HasTable, TableFrame, TablesApart, WellFormed, Good;
    var d := DirectoryIndex(virtual / PAGE_SIZE);
    FindRefines(k, vm, virtual, physical);
    WithTableEffect(k, vm.frames, vm.mem, d);
    var (frames, mem, ok) := WithTable(k, vm.frames, vm.mem, d);
    if !ok { return; }
    forall f | HoldsTables(k, mem, f) ensures Identity(k, mem, f) {
      OneMoreTable(k, vm.mem, mem, d, f);
      TableInMemory(k, mem, f);
      assert Walk(k, mem, f) == Walk(k, vm.mem, f);
    }
  }

  /** A new translation hides no table. */
  lemma ReachableWithEntry(k: Image, frames: Frames, mem: Memory, page: nat, entry: nat)
    requires WellFormed(k, mem) && TablesApart(k, frames, mem) && TablesReachable(k, mem) && page < VIRTUAL_PAGES
    requires HasTable(k, mem, DirectoryIndex(page)) && Walk(k, mem, page).Unmapped?
    ensures TablesReachable(k, Store(mem, TableFrame(k, mem, DirectoryIndex(page)), TableIndex(page), entry))
  {
    hide Walk, HoldsTables, HasTable, TableFrame, Store;
    StoreEntry(k, frames, mem, page, entry);
    var mem' := Store(mem, TableFrame(k, mem, DirectoryIndex(page)), TableIndex(page), entry);
    SameDirectory(k, frames, mem, mem');
    forall f | HoldsTables(k, mem', f) ensures Identity(k, mem', f) {
      SameTables(k, mem, mem', f);
      TableInMemory(k, mem, f);
    }
  }

  lemma ReachableAfterMap(k: Image, vm: Vm, virtual: nat, physical: nat, flags: nat, fills: set<nat>)
    requires Inv(k, vm) && TablesReachable(k, vm.mem) && SafeMap(k, vm, virtual, physical)
    requires virtual < TWO32 && physical < TWO32 && Fills(fills)
    ensures TablesReachable(k, MapPage(k, vm, virtual, physical, flags, fills).0.mem)
  {
    hide Walk, WithTable, Filled, SafeMap, Coherent, TablesReachable, NewEntry, HasTable, TableFrame, Store;
    if !Aligned(virtual) || !Aligned(physical) { return; }
    var page := virtual / PAGE_SIZE;
    var d := DirectoryIndex(page);
    ReachableWithTable(k, vm, virtual, physical);
    WithTableEffect(k, vm.frames, vm.mem, d);
    var (frames, mem, ok) := WithTable(k, vm.frames, vm.mem, d);
    if !ok || IsPresent(Word(mem, TableFrame(k, mem, d), TableIndex(page))) { return; }
    AbsentPage(k, mem, page);
    ReachableWithEntry(k, frames, mem, page, NewEntry(physical, flags));
  }

  /** The frames that hold tables once slot `d` has one. */
  lemma OneMoreTable(k: Image, mem: Memory, mem': Memory, d: nat, f: nat)
    requires forall e :: 0 <= e < ENTRIES && HasTable(k, mem, e) ==>
               HasTable(k, mem', e) && TableFrame(k, mem', e) == TableFrame(k, mem, e)
    requires forall e :: 0 <= e < ENTRIES && HasTable(k, mem', e) ==> HasTable(k, mem, e) || e == d
    requires HoldsTables(k, mem', f)
    ensures HoldsTables(k, mem, f) || (HasTable(k, mem', d) && f == TableFrame(k, mem', d))
  {
    hide HasTable, TableFrame;
    if f != k.directory {
      var e :| 0 <= e < ENTRIES && HasTable(k, mem', e) && TableFrame(k, mem', e) == f;
    }
  }

  lemma SameTables(k: Image, mem: Memory, mem': Memory, f: nat)
    requires forall d :: 0 <= d < ENTRIES ==>
               HasTable(k, mem', d) == HasTable(k, mem, d) && TableFrame(k, mem', d) == TableFrame(k, mem, d)
    ensures HoldsTables(k, mem', f) <==> HoldsTables(k, mem, f)
  {
    hide HasTable, TableFrame;
  }

  lemma TableInMemory(k: Image, mem: Memory, f: nat)
    requires WellFormed(k, mem) && HoldsTables(k, mem, f)
    ensures f < PAGE_COUNT
  {
  }

  /**
   `paging_map` returns with every table in reach if and only if the call is safe.  The "only if" takes
   it that every access of the call walks the tables: clearing a table drops no cached translation.
   */
  lemma MapReachableExactly(k: Image, vm: Vm, virtual: nat, physical: nat, flags: nat, fills: set<nat>)
    requires Inv(k, vm) && TablesReachable(k, vm.mem) && virtual < TWO32 && physical < TWO32 && Fills(fills)
    ensures var r := MapVia(k, vm, virtual, physical, flags, fills);
      r.Done? && TablesReachable(k, r.vm.mem) <==> SafeMap(k, vm, virtual, physical)
  {
    hide MapVia, MapPage, SafeMap, Inv, TablesReachable;
    if SafeMap(k, vm, virtual, physical) {
      MapRefines(k, vm, virtual, physical, flags, fills);
      ReachableAfterMap(k, vm, virtual, physical, flags, fills);
    } else {
      UnsafeMapFails(k, vm, virtual, physical, flags, fills);
    }
  }

  // ----- Results -----

  /**
   What `paging_map` returns, if it returns, safe or not: each result exactly when; and it returns
   nonzero if and only if it changed nothing, neither tables nor bitmap nor TLB.  Frames outside
   memory read as 0 here; for other hardware the page of a new table must lead to a frame of memory.
   */
  lemma MapResultExactly(k: Image, vm: Vm, virtual: nat, physical: nat, flags: nat, fills: set<nat>)
    requires Inv(k, vm) && TablesReachable(k, vm.mem)
    requires virtual < TWO32 && physical < TWO32 && Fills(fills)
    ensures var r := MapVia(k, vm, virtual, physical, flags, fills);
      var page := virtual / PAGE_SIZE;
      r.Done? ==>
        && r.result in {0, -1, -2, -3}
        && (r.result == -1 <==> !(Aligned(virtual) && Aligned(physical)))
        && (Aligned(virtual) && Aligned(physical) ==>
            && (r.result == -3 <==> page in Flat(k, vm.mem))
            && (r.result == -2 <==> !HasTable(k, vm.mem, DirectoryIndex(page)) && vm.frames.free == 0))
        && (r.result != 0 <==> r.vm == vm)
  {
    hide MapVia, Inv, TablesReachable, Flat, Walk, HasTable, HoldsTables;
    var page := virtual / PAGE_SIZE;
    if SafeMap(k, vm, virtual, physical) {
      MapRefines(k, vm, virtual, physical, flags, fills);
      MapEffect(k, vm, virtual, physical, flags, fills);
      MapResultRange(k, vm, virtual, physical, flags, fills);
    } else {
      UnsafeMapFails(k, vm, virtual, physical, flags, fills);
      NoTableNoPage(k, vm.mem, page);
    }
  }

  lemma MapResultRange(k: Image, vm: Vm, virtual: nat, physical: nat, flags: nat, fills: set<nat>)
    ensures MapPage(k, vm, virtual, physical, flags, fills).1 in {0, -1, -2, -3}
  {
    hide WithTable, Filled;
  }

  lemma NoTableNoPage(k: Image, mem: Memory, page: nat)
    requires !HasTable(k, mem, DirectoryIndex(page))
    ensures page !in Flat(k, mem)
  {
  }

  /** `paging_unmap` likewise; it never faults here. */
  lemma UnmapResultExactly(k: Image, vm: Vm, virtual: nat, fills: set<nat>)
    requires Inv(k, vm) && TablesReachable(k, vm.mem) && virtual < TWO32 && Fills(fills)
    ensures var r := UnmapVia(k, vm, virtual, fills);
      var page := virtual / PAGE_SIZE;
      && r.Done? && r.result in {0, -1, -2, -3}
      && (r.result == -1 <==> !Aligned(virtual))
      && (r.result == -2 <==> Aligned(virtual) && !HasTable(k, vm.mem, DirectoryIndex(page)))
      && (r.result == 0 <==> Aligned(virtual) && page in Flat(k, vm.mem))
      && (r.result != 0 <==> r.vm == vm)
  {
    hide UnmapVia, Inv, TablesReachable, Flat, Walk, HasTable, HoldsTables, Filled;
    UnmapRefines(k, vm, virtual, fills);
    UnmapEffect(k, vm, virtual, fills);
  }

  /** `paging_unmap` never faults here, and keeps every table in reach if and only if the page holds none. */
  lemma UnmapReachableExactly(k: Image, vm: Vm, virtual: nat, fills: set<nat>)
    requires Inv(k, vm) && TablesReachable(k, vm.mem) && virtual < TWO32 && Fills(fills)
    ensures var r := UnmapVia(k, vm, virtual, fills);
      r.Done? && (TablesReachable(k, r.vm.mem) <==> SafeUnmap(k, vm, virtual))
  {
    hide Walk, UnmapVia, UnmapPage, HoldsTables, Coherent;
    UnmapRefines(k, vm, virtual, fills);
    UnmapEffect(k, vm, virtual, fills);
    var vm' := UnmapPage(k, vm, virtual, fills).0;
    SameDirectory(k, vm.frames, vm.mem, vm'.mem);
    forall f ensures HoldsTables(k, vm'.mem, f) <==> HoldsTables(k, vm.mem, f) {
      SameTables(k, vm.mem, vm'.mem, f);
    }
    forall f: nat | HoldsTables(k, vm.mem, f) ensures f < PAGE_COUNT {
      TableInMemory(k, vm.mem, f);
    }
    FlatIsWalk(k, vm.mem);
    FlatIsWalk(k, vm'.mem);
  }

  lemma FlatIsWalk(k: Image, mem: Memory)
    ensures forall q :: 0 <= q < VIRTUAL_PAGES ==>
              (q in Flat(k, mem) <==> Walk(k, mem, q).Mapped?) &&
              (q in Flat(k, mem) ==> Walk(k, mem, q) == Mapped(Flat(k, mem)[q]))
  {
    hide Walk;
  }
}
