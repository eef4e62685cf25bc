/**
 Whole runs of the memory system: clients allocating, freeing and writing frames, mapping and
 unmapping pages, and a TLB that loads and drops translations whenever it likes.
 */
module AddressSpace {
  import opened Physical
  import opened Paging
  import opened TableAccess

  /** `owned` are the frames clients got from `physical_alloc_page` and have not freed. */
  datatype World = World(vm: Vm, owned: set<nat>)

  ghost predicate TablesNotOwned(k: Image, w: World) {
    forall d :: 0 <= d < ENTRIES && HasTable(k, w.vm.mem, d) ==> TableFrame(k, w.vm.mem, d) !in w.owned
  }

  ghost predicate Sound(k: Image, w: World) {
    && Paging.Inv(k, w.vm) && w.owned <= w.vm.frames.used
    && (forall f :: f in w.owned ==> RESERVED_PAGES <= f < PAGE_COUNT)
    && TablesNotOwned(k, w)
  }

  datatype Step =
    | AllocStep
    | FreeStep(frame: nat)
    | WriteStep(frame: nat, words: seq<nat>)
    | MapStep(virtual: nat, physical: nat, flags: nat, fills: set<nat>)
    | UnmapStep(virtual: nat, fills: set<nat>)
    | FillStep(pages: set<nat>)
    | EvictStep(page: nat)

  /** Clients free and write only frames they own. */
  ghost predicate Allowed(w: World, step: Step) {
    match step
    case AllocStep => true
    case FreeStep(frame) => frame in w.owned
    case WriteStep(frame, words) => frame in w.owned && |words| == ENTRIES
    case MapStep(virtual, physical, _, fills) => virtual < TWO32 && physical < TWO32 && Fills(fills)
    case UnmapStep(virtual, fills) => virtual < TWO32 && Fills(fills)
    case FillStep(pages) => Fills(pages)
    case EvictStep(_) => true
  }

  datatype Status = Faulted | Running(world: World)

  /** A step of the code. */
  ghost function Next(k: Image, w: World, step: Step): Status {
    match step
    case MapStep(virtual, physical, flags, fills) =>
      AfterCall(w, MapVia(k, w.vm, virtual, physical, flags, fills))
    case UnmapStep(virtual, fills) => AfterCall(w, UnmapVia(k, w.vm, virtual, fills))
    case _ => Running(Ideal(k, w, step))
  }

  ghost function AfterCall(w: World, r: Outcome): Status {
    if r.Fault? then Faulted else Running(w.(vm := r.vm))
  }

  /** A step as it should be, with every table at hand. */
  ghost function Ideal(k: Image, w: World, step: Step): World {
    var vm := w.vm;
    match step
    case AllocStep =>
      var (frames, address) := Alloc(vm.frames);
      World(vm.(frames := frames), if address == 0 then w.owned else w.owned + {address / PAGE_SIZE})
    case FreeStep(frame) =>
      World(vm.(frames := Release(vm.frames, frame * PAGE_SIZE)), w.owned - {frame})
    case WriteStep(frame, words) => w.(vm := vm.(mem := vm.mem[frame := words]))
    case MapStep(virtual, physical, flags, fills) => w.(vm := MapPage(k, vm, virtual, physical, flags, fills).0)
    case UnmapStep(virtual, fills) => w.(vm := UnmapPage(k, vm, virtual, fills).0)
    case FillStep(pages) => w.(vm := vm.(tlb := Filled(k, vm.mem, vm.tlb, pages)))
    case EvictStep(page) => w.(vm := vm.(tlb := vm.tlb - {page}))
  }

  /**
   What a step should do to a flat address space: map adds the page, if it is not there and there is
   or can be a table for it; unmap removes one.
   */
  ghost function FlatStep(k: Image, w: World, flat: map<nat, nat>, step: Step): map<nat, nat> {
    match step
    case MapStep(virtual, physical, flags, _) =>
      var page := virtual / PAGE_SIZE;
      if Aligned(virtual) && Aligned(physical) && page !in flat &&
         (HasTable(k, w.vm.mem, DirectoryIndex(page)) || w.vm.frames.free != 0)
      then flat[page := NewEntry(physical, flags)] else flat
    case UnmapStep(virtual, _) => if Aligned(virtual) then flat - {virtual / PAGE_SIZE} else flat
    case _ => flat
  }

  /** Tables once installed stay where they are. */
  ghost predicate TablesStay(k: Image, mem: Memory, mem': Memory) {
    forall d :: 0 <= d < ENTRIES && HasTable(k, mem, d) ==>
      HasTable(k, mem', d) && TableFrame(k, mem', d) == TableFrame(k, mem, d)
  }

  // ----- Each step, with every table at hand -----

  /** Allocation hands out a frame that is in nobody's use: no client's, and no table. */
  lemma AllocSound(k: Image, w: World)
    requires Sound(k, w)
    ensures var w' := Ideal(k, w, AllocStep);
      && Sound(k, w') && w'.vm.mem == w.vm.mem && w'.vm.frames == Alloc(w.vm.frames).0
      && w'.owned == (if w.vm.frames.free == 0 then w.owned else w.owned + {Alloc(w.vm.frames).1 / 4096})
      && (forall f :: f in w'.owned && f !in w.owned ==> f !in w.vm.frames.used && !HoldsTables(k, w.vm.mem, f))
  {
    hide Walk, Coherent, Alloc, Counted, HasTable, TableFrame;
    AllocEffect(w.vm.frames);
    var page := Alloc(w.vm.frames).1 / PAGE_SIZE;
    assert forall f :: 0 <= f < RESERVED_PAGES ==> f in Pages(0, RESERVED_PAGES);
  }

  lemma FreeSound(k: Image, w: World, frame: nat)
    requires Sound(k, w) && frame in w.owned
    ensures Sound(k, Ideal(k, w, FreeStep(frame)))
    ensures Ideal(k, w, FreeStep(frame)).vm.frames.used == w.vm.frames.used - {frame}
    ensures Ideal(k, w, FreeStep(frame)).owned == w.owned - {frame}
  {
    var address := frame * PAGE_SIZE;
    assert address / PAGE_SIZE == frame && address % PAGE_SIZE == 0;
    ReleaseEffect(w.vm.frames, address);
    HeapStaysReservedExactly(w.vm.frames, address);
  }

  lemma WriteSound(k: Image, w: World, frame: nat, words: seq<nat>)
    requires Sound(k, w) && frame in w.owned && |words| == ENTRIES
    ensures var w' := Ideal(k, w, WriteStep(frame, words));
      && Sound(k, w') && Flat(k, w'.vm.mem) == Flat(k, w.vm.mem) && TablesStay(k, w.vm.mem, w'.vm.mem)
      && w'.vm.mem[frame] == words
  {
    var mem, mem' := w.vm.mem, w.vm.mem[frame := words];
    SameDirectory(k, w.vm.frames, mem, mem');
    forall q | 0 <= q < VIRTUAL_PAGES ensures Walk(k, mem', q) == Walk(k, mem, q) {
      var d := DirectoryIndex(q);
      assert HasTable(k, mem, d) ==> TableFrame(k, mem, d) != frame;
    }
  }

  lemma MapSound(k: Image, w: World, step: Step)
    requires Sound(k, w) && step.MapStep? && Allowed(w, step)
    ensures var w' := Ideal(k, w, step);
      && Sound(k, w') && TablesStay(k, w.vm.mem, w'.vm.mem)
      && Flat(k, w'.vm.mem) == FlatStep(k, w, Flat(k, w.vm.mem), step)
  {
    hide Walk, Flat;
    var vm := w.vm;
    MapEffect(k, vm, step.virtual, step.physical, step.flags, step.fills);
    MapTables(k, vm, step.virtual, step.physical, step.flags, step.fills);
  }

  /** Which tables there are after `paging_map`: those there were, and at most one new and unused frame. */
  lemma MapTables(k: Image, vm: Vm, virtual: nat, physical: nat, flags: nat, fills: set<nat>)
    requires Paging.Inv(k, vm) && virtual < TWO32 && physical < TWO32
    ensures var vm' := MapPage(k, vm, virtual, physical, flags, fills).0;
      && TablesStay(k, vm.mem, vm'.mem)
      && (forall d :: 0 <= d < ENTRIES && HasTable(k, vm'.mem, d) && !HasTable(k, vm.mem, d) ==>
            var t := TableFrame(k, vm'.mem, d);
            t !in vm.frames.used && vm'.frames.used == vm.frames.used + {t} && Alloc(vm.frames).1 == t * PAGE_SIZE)
      && (MapPage(k, vm, virtual, physical, flags, fills).1 == 0 ==>
            HasTable(k, vm'.mem, DirectoryIndex(virtual / PAGE_SIZE)))
  {
    hide Walk, NewEntry, WithTable, Alloc, Filled, HasTable, TableFrame, Store, Coherent;
    if !Aligned(virtual) || !Aligned(physical) { return; }
    var page := virtual / PAGE_SIZE;
    var slot := DirectoryIndex(page);
    WithTableEffect(k, vm.frames, vm.mem, slot);
    var (frames, mem, ok) := WithTable(k, vm.frames, vm.mem, slot);
    if !ok { return; }
    var entry := NewEntry(physical, flags);
    StoreEntry(k, frames, mem, page, entry);
    var mem' := Store(mem, TableFrame(k, mem, slot), TableIndex(page), entry);
    SameDirectory(k, frames, mem, mem');
    assert TablesStay(k, mem, mem');
  }

  lemma UnmapSound(k: Image, w: World, step: Step)
    requires Sound(k, w) && step.UnmapStep? && Allowed(w, step)
    ensures var w' := Ideal(k, w, step);
      && Sound(k, w') && TablesStay(k, w.vm.mem, w'.vm.mem)
      && Flat(k, w'.vm.mem) == FlatStep(k, w, Flat(k, w.vm.mem), step)
  {
    UnmapEffect(k, w.vm, step.virtual, step.fills);
    var mem' := UnmapPage(k, w.vm, step.virtual, step.fills).0.mem;
    SameDirectory(k, w.vm.frames, w.vm.mem, mem');
    var page := step.virtual / PAGE_SIZE;
    assert page !in Flat(k, w.vm.mem) ==> Flat(k, w.vm.mem) - {page} == Flat(k, w.vm.mem);
  }

  /**
   Every step keeps the world sound: tables distinct, in use and nobody's, the TLB in agreement with
   the tables; and it changes the flat address space only as the flat map says.
   */
  lemma IdealStepSound(k: Image, w: World, step: Step)
    requires Sound(k, w) && Allowed(w, step)
    ensures var w' := Ideal(k, w, step);
      && Sound(k, w') && TablesStay(k, w.vm.mem, w'.vm.mem)
      && Flat(k, w'.vm.mem) == FlatStep(k, w, Flat(k, w.vm.mem), step)
  {
    hide Walk, Flat, MapPage, UnmapPage, Alloc, Release, HasTable, TableFrame;
    match step
    case AllocStep => AllocSound(k, w);
    case FreeStep(frame) => FreeSound(k, w, frame);
    case WriteStep(frame, words) => WriteSound(k, w, frame, words);
    case MapStep(_, _, _, _) => MapSound(k, w, step);
    case UnmapStep(_, _) => UnmapSound(k, w, step);
    case FillStep(_) =>
    case EvictStep(_) =>
  }

  /** A step leaves the contents of every client's frame alone, unless it is that client's write. */
  ghost predicate ClientsKept(w: World, w': World, step: Step) {
    forall f :: f in w.owned && f in w.vm.mem && !(step.WriteStep? && step.frame == f) ==>
      f in w'.vm.mem && w'.vm.mem[f] == w.vm.mem[f]
  }

  lemma IdealKeepsClients(k: Image, w: World, step: Step)
    requires Sound(k, w) && Allowed(w, step)
    ensures ClientsKept(w, Ideal(k, w, step), step)
  {
    hide Walk, Flat, MapPage, UnmapPage, Alloc, Release, HoldsTables, Coherent, HasTable;
    forall f | f in w.owned ensures !HoldsTables(k, w.vm.mem, f) && f in w.vm.frames.used {
      OwnedHoldsNothing(k, w, f);
    }
    match step
    case MapStep(virtual, physical, flags, fills) => MapEffect(k, w.vm, virtual, physical, flags, fills);
    case UnmapStep(virtual, fills) => UnmapEffect(k, w.vm, virtual, fills);
    case _ =>
  }

  // ----- Each step of the code -----

  /**
   What a caller can check before a step: a map that needs a new table finds the lowest unused frame
   mapped to itself, and an unmap is not of a page that holds a table.
   */
  ghost predicate Safe(k: Image, w: World, step: Step) {
    match step
    case MapStep(virtual, physical, _, _) => SafeMap(k, w.vm, virtual, physical)
    case UnmapStep(virtual, _) => SafeUnmap(k, w.vm, virtual)
    case _ => true
  }

  /** A step does not fault and leaves every table in reach if and only if it is safe. */
  lemma StepReachableExactly(k: Image, w: World, step: Step)
    requires Sound(k, w) && Allowed(w, step) && TablesReachable(k, w.vm.mem)
    ensures var r := Next(k, w, step);
      r.Running? && TablesReachable(k, r.world.vm.mem) <==> Safe(k, w, step)
  {
    hide MapVia, UnmapVia, SafeMap, SafeUnmap, TablesReachable;
    match step
    case MapStep(virtual, physical, flags, fills) => MapReachableExactly(k, w.vm, virtual, physical, flags, fills);
    case UnmapStep(virtual, fills) => UnmapReachableExactly(k, w.vm, virtual, fills);
    case WriteStep(frame, words) => WriteKeepsReach(k, w, frame, words);
    case _ =>
  }

  lemma WriteKeepsReach(k: Image, w: World, frame: nat, words: seq<nat>)
    requires Sound(k, w) && frame in w.owned && |words| == ENTRIES && TablesReachable(k, w.vm.mem)
    ensures TablesReachable(k, Ideal(k, w, WriteStep(frame, words)).vm.mem)
  {
    hide Walk, HoldsTables;
    var mem, mem' := w.vm.mem, Ideal(k, w, WriteStep(frame, words)).vm.mem;
    SameDirectory(k, w.vm.frames, mem, mem');
    assert !HoldsTables(k, mem, frame) by { OwnedHoldsNothing(k, w, frame); }
    forall f | HoldsTables(k, mem', f) ensures Identity(k, mem', f) {
      SameTables(k, mem, mem', f);
      TableInMemory(k, mem, f);
      OtherRow(k, mem, frame, words, f);
    }
  }

  lemma OwnedHoldsNothing(k: Image, w: World, frame: nat)
    requires Sound(k, w) && frame in w.owned
    ensures !HoldsTables(k, w.vm.mem, frame)
  {
    hide Walk, Coherent;
  }

  /** The outcome of a call of `paging_map` or `paging_unmap`. */
  ghost function Called(k: Image, vm: Vm, step: Step): Outcome
    requires step.MapStep? || step.UnmapStep?
  {
    match step
    case MapStep(virtual, physical, flags, fills) => MapVia(k, vm, virtual, physical, flags, fills)
    case UnmapStep(virtual, fills) => UnmapVia(k, vm, virtual, fills)
  }

  /** A call, safe or not, leaves the world as it was if and only if it returns nonzero. */
  lemma CallChangesNothingExactly(k: Image, w: World, step: Step)
    requires Sound(k, w) && Allowed(w, step) && TablesReachable(k, w.vm.mem) && (step.MapStep? || step.UnmapStep?)
    ensures var r := Called(k, w.vm, step);
      Next(k, w, step) == Running(w) <==> r.Done? && r.result != 0
  {
    hide MapVia, UnmapVia, TablesReachable, Flat, HasTable;
    match step
    case MapStep(virtual, physical, flags, fills) => MapResultExactly(k, w.vm, virtual, physical, flags, fills);
    case UnmapStep(virtual, fills) => UnmapResultExactly(k, w.vm, virtual, fills);
  }

  /**
   A step that is safe, or an unmap, does what it should: it keeps the tables distinct, in use and
   nobody's, the TLB in agreement with the tables, and the tables in place; and it changes the flat
   address space only as the flat map says.  A safe step keeps the tables in reach as well.
   */
  lemma StepSound(k: Image, w: World, step: Step)
    requires Sound(k, w) && Allowed(w, step) && TablesReachable(k, w.vm.mem) && (step.UnmapStep? || Safe(k, w, step))
    ensures var w' := Ideal(k, w, step);
      && Next(k, w, step) == Running(w') && Sound(k, w') && ClientsKept(w, w', step)
      && (TablesReachable(k, w'.vm.mem) <==> Safe(k, w, step))
      && TablesStay(k, w.vm.mem, w'.vm.mem)
      && Flat(k, w'.vm.mem) == FlatStep(k, w, Flat(k, w.vm.mem), step)
  {
    hide MapVia, UnmapVia, SafeMap, SafeUnmap, TablesReachable, MapPage, UnmapPage, FlatStep, TablesStay, Flat,
         ClientsKept;
    IdealStepSound(k, w, step);
    IdealKeepsClients(k, w, step);
    StepReachableExactly(k, w, step);
    match step
    case MapStep(virtual, physical, flags, fills) => MapRefines(k, w.vm, virtual, physical, flags, fills);
    case UnmapStep(virtual, fills) => UnmapRefines(k, w.vm, virtual, fills);
    case _ =>
  }

  // ----- Runs -----

  ghost predicate AllowedRun(k: Image, w: World, steps: seq<Step>)
    decreases steps
  {
    steps == [] || (Allowed(w, steps[0]) && AllowedRun(k, Ideal(k, w, steps[0]), steps[1..]))
  }

  ghost predicate SafeRun(k: Image, w: World, steps: seq<Step>)
    decreases steps
  {
    steps == [] || (Safe(k, w, steps[0]) && SafeRun(k, Ideal(k, w, steps[0]), steps[1..]))
  }

  /** Where the code is after a run. */
  ghost function Run(k: Image, w: World, steps: seq<Step>): Status
    decreases steps
  {
    if steps == [] then Running(w) else
    match Next(k, w, steps[0])
    case Faulted => Faulted
    case Running(w') => Run(k, w', steps[1..])
  }

  /** The code runs without a fault, with every table in reach in every state. */
  ghost predicate ReachableThroughout(k: Image, w: World, steps: seq<Step>)
    decreases steps
  {
    && TablesReachable(k, w.vm.mem)
    && (steps != [] ==>
        var r := Next(k, w, steps[0]);
        r.Running? && ReachableThroughout(k, r.world, steps[1..]))
  }

  /** Over a run, every table stays in reach if and only if every step is safe. */
  lemma {:induction false} RunReachableExactly(k: Image, w: World, steps: seq<Step>)
    requires Sound(k, w) && AllowedRun(k, w, steps) && TablesReachable(k, w.vm.mem)
    ensures ReachableThroughout(k, w, steps) <==> SafeRun(k, w, steps)
    decreases steps
  {
    hide Next, Ideal, Sound, Safe, Allowed, TablesReachable;
    if steps != [] {
      StepReachableExactly(k, w, steps[0]);
      if Safe(k, w, steps[0]) {
        StepSound(k, w, steps[0]);
        RunReachableExactly(k, Ideal(k, w, steps[0]), steps[1..]);
      } else {
        var r := Next(k, w, steps[0]);
        assert r.Running? ==> !ReachableThroughout(k, r.world, steps[1..]);
      }
    }
  }

  /**
   Over every run of safe steps: the code does not fault, tables are pairwise distinct, never a
   client's and permanent, and the TLB is coherent.
   */
  lemma {:induction false} RunSound(k: Image, w: World, steps: seq<Step>)
    requires Sound(k, w) && AllowedRun(k, w, steps) && TablesReachable(k, w.vm.mem) && SafeRun(k, w, steps)
    ensures var r := Run(k, w, steps);
      r.Running? && Sound(k, r.world) && TablesReachable(k, r.world.vm.mem) && TablesStay(k, w.vm.mem, r.world.vm.mem)
    decreases steps
  {
    hide Next, Ideal, Sound, Safe, Allowed, TablesReachable, FlatStep, Flat;
    if steps != [] {
      StepSound(k, w, steps[0]);
      RunSound(k, Ideal(k, w, steps[0]), steps[1..]);
    }
  }

  /** The flat address space at the end of a run, updated page by page. */
  ghost function FlatRun(k: Image, w: World, flat: map<nat, nat>, steps: seq<Step>): map<nat, nat>
    decreases steps
  {
    if steps == [] then flat
    else FlatRun(k, Ideal(k, w, steps[0]), FlatStep(k, w, flat, steps[0]), steps[1..])
  }

  /** The two levels refine the flat map over every run of safe steps. */
  lemma {:induction false} RunRefinesFlat(k: Image, w: World, steps: seq<Step>)
    requires Sound(k, w) && AllowedRun(k, w, steps) && TablesReachable(k, w.vm.mem) && SafeRun(k, w, steps)
    ensures var r := Run(k, w, steps);
      r.Running? && Flat(k, r.world.vm.mem) == FlatRun(k, w, Flat(k, w.vm.mem), steps)
    decreases steps
  {
    hide Next, Ideal, Sound, Safe, Allowed, TablesReachable, FlatStep, Flat, TablesStay;
    if steps != [] {
      StepSound(k, w, steps[0]);
      RunRefinesFlat(k, Ideal(k, w, steps[0]), steps[1..]);
    }
  }

  /** The client keeps frame `f` and does not write to it. */
  ghost predicate LeftAlone(k: Image, w: World, steps: seq<Step>, f: nat)
    decreases steps
  {
    && f in w.owned
    && (steps != [] ==>
        !(steps[0].WriteStep? && steps[0].frame == f) && LeftAlone(k, Ideal(k, w, steps[0]), steps[1..], f))
  }

  /** Over every run of safe steps a client's frame holds what its owner last wrote to it. */
  lemma {:induction false} RunKeepsClients(k: Image, w: World, steps: seq<Step>, f: nat)
    requires Sound(k, w) && AllowedRun(k, w, steps) && TablesReachable(k, w.vm.mem) && SafeRun(k, w, steps)
    requires LeftAlone(k, w, steps, f) && f in w.vm.mem
    ensures var r := Run(k, w, steps);
      r.Running? && f in r.world.vm.mem && r.world.vm.mem[f] == w.vm.mem[f]
    decreases steps
  {
    hide Next, Ideal, Sound, Safe, Allowed, TablesReachable, FlatStep, Flat, TablesStay;
    if steps != [] {
      StepSound(k, w, steps[0]);
      RunKeepsClients(k, Ideal(k, w, steps[0]), steps[1..], f);
    }
  }

  // ----- A simple sufficient condition -----

  /** The first 4 MiB are mapped to themselves, and all tables lie there. */
  ghost predicate Windowed(k: Image, mem: Memory) {
    && (forall f :: 0 <= f < WINDOW_PAGES ==> Identity(k, mem, f))
    && (forall d :: 0 <= d < ENTRIES && HasTable(k, mem, d) ==> TableFrame(k, mem, d) < WINDOW_PAGES)
  }

  lemma WindowedIsReachable(k: Image, mem: Memory)
    requires GoodImage(k) && Windowed(k, mem)
    ensures TablesReachable(k, mem)
  {
    hide Walk;
  }

  /** Fewer than 512 unreserved frames are in use. */
  ghost predicate Room(w: World) {
    |w.vm.frames.used - Pages(0, RESERVED_PAGES)| < WINDOW_PAGES - RESERVED_PAGES
  }

  /** The step maps only while there is room, and unmaps nothing in the window. */
  ghost predicate Modest(w: World, step: Step) {
    && (step.MapStep? ==> Room(w))
    && (step.UnmapStep? ==> step.virtual >= WINDOW_PAGES * PAGE_SIZE)
  }

  ghost predicate ModestRun(k: Image, w: World, steps: seq<Step>)
    decreases steps
  {
    steps == [] || (Modest(w, steps[0]) && ModestRun(k, Ideal(k, w, steps[0]), steps[1..]))
  }

  lemma ModestIsSafe(k: Image, w: World, step: Step)
    requires Sound(k, w) && Modest(w, step) && Windowed(k, w.vm.mem)
    ensures Safe(k, w, step)
  {
    hide Walk;
    if step.MapStep? {
      AllocInWindow(w.vm.frames);
    }
  }

  lemma IdentityKept(k: Image, mem: Memory, mem': Memory, f: nat)
    requires Identity(k, mem, f) && f < VIRTUAL_PAGES
    requires f in Flat(k, mem) ==> f in Flat(k, mem') && Flat(k, mem')[f] == Flat(k, mem)[f]
    ensures Identity(k, mem', f)
  {
  }

  lemma ModestKeepsWindow(k: Image, w: World, step: Step)
    requires Sound(k, w) && Allowed(w, step) && Modest(w, step) && Windowed(k, w.vm.mem)
    ensures Windowed(k, Ideal(k, w, step).vm.mem)
  {
    hide Walk, Flat, MapPage, UnmapPage, Coherent, Alloc, Sound, Identity;
    IdealStepSound(k, w, step);
    ModestTables(k, w, step);
    var mem, mem' := w.vm.mem, Ideal(k, w, step).vm.mem;
    forall f | 0 <= f < WINDOW_PAGES ensures Identity(k, mem', f) {
      assert Identity(k, mem, f);
      IdentityKept(k, mem, mem', f);
    }
  }

  lemma ModestTables(k: Image, w: World, step: Step)
    requires Sound(k, w) && Allowed(w, step) && Modest(w, step) && Windowed(k, w.vm.mem)
    ensures var mem' := Ideal(k, w, step).vm.mem;
      forall d :: 0 <= d < ENTRIES && HasTable(k, mem', d) ==> TableFrame(k, mem', d) < WINDOW_PAGES
  {
    hide Walk, Flat, MapPage, UnmapPage, Coherent, Alloc;
    var mem, mem' := w.vm.mem, Ideal(k, w, step).vm.mem;
    match step
    case MapStep(virtual, physical, flags, fills) =>
      MapTables(k, w.vm, virtual, physical, flags, fills);
      AllocInWindow(w.vm.frames);
    case UnmapStep(virtual, fills) =>
      UnmapEffect(k, w.vm, virtual, fills);
      SameDirectory(k, w.vm.frames, mem, mem');
    case WriteStep(frame, words) => SameDirectory(k, w.vm.frames, mem, mem');
    case _ =>
  }

  lemma {:induction false} ModestRunIsSafe(k: Image, w: World, steps: seq<Step>)
    requires Sound(k, w) && AllowedRun(k, w, steps) && ModestRun(k, w, steps) && Windowed(k, w.vm.mem)
    ensures SafeRun(k, w, steps)
    decreases steps
  {
    hide Ideal, Sound, Modest, Safe, Allowed, Windowed, FlatStep, Flat, TablesStay;
    if steps != [] {
      IdealStepSound(k, w, steps[0]);
      ModestIsSafe(k, w, steps[0]);
      ModestKeepsWindow(k, w, steps[0]);
      ModestRunIsSafe(k, Ideal(k, w, steps[0]), steps[1..]);
    }
  }

  /**
   In particular, over every run that maps only while fewer than 512 unreserved frames are in use,
   and never unmaps part of the first 4 MiB, the kernel reaches every one of its tables.
   */
  lemma TablesStayReachable(k: Image, w: World, steps: seq<Step>)
    requires Sound(k, w) && AllowedRun(k, w, steps) && ModestRun(k, w, steps) && Windowed(k, w.vm.mem)
    ensures ReachableThroughout(k, w, steps)
  {
    hide Sound, Windowed, TablesReachable;
    assert GoodImage(k) by { SoundImage(k, w); }
    WindowedIsReachable(k, w.vm.mem);
    ModestRunIsSafe(k, w, steps);
    RunReachableExactly(k, w, steps);
  }

  lemma SoundImage(k: Image, w: World)
    requires Sound(k, w)
    ensures GoodImage(k)
  {
  }

  // ----- After paging_init -----

  /** What `paging_init` writes in the first table. */
  function IdentityTable(n: nat): (r: seq<nat>)
    ensures |r| == n && forall i :: 0 <= i < n ==> r[i] == i * PAGE_SIZE + PRESENT + WRITABLE
  {
    if n == 0 then [] else IdentityTable(n - 1) + [(n - 1) * PAGE_SIZE + PRESENT + WRITABLE]
  }

  function InitialDirectory(k: Image): (r: seq<nat>)
    ensures |r| == ENTRIES
  {
    Updated(Zeros(ENTRIES), 0, TableEntry(k.firstTable * PAGE_SIZE))
  }

  /** Memory after `paging_init`, whatever it held before. */
  function InitialMemory(k: Image, mem: Memory): Memory {
    mem[k.directory := InitialDirectory(k)][k.firstTable := IdentityTable(ENTRIES)]
  }

  lemma InitialTables(k: Image, mem: Memory)
    requires GoodImage(k) && AllFrames(mem)
    ensures var mem' := InitialMemory(k, mem);
      && AllFrames(mem') && HasTable(k, mem', 0) && TableFrame(k, mem', 0) == k.firstTable
      && TableFlags(k, mem', 0) == 3 && Word(mem', k.directory, 0) == k.firstTable * 4096 + 3
      && forall d :: 1 <= d < ENTRIES ==> !HasTable(k, mem', d)
  {
    TableEntryMeaning(k.firstTable);
    var mem' := InitialMemory(k, mem);
    assert mem'[k.directory] == InitialDirectory(k);
  }

  lemma InitialWalk(k: Image, mem: Memory, q: nat)
    requires GoodImage(k) && AllFrames(mem) && q < VIRTUAL_PAGES
    ensures Walk(k, InitialMemory(k, mem), q) ==
            if q < WINDOW_PAGES then Mapped(q * PAGE_SIZE + PRESENT + WRITABLE) else Unmapped
    ensures FrameOf(q * PAGE_SIZE + PRESENT + WRITABLE) == q
  {
    hide HasTable, TableFrame;
    InitialTables(k, mem);
    EntryParts(q, PRESENT + WRITABLE);
    assert InitialMemory(k, mem)[k.firstTable] == IdentityTable(ENTRIES);
    assert DirectoryIndex(q) == 0 <==> q < WINDOW_PAGES;
  }

  /** The world once `physical_init` and `paging_init` have run. */
  function InitialWorld(k: Image, mem: Memory): World {
    World(Vm(Frames(Pages(0, RESERVED_PAGES), 15872), InitialMemory(k, mem), map[]), {})
  }

  /** It is sound, and windowed. */
  lemma InitialSound(k: Image, mem: Memory)
    requires GoodImage(k) && AllFrames(mem)
    ensures var w := InitialWorld(k, mem);
      && Sound(k, w) && Room(w) && Windowed(k, w.vm.mem)
      && Flat(k, w.vm.mem).Keys == Pages(0, 1024)
      && (forall q :: 0 <= q < 1024 ==> Flat(k, w.vm.mem)[q] == q * 4096 + 3)
      && Word(w.vm.mem, k.directory, 0) == k.firstTable * 4096 + 3
  {
    hide HasTable, TableFrame, Walk, InitialMemory;
    var used := Pages(0, RESERVED_PAGES);
    PagesCount(0, RESERVED_PAGES);
    assert Pages(0, LOW_PAGES) <= used <= Pages(0, PAGE_COUNT) && used - used == {};
    InitialTables(k, mem);
    forall q | 0 <= q < VIRTUAL_PAGES
      ensures Walk(k, InitialMemory(k, mem), q) ==
        if q < WINDOW_PAGES then Mapped(q * PAGE_SIZE + PRESENT + WRITABLE) else Unmapped
      ensures FrameOf(q * PAGE_SIZE + PRESENT + WRITABLE) == q
    {
      InitialWalk(k, mem, q);
    }
  }

  // ----- Runs that lose a table -----

  /** Unmapping the page of the first table takes away the table itself; the next call for a low page faults. */
  lemma UnmapLosesTable(k: Image, mem: Memory)
    requires GoodImage(k) && AllFrames(mem)
    ensures var w, first, second := InitialWorld(k, mem), UnmapStep(k.firstTable * PAGE_SIZE, {}), UnmapStep(0, {});
      && AllowedRun(k, w, [first, second]) && TablesReachable(k, w.vm.mem) && Run(k, w, [first, second]) == Faulted
  {
    hide Walk, Sound, Windowed, InitialMemory, UnmapPage, Coherent;
    var w, t := InitialWorld(k, mem), k.firstTable;
    var first := UnmapStep(t * PAGE_SIZE, {});
    InitialSound(k, mem);
    WindowedIsReachable(k, w.vm.mem);
    FirstUnmapped(k, mem);
    var w' := Ideal(k, w, first);
    assert Next(k, w', UnmapStep(0, {})) == Faulted;
    assert Run(k, w', [UnmapStep(0, {})]) == Faulted;
    assert [first, UnmapStep(0, {})][1..] == [UnmapStep(0, {})];
  }

  lemma FirstUnmapped(k: Image, mem: Memory)
    requires GoodImage(k) && AllFrames(mem)
    ensures var w, first := InitialWorld(k, mem), UnmapStep(k.firstTable * PAGE_SIZE, {});
      var w' := Ideal(k, w, first);
      && Next(k, w, first) == Running(w') && Identity(k, w'.vm.mem, k.directory)
      && HasTable(k, w'.vm.mem, 0) && TableFrame(k, w'.vm.mem, 0) == k.firstTable
      && Walk(k, w'.vm.mem, k.firstTable).Unmapped?
  {
    hide Walk, InitialMemory, UnmapPage, UnmapVia, Coherent, Flat, OnlyTablesChange, TableFlags, HoldsTables;
    var w, page := InitialWorld(k, mem), k.firstTable;
    InitialSound(k, mem);
    WindowedIsReachable(k, w.vm.mem);
    InitialTables(k, mem);
    assert page * PAGE_SIZE / PAGE_SIZE == page && Aligned(page * PAGE_SIZE);
    UnmapRefines(k, w.vm, page * PAGE_SIZE, {});
    UnmapEffect(k, w.vm, page * PAGE_SIZE, {});
    var mem' := UnmapPage(k, w.vm, page * PAGE_SIZE, {}).0.mem;
    SameDirectory(k, w.vm.frames, w.vm.mem, mem');
    FlatIsWalk(k, w.vm.mem);
    FlatIsWalk(k, mem');
    assert Identity(k, w.vm.mem, page);
    assert page !in Flat(k, mem');
    assert Identity(k, w.vm.mem, k.directory);
    assert Identity(k, mem', k.directory);
    assert Word(mem', k.directory, 0) == Word(w.vm.mem, k.directory, 0);
  }

  function Allocs(n: nat): (r: seq<Step>)
    ensures |r| == n
  {
    if n == 0 then [] else [AllocStep] + Allocs(n - 1)
  }

  /** The initial world once `n` frames have been handed out. */
  function AfterAllocs(k: Image, mem: Memory, n: nat): World
    requires n <= WINDOW_PAGES - RESERVED_PAGES
  {
    World(Vm(Frames(Pages(0, RESERVED_PAGES + n), 15872 - n), InitialMemory(k, mem), map[]),
          Pages(RESERVED_PAGES, RESERVED_PAGES + n))
  }

  lemma OneMoreAlloc(k: Image, mem: Memory, n: nat)
    requires n < WINDOW_PAGES - RESERVED_PAGES
    ensures Next(k, AfterAllocs(k, mem, n), AllocStep) == Running(AfterAllocs(k, mem, n + 1))
    ensures Ideal(k, AfterAllocs(k, mem, n), AllocStep) == AfterAllocs(k, mem, n + 1)
  {
    hide InitialMemory, Pages, FirstFree;
    var t := RESERVED_PAGES + n;
    LowestIs(Pages(0, t), LOW_PAGES, t);
    PagesGrow(0, t);
    PagesGrow(RESERVED_PAGES, t);
  }

  lemma PagesGrow(lo: nat, hi: nat)
    requires lo <= hi
    ensures Pages(lo, hi) + {hi} == Pages(lo, hi + 1)
  {
  }

  lemma {:induction false} LowestIs(used: set<nat>, page: nat, t: nat)
    requires page <= t < PAGE_COUNT && used == Pages(0, t)
    ensures FirstFree(used, page) == t
    decreases t - page
  {
    if page < t {
      LowestIs(used, page + 1, t);
    }
  }

  lemma {:induction false} RunAllocs(k: Image, mem: Memory, n: nat, m: nat, step: Step)
    requires n + m <= WINDOW_PAGES - RESERVED_PAGES && Allowed(AfterAllocs(k, mem, n + m), step)
    ensures var w := AfterAllocs(k, mem, n);
      && AllowedRun(k, w, Allocs(m) + [step])
      && Run(k, w, Allocs(m) + [step]) == Run(k, AfterAllocs(k, mem, n + m), [step])
    decreases m
  {
    hide AfterAllocs, Next, Ideal;
    if m == 0 {
      assert Allocs(0) + [step] == [step];
    } else {
      OneMoreAlloc(k, mem, n);
      RunAllocs(k, mem, n + 1, m - 1, step);
      assert (Allocs(m) + [step])[1..] == Allocs(m - 1) + [step];
    }
  }

  /**
   512 allocations use up the frames below 4 MiB; mapping a page that needs a table then faults, while
   `paging_map` zeroes the frame it has just taken.
   */
  lemma MapFaultsAboveWindow(k: Image, mem: Memory)
    requires GoodImage(k) && AllFrames(mem)
    ensures var steps := Allocs(512) + [MapStep(0x8000_0000, 0, 0, {})];
      AllowedRun(k, InitialWorld(k, mem), steps) && Run(k, InitialWorld(k, mem), steps) == Faulted
  {
    hide InitialMemory, Walk, MapVia, UnmapVia;
    var step := MapStep(0x8000_0000, 0, 0, {});
    assert Pages(RESERVED_PAGES, RESERVED_PAGES) == {};
    assert AfterAllocs(k, mem, 0) == InitialWorld(k, mem);
    RunAllocs(k, mem, 0, 512, step);
    LastMapFaults(k, mem);
  }

  lemma LastMapFaults(k: Image, mem: Memory)
    requires GoodImage(k) && AllFrames(mem)
    ensures MapVia(k, AfterAllocs(k, mem, 512).vm, 0x8000_0000, 0, 0, {}).Fault?
  {
    hide InitialMemory, Walk, Coherent, MapVia, HasTable, TableFrame;
    var vm := AfterAllocs(k, mem, 512).vm;
    InitialSound(k, mem);
    WindowedIsReachable(k, vm.mem);
    InitialTables(k, mem);
    PagesCount(0, WINDOW_PAGES);
    LowestIs(vm.frames.used, LOW_PAGES, WINDOW_PAGES);
    InitialWalk(k, mem, WINDOW_PAGES);
    assert Pages(0, RESERVED_PAGES) <= vm.frames.used <= Pages(0, PAGE_COUNT) && Pages(0, LOW_PAGES) <= vm.frames.used;
    UnsafeMapFails(k, vm, 0x8000_0000, 0, 0, {});
  }
}
