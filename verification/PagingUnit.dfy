/**
 The code of kernel/mm/paging.c over mutable state: physical memory, the page bitmap and the TLB.
 Each method is proved to do what module `TableAccess` says.  A method that returns `fault` has met a
 page that is not mapped, and does not go on.
 */
module PagingUnit {
  import opened Physical
  import opened Paging
  import opened TableAccess
  import opened AddressSpace

  class Mmu {
    const image: Image
    const bitmap: PageBitmap
    var mem: Memory
    ghost var tlb: map<nat, nat>

    ghost predicate Valid()
      reads this, bitmap
    {
      bitmap.Valid()
    }

    ghost function State(): Vm
      reads this, bitmap, bitmap.bits
      requires Valid()
    {
      Vm(bitmap.State(), mem, tlb)
    }

    constructor (image: Image, bitmap: PageBitmap, mem: Memory)
      requires bitmap.Valid()
      ensures Valid() && this.image == image && this.bitmap == bitmap && this.mem == mem && tlb == map[]
    {
      this.image := image;
      this.bitmap := bitmap;
      this.mem := mem;
      tlb := map[];
    }

    /** `*p` for a word of a virtual page. */
    method Load(page: nat, index: nat) returns (fault: bool, word: nat)
      ensures fault <==> Walk(image, mem, page).Unmapped?
      ensures !fault ==> word == Word(mem, Behind(image, mem, page), index)
    {
      word := 0;
      var at := Walk(image, mem, page);
      fault := at.Unmapped?;
      if !fault {
        word := Word(mem, FrameOf(at.entry), index);
      }
    }

    /** `*p = word`. */
    method Put(page: nat, index: nat, word: nat) returns (fault: bool)
      modifies this`mem
      ensures fault <==> Walk(image, old(mem), page).Unmapped?
      ensures mem == if fault then old(mem) else Store(old(mem), Behind(image, old(mem), page), index, word)
    {
      var at := Walk(image, mem, page);
      fault := at.Unmapped?;
      if !fault {
        mem := Store(mem, FrameOf(at.entry), index, word);
      }
    }

    /** The zeroing loop of `allocate_page_table`. */
    method ClearTable(page: nat) returns (fault: bool)
      modifies this`mem
      ensures ClearVia(image, old(mem), page, 0) == if fault then ClearFault else Clear(mem)
    {
      hide Walk;
      for i := 0 to ENTRIES
        invariant ClearVia(image, old(mem), page, 0) == ClearVia(image, mem, page, i)
      {
        fault := Put(page, i, 0);
        if fault {
          return;
        }
      }
      fault := false;
    }

    method AllocatePageTable() returns (fault: bool, address: nat)
      requires Valid() && Good(bitmap.State())
      modifies this`mem, bitmap, bitmap.bits
      ensures Valid() && bitmap.bits == old(bitmap.bits) && (bitmap.State(), address) == Alloc(old(bitmap.State()))
      ensures address == 0 ==> !fault && mem == old(mem)
      ensures address != 0 ==>
        ClearVia(image, old(mem), address / PAGE_SIZE, 0) == if fault then ClearFault else Clear(mem)
    {
      fault := false;
      address := bitmap.AllocPage();
      if address != 0 {
        fault := ClearTable(address / PAGE_SIZE);
      }
    }

    /** Find the table of slot `d`, allocating it if the directory has none. */
    method FindTable(d: nat) returns (fault: bool, found: bool, table: nat)
      requires Valid() && Good(bitmap.State())
      modifies this`mem, bitmap, bitmap.bits
      ensures Valid() && bitmap.bits == old(bitmap.bits)
      ensures FindVia(image, old(bitmap.State()), old(mem), d) ==
        if fault then FindFault else if found then Table(bitmap.State(), mem, table) else NoTable
      ensures !fault && !found ==> bitmap.State() == old(bitmap.State()) && mem == old(mem)
    {
      hide Walk, ClearVia;
      found, table := false, 0;
      var entry;
      fault, entry := Load(image.directory, d);
      if fault {
        return;
      }
      if IsPresent(entry) {
        return false, true, FrameOf(entry);
      }
      AllocEffect(bitmap.State());
      var address;
      fault, address := AllocatePageTable();
      if fault || address == 0 {
        return;
      }
      fault := Put(image.directory, d, TableEntry(address));
      found, table := true, address / PAGE_SIZE;
    }

    /** The hardware loads translations of its own accord. */
    ghost method LoadTlb(pages: set<nat>)
      modifies this`tlb
      ensures tlb == Filled(image, mem, old(tlb), pages)
    {
      tlb := Filled(image, mem, tlb, pages);
    }

    /** `invlpg`. */
    ghost method InvalidatePage(page: nat)
      modifies this`tlb
      ensures tlb == old(tlb) - {page}
    {
      tlb := tlb - {page};
    }

    method Map(virtual: nat, physical: nat, flags: nat, ghost fills: set<nat>) returns (fault: bool, result: int)
      requires Valid() && Good(bitmap.State())
      modifies this`mem, this`tlb, bitmap, bitmap.bits
      ensures Valid() && bitmap.bits == old(bitmap.bits)
      ensures MapVia(image, old(State()), virtual, physical, flags, fills) ==
        if fault then Fault else Done(State(), result)
    {
      hide Walk, Filled, FindVia;
      fault := false;
      if virtual % PAGE_SIZE != 0 || physical % PAGE_SIZE != 0 {
        return false, -1;
      }
      var page := virtual / PAGE_SIZE;
      var found, table;
      fault, found, table := FindTable(DirectoryIndex(page));
      if fault || !found {
        return fault, -2;
      }
      fault, result := Enter(table, page, physical / PAGE_SIZE * PAGE_SIZE + flags % PAGE_SIZE, fills);
    }

    /** The second half of `paging_map`. */
    method Enter(table: nat, page: nat, entry: nat, ghost fills: set<nat>) returns (fault: bool, result: int)
      requires Valid()
      modifies this`mem, this`tlb
      ensures EnterVia(image, old(State()), table, page, entry, fills) == if fault then Fault else Done(State(), result)
    {
      hide Walk, Filled;
      result := 0;
      var word;
      fault, word := Load(table, TableIndex(page));
      if fault || IsPresent(word) {
        return fault, -3;
      }
      fault := Put(table, TableIndex(page), entry);
      fault, word := Load(table, TableIndex(page));
      if fault {
        return;
      }
      fault := Put(table, TableIndex(page), Or(word, PRESENT));
      LoadTlb(fills);
      InvalidatePage(page);
    }

    method Unmap(virtual: nat, ghost fills: set<nat>) returns (fault: bool, result: int)
      requires Valid()
      modifies this`mem, this`tlb
      ensures Valid()
      ensures UnmapVia(image, old(State()), virtual, fills) == if fault then Fault else Done(State(), result)
    {
      hide Walk, Filled;
      result := 0;
      if virtual % PAGE_SIZE != 0 {
        return false, -1;
      }
      var page := virtual / PAGE_SIZE;
      var entry, word;
      fault, entry := Load(image.directory, DirectoryIndex(page));
      if fault || !IsPresent(entry) {
        return fault, -2;
      }
      fault, word := Load(FrameOf(entry), TableIndex(page));
      if fault || !IsPresent(word) {
        return fault, -3;
      }
      fault := Put(FrameOf(entry), TableIndex(page), 0);
      LoadTlb(fills);
      InvalidatePage(page);
    }

    /** The first loop of `paging_init`, which runs before paging is on. */
    method ClearFrame(frame: nat)
      requires frame in mem && |mem[frame]| == ENTRIES
      modifies this`mem
      ensures mem == old(mem)[frame := Zeros(ENTRIES)]
    {
      ghost var before := mem;
      for i := 0 to ENTRIES
        invariant frame in mem && |mem[frame]| == ENTRIES && mem == before[frame := mem[frame]]
        invariant forall j :: 0 <= j < i ==> mem[frame][j] == 0
      {
        mem := Store(mem, frame, i, 0);
      }
      assert mem[frame] == Zeros(ENTRIES);
    }

    /** The two loops of `paging_init`; loading CR3 empties the TLB. */
    method Init()
      requires GoodImage(image) && AllFrames(mem)
      modifies this`mem, this`tlb
      ensures mem == InitialMemory(image, old(mem)) && tlb == map[]
    {
      ClearFrame(image.directory);
      ghost var cleared := mem;
      for i := 0 to ENTRIES
        invariant image.firstTable in mem && |mem[image.firstTable]| == ENTRIES
        invariant mem == cleared[image.firstTable := mem[image.firstTable]]
        invariant forall j :: 0 <= j < i ==> mem[image.firstTable][j] == j * PAGE_SIZE + PRESENT + WRITABLE
      {
        mem := Store(mem, image.firstTable, i, i * PAGE_SIZE + PRESENT + WRITABLE);
      }
      assert mem[image.firstTable] == IdentityTable(ENTRIES);
      mem := Store(mem, image.directory, 0, TableEntry(image.firstTable * PAGE_SIZE));
      tlb := map[];
      assert mem[image.directory] == InitialDirectory(image);
      assert mem == InitialMemory(image, old(mem));
    }
  }
}
