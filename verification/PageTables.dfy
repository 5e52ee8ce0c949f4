/** `MapMemory` on physical memory as it stands. */
module PageTables {
  import opened Words
  import opened PageEntries
  import opened PageWalk
  import opened FrameBits
  import opened FrameAllocator
  import opened Machine
  import opened OutOfFrames
  import opened Runs

  /** Splits a virtual address into the indices of the four levels. */
  class PageMapIndexer {
    var PDP_i: nat
    var PD_i: nat
    var PT_i: nat
    var P_i: nat

    /** The indices are those of the page's tables: bits 48 and up play no part. */
    constructor (virtualAddress: uint64)
      ensures PDP_i == Above(PageOf(virtualAddress), 1) % 512
      ensures PD_i == Above(PageOf(virtualAddress), 2) % 512
      ensures PT_i == Above(PageOf(virtualAddress), 3) % 512
      ensures P_i == PageOf(virtualAddress) % 512
    {
      var v := virtualAddress / 0x1000;
      P_i := v % 512;
      v := v / 512;
      PT_i := v % 512;
      v := v / 512;
      PD_i := v % 512;
      v := v / 512;
      PDP_i := v % 512;
      new;
      IndicesOfPage(virtualAddress / 0x1000);
    }
  }

  lemma IndicesOfPage(n: nat)
    ensures n % TWO_36 % 512 == n % 512
    ensures n % TWO_36 / 512 % 512 == n / 512 % 512
    ensures n % TWO_36 / 512 / 512 % 512 == n / 512 / 512 % 512
    ensures n % TWO_36 / 512 / 512 / 512 % 512 == n / 512 / 512 / 512 % 512
  {
    var high, low := n / TWO_36, n % TWO_36;
    assert n == 0x10_0000_0000 * high + low;
    assert n / 512 == 0x800_0000 * high + low / 512;
    assert n / 512 / 512 == 0x4_0000 * high + low / 512 / 512;
    assert n / 512 / 512 / 512 == 512 * high + low / 512 / 512 / 512;
  }

  class PageTableManager {
    const memory: array<PageTable>
    const allocator: PageFrameAllocator
    var PML4: uint64

    constructor (memory: array<PageTable>, allocator: PageFrameAllocator)
      ensures this.memory == memory && this.allocator == allocator
    {
      this.memory, this.allocator, PML4 := memory, allocator, 0;
    }

    ghost function State(): Machine
      requires allocator.pageBitmap.Valid()
      reads this, memory, allocator.pageBitmap, allocator.pageBitmap.buffer
    {
      Machine(memory[..], allocator.Bits(), PML4 / 0x1000)
    }

    ghost predicate Ready()
      reads this, memory, allocator, allocator.pageBitmap, allocator.pageBitmap.buffer
    {
      allocator.Valid() && memory as object != allocator.pageBitmap.buffer
    }

    ghost predicate Valid()
      reads this, memory, allocator, allocator.pageBitmap, allocator.pageBitmap.buffer
    {
      Ready() && Sound(State())
    }

    /** A frame from the allocator, cleared; frame 0 if there is none. */
    method NewTable() returns (table: uint64)
      requires Ready() && InMemory(State(), 0)
      modifies memory, allocator, allocator.pageBitmap.buffer
      ensures Ready() && allocator.OnlyBits() && allocator.Took()
      ensures table == Requested(old(allocator.Bits())) * 0x1000
      ensures memory[..] == old(memory[..])[Requested(old(allocator.Bits())) := Cleared()]
      ensures allocator.Bits() == AfterRequest(old(allocator.Bits()))
    {
      table := allocator.RequestPage();
      memory[table / 0x1000] := Cleared();
    }

    /** Overwrites one entry of a table. */
    method WriteEntry(table: uint64, index: nat, e: PageDirectoryEntry)
      requires table / 0x1000 < memory.Length && index < 512
      modifies memory
      ensures memory[..] == Store(old(memory[..]), table / 0x1000, index, e)
    {
      memory[table / 0x1000] := memory[table / 0x1000][index := e];
    }

    /** The entry is not present: request and clear a table and install it. */
    method CreateTable(table: uint64, index: nat) returns (next: uint64)
      requires Ready() && InMemory(State(), table / 0x1000) && index < 512
      modifies memory, allocator, allocator.pageBitmap.buffer
      ensures Ready() && allocator.OnlyBits()
      ensures var m := old(State());
        State() == Machine(Install(m.mem, table / 0x1000, index, Requested(m.bits)), AfterRequest(m.bits), m.root)
      ensures next == Requested(old(allocator.Bits())) * 0x1000
    {
      var PDE := memory[table / 0x1000][index];
      ghost var m := State();
      ghost var f := Requested(m.bits);
      next := NewTable();
      assert memory[..] == m.mem[f := Cleared()] && next / 0x1000 == f;
      PDE := PDE.SetAddress(next / 0x1000);
      PDE := PDE.SetFlag(Present, true);
      PDE := PDE.SetFlag(ReadWrite, true);
      assert PDE == Linked(m.mem[table / 0x1000][index], f);
      WriteEntry(table, index, PDE);
    }

    /** One level of the walk. */
    method NextTable(table: uint64, index: nat) returns (next: uint64)
      requires Ready() && InMemory(State(), table / 0x1000) && index < 512
      modifies memory, allocator, allocator.pageBitmap.buffer
      ensures Ready() && allocator.OnlyBits()
      ensures (State(), next / 0x1000) == Descend(old(State()), table / 0x1000, index)
    {
      var PDE := memory[table / 0x1000][index];
      if !PDE.GetFlag(Present) {
        next := CreateTable(table, index);
      } else {
        next := PDE.GetAddress() * 0x1000;
      }
    }

    /** The last level: the entry keeps its other bits. */
    method SetLeafEntry(table: uint64, index: nat, physicalMemory: uint64)
      requires Ready() && InMemory(State(), table / 0x1000) && index < 512
      modifies memory
      ensures Ready()
      ensures var m, t := old(State()), table / 0x1000;
        State() == m.(mem := Store(m.mem, t, index, Linked(m.mem[t][index], FrameOf(physicalMemory))))
    {
      var PDE := memory[table / 0x1000][index];
      PDE := PDE.SetAddress(physicalMemory / 0x1000);
      PDE := PDE.SetFlag(Present, true);
      PDE := PDE.SetFlag(ReadWrite, true);
      WriteEntry(table, index, PDE);
    }

    /** One level more of the way down to a page. */
    method NextLevel(table: uint64, index: nat, ghost m: Machine, ghost page: nat, ghost k: nat) returns (next: uint64)
      requires Ready() && Sound(m) && page < TWO_36 && k < 3 && index == Above(page, k + 1) % 512
      requires (State(), table / 0x1000) == Down(m, page, k)
      modifies memory, allocator, allocator.pageBitmap.buffer
      ensures Ready() && allocator.OnlyBits() && (State(), next / 0x1000) == Down(m, page, k + 1)
    {
      DownInMemory(m, page, k);
      next := NextTable(table, index);
    }

    /** Maps the page of one address to the frame of another. If frames suffice for the
        tables that are missing, the walk of that page finds the frame, present and
        writable; the walk of every other page is what it was; and exactly the missing
        tables were taken. */
    method MapMemory(virtualMemory: uint64, physicalMemory: uint64)
      requires Valid()
      modifies memory, allocator, allocator.pageBitmap.buffer
      ensures Ready() && allocator.OnlyBits()
      ensures State() == MapAnyway(old(State()), PageOf(virtualMemory), FrameOf(physicalMemory))
      ensures var m, page := old(State()), PageOf(virtualMemory);
        FreeCount(m.bits) >= Missing(m, page) ==>
          && Valid() && State() == MapPage(m, page, FrameOf(physicalMemory))
          && MapsOnly(m, State(), page, Mapped(FrameOf(physicalMemory) % TWO_40, true))
          && AddsTablesTo(m, State(), page) && Grows(m, State())
          && FreeCount(State().bits) == FreeCount(m.bits) - Missing(m, page)
    {
      ghost var m, page, frame := State(), PageOf(virtualMemory), FrameOf(physicalMemory);
      WalkAndMap(virtualMemory, physicalMemory, m, page);
      if FreeCount(m.bits) >= Missing(m, page) {
        EnoughFrames(m, page, frame);
        MapPageMaps(m, page, frame);
      }
    }

    /** Down to the page table, and its entry. */
    method WalkAndMap(virtualMemory: uint64, physicalMemory: uint64, ghost m: Machine, ghost page: nat)
      requires Ready() && State() == m && Sound(m) && page == PageOf(virtualMemory)
      modifies memory, allocator, allocator.pageBitmap.buffer
      ensures Ready() && allocator.OnlyBits() && State() == MapAnyway(m, page, FrameOf(physicalMemory))
    {
      var indexer := new PageMapIndexer(virtualMemory);
      var PDP := NextLevel(PML4, indexer.PDP_i, m, page, 0);
      var PD := NextLevel(PDP, indexer.PD_i, m, page, 1);
      var PT := NextLevel(PD, indexer.PT_i, m, page, 2);
      DownInMemory(m, page, 3);
      SetLeafEntry(PT, indexer.P_i, physicalMemory);
    }
  }
}
