/** What the kernel's clients and the processor do to memory, tables and bitmap as they
    stand: each call takes exactly one step of a run. */
module Clients {
  import opened Words
  import opened Options
  import opened PageEntries
  import opened PageWalk
  import opened FrameBits
  import opened MemoryMap
  import opened FrameAllocator
  import opened Machine
  import opened Runs
  import opened PageTables

  ghost function WorldOf(ptm: PageTableManager, owned: set<nat>): World
    requires ptm.allocator.pageBitmap.Valid()
    reads ptm, ptm.memory, ptm.allocator.pageBitmap, ptm.allocator.pageBitmap.buffer
  {
    World(ptm.State(), owned)
  }

  /** The client's frames and the tables are as `Runs` wants them. */
  ghost predicate Serves(ptm: PageTableManager, owned: set<nat>)
    reads ptm, ptm.memory, ptm.allocator, ptm.allocator.pageBitmap, ptm.allocator.pageBitmap.buffer
  {
    ptm.Valid() && Safe(WorldOf(ptm, owned))
  }

  method MapPages(ptm: PageTableManager, virtualAddress: uint64, physicalAddress: uint64, ghost owned: set<nat>)
    requires Serves(ptm, owned) && Enabled(WorldOf(ptm, owned), Map(virtualAddress, physicalAddress))
    modifies ptm.memory, ptm.allocator, ptm.allocator.pageBitmap.buffer
    ensures Serves(ptm, owned)
    ensures WorldOf(ptm, owned) == Step(old(WorldOf(ptm, owned)), Map(virtualAddress, physicalAddress))
  {
    StepIsSafe(WorldOf(ptm, owned), Map(virtualAddress, physicalAddress));
    ptm.MapMemory(virtualAddress, physicalAddress);
  }

  method RequestFrame(ptm: PageTableManager, ghost owned: set<nat>) returns (addr: uint64, ghost owned': set<nat>)
    requires Serves(ptm, owned)
    modifies ptm.allocator, ptm.allocator.pageBitmap.buffer
    ensures Serves(ptm, owned') && WorldOf(ptm, owned') == Step(old(WorldOf(ptm, owned)), Request)
    ensures owned' == if LowestFree(old(ptm.State()).bits).Some? then owned + {addr / 0x1000} else owned
  {
    StepIsSafe(WorldOf(ptm, owned), Request);
    owned' := Step(WorldOf(ptm, owned), Request).owned;
    addr := ptm.allocator.RequestPage();
  }

  method AllocateFrames(ptm: PageTableManager, addr: uint64, pageCount: nat, ghost owned: set<nat>) returns (ghost owned': set<nat>)
    requires Serves(ptm, owned) && Addressable(addr / 0x1000, pageCount)
    modifies ptm.allocator, ptm.allocator.pageBitmap.buffer
    ensures Serves(ptm, owned')
    ensures WorldOf(ptm, owned') == Step(old(WorldOf(ptm, owned)), Allocate(addr / 0x1000, pageCount))
  {
    StepIsSafe(WorldOf(ptm, owned), Allocate(addr / 0x1000, pageCount));
    owned' := Step(WorldOf(ptm, owned), Allocate(addr / 0x1000, pageCount)).owned;
    ptm.allocator.AllocatePages(addr, pageCount);
  }

  method FreeFrame(ptm: PageTableManager, addr: uint64, ghost owned: set<nat>)
    requires Serves(ptm, owned) && addr / 0x1000 in owned
    modifies ptm.allocator, ptm.allocator.pageBitmap.buffer
    ensures Serves(ptm, owned - {addr / 0x1000})
    ensures WorldOf(ptm, owned - {addr / 0x1000}) == Step(old(WorldOf(ptm, owned)), Free(addr / 0x1000))
  {
    StepIsSafe(WorldOf(ptm, owned), Free(addr / 0x1000));
    FillOne(ptm.State().bits, addr / 0x1000, false);
    ptm.allocator.FreePage(addr);
  }

  method WriteFrame(ptm: PageTableManager, target: nat, contents: PageTable, ghost owned: set<nat>)
    requires Serves(ptm, owned) && target in owned
    modifies ptm.memory
    ensures Serves(ptm, owned) && WorldOf(ptm, owned) == Step(old(WorldOf(ptm, owned)), Write(target, contents))
  {
    StepIsSafe(WorldOf(ptm, owned), Write(target, contents));
    ptm.memory[target] := contents;
  }

  /** The processor goes through an entry. */
  method UseEntry(ptm: PageTableManager, table: nat, index: nat, written: bool, ghost owned: set<nat>)
    requires Serves(ptm, owned) && Enabled(WorldOf(ptm, owned), Use(table, index, written))
    modifies ptm.memory
    ensures Serves(ptm, owned) && WorldOf(ptm, owned) == Step(old(WorldOf(ptm, owned)), Use(table, index, written))
  {
    StepIsSafe(WorldOf(ptm, owned), Use(table, index, written));
    ptm.memory[table] := ptm.memory[table][index := Marked(ptm.memory[table][index], written)];
  }
}
