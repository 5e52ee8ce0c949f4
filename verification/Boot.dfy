/** `PrepareMemory`: the allocator from the firmware's map, then identity maps of
    all memory counted and of the frame buffer. */
module Boot {
  import opened Words
  import opened Options
  import opened PageWalk
  import opened FrameBits
  import opened MemoryMap
  import opened FrameAllocator
  import opened Machine
  import opened OutOfFrames
  import opened Runs
  import opened HardwareWalk
  import opened PageTables
  import opened BootTables

  /** The number of steps of a loop over addresses that advances by pages. */
  function Steps(size: nat): nat {
    (size + 0xfff) / 0x1000
  }

  lemma StepsBound(size: nat, k: nat)
    ensures 0x1000 * k < size <==> k < Steps(size)
  {}

  /** Pages a, ..., a + k - 1 map to themselves and every other walk is as it was. */
  ghost predicate IdentityOver(m: Machine, m': Machine, a: nat, k: nat) {
    m'.root == m.root && forall page :: 0 <= page < TWO_36 ==>
      Walk(m'.mem, m.root, page) == if a <= page < a + k then Mapped(page, true) else Walk(m.mem, m.root, page)
  }

  lemma IdentityNext(m: Machine, m': Machine, m'': Machine, a: nat, k: nat)
    requires IdentityOver(m, m', a, k) && MapsOnly(m', m'', a + k, Mapped(a + k, true))
    ensures IdentityOver(m, m'', a, k + 1)
  {}

  /** One step: the page of i maps to itself. */
  method MapNext(ptm: PageTableManager, i: uint64, ghost n: nat, ghost a: nat, ghost k: nat)
    requires ptm.Valid() && a + k == i / 0x1000 < TWO_36
    requires TablesOver(ptm.State(), n, a, k)
    requires FreeCount(ptm.State().bits) + NewTables(n, a, k) >= NewTables(n, a, k + 1)
    modifies ptm.memory, ptm.allocator, ptm.allocator.pageBitmap.buffer
    ensures ptm.Valid() && ptm.allocator.OnlyBits()
    ensures MapsOnly(old(ptm.State()), ptm.State(), a + k, Mapped(a + k, true))
    ensures OnlyTakes(old(ptm.State()), ptm.State())
    ensures TablesOver(ptm.State(), n, a, k + 1)
    ensures FreeCount(ptm.State().bits) + NewTables(n, a, k + 1) == FreeCount(old(ptm.State()).bits) + NewTables(n, a, k)
  {
    ghost var before := ptm.State();
    MissingNext(before, n, a, k);
    MapToItself(ptm, i, a + k);
    OneMoreTablesOver(before, ptm.State(), n, a, k);
  }

  method MapToItself(ptm: PageTableManager, i: uint64, ghost page: nat)
    requires ptm.Valid() && page == i / 0x1000 < TWO_36
    requires FreeCount(ptm.State().bits) >= Missing(ptm.State(), page)
    modifies ptm.memory, ptm.allocator, ptm.allocator.pageBitmap.buffer
    ensures ptm.Valid() && ptm.allocator.OnlyBits()
    ensures MapsOnly(old(ptm.State()), ptm.State(), page, Mapped(page, true))
    ensures OnlyTakes(old(ptm.State()), ptm.State())
    ensures AddsTablesTo(old(ptm.State()), ptm.State(), page)
    ensures FreeCount(ptm.State().bits) == FreeCount(old(ptm.State()).bits) - Missing(old(ptm.State()), page)
  {
    assert PageOf(i) == FrameOf(i) == page && FrameOf(i) % TWO_40 == page;
    MapPageOnlyTakes(ptm.State(), page, page);
    ptm.MapMemory(i, i);
  }

  /** Maps the pages of a range to themselves, one after the other, and takes exactly
      the frames of the tables still missing. */
  method IdentityMap(ptm: PageTableManager, base: uint64, size: nat, ghost n: nat, ghost a: nat, ghost count: nat)
    requires ptm.Valid() && base + size <= TWO_48 && a == base / 0x1000 && count == Steps(size)
    requires TablesOver(ptm.State(), n, a, 0)
    requires FreeCount(ptm.State().bits) >= NewTables(n, a, count)
    modifies ptm.memory, ptm.allocator, ptm.allocator.pageBitmap.buffer
    ensures ptm.Valid() && ptm.allocator.OnlyBits()
    ensures IdentityOver(old(ptm.State()), ptm.State(), a, count)
    ensures OnlyTakes(old(ptm.State()), ptm.State())
    ensures TablesOver(ptm.State(), n, a, count)
    ensures FreeCount(ptm.State().bits) + NewTables(n, a, count) == FreeCount(old(ptm.State()).bits)
  {
    ghost var k, m := 0, ptm.State();
    StepsBound(size, 0);
    var i := base;
    while i < base + size
      invariant i == base + 0x1000 * k && k <= count && (i < base + size <==> k < count)
      invariant ptm.Valid() && ptm.allocator.OnlyBits()
      invariant IdentityOver(m, ptm.State(), a, k) && TablesOver(ptm.State(), n, a, k)
      invariant OnlyTakes(m, ptm.State())
      invariant FreeCount(ptm.State().bits) + NewTables(n, a, k) == FreeCount(m.bits)
      decreases base + size - i
    {
      ghost var before := ptm.State();
      NewTablesGrow(n, a, k + 1, count);
      MapNext(ptm, i, n, a, k);
      IdentityNext(m, before, ptm.State(), a, k);
      OnlyTakesTransitive(m, before, ptm.State());
      StepsBound(size, k + 1);
      i, k := i + 0x1000, k + 1;
    }
  }

  lemma NewTablesGrow(n: nat, a: nat, j: nat, k: nat)
    requires j <= k
    ensures NewTables(n, a, j) <= NewTables(n, a, k)
  {
    forall d: nat, x: nat | 0 < d <= 3 && Over(d, x, a, j)
      ensures Over(d, x, a, k)
    {
      AboveMonotone(a + j - 1, a + k - 1, d);
    }
    SubsetCount(NewTablesAt(1, n, a, j), NewTablesAt(1, n, a, k));
    SubsetCount(NewTablesAt(2, n, a, j), NewTablesAt(2, n, a, k));
    SubsetCount(NewTablesAt(3, n, a, j), NewTablesAt(3, n, a, k));
  }

  /** The frames in use before any table is made. */
  function KernelBits(map_: seq<MemoryDescriptor>, kernelStart: uint64, kernelSize: nat): Bits {
    Fill(BootBits(map_), kernelStart / 0x1000, kernelSize / 0x1000 + 1, true)
  }

  /** The same with the frame buffer. */
  function BitsBeforeTables(map_: seq<MemoryDescriptor>, kernelStart: uint64, kernelSize: nat, frameBuffer: uint64, bufferSize: nat): Bits {
    Fill(KernelBits(map_, kernelStart, kernelSize), frameBuffer / 0x1000, BufferPages(bufferSize), true)
  }

  function BufferPages(bufferSize: nat): nat {
    (bufferSize + 0x1000) / 0x1000 + 1
  }

  /** Tables below the PML4 for so much memory and such a frame buffer. */
  ghost function TablesNeeded(total: nat, frameBuffer: uint64, bufferSize: nat): nat {
    NewTables(0, 0, total) + NewTables(total, frameBuffer / 0x1000, Steps(bufferSize + 0x1000))
  }

  /** What the machine must offer: frames enough, and addresses that fit. */
  ghost predicate Bootable(map_: seq<MemoryDescriptor>, frames: nat, kernelStart: uint64, kernelSize: nat,
                           frameBuffer: uint64, bufferSize: nat)
  {
    && Fits(map_)
    && 8 * BitmapSize(map_) <= frames <= TWO_40
    && TotalPages(map_) <= TWO_36
    && frameBuffer + bufferSize + 0x1000 <= TWO_48
    && Addressable(kernelStart / 0x1000, kernelSize / 0x1000 + 1)
    && Addressable(frameBuffer / 0x1000, BufferPages(bufferSize))
    && FreeCount(BitsBeforeTables(map_, kernelStart, kernelSize, frameBuffer, bufferSize))
       >= 1 + TablesNeeded(TotalPages(map_), frameBuffer, bufferSize)
  }

  /** Frames taken before the tables are not missed by the tables. */
  lemma FramesSuffice(before: Bits, after: Bits, start: nat, count: nat, first: nat, second: nat)
    requires Covers(after, before) && FreeCount(after) + first == FreeCount(before)
    requires FreeCount(Fill(before, start, count, true)) >= first + second
    ensures FreeCount(Fill(after, start, count, true)) >= second
  {
    FillCostsLess(before, after, start, count);
  }

  /** The pages of all memory counted and of the frame buffer. */
  predicate BootPage(total: nat, frameBuffer: uint64, bufferSize: nat, page: nat) {
    page < total || frameBuffer / 0x1000 <= page < frameBuffer / 0x1000 + Steps(bufferSize + 0x1000)
  }

  /** The walk is the identity on those pages and faults everywhere else. */
  ghost predicate BootMap(m: Machine, total: nat, frameBuffer: uint64, bufferSize: nat) {
    forall page :: 0 <= page < TWO_36 ==>
      Walk(m.mem, m.root, page) == if BootPage(total, frameBuffer, bufferSize, page) then Mapped(page, true) else Fault
  }

  /** So every byte of memory counted, and every byte of the frame buffer wherever
      in a page it starts, is found at its own address. */
  lemma BytesAreMapped(m: Machine, total: nat, frameBuffer: uint64, bufferSize: nat, addr: uint64)
    requires BootMap(m, total, frameBuffer, bufferSize) && addr < TWO_48
    requires addr < 0x1000 * total || frameBuffer <= addr < frameBuffer + bufferSize
    ensures Walk(m.mem, m.root, PageOf(addr)) == Mapped(FrameOf(addr), true)
  {
    assert PageOf(addr) == FrameOf(addr) == addr / 0x1000;
    assert BootPage(total, frameBuffer, bufferSize, addr / 0x1000);
  }

  /** The processor finds it there, and may write it. */
  lemma BytesTranslate(m: Machine, total: nat, frameBuffer: uint64, bufferSize: nat, addr: uint64)
    requires Sound(m) && BootMap(m, total, frameBuffer, bufferSize) && addr < TWO_48
    requires addr < 0x1000 * total || frameBuffer <= addr < frameBuffer + bufferSize
    ensures Translate(m.mem, m.root, addr) == Some((addr, true))
  {
    BytesAreMapped(m, total, frameBuffer, bufferSize, addr);
    TranslatesTo(m.mem, m.root, addr, addr / 0x1000);
  }

  /** The pages are those the two loops go through, the second in steps of a page from
      wherever the frame buffer starts to one page behind its end. */
  lemma PagesOfLoops(total: nat, frameBuffer: uint64, bufferSize: nat, page: nat)
    ensures BootPage(total, frameBuffer, bufferSize, page) <==>
              page < total || exists k: nat :: LoopAddress(k) < bufferSize + 0x1000 && page == (frameBuffer + LoopAddress(k)) / 0x1000
  {
    var a, steps := frameBuffer / 0x1000, Steps(bufferSize + 0x1000);
    forall k: nat
      ensures (frameBuffer + LoopAddress(k)) / 0x1000 == a + k && (LoopAddress(k) < bufferSize + 0x1000 <==> k < steps)
    {
      StepsBound(bufferSize + 0x1000, k);
    }
    if a <= page < a + steps {
      assert LoopAddress(page - a) < bufferSize + 0x1000;
    }
  }

  function LoopAddress(k: nat): nat {
    0x1000 * k
  }

  /** A byte of the kernel lies in a frame that is taken for it. */
  predicate KernelByteTaken(kernelStart: uint64, kernelSize: nat, byte: nat) {
    kernelStart / 0x1000 <= byte / 0x1000 < kernelStart / 0x1000 + (kernelSize / 0x1000 + 1)
  }

  /** Every byte of the kernel does, if and only if it starts early enough in its first
      page for the part of a page it ends with; a kernel that starts with a page does. */
  lemma KernelBytesTaken(kernelStart: uint64, kernelSize: nat)
    ensures (forall byte: nat :: kernelStart <= byte < kernelStart + kernelSize ==> KernelByteTaken(kernelStart, kernelSize, byte))
       <==> kernelStart % 0x1000 + kernelSize % 0x1000 <= 0x1000
  {
    if kernelStart % 0x1000 + kernelSize % 0x1000 > 0x1000 {
      assert !KernelByteTaken(kernelStart, kernelSize, kernelStart + kernelSize - 1);
    }
  }

  /** Then, at boot, no frame that holds one of its bytes is free. */
  lemma KernelIsNotFree(map_: seq<MemoryDescriptor>, kernelStart: uint64, kernelSize: nat, byte: nat)
    requires kernelStart % 0x1000 + kernelSize % 0x1000 <= 0x1000 && kernelStart <= byte < kernelStart + kernelSize
    ensures var bits := KernelBits(map_, kernelStart, kernelSize); byte / 0x1000 < |bits| ==> bits[byte / 0x1000]
  {
    KernelBytesTaken(kernelStart, kernelSize);
    assert KernelByteTaken(kernelStart, kernelSize, byte);
  }

  /** The frames taken for the frame buffer hold all of its bytes, wherever it starts. */
  lemma BufferIsNotFree(map_: seq<MemoryDescriptor>, kernelStart: uint64, kernelSize: nat, frameBuffer: uint64, bufferSize: nat, byte: nat)
    requires frameBuffer <= byte < frameBuffer + bufferSize
    ensures var bits := BitsBeforeTables(map_, kernelStart, kernelSize, frameBuffer, bufferSize);
      byte / 0x1000 < |bits| ==> bits[byte / 0x1000]
  {}

  /** What the boot leaves: the identity map; everything that has to be in use in use;
      tables in frames that were free, and at the bottom of those. */
  ghost predicate Booted(m: Machine, map_: seq<MemoryDescriptor>, kernelStart: uint64, kernelSize: nat,
                         frameBuffer: uint64, bufferSize: nat)
  {
    && BootMap(m, TotalPages(map_), frameBuffer, bufferSize)
    && Covers(m.bits, BitsBeforeTables(map_, kernelStart, kernelSize, frameBuffer, bufferSize))
    && TablesFrom(m, KernelBits(map_, kernelStart, kernelSize))
    && TablesLowest(m)
  }

  /** All tables lie in frames that were free. */
  ghost predicate TablesFrom(m: Machine, bits: Bits) {
    forall f: nat :: IsTable(m.mem, m.root, f) ==> f < |bits| && !bits[f]
  }

  /** `found` is the memory of the bitmap's pages. */
  method PrepareMemory(map_: seq<MemoryDescriptor>, memory: array<PageTable>, found: array<bv8>, kernelStart: uint64, kernelSize: nat,
                       frameBuffer: uint64, bufferSize: nat)
    returns (ptm: PageTableManager)
    requires Bootable(map_, memory.Length, kernelStart, kernelSize, frameBuffer, bufferSize)
    requires BitmapSize(map_) < found.Length && memory as object != found
    modifies memory, found
    ensures ptm.Valid() && ptm.memory == memory
    ensures var bitmap := ptm.allocator.pageBitmap;
      bitmap.buffer == found && bitmap.size == BitmapSize(map_) && bitmap.address == LargestFree(map_).address
    ensures Booted(ptm.State(), map_, kernelStart, kernelSize, frameBuffer, bufferSize)
  {
    var allocator, memSize := StartAllocator(map_, found, kernelStart, kernelSize);
    ghost var bits := allocator.Bits();
    FillTakes(bits, frameBuffer / 0x1000, BufferPages(bufferSize));
    ptm := RootTable(memory, allocator);
    ghost var m := ptm.State();
    FramesSuffice(bits, m.bits, frameBuffer / 0x1000, BufferPages(bufferSize), 1,
                  TablesNeeded(TotalPages(map_), frameBuffer, bufferSize));
    MapAtBoot(ptm, memSize, frameBuffer, bufferSize, TotalPages(map_));
    StillTaken(bits, m, ptm.State(), frameBuffer / 0x1000, BufferPages(bufferSize));
  }

  lemma StillTaken(bits: Bits, m: Machine, m': Machine, start: nat, count: nat)
    requires Covers(m.bits, bits) && TablesFrom(m, bits) && OnlyTakes(m, m')
    requires Covers(m'.bits, Fill(m.bits, start, count, true))
    ensures Covers(m'.bits, Fill(bits, start, count, true)) && TablesFrom(m', bits)
  {}

  /** From the boot on, no request ever returns a frame that was in use then, no table is
      ever made of it, and nothing the kernel's clients or its page tables do is ever
      written to it. For frame 0 that takes frames enough for every mapping. */
  lemma KernelStays(m: Machine, map_: seq<MemoryDescriptor>, kernelStart: uint64, kernelSize: nat,
                    frameBuffer: uint64, bufferSize: nat, ops: seq<Op>, f: nat)
    requires Sound(m) && Booted(m, map_, kernelStart, kernelSize, frameBuffer, bufferSize)
    requires f < |m.mem| && (f < |m.bits| ==> KernelBits(map_, kernelStart, kernelSize)[f])
    requires Allowed(World(m, {}), ops) && (f > 0 || Supplied(World(m, {}), ops))
    ensures var m' := Run(World(m, {}), ops).m;
      && |m'.mem| == |m.mem| && m'.mem[f] == m.mem[f] && !IsTable(m'.mem, m'.root, f)
      && LowestFree(m'.bits) != Some(f)
  {
    SetAsideForGood(World(m, {}), ops, f);
  }

  /** So it is with every byte of the bitmap, and the byte behind it that the bitmap's
      bounds tests let through. */
  lemma BitmapStays(m: Machine, map_: seq<MemoryDescriptor>, kernelStart: uint64, kernelSize: nat,
                    frameBuffer: uint64, bufferSize: nat, ops: seq<Op>, byte: nat)
    requires Sound(m) && Booted(m, map_, kernelStart, kernelSize, frameBuffer, bufferSize)
    requires LargestFree(map_).address % 0x1000 == 0
    requires LargestFree(map_).address <= byte <= LargestFree(map_).address + BitmapSize(map_)
    requires byte / 0x1000 < |m.mem| && Allowed(World(m, {}), ops)
    requires byte / 0x1000 > 0 || Supplied(World(m, {}), ops)
    ensures var m', f := Run(World(m, {}), ops).m, byte / 0x1000;
      && |m'.mem| == |m.mem| && m'.mem[f] == m.mem[f] && !IsTable(m'.mem, m'.root, f)
      && LowestFree(m'.bits) != Some(f)
  {
    BitmapIsNotFree(map_, byte);
    KernelStays(m, map_, kernelStart, kernelSize, frameBuffer, bufferSize, ops, byte / 0x1000);
  }

  /** Nor does frame 0 become a table, as long as frames suffice: what `OutOfFrames` asks
      of a state holds of every one the kernel gets to. */
  lemma ZeroIsAside(m: Machine, map_: seq<MemoryDescriptor>, kernelStart: uint64, kernelSize: nat,
                    frameBuffer: uint64, bufferSize: nat, ops: seq<Op>)
    requires Sound(m) && Booted(m, map_, kernelStart, kernelSize, frameBuffer, bufferSize)
    requires Allowed(World(m, {}), ops) && Supplied(World(m, {}), ops)
    ensures Sound(Run(World(m, {}), ops).m) && ZeroAside(Run(World(m, {}), ops).m)
  {
    RunIsSafe(World(m, {}), ops);
    ZeroSetAside(m, map_, kernelStart, kernelSize, frameBuffer, bufferSize);
    SetAsideForGood(World(m, {}), ops, 0);
    RootInUse(Run(World(m, {}), ops).m);
  }

  lemma RootInUse(m: Machine)
    requires Sound(m)
    ensures IsTable(m.mem, m.root, m.root) && m.root < |m.bits|
  {
    assert Position(0, 0) && TableAt(m.mem, m.root, 0, 0) == Some(m.root);
  }

  lemma ZeroSetAside(m: Machine, map_: seq<MemoryDescriptor>, kernelStart: uint64, kernelSize: nat,
                   frameBuffer: uint64, bufferSize: nat)
    requires Sound(m) && Booted(m, map_, kernelStart, kernelSize, frameBuffer, bufferSize)
    ensures SetAside(World(m, {}), 0)
  {
    RootInUse(m);
    KernelBitZero(map_, kernelStart, kernelSize);
  }

  lemma KernelBitZero(map_: seq<MemoryDescriptor>, kernelStart: uint64, kernelSize: nat)
    ensures var bits := KernelBits(map_, kernelStart, kernelSize); bits != [] ==> bits[0]
  {
    assert !FreeAtBoot(map_, 0);
  }

  /** As long as one counted frame is free and none was ever given back, every table is a
      counted frame. */
  lemma TablesAreCounted(m: Machine, map_: seq<MemoryDescriptor>, kernelStart: uint64, kernelSize: nat,
                         frameBuffer: uint64, bufferSize: nat, ops: seq<Op>, g: nat, t: nat)
    requires Sound(m) && Booted(m, map_, kernelStart, kernelSize, frameBuffer, bufferSize)
    requires Allowed(World(m, {}), ops) && Supplied(World(m, {}), ops)
    requires forall k :: 0 <= k < |ops| ==> !ops[k].Free?
    requires var m' := Run(World(m, {}), ops).m;
      g < TotalPages(map_) && g < |m'.bits| && !m'.bits[g] && IsTable(m'.mem, m'.root, t)
    ensures t < TotalPages(map_)
  {
    RunKeepsLowest(World(m, {}), ops);
    var m' := Run(World(m, {}), ops).m;
    var d: nat, x: nat :| Position(d, x) && TableAt(m'.mem, m'.root, d, x) == Some(t);
    assert t < g;
  }

  /** No mapping of the run takes the page away from the frame of the same number. */
  predicate LeavesAlone(ops: seq<Op>, page: nat) {
    forall k :: 0 <= k < |ops| && ops[k].Map? && PageOf(ops[k].virtualAddress) == page
      ==> FrameOf(ops[k].physicalAddress) % TWO_40 == page
  }

  lemma {:induction false} StaysMapped(ops: seq<Op>, page: nat)
    requires LeavesAlone(ops, page)
    ensures LastMapping(ops, page, Mapped(page, true)) == Mapped(page, true)
  {
    if ops != [] {
      assert forall k :: 0 <= k < |ops| - 1 ==> ops[1..][k] == ops[k + 1];
      StaysMapped(ops[1..], page);
    }
  }

  /** After any run from the boot on, a table is found at its own address, so that
      `MapMemory` can go on through the map it has made: every table that is a counted
      frame and whose page no mapping took away. */
  lemma TablesAreMapped(m: Machine, map_: seq<MemoryDescriptor>, kernelStart: uint64, kernelSize: nat,
                        frameBuffer: uint64, bufferSize: nat, ops: seq<Op>, t: nat)
    requires Sound(m) && Booted(m, map_, kernelStart, kernelSize, frameBuffer, bufferSize)
    requires Allowed(World(m, {}), ops) && LeavesAlone(ops, t)
    requires t < TotalPages(map_) <= TWO_36
    ensures var m' := Run(World(m, {}), ops).m; Walk(m'.mem, m'.root, t) == Mapped(t, true)
  {
    RunIsSafe(World(m, {}), ops);
    assert BootPage(TotalPages(map_), frameBuffer, bufferSize, t);
    StaysMapped(ops, t);
  }

  ghost predicate Unmapped(m: Machine) {
    forall page :: 0 <= page < TWO_36 ==> Walk(m.mem, m.root, page) == Fault
  }

  lemma BothMaps(m: Machine, m1: Machine, bits: Bits, m2: Machine, total: nat, frameBuffer: uint64, bufferSize: nat)
    requires Unmapped(m) && IdentityOver(m, m1, 0, total)
    requires IdentityOver(m1.(bits := bits), m2, frameBuffer / 0x1000, Steps(bufferSize + 0x1000))
    ensures BootMap(m2, total, frameBuffer, bufferSize)
  {}

  lemma BitsDoNotMatter(m: Machine, bits: Bits, total: nat, a: nat)
    requires TablesOver(m, 0, 0, total)
    ensures TablesOver(m.(bits := bits), total, a, 0)
  {}

  /** The allocator from the firmware's map, with the kernel image taken. */
  method StartAllocator(map_: seq<MemoryDescriptor>, found: array<bv8>, kernelStart: uint64, kernelSize: nat)
    returns (allocator: PageFrameAllocator, memSize: uint64)
    requires Fits(map_) && Addressable(kernelStart / 0x1000, kernelSize / 0x1000 + 1) && BitmapSize(map_) < found.Length
    modifies found
    ensures fresh(allocator) && fresh(allocator.pageBitmap) && allocator.pageBitmap.buffer == found
    ensures allocator.Valid() && allocator.pageBitmap.size == BitmapSize(map_)
    ensures allocator.pageBitmap.address == LargestFree(map_).address
    ensures allocator.Bits() == KernelBits(map_, kernelStart, kernelSize)
    ensures memSize == 0x1000 * TotalPages(map_)
  {
    allocator := new PageFrameAllocator();
    allocator.ReadEfiMemoryMap(map_, found);
    memSize := allocator.GetMemorySize(map_);
    allocator.AllocatePages(kernelStart, kernelSize / 0x1000 + 1);
  }

  /** The first loop: all memory counted is mapped to itself, which takes exactly
      n/512 + n/512^2 + n/512^3 frames for n pages, all rounded up. */
  method MapAllMemory(ptm: PageTableManager, memSize: uint64, ghost total: nat)
    requires ptm.Valid() && memSize == 0x1000 * total <= TWO_48
    requires TablesOver(ptm.State(), 0, 0, 0)
    requires FreeCount(ptm.State().bits) >= NewTables(0, 0, total)
    modifies ptm.memory, ptm.allocator, ptm.allocator.pageBitmap.buffer
    ensures ptm.Valid() && ptm.allocator.OnlyBits()
    ensures IdentityOver(old(ptm.State()), ptm.State(), 0, total) && TablesOver(ptm.State(), 0, 0, total)
    ensures OnlyTakes(old(ptm.State()), ptm.State())
    ensures FreeCount(old(ptm.State()).bits) - FreeCount(ptm.State().bits)
         == NewTables(0, 0, total)
         == CeilDiv(total, 0x200) + CeilDiv(total, 0x4_0000) + CeilDiv(total, 0x800_0000)
  {
    TablesOfFirstPages(total);
    IdentityMap(ptm, 0, memSize, 0, 0, total);
  }

  /** The two loops, with the frame buffer taken from the allocator between them. */
  method MapAtBoot(ptm: PageTableManager, memSize: uint64, frameBuffer: uint64, bufferSize: nat, ghost total: nat)
    requires ptm.Valid() && memSize == 0x1000 * total <= TWO_48 && frameBuffer + bufferSize + 0x1000 <= TWO_48
    requires Addressable(frameBuffer / 0x1000, BufferPages(bufferSize))
    requires TablesOver(ptm.State(), 0, 0, 0) && Unmapped(ptm.State())
    requires FreeCount(Fill(ptm.State().bits, frameBuffer / 0x1000, BufferPages(bufferSize), true))
          >= TablesNeeded(total, frameBuffer, bufferSize)
    modifies ptm.memory, ptm.allocator, ptm.allocator.pageBitmap.buffer
    ensures ptm.Valid() && ptm.allocator.OnlyBits() && BootMap(ptm.State(), total, frameBuffer, bufferSize)
    ensures OnlyTakes(old(ptm.State()), ptm.State())
    ensures Covers(ptm.State().bits, Fill(old(ptm.State()).bits, frameBuffer / 0x1000, BufferPages(bufferSize), true))
  {
    ghost var m, a := ptm.State(), frameBuffer / 0x1000;
    FillTakes(m.bits, a, BufferPages(bufferSize));
    MapAllMemory(ptm, memSize, total);
    ghost var m1 := ptm.State();
    FramesSuffice(m.bits, m1.bits, a, BufferPages(bufferSize), NewTables(0, 0, total),
                  NewTables(total, a, Steps(bufferSize + 0x1000)));
    MapFrameBuffer(ptm, frameBuffer, bufferSize, total, m);
    OnlyTakesTransitive(m, m1, ptm.State());
  }

  method MapFrameBuffer(ptm: PageTableManager, frameBuffer: uint64, bufferSize: nat, ghost total: nat, ghost m: Machine)
    requires ptm.Valid() && frameBuffer + bufferSize + 0x1000 <= TWO_48
    requires Addressable(frameBuffer / 0x1000, BufferPages(bufferSize))
    requires TablesOver(ptm.State(), 0, 0, total) && Unmapped(m) && IdentityOver(m, ptm.State(), 0, total)
    requires FreeCount(Fill(ptm.State().bits, frameBuffer / 0x1000, BufferPages(bufferSize), true))
          >= NewTables(total, frameBuffer / 0x1000, Steps(bufferSize + 0x1000))
    modifies ptm.memory, ptm.allocator, ptm.allocator.pageBitmap.buffer
    ensures ptm.Valid() && ptm.allocator.OnlyBits() && BootMap(ptm.State(), total, frameBuffer, bufferSize)
    ensures OnlyTakes(old(ptm.State()), ptm.State())
    ensures Covers(ptm.State().bits, Fill(old(ptm.State()).bits, frameBuffer / 0x1000, BufferPages(bufferSize), true))
  {
    ghost var m1 := ptm.State();
    var frameBufferSize := bufferSize + 0x1000;
    ReserveRange(ptm, frameBuffer, frameBufferSize / 0x1000 + 1);
    ghost var m2 := ptm.State();
    BufferReserved(m1, m2, total, frameBuffer / 0x1000, BufferPages(bufferSize));
    IdentityMap(ptm, frameBuffer, frameBufferSize, total, frameBuffer / 0x1000, Steps(frameBufferSize));
    BufferMapped(m, m1, m2, ptm.State(), total, frameBuffer, bufferSize);
  }

  lemma BufferReserved(m1: Machine, m2: Machine, total: nat, a: nat, count: nat)
    requires m2 == m1.(bits := Fill(m1.bits, a, count, true)) && TablesOver(m1, 0, 0, total)
    ensures OnlyTakes(m1, m2) && TablesOver(m2, total, a, 0)
  {
    BitsDoNotMatter(m1, m2.bits, total, a);
    FillOnlyTakes(m1, a, count);
  }

  lemma BufferMapped(m: Machine, m1: Machine, m2: Machine, m3: Machine, total: nat, frameBuffer: uint64, bufferSize: nat)
    requires Unmapped(m) && IdentityOver(m, m1, 0, total)
    requires m2 == m1.(bits := Fill(m1.bits, frameBuffer / 0x1000, BufferPages(bufferSize), true)) && OnlyTakes(m1, m2)
    requires IdentityOver(m2, m3, frameBuffer / 0x1000, Steps(bufferSize + 0x1000)) && OnlyTakes(m2, m3)
    ensures BootMap(m3, total, frameBuffer, bufferSize) && OnlyTakes(m1, m3) && Covers(m3.bits, m2.bits)
  {
    BothMaps(m, m1, m2.bits, m3, total, frameBuffer, bufferSize);
    OnlyTakesTransitive(m1, m2, m3);
  }

  /** Taking frames from the allocator leaves tables and walks alone. */
  method ReserveRange(ptm: PageTableManager, addr: uint64, count: nat)
    requires ptm.Valid() && Addressable(addr / 0x1000, count)
    modifies ptm.allocator, ptm.allocator.pageBitmap.buffer
    ensures ptm.Valid() && ptm.allocator.OnlyBits()
    ensures ptm.State() == old(ptm.State()).(bits := Fill(old(ptm.State()).bits, addr / 0x1000, count, true))
  {
    ptm.allocator.AllocatePages(addr, count);
  }

  /** The PML4: a frame from the allocator, cleared. */
  method RootTable(memory: array<PageTable>, allocator: PageFrameAllocator) returns (ptm: PageTableManager)
    requires allocator.Valid() && memory as object != allocator.pageBitmap.buffer
    requires FreeCount(allocator.Bits()) >= 1 && |allocator.Bits()| <= memory.Length <= TWO_40
    modifies memory, allocator, allocator.pageBitmap.buffer
    ensures fresh(ptm) && ptm.memory == memory && ptm.allocator == allocator
    ensures ptm.Valid() && allocator.OnlyBits()
    ensures TablesOver(ptm.State(), 0, 0, 0) && Unmapped(ptm.State())
    ensures FreeCount(ptm.State().bits) == FreeCount(old(allocator.Bits())) - 1
    ensures Covers(ptm.State().bits, old(allocator.Bits()))
    ensures TablesFrom(ptm.State(), old(allocator.Bits())) && TablesLowest(ptm.State())
  {
    FreeCountZero(allocator.Bits());
    ghost var mem, bits := memory[..], allocator.Bits();
    ghost var f := LowestFree(bits).value;
    ptm := new PageTableManager(memory, allocator);
    var PML4 := ptm.NewTable();
    ptm.PML4 := PML4;
    assert ptm.State() == Machine(mem[f := Cleared()], bits[f := true], f);
    RootState(mem, bits, f);
  }

  lemma RootState(mem: Memory, bits: Bits, f: nat)
    requires LowestFree(bits) == Some(f) && |bits| <= |mem| <= TWO_40
    ensures var m := Machine(mem[f := Cleared()], bits[f := true], f);
      && Sound(m) && TablesOver(m, 0, 0, 0) && Unmapped(m)
      && FreeCount(m.bits) == FreeCount(bits) - 1 && Covers(m.bits, bits)
      && TablesFrom(m, bits) && TablesLowest(m)
  {
    FreeCountUpdate(bits, f, true);
    ClearedRoot(mem[f := Cleared()], f);
  }
}
