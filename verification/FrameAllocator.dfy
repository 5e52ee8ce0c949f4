/** The physical page frame allocator. */
module FrameAllocator {
  import opened Words
  import opened Options
  import opened Bitmaps
  import opened FrameBits
  import opened MemoryMap

  /** What a 64-bit counter shows. */
  function Wrap(x: int): uint64
    decreases if x < 0 then TWO_64 - x else x
  {
    if x < 0 then Wrap(x + TWO_64) else if x >= TWO_64 then Wrap(x - TWO_64) else x
  }

  lemma {:induction false} WrapIsRemainder(x: int)
    ensures Wrap(x) == x % TWO_64
    decreases if x < 0 then TWO_64 - x else x
  {
    if x < 0 {
      WrapIsRemainder(x + TWO_64);
      OneMoreTurn(x);
    } else if x >= TWO_64 {
      WrapIsRemainder(x - TWO_64);
      OneMoreTurn(x - TWO_64);
    }
  }

  lemma OneMoreTurn(x: int)
    ensures (x + TWO_64) % TWO_64 == x % TWO_64
  {
    assert x == (x / TWO_64) * TWO_64 + x % TWO_64;
  }

  lemma WrapSum(a: int, b: int)
    ensures Wrap(Wrap(a) + b) == Wrap(a + b)
  {
    WrapIsRemainder(a);
    WrapIsRemainder(Wrap(a) + b);
    WrapIsRemainder(a + b);
  }

  lemma WrapPages(n: uint64)
    ensures Wrap(n * 0x1000) == 0x1000 * (n % TWO_52)
  {
    WrapIsRemainder(n * 0x1000);
    var q, r := n / TWO_52, n % TWO_52;
    assert n * 0x1000 == q * TWO_64 + 0x1000 * r;
    UniqueQuotient(n * 0x1000, TWO_64, q, 0x1000 * r);
  }

  /** As long as frame 0 is in use, its address stands for no frame. */
  lemma NullIffNoneFree(bits: Bits)
    ensures FreeCount(bits) == 0 <==> LowestFree(bits).None?
    ensures bits != [] && bits[0] ==> LowestFree(bits) != Some(0)
  {
    FreeCountZero(bits);
  }

  /** The bit of one frame, in all that is tracked and in the bits of the frames. */
  lemma OneBit(tracked: Bits, i: nat, value: bool)
    requires tracked != []
    ensures var n := |tracked| - 1;
      && Fill(tracked, i, 1, value) == (if i < |tracked| then tracked[i := value] else tracked)
      && Fill(tracked, i, 1, value)[..n] == Fill(tracked[..n], i, 1, value)
    ensures i < |tracked| && tracked[i] == value ==> Fill(tracked, i, 1, value) == tracked
  {
    FillOne(tracked, i, value);
    FillPrefix(tracked, |tracked| - 1, i, 1, value);
  }

  lemma OthersStayUsed(bits: Bits, i: nat, n: nat)
    requires n <= |bits| && forall j :: 0 <= j < n ==> bits[j]
    ensures forall j :: 0 <= j < n && j != i ==> Fill(bits, i, 1, false)[j]
  {}

  class PageFrameAllocator {
    const pageBitmap: Bitmap
    var bitmapIndex: nat
    var allocatedMemory: uint64
    var reservedMemory: uint64
    var freeMemory: uint64
    var isInitialized: bool
    var memoryMapSize: uint64  // the size once it was computed
    ghost var taken: int  // pages allocated, less pages freed
    ghost var total: int  // bytes ever counted as free memory

    constructor ()
      ensures Valid() && fresh(Repr()) && !isInitialized && memoryMapSize == 0
      ensures bitmapIndex == 0 && reservedMemory == 0 && Counted()
      ensures Bits() == []
    {
      pageBitmap := new Bitmap();
      bitmapIndex := 0;
      allocatedMemory, reservedMemory, freeMemory := 0, 0, 0;
      isInitialized := false;
      memoryMapSize := 0;
      taken, total := 0, 0;
    }

    ghost function Repr(): set<object>
      reads pageBitmap
    {
      {this, pageBitmap, pageBitmap.buffer}
    }

    /** No frame below the search index is free, so a search may start there. */
    ghost predicate Valid()
      reads this, pageBitmap, pageBitmap.buffer
    {
      && pageBitmap.Valid()
      && bitmapIndex <= 8 * pageBitmap.size
      && forall j :: 0 <= j < bitmapIndex ==> Bits()[j]
    }

    ghost function Bits(): (bits: Bits)
      requires pageBitmap.Valid()
      reads pageBitmap, pageBitmap.buffer
      ensures |bits| == 8 * pageBitmap.size
    {
      pageBitmap.Bits()
    }

    /** The bits of the frames, and the one just past them that the bitmap's bounds
        tests let through. */
    ghost function Tracked(): (bits: Bits)
      requires pageBitmap.Valid()
      reads pageBitmap, pageBitmap.buffer
      ensures |bits| == 8 * pageBitmap.size + 1 && bits[..8 * pageBitmap.size] == Bits()
    {
      pageBitmap.Tracked()
    }

    twostate predicate OnlyBits()
      requires old(pageBitmap.Valid()) && pageBitmap.Valid()
      reads this, pageBitmap, pageBitmap.buffer
    {
      && pageBitmap.buffer == old(pageBitmap.buffer) && pageBitmap.size == old(pageBitmap.size)
      && pageBitmap.address == old(pageBitmap.address)
      && reservedMemory == old(reservedMemory) && isInitialized == old(isInitialized)
      && memoryMapSize == old(memoryMapSize) && pageBitmap.Beyond() == old(pageBitmap.Beyond())
    }

    /** The counters agree with the pages that changed hands, so what they count
        together never changes but for memory newly found. */
    ghost predicate Counted()
      reads `allocatedMemory, `freeMemory, `taken, `total
    {
      && allocatedMemory == Wrap(0x1000 * taken)
      && freeMemory == Wrap(total - 0x1000 * taken)
    }

    /** What is allocated and what is free add up to all that was ever found. */
    lemma NothingLost()
      requires Counted()
      ensures Wrap(allocatedMemory + freeMemory) == Wrap(total)
    {
      WrapSum(0x1000 * taken, Wrap(total - 0x1000 * taken));
      WrapSum(total - 0x1000 * taken, 0x1000 * taken);
    }

    /** Exactly the frames that changed hands were counted. */
    twostate predicate Took()
      requires old(pageBitmap.Valid()) && pageBitmap.Valid()
      reads this, pageBitmap, pageBitmap.buffer
    {
      && taken - old(taken) == FreeCount(old(Tracked())) - FreeCount(Tracked())
      && total == old(total)
      && (old(Counted()) ==> Counted())
    }

    /** Moves pages from the free to the allocated memory, or back. */
    method CountPages(pages: int)
      modifies this`allocatedMemory, this`freeMemory, this`taken
      ensures allocatedMemory == Wrap(old(allocatedMemory) + 0x1000 * pages)
      ensures freeMemory == Wrap(old(freeMemory) - 0x1000 * pages)
      ensures taken == old(taken) + pages && (old(Counted()) ==> Counted())
    {
      WrapSum(0x1000 * taken, 0x1000 * pages);
      WrapSum(total - 0x1000 * taken, -0x1000 * pages);
      allocatedMemory := Wrap(allocatedMemory + 0x1000 * pages);
      freeMemory := Wrap(freeMemory - 0x1000 * pages);
      taken := taken + pages;
    }

    /** Writes the bit of one frame, if the bitmap's bounds test lets it through. */
    method SetBit(i: nat, value: bool) returns (done: bool)
      requires pageBitmap.Valid()
      modifies pageBitmap.buffer
      ensures pageBitmap.Valid() && OnlyBits() && done == (i < |Tracked()|)
      ensures Tracked() == Fill(old(Tracked()), i, 1, value) && Bits() == Fill(old(Bits()), i, 1, value)
      ensures Tracked() == if done then old(Tracked())[i := value] else old(Tracked())
    {
      OneBit(Tracked(), i, value);
      done := pageBitmap.Set(i, value);
    }

    method AllocatePage(addr: uint64)
      requires Valid() && Addressable(addr / 0x1000, 1)
      modifies this`allocatedMemory, this`freeMemory, this`taken, pageBitmap.buffer
      ensures Valid() && OnlyBits() && Took()
      ensures Tracked() == Fill(old(Tracked()), addr / 0x1000, 1, true)
      ensures Bits() == Fill(old(Bits()), addr / 0x1000, 1, true)
      ensures bitmapIndex == old(bitmapIndex)
    {
      var i := addr / 0x1000;
      OneBit(Tracked(), i, true);
      if pageBitmap.Get(i) {
        return;
      }
      var done := SetBit(i, true);
      if done {
        FreeCountUpdate(old(Tracked()), i, true);
        CountTaken();
      }
    }

    /** The search stops at the lowest free frame, or at the end of the bitmap. */
    method SkipUsed()
      requires Valid()
      modifies this`bitmapIndex
      ensures Valid() && bitmapIndex == match LowestFree(Bits()) case None => 8 * pageBitmap.size case Some(f) => f
    {
      while bitmapIndex < pageBitmap.size * 8
        invariant Valid()
      {
        if !pageBitmap.Get(bitmapIndex) {
          break;
        }
        assert Bits()[bitmapIndex] == Tracked()[bitmapIndex];
        bitmapIndex := bitmapIndex + 1;
      }
      assert bitmapIndex < 8 * pageBitmap.size ==> Bits()[bitmapIndex] == Tracked()[bitmapIndex];
    }

    method RequestPage() returns (addr: uint64)
      requires Valid() && 8 * pageBitmap.size <= TWO_52
      modifies this, pageBitmap.buffer
      ensures Valid() && OnlyBits() && Took()
      ensures match LowestFree(old(Bits()))
              case None => addr == 0 && Bits() == old(Bits())
              case Some(f) => addr == f * 0x1000 && Bits() == old(Bits())[f := true]
      ensures old(Bits()) != [] && old(Bits())[0] ==> (addr == 0 <==> FreeCount(old(Bits())) == 0)
    {
      NullIffNoneFree(Bits());
      SkipUsed();
      if bitmapIndex < pageBitmap.size * 8 {
        addr := TakeFound();
        return;
      }
      return 0;
    }

    /** The frame the search stopped at. */
    method TakeFound() returns (addr: uint64)
      requires Valid() && bitmapIndex < 8 * pageBitmap.size <= TWO_52
      modifies this`allocatedMemory, this`freeMemory, this`taken, pageBitmap.buffer
      ensures Valid() && OnlyBits() && Took() && bitmapIndex == old(bitmapIndex)
      ensures addr == bitmapIndex * 0x1000 && Bits() == old(Bits())[bitmapIndex := true]
    {
      FillOne(Bits(), bitmapIndex, true);
      AllocatePage(bitmapIndex * 0x1000);
      addr := bitmapIndex * 0x1000;
    }

    /** Frames already in use are passed over, so only the others change the counters. */
    method AllocatePages(addr: uint64, pageCount: nat)
      requires Valid() && Addressable(addr / 0x1000, pageCount)
      modifies this`allocatedMemory, this`freeMemory, this`taken, pageBitmap.buffer
      ensures Valid() && OnlyBits() && Took()
      ensures Tracked() == Fill(old(Tracked()), addr / 0x1000, pageCount, true)
      ensures Bits() == Fill(old(Bits()), addr / 0x1000, pageCount, true)
    {
      var startIndex := addr / 0x1000;
      var i := startIndex;
      ghost var was := Tracked();
      FillNothing(was, startIndex, true);
      while i < startIndex + pageCount
        invariant startIndex <= i <= startIndex + pageCount
        invariant Valid() && OnlyBits() && Took()
        invariant Tracked() == Fill(was, startIndex, i - startIndex, true)
      {
        FillOneMore(was, startIndex, i - startIndex, true);
        AllocatePage(i * 0x1000);
        i := i + 1;
      }
      FillPrefix(old(Tracked()), 8 * pageBitmap.size, startIndex, pageCount, true);
    }

    /** Lets the next search start no later than at the frame. */
    method PullBack(i: nat)
      requires pageBitmap.Valid() && bitmapIndex <= 8 * pageBitmap.size
      requires forall j :: 0 <= j < bitmapIndex && j != i ==> Bits()[j]
      modifies this`bitmapIndex
      ensures Valid()
    {
      if bitmapIndex > i {
        bitmapIndex := i;
      }
    }

    method CountTaken()
      modifies this`allocatedMemory, this`freeMemory, this`taken
      ensures taken == old(taken) + 1 && (old(Counted()) ==> Counted())
    {
      CountPages(1);
    }

    method CountFreed(i: nat)
      requires pageBitmap.Valid() && bitmapIndex <= 8 * pageBitmap.size
      requires forall j :: 0 <= j < bitmapIndex && j != i ==> Bits()[j]
      modifies this`allocatedMemory, this`freeMemory, this`taken, this`bitmapIndex
      ensures Valid() && taken == old(taken) - 1 && (old(Counted()) ==> Counted())
    {
      CountPages(-1);
      PullBack(i);
    }

    /** A freed frame below the search index pulls the index back to it. */
    method FreePage(addr: uint64)
      requires Valid() && Addressable(addr / 0x1000, 1)
      modifies this`allocatedMemory, this`freeMemory, this`taken, this`bitmapIndex, pageBitmap.buffer
      ensures Valid() && OnlyBits() && Took()
      ensures Tracked() == Fill(old(Tracked()), addr / 0x1000, 1, false)
      ensures Bits() == Fill(old(Bits()), addr / 0x1000, 1, false)
    {
      var i := addr / 0x1000;
      OneBit(Tracked(), i, false);
      if !pageBitmap.Get(i) {
        return;
      }
      var done := SetBit(i, false);
      if done {
        FreeCountUpdate(old(Tracked()), i, false);
        OthersStayUsed(old(Bits()), i, bitmapIndex);
        CountFreed(i);
      }
    }

    method FreePages(addr: uint64, pageCount: nat)
      requires Valid() && Addressable(addr / 0x1000, pageCount)
      modifies this`allocatedMemory, this`freeMemory, this`taken, this`bitmapIndex, pageBitmap.buffer
      ensures Valid() && OnlyBits() && Took()
      ensures Tracked() == Fill(old(Tracked()), addr / 0x1000, pageCount, false)
      ensures Bits() == Fill(old(Bits()), addr / 0x1000, pageCount, false)
    {
      var startIndex := addr / 0x1000;
      var i := startIndex;
      ghost var was := Tracked();
      FillNothing(was, startIndex, false);
      while i < startIndex + pageCount
        invariant startIndex <= i <= startIndex + pageCount
        invariant Valid() && OnlyBits() && Took()
        invariant Tracked() == Fill(was, startIndex, i - startIndex, false)
      {
        FillOneMore(was, startIndex, i - startIndex, false);
        FreePage(i * 0x1000);
        i := i + 1;
      }
      FillPrefix(old(Tracked()), 8 * pageBitmap.size, startIndex, pageCount, false);
    }

    method ReservePage(addr: uint64)
      requires Valid() && Addressable(addr / 0x1000, 1)
      modifies pageBitmap.buffer
      ensures Valid() && OnlyBits()
      ensures Tracked() == Fill(old(Tracked()), addr / 0x1000, 1, true)
      ensures Bits() == Fill(old(Bits()), addr / 0x1000, 1, true)
    {
      var i := addr / 0x1000;
      OneBit(Tracked(), i, true);
      if !pageBitmap.Get(i) {
        var done := SetBit(i, true);
      }
    }

    method ReservePages(addr: uint64, pageCount: nat)
      requires Valid() && Addressable(addr / 0x1000, pageCount)
      modifies pageBitmap.buffer
      ensures Valid() && OnlyBits()
      ensures Tracked() == Fill(old(Tracked()), addr / 0x1000, pageCount, true)
      ensures Bits() == Fill(old(Bits()), addr / 0x1000, pageCount, true)
    {
      var startIndex := addr / 0x1000;
      var i := startIndex;
      FillNothing(Tracked(), startIndex, true);
      while i < startIndex + pageCount
        invariant startIndex <= i <= startIndex + pageCount
        invariant Valid() && OnlyBits()
        invariant Tracked() == Fill(old(Tracked()), startIndex, i - startIndex, true)
      {
        FillOneMore(old(Tracked()), startIndex, i - startIndex, true);
        ReservePage(i * 0x1000);
        i := i + 1;
      }
      FillPrefix(old(Tracked()), 8 * pageBitmap.size, startIndex, pageCount, true);
    }

    method UnreservePage(addr: uint64)
      requires Valid() && Addressable(addr / 0x1000, 1)
      modifies this`bitmapIndex, pageBitmap.buffer
      ensures Valid() && OnlyBits()
      ensures Tracked() == Fill(old(Tracked()), addr / 0x1000, 1, false)
      ensures Bits() == Fill(old(Bits()), addr / 0x1000, 1, false)
    {
      var i := addr / 0x1000;
      OneBit(Tracked(), i, false);
      if !pageBitmap.Get(i) {
        return;
      }
      var done := SetBit(i, false);
      if done {
        OthersStayUsed(old(Bits()), i, bitmapIndex);
        PullBack(i);
      }
    }

    method UnreservePages(addr: uint64, pageCount: nat)
      requires Valid() && Addressable(addr / 0x1000, pageCount)
      modifies this`bitmapIndex, pageBitmap.buffer
      ensures Valid() && OnlyBits()
      ensures Tracked() == Fill(old(Tracked()), addr / 0x1000, pageCount, false)
      ensures Bits() == Fill(old(Bits()), addr / 0x1000, pageCount, false)
    {
      var startIndex := addr / 0x1000;
      var i := startIndex;
      FillNothing(Tracked(), startIndex, false);
      while i < startIndex + pageCount
        invariant startIndex <= i <= startIndex + pageCount
        invariant Valid() && OnlyBits()
        invariant Tracked() == Fill(old(Tracked()), startIndex, i - startIndex, false)
      {
        FillOneMore(old(Tracked()), startIndex, i - startIndex, false);
        UnreservePage(i * 0x1000);
        i := i + 1;
      }
      FillPrefix(old(Tracked()), 8 * pageBitmap.size, startIndex, pageCount, false);
    }

    /** The size is summed once and remembered. */
    method GetMemorySize(map_: seq<MemoryDescriptor>) returns (size: uint64)
      modifies this`memoryMapSize
      ensures size == memoryMapSize
      ensures memoryMapSize == if old(memoryMapSize) > 0 then old(memoryMapSize) else Wrap(0x1000 * TotalPages(map_))
    {
      if memoryMapSize > 0 {
        return memoryMapSize;
      }
      for i := 0 to |map_|
        invariant memoryMapSize == Wrap(0x1000 * TotalPages(map_[..i]))
      {
        assert map_[..i + 1][..i] == map_[..i];
        WrapSum(0x1000 * TotalPages(map_[..i]), map_[i].numPages * 0x1000);
        memoryMapSize := Wrap(memoryMapSize + map_[i].numPages * 0x1000);
      }
      assert map_[..|map_|] == map_;
      return memoryMapSize;
    }

    /** The bytes of the bitmap, found at the address, are cleared whatever they were;
        those behind it stay. */
    method InitializeBitmap(bitmapSize: nat, bufferAddress: uint64, found: array<bv8>)
      requires bitmapSize < found.Length
      modifies pageBitmap, found
      ensures pageBitmap.size == bitmapSize && pageBitmap.buffer == found && pageBitmap.address == bufferAddress
      ensures pageBitmap.Valid() && forall j :: 0 <= j < 8 * bitmapSize ==> !Bits()[j]
      ensures found[bitmapSize..] == old(found[bitmapSize..])
    {
      pageBitmap.size := bitmapSize;
      pageBitmap.address := bufferAddress;
      pageBitmap.buffer := found;
      for i := 0 to bitmapSize
        invariant forall j :: 0 <= j < i ==> found[j] == 0
        invariant found[bitmapSize..] == old(found[bitmapSize..])
        modifies found
      {
        found[i] := 0;
      }
      assert forall j :: 0 <= j < 8 * bitmapSize ==> Bits()[j] == BitAt(found[j / 8], j % 8);
    }

    /** Reads the firmware's map once: afterwards a frame is free exactly when
        `FreeAtBoot` says so. */
    method ReadEfiMemoryMap(map_: seq<MemoryDescriptor>, found: array<bv8>)
      requires Valid()
      requires !isInitialized ==> Fits(map_) && memoryMapSize == 0 && bitmapIndex == 0 && Counted()
      requires !isInitialized ==> BitmapSize(map_) < found.Length
      modifies this, pageBitmap, pageBitmap.buffer, found
      ensures Valid() && isInitialized
      ensures old(isInitialized) ==> Bits() == old(Bits())
      ensures !old(isInitialized) ==>
        && pageBitmap.buffer == found && Counted()
        && pageBitmap.size == BitmapSize(map_) && pageBitmap.address == LargestFree(map_).address
        && memoryMapSize == 0x1000 * TotalPages(map_)
        && Bits() == BootBits(map_)
        && total == old(total) + 0x1000 * PagesOf(map_, {CONVENTIONAL_MEMORY})
        && reservedMemory == Wrap(old(reservedMemory) + 0x1000 * PagesOf(map_, BOOT_KINDS) + 0x100000)
        && pageBitmap.Beyond() == old(BitsOf(found[..]))[8 * BitmapSize(map_) + 1..]
    {
      if isInitialized {
        return;
      }
      isInitialized := true;
      var memorySize := PlaceBitmap(map_, found);
      MarkFrames(map_, memorySize);
    }

    /** A bitmap for all memory counted, all clear, at the start of the largest segment. */
    method PlaceBitmap(map_: seq<MemoryDescriptor>, found: array<bv8>) returns (memorySize: uint64)
      requires Fits(map_) && memoryMapSize == 0 && bitmapIndex == 0 && BitmapSize(map_) < found.Length
      modifies this`memoryMapSize, pageBitmap, found
      ensures Valid() && pageBitmap.buffer == found
      ensures pageBitmap.size == BitmapSize(map_) && pageBitmap.address == LargestFree(map_).address
      ensures memorySize == memoryMapSize == 0x1000 * TotalPages(map_)
      ensures forall j :: 0 <= j < |Bits()| ==> !Bits()[j]
      ensures pageBitmap.Beyond() == old(BitsOf(found[..]))[8 * BitmapSize(map_) + 1..]
    {
      FitsSizes(map_);
      var largestFreeMemSeg := FindLargest(map_);
      memorySize := GetMemorySize(map_);
      var bitmapSize := memorySize / 0x1000 / 8 + 1;
      ghost var before := found[..];
      InitializeBitmap(bitmapSize, largestFreeMemSeg, found);
      SameBehind(before, found[..], bitmapSize);
    }

    lemma SameBehind(a: seq<bv8>, b: seq<bv8>, n: nat)
      requires |a| == |b| && n < |a| && a[n..] == b[n..]
      ensures BitsOf(a)[8 * n + 1..] == BitsOf(b)[8 * n + 1..]
    {
      forall j | 8 * n + 1 <= j < 8 * |a|
        ensures BitsOf(a)[j] == BitsOf(b)[j]
      {
        assert a[j / 8] == a[n..][j / 8 - n] && b[j / 8] == b[n..][j / 8 - n];
      }
    }

    /** Everything is reserved, conventional memory is given back, and the low
        megabyte and the bitmap itself are taken again. */
    method MarkFrames(map_: seq<MemoryDescriptor>, memorySize: uint64)
      requires Valid() && Fits(map_) && pageBitmap.size == BitmapSize(map_)
      requires pageBitmap.address == LargestFree(map_).address && memorySize == 0x1000 * TotalPages(map_)
      requires forall j :: 0 <= j < |Bits()| ==> !Bits()[j]
      modifies this`bitmapIndex, this`freeMemory, this`reservedMemory, this`allocatedMemory, this`total, this`taken, pageBitmap.buffer
      ensures pageBitmap.Beyond() == old(pageBitmap.Beyond())
      ensures Valid() && (old(Counted()) ==> Counted())
      ensures Bits() == BootBits(map_)
      ensures total == old(total) + 0x1000 * PagesOf(map_, {CONVENTIONAL_MEMORY})
      ensures reservedMemory == Wrap(old(reservedMemory) + 0x1000 * PagesOf(map_, BOOT_KINDS) + 0x100000)
    {
      ghost var cleared := Bits();
      MarkMap(map_, memorySize);
      ghost var reserved := Bits();
      BootSequence(map_, cleared);
      AllocatePages(pageBitmap.address, pageBitmap.size / 0x1000 + 1);
      assert Bits() == Fill(reserved, LargestFree(map_).address / 0x1000, BitmapSize(map_) / 0x1000 + 1, true);
    }

    method MarkMap(map_: seq<MemoryDescriptor>, memorySize: uint64)
      requires Valid() && Fits(map_) && pageBitmap.size == BitmapSize(map_) && memorySize == 0x1000 * TotalPages(map_)
      modifies this`bitmapIndex, this`freeMemory, this`reservedMemory, this`total, pageBitmap.buffer
      ensures pageBitmap.Beyond() == old(pageBitmap.Beyond())
      ensures Valid() && (old(Counted()) ==> Counted())
      ensures Bits() == Fill(Reclaim(Fill(old(Bits()), 0, TotalPages(map_) + 1, true), map_), 0, 0x100, true)
      ensures total == old(total) + 0x1000 * PagesOf(map_, {CONVENTIONAL_MEMORY})
      ensures reservedMemory == Wrap(old(reservedMemory) + 0x1000 * PagesOf(map_, BOOT_KINDS) + 0x100000)
    {
      ReservePages(0, memorySize / 0x1000 + 1);
      CountMap(map_);
      ReserveLowMemory(old(reservedMemory) + 0x1000 * PagesOf(map_, BOOT_KINDS));
    }

    /** The first megabyte. */
    method ReserveLowMemory(ghost exact: int)
      requires Valid() && Addressable(0, 0x100) && reservedMemory == Wrap(exact)
      modifies this`reservedMemory, pageBitmap.buffer
      ensures pageBitmap.Beyond() == old(pageBitmap.Beyond())
      ensures Valid() && pageBitmap.buffer == old(pageBitmap.buffer) && pageBitmap.size == old(pageBitmap.size)
      ensures Bits() == Fill(old(Bits()), 0, 0x100, true) && reservedMemory == Wrap(exact + 0x100000)
    {
      ReservePages(0, 0x100);
      WrapSum(exact, 0x100000);
      reservedMemory := Wrap(reservedMemory + 0x100000);
    }

    method FindLargest(map_: seq<MemoryDescriptor>) returns (largestFreeMemSeg: uint64)
      ensures largestFreeMemSeg == LargestFree(Counted64(map_)).address
      ensures SizesFit(map_) ==> largestFreeMemSeg == LargestFree(map_).address
    {
      largestFreeMemSeg := 0;
      var largestFreeMemSize: uint64 := 0;
      for i := 0 to |map_|
        invariant largestFreeMemSeg == LargestFree(Counted64(map_)[..i]).address
        invariant largestFreeMemSize == 0x1000 * LargestFree(Counted64(map_)[..i]).pages
      {
        assert Counted64(map_)[..i + 1][..i] == Counted64(map_)[..i];
        WrapPages(map_[i].numPages);
        if map_[i].kind == CONVENTIONAL_MEMORY {
          if Wrap(map_[i].numPages * 0x1000) > largestFreeMemSize {
            largestFreeMemSeg := map_[i].physAddr;
            largestFreeMemSize := Wrap(map_[i].numPages * 0x1000);
          }
        }
      }
      assert Counted64(map_)[..|map_|] == Counted64(map_);
      if SizesFit(map_) {
        assert Counted64(map_) == map_;
      }
    }

    /** The loop that gives conventional memory back and counts it. */
    method CountMap(map_: seq<MemoryDescriptor>)
      requires Valid() && Fits(map_) && pageBitmap.size == BitmapSize(map_)
      modifies this`bitmapIndex, this`freeMemory, this`reservedMemory, this`total, pageBitmap.buffer
      ensures pageBitmap.Beyond() == old(pageBitmap.Beyond())
      ensures Valid() && (old(Counted()) ==> Counted())
      ensures Bits() == Reclaim(old(Bits()), map_)
      ensures total == old(total) + 0x1000 * PagesOf(map_, {CONVENTIONAL_MEMORY})
      ensures reservedMemory == Wrap(old(reservedMemory) + 0x1000 * PagesOf(map_, BOOT_KINDS))
    {
      for i := 0 to |map_|
        invariant Valid() && (old(Counted()) ==> Counted()) && pageBitmap.Beyond() == old(pageBitmap.Beyond())
        invariant Bits() == Reclaim(old(Bits()), map_[..i])
        invariant total == old(total) + 0x1000 * PagesOf(map_[..i], {CONVENTIONAL_MEMORY})
        invariant reservedMemory == Wrap(old(reservedMemory) + 0x1000 * PagesOf(map_[..i], BOOT_KINDS))
      {
        CountNext(map_, i, old(Bits()), old(reservedMemory), old(total));
      }
      assert map_[..|map_|] == map_;
    }

    method CountNext(map_: seq<MemoryDescriptor>, i: nat, ghost bits: Bits, ghost reserved: int, ghost found: int)
      requires Valid() && Fits(map_) && i < |map_|
      requires Bits() == Reclaim(bits, map_[..i])
      requires total == found + 0x1000 * PagesOf(map_[..i], {CONVENTIONAL_MEMORY})
      requires reservedMemory == Wrap(reserved + 0x1000 * PagesOf(map_[..i], BOOT_KINDS))
      modifies this`bitmapIndex, this`freeMemory, this`reservedMemory, this`total, pageBitmap.buffer
      ensures Valid() && (old(Counted()) ==> Counted()) && pageBitmap.Beyond() == old(pageBitmap.Beyond())
      ensures Bits() == Reclaim(bits, map_[..i + 1])
      ensures total == found + 0x1000 * PagesOf(map_[..i + 1], {CONVENTIONAL_MEMORY})
      ensures reservedMemory == Wrap(reserved + 0x1000 * PagesOf(map_[..i + 1], BOOT_KINDS))
    {
      assert map_[..i + 1][..i] == map_[..i];
      PagesNext(map_, i, {CONVENTIONAL_MEMORY});
      PagesNext(map_, i, BOOT_KINDS);
      CountDescriptor(map_[i], reserved + 0x1000 * PagesOf(map_[..i], BOOT_KINDS));
    }

    method CountDescriptor(desc: MemoryDescriptor, ghost exact: int)
      requires Valid() && reservedMemory == Wrap(exact)
      requires desc.kind == CONVENTIONAL_MEMORY ==> Addressable(desc.physAddr / 0x1000, desc.numPages)
      modifies this`bitmapIndex, this`freeMemory, this`reservedMemory, this`total, pageBitmap.buffer
      ensures Valid() && (old(Counted()) ==> Counted()) && pageBitmap.Beyond() == old(pageBitmap.Beyond())
      ensures Bits() == if desc.kind == CONVENTIONAL_MEMORY then Fill(old(Bits()), desc.physAddr / 0x1000, desc.numPages, false) else old(Bits())
      ensures total == old(total) + (if desc.kind == CONVENTIONAL_MEMORY then 0x1000 * desc.numPages else 0)
      ensures reservedMemory == Wrap(exact + 0x1000 * (if desc.kind in BOOT_KINDS then desc.numPages else 0))
    {
      if desc.kind == CONVENTIONAL_MEMORY {
        UnreservePages(desc.physAddr, desc.numPages);
        CountFound(desc.numPages);
      }
      CountReserved(desc, exact);
    }

    /** Memory of the loader and the boot services counts as reserved. */
    method CountReserved(desc: MemoryDescriptor, ghost exact: int)
      requires reservedMemory == Wrap(exact)
      modifies this`reservedMemory
      ensures reservedMemory == Wrap(exact + 0x1000 * (if desc.kind in BOOT_KINDS then desc.numPages else 0))
    {
      if desc.kind == 2 || desc.kind == 3 || desc.kind == 4 || desc.kind == 5 {
        WrapSum(exact, desc.numPages * 0x1000);
        reservedMemory := Wrap(reservedMemory + desc.numPages * 0x1000);
      }
    }

    /** Conventional memory counts as free. */
    method CountFound(numPages: uint64)
      modifies this`freeMemory, this`total
      ensures freeMemory == Wrap(old(freeMemory) + numPages * 0x1000)
      ensures total == old(total) + numPages * 0x1000 && (old(Counted()) ==> Counted())
    {
      WrapSum(total - 0x1000 * taken, numPages * 0x1000);
      freeMemory := Wrap(freeMemory + numPages * 0x1000);
      total := total + numPages * 0x1000;
    }
  }

  lemma FillNothing(bits: Bits, start: nat, value: bool)
    ensures Fill(bits, start, 0, value) == bits
  {}

  lemma FillOneMore(bits: Bits, start: nat, count: nat, value: bool)
    ensures Fill(Fill(bits, start, count, value), start + count, 1, value) == Fill(bits, start, count + 1, value)
  {}
}
