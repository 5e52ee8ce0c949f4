/** The firmware's memory map (UEFI specification, section 7.2), and which
    frames it leaves to be handed out. */
module MemoryMap {
  import opened Words
  import opened Options
  import opened FrameBits

  const CONVENTIONAL_MEMORY: nat := 7
  datatype MemoryDescriptor = MemoryDescriptor(kind: nat, physAddr: uint64, numPages: uint64) {
    predicate Covers(j: nat) {
      physAddr / 0x1000 <= j < physAddr / 0x1000 + numPages
    }
  }

  function TotalPages(map_: seq<MemoryDescriptor>): nat {
    if map_ == [] then 0 else TotalPages(map_[..|map_| - 1]) + map_[|map_| - 1].numPages
  }

  /** Loader and boot services code and data: counted as reserved at boot. */
  const BOOT_KINDS: set<nat> := {2, 3, 4, 5}

  function PagesOf(map_: seq<MemoryDescriptor>, kinds: set<nat>): nat {
    if map_ == [] then 0
    else
      var d := map_[|map_| - 1];
      PagesOf(map_[..|map_| - 1], kinds) + (if d.kind in kinds then d.numPages else 0)
  }

  lemma PagesNext(map_: seq<MemoryDescriptor>, i: nat, kinds: set<nat>)
    requires i < |map_|
    ensures PagesOf(map_[..i + 1], kinds) == PagesOf(map_[..i], kinds) + (if map_[i].kind in kinds then map_[i].numPages else 0)
  {
    assert map_[..i + 1][..i] == map_[..i];
  }

  datatype Segment = Segment(address: uint64, pages: nat)

  /** The first of the largest conventional segments, or nothing at address 0. */
  function LargestFree(map_: seq<MemoryDescriptor>): Segment {
    if map_ == [] then Segment(0, 0)
    else
      var best, d := LargestFree(map_[..|map_| - 1]), map_[|map_| - 1];
      if d.kind == CONVENTIONAL_MEMORY && d.numPages > best.pages then Segment(d.physAddr, d.numPages) else best
  }

  /** One bit a frame of the memory counted, rounded up to whole bytes and more. */
  function BitmapSize(map_: seq<MemoryDescriptor>): nat {
    TotalPages(map_) / 8 + 1
  }

  predicate IsBitmapPage(map_: seq<MemoryDescriptor>, j: nat) {
    var first := LargestFree(map_).address / 0x1000;
    first <= j < first + BitmapSize(map_) / 0x1000 + 1
  }

  /** A frame may be handed out if it is above the first megabyte, is no page of
      the bitmap, and is conventional memory or lies past the last frame counted. */
  predicate FreeAtBoot(map_: seq<MemoryDescriptor>, j: nat) {
    && j >= 0x100
    && !IsBitmapPage(map_, j)
    && (j > TotalPages(map_) || InConventional(map_, j))
  }

  predicate InConventional(map_: seq<MemoryDescriptor>, j: nat) {
    exists k :: 0 <= k < |map_| && map_[k].kind == CONVENTIONAL_MEMORY && map_[k].Covers(j)
  }

  /** The bits after the conventional memory of a map was given back. */
  function Reclaim(bits: Bits, map_: seq<MemoryDescriptor>): (r: Bits)
    ensures |r| == |bits|
  {
    if map_ == [] then bits
    else
      var r, d := Reclaim(bits, map_[..|map_| - 1]), map_[|map_| - 1];
      if d.kind == CONVENTIONAL_MEMORY then Fill(r, d.physAddr / 0x1000, d.numPages, false) else r
  }

  lemma {:induction false} ReclaimAt(bits: Bits, map_: seq<MemoryDescriptor>, j: nat)
    requires j < |bits|
    ensures Reclaim(bits, map_)[j] == (bits[j] && !InConventional(map_, j))
  {
    if map_ != [] {
      var n := |map_| - 1;
      var rest := map_[..n];
      ReclaimAt(bits, rest, j);
      assert forall k :: 0 <= k < n ==> map_[k] == rest[k];
    }
  }

  function BootBits(map_: seq<MemoryDescriptor>): (bits: Bits)
    ensures |bits| == 8 * BitmapSize(map_)
    ensures forall j :: 0 <= j < |bits| ==> bits[j] == !FreeAtBoot(map_, j)
  {
    seq(8 * BitmapSize(map_), j requires 0 <= j => !FreeAtBoot(map_, j))
  }

  /** Frames with addresses of 64 bits. */
  predicate Addressable(start: nat, count: nat) {
    start + count <= TWO_52
  }

  /** All sizes and addresses of the map fit 64 bits. */
  predicate Fits(map_: seq<MemoryDescriptor>) {
    && 0x1000 * TotalPages(map_) < TWO_64 - 0x8000
    && Addressable(LargestFree(map_).address / 0x1000, BitmapSize(map_) / 0x1000 + 1)
    && forall k :: 0 <= k < |map_| && map_[k].kind == CONVENTIONAL_MEMORY ==>
         Addressable(map_[k].physAddr / 0x1000, map_[k].numPages)
  }

  predicate SizesFit(map_: seq<MemoryDescriptor>) {
    forall k :: 0 <= k < |map_| ==> map_[k].numPages < TWO_52
  }

  lemma FitsSizes(map_: seq<MemoryDescriptor>)
    requires Fits(map_)
    ensures SizesFit(map_)
  {
    forall k | 0 <= k < |map_|
      ensures map_[k].numPages < TWO_52
    {
      PrefixPages(map_, k);
    }
  }

  /** The map as far as 64-bit sizes in bytes tell the page counts. */
  function Counted64(map_: seq<MemoryDescriptor>): seq<MemoryDescriptor> {
    seq(|map_|, k requires 0 <= k < |map_| => map_[k].(numPages := map_[k].numPages % TWO_52))
  }

  lemma {:induction false} PrefixPages(map_: seq<MemoryDescriptor>, i: nat)
    requires i <= |map_|
    ensures TotalPages(map_[..i]) <= TotalPages(map_)
    ensures i < |map_| ==> TotalPages(map_[..i]) + map_[i].numPages <= TotalPages(map_)
    decreases |map_| - i
  {
    if i < |map_| {
      PrefixPages(map_, i + 1);
      assert map_[..i + 1][..i] == map_[..i];
    } else {
      assert map_[..i] == map_;
    }
  }

  predicate IsSegmentOf(map_: seq<MemoryDescriptor>, s: Segment) {
    exists k :: 0 <= k < |map_| && map_[k].kind == CONVENTIONAL_MEMORY && s == Segment(map_[k].physAddr, map_[k].numPages)
  }

  /** The segment found is a conventional one of greatest size. */
  lemma {:induction false} LargestFreeIsLargest(map_: seq<MemoryDescriptor>)
    ensures var best := LargestFree(map_);
      && (forall k :: 0 <= k < |map_| && map_[k].kind == CONVENTIONAL_MEMORY ==> map_[k].numPages <= best.pages)
      && (best == Segment(0, 0) || IsSegmentOf(map_, best))
  {
    if map_ != [] {
      var n := |map_| - 1;
      var rest := map_[..n];
      LargestFreeIsLargest(rest);
      assert forall k :: 0 <= k < n ==> map_[k] == rest[k];
    }
  }

  /** A frame free at boot holds no byte of the bitmap, nor the byte behind it that the
      bounds tests let through. */
  lemma BitmapIsNotFree(map_: seq<MemoryDescriptor>, byte: nat)
    requires LargestFree(map_).address % 0x1000 == 0
    requires LargestFree(map_).address <= byte <= LargestFree(map_).address + BitmapSize(map_)
    ensures !FreeAtBoot(map_, byte / 0x1000)
  {}

  /** The frame of a byte of counted memory is free if and only if the byte is above the
      first megabyte, in no page of the bitmap, and in a segment of type 7. */
  lemma FreeBytes(map_: seq<MemoryDescriptor>, byte: nat)
    requires byte / 0x1000 <= TotalPages(map_)
    requires forall k :: 0 <= k < |map_| ==> map_[k].physAddr % 0x1000 == 0
    ensures FreeAtBoot(map_, byte / 0x1000) <==>
      && byte >= 0x10_0000 && !IsBitmapPage(map_, byte / 0x1000)
      && exists k :: 0 <= k < |map_| && map_[k].kind == 7
           && map_[k].physAddr <= byte < map_[k].physAddr + 0x1000 * map_[k].numPages
  {
    forall k | 0 <= k < |map_|
      ensures map_[k].Covers(byte / 0x1000) <==> map_[k].physAddr <= byte < map_[k].physAddr + 0x1000 * map_[k].numPages
    {}
  }

  /** The firmware told of the frame, whatever it said. */
  predicate Reported(map_: seq<MemoryDescriptor>, j: nat) {
    exists k :: 0 <= k < |map_| && map_[k].Covers(j)
  }

  /** The bitmap is rounded up to whole bytes, and the frames past those counted stay
      free: these, and these only, may be returned without anyone having reported them. */
  lemma ReturnedUnreported(map_: seq<MemoryDescriptor>, f: nat)
    requires !Reported(map_, f)
    ensures CanReturn(BootBits(map_), f) <==>
              TotalPages(map_) < f < 8 * BitmapSize(map_) && 0x100 <= f && !IsBitmapPage(map_, f)
  {
    CanReturnFree(BootBits(map_), f);
  }

  /** No holes: the frames reported are those up to the number counted. */
  ghost predicate Contiguous(map_: seq<MemoryDescriptor>) {
    forall j: nat :: Reported(map_, j) <==> j < TotalPages(map_)
  }

  /** On a map without holes whose largest segment holds the bitmap it happens if and only
      if the count leaves another remainder by eight than seven. */
  lemma UnreportedIffTail(map_: seq<MemoryDescriptor>)
    requires Contiguous(map_) && TotalPages(map_) >= 0x100 && LargestFree(map_).pages > BitmapSize(map_) / 0x1000
    ensures (exists f: nat :: CanReturn(BootBits(map_), f) && !Reported(map_, f)) <==> TotalPages(map_) % 8 != 7
  {
    var f := TotalPages(map_) + 1;
    if TotalPages(map_) % 8 != 7 {
      assert !Reported(map_, f);
      if IsBitmapPage(map_, f) {
        BitmapIsReported(map_, f);
        assert false;
      }
      ReturnedUnreported(map_, f);
    } else {
      forall g: nat | !Reported(map_, g)
        ensures !CanReturn(BootBits(map_), g)
      {
        ReturnedUnreported(map_, g);
      }
    }
  }

  lemma BitmapIsReported(map_: seq<MemoryDescriptor>, f: nat)
    requires LargestFree(map_).pages > BitmapSize(map_) / 0x1000 && IsBitmapPage(map_, f)
    ensures Reported(map_, f)
  {
    LargestFreeIsLargest(map_);
    var k :| 0 <= k < |map_| && map_[k].kind == CONVENTIONAL_MEMORY
             && LargestFree(map_) == Segment(map_[k].physAddr, map_[k].numPages);
    assert map_[k].Covers(f);
  }

  /** What the boot sequence writes, step by step, is the map described frame by frame. */
  lemma BootSequence(map_: seq<MemoryDescriptor>, cleared: Bits)
    requires |cleared| == 8 * BitmapSize(map_) && forall j :: 0 <= j < |cleared| ==> !cleared[j]
    ensures Fill(Fill(Reclaim(Fill(cleared, 0, TotalPages(map_) + 1, true), map_), 0, 0x100, true),
                 LargestFree(map_).address / 0x1000, BitmapSize(map_) / 0x1000 + 1, true) == BootBits(map_)
  {
    var reserved := Fill(cleared, 0, TotalPages(map_) + 1, true);
    forall j | 0 <= j < |cleared|
      ensures Reclaim(reserved, map_)[j] == (reserved[j] && !InConventional(map_, j))
    {
      ReclaimAt(reserved, map_, j);
    }
  }
}
