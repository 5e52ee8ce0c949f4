# Verified model of the kernel's memory management and of its UEFI library core

A Dafny model of the parts of this operating system that compute something hard,
with proofs that they compute it. `dafny verify dfyconfig.toml` checks everything.

## What is modelled

**Physical and virtual memory.** `Words`, `WordBits`, `PageEntries`, `PageWalk`,
`FrameBits`, `Machine`, `OutOfFrames`, `Runs`, `Bitmaps`, `MemoryMap`,
`FrameAllocator`, `PageTables`, `Clients`, `ClearedFrames`, `HardwareWalk`, `BootTables`
and `Boot` model the kernel's bitmap, its page frame allocator, its page table manager
and the boot sequence `PrepareMemory`. Physical memory is an array of frames, each read as a
table of 512 entries. `PageWalk` is the reference: the four-level walk of the hardware
(Intel SDM Vol. 3A, section 4.5), and the tree the tables must form; `HardwareWalk`
tells the same walk by addresses and literal bits. `MapMemory` is right only because a
frame just requested is none of the live tables; that comes from the allocator's bitmap,
so `Machine.Sound` ties the two together, and `Runs` shows that every client keeps it,
before paging is on and after, when the processor marks the entries it uses.

**`memset`.** `Memset` proves the vectorised version, with its overlapping and
aligned stores, equal to the byte loop left commented out above it.

**Device paths** (UEFI 2.4, section 9.3). A path is a list of instances, each a list
of nodes. `DeviceNodes` encodes it, `DeviceMatch` decodes it, and the byte-walking
methods in `DevicePaths`, `DeviceMatch`, `DeviceJoin` and `DeviceUnpack` are proved
to act on the lists.

**Text.** `MetaMatch` gives glob patterns a language and proves the matcher decides
it; `Globs` says what that language is for each kind of pattern. `Numbers` prints and
reads numbers, and `NumberLaws` says how they look. `PrintFormat` says what a format
means, without buffers, and `FormatLaws` what each directive prints; `Printing` is the
interpreter with its 200-character buffer, and `Sinks` the bounded and the growing
destinations.

**Arithmetic.** `CrcSteps`, `CrcTables`, `CrcRegister` and `Crc` prove the
table-driven CRC-32 equal to the bit-serial one (IEEE 802.3, clause 3.2.9) and say
what it detects; `CrcLaws` adds its residue and the meaning of its complements. `Divide`
proves the 64-step division of the 32-bit library.

## Where the code does less than it seems to

Each of these is stated as an exact condition.

- `getFlag` compares before it masks and reads bit 0 whatever flag is asked for:
  `GetFlagOnlyForPresent`. The page walk asks for nothing else.
- `MapMemory` takes the NULL of an exhausted allocator for a frame. One frame short it
  maps the page all the same, at the price of frame 0; more than one short, the tables
  are a tree no longer, or the data frame itself has become one of them: `ShortByOne`,
  `ShortByMore`, `TreeIffAtMostOneShort`, `MapIsSafe`.
- The bitmap's bounds tests are off by one: they let through the first bit of the byte
  behind it, which therefore is set, cleared and counted like a frame. It lies in the
  bitmap's own pages, so no frame is ever handed out for it: `Bitmap.Get`, `Bitmap.Set`,
  `BitmapIsNotFree`.
- The bitmap has up to seven bits for frames past the memory counted. They stay free, so
  a request may return a frame the firmware never reported: `ReturnedUnreported`,
  `UnreportedIffTail`.
- The pages taken for the kernel are counted from its size alone, which leaves out its
  last bytes if it starts too far into a page: `KernelBytesTaken`.
- `AppendDevicePath` copies the second path with its own end node behind every
  instance, so a reader sees the first instance only: `AppendsToEachOnlyIfOne`. Its
  allocation is large enough just when there is one instance or the second path is
  no longer than the first, if no instance is cut off: `AllocationSuffices`.
- `UnpackDevicePath` pads lengths that need not fit their field afterwards; the
  result can be read back if and only if all do: `UnpackedDecodes`.
- `Atoi` undoes `ValueToString` just for what prints neither a sign nor a comma:
  `DecimalRoundTrip`.
- `%lu` prints values of 2^63 and more as negative ones: `LongUnsigned`.
- A size of two or three bytes given to `VSPrint` leaves its buffer unterminated and
  untouched, and sizes of zero and one mean no limit: `VSPrint`.
- `DevicePathInstance` cuts an instance off behind 513 nodes: `TakenIsAll`.

## Model

| member | source | states |
|---|---|---|
| Machine.MapPageMaps | kernel/src/paging/PageTableManager.cpp:9-63 | from every sound state with frames enough, whatever marks its entries carry: the walk of the page gives the frame, present and writable; every other walk is unchanged; the tables stay a tree of frames in use; exactly the missing tables leave the allocator |
| PageTables.PageTableManager.MapMemory | kernel/src/paging/PageTableManager.cpp:9-63 | from every valid state the method, in place, does what `MapAnyway` does to the whole state; with frames enough that is `MapPage`, and so all of the above |
| PageTables.PageTableManager.NextTable | kernel/src/paging/PageTableManager.cpp:28-41 | one level: an entry present is followed, one not present gets what was requested, frame 0 if there is none |
| PageTables.PageTableManager.CreateTable | kernel/src/paging/PageTableManager.cpp:31-36 | the frame requested is cleared and hung, present and writable, from the entry, whose other bits stay; nothing else in memory changes |
| PageTables.PageTableManager.SetLeafEntry | kernel/src/paging/PageTableManager.cpp:58-62 | the leaf entry gets frame, present and write bit, and keeps its other bits |
| OutOfFrames.EnoughFrames | kernel/src/paging/PageTableManager.cpp:9-63 | with frames enough the code's steps, which take NULL for a frame, are those meant |
| OutOfFrames.DownInMemory | kernel/src/paging/PageTableManager.cpp:13-56 | however few frames there are, every table the code goes through lies in memory; once they have run out it is frame 0 and links to nothing but itself |
| OutOfFrames.ShortByOne | kernel/src/paging/PageTableManager.cpp:43-62 | one frame too few: the page is mapped right and every other walk is unchanged, but frame 0 is a table now and what it held is lost; all other tables are those there were and frames that were free |
| OutOfFrames.ShortByMore | kernel/src/paging/PageTableManager.cpp:28-62 | two frames too few or more: the tables are no tree, or the very frame to be mapped has become one of them, which takes a page whose last two indices are the same |
| OutOfFrames.TreeIffAtMostOneShort | kernel/src/paging/PageTableManager.cpp:9-63 | the call leaves a tree, made of the tables there were, frames that were free and frame 0, if and only if at most one missing table has to do without a frame |
| PageTables.PageMapIndexer.constructor | kernel/src/paging/PageMapIndexer.cpp:3-12 | the four indices are those of the tables above the address's page; bits 48 and up play no part |
| PageTables.IndicesOfPage | kernel/src/paging/PageMapIndexer.cpp:4-11 | shifting and masking the whole page number gives the indices of the page modulo 2^36 |
| HardwareWalk.IndexOfLevels | kernel/src/paging/PageMapIndexer.cpp:3-12 | bits 47 to 39, 38 to 30, 29 to 21 and 20 to 12 of an address are the indices of the four levels |
| HardwareWalk.WalkTranslates | kernel/src/paging/PageTableManager.cpp:9-63 | the walk by page numbers is the processor's translation of addresses, told in literal bits: bit 0 present, bit 1 writable at every level, bit 7 a large page |
| HardwareWalk.MapTranslates | kernel/src/paging/PageTableManager.cpp:9-63 | after `MapMemory(v, p)` the processor finds every byte of v's page in p's frame and may write it, and all other addresses where it found them before |
| HardwareWalk.RunTranslates | kernel/src/paging/PageTableManager.cpp:9-63 | over any run the last mapping of its page decides where an address is found |
| PageWalk.InstallKeepsTree | kernel/src/paging/PageTableManager.cpp:16-21 | hanging a cleared frame that is no table from an inner entry that is not present keeps the tree, adds one table, and changes no walk |
| PageWalk.StoreAndWalk | kernel/src/paging/PageTableManager.cpp:58-62 | writing a leaf entry decides the walk of its own page and of no other |
| PageWalk.WriteElsewhere | kernel/src/paging/PageTableManager.cpp:9-63 | what is written to a frame that is no table changes neither tree nor walks |
| PageWalk.MarkKeepsTree | kernel/src/paging/PageTableManager.cpp:13-58 | the accessed and dirty marks the processor sets in any entry change neither tree nor walks |
| Machine.EnsureTableExtends | kernel/src/paging/PageTableManager.cpp:13-26 | one level of the walk keeps soundness and all walks, and adds just the missing table |
| Machine.EnsureTablesExtends | kernel/src/paging/PageTableManager.cpp:13-56 | the three upper levels keep soundness and all walks, and add just the tables missing on the way |
| Runs.RunIsSafe | kernel/src/paging/PageTableManager.cpp:15-56 | over any run of maps, requests, reservations, writes to owned frames, frees of owned frames and marks of the processor the tables stay a tree of frames the client does not own, and the walk of a page is decided by its last mapping; a map may be one frame short if frame 0 can be had for it |
| Runs.MapIsSafe | kernel/src/paging/PageTableManager.cpp:9-63 | a mapping of one of the client's frames keeps the state safe if and only if it is no more than one frame short |
| Runs.NoLargePages | kernel/src/paging/PageTableManager.cpp:18-20 | over any run no entry above the last level ever has its page size bit set, so the hardware walks all four levels |
| Runs.NeverHandedOutTwice | kernel/src/paging/PageFrameAllocator.cpp:64-98 | a frame handed out is not handed out again before it is freed, and no request ever returns a live table |
| Runs.InUseUntilFreed | kernel/src/paging/PageFrameAllocator.cpp:64-98 | over any run, a frame in use stays in use until it is freed |
| Runs.SetAsideForGood | kernel/src/paging/PageFrameAllocator.cpp:64-98 | a frame in use that is neither the client's nor a table stays both over any run, no request returns it, and nothing is ever written to it; so does frame 0 as long as frames suffice |
| Runs.RunKeepsLowest | kernel/src/paging/PageFrameAllocator.cpp:64-72 | as long as nothing is freed, no free frame lies below a table |
| Runs.OneParent | kernel/src/paging/PageTableManager.cpp:15-56 | each table but the root hangs from exactly one present entry |
| Clients.MapPages | kernel/src/paging/PageTableManager.cpp:9-63 | the method in place takes exactly the run's step of a map |
| Clients.RequestFrame | kernel/src/paging/PageFrameAllocator.cpp:65-72 | so does a request |
| Clients.AllocateFrames | kernel/src/paging/PageFrameAllocator.cpp:83-88 | and a reservation of a range |
| Clients.FreeFrame | kernel/src/paging/PageFrameAllocator.cpp:90-98 | and a frame given back |
| ClearedFrames.MemsetClears | kernel/src/paging/PageTableManager.cpp:17-17 | setting the 0x1000 bytes of a frame to zero clears the 512 entries its bytes hold and no other frame's |
| ClearedFrames.ClearFrame | kernel/src/paging/PageTableManager.cpp:17-17 | the vectorised `memset` makes of a frame's bytes the cleared table |
| PageEntries.SetFlagWritesOneBit | kernel/src/paging/paging.cpp:3-10 | a flag written reads back, no other flag and no part of the address changes |
| PageEntries.GetFlagOnlyForPresent | kernel/src/paging/paging.cpp:12-17 | the flag test is right for every entry if and only if the flag is `Present` |
| PageEntries.SelectorOnTheWord | kernel/src/paging/paging.cpp:5-5 | the flags are distinct bits outside the address field |
| PageEntries.SetFlagOnWord | kernel/src/paging/paging.cpp:3-10 | on 64-bit words that hold an entry, the same flags and the same address bit for bit, the masks of `setFlag` keep step with the entry |
| PageEntries.SetAddressOnWord | kernel/src/paging/paging.cpp:19-24 | so do the masks and the shift of `setAddress` |
| PageEntries.GetFlagOnWord | kernel/src/paging/paging.cpp:12-17 | the flag test as written reads the same bit of both |
| PageEntries.LinkedBits | kernel/src/paging/PageTableManager.cpp:18-20 | `MapMemory` sets bits 0 and 1 of an entry and the frame, and nothing else |
| PageEntries.LinkedWordBits | kernel/src/paging/PageTableManager.cpp:58-62 | on the word: `(w & 0xfff0000000000ffc) | ((a & 0xffffffffff) << 12) | 3` |
| PageEntries.LinkedOnWord | kernel/src/paging/PageTableManager.cpp:58-62 | a word that holds an entry holds the linked entry after these writes |
| PageEntries.FlagsOnWord | kernel/src/paging/paging.h:4-16 | the flags of an entry are the literal bits of any word that holds it, the write flag 0x2, the accessed flag 0x20, the page size flag 0x80 |
| PageEntries.FlagsByNumber | kernel/src/paging/paging.h:4-16 | the flags by their bit numbers, and the marks of the processor as bits 5 and 6 |
| WordBits.MaskIsRemainder | kernel/src/paging/paging.cpp:21-21 | the mask keeps just the low 40 bits, which are those of the number modulo 2^40 |
| PageEntries.SetWordReads | kernel/src/paging/paging.cpp:6-9 | on 64-bit words: a selector written reads as written, every disjoint one as before |
| PageEntries.SetAddressOnTheWord | kernel/src/paging/paging.cpp:19-29 | on 64-bit words: the address reads back as its low 40 bits and no bit outside its field changes |
| Bitmaps.Bitmap.Get | kernel/src/Bitmap.cpp:8-20 | for every index: the bit in range, the first bit of the byte behind at the index just past it, false beyond |
| Bitmaps.Bitmap.Set | kernel/src/Bitmap.cpp:22-34 | updates the one bit, or that first bit of the byte behind, reports whether it did, and touches nothing else |
| Bitmaps.WithBitReads | kernel/src/Bitmap.cpp:24-31 | the bit written reads back and the other seven are kept |
| Bitmaps.BitPlaces | kernel/src/Bitmap.cpp:13-15 | bit 0 of a byte is 0x80, bit 7 is 0x01 |
| FrameAllocator.PageFrameAllocator.RequestPage | kernel/src/paging/PageFrameAllocator.cpp:64-72 | the lowest free frame, now in use; NULL, with frame 0 reserved, exactly when none is free; nothing below the search index is ever free |
| FrameAllocator.PageFrameAllocator.AllocatePage | kernel/src/paging/PageFrameAllocator.cpp:74-81 | for every frame: it is in use; the counters move if and only if it was free, which includes the one bit past the bitmap; no other bit of memory changes |
| FrameAllocator.PageFrameAllocator.AllocatePages | kernel/src/paging/PageFrameAllocator.cpp:83-88 | for every range: all of it is in use, the rest as it was; the counters count the bits that changed |
| FrameAllocator.PageFrameAllocator.FreePage | kernel/src/paging/PageFrameAllocator.cpp:90-98 | the frame is free, the counters follow, and the search index is pulled back so that nothing below it is free |
| FrameAllocator.PageFrameAllocator.FreePages | kernel/src/paging/PageFrameAllocator.cpp:100-105 | the same for a range |
| FrameAllocator.PageFrameAllocator.ReservePages | kernel/src/paging/PageFrameAllocator.cpp:107-121 | the range is in use and no counter moves |
| FrameAllocator.PageFrameAllocator.UnreservePages | kernel/src/paging/PageFrameAllocator.cpp:123-138 | the range is free, no counter moves, and the search index is right again |
| FrameAllocator.PageFrameAllocator.GetMemorySize | kernel/src/mem/mem.cpp:3-15 | the sum of the map's pages in bytes, modulo 2^64, computed once and then remembered |
| FrameAllocator.PageFrameAllocator.InitializeBitmap | kernel/src/paging/PageFrameAllocator.cpp:56-62 | the bytes found at the address are cleared, whatever they were, as far as the bitmap reaches, and those behind stay |
| FrameAllocator.PageFrameAllocator.ReadEfiMemoryMap | kernel/src/paging/PageFrameAllocator.cpp:9-54 | for every map that fits 64 bits, the first call leaves a frame free exactly when it is above the first megabyte, no page of the bitmap, and conventional or past the memory counted, with the counters of conventional and boot memory to match; behind the bitmap one bit at most was written; later calls change no bit |
| FrameAllocator.PageFrameAllocator.CountMap | kernel/src/paging/PageFrameAllocator.cpp:38-48 | conventional memory, and only that, is given back and counted as free; memory of the boot services and the loader is counted as reserved |
| FrameAllocator.PageFrameAllocator.NothingLost | kernel/src/paging/PageFrameAllocator.cpp:74-98 | in every state reached, what is allocated and what is free add up to all memory ever found, modulo 2^64 |
| FrameAllocator.PageFrameAllocator.FindLargest | kernel/src/paging/PageFrameAllocator.cpp:16-27 | the address of the first of the largest conventional segments, their sizes in bytes taken modulo 2^64 as the code does; so the true one if all sizes fit |
| FrameAllocator.WrapSum | kernel/src/paging/PageFrameAllocator.cpp:78-79 | adding to a 64-bit counter is adding to the exact count |
| MemoryMap.BootSequence | kernel/src/paging/PageFrameAllocator.cpp:35-52 | the five marking steps together give the bits described frame by frame |
| MemoryMap.ReclaimAt | kernel/src/paging/PageFrameAllocator.cpp:38-43 | giving back the conventional memory clears just the frames some descriptor covers |
| MemoryMap.LargestFreeIsLargest | kernel/src/paging/PageFrameAllocator.cpp:16-27 | no conventional segment is larger, and it is one of them, if there is any |
| MemoryMap.BitmapIsNotFree | kernel/src/paging/PageFrameAllocator.cpp:52-52 | no frame free at boot holds a byte of the bitmap, or the byte behind it |
| MemoryMap.FreeBytes | kernel/src/paging/PageFrameAllocator.cpp:38-52 | byte by byte: counted memory is free at boot if and only if it is above the first megabyte, in no page of the bitmap, and in a segment of type 7 |
| FrameBits.CanReturnFree | kernel/src/paging/PageFrameAllocator.cpp:65-72 | requests in a row return all that is free and nothing else |
| MemoryMap.ReturnedUnreported | kernel/src/paging/PageFrameAllocator.cpp:32-35 | a frame no descriptor covers may be returned if and only if it lies past the memory counted but in the bitmap, above the first megabyte and in no page of the bitmap |
| MemoryMap.UnreportedIffTail | kernel/src/paging/PageFrameAllocator.cpp:32-35 | on a map without holes there is such a frame if and only if the page count leaves another remainder by eight than seven |
| BootTables.TablesOfFirstPages | kernel/src/kernelUtil.cpp:30-33 | an identity map of the first n pages needs ceil(n/512) + ceil(n/512^2) + ceil(n/512^3) tables below the root |
| Boot.IdentityMap | kernel/src/kernelUtil.cpp:30-44 | the loop maps its pages to themselves and no others, and takes exactly the frames of the missing tables |
| Boot.MapAllMemory | kernel/src/kernelUtil.cpp:30-33 | the first loop takes exactly ceil(n/512) + ceil(n/512^2) + ceil(n/512^3) frames for n pages |
| Boot.PrepareMemory | kernel/src/kernelUtil.cpp:11-44 | from the firmware's map to a sound state whose walk is the identity on all memory counted and on the frame buffer, and faults elsewhere; the bitmap, the kernel and the frame buffer are in use, and all tables lie in frames that were free, below every frame still free |
| Boot.BytesAreMapped | kernel/src/kernelUtil.cpp:30-44 | every byte of that memory and of the frame buffer, aligned or not, is found at its own address |
| Boot.BytesTranslate | kernel/src/kernelUtil.cpp:30-46 | the processor finds every such byte at its own address, and may write it |
| Boot.PagesOfLoops | kernel/src/kernelUtil.cpp:30-44 | the pages mapped are those of all memory counted and those at steps of a page from the start of the frame buffer to a page behind its end |
| Boot.KernelBytesTaken | kernel/src/kernelUtil.cpp:20-22 | the frames taken for the kernel hold all of its bytes if and only if the part of a page it ends with fits behind its start in its first page |
| Boot.KernelIsNotFree | kernel/src/kernelUtil.cpp:20-22 | then no frame that holds a byte of the kernel is free |
| Boot.BufferIsNotFree | kernel/src/kernelUtil.cpp:36-38 | no frame that holds a byte of the frame buffer is free, wherever it starts |
| Boot.KernelStays | kernel/src/kernelUtil.cpp:15-28 | over any run from the boot on, no request returns a frame of the kernel, of the bitmap or otherwise in use before the tables, none becomes a table, and nothing is written to it; for frame 0 as long as frames suffice |
| Boot.BitmapStays | kernel/src/paging/PageFrameAllocator.cpp:52-52 | so it is with every byte of the bitmap and the one behind it |
| Boot.ZeroIsAside | kernel/src/paging/PageFrameAllocator.cpp:50-50 | over any run from the boot on in which frames suffice, frame 0 is in use and no table, which is the condition `OutOfFrames` puts on a state |
| Boot.TablesAreCounted | kernel/src/kernelUtil.cpp:24-44 | over any run without a free, with frames enough and a counted frame still free at its end, every table is a counted frame |
| Boot.TablesAreMapped | kernel/src/kernelUtil.cpp:30-44 | over any run from the boot on, every table in a counted frame is found at its own address, unless a mapping took its page away |
| Boot.RootTable | kernel/src/kernelUtil.cpp:24-28 | the first frame requested, cleared, is a tree in which every walk faults |
| Memset.Memset | kernel/src/mem/mem.cpp:117-143 | for every start, length and value the result is that of the byte loop: just the n bytes are set |
| Memset.ByteLoop | kernel/src/mem/mem.cpp:17-27 | the byte loop sets just the n bytes |
| Memset.SmallMemset | kernel/src/mem/mem.cpp:29-68 | overlapping stores of 1, 4, 8 and 16 bytes cover the range and nothing more |
| Memset.HugeMemset | kernel/src/mem/mem.cpp:70-115 | every aligned store is at a multiple of 32, and the stores together cover the range and nothing more |
| Memset.Replicated | kernel/src/mem/mem.cpp:44-53 | the product with 0x0101010101010101 holds the byte in all eight places, its low half in all four |
| DevicePaths.DevicePathInstance | gnu-efi/lib/dpath.c:48-106 | the instance's place, its size up to the cut-off, and the next instance, if there is one |
| DevicePaths.TakenIsAll | gnu-efi/lib/dpath.c:76-83 | the size is that of the whole instance if and only if it has at most 513 nodes |
| DevicePaths.SeenAll | gnu-efi/lib/dpath.c:66-83 | the instances seen are those of the path, if none has more than 513 nodes |
| DevicePaths.TakenAndRemaining | gnu-efi/lib/dpath.c:66-98 | the bytes of what was taken stand at the pointer; at the next one stands the encoding of what remains, behind the node an instance was cut at |
| DevicePaths.DevicePathInstanceCount | gnu-efi/lib/dpath.c:108-121 | repeated calls give the instances seen, in order, each with its bytes and its size, and so their count |
| DevicePaths.DevicePathSize | gnu-efi/lib/dpath.c:286-307 | the length of the encoding, which is the sum of the instance sizes and four bytes per end node |
| DevicePaths.SizeIsSum | gnu-efi/lib/dpath.c:48-121 | sizes of instances plus four per end node make the size of the path |
| DevicePaths.EndIsLast | gnu-efi/inc/efidevp.h:48-60 | of the nodes in memory order exactly the last one ends the path |
| DevicePaths.RestOfPath | gnu-efi/lib/dpath.c:88-98 | behind an instance's end node stands the encoding of the remaining instances |
| DeviceNodes.NodeAt | gnu-efi/inc/efidevp.h:48-60 | the header bytes give a node's type, subtype and length, and the next node stands behind it |
| DeviceNodes.NodeBytes | gnu-efi/inc/efidevp.h:28-60 | a node is its type, subtype, its length with the low byte first, and its payload |
| DeviceNodes.EndBytes | gnu-efi/inc/efidevp.h:28-60 | the end nodes are 7f ff 04 00 and 7f 01 04 00 |
| DeviceMatch.DecodeEncode | gnu-efi/inc/efidevp.h:28-60 | decoding undoes encoding, whatever follows in memory |
| DeviceMatch.PrefixOfBytes | gnu-efi/lib/dpath.c:1222-1226 | bytes and nodes agree on what a prefix is, and a difference shows no later than the type byte of the end node |
| DeviceMatch.LibMatchDevicePaths | gnu-efi/lib/dpath.c:1209-1229 | TRUE exactly when some instance seen is a node-by-node prefix of the other path's first instance |
| DeviceMatch.CompareInstance | gnu-efi/lib/runtime/efirtlib.c:84-101 | the comparison decides that prefix and never reads past the type byte of the end node |
| DeviceJoin.DuplicateDevicePath | gnu-efi/lib/dpath.c:309-334 | a copy byte for byte, its allocation filled |
| DeviceJoin.AppendDevicePathInstance | gnu-efi/lib/dpath.c:397-433 | the encoding of the instances of both paths, its allocation filled |
| DeviceJoin.AppendDevicePath | gnu-efi/lib/dpath.c:124-194 | writes every instance seen, the second path behind each, and an end, and fills its allocation if that is what it takes |
| DeviceJoin.AllocationSuffices | gnu-efi/lib/dpath.c:160-165 | the exact condition on what the code sees of the first path: enough if it sees one instance or the second path is no longer than the first, and only then if it sees all; for one instance exact just when it sees all |
| DeviceJoin.AppendDecodes | gnu-efi/lib/dpath.c:171-191 | a reader finds the first instance followed by the second path, and no other instance |
| DeviceJoin.AppendsToEachOnlyIfOne | gnu-efi/lib/dpath.c:124-133 | the second path, of any number of instances, comes out behind every instance of the first if and only if that has one, of no more than 513 nodes |
| DeviceJoin.AppendDevicePathNode | gnu-efi/lib/dpath.c:197-230 | the result reads as the first instance with the node at its end |
| DeviceUnpack.UnpackDevicePath | gnu-efi/lib/dpath.c:336-394 | the second pass fills exactly what the first one counted, with every node padded |
| DeviceUnpack.UnpackedSize | gnu-efi/lib/dpath.c:349-360 | aligning the running total counts what aligning each node writes |
| DeviceUnpack.OffsetsAreAligned | gnu-efi/lib/dpath.c:27-27 | every node of the result starts at a multiple of the alignment |
| DeviceUnpack.PadKeeps | gnu-efi/lib/dpath.c:377-384 | same masked type with 0x80 added, same subtype and payload, zeros behind it, and less than one alignment longer |
| DeviceUnpack.UnpackedDecodes | gnu-efi/lib/dpath.c:336-394 | the result reads back as the same path, padded, if and only if every padded length fits its field |
| MetaMatch.MetaMatch | gnu-efi/lib/str.c:325-409 | TRUE exactly when the string is in the language of the pattern; it ends on every string and every pattern with its sets closed |
| MetaMatch.MatchSet | gnu-efi/lib/str.c:360-394 | the scan of a set finds the character exactly when some literal or range of the set admits it, and goes on behind the set |
| Globs.OneCharacterPatterns | gnu-efi/lib/str.c:342-358 | `*` denotes every text, `?` every single character, and any other character but `[` itself |
| Globs.OneBehindAnother | gnu-efi/lib/str.c:333-409 | a pattern behind another denotes what the first denotes with what the second denotes behind it |
| Globs.SetLanguage | gnu-efi/lib/str.c:360-394 | a set of characters and ranges denotes the single characters that are among them or between the ends of a range |
| Globs.RangeLanguage | gnu-efi/lib/str.c:373-382 | `[a-b]` denotes a, b and what lies between |
| Globs.RangesInSets | gnu-efi/lib/str.c:373-382 | a `-` between two characters of any set admits all from the one to the other |
| Globs.LeadingRange | gnu-efi/lib/str.c:367-382 | a `-` that comes first admits all up to the character behind it |
| Numbers.ValueToHex | gnu-efi/lib/print.c:1260-1288 | the digits without leading zeros, and a NUL |
| Numbers.ValueToString | gnu-efi/lib/print.c:1291-1334 | sign and digits, in groups of three from the right in comma mode, and a NUL, for every 64-bit value |
| Numbers.Xtoi | gnu-efi/lib/str.c:267-296 | the value, modulo 2^64, of the hex digits behind leading spaces |
| Numbers.Atoi | gnu-efi/lib/str.c:298-323 | the value, modulo 2^64, of the decimal digits behind leading spaces |
| Numbers.HexRoundTrip | gnu-efi/lib/str.c:267-296 | reading undoes printing in hex for every 64-bit value |
| Numbers.ReadShown | gnu-efi/lib/str.c:267-323 | in both bases a printed number is read back, whatever character stops the reader |
| Numbers.DecimalRoundTrip | gnu-efi/lib/str.c:298-323 | reading undoes printing in decimal if and only if the value is not negative and shows no comma |
| Numbers.NegativeReads | gnu-efi/lib/print.c:1311-1320 | behind the sign of a negative value, the smallest included, its magnitude is read back |
| Numbers.MarkedIsGroups | gnu-efi/lib/print.c:1322-1333 | the comma counter puts a comma just before every group of three digits from the right |
| Numbers.StripSigned | gnu-efi/lib/print.c:1322-1333 | without its commas the number is the plain one |
| NumberLaws.ShownPlainly | gnu-efi/lib/print.c:1260-1288 | a printed number has digits 0 to 9 and A to F only, none of them a leading zero, and their value by position is the number |
| NumberLaws.SignedPlainly | gnu-efi/lib/print.c:1291-1334 | a minus sign stands in front exactly of a negative number |
| NumberLaws.GroupsPlainly | gnu-efi/lib/print.c:1322-1333 | in comma mode every fourth character from the right is a comma and the others are those of the number |
| NumberLaws.CaseIgnored | gnu-efi/lib/str.c:281-293 | a number in hex is read, modulo 2^64, whatever the case of each letter and whatever character that is no hex digit stops it |
| NumberLaws.ReadBehindSpaces | gnu-efi/lib/str.c:276-323 | spaces in front are skipped, in both bases |
| NumberLaws.NothingRead | gnu-efi/lib/str.c:276-323 | where neither a digit nor a space stands, the result is zero |
| Printing.PrintState.Print | gnu-efi/lib/print.c:975-1255 | all chunks together are the formatted text with carriage returns added; no chunk is longer than 199 characters or holds a NUL; the count returned is their length |
| Printing.PrintState.PrintDirective | gnu-efi/lib/print.c:1057-1250 | flags, widths and the conversion of one directive print what the format's meaning says, and use up its characters and arguments |
| Printing.PrintState.Digits | gnu-efi/lib/print.c:1099-1105 | a run of digits is read whole, modulo 2^64, and the character behind it is put back |
| Printing.PrintState.LayOut | gnu-efi/lib/print.c:914-971 | the item cut to its field, padded to its width, set left or right in its field |
| Printing.PrintState.PutChar | gnu-efi/lib/print.c:876-896 | one character, a newline with a carriage return before it; the cursor never leaves the buffer |
| Printing.PrintState.Flush | gnu-efi/lib/print.c:845-857 | hands out just what is in the buffer and empties it |
| PrintFormat.LaidSize | gnu-efi/lib/print.c:914-971 | an item is exactly as long as the widest of field, width and text, with the text at its place |
| PrintFormat.FormatAppend | gnu-efi/lib/print.c:1037-1250 | a format in front of another prints its own text in front of the other's, with the arguments it leaves |
| PrintFormat.FormatOfText | gnu-efi/lib/print.c:1037-1042 | a format without directives prints itself |
| PrintFormat.HexReadsBack | gnu-efi/lib/print.c:1138-1145 | `%lx` prints every value so that `xtoi` reads it back |
| PrintFormat.LongUnsigned | gnu-efi/lib/print.c:1153-1160 | `%lu`, with commas or without, prints a value as it is if and only if it is below 2^63 |
| FormatLaws.LaidPlainly | gnu-efi/lib/print.c:914-971 | character by character: the text cut to the field, padded to the width with blanks or zeros, blanks around it up to the field |
| FormatLaws.FlagsWritten | gnu-efi/lib/print.c:1070-1130 | the flags `-`, `0`, `,`, a width, a field behind a dot, and `l`, as written, come to the layout they stand for |
| FormatLaws.StarIsNumber | gnu-efi/lib/print.c:1086-1088 | a `*` takes the number from the arguments |
| FormatLaws.SignedConversion | gnu-efi/lib/print.c:1162-1169 | `%d` with any flags prints the number in [-2^31, 2^31), or with `l` in [-2^63, 2^63), that its word stands for: a minus sign exactly if it is negative, and the digits of its magnitude |
| FormatLaws.SignedReadsBack | gnu-efi/lib/print.c:1162-1169 | what `%d` and `%ld` print behind the sign is read back as the magnitude |
| FormatLaws.UnsignedConversion | gnu-efi/lib/print.c:1153-1160 | `%u` prints the word's low 32 bits without sign; with `l` all of it, taken for a signed number |
| FormatLaws.UnsignedReadsBack | gnu-efi/lib/print.c:1138-1160 | what `%u` and `%x` print is read back |
| FormatLaws.HexConversion | gnu-efi/lib/print.c:1138-1145 | `%x` prints the low 32 bits, or with `l` all 64, in hex |
| FormatLaws.FixedHexConversion | gnu-efi/lib/print.c:1132-1145 | `%X` prints them with zeros up to 8 or 16 digits |
| FormatLaws.CharacterConversion | gnu-efi/lib/print.c:1122-1126 | `%c` prints the low 16 bits as a character, or nothing for a NUL |
| FormatLaws.StringConversion | gnu-efi/lib/print.c:1115-1120 | `%s` prints the string up to its NUL |
| FormatLaws.AsciiConversion | gnu-efi/lib/print.c:1107-1113 | `%a` prints the bytes up to their NUL |
| FormatLaws.NullConversion | gnu-efi/lib/print.c:1107-1120 | both print `(null)` for NULL |
| FormatLaws.PercentConversion | gnu-efi/lib/print.c:1061-1068 | `%%` prints a percent sign |
| FormatLaws.UnknownConversion | gnu-efi/lib/print.c:1057-1250 | a character no directive knows prints a question mark |
| FormatLaws.NewlinesPlainly | gnu-efi/lib/print.c:876-896 | a newline, and nothing else, gets a carriage return in front |
| Printing.CountIsLength | gnu-efi/lib/print.c:889-889 | the character counter is the length modulo 2^64 |
| Sinks.PoolPrint.SPrint | gnu-efi/lib/print.c:313-352 | appends as much of a chunk as the limit allows, NUL-terminates unless the limit is zero, and writes no cell past the limit |
| Sinks.PoolPrint.PoolAppend | gnu-efi/lib/print.c:355-397 | appends a chunk whole, with room for the NUL, growing when it must |
| Sinks.SPrintAll | gnu-efi/lib/print.c:313-352 | any sequence of chunks leaves the first characters of them all, as many as the limit allows |
| Sinks.VSPrint | gnu-efi/lib/print.c:423-463 | the formatted text cut to the limit: all of it if shorter than half the size, and else half the size less one characters; terminated unless the size is two or three; the count of what is there |
| Sinks.VPoolPrint | gnu-efi/lib/print.c:503-532 | the whole formatted text, terminated, in memory of its own |
| Sinks.CatPrint | gnu-efi/lib/print.c:566-600 | the formatted text is appended whole to what was there, and a NUL behind it |
| Sinks.CatPrintTwice | gnu-efi/lib/print.c:566-600 | two calls append what one call with both formats and all arguments would |
| Crc.CalculateCrc | gnu-efi/lib/crc.c:201-218 | the table-driven loop computes the bit-serial CRC-32 of every byte string |
| CrcTables.TableStep | gnu-efi/lib/crc.c:22-66 | for every register value, shifting by a byte and adding the table entry is eight bit-serial steps |
| Crc.BurstsAreDetected | gnu-efi/lib/crc.c:201-218 | messages of one length that differ only inside a window of 32 bits never have the same CRC |
| Crc.DamageIsDetected | gnu-efi/lib/crc.c:201-218 | nor do those that differ only in up to four neighbouring bytes |
| CrcLaws.Residue | gnu-efi/lib/crc.c:201-218 | a message with its own CRC behind it, lowest byte first, always has the CRC 0x2144df1c |
| CrcLaws.StartAndEnd | gnu-efi/lib/crc.c:201-218 | the CRC is the complement of the register reached from zero over the message with its first 32 bits complemented |
| CrcLaws.EmptyMessage | gnu-efi/lib/crc.c:201-218 | the CRC of nothing is zero |
| CrcLaws.FieldBytes | gnu-efi/lib/crc.c:113-116 | the CRC of a header stands in bytes 16 to 19, lowest first |
| Crc.StateIsRun | gnu-efi/lib/crc.c:210-215 | the byte-wise register is the shift register of the message's bits |
| Crc.SetCrcAltSize | gnu-efi/lib/crc.c:113-116 | stores the CRC of the header with its own field zero, and changes nothing else |
| Crc.CheckCrcAltSize | gnu-efi/lib/crc.c:167-198 | TRUE exactly for a size in range whose stored CRC is right; the header is left unchanged |
| Crc.SetThenCheck | gnu-efi/lib/crc.c:113-198 | what was set passes the check, for every size |
| Crc.DamagedHeaderFails | gnu-efi/lib/crc.c:167-198 | once up to four neighbouring bytes it covers were changed, a header that passed fails |
| Crc.DamagedCrcFails | gnu-efi/lib/crc.c:167-198 | and so it does once its CRC field was |
| Divide.DivU64x32 | gnu-efi/lib/ia32/math.c:134-199 | quotient and remainder of every 64-bit dividend by every nonzero 31-bit divisor |
| Divide.DivideStep | gnu-efi/lib/ia32/math.c:177-189 | shift, compare and subtract of one bit, with the carries; the shifted remainder never needs a 33rd bit |
| Divide.OneMoreBit | gnu-efi/lib/ia32/math.c:155-191 | a step keeps: bits taken in are divided into quotient and remainder, the others stand above the quotient |

## Left out

- FrameAllocator.PageFrameAllocator.ReadEfiMemoryMap: descriptors are values; their byte layout and stride are not modelled. Sizes and addresses fit 64 bits.
- Boot.PrepareMemory: the frames suffice for the tables, every frame the bitmap has a bit for is memory, even past the memory counted, and sizes and addresses fit 64 bits; the bitmap's bytes are an array of their own, which `BitmapStays` keeps apart from the tables. The frame buffer is taken from the allocator between the two loops only, so tables of the first loop may lie in it if its frames were free. Loading CR3 and the effects of translation caches are not modelled.
- Runs.RunIsSafe: a map that is more than one frame short ends the run, since what is to be kept is lost then, by `MapIsSafe`.
- OutOfFrames.TreeIffAtMostOneShort: frame 0 is in use and no table before the call; `ZeroIsAside` shows that of every state reached from the boot with frames enough.
- DeviceJoin.AppendDevicePath: requires that what is written fits the allocation, since more would be written past its end; the exact condition is `AllocationSuffices`.
- DeviceNodes: node lengths are at least 4 and fit 16 bits, and no ordinary node has the end type.
- DevicePaths.DevicePathInstance: the assertion of debug builds that an instance is not cut off is not modelled.
- Printing.PrintState.Print: the conversions `D`, `f`, `g`, `r`, `t` and the attribute directives are not modelled; directives must be complete and arguments of the kind they name.
- Numbers.ValueToString: the negation of the smallest value, which C leaves undefined, is taken to wrap.
- Sinks.PoolPrint.PoolAppend: allocation always succeeds; so it does in `DeviceJoin` and `DeviceUnpack`.
- Crc.CalculateCrc: the register is 32 bits wide; the code's 64-bit variable never holds more.
- Divide.DivU64x32: divisors of 32 bits, which the code asserts away.
- `PageDirectoryEntry` is a value here, since its only user copies it out of a table and back.
- The kernel heap, strings and renderer, drivers, interrupt and descriptor tables, and the boot loader.
- The device path text printers, `DevicePathToStr`, and `LibDuplicateDevicePathInstance`, which terminates after one node.
- Firmware calls: handles, events, consoles and files.
