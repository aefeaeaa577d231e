# Verification of the kernel's memory management and of gnu-efi's library algorithms

This project models, in Dafny, the two parts of the repository whose correctness is hardest to
see by reading, and proves what they promise.

**The kernel's physical memory** (`kernel/`). Physical memory is one array of bytes. It holds the
page frame allocator's bitmap, the page tables, and everything else, so a write to one of them
could damage another. The allocator (`Bitmap`, `PageFrameAllocator`), the page-table manager
(`PageTableManager`, `PageMapIndexer`, `PageDirectoryEntry`) and the boot sequence
(`PrepareMemory`) are classes and methods over that array. The main results:

- `RequestPage` with its moving hint is a scan from frame 0: it hands out the lowest free frame and
  fails exactly when there is none, over every run.
- From boot on, free, used and reserved add up to the summed size of the memory map, and it is stated
  exactly when each of them is right on its own.
- `MapMemory` changes the address map at one page and nowhere else, takes exactly the missing
  tables from the allocator, and changes no byte of any other frame in use.
- In every run of allocator calls, table links, leaf writes and other kernel writes the tables form
  a tree, every table is in use, none overlaps the bitmap, and every entry is zero or an address with
  the two flags Present and ReadWrite, so that none is ever one of a large page.
- `PrepareMemory` leaves exactly the identity map of the pages below the summed size of the memory map
  and of the framebuffer, and the number of tables for `n` such pages is `ceil(n/2^9) + ceil(n/2^18) +
  ceil(n/2^27)`. The pages below the summed size are the pages of memory if and only if the map has no
  gap; it is stated exactly what goes wrong if it has. Every byte of the framebuffer is mapped, its
  frames are in use, and exactly one page more is mapped than it has.

The layers are: `BitWords` (C's bitwise operators as field arithmetic), `PageEntry`, `Ram`, `Bitmap`,
`FrameSpec` (the allocator as a function on bits and counters), `PageFrameAllocator`, `BootMap`,
`BootCounters`, `MemoryMap` (the frames the EFI memory map describes), `PageTree` (the four-level walk
of the Intel SDM, Vol. 3A, section 4.5), `PageTableManager`, `KernelRuns`, `IdentityMap`,
`PrepareMemory`, `MemoryGaps`, `BootRanges` (the kernel and the framebuffer). Methods that change
memory are proved to take the step of a specification on values; the results are proved about those
steps.

**The gnu-efi library** (`gnu-efi/`). `Crc` is CRC-32 and the table-header check (section 4.2 of the
UEFI Specification), against a bit-serial shift register. `MetaMatch` is the wildcard matcher, against
the language of its patterns. `Div64` is 64 by 32 bit division by shift and subtract. `Numbers` is the
conversion of numbers to text and back. `PrintFormat`, `Print` and `Sinks` are the formatter, its
200-character buffer, and the truncating and growing outputs; `PrintMeaning` says what each
specification stands for, with any modifiers in any order, and which attributes it sets where.
`DevicePathNodes`, `DevicePath`, `DevicePathAppend` and `DevicePathUnpack` are the byte encodings of
device paths (section 9.3 of UEFI 2.4). `LinkedList` is the circular doubly linked list and its
conversion to virtual addresses. `CStrings` and `Options` hold two shared notions.

Where the code does not do what its name, its comment or its caller expects, the model follows the
code, one lemma states exactly when the expectation holds, and another shows an input for which it
does not:

- `GetFlag` tests bit 0 whatever flag is asked for (`paging.cpp` line 25 compares before it masks):
  `GetFlagMeetsItsNameOnlyForPresent`, `GetFlagMisreads`.
- `Bitmap` lets index `Size*8` through (`Bitmap.cpp` lines 12 and 30), whose bit is in the byte behind
  the buffer: `ReadsOutsideIff`, `WritesOutsideIff`, `SetPastEnd`.
- The bitmap has a bit for each frame below the summed size of the memory map, and one to eight more.
  Nothing marks the spare bits, nor the frames in a gap of the map. When the free frames below the first
  of those are used up `RequestPage` hands it out, and it does not exist: `ServedFromIff`,
  `FreeIsConventionalIff`, `SpareFrameHandedOut`, `GapFrameHandedOut`. It may become a page table:
  `TablesInMemoryIff`, `TablesInGap`.
- On a map with gaps `PrepareMemory` maps pages that do not exist, and leaves out pages that do, even
  those of the allocator's own bitmap: `ExactlyMemoryIff`, `AllMemoryMappedIff`, `BitmapMappedIff`,
  `GapMapped`, `BitmapNotMapped`.
- `RequestPage` returns NULL for frame 0 as well as for none: `NullMeansNoneIff`.
- When more pages are marked than the map counts `freeMemory` wraps below zero. `FreePage` on a reserved
  frame, and `UnreservePage` on a used one, move the wrong counter, and so do both on the bit behind the
  bitmap that `InitBitmap` does not clear: `CountersFromBoot`, `FreeExactIff`, `UsedExactIff`,
  `ReservedExactIff`, `CountersGoWrong`.
- `ReadEFIMemoryMap` locks `Size/4096 + 1` frames for the bitmap; they hold all of it only if the
  offsets of the buffer and of its size within a page do not add up past a page:
  `BitmapInsideLockedFrames`, `BitmapCutOff`. The same holds for the frames locked for the kernel:
  `KernelInsideLockedFrames`.
- A change of a table header across the edge of its CRC32 field may pass the check:
  `ChangeAcceptedIff`, `StraddlingChangePasses`.
- `-` is to put a text on the left. With a width alone the filling is still in front of the text:
  `LeftSideIff`, `LeftSideFails`.
- `n`, `h` and `e` are to set an attribute for one field only. Behind the field the attribute is set that
  was in force before the last of these letters, and none if that is 0: `ThisFieldOnlyIff`, `ColourStays`.
- `N`, `H` and `E` with an attribute of 0, as in every output but a console, leave the specification open,
  so that the next letter belongs to it: `LastingSkipped`.
- `%lu` goes through INT64 and prints values from 2^63 on as negative numbers:
  `UnsignedPrintsRightIff`, `LargestPrintsNegative`.
- `StrSize` 0 means no limit to `SPrint`, and so does 1; sizes 2 and 3 write nothing, not even a
  terminator (`print.c` lines 345-349 and 457): `LimitFitsIff`, `VSPrint`.
- `DivU64x32` asserts a divisor below 2^31; 2^31 itself would also do, and nothing above it:
  `ExactlyTheseDivisors`, whose proof divides 2^32.
- `DevicePathInstance` gives up at the 514th node of an instance: `PiecesAreInstancesIff`, `CapCuts`.
- `AppendDevicePath` is described as appending Src2 to each instance of Src1; the result ends after
  the first, and the copies fit the buffer only under a condition. A single instance of more than 513
  nodes counts as several: `AppendKeepsPromiseIff`, `AppendFitsIff`, `AppendFails`, `LongAppendFails`.
- `UnpackDevicePath` rounds lengths up; a length of 65533 or more no longer fits its field:
  `UnpackReadsBackIff`, `UnpackFails`.
- `SwapListEntries` on one ring breaks it if Entry2 already stands directly before Entry1, or is Entry1:
  `SwapWorksIff`, `SwapFails`.

## Model

| member | source | states |
|---|---|---|
| `PageEntry.FlagBits` | kernel/src/Paging/paging.cpp:7-19 | SetFlag gives its own bit the new value and leaves the 63 others as they were |
| `PageEntry.AddressFields` | kernel/src/Paging/paging.cpp:32-37 | SetAddress replaces bits 12 to 51 by the low 40 bits of its argument and keeps the 12 bits on each side |
| `PageEntry.AddressRoundTrip` | kernel/src/Paging/paging.cpp:28-37 | GetAddress after SetAddress gives the argument cut to 40 bits |
| `PageEntry.FlagKeepsAddress` | kernel/src/Paging/paging.cpp:7-19 | setting a flag below bit 12 does not change the address GetAddress reads |
| `PageEntry.AddressKeepsFlags` | kernel/src/Paging/paging.cpp:32-37 | SetAddress does not change bits 0 to 11, nor 52 to 63 |
| `PageEntry.PointedPlain` | kernel/src/Paging/PageTableManager.cpp:38-40 | setting address, Present and ReadWrite of an entry that is zero, or has no other flag, makes exactly the address times 4096 plus 3 |
| `PageEntry.PlainEntryFlags` | kernel/src/Paging/paging.h:10-22 | such an entry is present and writable unless it is zero, and LargerPages, NX and all other flags are clear |
| `PageEntry.GetFlagMeetsItsNameOnlyForPresent` | kernel/src/Paging/paging.cpp:21-26 | GetFlag returns the flag asked for, on all entries, if and only if the flag is Present |
| `PageEntry.GetFlagMisreads` | kernel/src/Paging/paging.cpp:21-26 | an entry that is only Present reads as ReadWrite too |
| `PageEntry.PageDirectoryEntry.SetFlag` | kernel/src/Paging/paging.cpp:7-19 | after the call the flag's bit has the given value and every other bit of the entry is as before |
| `PageEntry.PageDirectoryEntry.GetFlag` | kernel/src/Paging/paging.cpp:21-26 | returns bit 0 of the entry, whatever flag is asked for |
| `PageEntry.PageDirectoryEntry.GetAddress` | kernel/src/Paging/paging.cpp:28-30 | returns the entry divided by 4096, modulo 2^40 |
| `PageEntry.PageDirectoryEntry.SetAddress` | kernel/src/Paging/paging.cpp:32-37 | the entry keeps its high and low twelve bits, and has the low 40 bits of the argument in between |
| `Ram.Memset` | kernel/src/memory.cpp:32-38 | the bytes of the range have the value, all other bytes of memory are unchanged |
| `Ram.LoadedBytes` | kernel/src/Paging/paging.h:24-26 | an entry is read with its lowest byte first |
| `BitmapModel.Bitmap.Get` | kernel/src/Bitmap.cpp:9-27 | the bit at the index, MSB first in its byte; false beyond Size*8, which itself is let through |
| `BitmapModel.Bitmap.Set` | kernel/src/Bitmap.cpp:29-44 | exactly one bit of the bitmap changes, for indices up to Size*8, and no byte outside Buffer[0..Size]; a byte outside Buffer[0..Size) if and only if the index is Size*8 and its bit changes |
| `BitmapModel.SetBits` | kernel/src/Bitmap.cpp:29-44 | writing the masked byte updates one bit of the sequence of bits and no other |
| `BitmapModel.ReadsOutsideIff` | kernel/src/Bitmap.cpp:9-27 | the result depends on memory outside the Size bytes if and only if the index is Size*8 |
| `BitmapModel.WritesOutsideIff` | kernel/src/Bitmap.cpp:29-44 | the write leaves the Size bytes if and only if the index is Size*8 and the bit there changes |
| `BitmapModel.SetPastEnd` | kernel/src/Bitmap.cpp:29-44 | with one byte of bitmap, index 8 sets the top bit of the next byte |
| `FrameSpec.RunKeepsHint` | kernel/src/Paging/PageFrameAllocator.cpp:92-174 | over every sequence of operations all frames below pageBitmapIndex stay in use |
| `FrameSpec.RequestIsLowestFree` | kernel/src/Paging/PageFrameAllocator.cpp:109-124 | after any run RequestPage hands out the lowest free frame, and nothing exactly when all are in use |
| `FrameSpec.HintRefinesFullScan` | kernel/src/Paging/PageFrameAllocator.cpp:92-174 | over every run the allocator with the hint and one that always scans from 0 give the same frames and the same bitmap |
| `FrameSpec.RunConserves` | kernel/src/Paging/PageFrameAllocator.cpp:92-174 | free + used + reserved, and free + 4096 * (set bits), are unchanged modulo 2^64 by every run |
| `FrameSpec.LedgerRunExact` | kernel/src/Paging/PageFrameAllocator.cpp:92-174 | over every run the used and reserved counters are off by exactly the miscounted frees and unreserves |
| `FrameSpec.UsedExactIff` | kernel/src/Paging/PageFrameAllocator.cpp:92-174 | from any marking of the frames by kind, the used counter is 4096 times the frames in use after a run if and only if the miscounts, those of the uncleared bit included, cancel modulo 2^52 |
| `FrameSpec.ReservedExactIff` | kernel/src/Paging/PageFrameAllocator.cpp:92-174 | the same for the reserved counter and the reserved frames |
| `FrameSpec.RequestTakesOne` | kernel/src/Paging/PageFrameAllocator.cpp:109-124 | for every n, RequestPage hands out a frame below n if and only if one is left there, and then leaves one fewer |
| `FrameSpec.RequestInsideIff` | kernel/src/Paging/PageFrameAllocator.cpp:109-124 | after any run the frame handed out has a number below n if and only if one of the first n bits is clear |
| `FrameSpec.ServedFromIff` | kernel/src/Paging/PageFrameAllocator.cpp:109-124 | for every set of frames, the first k requests are all served from the set if and only if k is at most the number of free frames below the first free frame outside of it |
| `FrameSpec.NextBehind` | kernel/src/Paging/PageFrameAllocator.cpp:109-124 | when the frames below n are used up, RequestPage hands out frame n if its bit is clear |
| `FrameSpec.NullMeansNoneIff` | kernel/src/Paging/PageFrameAllocator.cpp:109-124 | after any run a NULL from RequestPage means that no frame was left if and only if frame 0 was in use before the call, or there are no frames at all |
| `FrameSpec.FreeExactIff` | kernel/src/Paging/PageFrameAllocator.cpp:92-174 | after any run freeMemory is the one at its start without the memory of the bits set since, as integers, if and only if that is not negative and below 2^64 |
| `FrameSpec.CountersGoWrong` | kernel/src/Paging/PageFrameAllocator.cpp:92-174 | on one page of memory two short runs leave freeMemory, usedMemory and reservedMemory wrong |
| `PageFrameAllocatorModel.PageFrameAllocator.RequestPage` | kernel/src/Paging/PageFrameAllocator.cpp:109-124 | the loop takes the step Request; the address is the frame's, or NULL; only the bitmap's bytes change |
| `PageFrameAllocatorModel.PageFrameAllocator.FreePage` | kernel/src/Paging/PageFrameAllocator.cpp:92-104 | takes the step Free on bits, counters and hint; only the bitmap's bytes change |
| `PageFrameAllocatorModel.PageFrameAllocator.LockPage` | kernel/src/Paging/PageFrameAllocator.cpp:132-139 | takes the step Lock; only the bitmap's bytes change, and the byte behind them if and only if the page is frame Size*8 and was free |
| `PageFrameAllocatorModel.PageFrameAllocator.ReservePage` | kernel/src/Paging/PageFrameAllocator.cpp:167-174 | takes the step Reserve; only the bitmap's bytes change |
| `PageFrameAllocatorModel.PageFrameAllocator.UnreservePage` | kernel/src/Paging/PageFrameAllocator.cpp:147-159 | takes the step Unreserve; only the bitmap's bytes change |
| `PageFrameAllocatorModel.PageFrameAllocator.FreePages` | kernel/src/Paging/PageFrameAllocator.cpp:126-130 | is the run of FreePage over the range, wrapping at 2^64 |
| `PageFrameAllocatorModel.PageFrameAllocator.LockPages` | kernel/src/Paging/PageFrameAllocator.cpp:141-145 | is the run of LockPage over the range |
| `PageFrameAllocatorModel.PageFrameAllocator.ReservePages` | kernel/src/Paging/PageFrameAllocator.cpp:178-182 | is the run of ReservePage over the range |
| `PageFrameAllocatorModel.PageFrameAllocator.UnreservePages` | kernel/src/Paging/PageFrameAllocator.cpp:161-165 | is the run of UnreservePage over the range |
| `PageFrameAllocatorModel.PageFrameAllocator.GetMemorySize` | kernel/src/memory.cpp:9-29 | the wrapped sum over the descriptors, remembered once it is not zero |
| `PageFrameAllocatorModel.PageFrameAllocator.InitBitmap` | kernel/src/Paging/PageFrameAllocator.cpp:81-90 | clears Size bytes and no others, so that bit Size*8 keeps what memory held |
| `PageFrameAllocatorModel.PageFrameAllocator.FindLargest` | kernel/src/Paging/PageFrameAllocator.cpp:30-51 | the loop computes Largest |
| `PageFrameAllocatorModel.LargestIsFirstMaximum` | kernel/src/Paging/PageFrameAllocator.cpp:30-51 | the segment chosen is the first conventional one of maximal size, or NULL if none has pages |
| `PageFrameAllocatorModel.PageFrameAllocator.ReadEFIMemoryMap` | kernel/src/Paging/PageFrameAllocator.cpp:21-79 | the first call leaves the state Booted, whose bits and counters BootedBits and BootedCounters give, and writes the bitmap only; later calls change nothing |
| `BootMap.BootedBits` | kernel/src/Paging/PageFrameAllocator.cpp:53-77 | after ReadEFIMemoryMap a frame is marked if and only if it is one of the bitmap's locked frames or a page of a descriptor of another type than 7 |
| `BootMap.BitmapLargeEnough` | kernel/src/Paging/PageFrameAllocator.cpp:54-56 | the bitmap has more bits than the memory map counts pages, by at most 8 |
| `BootMap.BitmapInsideLockedFrames` | kernel/src/Paging/PageFrameAllocator.cpp:61-63 | the Size/4096+1 locked frames cover the whole bitmap if and only if its page offsets do not add up past 4096 |
| `BootMap.BitmapCutOff` | kernel/src/Paging/PageFrameAllocator.cpp:61-63 | half a page of bitmap from three quarters of a page on is locked in its first page only |
| `BootCounters.BootedCounters` | kernel/src/Paging/PageFrameAllocator.cpp:53-77 | after ReadEFIMemoryMap used and reserved are 4096 times the frames locked for the bitmap and the unusable ones, and free + used + reserved is the summed size, modulo 2^64 |
| `BootCounters.CountersFromBoot` | kernel/src/Paging/PageFrameAllocator.cpp:53-174 | after every run from there the sum is still the summed size; free is the summed size minus 4096 times the bits set since boot if and only if that is not negative; used and reserved are 4096 times the frames of their kind if and only if the miscounts cancel |
| `BootCounters.SixtyFourPages` | kernel/src/Paging/PageFrameAllocator.cpp:53-77 | with one segment of 64 pages 63 are free, one is used and none reserved |
| `BootCounters.CountKindIs` | kernel/src/Paging/PageFrameAllocator.cpp:92-174 | what the ledger counts is the number of frames of a kind |
| `MemoryMap.SizeIsTotal` | kernel/src/memory.cpp:9-29 | the summed size is 4096 times the sum of the page counts, modulo 2^64 |
| `MemoryMap.ContiguousIff` | kernel/src/memory.cpp:9-29 | the frames of the memory map are the ones below its summed size if and only if none of those is missing and there are not more frames than counted |
| `MemoryMap.ContiguousIffNoGap` | kernel/src/memory.cpp:9-29 | if the sizes add up below 2^64, if and only if none is missing, overlapping descriptors included |
| `MemoryMap.GapIffMemoryBehind` | kernel/src/memory.cpp:9-29 | if also no descriptors overlap, a frame below the summed size is missing if and only if there is one behind it |
| `PageMapIndexerModel.PageMapIndexer.constructor` | kernel/src/Paging/PageMapindexer.cpp:7-23 | the four fields are the path of the page: bits 39-47, 30-38, 21-29, 12-20 |
| `PageTree.PathDecides` | kernel/src/Paging/PageMapindexer.cpp:7-23 | two pages have the same four indices if and only if their addresses agree on bits 12 to 47 |
| `PageTree.PathDigits` | kernel/src/Paging/PageMapindexer.cpp:7-23 | the four indices are the digits of the page number to base 512, the first one highest |
| `PageTree.OneWalkChanged` | kernel/src/Paging/PageTableManager.cpp:33-44 | writing one entry of one table redirects one walk and leaves all others as they were |
| `PageTree.TreeKept` | kernel/src/Paging/PageTableManager.cpp:33-44 | linking a frame that was no table keeps the tables a tree |
| `PageTableManagerModel.MappedFields` | kernel/src/Paging/PageTableManager.cpp:99-102 | the entry holds the frame of the physical address, Present and ReadWrite; all its other bits are kept |
| `PageTableManagerModel.PageTableManager.LinkFresh` | kernel/src/Paging/PageTableManager.cpp:33-43 | takes one frame from the allocator, zeroes it and writes one entry that points to it, every other flag of which is as before; nothing else in memory changes but the bitmap |
| `PageTableManagerModel.PageTableManager.WriteLink` | kernel/src/Paging/PageTableManager.cpp:38-43 | the entry written has the address of the new table, Present and ReadWrite, and every other bit of the one it replaces |
| `PageTableManagerModel.PageTableManager.AddTable` | kernel/src/Paging/PageTableManager.cpp:33-43 | one missing table is added: a link step of the runs below, after which the invariant holds again |
| `PageTableManagerModel.PageTableManager.Descend` | kernel/src/Paging/PageTableManager.cpp:26-48 | follows a present entry, or adds the one table that is missing; tree, use marks and separation are kept |
| `PageTableManagerModel.PageTableManager.SetLeaf` | kernel/src/Paging/PageTableManager.cpp:98-103 | writes one entry of the lowest table and nothing else: a leaf step of the runs below |
| `PageTableManagerModel.PageTableManager.MapMemory` | kernel/src/Paging/PageTableManager.cpp:19-105 | the page leads to the physical frame, every other walk is unchanged, the allocator took exactly the missing tables, which were free frames, and no byte of another frame in use changed; the invariant is kept, and no entry gets a flag but Present and ReadWrite; the call is at most three link steps and a leaf step of the runs below |
| `PageTableManagerModel.OtherPagesKept` | kernel/src/Paging/PageTableManager.cpp:19-105 | pages that differ in bits 12 to 47 are translated exactly as before |
| `PageTableManagerModel.RemapTakesNothing` | kernel/src/Paging/PageTableManager.cpp:19-105 | mapping a page again takes no frame |
| `KernelRuns.RunsStayConsistent` | kernel/src/Paging/PageTableManager.cpp:33-103 | in every run of allocator calls, table links, leaf writes and other writes the tables form a tree of used frames apart from the bitmap, and the bitmap's bytes say what the allocator believes |
| `KernelRuns.RunsStayPlain` | kernel/src/Paging/PageTableManager.cpp:33-103 | in every such run from a zeroed PML4 every entry of every table is zero, or a frame times 4096 plus 3; bit 7, LargerPages, is never set |
| `KernelRuns.InvIsConsistent` | kernel/src/kernelUtil.cpp:15-61 | the invariant PrepareMemory establishes and MapMemory keeps is what the runs start from |
| `KernelRuns.CallIsStep` | kernel/src/Paging/PageFrameAllocator.cpp:92-174 | an allocator call with the contract of its operation is a step of a run |
| `KernelRuns.MapIsRun` | kernel/src/Paging/PageTableManager.cpp:19-105 | one call of MapMemory is a run |
| `IdentityMapModel.IdentityGrows` | kernel/src/kernelUtil.cpp:41-46 | mapping page t to itself adds t to the identity map and nothing else |
| `IdentityMapModel.TablesForFirstPages` | kernel/src/kernelUtil.cpp:41-46 | mapping the pages below n needs ceil(n/2^9) + ceil(n/2^18) + ceil(n/2^27) tables, for all n up to 2^36 |
| `IdentityMapModel.MapIdentity` | kernel/src/kernelUtil.cpp:41-61 | a mapping loop adds exactly its range to the identity map and takes exactly the tables that needs |
| `PrepareMemoryModel.PrepareMemory` | kernel/src/kernelUtil.cpp:15-61 | exactly the pages below the summed size of the memory map and the pages of the framebuffer (MappedIff) are mapped, each to itself, by entries with no flag but Present and ReadWrite; the allocator state is exact; no byte of a locked or reserved frame changed outside the bitmap |
| `PrepareMemoryModel.EnoughIf` | kernel/src/kernelUtil.cpp:15-61 | there are frames enough for all of it if the array of memory has a frame, with a bit in the bitmap, for every page that is locked, reserved or allocated, counted from the boot information |
| `PrepareMemoryModel.SmallMachineBoots` | kernel/src/kernelUtil.cpp:15-61 | a machine with one segment of 64 pages, and 64 pages of memory, meets the requirements |
| `PrepareMemoryModel.IdentityWalk` | kernel/src/kernelUtil.cpp:41-61 | the walk of any 64-bit address gives the page in its bits 12 to 47 if that is mapped, and nothing if it is not |
| `PrepareMemoryModel.TablesForAllMemory` | kernel/src/kernelUtil.cpp:33-46 | after the PML4 the first loop makes exactly the three ceilings' sum of requests |
| `MemoryGaps.ExactlyMemoryIff` | kernel/src/kernelUtil.cpp:41-46 | the pages the first loop maps are the pages of the memory map if and only if the map has no gap below its summed size, for sizes that add up below 2^64 |
| `MemoryGaps.AllMemoryMappedIff` | kernel/src/kernelUtil.cpp:41-61 | every page of the memory map is mapped if and only if every descriptor ends below the summed size, or what is behind it lies in the framebuffer |
| `MemoryGaps.BitmapMappedIff` | kernel/src/kernelUtil.cpp:41-61 | the pages that hold the bitmap are mapped if and only if the same is true of them |
| `MemoryGaps.LockedBits` | kernel/src/kernelUtil.cpp:20-31 | after the kernel is locked a bit is set if and only if its frame is locked for the bitmap or the kernel or is unusable; the spare bits and gaps are not |
| `MemoryGaps.FreeIsConventionalIff` | kernel/src/kernelUtil.cpp:20-31 | then all free frames below n are conventional memory if and only if none of them is a gap in the map, for every n up to the size of the bitmap |
| `MemoryGaps.TablesInMemoryIff` | kernel/src/kernelUtil.cpp:33-61 | all tables PrepareMemory makes are conventional memory if and only if, at both stages, they are not more than the free frames below the first free gap |
| `MemoryGaps.SpareFrameHandedOut` | kernel/src/kernelUtil.cpp:20-34 | with 64 pages of memory, frame 64 is handed out when they are used up |
| `MemoryGaps.GapMapped` | kernel/src/kernelUtil.cpp:41-46 | with pages 0-31 and 64-95, page 40 is mapped and page 80 is not |
| `MemoryGaps.GapFrameHandedOut` | kernel/src/kernelUtil.cpp:20-34 | on that machine frame 32 is handed out while frame 64 is free |
| `MemoryGaps.BitmapNotMapped` | kernel/src/kernelUtil.cpp:41-61 | with pages 0-15 and 128-175, the bitmap lies in page 128, which is not mapped |
| `MemoryGaps.TablesInGap` | kernel/src/kernelUtil.cpp:33-46 | with pages 0-2 and 128-188, PrepareMemory puts a table into a frame that does not exist |
| `BootRanges.MappedIff` | kernel/src/kernelUtil.cpp:41-61 | a page is mapped if and only if it is below the summed size, holds a byte of the framebuffer, or is the one page at its base plus its size rounded up |
| `BootRanges.FramebufferBits` | kernel/src/kernelUtil.cpp:54-56 | locking the framebuffer marks the frames of BufferSize/4096 + 2 pages from its base on, and no others |
| `BootRanges.FramebufferInUse` | kernel/src/kernelUtil.cpp:54-61 | every frame of the framebuffer that the bitmap has a bit for is in use when PrepareMemory returns |
| `BootRanges.ScreenMapped` | kernel/src/kernelUtil.cpp:51-61 | of 8 MB at 3 GB the first and the last page and one page behind it are mapped |
| `BootRanges.KernelInsideLockedFrames` | kernel/src/kernelUtil.cpp:25-31 | the frames locked for the kernel hold all of it if and only if the offsets of its start and its size within a page do not add up past 4096 |
| `Crc.TableIsEightBitSteps` | gnu-efi/lib/crc.c:22-66 | every one of the 256 table entries is eight bit steps of its index with polynomial 0xEDB88320 |
| `Crc.ByteAtOnce` | gnu-efi/lib/crc.c:201-218 | feeding eight bits one at a time is one byte step of the register combined with the byte |
| `Crc.TableRound` | gnu-efi/lib/crc.c:211-215 | one round of the loop on the 64-bit accumulator stays below 2^32 and feeds one byte to the bit-serial register |
| `Crc.CalculateCrc` | gnu-efi/lib/crc.c:201-218 | equals the bit-serial reflected CRC-32 of the first Size bytes |
| `Crc.CheckValue` | gnu-efi/lib/crc.c:201-218 | the figures 1 to 9 have the published check value 0xCBF43926, no bytes have 0 |
| `Crc.BurstChangesCrc` | gnu-efi/lib/crc.c:201-218 | messages that differ only within four consecutive bytes have different CRCs |
| `Crc.SetCrcAltSize` | gnu-efi/lib/crc.c:93-116 | only the CRC32 field changes, to the CRC with that field zero |
| `Crc.CheckCrcAltSize` | gnu-efi/lib/crc.c:146-198 | accepts exactly a stored CRC that is the expected one, for a size that is not 0 and within MaxSize; the header is the same afterwards |
| `Crc.SetThenCheck` | gnu-efi/lib/crc.c:93-198 | a header just set is accepted if and only if the size is not 0 and within MaxSize when that is not 0 |
| `Crc.CorruptionIsNoticed` | gnu-efi/lib/crc.c:146-198 | an accepted header with one to four consecutive checked bytes changed is rejected, if they lie wholly outside the CRC32 field or wholly inside it |
| `Crc.FeedLinear` | gnu-efi/lib/crc.c:211-215 | the xor of the registers after two messages is the register after the xor of the messages |
| `Crc.ChangeAcceptedIff` | gnu-efi/lib/crc.c:146-198 | whatever bytes of an accepted header change, it is accepted again if and only if its field changes by the CRC register of the change of its checked bytes |
| `Crc.StraddlingChangePasses` | gnu-efi/lib/crc.c:146-198 | in every accepted header of 24 bytes one certain change of bytes 15 to 18 passes |
| `MetaMatchModel.MetaMatch` | gnu-efi/lib/str.c:325-409 | TRUE if and only if the string is a concatenation of strings the pattern's tokens stand for, that is, in the language of the pattern |
| `MetaMatchModel.MatchSet` | gnu-efi/lib/str.c:360-397 | finds the character if and only if the set admits it, ranges included, and then stops behind the bracket |
| `MetaMatchModel.MatchStar` | gnu-efi/lib/str.c:342-350 | tries every suffix of the string with the shorter pattern |
| `MetaMatchModel.MatchesOne` | gnu-efi/lib/str.c:352-406 | in the language, a token for one character takes exactly the first character |
| `MetaMatchModel.MatchesStar` | gnu-efi/lib/str.c:342-350 | in the language, a star takes any number of characters |
| `MetaMatchModel.LanguageMeans` | gnu-efi/lib/str.c:336-406 | the empty pattern matches the empty string, a star anything in front of a match of the rest, a question mark one character, any other character itself |
| `MetaMatchModel.LanguageOfSet` | gnu-efi/lib/str.c:360-397 | a closed set takes one character that it admits |
| `MetaMatchModel.LanguageOfText` | gnu-efi/lib/str.c:400-406 | a pattern without special characters matches itself alone |
| `MetaMatchModel.SetOfCharacters` | gnu-efi/lib/str.c:360-392 | a set without dashes admits exactly its characters |
| `MetaMatchModel.SetOfRange` | gnu-efi/lib/str.c:374-383 | lo-hi admits exactly the characters from lo to hi, and lo and hi themselves if they are the wrong way round |
| `MetaMatchModel.SetWithRange` | gnu-efi/lib/str.c:374-386 | a dash and a character behind any set add the range from its last character, which may end another range |
| `MetaMatchModel.SetFromDash` | gnu-efi/lib/str.c:367-383 | a dash at the start is a range from the least character |
| `MetaMatchModel.SetToDash` | gnu-efi/lib/str.c:374-379 | a dash at the end admits nothing |
| `MetaMatchModel.SetOfParts` | gnu-efi/lib/str.c:367-392 | a set of parts that do not end or begin with a dash admits what one of them admits |
| `MetaMatchModel.WordSet` | gnu-efi/lib/str.c:360-397 | [a-zA-Z0-9_] admits the letters, the figures and the underscore |
| `Div64.DivU64x32` | gnu-efi/lib/ia32/math.c:134-199 | the 64 rounds give Dividend = quotient * Divisor + remainder with remainder < Divisor |
| `Div64.RoundsDivide` | gnu-efi/lib/ia32/math.c:151-191 | for every divisor from 1 to 2^31 the rounds divide every dividend |
| `Div64.ExactlyTheseDivisors` | gnu-efi/lib/ia32/math.c:134-149 | the loop is right for all dividends if and only if the divisor is at most 2^31 |
| `Numbers.ValueToHex` | gnu-efi/lib/print.c:1260-1288 | the buffer holds the hexadecimal digits and a terminator |
| `Numbers.ValueToString` | gnu-efi/lib/print.c:1291-1334 | the buffer holds sign and decimal digits, in groups of three from the right if Comma is set |
| `Numbers.UptoGrouped` | gnu-efi/lib/print.c:1320-1333 | writing digits left to right with the countdown gives the groups of three counted from the right |
| `Numbers.Canonical` | gnu-efi/lib/print.c:1260-1334 | no digit string starts with 0 but that of zero |
| `Numbers.DigitsRoundTrip` | gnu-efi/lib/print.c:1260-1334 | the digits of a number read back as that number, in both bases |
| `Numbers.GroupedIsDigits` | gnu-efi/lib/print.c:1320-1333 | without its commas the grouped text is the plain one |
| `Numbers.CommaPositions` | gnu-efi/lib/print.c:1320-1333 | a comma stands directly before a digit if and only if it is not the first and begins a group of three |
| `Numbers.UnsignedPrintsRightIff` | gnu-efi/lib/print.c:1153-1160 | an unsigned value passed as INT64 prints as its digits, grouped or not, if and only if it is below 2^63 |
| `Numbers.LargestPrintsNegative` | gnu-efi/lib/print.c:1153-1160 | the largest unsigned value prints as -1 |
| `Numbers.SignedText` | gnu-efi/lib/print.c:1291-1334 | a negative number prints as a minus sign and the digits of its absolute value, the least INT64 included |
| `Numbers.DigitCharacters` | gnu-efi/lib/print.c:1260-1288 | the digit characters are 0 to 9 and A to F |
| `Numbers.DigitWorth` | gnu-efi/lib/str.c:283-320 | figures and letters of either case have their values |
| `Numbers.Xtoi` | gnu-efi/lib/str.c:267-296 | the value of the leading hexadecimal digits behind any spaces, modulo 2^64 |
| `Numbers.Atoi` | gnu-efi/lib/str.c:298-323 | the value of the leading decimal digits behind any spaces, modulo 2^64 |
| `Numbers.ParseMeans` | gnu-efi/lib/str.c:267-323 | spaces in front are skipped and the first character that is no digit ends the number |
| `Numbers.TextRoundTrips` | gnu-efi/lib/str.c:267-323 | xtoi undoes ValueToHex on all 64-bit values, Atoi undoes ValueToString on 0 to 2^63 - 1 |
| `PrintFormat.RenderedWidth` | gnu-efi/lib/print.c:914-971 | every item occupies the larger of its width and its field width, before newlines are expanded |
| `PrintFormat.PlainText` | gnu-efi/lib/print.c:1037-1042 | a format without % stands for itself |
| `PrintFormat.ExpandConcat` | gnu-efi/lib/print.c:876-896 | newline expansion works piece by piece, which is why a flush may fall anywhere |
| `PrintFormat.ExpandAddsReturns` | gnu-efi/lib/print.c:883-886 | expansion adds carriage returns and nothing else |
| `PrintFormat.ReturnBeforeNewline` | gnu-efi/lib/print.c:883-886 | every newline that is output has a carriage return directly before it |
| `PrintFormat.ExpandLength` | gnu-efi/lib/print.c:883-886 | one for each newline |
| `PrintMeaning.ReadModifiers` | gnu-efi/lib/print.c:1044-1105 | any modifiers in any order are read as one setting: the width is the last number in front of the first point, the field width the last one behind it, each from digits or from the arguments |
| `PrintMeaning.StringMeans` | gnu-efi/lib/print.c:1107-1120 | under any modifiers %s and %a show the string, or (null), cut to the field width and filled up to the width |
| `PrintMeaning.HexMeans` | gnu-efi/lib/print.c:1138-1145 | %x shows the low 32 bits, or with l all 64, as hexadecimal digits |
| `PrintMeaning.FixedHexMeans` | gnu-efi/lib/print.c:1132-1145 | %X does so with zeros up to 8 places, or 16, whatever width is given |
| `PrintMeaning.DecimalMeans` | gnu-efi/lib/print.c:1153-1169 | %d and %u show 32 bits with and without sign, with l both 64 bits with sign, grouped after a comma |
| `PrintMeaning.CharMeans` | gnu-efi/lib/print.c:1122-1126 | %c shows the low 16 bits as a character, and nothing for 0 |
| `PrintMeaning.ConvertedMeans` | gnu-efi/lib/print.c:1148-1200 | %g, %D, %t, %r and %f show their text, a device path cut to 99 characters |
| `PrintMeaning.SignMeans` | gnu-efi/lib/print.c:1061-1230 | %% shows a percent sign; a letter without meaning shows a question mark |
| `PrintMeaning.ZeroFilledHex` | gnu-efi/lib/print.c:974-1255 | %0<w>x shows the digits with zeros in front up to w places, %<w>x with blanks |
| `PrintMeaning.PlainHex` | gnu-efi/lib/print.c:974-1255 | %x, %lx, %X and %lX alone |
| `PrintMeaning.FixedHexWidth` | gnu-efi/lib/print.c:1132-1134 | %X shows exactly 8 characters, %lX 16 |
| `PrintMeaning.ShortDecimals` | gnu-efi/lib/print.c:1153-1169 | %u, %d and %,d alone, negative numbers included |
| `PrintMeaning.LongDecimals` | gnu-efi/lib/print.c:1153-1169 | %ld, %lu, %,ld and %,lu alone; u shows values from 2^63 on as negative |
| `PrintMeaning.Strings` | gnu-efi/lib/print.c:1107-1120 | %s and %<w>s, and %a the same, for every string and width |
| `PrintMeaning.FieldStrings` | gnu-efi/lib/print.c:914-971 | %.<n>s shows the first n characters, or blanks in front of a shorter string; %-.<n>s has them behind |
| `PrintMeaning.StarredStrings` | gnu-efi/lib/print.c:1086-1088 | %*s and %.*s take the number from the argument in front of the string |
| `PrintMeaning.LeftSideIff` | gnu-efi/lib/print.c:948-970 | %-<w>s has its blanks in front; it shows the text followed by blanks if and only if there are none to add or the text is blank |
| `PrintMeaning.LeftSideFails` | gnu-efi/lib/print.c:948-970 | %-5s shows "abc" behind two blanks |
| `PrintMeaning.ItemMarks` | gnu-efi/lib/print.c:1202-1249 | under any modifiers an item is surrounded by the attributes its letters set, in their order |
| `PrintMeaning.LettersMark` | gnu-efi/lib/print.c:859-874 | every n, h, e sets its attribute in front of the item; behind it the attribute before the last one is set again, unless that is 0 |
| `PrintMeaning.ThisFieldOnlyIff` | gnu-efi/lib/print.c:1202-1249 | after a string the attribute is the one before it if and only if there is no letter, or one and the attribute was not 0 or does not change, or of several the last but one gives it |
| `PrintMeaning.ColourStays` | gnu-efi/lib/print.c:859-874 | after %hes the highlight attribute stays |
| `PrintMeaning.ColouredString` | gnu-efi/lib/print.c:1202-1212 | in the middle of any text %ns, %hs and %es show the string and set their attribute exactly in front of it and the current one exactly behind it |
| `PrintMeaning.LastingColour` | gnu-efi/lib/print.c:1214-1245 | %N, %H and %E show nothing and set their attribute at their place |
| `PrintMeaning.LastingSkipped` | gnu-efi/lib/print.c:1214-1245 | with an attribute of 0 they are passed over, and the specification goes on |
| `PrintModel.PrintState.PFLUSH` | gnu-efi/lib/print.c:845-857 | hands the buffered text to the callback as one chunk, all of it and less than 200 characters, and empties the buffer |
| `PrintModel.PrintState.PSETATTR` | gnu-efi/lib/print.c:859-874 | flushes, sets the attribute behind the text put so far if there is a callback for it, and changes no text |
| `PrintModel.PrintState.PPUTC` | gnu-efi/lib/print.c:876-896 | adds one character, or two for a newline, to the text put so far and to Len; Pos stays before End |
| `PrintModel.PrintState.PITEM` | gnu-efi/lib/print.c:914-971 | adds the item with its padding, width and precision, newlines expanded |
| `PrintModel.PrintState.ParseWidth` | gnu-efi/lib/print.c:1090-1105 | reads the whole digit run and its value modulo 2^64 |
| `PrintModel.PrintState.NumberToScratch` | gnu-efi/lib/print.c:1132-1169 | the scratch buffer holds the text of the argument, 32 or 64 bits wide, and it fits |
| `PrintModel.PrintState.ConversionToScratch` | gnu-efi/lib/print.c:1148-1207 | the scratch buffer holds the text of a GUID, time, status, float or device path, the last cut to 99 characters |
| `PrintModel.PrintState.ReadLetters` | gnu-efi/lib/print.c:1056-1245 | reads a specification up to its item or lasting attribute: the item, its text, and the attributes set on the way are those of the pure formatter |
| `PrintModel.PrintState.PrintSpec` | gnu-efi/lib/print.c:1044-1247 | one specification adds exactly the text the pure formatter gives it, sets exactly the attributes at exactly the places, and consumes exactly its letters and arguments |
| `PrintModel.PrintState.Print` | gnu-efi/lib/print.c:974-1255 | the concatenation of all chunks is the pure formatter's text with newlines expanded, Len is its length, every chunk is shorter than the buffer, and the attributes are set at the positions of the text the pure formatter gives |
| `SinksModel.PoolPrint.SPrintChunk` | gnu-efi/lib/print.c:313-352 | the held text becomes the first maxlen characters of old text and chunk, terminated if maxlen > 0; no other cell changes |
| `SinksModel.FirstTwice` | gnu-efi/lib/print.c:326-338 | cutting after each chunk and cutting once at the end give the same text |
| `SinksModel.VSPrint` | gnu-efi/lib/print.c:423-463 | leaves the first StrSize/2 - 1 characters of the formatted text whatever the flushes were, terminated exactly when that limit is not 0 |
| `SinksModel.LimitFitsIff` | gnu-efi/lib/print.c:457 | text and terminator fit StrSize bytes, with 0 for no limit, if and only if StrSize is not 1 |
| `SinksModel.LimitIsLargest` | gnu-efi/lib/print.c:457 | from size 2 on the limit is the largest number of characters that fits StrSize bytes with a terminator |
| `SinksModel.ReallocatePool` | gnu-efi/lib/misc.c:57-79 | a new buffer with the old contents, or NULL |
| `SinksModel.PoolPrint.PoolPrintChunk` | gnu-efi/lib/print.c:355-397 | takes the step PoolStep: the whole chunk is added, or everything is lost when the allocation fails |
| `SinksModel.PoolKeepsText` | gnu-efi/lib/print.c:355-397 | the text is all chunks behind the last failed allocation, never cut short |
| `SinksModel.GrowthsAreRare` | gnu-efi/lib/print.c:372-390 | while no allocation fails there is at most one per 201 characters, and one more |
| `SinksModel.CatPrint` | gnu-efi/lib/print.c:566-600 | appends exactly the formatted text to the buffer while no allocation fails |
| `SinksModel.VPoolPrint` | gnu-efi/lib/print.c:503-532 | returns a buffer that holds exactly the formatted text while no allocation fails |
| `DevicePathNodes.ParseEncoded` | gnu-efi/inc/efidevp.h:50-64 | the bytes of a path are read back as its nodes |
| `DevicePathNodes.EncodedParse` | gnu-efi/inc/efidevp.h:50-64 | what reads as a path are the bytes of its nodes and no others |
| `DevicePathNodes.NodeBytes` | gnu-efi/inc/efidevp.h:25-64 | type, subtype and length, low byte first, stand in front of the payload; the two end nodes are 7F FF 04 00 and 7F 01 04 00 |
| `DevicePathNodes.InstancesSplit` | gnu-efi/lib/dpath.c:48-106 | instances and end nodes make up the whole path; no instance holds an end node; only the last end node ends the path |
| `DevicePathNodes.JoinedInstances` | gnu-efi/lib/dpath.c:397-433 | the instances of the appended path are those of both, in order, so their numbers add |
| `DevicePathModel.DevicePathInstance` | gnu-efi/lib/dpath.c:48-106 | returns the bytes up to the first end node, or the cap, and a pointer behind it unless its subtype ends the path |
| `DevicePathModel.PiecesAreInstancesIff` | gnu-efi/lib/dpath.c:70-87 | repeated calls hand out exactly the instances if and only if none has more than 513 nodes |
| `DevicePathModel.CapCuts` | gnu-efi/lib/dpath.c:70-87 | a path of 514 nodes is not handed out as one instance |
| `DevicePathModel.DevicePathInstanceCount` | gnu-efi/lib/dpath.c:108-121 | counts what repeated calls hand out |
| `DevicePathModel.DevicePathSize` | gnu-efi/lib/dpath.c:286-307 | the number of bytes of the whole path |
| `DevicePathModel.DuplicateDevicePath` | gnu-efi/lib/dpath.c:309-334 | a fresh buffer with exactly the path's bytes, or NULL |
| `DevicePathModel.AppendDevicePathInstance` | gnu-efi/lib/dpath.c:397-433 | the buffer reads as the first path, its end turned into an instance end, followed by the second |
| `DevicePathAppend.AppendDevicePath` | gnu-efi/lib/dpath.c:124-194 | writes every copy in place; the result reads as Src2 behind the first instance of Src1 |
| `DevicePathAppend.AppendKeepsPromiseIff` | gnu-efi/lib/dpath.c:129-132 | that is Src2 appended to each instance if and only if Src1 is a single instance of at most 513 nodes |
| `DevicePathAppend.AppendFitsIff` | gnu-efi/lib/dpath.c:162-189 | for the k pieces Src1 is handed out in, the copies fit the allocated size if and only if k-1 times the size of Src2 is at most k-1 times that of Src1 and the bytes skipped between the pieces |
| `DevicePathAppend.AppendFitsWithinCapIff` | gnu-efi/lib/dpath.c:162-189 | if no instance has more than 513 nodes, if and only if Src1 is a single instance or Src2 is not larger than Src1 |
| `DevicePathAppend.PiecesSize` | gnu-efi/lib/dpath.c:48-121 | the sizes of the pieces, four bytes for each, and the bytes skipped add up to the size of the path |
| `DevicePathAppend.AppendFails` | gnu-efi/lib/dpath.c:162-189 | with two empty instances and one node of twelve bytes the copies overrun the buffer and the promise is not kept |
| `DevicePathAppend.LongAppendFails` | gnu-efi/lib/dpath.c:162-189 | with one instance of 514 nodes the promise is broken for every Src2, and one of 515 nodes overruns the buffer |
| `DevicePathAppend.InstancesSize` | gnu-efi/lib/dpath.c:48-121 | the sizes of the instances and four bytes for each end add up to the size of the path |
| `DevicePathAppend.AppendDevicePathNode` | gnu-efi/lib/dpath.c:197-230 | the node, terminated, follows the first instance of Src1; an end-entire node ends the result itself |
| `DevicePathUnpack.UnpackedSize` | gnu-efi/lib/dpath.c:348-359 | the first pass computes exactly the bytes the second one writes |
| `DevicePathUnpack.UnpackDevicePath` | gnu-efi/lib/dpath.c:336-394 | fills the buffer exactly with the bytes of the unpacked nodes |
| `DevicePathUnpack.UnpackedNode` | gnu-efi/lib/dpath.c:377-383 | masked type, subtype and payload are kept, the padding is zero, the length is the next multiple of the alignment |
| `DevicePathUnpack.UnpackReadsBackIff` | gnu-efi/lib/dpath.c:336-394 | the result reads as the unpacked path if and only if every rounded length fits 16 bits |
| `DevicePathUnpack.UnpackFails` | gnu-efi/lib/dpath.c:336-394 | after a node of 65533 bytes the result does not read back |
| `DevicePathUnpack.UnpackKeepsInstances` | gnu-efi/lib/dpath.c:336-394 | the instances of the result are the instances of the path, each unpacked |
| `LinkedListModel.RingUnique` | gnu-efi/inc/efilink.h:28-31 | memory determines the node sequence of a ring |
| `LinkedListModel.ListMemory.InitializeListHead` | gnu-efi/inc/efilink.h:43-45 | the head alone is a ring |
| `LinkedListModel.ListMemory.IsListEmpty` | gnu-efi/inc/efilink.h:54-55 | true if and only if the ring is the head alone |
| `LinkedListModel.ListMemory.RemoveEntryList` | gnu-efi/inc/efilink.h:64-70 | the ring without the entry; a ring of one is unchanged |
| `LinkedListModel.ListMemory.InsertTailList` | gnu-efi/inc/efilink.h:90-98 | the ring with the entry at its end; no entry outside changes |
| `LinkedListModel.ListMemory.InsertHeadList` | gnu-efi/inc/efilink.h:108-116 | the ring with the entry behind the head; no entry outside changes |
| `LinkedListModel.SwapWorksIff` | gnu-efi/inc/efilink.h:126-139 | on one ring, Entry2 is moved to before Entry1 if and only if they are different and it does not already stand there, or the list is a single entry |
| `LinkedListModel.SwapBreaks` | gnu-efi/inc/efilink.h:126-139 | if it does stand there, no ring at all holds Entry1 afterwards |
| `LinkedListModel.SwapAcross` | gnu-efi/inc/efilink.h:126-139 | from another ring Entry2 is always moved to before Entry1, and its own ring closes behind it |
| `LinkedListModel.SwapAlone` | gnu-efi/inc/efilink.h:126-139 | an entry put before itself is alone on its ring afterwards |
| `LinkedListModel.SwapFails` | gnu-efi/inc/efilink.h:126-139 | on a ring of two neither swap works |
| `LinkedListModel.ListMemory.SwapListEntries` | gnu-efi/inc/efilink.h:126-139 | the macro in its own order has these effects, on one ring or two, and changes no entry outside them |
| `LinkedListModel.ListMemory.RtConvertList` | gnu-efi/lib/runtime/vm.c:74-105 | terminates; every Flink and Blink of the ring is converted exactly once, with the debug disposition for links to the head; nothing else changes |
| `LinkedListModel.ConvertedLink` | gnu-efi/lib/runtime/vm.c:88-104 | each link of a node is the converted address of its neighbour, with the debug disposition exactly where the neighbour is the head |
| `LinkedListModel.ConvertedIsImage` | gnu-efi/lib/runtime/vm.c:74-105 | once the nodes have moved, the converted links form the image of the ring, if no two nodes move to one place |

## Left out

- PageTableManagerModel.PageTableManager.MapMemory: requires enough free frames inside memory for the missing tables; the code tests RequestPage neither for NULL (NullMeansNoneIff) nor for a frame behind the array that is memory here, and zeroing that is outside the model. RequestTakesOne says when RequestPage gives a frame inside the array.
- KernelRuns.RunsStayConsistent: a link step takes a frame inside the array of memory, for the same reason; frames given back are neither tables nor part of the bitmap.
- PageFrameAllocatorModel.PageFrameAllocator.LockPages: like the other range operations, requires at most 2^19 pages, because `t * 4096` is computed in `int`.
- PageFrameAllocatorModel.PageFrameAllocator.ReadEFIMemoryMap: requires a bitmap below 2^31 bytes (InitBitmap counts in `int`) that lies in memory with one byte behind it.
- PrepareMemoryModel.PrepareMemory: requires a page-aligned largest segment, enough free frames (EnoughIf) and a framebuffer below 2^48; the loop bound GetMemorySize is read once, since it is remembered; loading CR3 and `kernelInfo` are not modelled.
- MetaMatchModel.MetaMatch: patterns whose sets are not closed are excluded.
- PrintModel.PrintState.Print: incomplete specifications and missing or ill-typed arguments are excluded (the loop would read past the terminator or the arguments); what GuidToString, DevicePathToStr, TimeToString, StatusToString and FloatToString make of an argument is a parameter; Len and the padding counts are not wrapped at 2^64.
- SinksModel.VSPrint: the chunks are delivered after formatting instead of in between; the callback touches nothing the formatter reads.
- SinksModel.PoolPrint.PoolPrintChunk: sizes in bytes are not wrapped at 2^64.
- Numbers.ValueToString: the division by 10 is the mathematical one that DivU64x32 is proved to compute; the negation of the least INT64 is taken as two's complement.
- DevicePathModel.AppendDevicePathInstance: requires that memory is granted, because the source only asserts it.
- DevicePathAppend.AppendDevicePath: requires that the copies fit the buffer; AppendFitsIff says when they do. At least one of the two paths is not NULL.
- DevicePathUnpack.UnpackDevicePath: MIN_ALIGNMENT_SIZE is 4, as on x86_64.
- LinkedListModel.ListMemory.RemoveEntryList: the debug build's overwriting of the removed links is left out.
- LinkedListModel.ListMemory.RtConvertList: ConvertPointer is an arbitrary function of disposition and pointer; its status is ignored, as in the source.
- Physical memory is one array without holes: every frame below its length can be read and written, also one no descriptor covers. TablesInMemoryIff says when the tables are in frames that a descriptor covers; what the hardware does with the others is not modelled.
- The memory map is a sequence of descriptors; that it could lie in the bytes the bitmap is written to is not modelled.
- `SetCrc` and `CheckCrc` pass the header's own size on; DEBUG output and assertions have no effect in the model.
- Port I/O, interrupts, CR3, GDT, PS/2, PCI and ACPI: hardware access.
- Renderer, fonts, panic screen, demo applications, thin firmware wrappers, device-path text renderers.
- `kernel/src/cstr.cpp`: the conversions of print.c cover the same round trips.
- `LibDuplicateDevicePathInstance`, `LibMatchDevicePaths`, `FileDevicePath`, `ValidMBR`: smaller variants of what is modelled, or outside its scope.
