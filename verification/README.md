# Verification of the x86 32-bit kernel's memory subsystem and terminal

A Dafny 4.11 model of the kernel's memory subsystem, from single bits up to the
virtual allocator, and of its scrolling terminal. Run `dafny verify
dfyconfig.toml` to check it.

## What is modelled

| file | models |
|---|---|
| `Bitmap.dfy` | bit arrays over bytes, range marking, the skipping first-fit search; the abstraction is the set of free page numbers |
| `MemoryMap.dfy` | the packed little-endian memory map of section 3.3 of the Multiboot Specification 0.6.96, the walk over it, the bounds pass, and the ranges the marking pass clears |
| `PfaInit.dfy` | `init_pfa` and its passes |
| `FrameAllocator.dfy` | `pfa_alloc` and `pfa_free`, their invariant, and runs of both |
| `Paging.dfy` | the two-level walk of section 4.3 of the Intel SDM Volume 3A, the boot mapping, the self-map, `setup_recursive_pd` |
| `Tables.dfy` | `alloc_new_pt` and the page loop of `vma_alloc` as functions on physical memory and the free frames, with the ownership invariant |
| `Unmap.dfy` | the page loop of `vma_free` in the same style |
| `VirtualAllocator.dfy` | class `AddressSpace`: the allocator's methods, in which every load and store is a virtual access translated by the walk, and the functions `Allocate` and `Deallocate` they are proved to compute |
| `Permissions.dfy` | the words, flag bits included, that allocation and freeing leave in the directory and the page tables |
| `VmaTheorems.dfy` | what callers can rely on: one call, allocate-then-free, whole runs |
| `Startup.dfy` | the boot code and `init_pfa` establish what the virtual allocator needs |
| `PdeRanges.dfy` | the directory summary |
| `Transcript.dfy`, `Terminal.dfy` | an endless-paper terminal, and the scrolling terminal as a window onto it |
| `Printf.dfy` | number printing |

32-bit sums, 64-bit sums and truncations are written out (`AddWord`, `% LIMIT64`).
An entry or address with bits 0 and 1 or-ed in, a masked address and a shifted
address are written with `/` and `%` by the same powers of two.

The memory of the machine is an array of 2^30 words. The page directory is
reached through the identity mapping, a new table through the temporary slot
and an existing table through the self-map, so a store that the walk would not
send to the intended word would fail its proof.

The code that runs is taken to lie, with its stack, in the pages from 0xC0000000
on that the boot table maps, as linker.ld:37-63 places it; whether it can go on
is checked where a store to the directory may take that mapping away.

Two assumptions come from outside the modelled code. The virtual bit array,
which the kernel never initialises (src/memory/vma.h:11), is taken to have 2^20
bits with the pages of directory entries 0, 768 and 1023 marked used. Directory
entry 1023 is taken to name the directory's own frame, as the comment at
src/memory/memory.h:23 says.

## Where the code does not do what it says

The model follows the code; these are proved, not assumed.

- `setup_recursive_pd` stores entry 0 of the directory, so entry 1023 names the
  first page table and the window shows physical frames 0 to 1023 instead of
  the page tables (`SetupRecursivePdWindow`, `SetupRecursivePdMisses`).
- `vma_free` hands the page table's address to `pfa_free`. In every state of a
  run the invariant survives a call on a range of the allocator's own directory
  entries exactly when no page of the range is mapped (`FreeInRunExact`), so
  freeing what `vma_alloc` returned always breaks it: the page table is then
  free while the directory names it (`AllocateThenFreeBreaks`). The next
  `pfa_alloc` hands that live table out exactly when the table of some mapped
  page is lower than every free frame (`FreedTableReused`), as it always is when
  the `vma_alloc` had created a table (`AllocateThenFreeReuses`).
- `vma_alloc` computes 0 pages for more than 0xFFFFF000 bytes
  (`NumPagesCovers`). It then maps and reserves no page and returns the page of
  the hint (`AllocateWrapped`); with hint 0 the caller is handed 0xC0000000,
  which translates to physical address 0, the kernel's own low memory
  (`AllocateWrappedLowMemory`).
- `alloc_new_pt` does not return on directory entries 0 and 768. On entry 768
  the new table unmaps the kernel's own code, so the next instruction cannot be
  fetched (`CodeReachable`); on entry 0 it takes away the identity mapping that
  the store emptying the temporary slot needs (`SlotReachable`). On every other
  entry it completes (`AllocNewPt`).
- `vma_alloc` that runs out of frames gives the virtual range back but none of
  the frames it took: no frame is left, and the mapped part of the range stays
  mapped (`AllocateExact`, `AllocateKeeps`).
- Step 5 of `init_pfa` reserves the boot structure by the pointer it is given,
  which is 3 GB above the physical address (src/boot.nasm:88): the frame it
  reserves is never the one that holds the structure (`InfoFrameMissed`). The
  memory map is moved down to its page boundary, so its last page is reserved
  exactly when that does not shorten it (`MapKeptExact`). A module that reaches
  into the last page below 4 GB is not reserved at all (`ModuleKeptExact`).
- `pfa_free` of an address in 1..4095 frees frame 0 (`ReleaseSound`).
- The marking pass leaves the bit buffer for exactly one family of regions
  whose 64-bit end wraps (`MarkEndInBounds`, with an input in
  `MarkEndLeavesBitmap`).
- A region that does not start on a page boundary frees a frame that lies partly
  outside it: the freed frames lie inside exactly when the region is aligned or
  no whole page long (`CoversInside`).
- A refresh with a view offset o below 25 starts 25 - o rows back, not o, and
  shows rows that were never written when fewer than 25 - o are saved (`Painted`
  in the contract of `Refresh`). For every o from 0 to the number of saved rows,
  when the rows differ, what it paints is the window o rows up exactly for o of
  at least 25 (`ViewExact`).
- `terminal_scrollup` that ends at offset 0 stays outside scrollback mode and
  paints over the live rows. This happens exactly when nothing is saved, and
  then the screen is wiped, or when the 32-bit sum of the offsets is 0
  (`ScrollUp`, `ScrollUpExact`).
- Leaving scrollback mode clears the live rows instead of restoring them
  (`ScrollDown`, `ScrollBottom`, `PutChar`).
- The total of usable kilobytes counts a region above 4 GB by a wrapped length
  (`RegionKbExact`).

## Model

| member | source | states |
|---|---|---|
| Bitmap.VmBitmap.Set | src/util/bitmap.h:22-24 | setting a bit takes exactly that page out of the free set |
| Bitmap.VmBitmap.Clear | src/util/bitmap.h:26-28 | clearing a bit adds exactly that page to the free set |
| Bitmap.VmBitmap.Test | src/util/bitmap.h:30-32 | a bit tests as used exactly when its page is not free |
| Bitmap.VmBitmap.MarkRangeUsed | src/util/bitmap.h:44-51 | the free set loses exactly the pages up to the wrapped 32-bit end |
| Bitmap.VmBitmap.MarkRangeFree | src/util/bitmap.h:62-69 | the free set gains exactly the pages up to the wrapped 32-bit end |
| Bitmap.VmBitmap.CountFree | src/util/bitmap.h:80-87 | the inner loop measures the run of free pages at i, cut at the request and at 2^20 |
| Bitmap.VmBitmap.FindFreeRange | src/util/bitmap.h:71-95 | the search that skips ahead terminates and returns what trying every start returns, for every page count and hint |
| Bitmap.FirstFitIsLeast | src/util/bitmap.h:71-95 | that answer is the least fitting start at or after the hint, and -1 exactly when none fits |
| Bitmap.FullByte | src/memory/pfa.h:230-231 | a byte is 0xFF exactly when all eight pages are used |
| FrameAllocator.PfaAlloc | src/memory/pfa.h:228-252 | on any bit array, including a free frame 0 or a frame beyond the limit, the byte-skipping scan frees nothing, takes the lowest usable frame and returns its address, and leaves unscanned bits alone |
| FrameAllocator.AllocAny | src/memory/pfa.h:228-252 | on any bits an address handed out is that of the lowest free frame but 0 and below the limit; without one, nothing was free but frame 0, or the lowest frame lies past the limit and is lost, or the limit is 0 |
| FrameAllocator.AllocSound | src/memory/pfa.h:228-252 | under the invariant the scan takes the lowest free frame only, and returns 0 with nothing changed exactly when no frame is free |
| FrameAllocator.PfaFree | src/memory/pfa.h:254-261 | out-of-range addresses are ignored, otherwise exactly the addressed frame becomes free |
| FrameAllocator.ReleaseSound | src/memory/pfa.h:254-261 | freeing keeps the invariant exactly for addresses outside 1..4095 |
| FrameAllocator.RunConserves | src/memory/pfa.h:228-261 | over any run of allocations and frees of held addresses nothing is held twice, held addresses are page aligned and below the limit, and free plus held frames are the initial free set |
| MemoryMap.WalkEncoded | src/memory/pfa_helpers.h:57-84 | on a buffer that encodes a list of entries with size fields of at least 20 the walk visits those entries in order and ends at the end |
| MemoryMap.WalkOn | src/memory/pfa_helpers.h:81-83 | one pointer step visits one more entry and stays in the buffer |
| MemoryMap.LowByteFirst | src/memory/multiboot_gnu.h:198-208 | a number is read with its low byte first |
| MemoryMap.EntryLayout | src/memory/multiboot_gnu.h:198-208 | size, base, length and type of an entry are read from bytes 0, 4, 12 and 20, low half first |
| MemoryMap.VisitRegion | src/memory/pfa_helpers.h:61-79 | one entry raises the running maximum exactly as the maximum over the entries so far requires, and adds its kilobytes to the total |
| MemoryMap.LimitExact | src/memory/pfa_helpers.h:61-76 | the maximum is the least limit that no region of type 1 starting below 0xFFFFFFFF passes, or 0xFFFFFFFF if one does; regions of other types do not count |
| MemoryMap.FindUsableMemoryBounds | src/memory/pfa_helpers.h:51-88 | the bounds pass returns that limit, 0 when there is no such region, and the total of the kilobytes counted |
| MemoryMap.RegionKbExact | src/memory/pfa_helpers.h:66-78 | the kilobytes counted for a region are those below the cap exactly when it starts below 4 GB or a multiple of 2^32 kilobytes above |
| MemoryMap.TotalKbExact | src/memory/pfa_helpers.h:61-79 | when no region of type 1 wraps or starts above 4 GB the total is the sum of the kilobytes below the cap over these regions alone, modulo 2^32 |
| MemoryMap.DisplayRegions | src/memory/pfa_helpers.h:101-112 | the display pass passes over the same entries and ends |
| MemoryMap.MarkEndNoWrap | src/memory/pfa.h:45-58 | without 64-bit wrap a region clears floor(base/4096) on, floor(clipped length/4096) frames, never past 2^20 |
| MemoryMap.MarkEndWrapped | src/memory/pfa.h:45-58 | where the cleared range ends when the 64-bit sum does wrap |
| MemoryMap.MarkEndInBounds | src/memory/pfa.h:45-58 | the exact condition on base and length under which clearing stays within 2^20 bits |
| MemoryMap.MarkEndLeavesBitmap | src/memory/pfa.h:45-58 | a region that violates that condition, whose cleared range ends at frame 0xFFFFFFFF |
| MemoryMap.CoversInside | src/memory/pfa.h:45-58 | without 64-bit wrap the cleared frames lie wholly in the region exactly when it is page aligned or shorter than a page after clipping |
| MemoryMap.BitmapBytesExact | src/memory/pfa.h:25-34 | the byte count has a bit for every frame and fewer than 8 to spare |
| MemoryMap.BitmapLargeEnough | src/memory/pfa.h:25-58 | whatever the marking pass clears has a bit in the array sized by the bounds pass, which is at most 131072 bytes, and starts below the highest usable address, although the two passes cap 4 GB differently |
| PfaInit.GetMaxUsablePages | src/memory/pfa_helpers.h:92-134 | the limit is the maximum of the bounds pass and the frame count its quotient by 4096, after a display pass over the same entries; without a map nothing is stored |
| PfaInit.InitBitmap | src/memory/pfa.h:25-34 | the array gets ceil(frames/8) bytes and no scanned frame is free |
| PfaInit.MarkRegion | src/memory/pfa.h:45-58 | one entry frees exactly the frames it covers |
| PfaInit.MarkUsableMemory | src/memory/pfa.h:37-72 | the pass frees exactly the frames some usable region covers |
| PfaInit.ReserveSystemAreas | src/memory/pfa.h:75-109 | frame 0 and frames 0x9F to 0xFF, and no others, become used |
| PfaInit.ReserveKernelMemory | src/memory/pfa.h:112-130 | exactly the frames of the image and 1 MB after it become used, with the 32-bit sums |
| PfaInit.ReserveMultibootStructures | src/memory/pfa.h:133-165 | exactly the frames of the computed boot structure, map, module and command line ranges become used |
| PfaInit.CoversBytes | src/memory/pfa.h:45-58 | a region clears exactly the frames below 4 GB that lie wholly within it once it is moved down to its page boundary, if it is of type 1 |
| PfaInit.ModuleBytes | src/memory/pfa.h:150-155 | the frames reserved for a module are those that hold one of its bytes, and for one that ends before it starts in a page that page |
| PfaInit.ModuleKeptExact | src/memory/pfa.h:150-155 | every frame that holds a byte of a module is reserved exactly when the module ends at or below 0xFFFFF000 |
| PfaInit.MapKeptExact | src/memory/pfa.h:141-145 | every frame that holds a byte of the memory map is reserved exactly when the offsets of its first and last byte do not carry a page |
| PfaInit.InfoFrameMissed | src/memory/pfa.h:137-138 | the frame reserved for the boot structure is 0xC0000 frames above the one that holds it |
| PfaInit.AllocatableBytes | src/memory/pfa.h:37-165 | a frame is covered and not reserved exactly when a region makes it usable and it holds no byte in use: in bytes, both ways |
| PfaInit.CountFreeFrames | src/memory/pfa.h:168-181 | the count is the size of the free set below total_frames |
| PfaInit.InitPfa | src/memory/pfa.h:184-226 | closed form: a frame is allocatable exactly when a usable region covers it and nothing reserves it, also in bytes: no allocatable frame holds a byte of the low areas, the kernel and its 1 MB, or a module, and every other usable frame is allocatable; free_frames counts them below total_frames, and the allocator's invariant holds |
| Paging.Boot | src/boot.nasm:52-68 | the fill loop and the two directory stores produce the boot mapping and touch no other frame |
| Paging.BootWalk | src/boot.nasm:52-68 | below 4 MB v and 0xC0000000 + v both translate to v, and every other address is unmapped |
| Paging.BootRights | src/boot.nasm:52-68 | both mappings of the low 4 MB are writable and closed to user mode, each entry being its frame's address plus 3 |
| Paging.SelfMap | src/memory/vma.h:8-9 | if entry 1023 names the directory, GET_PT(i) + 4*j reaches the word that the walk of (i << 22) \| (j << 12) reads |
| Paging.SelfMapExact | src/memory/vma.h:8-9 | the window shows every present table exactly when the frame that entry 1023 names agrees with the directory on its present entries |
| Paging.SetupRecursivePdWindow | src/memory/memory.h:22-27 | as written, window page i is physical frame i, so it is the table of a boot entry i only if that table is frame i |
| Startup.SetupRecursivePdMisses | src/memory/memory.h:22-27 | as written, the store makes entry 1023 name the first page table and not the directory, so it never establishes the mapping that vma_alloc relies on |
| VirtualAllocator.AddressSpace.Load | src/memory/vma.h:44-49 | a load through a virtual address reads the word the walk selects |
| VirtualAllocator.AddressSpace.Store | src/memory/vma.h:49-59 | a store through a virtual address changes the word the walk selects and no other |
| VirtualAllocator.WindowAccess | src/memory/vma.h:49-59 | an access to entry j of GET_PT(i) arrives at entry j of table i |
| VirtualAllocator.AddressSpace.TempMap | src/memory/pfa.h:263-268 | the temporary slot names the frame and nothing else changes |
| VirtualAllocator.AddressSpace.TempUnmap | src/memory/pfa.h:270-273 | the temporary slot becomes 0 and nothing else changes |
| VirtualAllocator.AddressSpace.ZeroTempPage | src/memory/pfa.h:287-289 | clearing through the temporary slot zeroes exactly the frame mapped there |
| VirtualAllocator.AddressSpace.AllocNewPt | src/memory/pfa.h:279-303 | the lowest free frame, zeroed, becomes the table of the entry, present or not, which becomes its address plus 3; without a free frame nothing changes; with one, the call returns exactly for entries other than 0 and 768, the temporary slot being 0 again, and otherwise faults once the table is linked |
| VirtualAllocator.CodeReachable | src/memory/pfa.h:293-300 | once the table is linked, the kernel's own pages above 0xC0000000 are still mapped, and then as before, exactly when the entry is not 768 |
| VirtualAllocator.SlotReachable | src/memory/pfa.h:293-300 | once the table is linked, the boot table that holds the temporary slot is still mapped exactly when the entry is not 0 |
| Tables.NewTableSlot | src/memory/pfa.h:279-303 | a new table changes one place that names a frame, its own; the pages of its range stay unmapped |
| Tables.NewTableInv | src/memory/pfa.h:279-303 | adding a table keeps the ownership invariant and the kernel's own mapping |
| Tables.MapPageSlot | src/memory/vma.h:59 | writing one page table entry changes one place that names a frame, in one table |
| Tables.MapPageInv | src/memory/vma.h:49-59 | backing one page keeps the ownership invariant and the kernel's own mapping |
| Tables.WithTableOk | src/memory/vma.h:43-57 | if the table could not be allocated no frame is left, so no entry is written under an absent directory entry |
| Tables.BackPageOk | src/memory/vma.h:36-62 | one turn of the page loop maps the page and uses one frame plus one for a missing table, or fails exactly when too few are free |
| Tables.MapRangeOk | src/memory/vma.h:36-62 | the loop over any range keeps the invariant, writes only places the range needs and only with frames that were free, maps every page on success, uses exactly one frame per page and per missing table, and fails exactly when fewer are free, leaving none |
| VirtualAllocator.AddressSpace.BackVirtualPage | src/memory/vma.h:36-62 | the body of the loop, through virtual accesses, is one turn |
| VirtualAllocator.AddressSpace.BackRange | src/memory/vma.h:36-62 | the loop, through virtual accesses, is the function MapRangeOk is about |
| VirtualAllocator.AddressSpace.VmaAlloc | src/memory/vma.h:13-70 | memory, free frames, virtual bit array and result after any call, failing ones with their rollback included, and the invariant kept |
| VirtualAllocator.NumPagesCovers | src/memory/vma.h:18-19 | the page count covers the request, and is least, exactly up to 0xFFFFF000 bytes |
| VmaTheorems.AllocateMaps | src/memory/vma.h:13-70 | every page of a successful call translates to a frame that was free and no longer is; every other address, but for the temporary slot, its low alias and the self-map window, translates as before |
| Permissions.MapRangeInstalls | src/memory/vma.h:36-62 | whatever the range and however the loop ends, a word it changes in the directory or a table becomes the address of a frame that was free plus 3 |
| Permissions.AllocateInstalls | src/memory/vma.h:13-70 | the same for every call of vma_alloc |
| Permissions.AllocateRights | src/memory/vma.h:59 | after a successful call every address of the range is writable and closed to user mode, and its entry is its frame's address plus 3 |
| Permissions.RunClean | src/memory/vma.h:13-70 | over any run every word of the allocator's directory entries and tables is 0 or a frame address plus 3 |
| Permissions.BootClean | src/boot.nasm:52-68 | the boot mapping is such a state |
| Permissions.UnmapRangeWords | src/memory/vma.h:80-101 | vma_free zeroes the entries of the mapped pages of its range and leaves every other word |
| VmaTheorems.HintRespected | src/util/bitmap.h:71-95 | a successful call returns the lowest page address, from the page of the hint or with hint 0 from 0xC0000000 on, at which every page is free |
| VmaTheorems.NoRoomExact | src/util/bitmap.h:71-95 | the search fails exactly when there is no such address |
| VmaTheorems.AllocateKeeps | src/memory/vma.h:13-70 | successful or not, a call leaves the translation of pages outside the range it tried |
| VmaTheorems.AllocateDistinct | src/memory/vma.h:52-59 | two pages of an allocation never share a frame, nor with a page table |
| VmaTheorems.AllocateExact | src/memory/vma.h:22-57 | a call succeeds exactly when a range fits and enough frames are free, then uses exactly that many; a failing call leaves the virtual bit array as it was and either changes nothing or leaves no frame |
| VmaTheorems.AllocateWrapped | src/memory/vma.h:18-33 | above 0xFFFFF000 bytes the call changes nothing and returns the hint's page |
| VmaTheorems.AllocateWrappedLowMemory | src/memory/vma.h:18-33 | with hint 0 such a call returns 0xC0000000, which translates to physical address 0 |
| VirtualAllocator.AddressSpace.FreeVirtualPage | src/memory/vma.h:80-101 | the body of the freeing loop, through virtual accesses, is one unmapping turn |
| VirtualAllocator.AddressSpace.VmaFree | src/memory/vma.h:72-109 | memory, free frames and virtual bit array after the call |
| Unmap.UnmapRangeOk | src/memory/vma.h:80-104 | every entry of the range ends up absent, no other place changes, and what becomes free are the page tables of the mapped pages |
| VmaTheorems.AllocateThenFree | src/memory/vma.h:72-104 | freeing what was allocated restores the virtual bit array exactly and unmaps the range, so the same search finds the same start |
| VmaTheorems.FreeGivesTables | src/memory/vma.h:89-98 | the frames that backed the range stay used and the tables become free while still named; the invariant survives exactly when nothing was mapped |
| VmaTheorems.TablesFreeableInRuns | src/memory/pfa.h:254-261 | in every state of a run pfa_free accepts the frame of every page table |
| VmaTheorems.FreeInRunExact | src/memory/vma.h:72-104 | in every state of a run vma_free keeps the ownership of frames exactly when its range has no mapped page |
| VmaTheorems.AllocateThenFreeBreaks | src/memory/vma.h:89-98 | in every state of a run, freeing what a successful vma_alloc returned leaves a page table that is named and free |
| Tables.MapRangeTakesLowest | src/memory/pfa.h:228-252 | the frames the page loop of vma_alloc takes are lower than all it leaves |
| VmaTheorems.FreedTableReused | src/memory/vma.h:89-98 | in every state of a run, the pfa_alloc after vma_free hands out a page table that the directory names exactly when the table of a mapped page of the range is lower than every free frame |
| VmaTheorems.AllocateThenFreeReuses | src/memory/vma.h:89-98 | that is so after freeing what a vma_alloc returned that had created a page table |
| VmaTheorems.StepOk | src/memory/vma.h:13-70 | one allocation of a range, or allocation or free of a frame by others, keeps every frame in one place only |
| VmaTheorems.RunSafe | src/memory/pfa.h:228-303 | over any run of range allocations, failed ones included, and frame allocations and frees by others, no two entries name one frame, no table or mapped page is free or handed out, and a frame the kernel has put to use never is again |
| Startup.KernelFrameReserved | src/memory/pfa.h:112-123 | every frame from the start of the image to 1 MB past kernel_physical_end, where the linker puts the rest of the image, is reserved |
| Startup.StartOk | src/main.c:19-23 | after the boot code and init_pfa, with the two assumptions above, the invariant of those runs and the bounds they rely on hold |
| Startup.FirstSummary | src/main.c:21-23 | after setup_recursive_pd the directory summary is 1021 free entries, the first 1, in exactly the runs 1 to 767 and 769 to 1022 |
| Startup.FirstAllocation | src/main.c:24-25 | with the self-map in place, no page handed out, no table and 513 free frames, the call for 2 MB returns 0xC0400000 and takes 513 frames, and the next summary differs by entry 769 |
| PdeRanges.FreeMeansUnmapped | src/memory/memory.h:34-36 | through an entry that counts as free no address translates, and through any other one every address whose page table entry is present does |
| PdeRanges.CountFreePdes | src/memory/memory.h:38-52 | the count is the number of free directory entries |
| PdeRanges.FindFirstFreePde | src/memory/memory.h:54-67 | the result is the least free entry, -1 exactly when there is none |
| PdeRanges.CollectFreePdeRanges | src/memory/memory.h:69-107 | the buffer gets the first max_ranges of all maximal free runs in increasing order, and its rest is untouched |
| PdeRanges.RunsUnique | src/memory/memory.h:69-107 | the directory determines the list of all maximal free runs |
| PdeRanges.AtMost512 | src/memory/memory.h:123-126 | 1024 entries hold at most 512 runs |
| PdeRanges.SummaryAgrees | src/memory/memory.h:109-141 | with 512 slots the lengths sum to the count and the first run starts at the first free entry |
| Terminal.RingPush | src/terminal/terminal.h:92-111 | a store at the circular index appends a row or replaces the oldest by the newest, after any number of wraps |
| Terminal.Terminal.constructor | src/terminal/terminal.h:43-62 | the initial screen is blank and the store empty |
| Terminal.Terminal.Clear | src/terminal/terminal.h:66-73 | the last 25 transcript rows become blank, what is above stays |
| Terminal.Terminal.SaveLine | src/terminal/terminal.h:92-111 | the saved rows, oldest first, gain the row at the end and lose the oldest when full |
| Terminal.Terminal.ShiftUp | src/terminal/terminal.h:117-122 | every row moves up by one |
| Terminal.Terminal.ScrollDisplay | src/terminal/terminal.h:113-129 | scrolling is one blank row more at the end of the transcript |
| Terminal.Terminal.PutChar | src/terminal/terminal.h:132-182 | the transcript advances by the character, after a clear in scrollback mode; saved rows and screen stay its last rows and the cursor inside 80 by 25 |
| Terminal.Terminal.Write | src/terminal/terminal.h:184-188 | the same for a text of any length |
| Terminal.Terminal.SetColor | src/terminal/terminal.h:196-198 | only the current colour changes, to the packed pair |
| Terminal.Terminal.SetCursor | src/terminal/terminal.h:281-287 | a position inside 80 by 25 is taken over, any other is ignored |
| Terminal.ShownRow | src/terminal/terminal.h:212-228 | which row of the store the 32-bit index selects, also when the start line has wrapped: the intended saved row, or one that was never written |
| Terminal.Terminal.Refresh | src/terminal/terminal.h:200-231 | for every offset and number of saved rows, which saved row each screen row shows, which show a row never written, and which are blank |
| Terminal.PaintedRows | src/terminal/terminal.h:200-231 | all 25 rows in closed form: 25 saved rows, or the last 25 - o and then o blank ones, or with fewer saved the missing ones as zero rows first |
| Terminal.Terminal.ScrollUp | src/terminal/terminal.h:233-244 | the offset is the 32-bit sum clamped to the saved rows and the screen shows what a refresh paints there; the transcript is kept, except that at offset 0 its live rows become what is painted, with nothing saved blank rows |
| Terminal.Terminal.ScrollUpExact | src/terminal/terminal.h:233-244 | when the rows differ, the live rows survive exactly when some row is saved and the 32-bit sum of the offsets is not 0 |
| Terminal.Terminal.ScrollDown | src/terminal/terminal.h:246-261 | the offset goes down to 0 at least; at 0 the screen is cleared, otherwise refreshed |
| Terminal.ScrollUpDown | src/terminal/terminal.h:233-253 | scrolling up and then down by as many lines returns to the same offset exactly when the way up was not cut short or started at 0 |
| Terminal.Terminal.ScrollTop | src/terminal/terminal.h:263-268 | the offset is the number of saved rows |
| Terminal.Terminal.ScrollBottom | src/terminal/terminal.h:270-276 | scrollback mode ends with a cleared screen |
| Terminal.Terminal.ViewIsTranscript | src/terminal/terminal.h:216-229 | scrolled back by 25 rows or more, the screen is the window of the transcript that many rows up |
| Terminal.Terminal.ViewExact | src/terminal/terminal.h:200-231 | when the rows differ, what a refresh paints at any offset from 0 to the number of saved rows is the window of the transcript that many rows up exactly for offsets of at least 25 |
| Terminal.Terminal.WindowIsTranscript | src/terminal/terminal.h:92-182 | saved rows followed by the screen are the last rows of the transcript, all of it until more than 100 rows have left |
| Transcript.RecordKept | src/terminal/terminal.h:132-182 | output never changes a row above the cursor's and never removes one |
| Transcript.PutText | src/terminal/terminal.h:160-173 | printable text of any length fills consecutive positions across row ends and changes no other cell |
| Transcript.CellBytes | src/terminal/vga.h:42-48 | a cell has the character in its low byte and above it the foreground and the background, four bits each |
| Transcript.ControlChars | src/terminal/terminal.h:138-168 | line feed, return, tab and backspace, by their codes, move the cursor and change cells as stated, and every other unprintable character does nothing |
| Transcript.BackspaceUndoes | src/terminal/terminal.h:151-165 | a character that did not wrap followed by a backspace leaves the cursor where it was, a space there, and all else unchanged |
| Transcript.PutLines | src/terminal/terminal.h:138-173 | lines of printable text that fit, joined by line feeds, end up on consecutive rows, all but the first from column 0 on |
| Transcript.ClearedExact | src/terminal/terminal.h:66-73 | clearing makes the last 25 rows spaces in the current colour, keeps those above and puts the cursor at their top left corner |
| Printf.FillDigits | src/util/printf.h:41-46 | the 32-byte buffer never runs over and holds the digits, lowest first |
| Printf.EmitReversed | src/util/printf.h:48-51 | the buffer is emitted backwards onto the transcript |
| Printf.PrintUnsigned | src/util/printf.h:35-73 | the numeral of the number is appended to the transcript, in base 10 or 16 |
| Printf.PrintInt | src/util/printf.h:5-32 | the same with a minus sign for negative numbers |
| Printf.NumeralRoundTrip | src/util/printf.h:35-73 | the numeral in lower case reads back as the number and has no leading zero |
| Printf.SignedRoundTrip | src/util/printf.h:5-32 | the signed numeral reads back as the number and has a minus sign exactly for negative ones, no plus sign and no leading zero |

## Left out

- VirtualAllocator.AddressSpace.VmaFree: requires a range of directory entries that belong to the allocator; on the boot or self-map entries the code clears the mapping of the kernel that runs it, which has no meaning in the model.
- VmaTheorems.FreeInRunExact: is about ranges of the allocator's own directory entries, as VmaFree is; so are FreeGivesTables and FreedTableReused.
- Printf.PrintInt: excludes the least int, whose negation overflows.
- PfaInit.InitPfa: reservations are those the code makes; the frame that really holds the boot structure, the last page of some unaligned memory maps and further pages of the command line are not protected, and the closed form in bytes is stated where the 32-bit sums do not wrap.
- Physical memory is modelled in words; `memset` of a page is 1024 word stores, and the bit arrays and the terminal's buffers are arrays of their own rather than parts of that memory.
- The `pd` argument of `vma_alloc` and `vma_free` is the active directory, as the self-map demands; `flags` and all diagnostic printing are not modelled.
- The text printed about the memory map.
- TLB invalidation, CR3 reloads, port I/O and the hardware cursor: the walk always reads current memory.
- `terminal_init`'s greeting, `terminal_getcursor`, `terminal_showcursor`, `terminal_writestring` and the format loop of `printf` with its variable arguments.
- NULL arguments of the directory summary, and its printed text.
- GDT and IDT set-up, interrupt and exception stubs, PIC programming, keyboard tables, the module jump: field packing, port writes and table look-ups, with no loop and no state that one call leaves for the next beyond two keyboard flags.
- The unused `_old` variants of the range marking.
