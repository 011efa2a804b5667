# Explosion OS: verified models of the allocators, the FAT12 reader, the PS/2 driver and disk addressing

This project models five components of Explosion OS in Dafny and proves what they are for:

1. **The physical frame allocator** (`src/kernel/memory/pmm.c`): a buddy allocator with blocks of 1, 2, 4, 8
   and 16 frames, stored in five bitmaps whose clear bits mean "free".
   `Pmm.FrameAllocator` changes 32-bit words in place; a word is the sequence of its bits, lowest first.
   Its ghost field `free` is the set of free (level, index) blocks, and every method is proved against a
   function on that set (`BuddySplit.Take`, `BuddyFrames.Get`, `BuddyCoalesce.FreeAndCoalesce`, `BuddyFree.Free`),
   which in turn is proved to do the right thing to the set of free *frames*. The number of top-level
   blocks is a parameter. `PmmInit` fills the bitmaps from the memory map; `MemoryMap` says, frame by frame,
   which memory that makes free, and `OrderlyMaps` says it in terms of the map alone.
2. **The virtual page allocator** (`src/kernel/memory/vmm.c`): `Vmm.BlockList` is the address-ordered free list in
   its pool of nodes, linked by slot index; `FreeRanges` is first fit and coalescing on sequences of ranges;
   `AddressSpace.KernelSpace` adds the page tables, filled from the frame allocator. `PageTable` says what
   filling does to the entries, `PageRelease` what a release gives back, `SpaceRuns` what holds over whole
   runs, and `StaleFrames` shows how a run goes wrong.
3. **The FAT12 reader** (`src/bootloader/stage2/fat.c`): packed entries, disk layout, and a buffered reader that
   delivers the concatenation of the sectors on a file's cluster chain.
4. **The PS/2 command protocol** (`src/kernel/drivers/ps2.c`): a ring of eight slots, send, ACK and RESEND,
   against an arbitrary stream of device bytes; each enqueue and each interrupt is one step.
5. **Disk addressing** (`src/bootloader/stage2/disk.c`, `src/kernel/drivers/drive/ide.c`): LBA to CHS, and the
   register writes of an IDE access as a device with two-deep latches receives them (ATA/ATAPI-6, section 6.20).

The main results: a maximally coalesced state is determined by its free frames, so request-then-free is the
identity on all bitmaps, and so is any run that gives everything back; free, live and kept frames are
conserved over every run of requests and releases, and the code as written goes through the states that were
meant exactly if no request of the run is a stray one and no release completes a top-level block beside a free
one; the frames that start-up makes free are known exactly for every memory map that fits the bitmaps, in terms of
the map alone for every orderly one, and when they are the usable ones for every sorted one below 4 GiB; the node pool of the free list never runs out;
allocation fails if and only if no free run exists; in every run of the virtual memory manager whose requests
succeed, taken as its requests and releases were meant, no mapped frame is free in the frame allocator, if the run
releases nothing, or if what is left in the entries fits the frames they are filled with next; the code as written
goes through the states that were meant, in such a run, exactly if it releases single pages that complete no
top-level block beside a free one and never allocates twelve contiguous pages; every byte of a file is the one that
the disk holds at the place its cluster chain says, and reading in pieces equals reading at once; the bytes on the
PS/2 wire are the accepted commands in order, with at most three repeats each, exactly once for a device that
acknowledges everything, and a command is accepted exactly if fewer than seven are waiting.

## Where the code differs from its evident intent

The model does what the code does. Where that is not what callers expect, a theorem gives the exact condition
under which it is; where the condition alone does not show that it can fail, a concrete case does.

- `pmm.c:160-166`: the failure path has no `return`; it is read as returning the 0 held by `address`. Frame 0 is the
  failure value, so "frame 0 is in no free block" is part of `BuddyBlocks.WellFormed`.
- `pmm.c:213-215`: level 4 does not return and can call itself with level 5, for which there is no bitmap. The model
  stops there and reports it. Exact conditions: `BuddyCoalesce.CodeMeetsIntentIff` for a block,
  `BuddyRoundTrip.FreeMeetsIntentIff` and `BuddyRoundTrip.FreeUndoesGetIff` for a release, `BuddyRuns.WrittenRunsIff`
  for a whole run; cases: `BuddyRoundTrip.OneFrameOverruns`, `BuddyRuns.OneFrameRun`.
- `pmm.c:174-203`: the tail is handed back even when the request failed: `BuddyOddCounts.FailureIsHarmlessIff`,
  `BuddyOddCounts.FailedRequestFreesFrameThree`.
- `pmm.c:182-203`: only the lowest tail piece is handed back, so counts 5, 9, 10, 11 and 13 keep 2, 6, 4, 4 and 2
  frames (`BuddyFrames.GetIsExact`, `BuddyRoundTrip.MergeUndoesGetIff`); count 12 writes a level-2 index into the
  level-1 bitmap (`BuddyOddCounts.TwelveFreesOthersIff`, `BuddyOddCounts.TwelveIsNotMeant`); count 0
  takes four frames (`BuddyOddCounts.ZeroKeepsABlock`).
- `pmm.c:130-140`: going from a usable map entry to the next one skips a page and takes it for granted that the next
  entry begins there. A usable entry that begins on a page boundary right where one on the path ends loses its
  first frame; one that begins further up makes the frames of the gap free. Exact conditions, per frame and for the
  whole map: `MemoryMap.LostIff`, `MemoryMap.FreedGapIff`, `MemoryMap.StartupIsRightIff`; cases:
  `MemoryMap.AdjacentEntriesLoseAFrame`, `MemoryMap.GapIsMadeFree`.
- `pmm.c:54-57`, `pmm.c:66-69` and `pmm.c:138-140`: only the low words of base and length are looked at, and their sum
  wraps around. `PmmInit.AddMemory` and `MemoryMap.Freed` say what that makes free; a case:
  `MemoryMap.HighMemoryFreesLowFrames`.
- `pmm.c:54`: the first search is strict, so a first page that is the very base of an entry, or in none, leaves all
  memory used: `PmmInit.AddMemory`.
- `vmm.c:89`: the size wraps at 2^20 pages: `FreeRanges.WrappedRequestIff`, `FreeRanges.WrappedRequestTakesNothing`.
- `vmm.c:40`, `vmm.c:137` and `vmm.c:147`: the frame number is not tested, so a request that fails maps frame 0 and what
  follows it: `SpaceRuns.FillsFreeFramesIff`, `PageTable.SufficesIff`, `PageTable.RunWasFreeIff`; a case:
  `PageTable.FailedFillMapsAFreeFrame`.
- `vmm.c:132-152`: when no range is found the first entries of the table are filled all the same:
  `PageTable.FailedAllocationIsHarmlessIff`. `vmm.c:119-126`: a reservation marks the entry of page 0:
  `PageTable.FailedReservationIsHarmlessIff`.
- `vmm.c:123` and `vmm.c:210`: `>> 12 + i` shifts by 12 + i, so only the first page of a range is treated as meant:
  `PageTable.ReservesRangeIff`, `PageRelease.UnmapsRangeIff`. A shift of 32 or more is undefined in C; the model stops
  there.
- `vmm.c:210-213`: a release gives back the frames of its range, and leaves the range ready to be handed out again, only
  for a single mapped page: `PageRelease.ReleasesFramesIff`. A page that was reserved and never touched gives back frame
  0 and stays reserved: `PageRelease.UntouchedPageFreesFrameZero`; two mapped pages give back frame 0 while page 0 still
  maps it: `PageRelease.TwoPagesFreeAMappedFrame`. For whole runs: `SpaceRuns.WrittenRunsIff`.
- `vmm.c:150` and `vmm.c:212`: the old frame is not cleared and the new one is or-ed in: `PageTable.PopulateIsRightIff`,
  `PageTable.RemapIsRightIff`, and, whatever the frames, `StaleFrames.AlwaysRightIff`; cases:
  `StaleFrames.StaleFrameIsSharedOut` and, as a run from the state after boot,
  `StaleFrames.StaleFrameRun`.
- `fat.c:158`: a sector number is used as a cluster number, so only the first sector of the root directory is read from
  where it is: `Fat12.RootSectorRightIff`, `Fat12.RootByteRightIff`.
- `fat.c:256-260`: closing the root directory keeps its buffer: `FatReader.CloseKeepsReadyIff`,
  `FatReader.CloseAlwaysKeepsReadyIff`.
- `fat.c:191-197`: with no unused handle the code goes on with handle -1, which is the root directory's, in the slot
  before the first one (`fat.c:53-54`): `FatReader.Reader.OpenEntry` says that the file then takes the place of the
  root directory.
- `ide.c:223`: the capability is looked up under the drive's number on its channel: `Disk.ModeSuitsDriveIff`,
  `Disk.SecondDriveAlone`.

## Model

| member | source | states |
|---|---|---|
| BuddyBlocks.CoalescedIsCanonical | src/kernel/memory/pmm.c:211-229 | Two well-formed states without a free buddy pair below level 4 that have the same free frames are the same state, bit for bit. |
| BuddyBlocks.FreeRunIsCovered | src/kernel/memory/pmm.c:211-229 | In a maximally coalesced state an aligned run of free frames lies inside one free block, at its level or above. |
| BuddyBlocks.AddBlock | src/kernel/memory/pmm.c:225-228 | Marking a block free whose frames are not free and whose buddy is not adds exactly its frames and keeps the state disjoint and coalesced. |
| BuddySplit.TakeIsExact | src/kernel/memory/pmm.c:145-166 | A successful split takes an aligned block of 2^level frames, all free before; exactly those leave the free set, and the state stays disjoint and coalesced. |
| BuddySplit.TakeIsComplete | src/kernel/memory/pmm.c:145-166 | The split fails, changing nothing, if and only if no block is free at the level asked for or above. |
| BuddySplit.TakeFailsIff | src/kernel/memory/pmm.c:145-166 | In a maximally coalesced state the split fails if and only if no aligned run of 2^level frames is free anywhere. |
| BuddySplit.TakeIsFirstFit | src/kernel/memory/pmm.c:150-158 | It takes the lowest block of the first level that has a free one. |
| BuddyFrames.TakeRunIsExact | src/kernel/memory/pmm.c:145-166 | The same in terms of frames: the run [address, address + 2^level), inside the memory and aligned, has left the free set and nothing else changed. |
| BuddyFrames.GetIsExact | src/kernel/memory/pmm.c:168-209 | For counts 1 to 16 except 12: count consecutive frames of one aligned block, all free before, are taken; what stays taken beyond them is 0 frames, or 2, 6, 4, 4, 2 for counts 5, 9, 10, 11, 13; the rest of the block is free again and no free buddy pair arises. |
| BuddyFrames.MeantGetIsExact | src/kernel/memory/pmm.c:168-209 | With the four frames that are left of a request for 12 handed back as a level-2 block, the same holds for every count from 1 to 16. |
| BuddyFrames.HandBackTail | src/kernel/memory/pmm.c:175-202 | Handing back the tail of a taken block, for every count that has one, gives the exact outcome of the request. |
| BuddyOddCounts.FailureIsHarmlessIff | src/kernel/memory/pmm.c:174-204 | A request fails if and only if no block of its level or above is free, and a failed request leaves the bitmaps unchanged if and only if it has no tail or the tail's bits were clear. |
| BuddyOddCounts.FailedRequestFreesFrameThree | src/kernel/memory/pmm.c:174-177 | With no free memory a request for 3 frames fails and marks frame 3 free. |
| BuddyOddCounts.ZeroKeepsABlock | src/kernel/memory/pmm.c:173-177 | A request for 0 frames takes four frames that releasing 0 frames does not give back. |
| BuddyOddCounts.TwelveFreesOthersIff | src/kernel/memory/pmm.c:201-203 | A request for 12 frames makes two frames below the block free; no frame becomes free that was not if and only if those two were free already. |
| BuddyOddCounts.TwelveIsNotUndone | src/kernel/memory/pmm.c:189-251 | Releasing 12 frames never restores the state before the request. |
| BuddyOddCounts.TwelveIsNotMeant | src/kernel/memory/pmm.c:201-203 | A successful request for 12 frames never leaves the state that was meant. |
| BuddyCoalesce.CoalesceIsExact | src/kernel/memory/pmm.c:211-229 | Freeing a block, through the whole merging recursion, adds exactly its frames, keeps free blocks disjoint and leaves no free buddy pair below level 4. |
| BuddyCoalesce.CodeMeetsIntentIff | src/kernel/memory/pmm.c:211-229 | The code does that, without asking for level 5, if and only if the buddies are not free at every level up to the top; otherwise the top-level buddy is lost. |
| BuddyCoalesce.OverrunIffTopPair | src/kernel/memory/pmm.c:213-220 | Level 5 is asked for exactly when merging completes a top-level block whose neighbour is free. |
| BuddyFree.MergeBitsIsExact | src/kernel/memory/pmm.c:235-250 | Freeing a range piece by piece, one piece for each bit of the count, adds exactly the range. |
| BuddyFree.FreeBitsInBoundsIff | src/kernel/memory/pmm.c:235-250 | The pieces are freed as intended unless one of them completes a top-level block whose neighbour is free. |
| BuddyFree.FreeIsExact | src/kernel/memory/pmm.c:231-251 | Releasing a live range of 1 to 16 frames adds exactly its frames and keeps the state well formed and coalesced, whenever it stays in bounds. |
| BuddyRoundTrip.FreeMeetsIntentIff | src/kernel/memory/pmm.c:231-251 | It stays in bounds if and only if the count is 16, or some other frame of the top-level block is not free, or the neighbouring top-level block is not free. |
| BuddyRoundTrip.MergeUndoesGetIff | src/kernel/memory/pmm.c:168-251 | As intended, requesting and releasing restores the state for counts 1, 2, 3, 4, 6, 7, 8, 14, 15 and 16, and for no other. |
| BuddyRoundTrip.FreeUndoesGetIff | src/kernel/memory/pmm.c:168-251 | As written, for every count: requesting and releasing restores every bit if and only if the count is one of those and, except for 16, the block was not carved from a top-level block with a free neighbour. |
| BuddyRoundTrip.OneFrameOverruns | src/kernel/memory/pmm.c:213-220 | With two neighbouring top-level blocks free, requesting one frame and releasing it asks for level 5. |
| BuddyRuns.RunsAreSafe | src/kernel/memory/pmm.c:145-251 | Over every run of requests for any counts and of releases of live allocations, as they were meant (the whole tail handed back, none if the request fails, a return at level 4): free blocks are disjoint and coalesced, live allocations overlap neither each other nor free frames, frame 0 is in none, and free, live and kept frames stay exactly the initially free ones. |
| BuddyRuns.RequestBecomesLive | src/kernel/memory/pmm.c:168-209 | A successful request for 1 to 16 frames makes live exactly the frames from the address returned on, all of them free before, and wastes exactly the others that have left the free set. |
| BuddyRuns.CompleteRunRestores | src/kernel/memory/pmm.c:145-251 | A run that has released everything and kept nothing has restored every bit, in whatever order it went. |
| BuddyRuns.WrittenRunsIff | src/kernel/memory/pmm.c:145-251 | The code as written stays in bounds and goes through the states that were meant if and only if no request of the run fails with a stray tail or succeeds for 12 frames, and no release completes a top-level block beside a free one, all its other frames being free; without stray requests it ends where it was meant to under the same condition. |
| BuddyRuns.OneFrameRun | src/kernel/memory/pmm.c:213-251 | With two neighbouring top-level blocks free, one frame requested and released restores the state as was meant; the code as written does not get through. |
| Pmm.FrameAllocator.constructor | src/kernel/memory/pmm.c:25-41 | All bitmaps start with every block used, each with the length of its level. |
| Pmm.FrameAllocator.Mark | src/kernel/memory/pmm.c:154 | Setting or clearing one bit of a word removes or adds exactly the block it stands for. |
| Pmm.FrameAllocator.FindAndSplit | src/kernel/memory/pmm.c:145-166 | The word and bit search, with its recursion, computes the split on the set of free blocks. |
| Pmm.FrameAllocator.GetFrames | src/kernel/memory/pmm.c:168-209 | Every branch, the failed request and count 12 included, computes the request on the set of free blocks. |
| Pmm.FrameAllocator.CoalesceFrom | src/kernel/memory/pmm.c:211-229 | The recursion on bitmap words computes the merge as written, and says when level 5 was asked for. |
| Pmm.FrameAllocator.FreeFrames | src/kernel/memory/pmm.c:231-251 | The release of a range computes the sequence of merges for the bits of the count. |
| PmmRoundTrip.WordsIffFree | src/kernel/memory/pmm.c:9-15 | Two sets of bitmap words are equal if and only if the sets of free blocks they encode are. |
| PmmRoundTrip.GetThenFree | src/kernel/memory/pmm.c:168-251 | On the words themselves: a successful request released at once leaves every word as it was, exactly under the condition of FreeUndoesGetIff. |
| PmmInit.AddMemory | src/kernel/memory/pmm.c:43-142 | For any map that fits the bitmaps the start-up loop ends in a disjoint and coalesced state whose free frames are exactly those of Freed, none of them below the bootstrap memory. In an orderly map these are the frames, from the first one looked at on, of the usable entries that are followed up; in a map without gaps, the usable frames from the start on but for the first one of each later entry. If the first page begins inside no entry, none is free. |
| OrderlyMaps.OrderlyFreedIff | src/kernel/memory/pmm.c:52-142 | For a sorted map with an entry around the first page, whose later entries are longer than a page: a frame is made free if and only if it lies before the end of a usable entry, from the first page or from the page after the one before ends on, and no entry in between is both unusable and followed by one more than a page later. |
| OrderlyMaps.ContiguousFreedIff | src/kernel/memory/pmm.c:52-142 | For a map of whole pages without gaps from the entry around the first page on: a frame from there on is made free if and only if it lies in a usable entry and is not the first one of a later entry. |
| OrderlyMaps.StartEntryIsFreed | src/kernel/memory/pmm.c:52-60 | In any sorted map, a usable entry around the first page has all its frames from there on made free. |
| OrderlyMaps.UsualMap | src/kernel/memory/pmm.c:52-142 | With the usual memory map of a PC the first frame above the bootstrap memory is made free. |
| MemoryMap.FreedIff | src/kernel/memory/pmm.c:52-142 | A frame is freed if and only if the loop comes to a usable entry at or before it and the entry, as the code sees it, ends after it. |
| MemoryMap.LostIff | src/kernel/memory/pmm.c:129-141 | In a sorted map a usable frame is not made free if and only if the loop never comes to its entry, or it is the first frame of an entry that begins on a page boundary right where an entry on the path ends. |
| MemoryMap.FreedGapIff | src/kernel/memory/pmm.c:129-141 | In a sorted map a frame that is not usable is made free if and only if it begins in the gap between two usable entries on the path, past the page in which the first ends, and ends with the second at the latest. |
| MemoryMap.StartupIsRightIff | src/kernel/memory/pmm.c:43-142 | In a sorted map the frames made free are exactly the usable ones if and only if the loop comes to every usable entry that has a frame at the first of them, and frees nothing at the others. |
| MemoryMap.ShortGapsFreeUsable | src/kernel/memory/pmm.c:43-142 | In a map below 4 GiB, sorted or not, in which gaps between usable entries end in the page after the first, only usable frames are made free. |
| MemoryMap.AdjacentEntriesLoseAFrame | src/kernel/memory/pmm.c:129-141 | Of two adjacent usable entries the second loses its first frame. |
| MemoryMap.GapIsMadeFree | src/kernel/memory/pmm.c:129-141 | With a gap of three pages between two usable entries, a frame of the gap is made free. |
| MemoryMap.HighMemoryFreesLowFrames | src/kernel/memory/pmm.c:63-72 | A usable entry at 4 GiB makes frames below 4 GiB free that are in no entry, whether the loop goes on to it or finds it in the search. |
| PmmInit.MarkPick | src/kernel/memory/pmm.c:81-128 | Marking the largest aligned block that fits keeps the state coalesced and adds exactly its frames. |
| PmmInit.PickIsGreedy | src/kernel/memory/pmm.c:81-128 | The branch taken is that of the largest block aligned at the address that fits the room left. |
| FreeRanges.AllocateIsLowestFit | src/kernel/memory/vmm.c:86-116 | Allocation fails if and only if no free run of the size exists at any address, and otherwise returns the lowest one. |
| FreeRanges.AllocateIsExact | src/kernel/memory/vmm.c:86-116 | It removes exactly the addresses it returns and keeps the list sorted, page-sized and separated by gaps. |
| FreeRanges.WrappedRequestIff | src/kernel/memory/vmm.c:89 | For every 32-bit count the answer is NULL exactly when no run of that many pages is free, if and only if the size does not wrap or nothing fits the wrapped size. |
| FreeRanges.WrappedRequestTakesNothing | src/kernel/memory/vmm.c:89-109 | A request for 2^20 pages returns the start of the first range and takes nothing. |
| FreeRanges.ReleaseIsExact | src/kernel/memory/vmm.c:157-205 | Releasing a range that is not free adds exactly its addresses in all four coalescing cases and leaves a gap between any two ranges. |
| FreeRanges.SeparatedIsCanonical | src/kernel/memory/vmm.c:173-205 | Two lists with gaps that cover the same addresses are the same list. |
| FreeRanges.ReleaseUndoesAllocate | src/kernel/memory/vmm.c:86-205 | Allocating and releasing restores the list, range by range. |
| FreeRanges.RangesNeedPages | src/kernel/memory/vmm.c:55-61 | A list of n separated ranges takes up at least 2n - 1 pages. |
| FreeRanges.PoolSuffices | src/kernel/memory/vmm.c:184-200 | Whenever a release needs a new node, a pool with a node for every two pages of the region has one left. |
| FreeList.Unlink | src/kernel/memory/vmm.c:94-104 | Bypassing a node and clearing its start keeps the list acyclic with exactly the used slots listed, and removes that range. |
| FreeList.Link | src/kernel/memory/vmm.c:184-194 | Linking an unused slot before a node keeps the same and inserts that range. |
| FreeList.Resize | src/kernel/memory/vmm.c:105-110 | Writing a node's start and size keeps the same and replaces that range. |
| Vmm.BlockList.constructor | src/kernel/memory/vmm.c:54-62 | The list starts as the whole region in slot 0. |
| Vmm.BlockList.FindBlockStruct | src/kernel/memory/vmm.c:76-83 | It returns an unused slot, or NULL exactly when there is none. |
| Vmm.BlockList.AllocateBlock | src/kernel/memory/vmm.c:86-116 | The walk with pointer updates computes first fit on the list's ranges and keeps the whole invariant. |
| Vmm.BlockList.ReleaseBlock | src/kernel/memory/vmm.c:157-205 | The walk with its four pointer-update cases computes the release and always finds a node when it needs one. |
| RangeRuns.RunsAreSafe | src/kernel/memory/vmm.c:86-205 | Over every run of allocations and of releases of any live pages (whole ranges, parts, several at once), the free list stays separated, no live address is in it, and together they are exactly the region. |
| RangeRuns.TakenIsNew | src/kernel/memory/vmm.c:86-116 | What an allocation hands out overlaps nothing that is live. |
| RangeRuns.CompleteRunRestores | src/kernel/memory/vmm.c:54-205 | Once everything has been given back the list is again the single range of VMM_Init. |
| PageTable.ReservesRangeIff | src/kernel/memory/vmm.c:118-129 | VMM_ReservePages reserves every page of its range if and only if the range is one page. |
| PageTable.ReservedEntriesIff | src/kernel/memory/vmm.c:122-126 | The entries reserved are those numbered page, page / 2, page / 4 and so on, one for each page of the range. |
| PageTable.FailedReservationIsHarmlessIff | src/kernel/memory/vmm.c:118-129 | A reservation that finds no range marks the entry of page 0, and nothing else; it changes nothing exactly if that was marked before. |
| PageRelease.UnmapsRangeIff | src/kernel/memory/vmm.c:207-214 | VMM_FreePages unmaps every page of a mapped range if and only if the range is one page. |
| PageRelease.UnmappedEntriesIff | src/kernel/memory/vmm.c:209-214 | The entries cleared are those numbered page, page / 2, page / 4 and so on, one for each page of the range. |
| PageRelease.ReleasesFramesIff | src/kernel/memory/vmm.c:207-214 | For any range, mapped or not: exactly its frames become free, the frame allocator stays well formed and coalesced, and its pages are neither present nor reserved, if and only if it is one page that is not reserved and maps a frame of the memory whose release stays in bounds (or is not mapped and the frame left in it is a free block of its own). |
| PageRelease.UntouchedPageFreesFrameZero | src/kernel/memory/vmm.c:207-214 | Releasing a page that was reserved and never touched makes frame 0 free and leaves the page reserved; the next request takes frame 0 and returns 0. |
| PageRelease.TwoPagesFreeAMappedFrame | src/kernel/memory/vmm.c:207-214 | Releasing two mapped pages makes frame 0 free while page 0 still maps it, and leaves the second page mapped. |
| PageRelease.UnmapRangeIsSafe | src/kernel/memory/vmm.c:207-214 | As meant, a release of mapped pages makes exactly their frames free, clears them and keeps the mapping safe. |
| PageRelease.UnmapMeetsIntentIff | src/kernel/memory/vmm.c:207-214 | The code does that for mapped pages if and only if there is one and its frame does not complete a top-level block beside a free one. |
| PageTable.RemapIsRightIff | src/kernel/memory/vmm.c:41-150 | An entry that is filled, by an allocation or a fault, holds the new frame if and only if the bits of the frame left in it are among the new one's. |
| PageTable.PopulateIsRightIff | src/kernel/memory/vmm.c:132-152 | Every page of an allocation maps the frame requested for it if and only if that holds for each entry of the range. |
| StaleFrames.AlwaysRightIff | src/kernel/memory/vmm.c:132-152 | Filling a range maps the requested frames, for every state of the frame allocator with frames enough, if and only if its entries hold no frame. |
| StaleFrames.StaleFrameIsSharedOut | src/kernel/memory/vmm.c:132-214 | Mapping a page, freeing it, letting another request take its frame and mapping it again puts it on a frame that is free, and that the next request hands out. |
| StaleFrames.StaleFrameRun | src/kernel/memory/vmm.c:26-215 | A run of five successful operations from a state after boot that ends with a mapped frame that is free. |
| StaleFrames.BootLeavesThree | src/kernel/memory/pmm.c:43-142 | Start-up leaves the free frames of that state when usable memory ends three pages after the bootstrap memory. |
| PageTable.PopulateIsSafe | src/kernel/memory/vmm.c:140-152 | Filling entries a frame at a time, when what is left in them fits, maps frames that were free, maps no frame twice and leaves other entries alone. |
| PageTable.PopulateRunMaps | src/kernel/memory/vmm.c:136-152 | Contiguous filling puts consecutive frames on top of what consecutive entries hold and leaves other entries alone. |
| PageTable.SufficesIff | src/kernel/memory/vmm.c:139-147 | The frames that single-frame requests in a row return are all free if and only if all the requests succeed. |
| PageTable.RunWasFreeIff | src/kernel/memory/vmm.c:136-145 | The frames that contiguous pages are filled with were all free if and only if the request succeeded. |
| PageTable.FailedFillMapsAFreeFrame | src/kernel/memory/vmm.c:136-152 | With only frame 3 free, five contiguous pages map it although the request fails, and it stays free. |
| PageTable.FailedAllocationIsHarmlessIff | src/kernel/memory/vmm.c:132-152 | An allocation that finds no range leaves the page table as it was if and only if the first entries, which it fills, are present and writable and hold every bit of the frames requested. |
| SpaceRuns.StartIsSafe | src/kernel/memory/vmm.c:54-75 | After boot, with the whole managed range free and the entries below it on frames below the memory handed to the frame allocator, the mapping is safe. |
| SpaceRuns.RunsKeepMappingSafe | src/kernel/memory/vmm.c:26-215 | Over every run of reservations, allocations, page faults and releases (contiguous requests and releases as meant) in which requests succeed and what is left in the entries fits: no mapped frame is free, no frame of the managed range is mapped twice, pages of the free list are neither present nor reserved. |
| SpaceRuns.RunsWithoutReleaseFit | src/kernel/memory/vmm.c:26-155 | Runs without a release whose requests succeed fit, whatever they are, and so (contiguous requests as meant) keep the mapping safe. |
| SpaceRuns.FillsFreeFramesIff | src/kernel/memory/vmm.c:26-155 | In a safe state, an operation that has found its pages fills entries with frames that were free if and only if its requests for frames succeed. |
| SpaceRuns.WrittenRunsIff | src/kernel/memory/vmm.c:26-215 | Over runs whose requests succeed and fit, the code as written completes and goes through the states that were meant if and only if every release is of one page that does not complete a top-level block beside a free one, and no allocation is for twelve contiguous pages. |
| SpaceRuns.ReleaseMeetsIntentIff | src/kernel/memory/vmm.c:157-215 | In a safe state the code releases mapped pages as meant if and only if there is one and its frame does not complete a top-level block beside a free one. |
| SpaceRuns.FaultMapsReservedPage | src/kernel/memory/vmm.c:37-46 | The first fault on a reserved page makes it present with a frame that was free, clears the reserved bit and changes no other entry. |
| SpaceRuns.ContiguousMapsConsecutive | src/kernel/memory/vmm.c:131-155 | A contiguous allocation maps its i-th page to the i-th frame of a run that was free. |
| AddressSpace.KernelSpace.PageFault | src/kernel/memory/vmm.c:26-52 | The handler maps a frame exactly for a reserved page whose directory entry is present, and halts without changing anything otherwise. |
| AddressSpace.KernelSpace.ReservePages | src/kernel/memory/vmm.c:118-129 | It takes the range off the list and marks the entries that the shift selects. |
| AddressSpace.KernelSpace.AllocatePages | src/kernel/memory/vmm.c:131-155 | For any 32-bit count it takes the range off the list and fills its entries, contiguously or frame by frame, and says when it runs past the page table. |
| AddressSpace.KernelSpace.FreePages | src/kernel/memory/vmm.c:157-215 | It puts the range back on the list, then clears entries and releases frames as the shift selects them; from a safe mapping it gives back exactly the frames of the range if and only if ReleasesFramesIff says so. |
| Fat12.PackRoundTrip | src/bootloader/stage2/fat.c:125-132 | For every table of 12-bit entries packed two per three bytes, reading entry i gives back entry i. |
| Fat12.PackedExample | src/bootloader/stage2/fat.c:125-132 | The entries of one concrete table of six bytes. |
| Fat12.TablesBeforeRoot | src/bootloader/stage2/fat.c:94 | Every sector of every table lies before the root directory, which begins right after the last of them. |
| Fat12.DataAfterRoot | src/bootloader/stage2/fat.c:94-112 | The data area begins at the first sector past the 32 bytes of every root directory entry, and not a sector later. |
| Fat12.DataSectorsPastRoot | src/bootloader/stage2/fat.c:94-123 | No sector of a data cluster lies in the reserved, table or root-directory area (see TablesBeforeRoot), and no address wraps. |
| Fat12.DataSectorsApart | src/bootloader/stage2/fat.c:121-123 | Different data clusters and sectors have different addresses. |
| Fat12.RootSectorRightIff | src/bootloader/stage2/fat.c:157-161 | The k-th sector of the root directory is read from where it is if and only if k is 0. |
| Fat12.RootByteRightIff | src/bootloader/stage2/fat.c:157-161 | A byte of the root directory is read right whatever the disk holds if and only if it lies in the first sector. |
| Fat12.SectorOnDisk | src/bootloader/stage2/fat.c:121-174 | On a packed table, with the clusters of a chain: sector k of the file is what the disk holds at the data area plus (cluster - 2) times the sectors of a cluster plus k modulo that, for the cluster k / spc steps down the chain; the file has it if and only if none of these steps met an entry of 0xff8 or more. |
| Fat12.ByteOnDisk | src/bootloader/stage2/fat.c:134-174 | Byte p of a file is byte p % 512 of that sector p / 512 on the disk, and can be read if and only if it is inside the size, unless the file is a directory of size 0, and the chain has that sector. |
| Fat12.DeliveryIsUnique | src/bootloader/stage2/fat.c:134-182 | A read delivers one byte sequence only: as many content bytes from the position as asked for or available. |
| Fat12.DeliveriesJoin | src/bootloader/stage2/fat.c:134-182 | Two reads in a row deliver what one read of both counts delivers. |
| Fat12.ChunkingDoesNotMatter | src/bootloader/stage2/fat.c:134-182 | Any sequence of reads delivers the bytes, and ends at the position, of a single read of their sum. |
| FatReader.Reader.Read | src/bootloader/stage2/fat.c:134-182 | The buffered loop delivers content bytes across sector, cluster and end-of-chain boundaries, clamped by the size as the code does, keeps the buffer in step with the position, and ends even on a cyclic chain; after a disk error what was copied is still content. |
| FatReader.Reader.constructor | src/bootloader/stage2/fat.c:94-119 | It is ready exactly if the first root directory sector can be read, with the root directory at position 0 and every handle unused. |
| FatReader.Reader.ReadRoot | src/bootloader/stage2/fat.c:134-182 | The root directory branch delivers exactly the bytes that are read as its sectors, count of them, or as many as are left of a directory with a size; the directory's own bytes as long as it stays in the first sector; it stops exactly at a sector that cannot be read. |
| FatReader.Reader.OpenEntry | src/bootloader/stage2/fat.c:189-216 | It succeeds if and only if the first sector can be read; it takes the last unused handle, leaves open files alone and leaves the new file ready at position 0; with no unused handle it returns handle -1 and the file replaces the root directory. |
| FatReader.Reader.Close | src/bootloader/stage2/fat.c:256-262 | Closing a file makes its handle unused; closing the root directory goes back to its start, and it is ready again exactly if the buffer holds the first sector. |
| FatReader.CloseKeepsReadyIff | src/bootloader/stage2/fat.c:256-260 | A root directory that was ready is ready after a close if and only if the buffer is what the disk holds as its first sector. |
| FatReader.CloseAlwaysKeepsReadyIff | src/bootloader/stage2/fat.c:256-260 | That is so for every disk if and only if the reads have not gone past the first sector. |
| Ps2Protocol.EnqueueKeepsInv | src/kernel/drivers/ps2.c:49-65 | Enqueuing keeps: busy iff the ring is non-empty, the oldest command awaits an answer with 1 to len bytes sent, later ones have sent nothing, at most 7 are queued. |
| Ps2Protocol.InterruptKeepsInv | src/kernel/drivers/ps2.c:67-100 | Every device byte keeps the same. |
| Ps2Protocol.ConsumedOrForwarded | src/kernel/drivers/ps2.c:71-99 | A device byte is consumed as an answer or forwarded to the keyboard, never both, and a forwarded byte changes nothing else. |
| Ps2Protocol.EnqueueEffect | src/kernel/drivers/ps2.c:49-65 | A request is refused, changing nothing, if and only if seven commands are queued; an idle driver sends its first byte at once, a busy one queues it with three retries. |
| Ps2Protocol.AnswerEffect | src/kernel/drivers/ps2.c:74-95 | 0xfa sends the next byte, 0xfe the last one again as long as a retry is left; otherwise the command leaves and the next one sends its first byte. |
| Ps2Protocol.AnswerMakesProgress | src/kernel/drivers/ps2.c:74-95 | Every consumed answer lowers the sum of (len - pos + retries + 1) over the queue; the oldest command leaves or is owed exactly one answer less. |
| Ps2Protocol.AnswersDrainRing | src/kernel/drivers/ps2.c:67-100 | A device that answers often enough, with whatever answers, empties the ring. |
| Ps2Protocol.HeadLeaves | src/kernel/drivers/ps2.c:67-100 | Whatever is interleaved, the oldest command leaves within the answers it is owed. |
| Ps2Protocol.TurnEnds | src/kernel/drivers/ps2.c:36-100 | A command whose turn has come leaves within len + 3 answers. |
| Ps2Wire.WireTrace | src/kernel/drivers/ps2.c:36-100 | Over every run, commands leave in order of acceptance and the wire is, command after command, each one's bytes with at most three repeats; one that left was sent completely or given up after three repeats; and the repeats are as many as the 0xfe bytes that found a retry left. |
| Ps2Wire.AcknowledgedRun | src/kernel/drivers/ps2.c:36-100 | A device that never sends 0xfe gets each accepted command exactly once: the wire is a prefix of their bytes, as long as there were 0xfa answers and one more while an answer is awaited, and complete after as many answers as there are bytes. |
| Ps2Wire.AcceptedIff | src/kernel/drivers/ps2.c:49-65 | After any run a request is accepted if and only if fewer than seven accepted commands have not departed. |
| Ps2Wire.SevenAreAccepted | src/kernel/drivers/ps2.c:49-65 | From power-up, without a device byte in between, the first seven requests are accepted and no more. |
| Ps2Wire.QueueCount | src/kernel/drivers/ps2.c:36-100 | The ring holds as many commands as were accepted and have not departed. |
| Ps2.CommandQueue.SendNextCommand | src/kernel/drivers/ps2.c:36-47 | It sends the first byte of the oldest command of the ring, or becomes idle. |
| Ps2.CommandQueue.EnqueueCommand | src/kernel/drivers/ps2.c:49-65 | On the ring of slots it is the queue step: accepted if and only if fewer than 7 are queued, sent at once when idle, and without effect when refused. |
| Ps2.CommandQueue.IRQHandler | src/kernel/drivers/ps2.c:67-100 | On the ring of slots it is the protocol step for the byte read, with the retry counter's wrap-around. |
| Disk.LBA2CHS | src/bootloader/stage2/disk.c:20-24 | It computes the CHS address with the cylinder cut to 16 bits. |
| Disk.ChsRoundTripIff | src/bootloader/stage2/disk.c:20-24 | For every geometry head and sector are in range, and the address leads back to the LBA if and only if the cylinder fits 16 bits. |
| Disk.Channel.Write | src/kernel/drivers/drive/ide.c:121-134 | The port writes of one register write, with the control writes around the shared registers. |
| Disk.Channel.Access | src/kernel/drivers/drive/ide.c:200-278 | Nothing is written for a drive that is not there; otherwise the port writes of an access, in order, in all three address modes, chosen by the capability that the code looks up. |
| Disk.ModeSuitsDriveIff | src/kernel/drivers/drive/ide.c:223 | The mode chosen is the one for the drive's own capability if and only if the entry looked up says the same or the address is past 28 bits. |
| Disk.SecondDriveAlone | src/kernel/drivers/drive/ide.c:223 | A single drive, second on its channel, is addressed by CHS although it understands LBA. |
| Disk.AccessAddressesSectorIff | src/kernel/drivers/drive/ide.c:200-278 | A device that latches register values two deep, whatever they were before, decodes the LBA asked for, always in the LBA modes and in CHS mode if and only if the cylinder fits 16 bits. |
| Disk.DeviceIsAsked | src/kernel/drivers/drive/ide.c:200-278 | When the command arrives it is a read if and only if nothing is to be written, in its 48-bit form if and only if the address takes more than 28 bits; the drive, LBA and count registers are those asked for. |

## Left out

- PmmInit.AddMemory: the entries, as the code sees them, end inside the memory that the bitmaps describe and below the last page of the 32-bit address space; an entry that ends there makes the loop's address wrap around.
- MemoryMap.StartupIsRightIff: for maps whose usable entries end below 4 GiB; for the others MemoryMap.Freed still says what is made free.
- BuddyRuns.RunsAreSafe: a release is of a live allocation as it was returned; parts of one are not released.
- SpaceRuns.RunsKeepMappingSafe: releases are of mapped pages of the managed range; what the code does to a page that was never touched is stated by PageRelease.ReleasesFramesIff. A reservation in a run has at most 20 pages, beyond which the shift is undefined. What a request that fails does is stated by SpaceRuns.FillsFreeFramesIff.
- AddressSpace.KernelSpace.AllocatePages: stops where the code would write past the page table.
- AddressSpace.KernelSpace.FreePages: for pages that are not in the free list, which the code takes for granted.
- Vmm.BlockList.ReleaseBlock: addresses are natural numbers; the end of the address space is not reached by a start address, so the 32-bit comparisons come out the same.
- Ps2.CommandQueue.EnqueueCommand: for commands of 1 to 4 bytes, the size of a slot; the bytes of a slot beyond the command's length are not modelled.
- FatReader.Reader.Read: the handles of files and directories; the root directory's branch is FatReader.Reader.ReadRoot, which is not stated for a file that has taken the root directory's place.
- Disk.Channel.Access: is called on the channel of the drive; polling, data transfer and the cache flush are hardware effects.
- Disk.LBA2CHS: `heads * sectors` is a natural number; the retries of DISK_ReadSectors are not modelled.
- FAT_ReadFAT: the table is taken to be in memory as it was loaded, and what lies behind it too.
- The i8042 ready bits: a written byte is taken to arrive, and whether a byte could be read is a parameter.
- The page directory: whether a directory entry is present is a parameter of the fault handler; TLB and recursive mapping are not modelled.
- The bump allocator `src/kernel/memory/bootstrap_alloc.c`: the arrays it hands out are fresh Dafny arrays.
- FAT_FindFile, FAT_Open and path names: string handling that would add only easy members.
- Keyboard, display, shell, PCI, network, raytracer, interrupt tables and all assembly.
