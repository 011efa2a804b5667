/** vmm.c on top of pmm.c: the page tables, filled in place. */
module AddressSpace {
  import opened MemDefs
  import opened BuddyBlocks
  import opened BuddyFrames
  import opened BuddyFree
  import opened Pmm
  import opened Vmm
  import opened FreeList
  import opened PageTable
  import opened PageRelease
  import FreeRanges

  class KernelSpace {
    const blocks: BlockList
    const frames: FrameAllocator
    const pageTables: array<Pte>

    ghost predicate Valid()
      reads this, blocks, blocks.memoryBuffer, frames, frames.bitmaps, pageTables
    {
      && blocks.Valid() && frames.Valid() && pageTables.Length == ENTRIES
      && (forall b :: b in frames.bitmaps ==> b as object != pageTables && b as object != blocks.memoryBuffer)
      && pageTables as object != blocks.memoryBuffer
      && 16 * frames.blocks == ENTRIES
    }

    constructor (blocks: BlockList, frames: FrameAllocator, entries: seq<Pte>)
      requires blocks.Valid() && frames.Valid() && |entries| == ENTRIES && 16 * frames.blocks == ENTRIES
      requires forall b :: b in frames.bitmaps ==> b as object != blocks.memoryBuffer
      ensures Valid() && this.blocks == blocks && this.frames == frames
      ensures fresh(pageTables) && pageTables[..] == entries
    {
      this.blocks, this.frames := blocks, frames;
      pageTables := new Pte[ENTRIES](i requires 0 <= i < ENTRIES => entries[i]);
      new;
      assert pageTables[..] == entries;
    }

    /** VMM_PageFaultHandler. The first bit of the error code says that the page was present;
        whether the directory entry is present is a parameter. False stands for i686_Halt. */
    method PageFault(cr2: nat, violation: bool, directoryPresent: bool) returns (handled: bool)
      requires Valid() && cr2 < WORD
      modifies frames, frames.bitmaps, pageTables
      ensures Valid()
      ensures handled == (!violation && directoryPresent && old(pageTables[cr2 / PAGE].reserved))
      ensures if handled
        then frames.free == Get(old(frames.free), 1).1 &&
             pageTables[..] == old(pageTables[..])[cr2 / PAGE :=
               FaultIn(old(pageTables[cr2 / PAGE]), Get(old(frames.free), 1).0)]
        else frames.free == old(frames.free) && pageTables[..] == old(pageTables[..])
    {
      hide Get, Or;
      if violation { return false; }
      var page := cr2 / PAGE;
      if directoryPresent {
        if pageTables[page].reserved {
          var frame := frames.GetFrames(1);
          pageTables[page] := MapTo(pageTables[page], frame);
          pageTables[page] := pageTables[page].(reserved := false);
          return true;
        }
      }
      handled := false;
    }

    /** The loop of VMM_ReservePages; false stands for a shift that C does not define. */
    method MarkReserved(base: nat, count: nat) returns (defined: bool)
      requires base < PAGE * pageTables.Length
      modifies pageTables
      ensures (pageTables[..], defined) == ReserveFrom(old(pageTables[..]), base, 0, count)
    {
      hide ShiftedIndex;
      ghost var start := pageTables[..];
      var i := 0;
      while i < count
        invariant i <= count
        invariant ReserveFrom(start, base, 0, count) == ReserveFrom(pageTables[..], base, i, count)
      {
        if 12 + i >= 32 { return false; }
        IndexInTable(base, i, pageTables.Length);
        var k := ShiftedIndex(base, i);
        ghost var before := pageTables[..];
        pageTables[k] := pageTables[k].(reserved := true);
        assert pageTables[..] == before[k := before[k].(reserved := true)];
        i := i + 1;
      }
      defined := true;
    }

    method ReservePages(count: nat) returns (base: nat, defined: bool)
      requires Valid()
      modifies blocks, blocks.memoryBuffer, pageTables
      ensures Valid()
      ensures (base, blocks.Ranges()) == FreeRanges.Allocate(old(blocks.Ranges()), FreeRanges.Bytes(count))
      ensures base < PAGE * ENTRIES
      ensures (pageTables[..], defined) == ReserveFrom(old(pageTables[..]), base, 0, count)
    {
      hide Chain, RangesOf, FreeRanges.Allocate, FreeRanges.Bytes, ReserveFrom, FreeRanges.WholePages;
      AllocatedBelow(blocks.Ranges(), FreeRanges.Bytes(count), blocks.lo, blocks.hi);
      base := blocks.AllocateBlock(count);
      defined := MarkReserved(base, count);
    }

    /** The loop of VMM_AllocatePages; false means that it ran past the end of the page table, where
        the model stops. */
    method FillPages(p: nat, physicalBase: nat, count: nat, contiguous: bool) returns (inBounds: bool)
      requires frames.Valid() && p <= pageTables.Length
      requires forall b :: b in frames.bitmaps ==> b as object != pageTables
      modifies frames, frames.bitmaps, pageTables
      ensures frames.Valid()
      ensures inBounds <==> p + count <= pageTables.Length
      ensures contiguous ==> (
        && frames.free == old(frames.free)
        && pageTables[..] == PopulateRun(old(pageTables[..]), p, physicalBase, Filled(p, count, pageTables.Length)))
      ensures !contiguous ==>
        (pageTables[..], frames.free) ==
          Populate(old(pageTables[..]), old(frames.free), p, Filled(p, count, pageTables.Length))
    {
      hide Get, Or, Down, InRange;
      ghost var start, free, n := pageTables[..], frames.free, Filled(p, count, pageTables.Length);
      var i := 0;
      while i < count
        invariant i <= n && frames.Valid()
        invariant contiguous ==> frames.free == free
        invariant contiguous ==>
          PopulateRun(start, p, physicalBase, n) == PopulateRun(pageTables[..], p + i, physicalBase + i, n - i)
        invariant !contiguous ==>
          Populate(start, free, p, n) == Populate(pageTables[..], frames.free, p + i, n - i)
      {
        if p + i == pageTables.Length { return false; }
        ghost var before := pageTables[..];
        var page := physicalBase + i;
        if !contiguous {
          page := frames.GetFrames(1);
        }
        assert pageTables[..] == before;
        pageTables[p + i] := MapTo(pageTables[p + i], page);
        assert pageTables[..] == before[p + i := MapTo(before[p + i], page)];
        i := i + 1;
      }
      inBounds := true;
    }

    /** VMM_AllocatePages, for any 32-bit count. When no range is found, base is 0 and the first
        entries of the table are filled all the same (see FailedAllocationIsHarmlessIff). */
    method AllocatePages(count: nat, contiguous: bool) returns (base: nat, inBounds: bool)
      requires Valid() && count < WORD
      modifies blocks, blocks.memoryBuffer, frames, frames.bitmaps, pageTables
      ensures Valid()
      ensures (base, blocks.Ranges()) == FreeRanges.Allocate(old(blocks.Ranges()), FreeRanges.Bytes(count))
      ensures base < WORD && (inBounds <==> base / PAGE + count <= ENTRIES) && (count < ENTRIES ==> inBounds)
      ensures contiguous ==> (
        var (frame, free) := Get(old(frames.free), count);
        && frames.free == free
        && pageTables[..] == PopulateRun(old(pageTables[..]), base / PAGE, frame, Filled(base / PAGE, count, ENTRIES)))
      ensures !contiguous ==>
        (pageTables[..], frames.free) ==
          Populate(old(pageTables[..]), old(frames.free), base / PAGE, Filled(base / PAGE, count, ENTRIES))
    {
      hide Chain, RangesOf, FreeRanges.Allocate, FreeRanges.Bytes, FreeRanges.WholePages, Get, Populate, PopulateRun,
        Down, InRange;
      FreeRanges.BytesArePages(count);
      AllocatedBelow(blocks.Ranges(), FreeRanges.Bytes(count), blocks.lo, blocks.hi);
      base := blocks.AllocateBlock(count);
      if count < ENTRIES { PagesInTable(base, count); }
      var physicalBase := 0;
      if contiguous {
        physicalBase := frames.GetFrames(count);
      }
      inBounds := FillPages(base / PAGE, physicalBase, count, contiguous);
    }

    /** The loop at the end of VMM_FreePages. */
    method UnmapPages(base: nat, count: nat) returns (completed: bool)
      requires frames.Valid() && base < PAGE * pageTables.Length
      requires forall b :: b in frames.bitmaps ==> b as object != pageTables
      requires forall i :: 0 <= i < pageTables.Length ==> pageTables[i].frame < 16 * frames.blocks
      modifies frames, frames.bitmaps, pageTables
      ensures frames.Valid()
      ensures Unmapping(pageTables[..], frames.free, completed) ==
        UnmapFrom(old(pageTables[..]), old(frames.free), base, 0, count)
    {
      hide Free, ShiftedIndex, Down, InRange;
      ghost var start, free := pageTables[..], frames.free;
      var i := 0;
      while i < count
        invariant i <= count && frames.Valid()
        invariant forall k :: 0 <= k < pageTables.Length ==> pageTables[k].frame < 16 * frames.blocks
        invariant UnmapFrom(start, free, base, 0, count) == UnmapFrom(pageTables[..], frames.free, base, i, count)
      {
        if 12 + i >= 32 { return false; }
        IndexInTable(base, i, pageTables.Length);
        var k := ShiftedIndex(base, i);
        ghost var before := pageTables[..];
        pageTables[k] := pageTables[k].(present := false);
        var inBounds := frames.FreeFrames(pageTables[k].frame, 1);
        assert pageTables[..] == before[k := before[k].(present := false)];
        if !inBounds { return false; }
        i := i + 1;
      }
      completed := true;
    }

    /** VMM_FreePages, for pages that are not in the free list. From a safe mapping it does what it
        is for exactly when there is one page and that page can be released. */
    method FreePages(address: nat, count: nat) returns (completed: bool)
      requires Valid() && FreeRanges.Bytes(count) > 0 && address % PAGE == 0
      requires blocks.lo <= address && address + FreeRanges.Bytes(count) <= blocks.hi
      requires FreeRanges.RunTaken(blocks.Ranges(), address, FreeRanges.Bytes(count))
      requires forall i :: 0 <= i < pageTables.Length ==> pageTables[i].frame < ENTRIES
      modifies blocks, blocks.memoryBuffer, frames, frames.bitmaps, pageTables
      ensures Valid()
      ensures blocks.Ranges() == FreeRanges.Release(old(blocks.Ranges()), address, FreeRanges.Bytes(count))
      ensures Unmapping(pageTables[..], frames.free, completed) ==
        UnmapFrom(old(pageTables[..]), old(frames.free), address, 0, count)
      ensures
        && old(WellFormed(frames.free, frames.blocks) && Coalesced(frames.free))
        && old(FramesSafe(pageTables[..], frames.free, blocks.lo))
        && KERNEL_VIRTUAL_ADDR <= blocks.lo && address / PAGE + count <= ENTRIES ==>
        (Released(old(pageTables[..]), old(frames.free), frames.blocks, address / PAGE, count,
                  Unmapping(pageTables[..], frames.free, completed)) <==>
         count == 1 && CanRelease(old(pageTables[address / PAGE]), old(frames.free), frames.blocks))
    {
      hide Chain, RangesOf, FreeRanges.Release, FreeRanges.Bytes, FreeRanges.WholePages, UnmapFrom, Down, InRange,
        FreeRanges.RunTaken, WellFormed, Coalesced, FramesSafe, Released, CanRelease;
      ghost var pte, free := pageTables[..], frames.free;
      assert count > 0 by { NoBytes(count); }
      blocks.ReleaseBlock(address, count);
      completed := UnmapPages(address, count);
      if WellFormed(free, frames.blocks) && Coalesced(free) && FramesSafe(pte, free, blocks.lo)
        && KERNEL_VIRTUAL_ADDR <= blocks.lo && address / PAGE + count <= ENTRIES {
        ReleasesFramesIff(pte, free, frames.blocks, blocks.lo, address, count);
      }
    }
  }

  /** How many of count entries from p on there are in a table of n entries. */
  function Filled(p: nat, count: nat, n: nat): nat
    requires p <= n
  {
    if p + count <= n then count else n - p
  }

  lemma NoBytes(count: nat)
    requires FreeRanges.Bytes(count) > 0
    ensures count > 0
  {
  }

  /** A range that is allocated ends inside the region. */
  lemma AllocatedBelow(rs: seq<FreeRanges.Range>, size: nat, lo: nat, hi: nat)
    requires FreeRanges.InRegion(rs, lo, hi) && 0 < lo <= hi <= WORD && FreeRanges.Separated(rs)
    ensures var a := FreeRanges.Allocate(rs, size).0; a < WORD && (a != 0 ==> a + size <= hi)
  {
    hide FreeRanges.FirstFit;
  }

  lemma PagesInTable(base: nat, count: nat)
    requires base == 0 || base + count * PAGE <= WORD
    requires count < ENTRIES
    ensures base / PAGE + count <= ENTRIES
  {
  }
}
