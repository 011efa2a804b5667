/** Whole runs of the virtual memory manager: reserving, allocating and releasing pages and page
    faults, in any order. */
module SpaceRuns {
  import opened BuddyBlocks
  import opened BuddyFrames
  import opened BuddyOddCounts
  import opened PageTable
  import opened PageRelease
  import opened FreeRanges
  import opened MemDefs

  datatype Operation =
    | ReservePages(count: nat)
    | AllocatePages(count: nat, contiguous: bool)
    | PageFault(page: nat, directoryPresent: bool)
    | FreePages(page: nat, count: nat)

  /** The state after VMM_ReservePages, VMM_AllocatePages, VMM_PageFaultHandler for a page that is
      not present, or VMM_FreePages; requests for contiguous frames and releases as they were meant
      (see WrittenRunsIff). */
  ghost function Apply(sp: Space, lo: nat, hi: nat, op: Operation): Space
    requires Proper(sp, lo, hi, op)
  {
    match op
    case ReservePages(count) =>
      var (base, ranges) := Allocate(sp.ranges, Bytes(count));
      Space(ranges, ReserveFrom(sp.pte, base, 0, count).0, sp.free)
    case AllocatePages(count, contiguous) =>
      var (base, ranges) := Allocate(sp.ranges, Bytes(count));
      if contiguous then
        var (frame, free) := MeantGet(sp.free, count);
        Space(ranges, PopulateRun(sp.pte, base / PAGE, frame, count), free)
      else
        var (pte, free) := Populate(sp.pte, sp.free, base / PAGE, count);
        Space(ranges, pte, free)
    case PageFault(page, directoryPresent) =>
      if directoryPresent && sp.pte[page].reserved then
        var (frame, free) := Get(sp.free, 1);
        sp.(pte := sp.pte[page := FaultIn(sp.pte[page], frame)], free := free)
      else
        sp
    case FreePages(page, count) =>
      var (pte, free) := UnmapRange(sp.pte, sp.free, page, count);
      Space(Release(sp.ranges, page * PAGE, count * PAGE), pte, free)
  }

  /** The operation is one the kernel can ask for; mapped pages of the managed range are released. */
  ghost predicate Proper(sp: Space, lo: nat, hi: nat, op: Operation)
  {
    match op
    case ReservePages(count) =>
      var base := Allocate(sp.ranges, Bytes(count)).0;
      0 < count <= 20 && base < PAGE * |sp.pte|
    case AllocatePages(count, contiguous) =>
      var base := Allocate(sp.ranges, Bytes(count)).0;
      0 < count < ENTRIES && base / PAGE + count <= |sp.pte|
    case PageFault(page, _) =>
      page < |sp.pte| && !sp.pte[page].present
    case FreePages(page, count) =>
      && 0 < count && lo <= page * PAGE && (page + count) * PAGE <= hi && page + count <= |sp.pte|
      && forall q: nat :: page <= q < page + count ==> sp.pte[q].present
  }

  /** An allocation finds pages, and the frames requested for an allocation or a fault are found. */
  ghost predicate Succeeds(sp: Space, lo: nat, hi: nat, op: Operation)
    requires Proper(sp, lo, hi, op)
  {
    match op
    case ReservePages(_) => true
    case AllocatePages(count, contiguous) =>
      && Allocate(sp.ranges, Bytes(count)).0 != 0
      && if contiguous then Get(sp.free, count).0 != 0 else Suffices(sp.free, count)
    case PageFault(page, directoryPresent) =>
      directoryPresent && sp.pte[page].reserved ==> Get(sp.free, 1).0 != 0
    case FreePages(_, _) => true
  }

  /** The frames that the operation puts into entries were free. */
  ghost predicate UsesFreeFrames(sp: Space, lo: nat, hi: nat, op: Operation)
    requires Proper(sp, lo, hi, op)
  {
    match op
    case ReservePages(_) => true
    case AllocatePages(count, contiguous) =>
      if contiguous then forall f: nat :: InRun(f, Get(sp.free, count).0, count) ==> FreeAt(sp.free, f)
      else AllRequestedFree(sp.free, sp.free, count)
    case PageFault(page, directoryPresent) =>
      directoryPresent && sp.pte[page].reserved ==> FreeAt(sp.free, Get(sp.free, 1).0)
    case FreePages(_, _) => true
  }

  /** What is left in the entries that the operation fills goes into the frames it fills them with. */
  ghost predicate FitsFrames(sp: Space, lo: nat, hi: nat, op: Operation)
    requires Proper(sp, lo, hi, op)
  {
    match op
    case ReservePages(_) => true
    case AllocatePages(count, contiguous) =>
      var p := Allocate(sp.ranges, Bytes(count)).0 / PAGE;
      if contiguous then FitsRun(sp.pte, p, Get(sp.free, count).0, count) else Fits(sp.pte, sp.free, p, count)
    case PageFault(page, directoryPresent) =>
      directoryPresent && sp.pte[page].reserved ==> BitsWithin(sp.pte[page].frame, Get(sp.free, 1).0)
    case FreePages(_, _) => true
  }

  ghost predicate Leads(sp: Space, lo: nat, hi: nat, ops: seq<Operation>, sp': Space)
    decreases |ops|
  {
    if ops == [] then sp' == sp
    else Proper(sp, lo, hi, ops[0]) && Leads(Apply(sp, lo, hi, ops[0]), lo, hi, ops[1..], sp')
  }

  /** Every operation of the run succeeds when its turn comes. */
  ghost predicate AllSucceed(sp: Space, lo: nat, hi: nat, ops: seq<Operation>)
    decreases |ops|
  {
    ops != [] && Proper(sp, lo, hi, ops[0]) ==>
      Succeeds(sp, lo, hi, ops[0]) && AllSucceed(Apply(sp, lo, hi, ops[0]), lo, hi, ops[1..])
  }

  /** Every operation of the run fits when its turn comes. */
  ghost predicate AllFit(sp: Space, lo: nat, hi: nat, ops: seq<Operation>)
    decreases |ops|
  {
    ops != [] && Proper(sp, lo, hi, ops[0]) ==>
      FitsFrames(sp, lo, hi, ops[0]) && AllFit(Apply(sp, lo, hi, ops[0]), lo, hi, ops[1..])
  }

  /** A range of pages just allocated: its pages were free, its entries untouched. */
  ghost predicate PagesTaken(sp: Space, ranges: seq<Range>, lo: nat, hi: nat, base: nat, count: nat)
  {
    && Separated(ranges) && WholePages(ranges) && InRegion(ranges, lo, hi)
    && lo <= base && base % PAGE == 0 && base / PAGE + count <= |sp.pte|
    && (forall q: nat :: base / PAGE <= q < base / PAGE + count ==> Untouched(sp.pte[q]))
    && forall q: nat :: Covers(ranges, q * PAGE) ==>
         Covers(sp.ranges, q * PAGE) && !(base / PAGE <= q < base / PAGE + count)
  }

  lemma TakePages(sp: Space, blocks: nat, lo: nat, hi: nat, count: nat)
    requires SafeMapping(sp, blocks, lo, hi) && 0 < count < ENTRIES
    requires Allocate(sp.ranges, Bytes(count)).0 != 0
    ensures var (base, ranges) := Allocate(sp.ranges, Bytes(count));
      PagesTaken(sp, ranges, lo, hi, base, count)
  {
    hide Separated, WholePages, FramesSafe, WellFormed, Coalesced, Covers, Bytes, Allocate;
    var (base, ranges) := Allocate(sp.ranges, Bytes(count));
    BytesArePages(count);
    AllocateIsExact(sp.ranges, Bytes(count), lo, hi);
    FirstFitExists(sp.ranges, Bytes(count), lo, hi);
    forall q: nat ensures base / PAGE <= q < base / PAGE + count <==> base <= q * PAGE < base + count * PAGE {
      PageArithmetic(base, count, q);
    }
    forall q: nat | base / PAGE <= q < base / PAGE + count ensures q < |sp.pte| && Untouched(sp.pte[q]) {
      PageArithmetic(base, count, q);
      assert Covers(sp.ranges, q * PAGE);
    }
  }

  lemma PageArithmetic(base: nat, count: nat, q: nat)
    requires base % PAGE == 0
    ensures base / PAGE <= q < base / PAGE + count <==> base <= q * PAGE < base + count * PAGE
  {
  }

  // ----- Every operation keeps the mapping safe -----

  lemma ReserveIsSafe(sp: Space, blocks: nat, lo: nat, hi: nat, count: nat)
    requires SafeMapping(sp, blocks, lo, hi) && Proper(sp, lo, hi, ReservePages(count))
    ensures SafeMapping(Apply(sp, lo, hi, ReservePages(count)), blocks, lo, hi)
  {
    hide Separated, WholePages, InRegion, WellFormed, Coalesced, Covers, Bytes, Allocate, ShiftedIndex, FreeAt;
    var (base, ranges) := Allocate(sp.ranges, Bytes(count));
    ReserveDefined(sp.pte, base, 0, count);
    ReserveMarks(sp.pte, base, 0, count);
    if base == 0 {
      NothingTaken(sp.ranges, Bytes(count), lo, hi);
    } else {
      TakePages(sp, blocks, lo, hi, count);
    }
    var pte := ReserveFrom(sp.pte, base, 0, count).0;
    forall q: nat | Marked(base, 0, count, q) ensures q == base / PAGE || q * PAGE < lo {
      MarkedPlaces(base, count, q);
    }
    forall q: nat | q < ENTRIES && Covers(ranges, q * PAGE) ensures Untouched(pte[q]) {
      if base == 0 {
        FreePageIsManaged(ranges, lo, hi, q);
      } else {
        StrayMarksLow(sp, ranges, blocks, lo, hi, base, count, q);
      }
    }
  }

  lemma NothingTaken(rs: seq<Range>, size: nat, lo: nat, hi: nat)
    requires InRegion(rs, lo, hi) && 0 < lo && Allocate(rs, size).0 == 0
    ensures Allocate(rs, size).1 == rs
  {
  }

  lemma FreePageIsManaged(rs: seq<Range>, lo: nat, hi: nat, q: nat)
    requires InRegion(rs, lo, hi) && Covers(rs, q * PAGE)
    ensures lo <= q * PAGE
  {
  }

  lemma {:induction false} ReserveDefined(pte: seq<Pte>, base: nat, i: nat, count: nat)
    requires base < PAGE * |pte| && count <= 20
    ensures ReserveFrom(pte, base, i, count).1
    decreases count - i
  {
    if i < count {
      IndexInTable(base, i, |pte|);
      var k := ShiftedIndex(base, i);
      ReserveDefined(pte[k := pte[k].(reserved := true)], base, i + 1, count);
    }
  }

  /** The shifted indices are the first page of the range, or lie in the lower half of the
      address space: no page of the free list is among them. */
  lemma StrayMarksLow(sp: Space, ranges: seq<Range>, blocks: nat, lo: nat, hi: nat, base: nat, count: nat, q: nat)
    requires SafeMapping(sp, blocks, lo, hi) && PagesTaken(sp, ranges, lo, hi, base, count)
    requires 0 < count && Covers(ranges, q * PAGE) && q < ENTRIES
    ensures !Marked(base, 0, count, q)
  {
    hide Separated, WholePages, FramesSafe, WellFormed, Coalesced, ShiftedIndex;
    var i: nat :| i < |ranges| && Within(ranges[i], q * PAGE);
    forall j: nat ensures ShiftedIndex(base, j) != q || j >= count {
      IndexInTable(base, j, |sp.pte|);
    }
  }

  /** Only the first page of the range is marked, and entries in the lower half. */
  lemma MarkedPlaces(base: nat, count: nat, q: nat)
    requires base < PAGE * ENTRIES && Marked(base, 0, count, q)
    ensures q == base / PAGE || q * PAGE < KERNEL_VIRTUAL_ADDR
  {
    hide ShiftedIndex;
    var j: nat :| j < count && ShiftedIndex(base, j) == q;
    IndexInTable(base, j, ENTRIES);
    IndexInTable(base, 0, ENTRIES);
  }

  lemma AllocateIsSafe(sp: Space, blocks: nat, lo: nat, hi: nat, count: nat, contiguous: bool)
    requires SafeMapping(sp, blocks, lo, hi) && Proper(sp, lo, hi, AllocatePages(count, contiguous))
    requires Succeeds(sp, lo, hi, AllocatePages(count, contiguous))
    requires FitsFrames(sp, lo, hi, AllocatePages(count, contiguous))
    ensures SafeMapping(Apply(sp, lo, hi, AllocatePages(count, contiguous)), blocks, lo, hi)
  {
    hide Separated, WholePages, InRegion, WellFormed, Coalesced, Covers, Bytes, Allocate, FreeAt, Get, Populate,
      PopulateRun, FramesSafe;
    var (base, ranges) := Allocate(sp.ranges, Bytes(count));
    var p := base / PAGE;
    TakePages(sp, blocks, lo, hi, count);
    if contiguous {
      var (frame, free) := MeantGet(sp.free, count);
      GetRun(sp.free, blocks, count);
      RunIsSafe(sp.pte, sp.free, free, lo, p, frame, count);
      PopulateRunMaps(sp.pte, p, frame, count);
      RunFits(sp.pte, p, frame, count);
      forall f: nat | InRun(f, frame, count) ensures InManagedMemory(f, blocks) {
        FreeInMemory(sp.free, blocks, f);
      }
      assert forall q: nat :: p <= q < p + count ==> InRun(PopulateRun(sp.pte, p, frame, count)[q].frame, frame, count);
    } else {
      PopulateIsSafe(sp.pte, sp.free, blocks, lo, p, count);
      var u := Populate(sp.pte, sp.free, p, count).0;
      forall q: nat | p <= q < p + count ensures InManagedMemory(u[q].frame, blocks) {
        FreeInMemory(sp.free, blocks, u[q].frame);
      }
    }
  }

  /** The frames of a contiguous request. */
  lemma GetRun(s: FreeSet, blocks: nat, count: nat)
    requires WellFormed(s, blocks) && Coalesced(s)
    requires 0 < count && Get(s, count).0 != 0
    ensures var (a, t) := MeantGet(s, count);
      && a == Get(s, count).0
      && WellFormed(t, blocks) && Coalesced(t)
      && (forall f: nat :: InRun(f, a, count) ==> FreeAt(s, f) && !FreeAt(t, f))
      && forall f: nat :: FreeAt(t, f) ==> FreeAt(s, f)
  {
    hide WellFormed, Coalesced, FreeAt, InMemory, Get, MeantGet;
    SameFrames(s, count);
    MeantGetIsExact(s, blocks, count);
    SmallSize(LevelFor(count));
  }

  /** The first fault on a reserved page maps a frame that was free, and clears the reserved bit. */
  lemma FaultMapsReservedPage(sp: Space, blocks: nat, lo: nat, hi: nat, page: nat)
    requires SafeMapping(sp, blocks, lo, hi) && Proper(sp, lo, hi, PageFault(page, true)) && sp.pte[page].reserved
    requires Succeeds(sp, lo, hi, PageFault(page, true))
    requires FitsFrames(sp, lo, hi, PageFault(page, true))
    ensures var sp' := Apply(sp, lo, hi, PageFault(page, true));
      && sp'.pte[page].present && !sp'.pte[page].reserved
      && FreeAt(sp.free, sp'.pte[page].frame) && !FreeAt(sp'.free, sp'.pte[page].frame)
      && sp'.pte == sp.pte[page := sp'.pte[page]]
  {
    hide Separated, WholePages, InRegion, WellFormed, Coalesced, Covers, FreeAt, Get, Or, BitsWithin;
    GetOne(sp.free, blocks);
    RemapIsRightIff(sp.pte[page], Get(sp.free, 1).0);
  }

  lemma FaultIsSafe(sp: Space, blocks: nat, lo: nat, hi: nat, page: nat, directoryPresent: bool)
    requires SafeMapping(sp, blocks, lo, hi) && Proper(sp, lo, hi, PageFault(page, directoryPresent))
    requires Succeeds(sp, lo, hi, PageFault(page, directoryPresent))
    requires FitsFrames(sp, lo, hi, PageFault(page, directoryPresent))
    ensures SafeMapping(Apply(sp, lo, hi, PageFault(page, directoryPresent)), blocks, lo, hi)
  {
    hide Separated, WholePages, InRegion, WellFormed, Coalesced, Covers, FreeAt, Get, FramesSafe, Or, BitsWithin;
    if directoryPresent && sp.pte[page].reserved {
      var (frame, free) := Get(sp.free, 1);
      GetOne(sp.free, blocks);
      RemapIsRightIff(sp.pte[page], frame);
      FreeInMemory(sp.free, blocks, frame);
      MapFresh(sp.pte, sp.free, free, lo, page, FaultIn(sp.pte[page], frame));
    }
  }

  lemma ReleaseIsSafe(sp: Space, blocks: nat, lo: nat, hi: nat, page: nat, count: nat)
    requires SafeMapping(sp, blocks, lo, hi) && Proper(sp, lo, hi, FreePages(page, count))
    ensures SafeMapping(Apply(sp, lo, hi, FreePages(page, count)), blocks, lo, hi)
  {
    hide Separated, WholePages, InRegion, WellFormed, Coalesced, Covers, FreeAt, FramesSafe, UnmapRange, Release;
    UnmapRangeIsSafe(sp.pte, sp.free, blocks, lo, page, count);
    PresentIsTaken(sp, blocks, lo, hi, page, count);
    assert count * PAGE > 0 && page * PAGE % PAGE == 0 && count * PAGE % PAGE == 0;
    ReleaseIsExact(sp.ranges, page * PAGE, count * PAGE, lo, hi);
    var ranges := Release(sp.ranges, page * PAGE, count * PAGE);
    var u := UnmapRange(sp.pte, sp.free, page, count).0;
    forall q: nat | q < ENTRIES && Covers(ranges, q * PAGE) ensures Untouched(u[q]) {
      PageArithmetic(page * PAGE, count, q);
      assert page * PAGE / PAGE == page;
    }
  }

  /** Mapped pages are not in the free list. */
  lemma PresentIsTaken(sp: Space, blocks: nat, lo: nat, hi: nat, page: nat, count: nat)
    requires SafeMapping(sp, blocks, lo, hi) && Proper(sp, lo, hi, FreePages(page, count))
    ensures RunTaken(sp.ranges, page * PAGE, count * PAGE)
  {
    hide Separated, InRegion, WellFormed, Coalesced, FramesSafe;
    forall x: nat | page * PAGE <= x < page * PAGE + count * PAGE ensures !Covers(sp.ranges, x) {
      if Covers(sp.ranges, x) {
        CoversWholePage(sp.ranges, x);
      }
    }
  }

  lemma CoversWholePage(rs: seq<Range>, x: nat)
    requires WholePages(rs) && Covers(rs, x)
    ensures Covers(rs, x / PAGE * PAGE)
  {
    var i :| 0 <= i < |rs| && Within(rs[i], x);
    WholePageWithin(rs[i], x);
  }

  lemma WholePageWithin(r: Range, x: nat)
    requires r.start % PAGE == 0 && Within(r, x)
    ensures Within(r, x / PAGE * PAGE)
  {
  }

  lemma OperationIsSafe(sp: Space, blocks: nat, lo: nat, hi: nat, op: Operation)
    requires SafeMapping(sp, blocks, lo, hi) && Proper(sp, lo, hi, op)
    requires Succeeds(sp, lo, hi, op) && FitsFrames(sp, lo, hi, op)
    ensures SafeMapping(Apply(sp, lo, hi, op), blocks, lo, hi)
  {
    hide SafeMapping, Apply, Proper, Succeeds, FitsFrames;
    match op {
      case ReservePages(count) => ReserveIsSafe(sp, blocks, lo, hi, count);
      case AllocatePages(count, contiguous) => AllocateIsSafe(sp, blocks, lo, hi, count, contiguous);
      case PageFault(page, directoryPresent) => FaultIsSafe(sp, blocks, lo, hi, page, directoryPresent);
      case FreePages(page, count) => ReleaseIsSafe(sp, blocks, lo, hi, page, count);
    }
  }

  /** Over any run of reservations, allocations, page faults and releases as they were meant, in which
      requests succeed and what is left in the entries fits: no mapped frame is free in the frame
      allocator, no two entries map the same frame when one of them is in the managed range, and
      the pages of the free list stay untouched. */
  lemma {:induction false} RunsKeepMappingSafe(
    sp: Space, blocks: nat, lo: nat, hi: nat, ops: seq<Operation>, sp': Space)
    requires SafeMapping(sp, blocks, lo, hi) && Leads(sp, lo, hi, ops, sp')
    requires AllSucceed(sp, lo, hi, ops) && AllFit(sp, lo, hi, ops)
    ensures SafeMapping(sp', blocks, lo, hi)
    decreases |ops|
  {
    hide SafeMapping, Apply, Proper, Succeeds, FitsFrames;
    if ops != [] {
      OperationIsSafe(sp, blocks, lo, hi, ops[0]);
      RunsKeepMappingSafe(Apply(sp, lo, hi, ops[0]), blocks, lo, hi, ops[1..], sp');
    }
  }

  // ----- Runs that release nothing -----

  lemma NoBitsFit(n: nat)
    ensures BitsWithin(0, n)
  {
  }

  /** As long as nothing is left in any entry, everything fits, and only a release leaves something. */
  lemma NothingStaleFits(sp: Space, blocks: nat, lo: nat, hi: nat, op: Operation)
    requires SafeMapping(sp, blocks, lo, hi) && NothingStale(sp.pte)
    requires Proper(sp, lo, hi, op) && Succeeds(sp, lo, hi, op) && !op.FreePages?
    ensures FitsFrames(sp, lo, hi, op) && NothingStale(Apply(sp, lo, hi, op).pte)
  {
    hide Separated, WholePages, InRegion, WellFormed, Coalesced, Covers, Bytes, Allocate, ShiftedIndex, FreeAt, Get,
      MeantGet, Populate, PopulateRun, RequestedFrame, Or, BitsWithin, FramesSafe;
    forall n ensures BitsWithin(0, n) { NoBitsFit(n); }
    match op {
      case ReservePages(count) =>
        var base := Allocate(sp.ranges, Bytes(count)).0;
        ReserveDefined(sp.pte, base, 0, count);
        ReserveMarks(sp.pte, base, 0, count);
      case AllocatePages(count, contiguous) =>
        var p := Allocate(sp.ranges, Bytes(count)).0 / PAGE;
        TakePages(sp, blocks, lo, hi, count);
        if contiguous {
          PopulateRunMaps(sp.pte, p, MeantGet(sp.free, count).0, count);
        } else {
          forall i: nat | i < count ensures BitsWithin(sp.pte[p + i].frame, RequestedFrame(sp.free, i)) {
            assert Untouched(sp.pte[p + i]);
          }
          PopulateIsSafe(sp.pte, sp.free, blocks, lo, p, count);
        }
      case PageFault(page, directoryPresent) =>
    }
  }

  /** Runs that release nothing and whose requests succeed, contiguous ones as they were meant, keep the
      mapping safe. */
  lemma {:induction false} RunsWithoutReleaseFit(
    sp: Space, blocks: nat, lo: nat, hi: nat, ops: seq<Operation>, sp': Space)
    requires SafeMapping(sp, blocks, lo, hi) && NothingStale(sp.pte) && Leads(sp, lo, hi, ops, sp')
    requires AllSucceed(sp, lo, hi, ops)
    requires forall i :: 0 <= i < |ops| ==> !ops[i].FreePages?
    ensures AllFit(sp, lo, hi, ops) && SafeMapping(sp', blocks, lo, hi)
    decreases |ops|
  {
    hide SafeMapping, Apply, Proper, Succeeds, FitsFrames;
    if ops != [] {
      NothingStaleFits(sp, blocks, lo, hi, ops[0]);
      OperationIsSafe(sp, blocks, lo, hi, ops[0]);
      RunsWithoutReleaseFit(Apply(sp, lo, hi, ops[0]), blocks, lo, hi, ops[1..], sp');
    }
  }

  // ----- The start -----

  /** The entries after boot: those of the managed range hold nothing, and those below it map frames
      below the memory that the frame allocator was given. */
  ghost predicate BootEntries(pte: seq<Pte>, lo: nat, memoryStart: nat)
  {
    && |pte| == ENTRIES
    && (forall q: nat :: q < ENTRIES && lo <= q * PAGE ==> pte[q] == Pte(0, false, false, false))
    && forall q: nat :: q < ENTRIES && q * PAGE < lo ==>
         if pte[q].present then pte[q].frame * PAGE < memoryStart else pte[q].frame == 0
  }

  /** The state after boot, with the whole managed range free. */
  lemma StartIsSafe(pte: seq<Pte>, free: FreeSet, blocks: nat, lo: nat, hi: nat, memoryStart: nat)
    requires WellFormed(free, blocks) && Coalesced(free) && BootEntries(pte, lo, memoryStart)
    requires forall f: nat :: FreeAt(free, f) ==> memoryStart <= f * PAGE
    requires KERNEL_VIRTUAL_ADDR <= lo < hi <= PAGE * ENTRIES && lo % PAGE == 0 && hi % PAGE == 0
    ensures SafeMapping(Space([Range(lo, hi - lo)], pte, free), blocks, lo, hi) && NothingStale(pte)
  {
    hide WellFormed, Coalesced, FreeAt;
  }

  // ----- Runs as the code is written -----

  /** In a safe state, releasing mapped pages goes as it was meant if and only if there is one of
      them and its frame does not complete a top-level block next to a free one. */
  lemma ReleaseMeetsIntentIff(sp: Space, blocks: nat, lo: nat, hi: nat, page: nat, count: nat)
    requires SafeMapping(sp, blocks, lo, hi) && Proper(sp, lo, hi, FreePages(page, count))
    ensures
      var r := UnmapFrom(sp.pte, sp.free, page * PAGE, 0, count);
      var sp' := Apply(sp, lo, hi, FreePages(page, count));
      r == Unmapping(sp'.pte, sp'.free, true) <==> count == 1 && NoTopPair(sp.free, sp.pte[page].frame)
  {
    hide Separated, WholePages, InRegion, WellFormed, Coalesced, Covers, FreeAt, FramesSafe, UnmapRange, UnmapFrom,
      Release, NoTopPair;
    assert page * PAGE / PAGE == page;
    UnmapMeetsIntentIff(sp.pte, sp.free, blocks, lo, page * PAGE, count);
  }

  /** One operation as written; false stands for a release that does not complete. */
  ghost function ApplyAsWritten(sp: Space, lo: nat, hi: nat, op: Operation): (Space, bool)
    requires Proper(sp, lo, hi, op)
  {
    match op
    case AllocatePages(count, true) =>
      var (base, ranges) := Allocate(sp.ranges, Bytes(count));
      var (frame, free) := Get(sp.free, count);
      (Space(ranges, PopulateRun(sp.pte, base / PAGE, frame, count), free), true)
    case FreePages(page, count) =>
      var r := UnmapFrom(sp.pte, sp.free, page * PAGE, 0, count);
      (Space(Release(sp.ranges, page * PAGE, count * PAGE), r.pte, r.free), r.completed)
    case _ => (Apply(sp, lo, hi, op), true)
  }

  /** A release of a single page that does not complete a top-level block next to a free one; an
      allocation that is not for twelve contiguous pages. */
  ghost predicate WorksAsWritten(sp: Space, lo: nat, hi: nat, op: Operation)
    requires Proper(sp, lo, hi, op)
  {
    match op
    case AllocatePages(count, contiguous) => !(contiguous && count == 12)
    case FreePages(page, count) => count == 1 && NoTopPair(sp.free, sp.pte[page].frame)
    case _ => true
  }

  lemma OperationMeetsIntentIff(sp: Space, blocks: nat, lo: nat, hi: nat, op: Operation)
    requires SafeMapping(sp, blocks, lo, hi) && Proper(sp, lo, hi, op) && Succeeds(sp, lo, hi, op)
    ensures ApplyAsWritten(sp, lo, hi, op) == (Apply(sp, lo, hi, op), true) <==> WorksAsWritten(sp, lo, hi, op)
  {
    hide Separated, WholePages, InRegion, WellFormed, Coalesced, Covers, Bytes, Allocate, FreeAt, FramesSafe, Get,
      MeantGet, PopulateRun, UnmapRange, UnmapFrom, Release, NoTopPair;
    match op {
      case FreePages(page, count) => ReleaseMeetsIntentIff(sp, blocks, lo, hi, page, count);
      case AllocatePages(count, contiguous) =>
        if contiguous {
          SameFrames(sp.free, count);
          if count == 12 { TwelveIsNotMeant(sp.free, blocks); } else { OthersAreMeant(sp.free, count); }
        }
      case _ =>
    }
  }

  /** The code as written completes every operation of the run and goes through the meant states. */
  ghost predicate FollowsAsWritten(sp: Space, lo: nat, hi: nat, ops: seq<Operation>)
    decreases |ops|
  {
    ops != [] && Proper(sp, lo, hi, ops[0]) ==>
      && ApplyAsWritten(sp, lo, hi, ops[0]) == (Apply(sp, lo, hi, ops[0]), true)
      && FollowsAsWritten(Apply(sp, lo, hi, ops[0]), lo, hi, ops[1..])
  }

  ghost predicate AllWorkAsWritten(sp: Space, lo: nat, hi: nat, ops: seq<Operation>)
    decreases |ops|
  {
    ops != [] && Proper(sp, lo, hi, ops[0]) ==>
      WorksAsWritten(sp, lo, hi, ops[0]) && AllWorkAsWritten(Apply(sp, lo, hi, ops[0]), lo, hi, ops[1..])
  }

  /** Over runs whose requests succeed and fit, the code as written goes through the states that were
      meant if and only if every release is of one page that does not complete a top-level block next
      to a free one, and no allocation is for twelve contiguous pages. */
  lemma {:induction false} WrittenRunsIff(sp: Space, blocks: nat, lo: nat, hi: nat, ops: seq<Operation>)
    requires SafeMapping(sp, blocks, lo, hi) && AllSucceed(sp, lo, hi, ops) && AllFit(sp, lo, hi, ops)
    ensures FollowsAsWritten(sp, lo, hi, ops) <==> AllWorkAsWritten(sp, lo, hi, ops)
    decreases |ops|
  {
    hide SafeMapping, Apply, ApplyAsWritten, Proper, Succeeds, FitsFrames, WorksAsWritten;
    if ops != [] && Proper(sp, lo, hi, ops[0]) {
      OperationIsSafe(sp, blocks, lo, hi, ops[0]);
      OperationMeetsIntentIff(sp, blocks, lo, hi, ops[0]);
      WrittenRunsIff(Apply(sp, lo, hi, ops[0]), blocks, lo, hi, ops[1..]);
    }
  }

  // ----- What a fill uses -----

  /** In a safe state, the frames that an operation fills entries with were free if and only if its
      requests for frames succeed. */
  lemma FillsFreeFramesIff(sp: Space, blocks: nat, lo: nat, hi: nat, op: Operation)
    requires SafeMapping(sp, blocks, lo, hi) && Proper(sp, lo, hi, op)
    requires op.AllocatePages? ==> Allocate(sp.ranges, Bytes(op.count)).0 != 0
    ensures UsesFreeFrames(sp, lo, hi, op) <==> Succeeds(sp, lo, hi, op)
  {
    hide Separated, WholePages, InRegion, WellFormed, Coalesced, Covers, Bytes, Allocate, FreeAt, FramesSafe, Get;
    match op {
      case AllocatePages(count, contiguous) =>
        if contiguous { RunWasFreeIff(sp.free, blocks, count); } else { SufficesIff(sp.free, blocks, count); }
      case PageFault(page, directoryPresent) =>
        RunWasFreeIff(sp.free, blocks, 1);
        var f := Get(sp.free, 1).0;
        assert forall g: nat :: InRun(g, f, 1) <==> g == f;
      case _ =>
    }
  }

  /** A contiguous allocation maps its i-th page to the i-th frame of a run of frames that were
      all free. */
  lemma ContiguousMapsConsecutive(sp: Space, blocks: nat, lo: nat, hi: nat, count: nat, i: nat)
    requires SafeMapping(sp, blocks, lo, hi) && Proper(sp, lo, hi, AllocatePages(count, true)) && i < count
    requires Succeeds(sp, lo, hi, AllocatePages(count, true))
    requires FitsFrames(sp, lo, hi, AllocatePages(count, true))
    ensures var e := Apply(sp, lo, hi, AllocatePages(count, true)).pte[Allocate(sp.ranges, Bytes(count)).0 / PAGE + i];
      var frame := Get(sp.free, count).0 + i;
      e.present && e.frame == frame && FreeAt(sp.free, frame)
  {
    hide Separated, WholePages, InRegion, WellFormed, Coalesced, Covers, Bytes, Allocate, FreeAt, Get, PopulateRun,
      FramesSafe;
    var (base, ranges) := Allocate(sp.ranges, Bytes(count));
    var (frame, free) := MeantGet(sp.free, count);
    TakePages(sp, blocks, lo, hi, count);
    GetRun(sp.free, blocks, count);
    PopulateRunMaps(sp.pte, base / PAGE, frame, count);
    RunFits(sp.pte, base / PAGE, frame, count);
    assert InRun(frame + i, frame, count);
  }

  lemma FirstFitExists(rs: seq<Range>, size: nat, lo: nat, hi: nat)
    requires InRegion(rs, lo, hi) && Allocate(rs, size).0 != 0
    ensures FirstFit(rs, size) < |rs| && Allocate(rs, size).0 + size <= hi
    ensures forall x: nat :: Allocate(rs, size).0 <= x < Allocate(rs, size).0 + size ==> Covers(rs, x)
  {
    var k := FirstFit(rs, size);
    RangeIsRun(rs, k, rs[k].start, size);
  }
}
