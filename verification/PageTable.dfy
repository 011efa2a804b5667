/** The page table entries that vmm.c fills from the frame allocator, on values. */
module PageTable {
  import opened Basics
  import opened BuddyBlocks
  import opened BuddySplit
  import opened BuddyFrames
  import opened BuddyFree
  import opened MemDefs
  import FreeRanges

  const ENTRIES: nat := 0x100000

  /** An entry: bits 12 to 31, and bits 0, 1 and 8. */
  datatype Pte = Pte(frame: nat, present: bool, writable: bool, reserved: bool)

  /** Bitwise or. */
  function Or(x: nat, y: nat): nat
    decreases x + y
  {
    if x == 0 then y
    else if y == 0 then x
    else 2 * Or(x / 2, y / 2) + (if x % 2 == 1 || y % 2 == 1 then 1 else 0)
  }

  /** Every bit of x is a bit of y. */
  predicate BitsWithin(x: nat, y: nat)
  {
    x == 0 || ((x % 2 == 1 ==> y % 2 == 1) && BitsWithin(x / 2, y / 2))
  }

  lemma {:induction false} OrKeepsIff(x: nat, y: nat)
    ensures Or(x, y) == y <==> BitsWithin(x, y)
    decreases x + y
  {
    if x > 0 && y > 0 {
      OrKeepsIff(x / 2, y / 2);
    } else if x > 0 {
      NoBitsWithinZero(x);
    }
  }

  lemma {:induction false} OrCommutes(x: nat, y: nat)
    ensures Or(x, y) == Or(y, x)
    decreases x + y
  {
    if x > 0 && y > 0 {
      OrCommutes(x / 2, y / 2);
    }
  }

  lemma {:induction false} NoBitsWithinZero(x: nat)
    requires x > 0
    ensures !BitsWithin(x, 0)
  {
    if x > 1 {
      NoBitsWithinZero(x / 2);
    }
  }

  /** Putting a frame number and the present and writable bits on top of what the entry holds. */
  function MapTo(e: Pte, page: nat): Pte
  {
    Pte(Or(e.frame, page), true, true, e.reserved)
  }

  /** The handler's part for a reserved page. */
  function FaultIn(e: Pte, frame: nat): Pte
  {
    MapTo(e, frame).(reserved := false)
  }

  /** An entry, filled by an allocation or by a fault, gets the frame it is given if and only if the
      bits of the frame that was left in it are bits of the new one. */
  lemma RemapIsRightIff(e: Pte, page: nat)
    ensures MapTo(e, page).frame == page <==> BitsWithin(e.frame, page)
    ensures FaultIn(e, page).frame == page <==> BitsWithin(e.frame, page)
  {
    OrKeepsIff(e.frame, page);
  }

  // ----- Filling entries -----

  /** The loop of VMM_AllocatePages for pages that need not be contiguous: a frame for each. */
  ghost function Populate(pte: seq<Pte>, s: FreeSet, p: nat, count: nat): (r: (seq<Pte>, FreeSet))
    requires p + count <= |pte|
    ensures |r.0| == |pte|
    decreases count
  {
    if count == 0 then (pte, s)
    else
      var (f, t) := Get(s, 1);
      Populate(pte[p := MapTo(pte[p], f)], t, p + 1, count - 1)
  }

  /** The same loop for contiguous pages. */
  function PopulateRun(pte: seq<Pte>, p: nat, frame: nat, count: nat): (r: seq<Pte>)
    requires p + count <= |pte|
    ensures |r| == |pte|
    decreases count
  {
    if count == 0 then pte
    else PopulateRun(pte[p := MapTo(pte[p], frame)], p + 1, frame + 1, count - 1)
  }

  /** The index of page i of a range, as it is computed: C adds i to the width of the shift. */
  function ShiftedIndex(base: nat, i: nat): nat
  {
    Up(base, 12 + i)
  }

  /** The loop of VMM_ReservePages from step i on; false when a shift of 32 or more, which C
      does not define, is reached. */
  function ReserveFrom(pte: seq<Pte>, base: nat, i: nat, count: nat): (r: (seq<Pte>, bool))
    requires base < PAGE * |pte|
    ensures |r.0| == |pte|
    decreases count - i
  {
    if i >= count then (pte, true)
    else if 12 + i >= 32 then (pte, false)
    else
      IndexInTable(base, i, |pte|);
      var k := ShiftedIndex(base, i);
      ReserveFrom(pte[k := pte[k].(reserved := true)], base, i + 1, count)
  }

  lemma {:induction false} IndexInTable(base: nat, i: nat, n: nat)
    requires base < PAGE * n
    ensures ShiftedIndex(base, i) <= ShiftedIndex(base, 0) == base / PAGE < n
    ensures i > 0 ==> ShiftedIndex(base, i) <= base / PAGE / 2
    decreases i
  {
    if i > 0 {
      IndexInTable(base, i - 1, n);
      assert ShiftedIndex(base, i) == ShiftedIndex(base, i - 1) / 2;
    } else {
      PageIndex(base);
    }
  }

  lemma PageIndex(base: nat)
    ensures Up(base, 12) == base / PAGE
  {
    UpTwelve(base);
  }

  lemma UpTwelve(b: nat)
    ensures Up(b, 12) == b / 0x1000
  {
    assert Up(b, 4) == b / 16 by { SmallUp(b, 4); }
    assert Up(b / 16, 4) == b / 16 / 16 by { SmallUp(b / 16, 4); }
    assert Up(b / 16 / 16, 4) == b / 16 / 16 / 16 by { SmallUp(b / 16 / 16, 4); }
    UpTwice(b, 4, 4);
    UpTwice(b, 8, 4);
  }

  /** Shifting by i more bits is dividing by 2^i. */
  lemma {:induction false} UpDivides(f: nat, d: nat)
    ensures Up(f, d) == f / Size(d)
  {
    if d > 0 {
      UpDivides(f, d - 1);
      DivTwice(f, 2, Size(d - 1));
    }
  }

  lemma IndexIsQuotient(base: nat, i: nat)
    ensures ShiftedIndex(base, i) == base / 0x1000 / Size(i)
  {
    UpTwice(base, 12, i);
    PageIndex(base);
    UpDivides(base / 0x1000, i);
  }

  // ----- What reserving marks -----

  /** Entry q is one of those that VMM_ReservePages marks for a range of count pages. */
  ghost predicate Marked(base: nat, i: nat, count: nat, q: nat)
  {
    exists j: nat :: i <= j < count && ShiftedIndex(base, j) == q
  }

  lemma {:induction false} ReserveMarks(pte: seq<Pte>, base: nat, i: nat, count: nat)
    requires base < PAGE * |pte| && ReserveFrom(pte, base, i, count).1
    ensures forall q: nat :: q < |pte| ==>
      ReserveFrom(pte, base, i, count).0[q] == if Marked(base, i, count, q) then pte[q].(reserved := true) else pte[q]
    decreases count - i
  {
    hide ShiftedIndex;
    if i < count {
      IndexInTable(base, i, |pte|);
      var k := ShiftedIndex(base, i);
      ReserveMarks(pte[k := pte[k].(reserved := true)], base, i + 1, count);
      forall q: nat ensures Marked(base, i, count, q) <==> q == k || Marked(base, i + 1, count, q) {
        if Marked(base, i, count, q) {
          var j: nat :| i <= j < count && ShiftedIndex(base, j) == q;
        }
      }
    }
  }

  /** The entries marked are those whose numbers are the page's, halved again and again, once for each
      page of the range. */
  lemma ReservedEntriesIff(pte: seq<Pte>, base: nat, count: nat, q: nat)
    requires base < PAGE * |pte| && q < |pte| && ReserveFrom(pte, base, 0, count).1
    ensures ReserveFrom(pte, base, 0, count).0[q] ==
      if exists i: nat :: i < count && q == base / 0x1000 / Size(i) then pte[q].(reserved := true) else pte[q]
  {
    hide ShiftedIndex, ReserveFrom, Size;
    ReserveMarks(pte, base, 0, count);
    MarkedIff(base, count, q);
  }

  lemma MarkedIff(base: nat, count: nat, q: nat)
    ensures Marked(base, 0, count, q) <==> exists i: nat :: i < count && q == base / 0x1000 / Size(i)
  {
    hide ShiftedIndex, Size;
    if Marked(base, 0, count, q) {
      var i: nat :| i < count && ShiftedIndex(base, i) == q;
      IndexIsQuotient(base, i);
    }
    if i: nat :| i < count && q == base / 0x1000 / Size(i) {
      IndexIsQuotient(base, i);
      assert ShiftedIndex(base, i) == q;
    }
  }

  /** VMM_ReservePages reserves its whole range of pages, none of them reserved before, if and
      only if the range is a single page: the shift leaves every later page out. */
  lemma ReservesRangeIff(pte: seq<Pte>, base: nat, count: nat)
    requires base % PAGE == 0 && base / PAGE + count <= |pte| && 0 < count
    requires ReserveFrom(pte, base, 0, count).1
    requires forall q: nat :: base / PAGE <= q < base / PAGE + count ==> !pte[q].reserved
    ensures (forall q: nat :: base / PAGE <= q < base / PAGE + count ==> ReserveFrom(pte, base, 0, count).0[q].reserved)
            <==> count == 1
  {
    hide ShiftedIndex;
    var p := base / PAGE;
    ReserveMarks(pte, base, 0, count);
    IndexInTable(base, 0, |pte|);
    assert Marked(base, 0, count, p);
    if count > 1 {
      forall j: nat ensures ShiftedIndex(base, j) != p + 1 {
        IndexInTable(base, j, |pte|);
      }
      assert !Marked(base, 0, count, p + 1);
    }
  }

  lemma {:induction false} ReservesZero(pte: seq<Pte>, i: nat, count: nat)
    requires |pte| > 0
    ensures ReserveFrom(pte, 0, i, count).0 == if i < count && i < 20 then pte[0 := pte[0].(reserved := true)] else pte
    decreases count - i
  {
    hide ShiftedIndex;
    if i < count && i < 20 {
      IndexInTable(0, i, |pte|);
      ReservesZero(pte[0 := pte[0].(reserved := true)], i + 1, count);
    }
  }

  /** When VMM_ReservePages finds no range the address is 0, and the entry of page 0 is marked: a fault
      on page 0 is then mapped to a frame instead of halting. Nothing changes exactly if that entry
      was marked before. */
  lemma FailedReservationIsHarmlessIff(ranges: seq<FreeRanges.Range>, pte: seq<Pte>, count: nat)
    requires FreeRanges.Allocate(ranges, FreeRanges.Bytes(count)).0 == 0 && 0 < count && |pte| > 0
    ensures var r := ReserveFrom(pte, FreeRanges.Allocate(ranges, FreeRanges.Bytes(count)).0, 0, count).0;
      && r == pte[0 := pte[0].(reserved := true)]
      && (r == pte <==> pte[0].reserved)
  {
    hide FreeRanges.Allocate, ReserveFrom;
    ReservesZero(pte, 0, count);
  }

  // ----- Safety of the mapping -----

  /** No other entry maps the frame of a present entry of the managed range, which starts at lo. */
  ghost predicate OneMapping(pte: seq<Pte>, lo: nat)
  {
    forall p: nat, q: nat :: p < |pte| && q < |pte| && p != q && lo <= p * PAGE ==>
      pte[p].present && pte[q].present ==> pte[p].frame != pte[q].frame
  }

  /** No mapped frame is free, no frame is mapped twice, and outside the managed range an entry
      that is not present holds no frame (inside it, the frame of a freed page may be left). */
  ghost predicate FramesSafe(pte: seq<Pte>, s: FreeSet, lo: nat)
  {
    && (forall q: nat :: q < |pte| && pte[q].present ==> !FreeAt(s, pte[q].frame))
    && (forall q: nat :: q < |pte| && q * PAGE < lo && !pte[q].present ==> pte[q].frame == 0)
    && OneMapping(pte, lo)
  }

  /** No entry that is not present has a frame left in it. */
  ghost predicate NothingStale(pte: seq<Pte>)
  {
    forall q: nat :: q < |pte| && !pte[q].present ==> pte[q].frame == 0
  }

  /** A present entry of the managed range is not reserved and maps a frame of the memory, other
      than frame 0. */
  ghost predicate ManagedFrames(pte: seq<Pte>, blocks: nat, lo: nat)
  {
    forall q: nat :: q < |pte| && lo <= q * PAGE && pte[q].present ==>
      !pte[q].reserved && InManagedMemory(pte[q].frame, blocks)
  }

  predicate InManagedMemory(f: nat, blocks: nat)
  {
    0 < f < 16 * blocks
  }

  datatype Space = Space(ranges: seq<FreeRanges.Range>, pte: seq<Pte>, free: FreeSet)

  /** The page-table entries against the frame allocator and the free list; the pages of the free
      list are neither present nor reserved. */
  ghost predicate SafeMapping(sp: Space, blocks: nat, lo: nat, hi: nat)
  {
    && WellFormed(sp.free, blocks) && Coalesced(sp.free) && |sp.pte| == ENTRIES
    && FreeRanges.Separated(sp.ranges) && FreeRanges.WholePages(sp.ranges) && FreeRanges.InRegion(sp.ranges, lo, hi)
    && KERNEL_VIRTUAL_ADDR <= lo <= hi <= PAGE * ENTRIES
    && FramesSafe(sp.pte, sp.free, lo) && ManagedFrames(sp.pte, blocks, lo)
    && (forall q: nat :: q < ENTRIES && FreeRanges.Covers(sp.ranges, q * PAGE) ==> Untouched(sp.pte[q]))
  }

  predicate Untouched(e: Pte)
  {
    !e.present && !e.reserved
  }

  /** Mapping a frame that was free, and is free no more, at an entry that was not present. */
  lemma MapFresh(pte: seq<Pte>, s: FreeSet, t: FreeSet, lo: nat, q: nat, e: Pte)
    requires FramesSafe(pte, s, lo) && q < |pte| && !pte[q].present
    requires FreeAt(s, e.frame) && !FreeAt(t, e.frame) && forall g: nat :: FreeAt(t, g) ==> FreeAt(s, g)
    requires e.present
    ensures FramesSafe(pte[q := e], t, lo)
  {
    hide FreeAt;
  }

  /** A free frame lies in the memory and is not frame 0. */
  lemma FreeInMemory(s: FreeSet, blocks: nat, f: nat)
    requires WellFormed(s, blocks) && FreeAt(s, f)
    ensures InManagedMemory(f, blocks)
  {
    hide Up, Down;
    var l: nat :| l <= TOP && Block(l, Up(f, l)) in s;
    SmallUp(f, l); SmallDown(blocks, TOP - l);
  }

  lemma GetOne(s: FreeSet, blocks: nat)
    requires WellFormed(s, blocks) && Coalesced(s) && Get(s, 1).0 != 0
    ensures var (f, t) := Get(s, 1);
      && WellFormed(t, blocks) && Coalesced(t) && FreeAt(s, f) && !FreeAt(t, f)
      && forall g: nat :: FreeAt(t, g) ==> FreeAt(s, g)
  {
    hide WellFormed, Coalesced, FreeAt, Get, InMemory;
    GetIsExact(s, blocks, 1);
    assert InRun(Get(s, 1).0, Get(s, 1).0, 1);
    SmallSize(0);
  }

  /** Every one of count single-frame requests in a row succeeds. */
  ghost predicate Suffices(s: FreeSet, count: nat)
    decreases count
  {
    count == 0 || (Get(s, 1).0 != 0 && Suffices(Get(s, 1).1, count - 1))
  }

  /** The frame that the i-th of several single-frame requests returns. */
  ghost function RequestedFrame(s: FreeSet, i: nat): nat
    decreases i
  {
    if i == 0 then Get(s, 1).0 else RequestedFrame(Get(s, 1).1, i - 1)
  }

  /** Filling puts the requested frames on top of what the entries hold, one after the other. */
  lemma {:induction false} PopulateMaps(pte: seq<Pte>, s: FreeSet, p: nat, count: nat)
    requires p + count <= |pte|
    ensures var u := Populate(pte, s, p, count).0;
      && (forall q: nat :: q < |pte| && !(p <= q < p + count) ==> u[q] == pte[q])
      && (forall i: nat :: i < count ==> u[p + i] == MapTo(pte[p + i], RequestedFrame(s, i)))
    decreases count
  {
    hide Get, MapTo;
    if count > 0 {
      var (f, t) := Get(s, 1);
      var next := pte[p := MapTo(pte[p], f)];
      PopulateMaps(next, t, p + 1, count - 1);
      var u := Populate(next, t, p + 1, count - 1).0;
      forall i: nat | i < count ensures u[p + i] == MapTo(pte[p + i], RequestedFrame(s, i)) {
        if i > 0 { assert u[p + 1 + (i - 1)] == MapTo(next[p + 1 + (i - 1)], RequestedFrame(t, i - 1)); }
      }
    }
  }

  /** What the entries of a range still hold goes into the frames they are to be filled with. */
  ghost predicate Fits(pte: seq<Pte>, s: FreeSet, p: nat, count: nat)
    requires p + count <= |pte|
  {
    forall i: nat :: i < count ==> BitsWithin(pte[p + i].frame, RequestedFrame(s, i))
  }

  predicate FitsRun(pte: seq<Pte>, p: nat, frame: nat, count: nat)
    requires p + count <= |pte|
  {
    forall q: nat :: p <= q < p + count ==> BitsWithin(pte[q].frame, frame + q - p)
  }

  /** Every page of the range maps the frame that was requested for it. */
  ghost predicate MapsRequested(pte: seq<Pte>, s: FreeSet, p: nat, count: nat)
    requires p + count <= |pte|
  {
    forall i: nat :: i < count ==> pte[p + i].frame == RequestedFrame(s, i)
  }

  /** Filling does that if and only if the bits of the frames left in the entries, which no one
      cleared, are bits of the requested ones. */
  lemma PopulateIsRightIff(pte: seq<Pte>, s: FreeSet, p: nat, count: nat)
    requires p + count <= |pte|
    ensures MapsRequested(Populate(pte, s, p, count).0, s, p, count) <==> Fits(pte, s, p, count)
  {
    hide Populate, RequestedFrame, Or, BitsWithin;
    PopulateMaps(pte, s, p, count);
    var u := Populate(pte, s, p, count).0;
    forall i: nat | i < count
      ensures u[p + i].frame == RequestedFrame(s, i) <==> BitsWithin(pte[p + i].frame, RequestedFrame(s, i))
    {
      assert u[p + i] == MapTo(pte[p + i], RequestedFrame(s, i));
      RemapIsRightIff(pte[p + i], RequestedFrame(s, i));
    }
  }

  /** Filling entries one frame at a time, when what they still hold fits. */
  lemma {:induction false} PopulateIsSafe(pte: seq<Pte>, s: FreeSet, blocks: nat, lo: nat, p: nat, count: nat)
    requires WellFormed(s, blocks) && Coalesced(s) && FramesSafe(pte, s, lo)
    requires p + count <= |pte| && Suffices(s, count) && Fits(pte, s, p, count)
    requires forall q: nat :: p <= q < p + count ==> !pte[q].present
    ensures var (u, t) := Populate(pte, s, p, count);
      && |u| == |pte| && WellFormed(t, blocks) && Coalesced(t) && FramesSafe(u, t, lo)
      && (forall q: nat :: q < |pte| && !(p <= q < p + count) ==> u[q] == pte[q])
      && (forall q: nat :: p <= q < p + count ==>
           u[q].present && u[q].reserved == pte[q].reserved && FreeAt(s, u[q].frame))
    decreases count
  {
    hide WellFormed, Coalesced, FreeAt, Get, FramesSafe, Or, BitsWithin;
    if count > 0 {
      var (f, t) := Get(s, 1);
      GetOne(s, blocks);
      assert BitsWithin(pte[p + 0].frame, RequestedFrame(s, 0));
      RemapIsRightIff(pte[p], f);
      MapFresh(pte, s, t, lo, p, MapTo(pte[p], f));
      var next := pte[p := MapTo(pte[p], f)];
      forall i: nat | i < count - 1 ensures BitsWithin(next[p + 1 + i].frame, RequestedFrame(t, i)) {
        assert BitsWithin(pte[p + (i + 1)].frame, RequestedFrame(s, i + 1));
      }
      PopulateIsSafe(next, t, blocks, lo, p + 1, count - 1);
      var u := Populate(next, t, p + 1, count - 1).0;
      assert u[p] == next[p] && u[p].frame == f;
    }
  }

  /** Contiguous filling puts consecutive frames on top of what the entries hold. */
  lemma {:induction false} PopulateRunMaps(pte: seq<Pte>, p: nat, frame: nat, count: nat)
    requires p + count <= |pte|
    ensures var u := PopulateRun(pte, p, frame, count);
      && |u| == |pte|
      && forall q: nat :: q < |pte| ==>
           u[q] == if p <= q < p + count then MapTo(pte[q], frame + q - p) else pte[q]
    decreases count
  {
    hide MapTo;
    if count > 0 {
      PopulateRunMaps(pte[p := MapTo(pte[p], frame)], p + 1, frame + 1, count - 1);
    }
  }

  /** Where what they hold fits, the entries map the consecutive frames. */
  lemma RunFits(pte: seq<Pte>, p: nat, frame: nat, count: nat)
    requires p + count <= |pte| && FitsRun(pte, p, frame, count)
    ensures forall q: nat :: p <= q < p + count ==>
      MapTo(pte[q], frame + q - p) == Pte(frame + q - p, true, true, pte[q].reserved)
  {
    hide Or, BitsWithin;
    forall q: nat | p <= q < p + count
      ensures MapTo(pte[q], frame + q - p) == Pte(frame + q - p, true, true, pte[q].reserved)
    {
      RemapIsRightIff(pte[q], frame + q - p);
    }
  }

  lemma RunIsSafe(pte: seq<Pte>, s: FreeSet, t: FreeSet, lo: nat, p: nat, frame: nat, count: nat)
    requires FramesSafe(pte, s, lo) && p + count <= |pte| && FitsRun(pte, p, frame, count)
    requires forall q: nat :: p <= q < p + count ==> !pte[q].present
    requires forall f: nat :: InRun(f, frame, count) ==> FreeAt(s, f) && !FreeAt(t, f)
    requires forall f: nat :: FreeAt(t, f) ==> FreeAt(s, f)
    ensures FramesSafe(PopulateRun(pte, p, frame, count), t, lo)
  {
    hide FreeAt, PopulateRun, MapTo, FitsRun;
    PopulateRunMaps(pte, p, frame, count);
    RunFits(pte, p, frame, count);
    var u := PopulateRun(pte, p, frame, count);
    forall q: nat | p <= q < p + count ensures InRun(u[q].frame, frame, count) {
    }
  }

  // ----- A request without frames -----

  /** What single-frame requests in a row return is free, for each of them, if and only if all of them
      succeed; nobody looks at the frame number, so a failed one maps frame 0. */
  lemma {:induction false} SufficesIff(s: FreeSet, blocks: nat, count: nat)
    requires WellFormed(s, blocks) && Coalesced(s)
    ensures Suffices(s, count) <==> AllRequestedFree(s, s, count)
  {
    hide WellFormed, Coalesced, FreeAt, Get;
    if Suffices(s, count) {
      SufficesFree(s, s, blocks, count);
    } else {
      var i := FailedRequest(s, count);
      if FreeAt(s, 0) { FreeInMemory(s, blocks, 0); }
    }
  }

  /** The frames that count single-frame requests to s return are free in t. */
  ghost predicate AllRequestedFree(t: FreeSet, s: FreeSet, count: nat)
  {
    forall i: nat :: i < count ==> FreeAt(t, RequestedFrame(s, i))
  }

  lemma {:induction false} SufficesFree(t: FreeSet, s: FreeSet, blocks: nat, count: nat)
    requires WellFormed(s, blocks) && Coalesced(s) && Suffices(s, count)
    requires forall g: nat :: FreeAt(s, g) ==> FreeAt(t, g)
    ensures AllRequestedFree(t, s, count)
    decreases count
  {
    hide WellFormed, Coalesced, FreeAt, Get;
    if count > 0 {
      GetOne(s, blocks);
      var u := Get(s, 1).1;
      SufficesFree(t, u, blocks, count - 1);
      forall i: nat | i < count ensures FreeAt(t, RequestedFrame(s, i)) {
        if i > 0 { assert FreeAt(t, RequestedFrame(u, i - 1)); }
      }
    }
  }

  lemma {:induction false} FailedRequest(s: FreeSet, count: nat) returns (i: nat)
    requires !Suffices(s, count)
    ensures i < count && RequestedFrame(s, i) == 0
    decreases count
  {
    hide Get;
    if Get(s, 1).0 == 0 {
      i := 0;
    } else {
      var j := FailedRequest(Get(s, 1).1, count - 1);
      i := j + 1;
    }
  }

  /** Of the frames that a contiguous request is filled with, all were free if and only if it
      succeeded. */
  lemma RunWasFreeIff(s: FreeSet, blocks: nat, count: nat)
    requires WellFormed(s, blocks) && Coalesced(s) && 0 < count
    ensures Get(s, count).0 != 0 <==> forall f: nat :: InRun(f, Get(s, count).0, count) ==> FreeAt(s, f)
  {
    hide WellFormed, Coalesced, FreeAt, InMemory, Get, MeantGet;
    var a := Get(s, count).0;
    if a != 0 {
      SameFrames(s, count);
      MeantGetIsExact(s, blocks, count);
      SmallSize(LevelFor(count));
    } else {
      assert InRun(0, 0, count);
      if FreeAt(s, 0) { FreeInMemory(s, blocks, 0); }
    }
  }

  /** As written and as meant, a request returns the same frame. */
  lemma SameFrames(s: FreeSet, count: nat)
    ensures Get(s, count).0 == MeantGet(s, count).0 && (Get(s, count).0 != 0 ==> count <= 16)
  {
  }

  /** Only frame 3 is free. A request for five contiguous frames fails, and the pages are mapped to
      frames 0 to 4 all the same: the fourth of them to frame 3, which is still free. */
  lemma FailedFillMapsAFreeFrame(pte: seq<Pte>, p: nat)
    requires p + 5 <= |pte| && forall q: nat :: p <= q < p + 5 ==> pte[q].frame == 0
    ensures var s := {Block(0, 3)};
      var (frame, t) := Get(s, 5);
      var u := PopulateRun(pte, p, frame, 5);
      && frame == 0 && u[p + 3].present && u[p + 3].frame == 3 && FreeAt(t, 3)
  {
    hide PopulateRun;
    var s: FreeSet := {Block(0, 3)};
    assert Block(0, 3) in s;
    assert Take(s, 5) == (0, s) && Take(s, 4) == (0, s) && Take(s, 3) == (0, s);
    var t := Get(s, 5).1;
    assert Up(3, 0) == 3;
    assert Block(0, Up(3, 0)) in t;
    PopulateRunMaps(pte, p, 0, 5);
  }

  // ----- An allocation without pages -----

  /** When no range is found the address is 0, and the code fills the first entries of the table.
      That changes nothing exactly if they are present and writable already and the bits of the
      requested frames are bits of the frames they hold; so it is for contiguous pages. */
  lemma FailedAllocationIsHarmlessIff(ranges: seq<FreeRanges.Range>, pte: seq<Pte>, s: FreeSet, frame: nat, count: nat)
    requires FreeRanges.Allocate(ranges, FreeRanges.Bytes(count)).0 == 0 && count <= |pte|
    ensures Populate(pte, s, FreeRanges.Allocate(ranges, FreeRanges.Bytes(count)).0 / PAGE, count).0 == pte <==>
            forall i: nat :: i < count ==>
              pte[i].present && pte[i].writable && BitsWithin(RequestedFrame(s, i), pte[i].frame)
    ensures PopulateRun(pte, FreeRanges.Allocate(ranges, FreeRanges.Bytes(count)).0 / PAGE, frame, count) == pte <==>
            forall i: nat :: i < count ==> pte[i].present && pte[i].writable && BitsWithin(frame + i, pte[i].frame)
  {
    hide FreeRanges.Allocate, Populate, PopulateRun, RequestedFrame, BitsWithin, Or;
    PopulateMaps(pte, s, 0, count);
    PopulateRunMaps(pte, 0, frame, count);
    var run := PopulateRun(pte, 0, frame, count);
    forall i: nat | i < count
      ensures run[i] == pte[i] <==> pte[i].present && pte[i].writable && BitsWithin(frame + i, pte[i].frame)
    {
      OrCommutes(pte[i].frame, frame + i);
      OrKeepsIff(frame + i, pte[i].frame);
    }
    if forall i: nat :: i < count ==> run[i] == pte[i] { assert run == pte; }
    var u := Populate(pte, s, 0, count).0;
    forall i: nat | i < count
      ensures u[i] == pte[i] <==> pte[i].present && pte[i].writable && BitsWithin(RequestedFrame(s, i), pte[i].frame)
    {
      assert u[0 + i] == MapTo(pte[0 + i], RequestedFrame(s, i));
      OrCommutes(pte[i].frame, RequestedFrame(s, i));
      OrKeepsIff(RequestedFrame(s, i), pte[i].frame);
    }
    if forall i: nat :: i < count ==> u[i] == pte[i] { assert u == pte; }
  }
}
