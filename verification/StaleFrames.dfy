/** What happens when a page is mapped again on top of the frame that its release left in its
    entry: a case on the page table, and a run of the virtual memory manager. */
module StaleFrames {
  import opened BuddyBlocks
  import opened BuddySplit
  import opened BuddyCoalesce
  import opened BuddyFrames
  import opened BuddyFree
  import opened MemDefs
  import opened MemoryMap
  import opened PmmInit
  import opened FreeRanges
  import opened PageTable
  import opened PageRelease
  import opened SpaceRuns

  // ----- Filling whatever the frames -----

  /** Filling the range is right for every state of the frame allocator that has frames enough. */
  ghost predicate AlwaysRight(pte: seq<Pte>, p: nat, count: nat)
    requires p + count <= |pte|
  {
    forall s: FreeSet, blocks: nat :: WellFormed(s, blocks) && Coalesced(s) && Suffices(s, count) ==>
      MapsRequested(Populate(pte, s, p, count).0, s, p, count)
  }

  /** That is so if and only if its entries hold no frame at all. */
  lemma AlwaysRightIff(pte: seq<Pte>, p: nat, count: nat)
    requires p + count <= |pte|
    ensures AlwaysRight(pte, p, count) <==> forall q: nat :: p <= q < p + count ==> pte[q].frame == 0
  {
    hide WellFormed, Coalesced, Populate, Suffices, MapsRequested, RequestedFrame, BitsWithin, Fits, Spread, Size;
    if forall q: nat :: p <= q < p + count ==> pte[q].frame == 0 {
      forall s: FreeSet ensures MapsRequested(Populate(pte, s, p, count).0, s, p, count) {
        EmptyFits(pte, s, p, count);
        PopulateIsRightIff(pte, s, p, count);
      }
    }
    if q: nat :| p <= q < p + count && pte[q].frame != 0 {
      var m := PowerAbove(pte[q].frame);
      var s := Spread(m, 0, count);
      SpreadIsWellFormed(m, count);
      SpreadSuffices(m, 0, count);
      SpreadRequest(m, 0, count, q - p);
      NoLowBits(pte[q].frame, m, q - p + 1);
      assert WellFormed(s, Nth(m, count));
      NotFits(pte, s, p, count, q - p);
      PopulateIsRightIff(pte, s, p, count);
    }
  }

  lemma EmptyFits(pte: seq<Pte>, s: FreeSet, p: nat, count: nat)
    requires p + count <= |pte| && forall q: nat :: p <= q < p + count ==> pte[q].frame == 0
    ensures Fits(pte, s, p, count)
  {
    forall i: nat | i < count ensures BitsWithin(pte[p + i].frame, RequestedFrame(s, i)) {
      assert pte[p + i].frame == 0;
    }
  }

  lemma NotFits(pte: seq<Pte>, s: FreeSet, p: nat, count: nat, i: nat)
    requires p + count <= |pte| && i < count && !BitsWithin(pte[p + i].frame, RequestedFrame(s, i))
    ensures !Fits(pte, s, p, count)
  {
  }

  /** A power of two, no less than 2, above x. */
  lemma {:induction false} PowerAbove(x: nat) returns (m: nat)
    ensures m > 0 && x < Size(m)
  {
    if x == 0 {
      m := 1;
    } else {
      m := PowerAbove(x / 2);
      m := m + 1;
    }
  }

  /** A multiple of 2^m has none of the bits of a smaller number. */
  lemma {:induction false} NoLowBits(x: nat, m: nat, c: nat)
    requires 0 < x < Size(m)
    ensures !BitsWithin(x, c * Size(m))
    decreases m
  {
    assert Size(m) == 2 * Size(m - 1);
    var half := c * Size(m - 1);
    assert c * Size(m) == 2 * half;
    if x % 2 == 0 { NoLowBits(x / 2, m - 1, c); }
  }

  function Nth(m: nat, i: nat): nat
  {
    (i + 1) * Size(m)
  }

  lemma NthGrows(m: nat, i: nat, j: nat)
    requires i < j
    ensures 0 < Nth(m, i) < Nth(m, j)
  {
    hide Size;
    assert Nth(m, j) == Nth(m, i) + (j - i) * Size(m);
    assert (j - i) * Size(m) > 0 && (i + 1) * Size(m) > 0;
  }

  /** The frames 2^m * (i + 1) for i from j up to n, each a free block of its own. */
  function Spread(m: nat, j: nat, n: nat): FreeSet
    decreases n - j
  {
    if j >= n then {} else {Block(0, Nth(m, j))} + Spread(m, j + 1, n)
  }

  lemma {:induction false} SpreadMember(m: nat, j: nat, n: nat, b: Block) returns (i: nat)
    requires b in Spread(m, j, n)
    ensures j <= i < n && b == Block(0, Nth(m, i))
    decreases n - j
  {
    hide Nth;
    if b == Block(0, Nth(m, j)) { i := j; } else { i := SpreadMember(m, j + 1, n, b); }
  }

  lemma SpreadIsWellFormed(m: nat, n: nat)
    requires m > 0
    ensures WellFormed(Spread(m, 0, n), Nth(m, n)) && Coalesced(Spread(m, 0, n))
  {
    var s, blocks := Spread(m, 0, n), Nth(m, n);
    hide Spread, Nth, WellFormed, Coalesced;
    forall b | b in s ensures b.level == 0 && 0 < b.index < 16 * blocks && b.index % 2 == 0 {
      var i := SpreadMember(m, 0, n, b);
      NthGrows(m, i, n);
      NthIsEven(m, i);
    }
    EvenFrames(s, blocks);
  }

  lemma EvenFrames(s: FreeSet, blocks: nat)
    requires forall b :: b in s ==> b.level == 0 && 0 < b.index < 16 * blocks && b.index % 2 == 0
    ensures WellFormed(s, blocks) && Coalesced(s)
  {
    hide Down, Up;
    SmallDown(blocks, TOP);
    forall b | b in s ensures Buddy(b).index == b.index + 1 && (b.index + 1) % 2 == 1 {
    }
  }

  lemma NthIsEven(m: nat, i: nat)
    requires m > 0
    ensures Nth(m, i) % 2 == 0
  {
    assert Size(m) == 2 * Size(m - 1);
    var half := (i + 1) * Size(m - 1);
    assert Nth(m, i) == 2 * half;
  }

  /** A request takes the lowest of them. */
  lemma SpreadStep(m: nat, j: nat, n: nat)
    requires j < n
    ensures Get(Spread(m, j, n), 1) == (Nth(m, j), Spread(m, j + 1, n)) && Nth(m, j) > 0
  {
    hide Nth, Size, Up;
    var f, rest := Nth(m, j), Spread(m, j + 1, n);
    var s := {Block(0, f)} + rest;
    assert s == Spread(m, j, n);
    hide Spread;
    NthGrows(m, j, n);
    forall b | b in rest ensures b.index > f {
      var i := SpreadMember(m, j + 1, n, b);
      NthGrows(m, j, i);
    }
    assert Block(0, f) in s && Lowest(s, 0) == f;
    assert s - {Block(0, f)} == rest;
    assert rest + Tail(f, 1) == rest;
  }

  lemma {:induction false} SpreadSuffices(m: nat, j: nat, n: nat)
    requires j <= n
    ensures Suffices(Spread(m, j, n), n - j)
    decreases n - j
  {
    hide Get, Spread, Nth;
    if j < n {
      SpreadStep(m, j, n);
      SpreadSuffices(m, j + 1, n);
    }
  }

  lemma {:induction false} SpreadRequest(m: nat, j: nat, n: nat, i: nat)
    requires j + i < n
    ensures RequestedFrame(Spread(m, j, n), i) == Nth(m, j + i)
    decreases i
  {
    hide Get, Spread, Nth;
    SpreadStep(m, j, n);
    if i > 0 { SpreadRequest(m, j + 1, n, i - 1); }
  }

  // ----- A page that is mapped again -----

  /** The states of the frame allocator in which only frames 4k + 1 to 4k + 3 are free, the last two
      of them, and the last one. */
  function Three(k: nat): FreeSet { {Block(0, 4 * k + 1), Block(1, 2 * k + 1)} }

  function Two(k: nat): FreeSet { {Block(1, 2 * k + 1)} }

  function One(k: nat): FreeSet { {Block(0, 4 * k + 3)} }

  /** Frames 4k + 1 to 4k + 3 are free. A page is mapped, to the first, and freed; another request takes
      that frame; the page is mapped again, to the second, on top of the first that is still in its
      entry. It ends up on the third, which is free: the next request hands it out to someone else. */
  lemma StaleFrameIsSharedOut(pte: seq<Pte>, p: nat, k: nat)
    requires p < |pte| && pte[p] == Pte(0, false, false, false)
    ensures
      var (mapped, s1) := Populate(pte, Three(k), p, 1);
      var freed := UnmapFrom(mapped, s1, p * PAGE, 0, 1);
      var (other, s2) := Get(freed.free, 1);
      var (again, s3) := Populate(freed.pte, s2, p, 1);
      && mapped[p].frame == 4 * k + 1 && freed.completed && freed.free == Three(k) && other == 4 * k + 1
      && RequestedFrame(s2, 0) == 4 * k + 2 && again[p].present && again[p].frame == 4 * k + 3
      && FreeAt(s3, 4 * k + 3) && Get(s3, 1).0 == 4 * k + 3
  {
    hide Get, Free, UnmapFrom, FreeAt, Or, Three, Two, One;
    ThreeFrames(k);
    OrSmall(k);
    var (mapped, s1) := Populate(pte, Three(k), p, 1);
    assert (mapped, s1) == (pte[p := MapTo(pte[p], 4 * k + 1)], Two(k));
    assert p * PAGE / PAGE == p;
    OneStep(mapped, s1, p * PAGE);
    var freed := UnmapFrom(mapped, s1, p * PAGE, 0, 1);
    var again := Populate(freed.pte, Two(k), p, 1).0;
    assert again == freed.pte[p := MapTo(freed.pte[p], 4 * k + 2)];
  }

  lemma OrSmall(k: nat)
    ensures Or(0, 4 * k + 1) == 4 * k + 1 && Or(4 * k + 1, 4 * k + 2) == 4 * k + 3
  {
    OrItself(k);
    assert Or(2 * k, 2 * k + 1) == 2 * k + 1 by { if k > 0 { assert (2 * k) / 2 == k && (2 * k + 1) / 2 == k; } }
    assert (4 * k + 1) / 2 == 2 * k && (4 * k + 2) / 2 == 2 * k + 1;
  }

  lemma {:induction false} OrItself(x: nat)
    ensures Or(x, x) == x
  {
    if x > 0 { OrItself(x / 2); }
  }

  /** What the frame allocator does with them. */
  lemma ThreeFrames(k: nat)
    ensures Get(Three(k), 1) == (4 * k + 1, Two(k))
    ensures Free(Two(k), 4 * k + 1, 1) == Outcome(Three(k), true)
    ensures Get(Two(k), 1) == (4 * k + 2, One(k))
    ensures Get(One(k), 1).0 == 4 * k + 3 && FreeAt(One(k), 4 * k + 3)
  {
    hide Free, Get, FreeAt;
    GetSingle(Three(k), 4 * k + 1);
    assert Three(k) - {Block(0, 4 * k + 1)} == Two(k);
    FreeOne(Two(k), 4 * k + 1);
    assert Buddy(Block(0, 4 * k + 1)) == Block(0, 4 * k) by { assert (4 * k + 1) % 2 == 1; }
    assert Two(k) + {Block(0, 4 * k + 1)} == Three(k);
    SplitPair(k);
    GetSingle(One(k), 4 * k + 3);
    SingleIsFree(One(k), 4 * k + 3);
  }

  lemma ThreeAreFree(k: nat, blocks: nat)
    requires 4 * k + 3 < 16 * blocks
    ensures WellFormed(Three(k), blocks) && Coalesced(Three(k))
    ensures forall f: nat :: FreeAt(Three(k), f) <==> 4 * k + 1 <= f <= 4 * k + 3
  {
    hide Down, Up, FreeAt;
    var s, first := Three(k), 4 * k + 1;
    SmallDown(blocks, 3); SmallDown(blocks, 4);
    forall f: nat, l: nat, m: nat | Block(l, Up(f, l)) in s && Block(m, Up(f, m)) in s ensures l == m {
      OneOfThree(k, f);
    }
    forall f: nat ensures FreeAt(s, f) <==> first <= f <= first + 2 {
      OneOfThree(k, f);
    }
    assert Sibling(first) == 4 * k && Sibling(2 * k + 1) == 2 * k by { OddSiblings(k); }
  }

  lemma OddSiblings(k: nat)
    ensures Sibling(4 * k + 1) == 4 * k && Sibling(2 * k + 1) == 2 * k
  {
  }

  lemma OneOfThree(k: nat, f: nat)
    ensures Up(f, 0) == 4 * k + 1 <==> f == 4 * k + 1
    ensures Up(f, 1) == 2 * k + 1 <==> 4 * k + 2 <= f <= 4 * k + 3
    ensures FreeAt(Three(k), f) <==> 4 * k + 1 <= f <= 4 * k + 3
  {
    hide Up;
    SmallUp(f, 0); SmallUp(f, 1);
    if f == 4 * k + 1 { assert Block(0, Up(f, 0)) in Three(k); }
    if 4 * k + 2 <= f <= 4 * k + 3 { assert Block(1, Up(f, 1)) in Three(k); }
  }

  /** Start-up leaves just these when usable memory ends three pages after the bootstrap memory. */
  lemma BootLeavesThree(k: nat, blocks: nat, free: FreeSet)
    requires 4 * k + 3 < 16 * blocks && (4 * k + 4) * PAGE < WORD
    requires Started(free, blocks, [Entry(0, (4 * k + 4) * PAGE, 1)], (4 * k + 1) * PAGE)
    ensures free == Three(k)
  {
    hide WellFormed, Coalesced, FreeAt, Three;
    var entries := [Entry(0, (4 * k + 4) * PAGE, 1)];
    ThreeAreFree(k, blocks);
    var first := 4 * k + 1;
    assert (first * PAGE + 0xfff) / PAGE == first;
    forall f: nat ensures Freed(entries, first, f) <==> first <= f <= first + 2 {
      OneEntryFreed(k, f);
    }
    assert FreeFrames(free) == FreeFrames(Three(k));
    CoalescedIsCanonical(free, Three(k), blocks);
  }

  lemma OneEntryFreed(k: nat, f: nat)
    requires (4 * k + 4) * PAGE < WORD
    ensures Freed([Entry(0, (4 * k + 4) * PAGE, 1)], 4 * k + 1, f) <==> 4 * k + 1 <= f <= 4 * k + 3
  {
    var e := Entry(0, (4 * k + 4) * PAGE, 1);
    PlainEnd(e);
    assert FirstEntry([e], 4 * k + 1) == 0;
    assert Step([e], 0, 4 * k + 1).0 == 1;
    assert !FreedFrom([e], 1, Step([e], 0, 4 * k + 1).1, f);
  }

  lemma SingleIsFree(s: FreeSet, f: nat)
    requires Block(0, f) in s
    ensures FreeAt(s, f)
  {
    assert Up(f, 0) == f;
  }

  lemma GetSingle(s: FreeSet, i: nat)
    requires Block(0, i) in s && forall j: nat :: Block(0, j) in s ==> j == i
    ensures Get(s, 1) == (i, s - {Block(0, i)})
  {
    assert Lowest(s, 0) == i;
    assert s - {Block(0, i)} + Tail(i, 1) == s - {Block(0, i)};
  }

  /** With a pair of frames free, a single frame is the first of them. */
  lemma SplitPair(k: nat)
    ensures Get(Two(k), 1) == (4 * k + 2, One(k))
  {
    hide Up, Down, Size;
    var s, first := Two(k), 4 * k + 2;
    assert !HasLevel(s, 0);
    assert Block(1, 2 * k + 1) in s && Lowest(s, 1) == 2 * k + 1;
    SmallDown(2 * k + 1, 1); SmallUp(first, 0); SmallSize(0); SmallUp(first + 1, 0);
    var nothing: FreeSet := {};
    assert s - {Block(1, 2 * k + 1)} == nothing;
    assert Take(s, 1) == (first, nothing);
    assert nothing - {Block(0, first)} + {Block(0, first + 1)} == One(k);
    assert Take(s, 0) == (first, One(k));
    assert One(k) + Tail(first, 1) == One(k);
  }

  // ----- A run that breaks the mapping -----

  /** The first page of the first range. */
  lemma AllocateOne(rs: seq<Range>)
    requires rs != [] && rs[0].size >= PAGE
    ensures Allocate(rs, Bytes(1)) ==
      (rs[0].start, if rs[0].size == PAGE then rs[1..] else rs[0 := Range(rs[0].start + PAGE, rs[0].size - PAGE)])
  {
    assert FirstFit(rs, PAGE) == 0;
    assert RemoveAt(rs, 0) == rs[1..];
  }

  lemma MapOne(sp: Space, lo: nat, hi: nat, f: nat, free: FreeSet)
    requires sp.ranges != [] && sp.ranges[0].size >= PAGE && 0 < sp.ranges[0].start < PAGE * |sp.pte|
    requires Get(sp.free, 1) == (f, free) && f > 0
    ensures var p := sp.ranges[0].start / PAGE;
      && Proper(sp, lo, hi, AllocatePages(1, false)) && Succeeds(sp, lo, hi, AllocatePages(1, false))
      && Apply(sp, lo, hi, AllocatePages(1, false)) ==
         Space(Allocate(sp.ranges, Bytes(1)).1, sp.pte[p := MapTo(sp.pte[p], f)], free)
  {
    hide Get, Allocate, Bytes, Or;
    AllocateOne(sp.ranges);
    assert Suffices(sp.free, 1);
    var p := sp.ranges[0].start / PAGE;
    assert Populate(sp.pte, sp.free, p, 1) == (sp.pte[p := MapTo(sp.pte[p], f)], free);
  }

  /** The last three operations of StaleFrameRun, from a state in which page p maps frame 4k + 1, the
      next page is reserved, and the two frames after that one are free. */
  lemma StaleFrameReused(s2: Space, blocks: nat, lo: nat, hi: nat, p: nat, k: nat) returns (s5: Space)
    requires |s2.ranges| == 1 && (p + 1) * PAGE < s2.ranges[0].start && p + 1 < |s2.pte| && 0 < p
    requires s2.pte[p] == Pte(4 * k + 1, true, true, false) && s2.pte[p + 1] == Pte(0, false, false, true)
    requires s2.free == Two(k) && lo <= p * PAGE && (p + 1) * PAGE <= hi
    ensures SucceedsAlong(s2, lo, hi, [FreePages(p, 1), PageFault(p + 1, true), AllocatePages(1, false)], s5)
    ensures !SafeMapping(s5, blocks, lo, hi)
  {
    hide Get, Free, Allocate, Bytes, Or, SafeMapping, Proper, Succeeds, Apply, FreeAt, Three, Two, One;
    ThreeFrames(k);
    OrSmall(k);
    ReleaseOne(s2, lo, hi, p, Three(k));
    var s3 := Apply(s2, lo, hi, FreePages(p, 1));
    FaultOne(s3, lo, hi, p + 1);
    var s4 := Apply(s3, lo, hi, PageFault(p + 1, true));
    assert s4.ranges[0] == Range(p * PAGE, PAGE) && s4.pte[p] == Pte(4 * k + 1, false, true, false);
    MapOne(s4, lo, hi, 4 * k + 2, One(k));
    s5 := Apply(s4, lo, hi, AllocatePages(1, false));
    MappedIsFree(s5, blocks, lo, hi, p);
    hide SucceedsAlong;
    AlongNothing(s5, lo, hi);
    AlongFirst(s4, lo, hi, AllocatePages(1, false), [], s5);
    AlongFirst(s3, lo, hi, PageFault(p + 1, true), [AllocatePages(1, false)], s5);
    AlongFirst(s2, lo, hi, FreePages(p, 1), [PageFault(p + 1, true), AllocatePages(1, false)], s5);
  }

  /** Five operations after boot, all of them successful: a page is mapped, another one reserved, and
      the first released. A fault on the second takes the frame of the first; when the first is mapped
      again, on top of what is left in its entry, it ends up on a frame that is free. The memory
      is one of which start-up leaves three frames free (see BootLeavesThree). */
  lemma StaleFrameRun(pte: seq<Pte>, blocks: nat, lo: nat, hi: nat, k: nat)
    requires KERNEL_VIRTUAL_ADDR <= lo && lo + 3 * PAGE <= hi <= PAGE * ENTRIES && lo % PAGE == 0 && hi % PAGE == 0
    requires 4 * k + 3 < 16 * blocks && BootEntries(pte, lo, (4 * k + 1) * PAGE)
    ensures var p := lo / PAGE; var sp := Space([Range(lo, hi - lo)], pte, Three(k));
      var ops := [AllocatePages(1, false), ReservePages(1), FreePages(p, 1), PageFault(p + 1, true),
                  AllocatePages(1, false)];
      && SafeMapping(sp, blocks, lo, hi)
      && exists sp' :: SucceedsAlong(sp, lo, hi, ops, sp') && !SafeMapping(sp', blocks, lo, hi)
  {
    hide Get, Free, Allocate, Bytes, Or, SafeMapping, Proper, Succeeds, Apply, WellFormed, Coalesced, FreeAt,
      SucceedsAlong, Three, Two, One;
    var p := lo / PAGE;
    ThreeFrames(k);
    ThreeAreFree(k, blocks);
    OrSmall(k);
    StartIsSafe(pte, Three(k), blocks, lo, hi, (4 * k + 1) * PAGE);
    var s0 := Space([Range(lo, hi - lo)], pte, Three(k));
    AllocateOne(s0.ranges);
    MapOne(s0, lo, hi, 4 * k + 1, Two(k));
    var s1 := Apply(s0, lo, hi, AllocatePages(1, false));
    AllocateOne(s1.ranges);
    ReserveOne(s1, lo, hi);
    var s2 := Apply(s1, lo, hi, ReservePages(1));
    var s5 := StaleFrameReused(s2, blocks, lo, hi, p, k);
    var last := [FreePages(p, 1), PageFault(p + 1, true), AllocatePages(1, false)];
    AlongFirst(s1, lo, hi, ReservePages(1), last, s5);
    AlongFirst(s0, lo, hi, AllocatePages(1, false), [ReservePages(1)] + last, s5);
    assert [AllocatePages(1, false)] + ([ReservePages(1)] + last) ==
      [AllocatePages(1, false), ReservePages(1), FreePages(p, 1), PageFault(p + 1, true), AllocatePages(1, false)];
  }

  /** The run leads from sp to sp', and all its requests succeed. */
  ghost predicate SucceedsAlong(sp: Space, lo: nat, hi: nat, ops: seq<Operation>, sp': Space)
  {
    Leads(sp, lo, hi, ops, sp') && AllSucceed(sp, lo, hi, ops)
  }

  lemma AlongNothing(sp: Space, lo: nat, hi: nat)
    ensures SucceedsAlong(sp, lo, hi, [], sp)
  {
  }

  lemma AlongFirst(sp: Space, lo: nat, hi: nat, op: Operation, ops: seq<Operation>, sp': Space)
    requires Proper(sp, lo, hi, op) && Succeeds(sp, lo, hi, op)
    requires SucceedsAlong(Apply(sp, lo, hi, op), lo, hi, ops, sp')
    ensures SucceedsAlong(sp, lo, hi, [op] + ops, sp')
  {
    hide Proper, Apply, Succeeds;
    assert ([op] + ops)[1..] == ops;
  }

  lemma ReserveOne(sp: Space, lo: nat, hi: nat)
    requires sp.ranges != [] && sp.ranges[0].size > PAGE && 0 < sp.ranges[0].start < PAGE * |sp.pte|
    ensures var p := sp.ranges[0].start / PAGE;
      && Proper(sp, lo, hi, ReservePages(1)) && Succeeds(sp, lo, hi, ReservePages(1))
      && Apply(sp, lo, hi, ReservePages(1)) ==
         Space(Allocate(sp.ranges, Bytes(1)).1, sp.pte[p := sp.pte[p].(reserved := true)], sp.free)
  {
    hide Allocate, Bytes;
    AllocateOne(sp.ranges);
    IndexInTable(sp.ranges[0].start, 0, |sp.pte|);
    hide ShiftedIndex;
  }

  /** Releasing a page below a single range, leaving a gap. */
  lemma ReleaseOne(sp: Space, lo: nat, hi: nat, page: nat, free: FreeSet)
    requires |sp.ranges| == 1 && (page + 1) * PAGE < sp.ranges[0].start && page < |sp.pte| && sp.pte[page].present
    requires lo <= page * PAGE && (page + 1) * PAGE <= hi
    requires Free(sp.free, sp.pte[page].frame, 1) == Outcome(free, true)
    ensures Proper(sp, lo, hi, FreePages(page, 1)) && Succeeds(sp, lo, hi, FreePages(page, 1))
    ensures Apply(sp, lo, hi, FreePages(page, 1)) ==
      Space([Range(page * PAGE, PAGE)] + sp.ranges, sp.pte[page := sp.pte[page].(present := false)], free)
  {
    hide Merge, Free;
    FreeOne(sp.free, sp.pte[page].frame);
    CodeMeetsIntentIff(sp.free, Block(0, sp.pte[page].frame));
  }

  lemma FaultOne(sp: Space, lo: nat, hi: nat, page: nat)
    requires page < |sp.pte| && sp.pte[page] == Pte(0, false, false, true) && Get(sp.free, 1).0 > 0
    ensures Proper(sp, lo, hi, PageFault(page, true)) && Succeeds(sp, lo, hi, PageFault(page, true))
    ensures var (f, free) := Get(sp.free, 1);
      Apply(sp, lo, hi, PageFault(page, true)) == sp.(pte := sp.pte[page := Pte(f, true, true, false)], free := free)
  {
    hide Get;
  }

  lemma MappedIsFree(sp: Space, blocks: nat, lo: nat, hi: nat, p: nat)
    requires p < |sp.pte| && sp.pte[p].present && FreeAt(sp.free, sp.pte[p].frame)
    ensures !SafeMapping(sp, blocks, lo, hi)
  {
    hide FreeAt, WellFormed, Coalesced, Separated, WholePages, InRegion, Covers;
  }
}
