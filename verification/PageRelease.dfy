/** The end of VMM_FreePages on values: taking pages out of the page table and giving their frames
    back to the frame allocator. */
module PageRelease {
  import opened BuddyBlocks
  import opened BuddySplit
  import opened BuddyCoalesce
  import opened BuddyFrames
  import opened BuddyFree
  import opened BuddyRoundTrip
  import opened MemDefs
  import opened PageTable

  // ----- Taking pages out again -----

  datatype Unmapping = Unmapping(pte: seq<Pte>, free: FreeSet, completed: bool)

  /** The loop at the end of VMM_FreePages from step i on: clear the present bit, give back the
      frame of the same entry. It does not complete when a shift is undefined or when the frame
      allocator runs into level 5. The frame stays in the entry. */
  ghost function UnmapFrom(pte: seq<Pte>, s: FreeSet, base: nat, i: nat, count: nat): (r: Unmapping)
    requires base < PAGE * |pte|
    ensures |r.pte| == |pte|
    decreases count - i
  {
    if i >= count then Unmapping(pte, s, true)
    else if 12 + i >= 32 then Unmapping(pte, s, false)
    else
      IndexInTable(base, i, |pte|);
      var k := ShiftedIndex(base, i);
      var cleared := pte[k := pte[k].(present := false)];
      var o := Free(s, pte[k].frame, 1);
      if o.inBounds then UnmapFrom(cleared, o.state, base, i + 1, count) else Unmapping(cleared, o.state, false)
  }

  lemma {:induction false} UnmapClears(pte: seq<Pte>, s: FreeSet, base: nat, i: nat, count: nat)
    requires base < PAGE * |pte| && UnmapFrom(pte, s, base, i, count).completed
    ensures forall q: nat :: q < |pte| ==>
      UnmapFrom(pte, s, base, i, count).pte[q] ==
      if Marked(base, i, count, q) then pte[q].(present := false) else pte[q]
    decreases count - i
  {
    hide ShiftedIndex, Free;
    if i < count {
      IndexInTable(base, i, |pte|);
      var k := ShiftedIndex(base, i);
      var o := Free(s, pte[k].frame, 1);
      UnmapClears(pte[k := pte[k].(present := false)], o.state, base, i + 1, count);
      forall q: nat ensures Marked(base, i, count, q) <==> q == k || Marked(base, i + 1, count, q) {
        if Marked(base, i, count, q) {
          var j: nat :| i <= j < count && ShiftedIndex(base, j) == q;
        }
      }
    }
  }

  /** The entries cleared are those whose numbers are the page's, halved again and again. */
  lemma UnmappedEntriesIff(pte: seq<Pte>, s: FreeSet, base: nat, count: nat, q: nat)
    requires base < PAGE * |pte| && q < |pte| && UnmapFrom(pte, s, base, 0, count).completed
    ensures UnmapFrom(pte, s, base, 0, count).pte[q] ==
      if exists i: nat :: i < count && q == base / 0x1000 / Size(i) then pte[q].(present := false) else pte[q]
  {
    hide ShiftedIndex, UnmapFrom, Size;
    UnmapClears(pte, s, base, 0, count);
    MarkedIff(base, count, q);
  }

  /** VMM_FreePages unmaps its whole range of pages, all of them mapped before, if and only if the
      range is a single page; the others stay mapped although the list says they are free. */
  lemma UnmapsRangeIff(pte: seq<Pte>, s: FreeSet, base: nat, count: nat)
    requires base % PAGE == 0 && base / PAGE + count <= |pte| && 0 < count
    requires UnmapFrom(pte, s, base, 0, count).completed
    requires forall q: nat :: base / PAGE <= q < base / PAGE + count ==> pte[q].present
    ensures
      (forall q: nat :: base / PAGE <= q < base / PAGE + count ==>
        !UnmapFrom(pte, s, base, 0, count).pte[q].present)
      <==> count == 1
  {
    hide ShiftedIndex, Free;
    var p := base / PAGE;
    UnmapClears(pte, s, base, 0, count);
    IndexInTable(base, 0, |pte|);
    assert Marked(base, 0, count, p);
    if count > 1 {
      forall j: nat ensures ShiftedIndex(base, j) != p + 1 {
        IndexInTable(base, j, |pte|);
      }
      assert !Marked(base, 0, count, p + 1);
    }
  }

  // ----- Which frames are given back -----

  /** Frame f is mapped by a page of the range. */
  ghost predicate HoldsFrame(pte: seq<Pte>, p: nat, count: nat, f: nat)
  {
    exists q: nat :: p <= q < p + count && q < |pte| && pte[q].present && pte[q].frame == f
  }

  lemma FreeOne(s: FreeSet, f: nat)
    ensures Free(s, f, 1) == FreeAndCoalesce(s, Block(0, f))
    ensures Merge(s, f, 1) == Coalesce(s, Block(0, f))
  {
    hide FreeAndCoalesce, Coalesce;
    assert Up(f, 0) == f;
    BitsStep(s, f, 1, 4); BitsStep(s, f, 1, 3); BitsStep(s, f, 1, 2); BitsStep(s, f, 1, 1);
    SmallSize(0); SmallSize(1); SmallSize(2); SmallSize(3);
    hide Up, Size;
    NoBits(FreeAndCoalesce(s, Block(0, f)).state, f + 1, 0);
    NoBits(Coalesce(s, Block(0, f)), f + 1, 0);
  }

  /** Freeing a frame, whatever the state, makes it free and no free frame used. */
  lemma FreeOneCovers(s: FreeSet, f: nat, g: nat)
    requires Free(s, f, 1).inBounds && (FreeAt(s, g) || g == f)
    ensures FreeAt(Free(s, f, 1).state, g)
  {
    hide Free, FreeAndCoalesce, Coalesce, FreeAt;
    FreeOne(s, f);
    CodeMeetsIntentIff(s, Block(0, f));
    assert Up(g, 0) == g;
    CoalesceCovers(s, Block(0, f), g);
  }

  lemma {:induction false} UnmapCovers(pte: seq<Pte>, s: FreeSet, base: nat, i: nat, count: nat, g: nat)
    requires base < PAGE * |pte| && UnmapFrom(pte, s, base, i, count).completed && FreeAt(s, g)
    ensures FreeAt(UnmapFrom(pte, s, base, i, count).free, g)
    decreases count - i
  {
    hide ShiftedIndex, Free, FreeAt;
    if i < count {
      IndexInTable(base, i, |pte|);
      var k := ShiftedIndex(base, i);
      FreeOneCovers(s, pte[k].frame, g);
      UnmapCovers(pte[k := pte[k].(present := false)], Free(s, pte[k].frame, 1).state, base, i + 1, count, g);
    }
  }

  /** The second step of the loop gives back the frame of an entry in the lower half of the address
      space. */
  lemma SecondStepFrees(pte: seq<Pte>, s: FreeSet, base: nat, count: nat)
    requires base % PAGE == 0 && KERNEL_VIRTUAL_ADDR <= base < PAGE * |pte| && |pte| == ENTRIES && 1 < count
    requires UnmapFrom(pte, s, base, 0, count).completed
    ensures FreeAt(UnmapFrom(pte, s, base, 0, count).free, pte[base / PAGE / 2].frame)
    ensures base / PAGE / 2 * PAGE < KERNEL_VIRTUAL_ADDR
  {
    hide Free, FreeAt;
    var p := base / PAGE;
    IndexInTable(base, 0, |pte|);
    assert ShiftedIndex(base, 1) == p / 2;
    hide ShiftedIndex;
    var one := pte[p := pte[p].(present := false)];
    var s1 := Free(s, pte[p].frame, 1).state;
    assert UnmapFrom(pte, s, base, 0, count) == UnmapFrom(one, s1, base, 1, count);
    var two := one[p / 2 := one[p / 2].(present := false)];
    var s2 := Free(s1, one[p / 2].frame, 1).state;
    assert UnmapFrom(one, s1, base, 1, count) == UnmapFrom(two, s2, base, 2, count);
    FreeOneCovers(s1, one[p / 2].frame, one[p / 2].frame);
    UnmapCovers(two, s2, base, 2, count, one[p / 2].frame);
  }

  lemma OneStep(pte: seq<Pte>, s: FreeSet, base: nat)
    requires base % PAGE == 0 && base < PAGE * |pte|
    ensures var p := base / PAGE; var o := Free(s, pte[p].frame, 1);
      UnmapFrom(pte, s, base, 0, 1) == Unmapping(pte[p := pte[p].(present := false)], o.state, o.inBounds)
  {
    hide Free;
    IndexInTable(base, 0, |pte|);
    hide ShiftedIndex;
  }

  /** What releasing a range of pages is for: its frames, and no others, become free; the state of
      the frame allocator stays well formed; its pages can be handed out again. */
  ghost predicate Released(pte: seq<Pte>, s: FreeSet, blocks: nat, p: nat, count: nat, r: Unmapping)
    requires p + count <= |r.pte|
  {
    && r.completed && WellFormed(r.free, blocks) && Coalesced(r.free)
    && (forall f: nat :: FreeAt(r.free, f) <==> FreeAt(s, f) || HoldsFrame(pte, p, count, f))
    && forall q: nat :: p <= q < p + count ==> Untouched(r.pte[q])
  }

  /** Giving back frame f does not complete a top-level block whose neighbour is free. */
  ghost predicate NoTopPair(s: FreeSet, f: nat)
  {
    !(CompletesTopBlock(s, f, 1) && Buddy(TopBlock(f)) in s)
  }

  /** The page holds a frame that can be given back; or it holds none, and the number left in the
      entry is that of a frame whose own block is free already. */
  ghost predicate CanRelease(e: Pte, s: FreeSet, blocks: nat)
  {
    && !e.reserved
    && if e.present then InManagedMemory(e.frame, blocks) && NoTopPair(s, e.frame)
       else Block(0, e.frame) in s && Buddy(Block(0, e.frame)) !in s
  }

  /** Giving back a frame that is free changes nothing exactly if it is a free block of its own
      whose buddy is not. */
  lemma FreeAgainIff(s: FreeSet, f: nat)
    ensures Free(s, f, 1) == Outcome(s, true) <==> Block(0, f) in s && Buddy(Block(0, f)) !in s
  {
    hide Free;
    FreeOne(s, f);
    var b := Block(0, f);
    if Buddy(b) in s {
      CodeMeetsIntentIff(s, b);
      CoalesceAddsAbove(s - {Buddy(b)}, Parent(b), Buddy(b));
    } else {
      assert FreeAndCoalesce(s, b) == Outcome(s + {b}, true);
    }
  }

  lemma OnePageIff(pte: seq<Pte>, s: FreeSet, blocks: nat, lo: nat, base: nat)
    requires WellFormed(s, blocks) && Coalesced(s) && FramesSafe(pte, s, lo)
    requires base % PAGE == 0 && base < PAGE * |pte|
    ensures var p := base / PAGE;
      Released(pte, s, blocks, p, 1, UnmapFrom(pte, s, base, 0, 1)) <==> CanRelease(pte[p], s, blocks)
  {
    hide WellFormed, Coalesced, FreeAt, Free, Merge, UnmapFrom, CompletesTopBlock;
    var p := base / PAGE;
    var e := pte[p];
    OneStep(pte, s, base);
    var r := UnmapFrom(pte, s, base, 0, 1);
    assert Untouched(r.pte[p]) <==> !e.reserved;
    forall f: nat ensures HoldsFrame(pte, p, 1, f) <==> e.present && e.frame == f {
      if e.present && e.frame == f { assert p <= p < p + 1; }
    }
    if e.present {
      if InManagedMemory(e.frame, blocks) {
        SingleFrameIsLive(s, blocks, e.frame);
        FreeIsExact(s, blocks, e.frame, 1);
        FreeMeetsIntentIff(s, blocks, e.frame, 1);
      } else if r.completed && WellFormed(r.free, blocks) {
        FreeOneCovers(s, e.frame, e.frame);
        FreeInMemory(r.free, blocks, e.frame);
      }
    } else {
      FreeAgainIff(s, e.frame);
      if Released(pte, s, blocks, p, 1, r) {
        assert FreeFrames(r.free) == FreeFrames(s);
        CoalescedIsCanonical(r.free, s, blocks);
      }
    }
  }

  lemma SingleFrameIsLive(s: FreeSet, blocks: nat, f: nat)
    requires InManagedMemory(f, blocks) && !FreeAt(s, f)
    ensures Live(s, blocks, f, 1, LevelFor(1))
  {
    hide FreeAt;
    SmallDown(blocks, TOP); SmallDown(f, 0); SmallUp(f, 0); SmallSize(0);
  }

  /** VMM_FreePages gives back exactly the frames of its range and leaves the range ready to be
      handed out again, if and only if the range is a single page that is not reserved and whose
      frame can be given back. A page that was reserved and never touched is not one. */
  lemma ReleasesFramesIff(pte: seq<Pte>, s: FreeSet, blocks: nat, lo: nat, base: nat, count: nat)
    requires WellFormed(s, blocks) && Coalesced(s) && FramesSafe(pte, s, lo)
    requires |pte| == ENTRIES && KERNEL_VIRTUAL_ADDR <= lo <= base && base % PAGE == 0
    requires base / PAGE + count <= ENTRIES && 0 < count
    ensures Released(pte, s, blocks, base / PAGE, count, UnmapFrom(pte, s, base, 0, count)) <==>
            count == 1 && CanRelease(pte[base / PAGE], s, blocks)
  {
    hide WellFormed, Coalesced, FreeAt, Free, UnmapFrom, CanRelease;
    var p := base / PAGE;
    if count == 1 {
      OnePageIff(pte, s, blocks, lo, base);
    } else if Released(pte, s, blocks, p, count, UnmapFrom(pte, s, base, 0, count)) {
      var r := UnmapFrom(pte, s, base, 0, count);
      SecondStepFrees(pte, s, base, count);
      if !pte[p / 2].present { FreeInMemory(r.free, blocks, 0); }
    }
  }

  /** A page that was reserved and never touched: releasing it makes frame 0 free, leaves the entry
      reserved, and the next request for a frame takes frame 0 and reports failure. */
  lemma UntouchedPageFreesFrameZero(pte: seq<Pte>, s: FreeSet, blocks: nat, base: nat)
    requires WellFormed(s, blocks) && Block(0, 1) !in s
    requires base % PAGE == 0 && base < PAGE * |pte| && pte[base / PAGE] == Pte(0, false, false, true)
    ensures var r := UnmapFrom(pte, s, base, 0, 1);
      && r.completed && r.free == s + {Block(0, 0)} && !WellFormed(r.free, blocks)
      && r.pte[base / PAGE].reserved
      && Get(r.free, 1) == (0, s)
  {
    hide Free, UnmapFrom;
    OneStep(pte, s, base);
    FreeOne(s, 0);
    var t := s + {Block(0, 0)};
    assert Buddy(Block(0, 0)) == Block(0, 1);
    assert FreeAndCoalesce(s, Block(0, 0)) == Outcome(t, true);
    assert Block(0, 0) in t && Block(0, 0) !in s;
    assert Lowest(t, 0) == 0;
    assert t - {Block(0, 0)} == s && s + Tail(0, 1) == s;
  }

  /** Of two mapped pages the loop unmaps the first. Then it gives back the frame of an entry in the
      lower half that holds none: frame 0 becomes free while page 0 still maps it. */
  lemma TwoPagesFreeAMappedFrame(pte: seq<Pte>, p: nat)
    requires 2 <= p && p + 2 <= |pte|
    requires pte[0] == Pte(0, true, true, false) && pte[p / 2] == Pte(0, false, false, false)
    requires pte[p] == Pte(1, true, true, false) && pte[p + 1] == Pte(2, true, true, false)
    ensures var r := UnmapFrom(pte, {}, p * PAGE, 0, 2);
      && r.completed && FreeAt(r.free, 0) && r.pte[0] == pte[0] && r.pte[p + 1] == pte[p + 1]
  {
    hide Free;
    var base, nothing: FreeSet := p * PAGE, {};
    assert base / PAGE == p;
    IndexInTable(base, 0, |pte|);
    assert ShiftedIndex(base, 1) == p / 2;
    hide ShiftedIndex;
    var one, s1 := pte[p := pte[p].(present := false)], {Block(0, 1)};
    FreeOne(nothing, 1);
    assert FreeAndCoalesce(nothing, Block(0, 1)) == Outcome(nothing + {Block(0, 1)}, true);
    assert nothing + {Block(0, 1)} == s1;
    assert UnmapFrom(pte, nothing, base, 0, 2) == UnmapFrom(one, s1, base, 1, 2);
    FreeOne(s1, 0);
    assert Buddy(Block(0, 0)) == Block(0, 1) && s1 - {Block(0, 1)} == nothing;
    assert FreeAndCoalesce(nothing, Block(1, 0)) == Outcome(nothing + {Block(1, 0)}, true);
    var two, s2 := one[p / 2 := one[p / 2].(present := false)], {Block(1, 0)};
    assert nothing + {Block(1, 0)} == s2;
    assert UnmapFrom(one, s1, base, 1, 2) == UnmapFrom(two, s2, base, 2, 2);
    assert Up(0, 1) == 0;
    assert Block(1, Up(0, 1)) in s2;
  }

  // ----- Releasing as it was meant -----

  /** Clearing the present bit of every page of the range and giving back its frame, with a return
      at the top level of the frame allocator. */
  ghost function UnmapRange(pte: seq<Pte>, s: FreeSet, p: nat, count: nat): (r: (seq<Pte>, FreeSet))
    requires p + count <= |pte|
    ensures |r.0| == |pte|
    decreases count
  {
    if count == 0 then (pte, s)
    else UnmapRange(pte[p := pte[p].(present := false)], Merge(s, pte[p].frame, 1), p + 1, count - 1)
  }

  lemma UnmapOneIsSafe(pte: seq<Pte>, s: FreeSet, blocks: nat, lo: nat, p: nat)
    requires WellFormed(s, blocks) && Coalesced(s) && FramesSafe(pte, s, lo) && ManagedFrames(pte, blocks, lo)
    requires p < |pte| && lo <= p * PAGE && pte[p].present
    ensures var (u, t) := (pte[p := pte[p].(present := false)], Merge(s, pte[p].frame, 1));
      && WellFormed(t, blocks) && Coalesced(t) && FramesSafe(u, t, lo) && ManagedFrames(u, blocks, lo)
      && forall f: nat :: FreeAt(t, f) <==> FreeAt(s, f) || f == pte[p].frame
  {
    hide WellFormed, Coalesced, FreeAt, Merge, Free;
    var f := pte[p].frame;
    SingleFrameIsLive(s, blocks, f);
    FreeIsExact(s, blocks, f, 1);
    assert forall g: nat :: InRun(g, f, 1) <==> g == f;
  }

  /** Released as it was meant, a range of mapped pages gives back exactly its frames. */
  lemma {:induction false} UnmapRangeIsSafe(pte: seq<Pte>, s: FreeSet, blocks: nat, lo: nat, p: nat, count: nat)
    requires WellFormed(s, blocks) && Coalesced(s) && FramesSafe(pte, s, lo) && ManagedFrames(pte, blocks, lo)
    requires p + count <= |pte| && lo <= p * PAGE
    requires forall q: nat :: p <= q < p + count ==> pte[q].present
    ensures var (u, t) := UnmapRange(pte, s, p, count);
      && FramesSafe(u, t, lo) && ManagedFrames(u, blocks, lo)
      && (forall q: nat :: q < |pte| ==> u[q] == if p <= q < p + count then pte[q].(present := false) else pte[q])
      && Released(pte, s, blocks, p, count, Unmapping(u, t, true))
    decreases count
  {
    hide WellFormed, Coalesced, FreeAt, Merge, FramesSafe;
    if count > 0 {
      var one, s1 := pte[p := pte[p].(present := false)], Merge(s, pte[p].frame, 1);
      UnmapOneIsSafe(pte, s, blocks, lo, p);
      UnmapRangeIsSafe(one, s1, blocks, lo, p + 1, count - 1);
      forall f: nat
        ensures HoldsFrame(pte, p, count, f) <==> pte[p].frame == f || HoldsFrame(one, p + 1, count - 1, f)
      {
        if HoldsFrame(pte, p, count, f) {
          var q: nat :| p <= q < p + count && q < |pte| && pte[q].present && pte[q].frame == f;
          if q > p { assert one[q] == pte[q]; }
        }
        if HoldsFrame(one, p + 1, count - 1, f) {
          var q: nat :| p + 1 <= q < p + count && q < |one| && one[q].present && one[q].frame == f;
          assert one[q] == pte[q];
        }
      }
    }
  }

  /** For mapped pages, the code as written does that if and only if there is one page, whose frame
      does not complete a top-level block next to a free one. */
  lemma UnmapMeetsIntentIff(pte: seq<Pte>, s: FreeSet, blocks: nat, lo: nat, base: nat, count: nat)
    requires WellFormed(s, blocks) && Coalesced(s) && FramesSafe(pte, s, lo) && ManagedFrames(pte, blocks, lo)
    requires lo <= base && base % PAGE == 0 && base / PAGE + count <= |pte| && 0 < count
    requires forall q: nat :: base / PAGE <= q < base / PAGE + count ==> pte[q].present
    ensures var (u, t) := UnmapRange(pte, s, base / PAGE, count);
      UnmapFrom(pte, s, base, 0, count) == Unmapping(u, t, true) <==> count == 1 && NoTopPair(s, pte[base / PAGE].frame)
  {
    hide WellFormed, Coalesced, FreeAt, Merge, Free, UnmapFrom, CompletesTopBlock;
    var p := base / PAGE;
    if count == 1 {
      OneStep(pte, s, base);
      assert UnmapRange(pte, s, p, 1) == (pte[p := pte[p].(present := false)], Merge(s, pte[p].frame, 1));
      SingleFrameIsLive(s, blocks, pte[p].frame);
      FreeMeetsIntentIff(s, blocks, pte[p].frame, 1);
    } else if UnmapFrom(pte, s, base, 0, count).completed {
      UnmapsRangeIff(pte, s, base, count);
      UnmapRangeIsSafe(pte, s, blocks, lo, p, count);
    }
  }
}
