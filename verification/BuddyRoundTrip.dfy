/** Requesting frames and giving them back. */
module BuddyRoundTrip {
  import opened BuddyBlocks
  import opened BuddySplit
  import opened BuddyCoalesce
  import opened BuddyFrames
  import opened BuddyFree
  import opened BuddyOddCounts

  /** The block the request was carved from was a whole top-level block whose neighbour is free. */
  predicate FromTopPair(s: FreeSet, a: nat)
  {
    TopBlock(a) in s && Buddy(TopBlock(a)) in s
  }

  /** The counts for which a request hands back everything it does not return. */
  predicate NothingKept(count: nat)
  {
    count in {1, 2, 3, 4, 6, 7, 8, 14, 15, 16}
  }

  /** In a maximally coalesced state a top-level block is free exactly when its frames are. */
  lemma TopFreeIff(s: FreeSet, b: Block)
    requires Coalesced(s) && b.level == TOP
    ensures b in s <==> forall f: nat :: Contains(b, f) ==> FreeAt(s, f)
  {
    var f := Down(b.index, TOP);
    UpDown(b.index, TOP);
    if forall g: nat :: Contains(b, g) ==> FreeAt(s, g) {
      forall g: nat | Up(g, TOP) == Up(f, TOP) ensures FreeAt(s, g) {
        assert Contains(b, g);
      }
      var m := FreeRunIsCovered(s, TOP, f);
    }
  }

  /** Before the call: apart from the range to be freed, all of its top-level block is free. */
  ghost predicate CompletesTopBlock(s: FreeSet, a: nat, count: nat)
  {
    forall f: nat :: Contains(TopBlock(a), f) && !InRun(f, a, count) ==> FreeAt(s, f)
  }

  /** PMM_FreeFrames does what was meant, no more and no less, if and only if the range is a whole
      top-level block, or freeing it does not complete one, or the neighbour of that is not free. */
  lemma FreeMeetsIntentIff(s: FreeSet, blocks: nat, a: nat, count: nat)
    requires WellFormed(s, blocks) && Coalesced(s)
    requires 0 < count <= 16 && Live(s, blocks, a, count, LevelFor(count))
    ensures Free(s, a, count) == Outcome(Merge(s, a, count), true) <==>
            count == 16 || !(CompletesTopBlock(s, a, count) && Buddy(TopBlock(a)) in s)
  {
    hide WellFormed, Coalesced, Live, Merge, Free, FreeAt, InRun, Contains;
    FreeIsExact(s, blocks, a, count);
    TopFreeIff(Merge(s, a, count), TopBlock(a));
  }

  lemma NeighbourUnchanged(s: FreeSet, t: FreeSet, blocks: nat, a: nat, count: nat)
    requires WellFormed(s, blocks) && Coalesced(s)
    requires 0 < count <= 16 && count != 12 && Got(s, t, blocks, a, count)
    ensures Buddy(TopBlock(a)) in t <==> Buddy(TopBlock(a)) in s
  {
    hide Up, Down, WellFormed, Coalesced, FreeAt;
    var level, n := LevelFor(count), Buddy(TopBlock(a));
    TopFreeIff(s, n);
    TopFreeIff(t, n);
    forall f: nat | Contains(n, f) ensures !InRun(f, a, Size(level)) {
      if InRun(f, a, Size(level)) {
        BlockFrames(level, Up(a, level), f);
        UpMonotone(f, a, level, TOP);
      }
    }
    assert forall f: nat :: InRun(f, a, count) || InRun(f, a + count + TailLength(count), Kept(count)) ==>
      InRun(f, a, Size(level));
  }

  lemma GotIsLive(s: FreeSet, t: FreeSet, blocks: nat, a: nat, count: nat)
    requires 0 < count <= 16 && count != 12 && Got(s, t, blocks, a, count)
    ensures Live(t, blocks, a, count, LevelFor(count))
  {
    SmallSize(LevelFor(count));
  }

  /** What was meant: requesting and giving back leaves every bit as it was, exactly for the
      counts that keep nothing. */
  lemma MergeUndoesGetIff(s: FreeSet, t: FreeSet, blocks: nat, a: nat, count: nat)
    requires WellFormed(s, blocks) && Coalesced(s)
    requires 0 < count <= 16 && count != 12 && Got(s, t, blocks, a, count)
    ensures Merge(t, a, count) == s <==> NothingKept(count)
  {
    hide Up, Down, WellFormed, Coalesced, FreeAt, InMemory, Merge, Size;
    GotIsLive(s, t, blocks, a, count);
    FreeIsExact(t, blocks, a, count);
    var u := Merge(t, a, count);
    var rest := a + count + TailLength(count);
    assert Kept(count) == 0 <==> NothingKept(count);
    if Kept(count) == 0 {
      forall f: nat ensures FreeAt(u, f) <==> FreeAt(s, f) {
        assert InRun(f, a, count) ==> InRun(f, a, Size(LevelFor(count)));
      }
      assert FreeFrames(u) == FreeFrames(s);
      CoalescedIsCanonical(u, s, blocks);
    } else {
      assert InRun(rest, rest, Kept(count)) && InRun(rest, a, Size(LevelFor(count)));
      assert FreeAt(s, rest) && !FreeAt(u, rest);
    }
  }

  /** Requesting frames and giving them back restores all five bitmaps, bit for bit, if and only
      if the count is one that keeps nothing and, unless it is a whole top-level block, the
      block was not carved from one whose neighbour is free. */
  lemma FreeUndoesGetIff(s: FreeSet, blocks: nat, count: nat)
    requires WellFormed(s, blocks) && Coalesced(s)
    requires Get(s, count).0 != 0
    ensures var (a, t) := Get(s, count);
      Free(t, a, count) == Outcome(s, true) <==>
      NothingKept(count) && (count == 16 || !FromTopPair(s, a))
  {
    hide Up, Down, WellFormed, Coalesced, FreeAt, InMemory, Merge, Free, Get;
    var (a, t) := Get(s, count);
    OnlyUpToSixteen(s, count);
    if count == 0 {
      ZeroKeepsABlock(s, blocks);
    } else if count == 12 {
      TwelveIsNotUndone(s, blocks);
    } else {
      GetIsExact(s, blocks, count);
      GotIsLive(s, t, blocks, a, count);
      FreeIsExact(t, blocks, a, count);
      MergeUndoesGetIff(s, t, blocks, a, count);
      NeighbourUnchanged(s, t, blocks, a, count);
    }
  }

  /** The smallest memory with two free top-level blocks side by side: one frame is requested,
      given back, and the code asks for a level that does not exist. */
  lemma OneFrameOverruns()
    ensures var s := {Block(TOP, 2), Block(TOP, 3)};
      Get(s, 1).0 == 32 && !Free(Get(s, 1).1, 32, 1).inBounds
  {
    hide Up, Down, FreeAt, Merge, Free, Get, Contains, WellFormed, Coalesced, InMemory;
    var s := {Block(TOP, 2), Block(TOP, 3)};
    OneFrameOfTwoBlocks(s);
    FreeUndoesGetIff(s, 4, 1);
    GetIsExact(s, 4, 1);
    var t := Get(s, 1).1;
    GotIsLive(s, t, 4, 32, 1);
    FreeIsExact(t, 4, 32, 1);
    MergeUndoesGetIff(s, t, 4, 32, 1);
  }

  lemma OneFrameOfTwoBlocks(s: FreeSet)
    requires s == {Block(TOP, 2), Block(TOP, 3)}
    ensures WellFormed(s, 4) && Coalesced(s)
    ensures Get(s, 1).0 == 32 && FromTopPair(s, 32)
  {
    hide Up, Down, Take;
    SmallDown(4, 0); SmallDown(2, TOP); SmallUp(32, TOP);
    assert Block(TOP, 2) in s;
    TakeIsFirstFit(s, 0, TOP);
  }
}
