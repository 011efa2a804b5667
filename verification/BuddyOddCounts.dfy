/** The requests for which PMM_GetFrames, as written, does not do what its callers expect:
    a failed request, a request for no frame, and a request for twelve frames. */
module BuddyOddCounts {
  import opened BuddyBlocks
  import opened BuddySplit
  import opened BuddyCoalesce
  import opened BuddyFrames
  import opened BuddyFree

  lemma OnlyUpToSixteen(s: FreeSet, count: nat)
    requires Get(s, count).0 != 0
    ensures count <= 16
  {
  }

  /** A request fails exactly when no block of its size or larger is free. The tail is handed
      back all the same, as if the block had been found at frame 0; so a failed request leaves
      the bitmaps as they were if and only if it has no tail or those bits were clear already. */
  lemma FailureIsHarmlessIff(s: FreeSet, blocks: nat, count: nat)
    requires WellFormed(s, blocks) && count <= 16
    ensures Get(s, count).0 == 0 <==> forall b :: b in s ==> b.level < LevelFor(count)
    ensures Get(s, count).0 == 0 ==> (Get(s, count).1 == s <==> Tail(0, count) <= s)
  {
    TakeIsComplete(s, blocks, LevelFor(count));
  }

  /** With no memory at all, a request for 3 frames fails and makes frame 3 free. */
  lemma FailedRequestFreesFrameThree()
    ensures Get({}, 3) == (0, {Block(0, 3)})
  {
    TakeIsComplete({}, 1, 2);
    var nothing: FreeSet := {};
    assert nothing + {Block(0, 3)} == {Block(0, 3)};
  }

  /** A request for no frame takes a block of four, and nothing gives it back. */
  lemma ZeroKeepsABlock(s: FreeSet, blocks: nat)
    requires WellFormed(s, blocks) && Coalesced(s) && Get(s, 0).0 != 0
    ensures TookRun(s, Get(s, 0).1, blocks, Get(s, 0).0, 2)
    ensures Free(Get(s, 0).1, Get(s, 0).0, 0) == Outcome(Get(s, 0).1, true)
    ensures Get(s, 0).1 != s
  {
    hide Up, Down, WellFormed, Coalesced, FreeAt, InMemory, Take;
    var (a, t) := Take(s, 2);
    assert t + Tail(a, 0) == t;
    TakeRunIsExact(s, blocks, 2);
    NoBits(t, a, TOP);
    assert InRun(a, a, Size(2));
  }

  // ----- Twelve frames -----

  /** The level-1 block that a request for twelve frames marks free. */
  function Stray(a: nat): Block
  {
    Block(1, (a + 12) / 4)
  }

  /** The block taken for twelve frames; the state before the stray write. */
  lemma TwelveTakes(s: FreeSet, blocks: nat)
    requires WellFormed(s, blocks) && Coalesced(s) && Get(s, 12).0 != 0
    ensures var (a, t) := Take(s, TOP);
      && Get(s, 12) == (a, t + {Stray(a)})
      && TookRun(s, t, blocks, a, TOP) && a % 16 == 0 && TopBlock(a) in s
  {
    hide Up, Down, WellFormed, Coalesced, FreeAt, Take, TookRun;
    var (a, t) := Take(s, TOP);
    assert Get(s, 12) == (a, t + {Stray(a)});
    TakeRunIsExact(s, blocks, TOP);
    WholeTopBlock(s);
    RunStart(s, t, blocks, a);
  }

  lemma RunStart(s: FreeSet, t: FreeSet, blocks: nat, a: nat)
    requires TookRun(s, t, blocks, a, TOP)
    ensures a > 0 && a % 16 == 0
  {
    hide Up, WellFormed, Coalesced, FreeAt;
    SmallDown(Up(a, TOP), TOP);
  }

  lemma WholeTopBlock(s: FreeSet)
    requires Take(s, TOP).0 != 0
    ensures TopBlock(Take(s, TOP).0) in s
  {
    hide Up, Down;
    assert Take(s, TOP + 1).0 == 0;
    UpDown(Lowest(s, TOP), TOP);
  }

  /** The stray block lies below the frames taken, so a request for twelve frames makes two
      frames free that have nothing to do with it, unless they were free already. */
  lemma TwelveFreesOthersIff(s: FreeSet, blocks: nat)
    requires WellFormed(s, blocks) && Coalesced(s) && Get(s, 12).0 != 0
    ensures var (a, t) := Get(s, 12); var stray := (a + 12) / 2;
      && stray + 1 < a
      && FreeAt(t, stray) && FreeAt(t, stray + 1)
      && ((forall f: nat :: FreeAt(t, f) ==> FreeAt(s, f)) <==> FreeAt(s, stray) && FreeAt(s, stray + 1))
  {
    hide WellFormed, Coalesced, Up, Down, FreeAt, Get, Take;
    TwelveTakes(s, blocks);
    var (a, base) := Take(s, TOP);
    var t := Get(s, 12).1;
    RunStart(s, base, blocks, a);
    StrayFrames(a);
    StrayIsFree(t, Stray(a));
    StrayOrOld(s, base, t, blocks, a);
  }

  lemma StrayFrames(a: nat)
    requires a > 0 && a % 16 == 0
    ensures (a + 12) / 2 + 1 < a
    ensures forall f: nat :: Contains(Stray(a), f) <==> f == (a + 12) / 2 || f == (a + 12) / 2 + 1
  {
    var k := a / 16;
    assert (a + 12) / 2 == 8 * k + 6 && (a + 12) / 4 == 4 * k + 3;
    forall f: nat ensures Contains(Stray(a), f) <==> f == 8 * k + 6 || f == 8 * k + 7 {
      assert Up(f, 1) == f / 2;
    }
  }

  lemma StrayIsFree(t: FreeSet, b: Block)
    requires b in t && b.level <= TOP
    ensures forall f: nat :: Contains(b, f) ==> FreeAt(t, f)
  {
    hide Up;
    forall f: nat | Contains(b, f) ensures FreeAt(t, f) {
      assert Block(b.level, Up(f, b.level)) in t;
    }
  }

  lemma StrayOrOld(s: FreeSet, base: FreeSet, t: FreeSet, blocks: nat, a: nat)
    requires TookRun(s, base, blocks, a, TOP) && t == base + {Stray(a)}
    ensures forall f: nat :: FreeAt(t, f) ==> FreeAt(s, f) || Contains(Stray(a), f)
  {
    hide WellFormed, Coalesced, Up, InRun;
    forall f: nat | FreeAt(t, f) ensures FreeAt(base, f) || Contains(Stray(a), f) {
      var l: nat :| l <= TOP && Block(l, Up(f, l)) in t;
      assert Block(l, Up(f, l)) in base || l == 1;
    }
  }

  /** A request for twelve frames that succeeds never does what was meant. */
  lemma TwelveIsNotMeant(s: FreeSet, blocks: nat)
    requires WellFormed(s, blocks) && Coalesced(s) && Get(s, 12).0 != 0
    ensures Get(s, 12) != MeantGet(s, 12)
  {
    hide Up, Down, WellFormed, Coalesced, FreeAt, Take, Get;
    TwelveTakes(s, blocks);
    var (a, t) := Take(s, TOP);
    RunStart(s, t, blocks, a);
    SmallSize(TOP);
    SmallUp(a + 12, 2);
    assert InRun(a + 12, a, 16);
    NotFreeBlock(t, Block(2, (a + 12) / 4), a + 12);
    assert Block(2, (a + 12) / 4) in t + MeantTail(a, 12);
  }

  /** A successful request for another count does. */
  lemma OthersAreMeant(s: FreeSet, count: nat)
    requires Get(s, count).0 != 0 && count != 12
    ensures Get(s, count) == MeantGet(s, count)
  {
  }

  /** Giving twelve frames back never restores the state before the request: the block taken was
      a free top-level block, and the pieces given back are blocks of eight and of four. */
  lemma TwelveIsNotUndone(s: FreeSet, blocks: nat)
    requires WellFormed(s, blocks) && Coalesced(s) && Get(s, 12).0 != 0
    ensures Free(Get(s, 12).1, Get(s, 12).0, 12) != Outcome(s, true)
  {
    hide WellFormed, Coalesced, Up, Down, FreeAt, FreeAndCoalesce, Get, Take, Free, Buddy, Contains;
    TwelveTakes(s, blocks);
    var (a, base) := Take(s, TOP);
    var t := Get(s, 12).1;
    RunStart(s, base, blocks, a);
    SmallSize(TOP);
    var k := a / 16;
    TwelveGeometry(k);
    var eight, four := Block(3, 2 * k), Block(2, 4 * k + 2);
    assert InRun(a, a, 16) && InRun(a + 8, a, 16) && InRun(a + 12, a, 16);
    NotFreeBlock(base, Buddy(eight), a + 8);
    NotFreeBlock(base, Buddy(four), a + 12);
    NotFreeBlock(base, TopBlock(a), a);
    NoMerge(t, eight);
    NoMerge(t + {eight}, four);
    FreeTwelve(t, a);
    NoBits(t + {eight} + {four}, a + 12, 2);
  }

  lemma TwelveGeometry(k: nat)
    ensures var a := 16 * k; var eight, four := Block(3, 2 * k), Block(2, 4 * k + 2);
      && Up(a, 3) == 2 * k && Up(a + 8, 2) == 4 * k + 2
      && Contains(Buddy(eight), a + 8) && Contains(Buddy(four), a + 12) && Contains(TopBlock(a), a)
      && Buddy(eight).level == 3 && Buddy(four).level == 2 && Buddy(four) != eight
  {
    hide Up;
    SmallUp(16 * k, 3); SmallUp(16 * k + 8, 2); SmallUp(16 * k + 8, 3); SmallUp(16 * k + 12, 2);
  }

  lemma NoMerge(s: FreeSet, b: Block)
    requires b.level < TOP && Buddy(b) !in s
    ensures FreeAndCoalesce(s, b) == Outcome(s + {b}, true)
  {
  }

  lemma FreeTwelve(s: FreeSet, a: nat)
    requires FreeAndCoalesce(s, Block(3, Up(a, 3))).inBounds
    requires FreeAndCoalesce(FreeAndCoalesce(s, Block(3, Up(a, 3))).state, Block(2, Up(a + 8, 2))).inBounds
    ensures Free(s, a, 12) == FreeBits(
        FreeAndCoalesce(FreeAndCoalesce(s, Block(3, Up(a, 3))).state, Block(2, Up(a + 8, 2))).state, a + 12, 0, 2)
  {
    hide FreeAndCoalesce, Up;
    var t := FreeAndCoalesce(s, Block(3, Up(a, 3))).state;
    var u := FreeAndCoalesce(t, Block(2, Up(a + 8, 2))).state;
    SmallSize(3); SmallSize(2);
    assert FreeBits(t, a + 8, 4, 3) == FreeBits(u, a + 12, 0, 2);
  }
}
