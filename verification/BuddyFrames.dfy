/** PMM_GetFrames and PMM_FreeFrames on values. */
module BuddyFrames {
  import opened Basics
  import opened BuddyBlocks
  import opened BuddySplit

  // ----- Requests -----

  /** The level of the block a request is carved from. */
  function LevelFor(count: nat): (level: nat)
    requires count <= 16
    ensures level <= TOP
  {
    if count == 1 then 0 else if count == 2 then 1 else if count <= 4 then 2 else if count <= 8 then 3 else 4
  }

  /** The piece of the block that is handed back: one piece at most, by the else-if chains, and
      for 12 frames a level-1 block whose index was computed for level 2. */
  function Tail(a: nat, count: nat): FreeSet
    requires count <= 16
  {
    if count in {3, 5, 7, 9, 11, 13, 15} then {Block(0, a + count)}
    else if count in {6, 10, 14} then {Block(1, (a + count) / 2)}
    else if count == 12 then {Block(1, (a + count) / 4)}
    else {}
  }

  ghost function Get(s: FreeSet, count: nat): (nat, FreeSet)
  {
    if count > 16 then (0, s)
    else
      var (a, t) := Take(s, LevelFor(count));
      (a, t + Tail(a, count))
  }

  /** The piece that was meant: for 12 frames, the level-2 block of the four that are left. */
  function MeantTail(a: nat, count: nat): FreeSet
    requires count <= 16
  {
    if count == 12 then {Block(2, (a + count) / 4)} else Tail(a, count)
  }

  /** A request as it was meant: with that tail, and without one when no block was found. */
  ghost function MeantGet(s: FreeSet, count: nat): (nat, FreeSet)
  {
    if count > 16 then (0, s)
    else
      var (a, t) := Take(s, LevelFor(count));
      if a == 0 then (0, s) else (a, t + MeantTail(a, count))
  }

  /** How many frames, starting at a + count, the tail of a request is meant to have. */
  function TailLength(count: nat): nat
  {
    if count in {3, 5, 7, 9, 11, 13, 15} then 1 else if count in {6, 10, 14} then 2 else if count == 12 then 4 else 0
  }

  /** How many frames of the block are neither returned to the caller nor handed back. */
  function Kept(count: nat): (kept: nat)
    requires 0 < count <= 16
    ensures kept == if count == 9 then 6 else if count in {10, 11} then 4 else if count in {5, 13} then 2 else 0
  {
    Size(LevelFor(count)) - count - TailLength(count)
  }

  lemma PartsOfBlock(a: nat, count: nat, f: nat)
    requires 0 < count <= 16
    ensures InRun(f, a, Size(LevelFor(count))) <==>
      InRun(f, a, count) || InRun(f, a + count, TailLength(count)) ||
      InRun(f, a + count + TailLength(count), Kept(count))
  {
    hide Size;
    assert Size(LevelFor(count)) == count + TailLength(count) + Kept(count);
  }

  lemma {:induction false} DownNext(i: nat, l: nat)
    ensures Down(i + 1, l) == Down(i, l) + Size(l)
    decreases l
  {
    if l > 0 {
      DownNext(2 * i, l - 1);
      DownNext(2 * i + 1, l - 1);
      assert Down(i + 1, l) == Down(2 * i + 2, l - 1);
    }
  }

  /** The frames of an aligned block, as a run. */
  lemma BlockFrames(l: nat, i: nat, f: nat)
    ensures Contains(Block(l, i), f) <==> InRun(f, Down(i, l), Size(l))
  {
    ContainsInterval(l, i, f);
    DownNext(i, l);
  }

  /** Frame a is the first of a block of level l. */
  predicate Aligned(a: nat, l: nat)
  {
    a == Down(Up(a, l), l)
  }

  /** Frame a is the first of a block of level l of the managed memory, and not frame 0. */
  predicate InMemory(blocks: nat, a: nat, l: nat)
  {
    l <= TOP && Aligned(a, l) && 0 < Up(a, l) < Down(blocks, TOP - l)
  }

  lemma AlignedIsMultiple(a: nat, l: nat)
    requires l <= TOP
    ensures Aligned(a, l) <==> a % Size(l) == 0
  {
    SmallSize(l);
    SmallUp(a, l);
    SmallDown(Up(a, l), l);
  }

  /** The outcome of a successful request: count frames from a on, all free before, are not free
      any more, and neither are the Kept(count) frames after the tail; nothing else changes. */
  ghost predicate Got(s: FreeSet, t: FreeSet, blocks: nat, a: nat, count: nat)
    requires 0 < count <= 16
  {
    && InMemory(blocks, a, LevelFor(count))
    && WellFormed(t, blocks) && Coalesced(t)
    && (forall f: nat :: InRun(f, a, Size(LevelFor(count))) ==> FreeAt(s, f))
    && forall f: nat :: FreeAt(t, f) <==>
         FreeAt(s, f) && !InRun(f, a, count) && !InRun(f, a + count + TailLength(count), Kept(count))
  }

  lemma SmallSize(l: nat)
    requires l <= TOP
    ensures Size(l) == if l == 0 then 1 else if l == 1 then 2 else if l == 2 then 4 else if l == 3 then 8 else 16
  {
  }

  lemma SmallDown(i: nat, l: nat)
    requires l <= TOP
    ensures Down(i, l) ==
      if l == 0 then i else if l == 1 then 2 * i else if l == 2 then 4 * i else if l == 3 then 8 * i else 16 * i
  {
    DownIsProduct(i, l);
    SmallSize(l);
  }

  lemma SmallUp(f: nat, l: nat)
    requires l <= TOP
    ensures Up(f, l) ==
      if l == 0 then f else if l == 1 then f / 2 else if l == 2 then f / 4 else if l == 3 then f / 8 else f / 16
  {
    if l > 0 {
      SmallUp(f, l - 1);
    }
  }

  lemma InRangeFrames(blocks: nat, level: nat, i: nat)
    requires level <= TOP && 0 < i < Down(blocks, TOP - level)
    ensures 0 < Down(i, level) && Down(i, level) + Size(level) <= 16 * blocks
    ensures level >= 2 ==> Down(i, level) % 4 == 0
  {
    hide Size, Down;
    SmallSize(level);
    SmallDown(i, level);
    SmallDown(blocks, TOP - level);
    if level >= 2 { FourTimes(if level == 2 then i else if level == 3 then 2 * i else 4 * i); }
  }

  /** The block of 1, 2 or 4 frames that starts at frame `first`, the right half of its parent. */
  function RightHalf(first: nat, step: nat): Block
  {
    if step == 1 then Block(0, first) else if step == 2 then Block(1, first / 2) else Block(2, first / 4)
  }

  predicate StartsRightHalf(first: nat, step: nat)
  {
    (step == 1 && first % 2 == 1) || (step == 2 && first % 4 == 2) || (step == 4 && first % 8 == 4)
  }

  lemma TailShape(a: nat, count: nat)
    requires 2 < count <= 16 && TailLength(count) > 0 && Aligned(a, LevelFor(count))
    ensures MeantTail(a, count) == {RightHalf(a + count, TailLength(count))}
    ensures StartsRightHalf(a + count, TailLength(count))
    ensures count + TailLength(count) <= Size(LevelFor(count))
  {
    SmallSize(LevelFor(count));
    Multiples(a, LevelFor(count));
    TailParity(a, count);
  }

  lemma TailParity(a: nat, count: nat)
    requires count < 16 && TailLength(count) > 0 && a % 4 == 0 && (count == 12 ==> a % 8 == 0)
    ensures StartsRightHalf(a + count, TailLength(count))
  {
    var q := a / 4;
    if TailLength(count) == 1 {
      DivUnique(a + count, 2, 2 * q + count / 2, 1);
    } else if TailLength(count) == 2 {
      DivUnique(a + count, 4, q + count / 4, 2);
    } else {
      DivUnique(a + count, 8, a / 8 + 1, 4);
    }
  }

  lemma Multiples(a: nat, l: nat)
    requires 2 <= l <= TOP && Aligned(a, l)
    ensures a % 4 == 0 && (l == TOP ==> a % 8 == 0)
  {
    hide Up, Down;
    var i := Up(a, l);
    SmallDown(i, l);
    FourTimes(if l == 2 then i else if l == 3 then 2 * i else 4 * i);
    FourTimes(2 * i);
  }

  lemma FourTimes(q: nat)
    ensures 4 * q % 4 == 0 && 8 * q % 8 == 0
  {
  }

  /** A right half none of whose frames is free is freeable, and its buddy is not a free block
      because the frame just before it is not free either. */
  lemma RightHalfIsFreeable(t: FreeSet, blocks: nat, first: nat, step: nat)
    requires WellFormed(t, blocks)
    requires StartsRightHalf(first, step)
    requires step in {1, 2, 4} && step < first && first + step <= 16 * blocks
    requires forall f: nat :: InRun(f, first - step, 2 * step) ==> !FreeAt(t, f)
    ensures Freeable(t, blocks, RightHalf(first, step)) && Buddy(RightHalf(first, step)) !in t
    ensures forall f: nat :: Contains(RightHalf(first, step), f) <==> InRun(f, first, step)
  {
    hide Up, Down, Size, RightHalf, StartsRightHalf, FreeAt, WellFormed, Contains, InRun, Buddy;
    var b := RightHalf(first, step);
    RightHalfPlace(blocks, first, step);
    forall f: nat ensures Contains(b, f) <==> InRun(f, first, step)
                  ensures InRun(f, first, step) ==> InRun(f, first - step, 2 * step) {
      RightHalfFrames(first, step, f);
    }
    assert InRun(first - step, first - step, 2 * step) by { FirstInRun(first - step, 2 * step); }
    NotFreeBlock(t, Buddy(b), first - step);
  }

  lemma FirstInRun(first: nat, count: nat)
    requires count > 0
    ensures InRun(first, first, count)
  {
  }

  lemma RightHalfFrames(first: nat, step: nat, f: nat)
    requires step in {1, 2, 4} && StartsRightHalf(first, step) && step < first
    ensures Contains(RightHalf(first, step), f) <==> InRun(f, first, step)
    ensures InRun(f, first, step) ==> InRun(f, first - step, 2 * step)
  {
    hide Contains, Down, Size;
    var b := RightHalf(first, step);
    BlockFrames(b.level, b.index, f);
    SmallDown(b.index, b.level);
    SmallSize(b.level);
    RightHalfIndex(first, step);
    hide StartsRightHalf, RightHalf;
  }

  lemma RightHalfIndex(first: nat, step: nat)
    requires StartsRightHalf(first, step)
    ensures step == 1 ==> RightHalf(first, step) == Block(0, first)
    ensures step == 2 ==> RightHalf(first, step).level == 1 && 2 * RightHalf(first, step).index == first
    ensures step == 4 ==> RightHalf(first, step).level == 2 && 4 * RightHalf(first, step).index == first
  {
    if step == 2 { DivUnique(first, 2, 2 * (first / 4) + 1, 0); }
    if step == 4 { DivUnique(first, 4, 2 * (first / 8) + 1, 0); }
  }

  lemma RightHalfPlace(blocks: nat, first: nat, step: nat)
    requires StartsRightHalf(first, step) && step < first && first + step <= 16 * blocks
    ensures var b := RightHalf(first, step);
      && b.level < TOP && 0 < b.index < Down(blocks, TOP - b.level)
      && Buddy(b).level <= TOP && Contains(Buddy(b), first - step)
  {
    hide Up, Down;
    var b := RightHalf(first, step);
    SmallDown(blocks, TOP - b.level);
    SmallUp(first - step, b.level);
  }

  lemma NotFreeBlock(t: FreeSet, b: Block, f: nat)
    requires b.level <= TOP && Contains(b, f) && !FreeAt(t, f)
    ensures b !in t
  {
  }

  /** PMM_FindAndSplit in terms of frames: 2^level frames from a on have left the free set. */
  ghost predicate TookRun(s: FreeSet, t: FreeSet, blocks: nat, a: nat, level: nat)
  {
    && InMemory(blocks, a, level)
    && WellFormed(t, blocks) && Coalesced(t)
    && (forall f: nat :: InRun(f, a, Size(level)) ==> FreeAt(s, f))
    && forall f: nat :: FreeAt(t, f) <==> FreeAt(s, f) && !InRun(f, a, Size(level))
  }

  lemma TakeRunIsExact(s: FreeSet, blocks: nat, level: nat)
    requires WellFormed(s, blocks) && Coalesced(s) && level <= TOP
    requires Take(s, level).0 != 0
    ensures TookRun(s, Take(s, level).1, blocks, Take(s, level).0, level)
  {
    var i := TakeIsExact(s, blocks, level);
    UpDown(i, level);
    forall f: nat ensures Contains(Block(level, i), f) <==> InRun(f, Down(i, level), Size(level)) {
      BlockFrames(level, i, f);
    }
  }

  lemma HandBackTail(s: FreeSet, t: FreeSet, blocks: nat, a: nat, count: nat)
    requires 2 < count < 16 && TailLength(count) > 0
    requires TookRun(s, t, blocks, a, LevelFor(count))
    ensures Got(s, t + MeantTail(a, count), blocks, a, count)
  {
    hide Up, Down, WellFormed, Coalesced, FreeAt, RightHalf, MeantTail, StartsRightHalf, Contains, Size;
    var first, step := a + count, TailLength(count);
    TailShape(a, count);
    InRangeFrames(blocks, LevelFor(count), Up(a, LevelFor(count)));
    SmallSize(LevelFor(count));
    RightHalfIsFreeable(t, blocks, first, step);
    RightHalfPlace(blocks, first, step);
    AddBlock(t, blocks, RightHalf(first, step));
  }

  /** PMM_GetFrames is exact for every count from 1 to 16 except 12. */
  lemma GetIsExact(s: FreeSet, blocks: nat, count: nat)
    requires WellFormed(s, blocks) && Coalesced(s)
    requires 0 < count <= 16 && count != 12 && Get(s, count).0 != 0
    ensures Got(s, Get(s, count).1, blocks, Get(s, count).0, count)
  {
    hide Up, Down, WellFormed, Coalesced, FreeAt, InMemory, Take;
    MeantGetIsExact(s, blocks, count);
  }

  /** As it was meant, it is exact for every count from 1 to 16. */
  lemma MeantGetIsExact(s: FreeSet, blocks: nat, count: nat)
    requires WellFormed(s, blocks) && Coalesced(s)
    requires 0 < count <= 16 && MeantGet(s, count).0 != 0
    ensures Got(s, MeantGet(s, count).1, blocks, MeantGet(s, count).0, count)
  {
    hide Up, Down, WellFormed, Coalesced, FreeAt, InMemory, Take;
    var (a, t) := Take(s, LevelFor(count));
    TakeRunIsExact(s, blocks, LevelFor(count));
    if TailLength(count) == 0 {
      assert t + MeantTail(a, count) == t;
    } else {
      HandBackTail(s, t, blocks, a, count);
    }
  }
}
