/** PMM_FindAndSplit on values: find a free block, splitting a larger one when there is none. */
module BuddySplit {
  import opened BuddyBlocks

  ghost predicate HasLevel(s: FreeSet, level: nat)
  {
    exists i: nat :: Block(level, i) in s
  }

  ghost predicate IsLowest(s: FreeSet, level: nat, i: nat)
  {
    Block(level, i) in s && forall j: nat :: j < i ==> Block(level, j) !in s
  }

  ghost function LowestUpTo(s: FreeSet, level: nat, i: nat): (r: nat)
    requires Block(level, i) in s
    ensures IsLowest(s, level, r)
    decreases i
  {
    if j: nat :| j < i && Block(level, j) in s then LowestUpTo(s, level, j) else i
  }

  ghost function Lowest(s: FreeSet, level: nat): (r: nat)
    requires HasLevel(s, level)
    ensures IsLowest(s, level, r)
  {
    var i: nat :| Block(level, i) in s;
    LowestUpTo(s, level, i)
  }

  /** The frame number returned (0 for failure) and the state left behind by
      PMM_FindAndSplit(level): the recursion of the code, one level up when this level has
      no free block, then "first half used, second half free". */
  ghost function Take(s: FreeSet, level: nat): (nat, FreeSet)
    requires level <= TOP + 1
    decreases TOP + 1 - level
  {
    if level == TOP + 1 then
      (0, s)
    else if HasLevel(s, level) then
      var i := Lowest(s, level);
      (Down(i, level), s - {Block(level, i)})
    else
      var (a, t) := Take(s, level + 1);
      if a == 0 then
        (0, t)
      else
        (a, t - {Block(level, Up(a, level))} + {Block(level, Up(a + Size(level), level))})
  }

  /** Exactly the frames of block (level, i), all of them free before, have left the free set,
      and the state is again well formed and maximally coalesced. */
  ghost predicate Took(s: FreeSet, t: FreeSet, blocks: nat, level: nat, i: nat)
  {
    && level <= TOP && 0 < i < Down(blocks, TOP - level)
    && WellFormed(t, blocks) && Coalesced(t)
    && (forall f: nat :: Contains(Block(level, i), f) ==> FreeAt(s, f))
    && (forall f: nat :: FreeAt(t, f) <==> FreeAt(s, f) && !Contains(Block(level, i), f))
    && (forall b :: b in t && b.level < level ==> b in s)
  }

  lemma TakeWhole(s: FreeSet, blocks: nat, level: nat, i: nat)
    requires WellFormed(s, blocks) && Coalesced(s) && level <= TOP
    requires Block(level, i) in s
    ensures Took(s, s - {Block(level, i)}, blocks, level, i)
  {
    var t := s - {Block(level, i)};
    forall f: nat ensures FreeAt(t, f) <==> FreeAt(s, f) && !Contains(Block(level, i), f) {
      if FreeAt(s, f) && !Contains(Block(level, i), f) {
        var l: nat :| l <= TOP && Block(l, Up(f, l)) in s;
        assert Block(l, Up(f, l)) in t;
      }
    }
  }

  lemma SplitHalf(s: FreeSet, t: FreeSet, blocks: nat, level: nat, j: nat)
    requires level < TOP && !HasLevel(s, level)
    requires Took(s, t, blocks, level + 1, j)
    ensures Took(s, t + {Block(level, 2 * j + 1)}, blocks, level, 2 * j)
  {
    hide Up, Down, Coalesced;
    var half := Block(level, 2 * j);
    assert Buddy(Buddy(half)) == half && half !in t && Parent(half) == Block(level + 1, j);
    forall f: nat ensures Contains(Parent(half), f) <==> Contains(half, f) || Contains(Buddy(half), f)
                  ensures !(Contains(half, f) && Contains(Buddy(half), f)) {
      ParentFrames(half, f);
    }
    HalfInRange(blocks, level, j);
    assert forall f: nat :: Contains(Buddy(half), f) ==> !FreeAt(t, f) && FreeAt(s, f);
    AddBlock(t, blocks, Buddy(half));
  }

  lemma HalfInRange(blocks: nat, level: nat, j: nat)
    requires level < TOP && 0 < j < Down(blocks, TOP - level - 1)
    ensures 0 < 2 * j < 2 * j + 1 < Down(blocks, TOP - level)
  {
    DownTwice(blocks, TOP - level - 1);
  }

  lemma TakeSplits(s: FreeSet, level: nat, j: nat)
    requires level < TOP && !HasLevel(s, level)
    requires Take(s, level + 1).0 == Down(j, level + 1) != 0
    ensures Take(s, level).0 == Down(2 * j, level)
    ensures Take(s, level).1 == Take(s, level + 1).1 - {Block(level, 2 * j)} + {Block(level, 2 * j + 1)}
  {
    hide Up, Size, HasLevel;
    assert Down(j, level + 1) == Down(2 * j, level);
    SplitIndex(2 * j, level);
  }

  lemma SplitState(s: FreeSet, t: FreeSet, u: FreeSet, blocks: nat, level: nat, j: nat)
    requires level < TOP && !HasLevel(s, level)
    requires Took(s, t, blocks, level + 1, j)
    requires u == t - {Block(level, 2 * j)} + {Block(level, 2 * j + 1)}
    ensures Took(s, u, blocks, level, 2 * j)
  {
    assert Block(level, 2 * j) !in s;
    assert u == t + {Block(level, 2 * j + 1)};
    SplitHalf(s, t, blocks, level, j);
  }

  lemma SplitIndex(i: nat, level: nat)
    ensures Up(Down(i, level), level) == i
    ensures Up(Down(i, level) + Size(level), level) == i + 1
  {
    UpDown(i, level);
    UpShift(Down(i, level), level);
  }

  /** PMM_FindAndSplit is exact: a non-zero result is the first frame of an aligned block of
      2^level frames that were all free, and the free set shrinks by exactly those. */
  lemma {:induction false} TakeIsExact(s: FreeSet, blocks: nat, level: nat) returns (i: nat)
    requires WellFormed(s, blocks) && Coalesced(s) && level <= TOP
    requires Take(s, level).0 != 0
    ensures Take(s, level).0 == Down(i, level)
    ensures Took(s, Take(s, level).1, blocks, level, i)
    decreases TOP - level
  {
    if HasLevel(s, level) {
      i := Lowest(s, level);
      TakeWhole(s, blocks, level, i);
    } else {
      var (a, t) := Take(s, level + 1);
      var j := TakeIsExact(s, blocks, level + 1);
      i := 2 * j;
      TakeSplits(s, level, j);
      SplitState(s, t, Take(s, level).1, blocks, level, j);
    }
  }

  /** PMM_FindAndSplit is complete: it fails, changing nothing, if and only if no block is free
      at any level from the one asked for upwards. */
  lemma {:induction false} TakeIsComplete(s: FreeSet, blocks: nat, level: nat)
    requires WellFormed(s, blocks) && level <= TOP + 1
    ensures Take(s, level).0 == 0 <==> forall b :: b in s ==> b.level < level
    ensures Take(s, level).0 == 0 ==> Take(s, level).1 == s
    decreases TOP + 1 - level
  {
    if level <= TOP {
      if HasLevel(s, level) {
        var i := Lowest(s, level);
        assert Block(level, i) in s;
        DownIsProduct(i, level);
      } else {
        TakeIsComplete(s, blocks, level + 1);
        forall b | b in s && b.level < level + 1 ensures b.level < level {
          assert b.level == level ==> Block(level, b.index) in s;
        }
      }
    }
  }

  /** All frames of the block are free, in whatever blocks. */
  ghost predicate AllFree(s: FreeSet, b: Block)
  {
    forall f: nat :: Contains(b, f) ==> FreeAt(s, f)
  }

  /** In terms of frames, which is what coalescing is for: it fails if and only if no aligned run of
      2^level frames is free anywhere. */
  lemma TakeFailsIff(s: FreeSet, blocks: nat, level: nat)
    requires WellFormed(s, blocks) && Coalesced(s) && level <= TOP
    ensures Take(s, level).0 == 0 <==> forall i: nat :: !AllFree(s, Block(level, i))
  {
    hide Up, Down, Take, WellFormed, Coalesced, FreeAt;
    if Take(s, level).0 != 0 {
      var i := TakeIsExact(s, blocks, level);
      assert AllFree(s, Block(level, i));
    }
    if i: nat :| AllFree(s, Block(level, i)) {
      var f := Down(i, level);
      UpDown(i, level);
      forall g: nat | Up(g, level) == Up(f, level) ensures FreeAt(s, g) {
        assert Contains(Block(level, i), g);
      }
      var m := FreeRunIsCovered(s, level, f);
      TakeIsComplete(s, blocks, level);
    }
  }

  /** It takes the lowest block of the first level, from the one asked for upwards, that has one. */
  lemma {:induction false} TakeIsFirstFit(s: FreeSet, level: nat, m: nat)
    requires level <= m <= TOP && HasLevel(s, m)
    requires forall l: nat :: level <= l < m ==> !HasLevel(s, l)
    requires Block(m, 0) !in s
    ensures Take(s, level).0 == Down(Lowest(s, m), m) != 0
    decreases m - level
  {
    if level < m {
      TakeIsFirstFit(s, level + 1, m);
    } else {
      assert Block(m, Lowest(s, m)) in s;
      DownIsProduct(Lowest(s, m), m);
    }
  }
}
