/** PMM_FreeFrames on values. */
module BuddyFree {
  import opened BuddyBlocks
  import opened BuddyCoalesce
  import opened BuddyFrames

  /** The power-of-two pieces of [a, a + r), r < 2^l, largest first: one PPM_FreeAndCoalesce for
      each bit of r, as long as none of them runs out of levels. */
  ghost function FreeBits(s: FreeSet, a: nat, r: nat, l: nat): Outcome
    requires l <= TOP
    decreases l
  {
    if l == 0 then
      Outcome(s, true)
    else if r >= Size(l - 1) then
      var o := FreeAndCoalesce(s, Block(l - 1, Up(a, l - 1)));
      if o.inBounds then FreeBits(o.state, a + Size(l - 1), r - Size(l - 1), l - 1) else o
    else
      FreeBits(s, a, r, l - 1)
  }

  /** PMM_FreeFrames(a, count): a whole top-level block is simply marked free; otherwise the low
      four bits of count say which pieces there are. */
  ghost function Free(s: FreeSet, a: nat, count: nat): Outcome
  {
    FreeBits(if count == 16 then s + {Block(TOP, Up(a, TOP))} else s, a, count % 16, TOP)
  }

  /** The same with a return at the top level. */
  ghost function MergeBits(s: FreeSet, a: nat, r: nat, l: nat): FreeSet
    requires l <= TOP
    decreases l
  {
    if l == 0 then s
    else if r >= Size(l - 1) then
      MergeBits(Coalesce(s, Block(l - 1, Up(a, l - 1))), a + Size(l - 1), r - Size(l - 1), l - 1)
    else
      MergeBits(s, a, r, l - 1)
  }

  ghost function Merge(s: FreeSet, a: nat, count: nat): FreeSet
  {
    MergeBits(if count == 16 then s + {Block(TOP, Up(a, TOP))} else s, a, count % 16, TOP)
  }

  /** [a, a + r) lies in the aligned block (l, j), none of its frames is free. */
  ghost predicate Live(s: FreeSet, blocks: nat, a: nat, r: nat, l: nat)
  {
    && InMemory(blocks, a, l) && r <= Size(l)
    && forall f: nat :: InRun(f, a, r) ==> !FreeAt(s, f)
  }

  lemma HalvesAligned(blocks: nat, a: nat, l: nat)
    requires 0 < l && InMemory(blocks, a, l)
    ensures InMemory(blocks, a, l - 1) && InMemory(blocks, a + Size(l - 1), l - 1)
    ensures Up(a, TOP) == Up(a + Size(l - 1), TOP)
  {
    hide Down, Size;
    var i := Up(a, l);
    assert Down(i, l) == Down(2 * i, l - 1) by { DownStep(i, l); }
    UpDown(2 * i, l - 1);
    UpShift(a, l - 1);
    DownNext(2 * i, l - 1);
    DownTwice(blocks, TOP - l);
    assert Up(a + Size(l - 1), l) == Up(a, l);
    UpMonotone(a, a + Size(l - 1), l, TOP);
  }

  lemma DownStep(i: nat, l: nat)
    requires l > 0
    ensures Down(i, l) == Down(2 * i, l - 1)
  {
  }

  /** A whole aligned block, none of its frames free. */
  lemma PieceIsFreeable(s: FreeSet, blocks: nat, a: nat, l: nat)
    requires Live(s, blocks, a, Size(l), l)
    ensures Freeable(s, blocks, Block(l, Up(a, l)))
    ensures forall f: nat :: Contains(Block(l, Up(a, l)), f) <==> InRun(f, a, Size(l))
  {
    hide Up, Down;
    var b := Block(l, Up(a, l));
    forall f: nat ensures Contains(b, f) <==> InRun(f, a, Size(l)) {
      BlockFrames(l, b.index, f);
    }
  }

  lemma MergePiece(s: FreeSet, blocks: nat, a: nat, l: nat)
    requires WellFormed(s, blocks) && Coalesced(s)
    requires Live(s, blocks, a, Size(l), l)
    ensures var t := Coalesce(s, Block(l, Up(a, l)));
      && WellFormed(t, blocks) && Coalesced(t)
      && forall f: nat :: FreeAt(t, f) <==> FreeAt(s, f) || InRun(f, a, Size(l))
  {
    hide Up, Down, WellFormed, Coalesced, FreeAt, InMemory, Coalesce;
    PieceIsFreeable(s, blocks, a, l);
    CoalesceIsExact(s, blocks, Block(l, Up(a, l)));
  }

  lemma {:induction false} NoBits(s: FreeSet, a: nat, l: nat)
    requires l <= TOP
    ensures MergeBits(s, a, 0, l) == s && FreeBits(s, a, 0, l) == Outcome(s, true)
    decreases l
  {
    hide Up;
    if l > 0 {
      NoBits(s, a, l - 1);
    }
  }

  lemma BitsStep(s: FreeSet, a: nat, r: nat, l: nat)
    requires l <= TOP
    ensures FreeBits(s, a, r, l) ==
      if l == 0 then Outcome(s, true)
      else if r >= Size(l - 1) then
        var o := FreeAndCoalesce(s, Block(l - 1, Up(a, l - 1)));
        if o.inBounds then FreeBits(o.state, a + Size(l - 1), r - Size(l - 1), l - 1) else o
      else FreeBits(s, a, r, l - 1)
    ensures MergeBits(s, a, r, l) ==
      if l == 0 then s
      else if r >= Size(l - 1) then
        MergeBits(Coalesce(s, Block(l - 1, Up(a, l - 1))), a + Size(l - 1), r - Size(l - 1), l - 1)
      else MergeBits(s, a, r, l - 1)
  {
  }

  /** Freeing the pieces adds exactly the frames [a, a + r). */
  lemma {:induction false} MergeBitsIsExact(s: FreeSet, blocks: nat, a: nat, r: nat, k: nat, l: nat)
    requires WellFormed(s, blocks) && Coalesced(s)
    requires Live(s, blocks, a, r, k) && k <= l <= TOP && r < Size(l)
    ensures WellFormed(MergeBits(s, a, r, l), blocks) && Coalesced(MergeBits(s, a, r, l))
    ensures forall f: nat :: FreeAt(MergeBits(s, a, r, l), f) <==> FreeAt(s, f) || InRun(f, a, r)
    decreases l
  {
    hide Up, Down, WellFormed, Coalesced, FreeAt, InMemory, Coalesce, MergeBits, Size;
    BitsStep(s, a, r, l);
    if l == 0 {
      SmallSize(0);
    } else {
      SizeDoubles(l - 1);
      if k == l { HalvesAligned(blocks, a, l); }
      if r >= Size(l - 1) {
        var t := Coalesce(s, Block(l - 1, Up(a, l - 1)));
        if k < l { SizeGrows(k, l - 1); }
        MergePiece(s, blocks, a, l - 1);
        if k < l {
          NoBits(t, a + Size(l - 1), l - 1);
        } else {
          MergeBitsIsExact(t, blocks, a + Size(l - 1), r - Size(l - 1), l - 1, l - 1);
        }
      } else {
        MergeBitsIsExact(s, blocks, a, r, if k == l then l - 1 else k, l - 1);
      }
    }
  }

  lemma SizeDoubles(l: nat)
    ensures Size(l + 1) == 2 * Size(l)
  {
  }

  lemma {:induction false} SizeGrows(k: nat, l: nat)
    requires k <= l
    ensures Size(k) <= Size(l) && (k < l ==> Size(k) < Size(l))
    decreases l
  {
    if k < l {
      SizeGrows(k, l - 1);
    }
  }

  // ----- When the code as written frees correctly -----

  /** Merging touches no top-level block except the one that contains b. */
  lemma {:induction false} OtherTopBlocksUnchanged(s: FreeSet, b: Block, c: Block)
    requires b.level <= TOP && c.level == TOP && c != Ancestor(b, TOP)
    ensures c in Coalesce(s, b) <==> c in s
    decreases TOP - b.level
  {
    hide Up;
    if b.level < TOP {
      AncestorOfParent(b, TOP);
      if Buddy(b) in s {
        OtherTopBlocksUnchanged(s - {Buddy(b)}, Parent(b), c);
      }
    } else {
      AncestorOfItself(b);
    }
  }

  lemma AncestorOfItself(b: Block)
    ensures Ancestor(b, b.level) == b
  {
  }

  /** The top-level block that contains frame a. */
  function TopBlock(a: nat): Block
  {
    Block(TOP, Up(a, TOP))
  }

  lemma {:induction false} UpTwice(f: nat, l: nat, m: nat)
    ensures Up(Up(f, l), m) == Up(f, l + m)
  {
    if m > 0 {
      UpTwice(f, l, m - 1);
    }
  }

  /** Freeing one piece stays in bounds unless it completes a top-level block whose neighbour
      is free. */
  lemma PieceInBoundsIff(s: FreeSet, a: nat, l: nat)
    requires l <= TOP && !FreeAt(s, a)
    ensures var b := Block(l, Up(a, l)); var t := Coalesce(s, b);
      && (FreeAndCoalesce(s, b).inBounds <==> !(TopBlock(a) in t && Buddy(TopBlock(a)) in s))
      && (FreeAndCoalesce(s, b).inBounds ==> FreeAndCoalesce(s, b).state == t)
      && (Buddy(TopBlock(a)) in t <==> Buddy(TopBlock(a)) in s)
  {
    hide Up, FreeAt, FreeAndCoalesce, Coalesce, BuddiesFreeToTop;
    var b := Block(l, Up(a, l));
    UpTwice(a, l, TOP - l);
    NotFreeBlock(s, TopBlock(a), a);
    OverrunIffTopPair(s, b);
    CodeMeetsIntentIff(s, b);
    OtherTopBlocksUnchanged(s, b, Buddy(TopBlock(a)));
  }

  /** PMM_FreeFrames runs into level 5 if and only if freeing completes a top-level block whose
      neighbour is free; otherwise it does what was intended. */
  lemma {:induction false} FreeBitsInBoundsIff(s: FreeSet, blocks: nat, a: nat, r: nat, k: nat, l: nat)
    requires WellFormed(s, blocks) && Coalesced(s)
    requires Live(s, blocks, a, r, k) && k <= l <= TOP && 0 < r < Size(l)
    ensures FreeBits(s, a, r, l).inBounds <==>
            !(TopBlock(a) in MergeBits(s, a, r, l) && Buddy(TopBlock(a)) in s)
    ensures FreeBits(s, a, r, l).inBounds ==> FreeBits(s, a, r, l).state == MergeBits(s, a, r, l)
    decreases l
  {
    hide Up, Down, WellFormed, Coalesced, FreeAt, InMemory, Coalesce, FreeAndCoalesce, FreeBits, MergeBits;
    BitsStep(s, a, r, l);
    if k == l { HalvesAligned(blocks, a, l); }
    if r >= Size(l - 1) {
      var t := Coalesce(s, Block(l - 1, Up(a, l - 1)));
      MergePiece(s, blocks, a, l - 1);
      assert InRun(a, a, r);
      PieceInBoundsIff(s, a, l - 1);
      if k < l { SizeGrows(k, l - 1); }
      var rest := r - Size(l - 1);
      if rest == 0 {
        NoBits(t, a + Size(l - 1), l - 1);
      } else {
        assert InRun(a + Size(l - 1), a, r);
        NotFreeBlock(t, TopBlock(a), a + Size(l - 1));
        FreeBitsInBoundsIff(t, blocks, a + Size(l - 1), rest, l - 1, l - 1);
      }
    } else {
      FreeBitsInBoundsIff(s, blocks, a, r, if k == l then l - 1 else k, l - 1);
    }
  }

  /** PMM_FreeFrames of a live range: what it was meant to do adds exactly the range to the free
      set, and the code does just that if and only if the range is a whole top-level block or
      freeing it does not complete one whose neighbour is free. */
  lemma FreeIsExact(s: FreeSet, blocks: nat, a: nat, count: nat)
    requires WellFormed(s, blocks) && Coalesced(s)
    requires 0 < count <= 16 && Live(s, blocks, a, count, LevelFor(count))
    ensures WellFormed(Merge(s, a, count), blocks) && Coalesced(Merge(s, a, count))
    ensures forall f: nat :: FreeAt(Merge(s, a, count), f) <==> FreeAt(s, f) || InRun(f, a, count)
    ensures Free(s, a, count).inBounds <==>
            count == 16 || !(TopBlock(a) in Merge(s, a, count) && Buddy(TopBlock(a)) in s)
    ensures Free(s, a, count).inBounds ==> Free(s, a, count).state == Merge(s, a, count)
  {
    hide Up, Down, WellFormed, Coalesced, FreeAt, InMemory, FreeBits, MergeBits, Size;
    if count == 16 {
      NoBits(s + {TopBlock(a)}, a, TOP);
      FreeWhole(s, blocks, a);
    } else {
      SmallSize(TOP);
      MergeBitsIsExact(s, blocks, a, count, LevelFor(count), TOP);
      FreeBitsInBoundsIff(s, blocks, a, count, LevelFor(count), TOP);
    }
  }

  lemma FreeWhole(s: FreeSet, blocks: nat, a: nat)
    requires WellFormed(s, blocks) && Coalesced(s)
    requires Live(s, blocks, a, 16, TOP)
    ensures var t := s + {TopBlock(a)};
      && WellFormed(t, blocks) && Coalesced(t)
      && forall f: nat :: FreeAt(t, f) <==> FreeAt(s, f) || InRun(f, a, 16)
  {
    hide Up, Down, WellFormed, Coalesced, FreeAt, InMemory;
    SmallSize(TOP);
    PieceIsFreeable(s, blocks, a, TOP);
    AddBlock(s, blocks, TopBlock(a));
  }
}
