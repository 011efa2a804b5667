/** PPM_FreeAndCoalesce on values: free a block, merging it with its buddy as long as that is free. */
module BuddyCoalesce {
  import opened BuddyBlocks

  /** Freeing with a return at the top level, as the comment at pmm.c:233 intends. */
  ghost function Coalesce(s: FreeSet, b: Block): FreeSet
    requires b.level <= TOP
    decreases TOP - b.level
  {
    if b.level < TOP && Buddy(b) in s then
      Coalesce(s - {Buddy(b)}, Parent(b))
    else
      s + {b}
  }

  datatype Outcome = Outcome(state: FreeSet, inBounds: bool)

  /** Freeing as the code is written. Level 4 marks the block free and then, having no return,
      runs into the buddy check; when the buddy is free too, it is marked used and the function
      calls itself with level 5, for which there is no bitmap. The model stops there. */
  ghost function FreeAndCoalesce(s: FreeSet, b: Block): Outcome
    requires b.level <= TOP
    decreases TOP - b.level
  {
    if b.level == TOP then
      var t := s + {b};
      if Buddy(b) in t then Outcome(t - {Buddy(b)}, false) else Outcome(t, true)
    else if Buddy(b) in s then
      FreeAndCoalesce(s - {Buddy(b)}, Parent(b))
    else
      Outcome(s + {b}, true)
  }

  /** The block that contains b at a level no lower than b's. */
  function Ancestor(b: Block, level: nat): Block
    requires b.level <= level
  {
    Block(level, Up(b.index, level - b.level))
  }

  /** At every level from b's to the top, the buddy of the block that contains b is free. */
  ghost predicate BuddiesFreeToTop(s: FreeSet, b: Block)
  {
    forall l: nat :: b.level <= l <= TOP ==> Buddy(Ancestor(b, l)) in s
  }

  lemma AncestorOfParent(b: Block, level: nat)
    requires b.level < level
    ensures Ancestor(Parent(b), level) == Ancestor(b, level)
  {
    UpOfHalf(b.index, level - b.level - 1);
  }

  /** The code does what was intended if and only if it is not the case that the buddies are
      free all the way up to and including the top level. */
  lemma {:induction false} CodeMeetsIntentIff(s: FreeSet, b: Block)
    requires b.level <= TOP
    ensures FreeAndCoalesce(s, b).inBounds <==> !BuddiesFreeToTop(s, b)
    ensures FreeAndCoalesce(s, b) == Outcome(Coalesce(s, b), true) <==> !BuddiesFreeToTop(s, b)
    ensures BuddiesFreeToTop(s, b) ==> FreeAndCoalesce(s, b).state == Coalesce(s, b) - {Buddy(Ancestor(b, TOP))}
    decreases TOP - b.level
  {
    assert Ancestor(b, b.level) == b;
    if b.level < TOP && Buddy(b) in s {
      var t := s - {Buddy(b)};
      CodeMeetsIntentIff(t, Parent(b));
      AncestorOfParent(b, TOP);
      forall l: nat | b.level < l <= TOP
        ensures Ancestor(Parent(b), l) == Ancestor(b, l)
        ensures Buddy(Ancestor(b, l)) in s <==> Buddy(Ancestor(b, l)) in t
      {
        AncestorOfParent(b, l);
      }
      assert BuddiesFreeToTop(s, b) <==> BuddiesFreeToTop(t, Parent(b));
    }
  }

  lemma WithoutBuddy(s: FreeSet, blocks: nat, b: Block)
    requires WellFormed(s, blocks) && Coalesced(s) && Freeable(s, blocks, b)
    requires b.level < TOP && Buddy(b) in s
    ensures var t := s - {Buddy(b)};
      && WellFormed(t, blocks) && Coalesced(t) && Freeable(t, blocks, Parent(b))
      && forall f: nat :: FreeAt(t, f) <==> FreeAt(s, f) && !Contains(Buddy(b), f)
  {
    var t := s - {Buddy(b)};
    forall f: nat ensures FreeAt(t, f) <==> FreeAt(s, f) && !Contains(Buddy(b), f) {
      if FreeAt(s, f) && !Contains(Buddy(b), f) {
        var l: nat :| l <= TOP && Block(l, Up(f, l)) in s;
        assert Block(l, Up(f, l)) in t;
      }
    }
    forall f: nat | Contains(Parent(b), f) ensures !FreeAt(t, f) {
      ParentFrames(b, f);
    }
    assert Buddy(b).index > 0 && b.index > 0 && Parent(b).index > 0;
    DownTwice(blocks, TOP - b.level - 1);
  }

  /** Freeing a block adds exactly its frames to the free set, keeps the free blocks disjoint,
      and leaves no free buddy pair below the top, however far the merging goes. */
  lemma {:induction false} CoalesceIsExact(s: FreeSet, blocks: nat, b: Block)
    requires WellFormed(s, blocks) && Coalesced(s) && Freeable(s, blocks, b)
    ensures WellFormed(Coalesce(s, b), blocks) && Coalesced(Coalesce(s, b))
    ensures forall f: nat :: FreeAt(Coalesce(s, b), f) <==> FreeAt(s, f) || Contains(b, f)
    decreases TOP - b.level
  {
    if b.level < TOP && Buddy(b) in s {
      WithoutBuddy(s, blocks, b);
      CoalesceIsExact(s - {Buddy(b)}, blocks, Parent(b));
      forall f: nat ensures FreeAt(Coalesce(s, b), f) <==> FreeAt(s, f) || Contains(b, f) {
        ParentFrames(b, f);
        assert Contains(Buddy(b), f) ==> FreeAt(s, f);
      }
    } else {
      AddBlock(s, blocks, b);
    }
  }

  /** Freeing a block, whatever the state, makes its frames free and no free frame used. */
  lemma {:induction false} CoalesceCovers(s: FreeSet, b: Block, f: nat)
    requires b.level <= TOP && (FreeAt(s, f) || Contains(b, f))
    ensures FreeAt(Coalesce(s, b), f)
    decreases TOP - b.level
  {
    if b.level < TOP && Buddy(b) in s {
      var t := s - {Buddy(b)};
      ParentFrames(b, f);
      if !Contains(Parent(b), f) {
        var l: nat :| l <= TOP && Block(l, Up(f, l)) in s;
        assert Block(l, Up(f, l)) in t;
      }
      CoalesceCovers(t, Parent(b), f);
    } else if Contains(b, f) {
      assert Block(b.level, Up(f, b.level)) in s + {b};
    } else {
      var l: nat :| l <= TOP && Block(l, Up(f, l)) in s;
      assert Block(l, Up(f, l)) in s + {b};
    }
  }

  /** Below the level of the block, freeing adds nothing. */
  lemma {:induction false} CoalesceAddsAbove(s: FreeSet, b: Block, c: Block)
    requires b.level <= TOP && c.level < b.level && c !in s
    ensures c !in Coalesce(s, b)
    decreases TOP - b.level
  {
    if b.level < TOP && Buddy(b) in s {
      CoalesceAddsAbove(s - {Buddy(b)}, Parent(b), c);
    }
  }

  /** The level-5 call happens exactly when the merged block is a whole top-level block whose
      neighbour is free. */
  lemma {:induction false} OverrunIffTopPair(s: FreeSet, b: Block)
    requires b.level <= TOP && Ancestor(b, TOP) !in s
    ensures BuddiesFreeToTop(s, b) <==>
            Ancestor(b, TOP) in Coalesce(s, b) && Buddy(Ancestor(b, TOP)) in s
    decreases TOP - b.level
  {
    assert Ancestor(b, b.level) == b;
    if b.level < TOP && Buddy(b) in s {
      var t := s - {Buddy(b)};
      AncestorOfParent(b, TOP);
      OverrunIffTopPair(t, Parent(b));
      CodeMeetsIntentIff(s, b);
      CodeMeetsIntentIff(t, Parent(b));
    }
  }
}
