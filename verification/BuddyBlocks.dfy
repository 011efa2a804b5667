/** The buddy system on values: which blocks are free, and what splitting, handing back
    a tail and coalescing do to that set.

    A block of level l is a run of 2^l frames whose first frame is a multiple of 2^l; it is
    named by its level and its index. The bitmaps of pmm.c are one bit per block, so a state
    of the allocator is the set of blocks whose bit says "free". */
module BuddyBlocks {

  const TOP: nat := 4

  datatype Block = Block(level: nat, index: nat)

  type FreeSet = set<Block>

  // ----- Block geometry -----

  /** The number of frames in a block: 1 << level. */
  function Size(level: nat): (r: nat)
    ensures r > 0
  {
    if level == 0 then 1 else 2 * Size(level - 1)
  }

  /** The index, d levels up, of the block that contains block i: i >> d. */
  function Up(i: nat, d: nat): nat
  {
    if d == 0 then i else Up(i, d - 1) / 2
  }

  /** The leftmost block d levels below block i: i << d. */
  function Down(i: nat, d: nat): nat
    decreases d
  {
    if d == 0 then i else Down(2 * i, d - 1)
  }

  function Sibling(i: nat): (r: nat)
  {
    if i % 2 == 0 then i + 1 else i - 1
  }

  function Buddy(b: Block): Block
  {
    Block(b.level, Sibling(b.index))
  }

  function Parent(b: Block): Block
  {
    Block(b.level + 1, b.index / 2)
  }

  predicate Contains(b: Block, f: nat)
  {
    Up(f, b.level) == b.index
  }

  lemma {:induction false} UpMonotone(f: nat, g: nat, l: nat, m: nat)
    requires Up(f, l) == Up(g, l) && l <= m
    ensures Up(f, m) == Up(g, m)
    decreases m - l
  {
    if l < m {
      UpMonotone(f, g, l + 1, m);
    }
  }

  lemma {:induction false} UpDown(i: nat, d: nat)
    ensures Up(Down(i, d), d) == i
    decreases d
  {
    if d > 0 {
      UpDown(2 * i, d - 1);
    }
  }

  lemma {:induction false} DownTwice(i: nat, d: nat)
    ensures Down(i, d + 1) == 2 * Down(i, d)
    decreases d
  {
    if d > 0 {
      DownTwice(2 * i, d - 1);
    }
  }

  /** Containment is an interval of frames. */
  lemma {:induction false} ContainsInterval(l: nat, i: nat, f: nat)
    ensures Down(i, l) < Down(i + 1, l)
    ensures Contains(Block(l, i), f) <==> Down(i, l) <= f < Down(i + 1, l)
  {
    if l > 0 {
      ContainsInterval(l - 1, 2 * i, f);
      ContainsInterval(l - 1, 2 * i + 1, f);
      assert Down(i + 1, l) == Down(2 * i + 2, l - 1);
      ParentFrames(Block(l - 1, 2 * i), f);
    }
  }

  lemma {:induction false} DownIsProduct(i: nat, d: nat)
    ensures Down(i, d) == i * Size(d)
    decreases d
  {
    if d > 0 {
      DownIsProduct(2 * i, d - 1);
      assert 2 * i * Size(d - 1) == i * (2 * Size(d - 1));
    }
  }

  lemma {:induction false} UpOfHalf(i: nat, d: nat)
    ensures Up(i / 2, d) == Up(i, d + 1)
  {
    if d > 0 {
      UpOfHalf(i, d - 1);
    }
  }

  lemma {:induction false} UpShift(f: nat, d: nat)
    ensures Up(f + Size(d), d) == Up(f, d) + 1
    decreases d
  {
    if d > 0 {
      UpShift(f / 2, d - 1);
      UpOfHalf(f, d - 1);
      UpOfHalf(f + Size(d), d - 1);
    }
  }

  // ----- Free frames and well-formed states -----

  /** Frame f lies in a free block, at whatever level. */
  ghost predicate FreeAt(s: FreeSet, f: nat)
  {
    exists l: nat :: l <= TOP && Block(l, Up(f, l)) in s
  }

  ghost function FreeFrames(s: FreeSet): iset<nat>
  {
    iset f: nat | FreeAt(s, f)
  }

  predicate InRun(f: nat, first: nat, count: nat)
  {
    first <= f < first + count
  }

  /** The frames [first, first + count). */
  ghost function Run(first: nat, count: nat): iset<nat>
  {
    iset f: nat | InRun(f, first, count)
  }

  /** The free blocks lie in a memory of 16 * blocks frames, no two of them share a frame,
      and frame 0, which pmm.c uses to say "failed", is in none of them. */
  ghost predicate WellFormed(s: FreeSet, blocks: nat)
  {
    && (forall b :: b in s ==> b.level <= TOP && 0 < b.index < Down(blocks, TOP - b.level))
    && forall f: nat, l: nat, m: nat :: Block(l, Up(f, l)) in s && Block(m, Up(f, m)) in s ==> l == m
  }

  /** Maximal coalescing: below the top level no block is free together with its buddy. */
  ghost predicate Coalesced(s: FreeSet)
  {
    forall b :: b in s && b.level < TOP ==> Buddy(b) !in s
  }

  lemma ParentFrames(b: Block, f: nat)
    ensures Contains(Parent(b), f) <==> Contains(b, f) || Contains(Buddy(b), f)
    ensures !(Contains(b, f) && Contains(Buddy(b), f))
  {
    assert Up(f, b.level + 1) == Up(f, b.level) / 2;
  }

  /** In a maximally coalesced state, an aligned run of free frames lies inside one free block. */
  lemma {:induction false} FreeRunIsCovered(s: FreeSet, l: nat, f: nat) returns (m: nat)
    requires Coalesced(s) && l <= TOP
    requires forall g: nat :: Up(g, l) == Up(f, l) ==> FreeAt(s, g)
    ensures l <= m <= TOP && Block(m, Up(f, m)) in s
  {
    if l == 0 {
      assert FreeAt(s, f);
      m :| 0 <= m <= TOP && Block(m, Up(f, m)) in s;
    } else {
      var i := Up(f, l);
      var left, right := Down(2 * i, l - 1), Down(2 * i + 1, l - 1);
      UpDown(2 * i, l - 1);
      UpDown(2 * i + 1, l - 1);
      m := FreeRunIsCovered(s, l - 1, left);
      if m < l {
        assert Buddy(Block(l - 1, 2 * i)) == Block(l - 1, 2 * i + 1);
        m := FreeRunIsCovered(s, l - 1, right);
        UpMonotone(right, f, l, m);
      } else {
        UpMonotone(left, f, l, m);
      }
    }
  }

  lemma FreeBlockIsShared(s: FreeSet, t: FreeSet, blocks: nat, b: Block)
    requires WellFormed(s, blocks) && Coalesced(s)
    requires WellFormed(t, blocks) && Coalesced(t)
    requires FreeFrames(s) == FreeFrames(t)
    requires b in s
    ensures b in t
  {
    var l, f := b.level, Down(b.index, b.level);
    UpDown(b.index, l);
    forall g: nat | Up(g, l) == Up(f, l) ensures FreeAt(t, g) {
      assert Block(l, Up(g, l)) in s;
      assert g in FreeFrames(s);
    }
    var m := FreeRunIsCovered(t, l, f);
    if m > l {
      forall g: nat | Up(g, m) == Up(f, m) ensures FreeAt(s, g) {
        assert Block(m, Up(g, m)) in t;
        assert g in FreeFrames(t);
      }
      var k := FreeRunIsCovered(s, m, f);
      assert false;
    }
  }

  /** A maximally coalesced state is determined by its set of free frames: there is one way,
      and only one, to store a given set of free frames in the five bitmaps. */
  lemma CoalescedIsCanonical(s: FreeSet, t: FreeSet, blocks: nat)
    requires WellFormed(s, blocks) && Coalesced(s)
    requires WellFormed(t, blocks) && Coalesced(t)
    requires FreeFrames(s) == FreeFrames(t)
    ensures s == t
  {
    forall b ensures b in s <==> b in t {
      if b in s { FreeBlockIsShared(s, t, blocks, b); }
      if b in t { FreeBlockIsShared(t, s, blocks, b); }
    }
  }

  // ----- Adding one free block -----

  /** None of b's frames is free, and b lies in the memory away from frame 0. */
  ghost predicate Freeable(s: FreeSet, blocks: nat, b: Block)
  {
    && b.level <= TOP && 0 < b.index < Down(blocks, TOP - b.level)
    && forall f: nat :: Contains(b, f) ==> !FreeAt(s, f)
  }

  lemma AddBlock(s: FreeSet, blocks: nat, b: Block)
    requires WellFormed(s, blocks) && Coalesced(s) && Freeable(s, blocks, b)
    requires b.level == TOP || Buddy(b) !in s
    ensures WellFormed(s + {b}, blocks) && Coalesced(s + {b})
    ensures forall f: nat :: FreeAt(s + {b}, f) <==> FreeAt(s, f) || Contains(b, f)
  {
    var t := s + {b};
    forall f: nat ensures FreeAt(t, f) <==> FreeAt(s, f) || Contains(b, f) {
      if Contains(b, f) {
        assert Block(b.level, Up(f, b.level)) in t;
      } else if FreeAt(s, f) {
        var l: nat :| l <= TOP && Block(l, Up(f, l)) in s;
        assert Block(l, Up(f, l)) in t;
      }
    }
    forall f: nat, l: nat, m: nat | Block(l, Up(f, l)) in t && Block(m, Up(f, m)) in t ensures l == m {
      assert Contains(b, f) ==> !FreeAt(s, f);
    }
    assert forall c :: Buddy(Buddy(c)) == c;
  }
}
