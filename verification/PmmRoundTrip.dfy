/** Requesting and giving back, observed on the words of the five bitmaps. */
module PmmRoundTrip {
  import opened BuddyBlocks
  import opened BuddyFrames
  import opened BuddyFree
  import opened BuddyRoundTrip
  import opened BuddyOddCounts
  import opened Pmm

  /** The words of the five bitmaps. */
  ghost function Words(p: FrameAllocator): seq<seq<Word>>
    requires |p.bitmaps| == TOP + 1
    reads p.bitmaps
  {
    [p.bitmaps[0][..], p.bitmaps[1][..], p.bitmaps[2][..], p.bitmaps[3][..], p.bitmaps[4][..]]
  }

  ghost predicate Encodes(words: seq<seq<Word>>, s: FreeSet, blocks: nat)
  {
    && |words| == TOP + 1 && InRange(s, blocks)
    && (forall l: nat :: l <= TOP ==> 32 * |words[l]| == Down(blocks, TOP - l))
    && forall l: nat, w: nat, k: nat :: l <= TOP && w < |words[l]| && k < 32 ==>
         (Block(l, 32 * w + k) in s <==> !words[l][w][k])
  }

  /** The words and the set of free blocks determine each other. */
  lemma WordsIffFree(v: seq<seq<Word>>, s: FreeSet, w: seq<seq<Word>>, t: FreeSet, blocks: nat)
    requires Encodes(v, s, blocks) && Encodes(w, t, blocks)
    ensures v == w <==> s == t
  {
    hide Down;
    if s == t {
      forall l: nat | l <= TOP ensures v[l] == w[l] {
        forall i | 0 <= i < |v[l]| ensures v[l][i] == w[l][i] {
          forall k: nat | k < 32 ensures v[l][i][k] == w[l][i][k] {
            assert Block(l, 32 * i + k) in s <==> !v[l][i][k];
          }
        }
      }
    }
    if v == w {
      forall b ensures b in s <==> b in t {
        if b.level <= TOP && b.index < Down(blocks, TOP - b.level) {
          var i, k := b.index / 32, b.index % 32;
          assert b == Block(b.level, 32 * i + k);
          assert v[b.level][i][k] == w[b.level][i][k];
        }
      }
    }
  }

  lemma LiveFits(blocks: nat, a: nat, count: nat)
    requires 0 < count <= 16 && InMemory(blocks, a, LevelFor(count))
    ensures a + count <= 16 * blocks
  {
    hide Up, Down;
    InRangeFrames(blocks, LevelFor(count), Up(a, LevelFor(count)));
    SmallSize(LevelFor(count));
  }

  lemma GotFits(s: FreeSet, blocks: nat, count: nat)
    requires WellFormed(s, blocks) && Coalesced(s) && Get(s, count).0 != 0
    ensures Get(s, count).0 + count <= 16 * blocks
  {
    hide WellFormed, Coalesced, FreeAt, InMemory, Get, Up, Down;
    OnlyUpToSixteen(s, count);
    if count == 0 {
      ZeroKeepsABlock(s, blocks);
      LiveFits(blocks, Get(s, 0).0, 4);
    } else if count == 12 {
      TwelveTakes(s, blocks);
      LiveFits(blocks, Get(s, 12).0, 12);
    } else {
      GetIsExact(s, blocks, count);
      LiveFits(blocks, Get(s, count).0, count);
    }
  }

  lemma ValidEncodes(p: FrameAllocator)
    requires p.Valid()
    ensures Encodes(Words(p), p.free, p.blocks)
  {
    hide Down, InRange;
  }

  /** A successful request, given back at once, leaves every word of every bitmap as it was if
      and only if the count keeps nothing and, unless it is 16, the block was not carved from a
      top-level block with a free neighbour. */
  method GetThenFree(p: FrameAllocator, count: nat) returns (address: nat, inBounds: bool)
    requires p.Valid() && WellFormed(p.free, p.blocks) && Coalesced(p.free)
    modifies p, p.bitmaps
    ensures p.Valid()
    ensures address == old(Get(p.free, count).0)
    ensures address != 0 ==>
      (inBounds && Words(p) == old(Words(p)) <==>
       NothingKept(count) && (count == 16 || !FromTopPair(old(p.free), address)))
  {
    hide WellFormed, Coalesced, Get, Free, FromTopPair, Encodes, Down, InRange;
    ghost var s, v := p.free, Words(p);
    ValidEncodes(p);
    inBounds := true;
    address := p.GetFrames(count);
    if address != 0 {
      GotFits(s, p.blocks, count);
      inBounds := p.FreeFrames(address, count);
      ValidEncodes(p);
      WordsIffFree(v, s, Words(p), p.free, p.blocks);
      FreeUndoesGetIff(s, p.blocks, count);
    }
  }
}
