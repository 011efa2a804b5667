/** The physical frame allocator of pmm.c: five bitmaps of 32-bit words, changed in place. */
module Pmm {
  import opened Basics
  import opened BuddyBlocks
  import opened BuddySplit
  import opened BuddyCoalesce
  import opened BuddyFrames
  import opened BuddyFree

  /** A 32-bit word as its bits, lowest first: `w[k := true]` is `w | 1 << k`, `w[k := false]`
      is `w & ~(1 << k)`. A clear bit says "free". */
  type Word = w: seq<bool> | |w| == 32 witness seq(32, _ => true)

  /** _BSF(~w): the position of the lowest clear bit, from bit k on. */
  function LowestClear(w: Word, k: nat := 0): (r: nat)
    requires k <= 32 && false in w[k..]
    ensures k <= r < 32 && !w[r] && forall j :: k <= j < r ==> w[j]
    decreases 32 - k
  {
    if !w[k] then k else
      assert w[k..] == [w[k]] + w[k + 1..];
      LowestClear(w, k + 1)
  }

  /** The code's word and bit of the block that contains frame a name bit Up(a, level). */
  lemma WordAndBit(a: nat, level: nat)
    requires level <= TOP
    ensures 32 * (a / 32 / Size(level)) + a / Size(level) % 32 == Up(a, level)
    ensures a / Size(level) == Up(a, level)
  {
    SmallSize(level);
    SmallUp(a, level);
    if level == 0 {
    } else if level == 1 {
      assert a / 32 / 2 == a / 2 / 32;
    } else if level == 2 {
      assert a / 32 / 4 == a / 4 / 32;
    } else if level == 3 {
      assert a / 32 / 8 == a / 8 / 32;
    } else {
      assert a / 32 / 16 == a / 16 / 32;
    }
  }

  class FrameAllocator {
    const blocks: nat
    const bitmaps: seq<array<Word>>
    ghost var free: FreeSet

    /** A bit is clear exactly when its block is in `free`. */
    ghost predicate Valid()
      reads this, bitmaps
    {
      && 0 < blocks && |bitmaps| == TOP + 1
      && (forall l, m :: 0 <= l < m <= TOP ==> bitmaps[l] != bitmaps[m])
      && (forall l: nat :: l <= TOP ==> 32 * bitmaps[l].Length == Down(blocks, TOP - l))
      && (forall l: nat, w: nat, k: nat :: l <= TOP && w < bitmaps[l].Length && k < 32 ==>
            (Block(l, 32 * w + k) in free <==> !bitmaps[l][w][k]))
      && InRange(free, blocks)
    }

    /** The start of PMM_Init: five bitmaps of ones. */
    constructor (words: nat)
      requires 0 < words
      ensures Valid() && free == {} && blocks == 32 * words
      ensures fresh(this) && fresh(bitmaps)
    {
      hide Down;
      var full: Word := seq(32, _ => true);
      var b0 := new Word[16 * words](_ => full);
      var b1 := new Word[8 * words](_ => full);
      var b2 := new Word[4 * words](_ => full);
      var b3 := new Word[2 * words](_ => full);
      var b4 := new Word[words](_ => full);
      blocks := 32 * words;
      bitmaps := [b0, b1, b2, b3, b4];
      free := {};
      new;
      forall l: nat | l <= TOP
        ensures 32 * bitmaps[l].Length == Down(blocks, TOP - l)
        ensures forall w: nat, k: nat :: w < bitmaps[l].Length && k < 32 ==> bitmaps[l][w][k]
      {
        SmallDown(blocks, TOP - l);
      }
    }

    /** Setting one bit of a word ("used") or clearing it ("free"). */
    method Mark(level: nat, word: nat, bit: nat, used: bool)
      requires Valid() && level <= TOP && bit < 32
      requires 32 * word + bit < Down(blocks, TOP - level)
      modifies this, bitmaps[level]
      ensures Valid()
      ensures free == if used then old(free) - {Block(level, 32 * word + bit)}
                      else old(free) + {Block(level, 32 * word + bit)}
    {
      hide Down;
      ghost var b := Block(level, 32 * word + bit);
      bitmaps[level][word] := bitmaps[level][word][bit := used];
      free := if used then free - {b} else free + {b};
      assert forall l: nat, w: nat, k: nat :: l <= TOP && w < bitmaps[l].Length && k < 32 ==>
        (bitmaps[l][w][k] == if Block(l, 32 * w + k) == b then used else old(bitmaps[l][w][k]));
    }

    /** PMM_FindAndSplit. The code's failure path has no return statement; it is read as
        returning the 0 that `address` holds there. */
    method FindAndSplit(level: nat) returns (address: nat)
      requires Valid() && level <= TOP + 1
      modifies this, bitmaps
      ensures Valid()
      ensures (address, free) == Take(old(free), level)
      decreases TOP + 1 - level
    {
      hide Up, Down, HasLevel, InRange, Size;
      if level == TOP + 1 { return 0; }
      var i := 0;
      while i < bitmaps[level].Length
        invariant i <= bitmaps[level].Length
        invariant forall w: nat, k: nat :: w < i && k < 32 ==> bitmaps[level][w][k]
      {
        if false in bitmaps[level][i] {
          var bit := LowestClear(bitmaps[level][i]);
          FoundLowest(level, i, bit);
          Mark(level, i, bit, true);
          return (i * 32 + bit) * Size(level);
        }
        i := i + 1;
      }
      NothingAt(level);
      TakeInRange(free, blocks, level + 1);
      address := FindAndSplit(level + 1);
      if address != 0 {
        SecondHalf(blocks, address, level);
        WordAndBit(address, level);
        WordAndBit(address + Size(level), level);
        Mark(level, address / 32 / Size(level), address / Size(level) % 32, true);
        Mark(level, (address + Size(level)) / 32 / Size(level), (address + Size(level)) / Size(level) % 32, false);
      }
    }

    /** The else-if chain that hands back the lowest piece of the tail, and only that one. */
    method HandBack(address: nat, count: nat, remaining: nat)
      requires Valid()
      requires (4 < count < 8 && remaining == 8 - count) || (8 < count < 16 && remaining == 16 - count)
      requires address + count + remaining <= 16 * blocks
      modifies this, bitmaps
      ensures Valid()
      ensures free == old(free) + Tail(address, count)
    {
      hide Up, InRange, Size, Tail;
      TailBits(address + count);
      TailByRemaining(address, count, remaining);
      SmallDown(blocks, TOP); SmallDown(blocks, TOP - 1);
      if remaining % 2 == 1 {
        Mark(0, (address + count) / 32, (address + count) % 32, false);
      } else if remaining / 2 % 2 == 1 {
        Mark(1, (address + count) / 32 / 2, (address + count) / 2 % 32, false);
      } else if remaining / 4 % 2 == 1 {
        Mark(1, (address + count) / 32 / 4, (address + count) / 4 % 32, false);
      }
    }

    /** PMM_GetFrames, branch by branch. */
    method GetFrames(count: nat) returns (address: nat)
      requires Valid()
      modifies this, bitmaps
      ensures Valid()
      ensures (address, free) == Get(old(free), count)
    {
      hide Up, Down, InRange, Take, Size;
      if count <= 16 { RequestInRange(free, blocks, count); }
      if count == 1 {
        address := FindAndSplit(0);
        assert free == free + Tail(address, count);
      } else if count == 2 {
        address := FindAndSplit(1);
        assert free == free + Tail(address, count);
      } else if count <= 4 {
        address := FindAndSplit(2);
        if count == 3 {
          TailBits(address + 3);
          Mark(0, (address + 3) / 32, (address + 3) % 32, false);
        } else {
          assert free == free + Tail(address, count);
        }
      } else if count <= 8 {
        address := FindAndSplit(3);
        if count == 8 {
          assert free == free + Tail(address, count);
          return;
        }
        HandBack(address, count, 8 - count);
      } else if count <= 16 {
        address := FindAndSplit(4);
        if count == 16 {
          assert free == free + Tail(address, count);
          return;
        }
        HandBack(address, count, 16 - count);
      } else {
        address := 0;
      }
    }

    /** The bit of the block at `address` says "free". */
    method BitClear(level: nat, word: nat, bit: nat) returns (r: bool)
      requires Valid() && level <= TOP && bit < 32
      requires 32 * word + bit < Down(blocks, TOP - level)
      ensures r <==> Block(level, 32 * word + bit) in free
    {
      hide Down;
      r := !bitmaps[level][word][bit];
    }

    /** PPM_FreeAndCoalesce as written; false means that it was called with level 5, for which
        there is no bitmap. */
    method CoalesceFrom(level: nat, address: nat) returns (inBounds: bool)
      requires Valid() && level <= TOP + 1
      requires level <= TOP ==> Up(address, level) < Down(blocks, TOP - level)
      modifies this, bitmaps
      ensures Valid()
      ensures level == TOP + 1 ==> !inBounds && free == old(free)
      ensures level <= TOP ==>
        Outcome(free, inBounds) == FreeAndCoalesce(old(free), Block(level, Up(address, level)))
      decreases TOP + 1 - level
    {
      hide Up, Down, InRange, Size, FreeAndCoalesce;
      if level == TOP + 1 { return false; }
      ghost var b := Block(level, Up(address, level));
      WordAndBit(address, level);
      var index, merge := address / Size(level), false;
      EvenAndHalf(blocks, bitmaps[level].Length, level, index);
      CoalesceStep(free, level, index);
      if level == 4 {
        Mark(4, address / 32 / Size(4), address / Size(4) % 32, false);
      }
      if index % 2 == 0 {
        RightNeighbour(address, level, index);
        merge := BitClear(level, (address + Size(level)) / 32 / Size(level), (index + 1) % 32);
      }
      if merge {
        Mark(level, (address + Size(level)) / 32 / Size(level), (index + 1) % 32, true);
        assert free == (if level == TOP then old(free) + {b} else old(free)) - {Block(level, index + 1)};
        assert Up(address, level + 1) == index / 2 by { UpStep(address, level); }
        inBounds := CoalesceFrom(level + 1, address);
      } else {
        if index % 2 == 1 {
          LeftNeighbour(address, level, index);
          merge := BitClear(level, (address - Size(level)) / 32 / Size(level), (index - 1) % 32);
        }
        if merge {
          Mark(level, (address - Size(level)) / 32 / Size(level), (index - 1) % 32, true);
          assert free == (if level == TOP then old(free) + {b} else old(free)) - {Block(level, index - 1)};
          assert Up(address - Size(level), level + 1) == index / 2 by { UpStep(address - Size(level), level); }
          inBounds := CoalesceFrom(level + 1, address - Size(level));
        } else {
          Mark(level, address / 32 / Size(level), index % 32, false);
          assert free == old(free) + {b};
          inBounds := true;
        }
      }
    }

    /** One bit of count in PMM_FreeFrames. */
    method FreeBit(level: nat, address: nat, count: nat) returns (next: nat, inBounds: bool)
      requires Valid() && level < TOP
      requires address + count % (2 * Size(level)) <= 16 * blocks
      modifies this, bitmaps
      ensures Valid()
      ensures inBounds ==> next + count % Size(level) <= 16 * blocks
      ensures FreeBits(old(free), address, count % (2 * Size(level)), level + 1) ==
        if inBounds then FreeBits(free, next, count % Size(level), level) else Outcome(free, false)
    {
      hide Up, Down, InRange, FreeAndCoalesce;
      FreeBitsStep(free, address, count, level);
      next, inBounds := address, true;
      if count / Size(level) % 2 == 1 {
        UpInRange(blocks, address, level);
        inBounds := CoalesceFrom(level, address);
        next := address + Size(level);
      }
    }

    /** PMM_FreeFrames: false means that level 5 was asked for. */
    method FreeFrames(address: nat, count: nat) returns (inBounds: bool)
      requires Valid() && address + count <= 16 * blocks
      modifies this, bitmaps
      ensures Valid()
      ensures Outcome(free, inBounds) == Free(old(free), address, count)
    {
      hide Up, Down, InRange, FreeBits;
      SmallSize(0); SmallSize(1); SmallSize(2); SmallSize(3); SmallSize(4);
      if count == 16 {
        UpInRange(blocks, address, TOP);
        WordAndBit(address, TOP);
        Mark(4, address / 32 / 16, address / 16 % 32, false);
      }
      var at := address;
      at, inBounds := FreeBit(3, at, count);
      if inBounds { at, inBounds := FreeBit(2, at, count); }
      if inBounds { at, inBounds := FreeBit(1, at, count); }
      if inBounds { at, inBounds := FreeBit(0, at, count); }
      if inBounds { assert FreeBits(free, at, count % Size(0), 0) == Outcome(free, true) by { NoBits(free, at, 0); } }
    }

    lemma FoundLowest(level: nat, i: nat, bit: nat)
      requires Valid() && level <= TOP && i < bitmaps[level].Length && bit < 32
      requires forall w: nat, k: nat :: w < i && k < 32 ==> bitmaps[level][w][k]
      requires !bitmaps[level][i][bit] && forall k: nat :: k < bit ==> bitmaps[level][i][k]
      ensures Take(free, level) == ((i * 32 + bit) * Size(level), free - {Block(level, i * 32 + bit)})
      ensures 32 * i + bit < Down(blocks, TOP - level)
    {
      hide Down;
      var n := 32 * i + bit;
      forall j: nat | j < n ensures Block(level, j) !in free {
        assert j == 32 * (j / 32) + j % 32;
        assert bitmaps[level][j / 32][j % 32];
      }
      assert Block(level, n) in free;
      assert Lowest(free, level) == n;
      DownIsProduct(n, level);
    }

    lemma NothingAt(level: nat)
      requires Valid() && level <= TOP
      requires forall w: nat, k: nat :: w < bitmaps[level].Length && k < 32 ==> bitmaps[level][w][k]
      ensures !HasLevel(free, level)
    {
      hide Down;
      forall j: nat ensures Block(level, j) !in free {
        assert j == 32 * (j / 32) + j % 32;
        if j < Down(blocks, TOP - level) {
          assert bitmaps[level][j / 32][j % 32];
        }
      }
    }
  }

  /** Every free block lies inside the memory. */
  ghost predicate InRange(s: FreeSet, blocks: nat)
  {
    forall b :: b in s ==> b.level <= TOP && b.index < Down(blocks, TOP - b.level)
  }

  /** PMM_FindAndSplit returns a frame of the memory, the first of a block of its level. */
  lemma {:induction false} TakeInRange(s: FreeSet, blocks: nat, level: nat)
    requires InRange(s, blocks) && level <= TOP + 1
    ensures InRange(Take(s, level).1, blocks)
    ensures level <= TOP && Take(s, level).0 != 0 ==> InMemory(blocks, Take(s, level).0, level)
    decreases TOP + 1 - level
  {
    hide Up, Down, Size, HasLevel, InMemory;
    if level <= TOP {
      if HasLevel(s, level) {
        LowestInRange(s, blocks, level);
      } else {
        TakeInRange(s, blocks, level + 1);
        var a := Take(s, level + 1).0;
        if a != 0 { HalfInMemory(blocks, a, level); }
      }
    }
  }

  lemma LowestInRange(s: FreeSet, blocks: nat, level: nat)
    requires InRange(s, blocks) && level <= TOP && HasLevel(s, level)
    ensures Down(Lowest(s, level), level) != 0 ==> InMemory(blocks, Down(Lowest(s, level), level), level)
  {
    hide Up, Down;
    assert Block(level, Lowest(s, level)) in s;
    UpDown(Lowest(s, level), level);
    DownIsProduct(0, level);
  }

  lemma HalfInMemory(blocks: nat, a: nat, level: nat)
    requires InMemory(blocks, a, level + 1)
    ensures InMemory(blocks, a, level) && level < TOP
    ensures Up(a + Size(level), level) < Down(blocks, TOP - level)
  {
    hide Up, Down, Size;
    SecondHalf(blocks, a, level);
  }

  /** The words and bits of the tail are those of Tail(a, count). */
  lemma TailBits(n: nat)
    ensures 32 * (n / 32) + n % 32 == n
    ensures 32 * (n / 32 / 2) + n / 2 % 32 == n / 2
    ensures 32 * (n / 32 / 4) + n / 4 % 32 == n / 4
  {
    WordAndBit(n, 0); WordAndBit(n, 1); WordAndBit(n, 2);
    SmallSize(0); SmallSize(1); SmallSize(2);
    SmallUp(n, 0); SmallUp(n, 1); SmallUp(n, 2);
  }

  lemma TailByRemaining(a: nat, count: nat, remaining: nat)
    requires (4 < count < 8 && remaining == 8 - count) || (8 < count < 16 && remaining == 16 - count)
    ensures Tail(a, count) ==
      if remaining % 2 == 1 then {Block(0, a + count)}
      else if remaining / 2 % 2 == 1 then {Block(1, (a + count) / 2)}
      else {Block(1, (a + count) / 4)}
    ensures remaining % 2 == 1 || remaining / 2 % 2 == 1 || remaining / 4 % 2 == 1
  {
  }

  /** The code's word and bit of the block to the right. */
  lemma RightNeighbour(a: nat, level: nat, i: nat)
    requires level <= TOP && i == Up(a, level)
    ensures 32 * ((a + Size(level)) / 32 / Size(level)) + (i + 1) % 32 == i + 1
  {
    hide Size, Up;
    UpShift(a, level);
    WordAndBit(a + Size(level), level);
  }

  /** The code's word and bit of the block to the left. */
  lemma LeftNeighbour(a: nat, level: nat, i: nat)
    requires level <= TOP && 0 < i == Up(a, level)
    ensures a >= Size(level) && Up(a - Size(level), level) == i - 1
    ensures 32 * ((a - Size(level)) / 32 / Size(level)) + (i - 1) % 32 == i - 1
  {
    hide Size, Up;
    BeforeOdd(a, level);
    UpShift(a - Size(level), level);
    WordAndBit(a - Size(level), level);
  }

  lemma UpInRange(blocks: nat, a: nat, level: nat)
    requires level <= TOP && a < 16 * blocks
    ensures Up(a, level) < Down(blocks, TOP - level)
  {
    SmallUp(a, level);
    SmallDown(blocks, TOP - level);
  }

  lemma FreeBitsStep(s: FreeSet, a: nat, count: nat, level: nat)
    requires level < TOP
    ensures var o := FreeAndCoalesce(s, Block(level, Up(a, level))); var size := Size(level);
      && (count / size % 2 == 1 ==>
            && count % (2 * size) == size + count % size
            && FreeBits(s, a, count % (2 * size), level + 1) ==
                 if o.inBounds then FreeBits(o.state, a + size, count % size, level) else o)
      && (count / size % 2 == 0 ==>
            && count % (2 * size) == count % size
            && FreeBits(s, a, count % (2 * size), level + 1) == FreeBits(s, a, count % size, level))
  {
    hide Up, FreeAndCoalesce;
    SmallSize(level);
    BitOfCount(count, Size(level));
  }

  lemma BitOfCount(count: nat, size: nat)
    requires size > 0
    ensures count % (2 * size) == count % size + (if count / size % 2 == 1 then size else 0)
  {
    var q, r := count / size / 2, count % size;
    var bit := count / size % 2;
    assert count / size == 2 * q + bit;
    Regroup(count, size, q, bit, r);
    DivUnique(count, 2 * size, q, bit * size + r);
  }

  lemma Regroup(count: nat, size: nat, q: nat, bit: nat, r: nat)
    requires bit < 2 && r < size && count == (2 * q + bit) * size + r
    ensures count == q * (2 * size) + (bit * size + r) && bit * size + r < 2 * size
  {
  }

  lemma UpStep(a: nat, level: nat)
    ensures Up(a, level + 1) == Up(a, level) / 2
  {
  }

  /** There are evenly many blocks at every level. */
  lemma EvenAndHalf(blocks: nat, words: nat, level: nat, i: nat)
    requires level <= TOP && 32 * words == Down(blocks, TOP - level) && i < 32 * words
    ensures i % 2 == 0 ==> i + 1 < 32 * words
    ensures level < TOP ==> i / 2 < Down(blocks, TOP - level - 1)
  {
    hide Down;
    if level < TOP { DownTwice(blocks, TOP - level - 1); }
    assert 32 * words == 2 * (16 * words);
  }

  lemma CoalesceStep(s: FreeSet, level: nat, i: nat)
    requires level <= TOP
    ensures var b := Block(level, i); var buddy := Block(level, if i % 2 == 0 then i + 1 else i - 1);
      FreeAndCoalesce(s, b) ==
        if level == TOP && buddy in s then Outcome(s + {b} - {buddy}, false)
        else if buddy in s then FreeAndCoalesce(s - {buddy}, Block(level + 1, i / 2))
        else Outcome(s + {b}, true)
  {
  }

  lemma BeforeOdd(a: nat, level: nat)
    requires level <= TOP && Up(a, level) > 0
    ensures a >= Size(level)
  {
    SmallSize(level);
    SmallUp(a, level);
  }

  lemma RequestInRange(s: FreeSet, blocks: nat, count: nat)
    requires InRange(s, blocks) && count <= 16 && 0 < blocks
    ensures Take(s, LevelFor(count)).0 + Size(LevelFor(count)) <= 16 * blocks
    ensures Down(blocks, TOP) == 16 * blocks && Down(blocks, TOP - 1) == 8 * blocks
    ensures Size(LevelFor(count)) ==
      if count == 1 then 1 else if count == 2 then 2 else if count <= 4 then 4 else if count <= 8 then 8 else 16
  {
    hide Up, Down;
    var level := LevelFor(count);
    TakeInRange(s, blocks, level);
    var a := Take(s, level).0;
    SmallDown(blocks, TOP); SmallDown(blocks, TOP - 1);
    SmallSize(level);
    if a != 0 {
      InRangeFrames(blocks, level, Up(a, level));
    }
  }

  lemma SecondHalf(blocks: nat, a: nat, level: nat)
    requires 0 < level + 1 && InMemory(blocks, a, level + 1)
    ensures InMemory(blocks, a, level) && InMemory(blocks, a + Size(level), level)
  {
    HalvesAligned(blocks, a, level + 1);
  }
}
