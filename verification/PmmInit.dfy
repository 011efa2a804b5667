/** PMM_Init: filling the bitmaps from the memory map of the BIOS. */
module PmmInit {
  import opened Basics
  import opened BuddyBlocks
  import opened BuddyFrames
  import opened Pmm
  import opened MemDefs
  import opened MemoryMap
  import opened OrderlyMaps

  /** The entries, as the code sees them, end inside the memory that the bitmaps describe, and none
      ends in the last page of the 32-bit address space, past which addr would wrap around. */
  ghost predicate MapFits(entries: seq<Entry>, blocks: nat)
  {
    forall i :: 0 <= i < |entries| ==> entries[i].End() <= 16 * PAGE * blocks && entries[i].End() < WORD - PAGE
  }

  // ----- What the loop keeps -----

  /** Only frames below n have been made free. */
  ghost predicate Filled(s: FreeSet, blocks: nat, first: nat, n: nat)
  {
    && WellFormed(s, blocks) && Coalesced(s)
    && forall f: nat :: FreeAt(s, f) ==> first <= f < n
  }

  /** What has been made free, and what will be from entry k and frame n on, is what the loop makes
      free altogether. */
  ghost predicate Accounts(s: FreeSet, entries: seq<Entry>, first: nat, k: nat, n: nat)
    requires k <= |entries|
  {
    forall f: nat :: Freed(entries, first, f) <==> FreeAt(s, f) || FreedFrom(entries, k, n, f)
  }

  /** A left half that ends at frame n cannot be completed in the room that is left. */
  ghost predicate NoPairToCome(s: FreeSet, n: nat, room: nat)
  {
    forall b :: b in s && b.level < TOP && b.index % 2 == 0 && Down(b.index + 1, b.level) == n ==>
      room < Size(b.level) * PAGE
  }

  lemma BlocksEndBefore(s: FreeSet, blocks: nat, n: nat, b: Block)
    requires WellFormed(s, blocks) && b in s
    requires forall f: nat :: FreeAt(s, f) ==> f < n
    ensures Down(b.index + 1, b.level) <= n
  {
    hide Up, Down;
    var f := Down(b.index + 1, b.level);
    DownNext(b.index, b.level);
    BlockFrames(b.level, b.index, f - 1);
    assert Block(b.level, Up(f - 1, b.level)) in s;
    assert FreeAt(s, f - 1);
  }

  /** Moving on by one frame. */
  lemma SkipFrame(s: FreeSet, blocks: nat, first: nat, n: nat, room: nat)
    requires Filled(s, blocks, first, n)
    ensures Filled(s, blocks, first, n + 1) && NoPairToCome(s, n + 1, room)
  {
    hide WellFormed, Coalesced, FreeAt, Down;
    forall b | b in s ensures Down(b.index + 1, b.level) != n + 1 {
      BlocksEndBefore(s, blocks, n, b);
    }
  }

  /** The block the code picks at frame n: aligned, it fits the room, and the next larger size
      either is not aligned or does not fit. */
  ghost predicate Greedy(n: nat, room: nat, level: nat)
  {
    && level <= TOP && Aligned(n, level) && room >= Size(level) * PAGE
    && (level < TOP && Up(n, level) % 2 == 0 ==> room < 2 * Size(level) * PAGE)
  }

  lemma PickIsFreeable(s: FreeSet, blocks: nat, n: nat, room: nat, level: nat)
    requires WellFormed(s, blocks) && 0 < n && Greedy(n, room, level)
    requires n * PAGE + room <= 16 * PAGE * blocks
    requires forall f: nat :: FreeAt(s, f) ==> f < n
    requires NoPairToCome(s, n, room)
    ensures Freeable(s, blocks, Block(level, Up(n, level)))
    ensures level == TOP || Buddy(Block(level, Up(n, level))) !in s
  {
    hide Up, Down, FreeAt, WellFormed;
    var i := Up(n, level);
    var b := Block(level, i);
    SmallSize(level); SmallDown(i, level); SmallDown(blocks, TOP - level);
    forall f: nat | Contains(b, f) ensures !FreeAt(s, f) {
      BlockFrames(level, i, f);
    }
    if level < TOP && Buddy(b) in s {
      BlocksEndBefore(s, blocks, n, Buddy(b));
      SmallDown(Buddy(b).index + 1, level);
    }
  }

  /** Marking the block that the code picks. */
  lemma MarkPick(s: FreeSet, blocks: nat, first: nat, n: nat, room: nat, level: nat)
    requires Filled(s, blocks, first, n) && NoPairToCome(s, n, room) && 0 < n && first <= n
    requires Greedy(n, room, level) && n * PAGE + room <= 16 * PAGE * blocks
    ensures var t := s + {Block(level, Up(n, level))};
      && Filled(t, blocks, first, n + Size(level))
      && NoPairToCome(t, n + Size(level), room - Size(level) * PAGE)
      && forall f: nat :: FreeAt(t, f) <==> FreeAt(s, f) || InRun(f, n, Size(level))
  {
    hide Up, Down, FreeAt, WellFormed, Coalesced, Size;
    var i := Up(n, level);
    var b := Block(level, i);
    PickIsFreeable(s, blocks, n, room, level);
    AddBlock(s, blocks, b);
    DownNext(i, level);
    forall f: nat ensures Contains(b, f) <==> InRun(f, n, Size(level)) {
      BlockFrames(level, i, f);
    }
    forall c | c in s ensures Down(c.index + 1, c.level) != n + Size(level) {
      BlocksEndBefore(s, blocks, n, c);
    }
  }

  /** The level of the first of the code's five branches that applies: the largest block that is
      aligned at addr and fits the room. */
  function PickLevel(addr: nat, room: nat): (level: nat)
    ensures level <= TOP
  {
    if room >= 0x10000 && addr % 0x10000 == 0 then 4
    else if room >= 0x8000 && addr % 0x8000 == 0 then 3
    else if room >= 0x4000 && addr % 0x4000 == 0 then 2
    else if room >= 0x2000 && addr % 0x2000 == 0 then 1
    else 0
  }

  lemma PagesDivide(n: nat, size: nat)
    requires size in {1, 2, 4, 8, 16}
    ensures n * PAGE % (size * PAGE) == 0 <==> n % size == 0
    ensures n * PAGE / (size * PAGE) == n / size
  {
    var q, r := n / size, n % size;
    assert n * PAGE == q * (size * PAGE) + r * PAGE;
    DivUnique(n * PAGE, size * PAGE, q, r * PAGE);
  }

  /** The code's alignment test and block number, at a given level. */
  lemma PageAligned(n: nat, level: nat, bytes: nat)
    requires level <= TOP
    requires bytes == if level == 0 then 0x1000 else if level == 1 then 0x2000 else if level == 2 then 0x4000
                      else if level == 3 then 0x8000 else 0x10000
    ensures bytes == Size(level) * PAGE
    ensures n * PAGE % bytes == 0 <==> Aligned(n, level)
    ensures n * PAGE / bytes == Up(n, level)
  {
    hide Up, Aligned;
    SmallSize(level);
    SmallUp(n, level);
    AlignedIsMultiple(n, level);
    PagesDivide(n, Size(level));
  }

  lemma AlignedHigher(n: nat, level: nat)
    requires Aligned(n, level) && Up(n, level) % 2 == 0
    ensures Aligned(n, level + 1)
  {
    assert Up(n, level) == 2 * Up(n, level + 1);
    assert Down(Up(n, level + 1), level + 1) == Down(Up(n, level), level);
  }

  lemma PickIsGreedy(n: nat, room: nat)
    requires room >= PAGE
    ensures Greedy(n, room, PickLevel(n * PAGE, room))
  {
    hide Up, Size, Aligned;
    var level := PickLevel(n * PAGE, room);
    PageAligned(n, 0, 0x1000);
    PageAligned(n, 1, 0x2000);
    PageAligned(n, 2, 0x4000);
    PageAligned(n, 3, 0x8000);
    PageAligned(n, 4, 0x10000);
    if Aligned(n, level) && Up(n, level) % 2 == 0 { AlignedHigher(n, level); }
  }

  /** The two searches for an entry. */
  method FindEntry(entries: seq<Entry>, from: nat, addr: nat, strict: bool) returns (k: nat)
    requires from <= |entries|
    ensures k == Find(entries, from, addr, strict)
  {
    k := from;
    while k < |entries| && !Spans(entries[k], addr, strict)
      invariant from <= k <= |entries|
      invariant Find(entries, from, addr, strict) == Find(entries, k, addr, strict)
    {
      k := k + 1;
    }
  }

  // ----- What is still to be made free -----

  /** Walking through an entry that is not usable. */
  lemma WalkOn(entries: seq<Entry>, k: nat, n: nat, f: nat)
    requires k < |entries| && entries[k].kind != 1 && n * PAGE <= entries[k].End()
    ensures FreedFrom(entries, k, n, f) == FreedFrom(entries, k, n + 1, f)
  {
    if (n + 1) * PAGE > entries[k].End() { assert entries[k].NextFrame() == n + 1; }
  }

  /** Leaving a usable entry whose room is used up. */
  lemma SwitchOn(entries: seq<Entry>, k: nat, n: nat, f: nat)
    requires k < |entries| && entries[k].kind == 1 && n * PAGE <= entries[k].End() < (n + 1) * PAGE
    ensures FreedFrom(entries, k, n, f) == FreedFrom(entries, k + 1, n + 1, f)
  {
    assert entries[k].NextFrame() == n + 1;
  }

  /** Searching for the next entry. */
  lemma SearchOn(entries: seq<Entry>, k: nat, n: nat, f: nat)
    requires k <= |entries| && (k < |entries| ==> entries[k].End() < n * PAGE)
    ensures FreedFrom(entries, k, n, f) == FreedFrom(entries, Find(entries, k, n * PAGE, false), n, f)
  {
  }

  /** Using up part of the room of a usable entry. */
  lemma FillOn(entries: seq<Entry>, k: nat, n: nat, size: nat, f: nat)
    requires k < |entries| && entries[k].kind == 1 && (n + size) * PAGE <= entries[k].End()
    ensures FreedFrom(entries, k, n, f) <==> InRun(f, n, size) || FreedFrom(entries, k, n + size, f)
  {
    assert Step(entries, k, n) == Step(entries, k, n + size);
  }

  // ----- The loop -----

  function BlockBytes(level: nat): nat
  {
    if level == 0 then 0x1000 else if level == 1 then 0x2000 else if level == 2 then 0x4000
    else if level == 3 then 0x8000 else 0x10000
  }

  /** The loop's variables: entry k is the current one, addr = n * PAGE, `room` bytes are left
      (the number is meaningless once addr is past the entry, and in one that is not usable). */
  ghost predicate InLoop(s: FreeSet, blocks: nat, entries: seq<Entry>, first: nat, k: nat, n: nat, room: nat)
  {
    && 0 < n && first <= n && k <= |entries|
    && Filled(s, blocks, first, n) && Accounts(s, entries, first, k, n)
    && (if k < |entries| && n * PAGE <= entries[k].End() && entries[k].kind == 1
        then n * PAGE + room == entries[k].End() && NoPairToCome(s, n, room)
        else NoPairToCome(s, n, 16 * PAGE * blocks))
  }

  /** What is left of entry k from addr on, in 32 bits. */
  function Room(entries: seq<Entry>, k: nat, n: nat): nat
    requires k < |entries|
  {
    Low32(entries[k].BaseLo() + entries[k].LengthLo() - n * PAGE)
  }

  lemma RoomIsLeft(entries: seq<Entry>, k: nat, n: nat)
    requires k < |entries| && n * PAGE <= entries[k].End()
    ensures n * PAGE + Room(entries, k, n) == entries[k].End()
  {
    var sum := entries[k].BaseLo() + entries[k].LengthLo();
    assert sum == WORD * (sum / WORD) + entries[k].End();
    assert sum - n * PAGE == WORD * (sum / WORD) + (entries[k].End() - n * PAGE);
  }

  lemma NoRoomNeeded(s: FreeSet, n: nat, room: nat, blocks: nat)
    requires NoPairToCome(s, n, 16 * PAGE * blocks) && n * PAGE + room <= 16 * PAGE * blocks
    ensures NoPairToCome(s, n, room)
  {
  }

  lemma Enter(entries: seq<Entry>, blocks: nat, first: nat)
    requires 0 < first && MapFits(entries, blocks)
    ensures var k := FirstEntry(entries, first);
      InLoop({}, blocks, entries, first, k, first, if k < |entries| then Room(entries, k, first) else 0)
  {
    var s: FreeSet := {};
    assert forall f: nat :: !FreeAt(s, f);
    var k := FirstEntry(entries, first);
    if k < |entries| && first * PAGE <= entries[k].End() { RoomIsLeft(entries, k, first); }
  }

  lemma Reenter(s: FreeSet, blocks: nat, entries: seq<Entry>, first: nat, k: nat, n: nat, room: nat)
    requires InLoop(s, blocks, entries, first, k, n, room) && MapFits(entries, blocks)
    requires k < |entries| ==> entries[k].End() < n * PAGE
    ensures var next := Find(entries, k, n * PAGE, false);
      && Filled(s, blocks, first, n) && Accounts(s, entries, first, next, n)
      && (next < |entries| ==> InLoop(s, blocks, entries, first, next, n, Room(entries, next, n)))
  {
    hide Filled, NoPairToCome, Freed, FreedFrom, Find;
    forall f: nat ensures FreedFrom(entries, k, n, f) == FreedFrom(entries, Find(entries, k, n * PAGE, false), n, f) {
      SearchOn(entries, k, n, f);
    }
    var next := Find(entries, k, n * PAGE, false);
    if next < |entries| {
      RoomIsLeft(entries, next, n);
      NoRoomNeeded(s, n, Room(entries, next, n), blocks);
    }
  }

  /** The branch for memory that is not usable. */
  lemma Pass(s: FreeSet, blocks: nat, entries: seq<Entry>, first: nat, k: nat, n: nat, room: nat)
    requires InLoop(s, blocks, entries, first, k, n, room)
    requires k < |entries| && n * PAGE <= entries[k].End() && entries[k].kind != 1
    ensures InLoop(s, blocks, entries, first, k, n + 1, room)
  {
    SkipFrame(s, blocks, first, n, 16 * PAGE * blocks);
    hide Filled, NoPairToCome, Freed, FreedFrom;
    forall f: nat ensures FreedFrom(entries, k, n, f) == FreedFrom(entries, k, n + 1, f) {
      WalkOn(entries, k, n, f);
    }
  }

  /** The branch that goes on to the next entry. */
  lemma Switch(s: FreeSet, blocks: nat, entries: seq<Entry>, first: nat, k: nat, n: nat, room: nat)
    requires InLoop(s, blocks, entries, first, k, n, room) && MapFits(entries, blocks)
    requires k < |entries| && n * PAGE <= entries[k].End() && entries[k].kind == 1 && room < PAGE
    ensures Filled(s, blocks, first, n + 1) && Accounts(s, entries, first, k + 1, n + 1)
    ensures k + 1 < |entries| ==> InLoop(s, blocks, entries, first, k + 1, n + 1, Room(entries, k + 1, n + 1))
  {
    SkipFrame(s, blocks, first, n, 16 * PAGE * blocks);
    hide Filled, NoPairToCome, Freed, FreedFrom;
    forall f: nat ensures FreedFrom(entries, k, n, f) == FreedFrom(entries, k + 1, n + 1, f) {
      SwitchOn(entries, k, n, f);
    }
    if k + 1 < |entries| && (n + 1) * PAGE <= entries[k + 1].End() {
      RoomIsLeft(entries, k + 1, n + 1);
      NoRoomNeeded(s, n + 1, Room(entries, k + 1, n + 1), blocks);
    }
  }

  lemma Place(s: FreeSet, blocks: nat, entries: seq<Entry>, first: nat, k: nat, n: nat, room: nat)
    requires InLoop(s, blocks, entries, first, k, n, room) && MapFits(entries, blocks)
    requires k < |entries| && n * PAGE <= entries[k].End() && entries[k].kind == 1 && room >= PAGE
    ensures var level := PickLevel(n * PAGE, room);
      && Up(n, level) < Down(blocks, TOP - level) && n * PAGE / BlockBytes(level) == Up(n, level)
      && BlockBytes(level) == Size(level) * PAGE <= room
      && InLoop(s + {Block(level, Up(n, level))}, blocks, entries, first, k, n + Size(level), room - BlockBytes(level))
  {
    hide Freed, FreedFrom, Up, Down, FreeAt, WellFormed, Coalesced, PickLevel;
    var level := PickLevel(n * PAGE, room);
    PickIsGreedy(n, room);
    PageAligned(n, level, BlockBytes(level));
    MarkPick(s, blocks, first, n, room, level);
    PlaceInRange(s, blocks, first, n, room, level);
    forall f: nat ensures
      FreedFrom(entries, k, n, f) <==> InRun(f, n, Size(level)) || FreedFrom(entries, k, n + Size(level), f)
    {
      FillOn(entries, k, n, Size(level), f);
    }
  }

  lemma PlaceInRange(s: FreeSet, blocks: nat, first: nat, n: nat, room: nat, level: nat)
    requires Filled(s, blocks, first, n) && 0 < n && Greedy(n, room, level)
    requires n * PAGE + room <= 16 * PAGE * blocks && NoPairToCome(s, n, room)
    ensures Up(n, level) < Down(blocks, TOP - level)
  {
    hide Up, Down, FreeAt, WellFormed, NoPairToCome;
    PickIsFreeable(s, blocks, n, room, level);
  }

  lemma Conclude(s: FreeSet, blocks: nat, entries: seq<Entry>, memoryStart: nat, n: nat)
    requires var first := (memoryStart + 0xfff) / PAGE;
      Filled(s, blocks, first, n) && Accounts(s, entries, first, |entries|, n)
    ensures Started(s, blocks, entries, memoryStart)
  {
    hide WellFormed, Coalesced, FreeAt, Freed;
  }

  /** The branch that marks a block at addr, of the size picked. */
  method MarkBlock(p: FrameAllocator, ghost n: nat, addr: nat, remaining: nat) returns (bytes: nat)
    requires p.Valid()
    requires var level := PickLevel(addr, remaining);
      Up(n, level) < Down(p.blocks, TOP - level) && addr / BlockBytes(level) == Up(n, level)
    modifies p, p.bitmaps
    ensures p.Valid() && bytes == BlockBytes(PickLevel(addr, remaining))
    ensures p.free == old(p.free) + {Block(PickLevel(addr, remaining), Up(n, PickLevel(addr, remaining)))}
  {
    hide Up, Down, InRange, PickLevel;
    var level := PickLevel(addr, remaining);
    bytes := BlockBytes(level);
    var blockIndex := addr / bytes;
    p.Mark(level, blockIndex / 32, blockIndex % 32, false);
  }

  /** What PMM_Init leaves, for a memory that it may use from memoryStart on: a well-formed and
      maximally coalesced state whose free frames are exactly those of Freed, none of them below
      memoryStart. */
  ghost predicate Started(s: FreeSet, blocks: nat, entries: seq<Entry>, memoryStart: nat)
  {
    && WellFormed(s, blocks) && Coalesced(s)
    && (forall f: nat :: FreeAt(s, f) ==> memoryStart <= f * PAGE)
    && forall f: nat :: FreeAt(s, f) <==> Freed(entries, (memoryStart + 0xfff) / PAGE, f)
  }

  /** The free frames in terms of the map alone, for orderly maps and for maps without gaps. */
  ghost predicate StartedOn(s: FreeSet, entries: seq<Entry>, memoryStart: nat)
  {
    var first := (memoryStart + 0xfff) / 0x1000;
    && (Orderly(entries, first * 0x1000) ==>
          forall f: nat :: FreeAt(s, f) <==> exists k: nat :: k < |entries| && FreedThere(entries, first, k, f))
    && (Contiguous(entries, first * 0x1000) ==>
          forall f: nat :: first <= f ==>
            (FreeAt(s, f) <==> exists k: nat :: k < |entries| && Gives(entries[k], first, f)))
  }

  lemma StartedOnMap(s: FreeSet, blocks: nat, entries: seq<Entry>, memoryStart: nat)
    requires Started(s, blocks, entries, memoryStart)
    ensures StartedOn(s, entries, memoryStart)
  {
    hide WellFormed, Coalesced, FreeAt, Freed, Orderly, Contiguous, FreedThere, Gives;
    var first := (memoryStart + 0xfff) / 0x1000;
    if Orderly(entries, first * 0x1000) {
      forall f: nat ensures FreeAt(s, f) <==> exists k: nat :: k < |entries| && FreedThere(entries, first, k, f) {
        OrderlyFreedIff(entries, first, f);
      }
    }
    if Contiguous(entries, first * 0x1000) {
      forall f: nat | first <= f
        ensures FreeAt(s, f) <==> exists k: nat :: k < |entries| && Gives(entries[k], first, f)
      {
        ContiguousFreedIff(entries, first, f);
      }
    }
  }

  /** No entry, as the code sees it, begins below the first page at or above memoryStart and ends above
      its beginning. */
  ghost predicate StartsNowhere(entries: seq<Entry>, memoryStart: nat)
  {
    var start := (memoryStart + 0xfff) / 0x1000 * 0x1000;
    forall i :: 0 <= i < |entries| ==> !(entries[i].BaseLo() < start < entries[i].End())
  }

  lemma NoFirstEntry(entries: seq<Entry>, memoryStart: nat)
    requires StartsNowhere(entries, memoryStart)
    ensures FirstEntry(entries, (memoryStart + 0xfff) / PAGE) == |entries|
  {
    assert (memoryStart + 0xfff) / 0x1000 * 0x1000 == (memoryStart + 0xfff) / PAGE * PAGE;
  }

  /** The loop of PMM_Init, on freshly set bitmaps; memoryStart is the end of the bootstrap memory. When
      the first page begins inside no entry, not even at the base of one, no frame is made free. */
  method AddMemory(p: FrameAllocator, entries: seq<Entry>, memoryStart: nat)
    requires p.Valid() && p.free == {} && MapFits(entries, p.blocks) && 0 < memoryStart
    modifies p, p.bitmaps
    ensures p.Valid() && Started(p.free, p.blocks, entries, memoryStart)
    ensures StartedOn(p.free, entries, memoryStart)
    ensures StartsNowhere(entries, memoryStart) ==> p.free == {}
  {
    hide InLoop, Filled, Accounts, MapFits, Freed, Find, Started, StartedOn, StartsNowhere, Room, Up, Down,
      InRange, WellFormed, Coalesced,
      PickLevel, BlockBytes, Size, Low32, Entry.End, Entry.BaseLo, Entry.LengthLo;
    ghost var first := (memoryStart + 0xfff) / PAGE;
    ghost var n: nat := first;
    var addr := (memoryStart + 0xfff) / PAGE * PAGE;
    var currBase: nat, currSize: nat, remaining: nat := 0, 0, 0;
    var k := FindEntry(entries, 0, addr, true);
    if k < |entries| {
      currBase, currSize := entries[k].BaseLo(), entries[k].LengthLo();
      remaining := Low32(currBase + currSize - addr);
      RoomIs(entries, k, n);
    }
    Enter(entries, p.blocks, first);
    ghost var nowhere := k == |entries|;
    ZeroFits();
    while true
      invariant nowhere ==> k == |entries| && p.free == {}
      invariant p.Valid() && addr == n * PAGE && 0 < n && k <= |entries|
      invariant InLoop(p.free, p.blocks, entries, first, k, n, remaining)
      invariant Low32(currBase + currSize) == if k < |entries| then entries[k].End() else 0
      decreases |entries| - k, (if k < |entries| then entries[k].End() + PAGE else 0) - addr
    {
      if Low32(currBase + currSize) < addr {
        Reenter(p.free, p.blocks, entries, first, k, n, remaining);
        k := FindEntry(entries, k, addr, false);
        if k == |entries| { break; }
        currBase, currSize := entries[k].BaseLo(), entries[k].LengthLo();
        remaining := Low32(currBase + currSize - addr);
        RoomIs(entries, k, n);
      }
      if entries[k].kind != 1 {
        Pass(p.free, p.blocks, entries, first, k, n, remaining);
        addr, n := addr + 0x1000, n + 1;
      } else if remaining >= 0x1000 {
        Place(p.free, p.blocks, entries, first, k, n, remaining);
        ghost var size := Size(PickLevel(addr, remaining));
        var bytes := MarkBlock(p, n, addr, remaining);
        addr, remaining, n := addr + bytes, remaining - bytes, n + size;
      } else {
        Switch(p.free, p.blocks, entries, first, k, n, remaining);
        addr, n := addr + 0x1000, n + 1;
        k := k + 1;
        if k == |entries| { break; }
        currBase, currSize := entries[k].BaseLo(), entries[k].LengthLo();
        remaining := Low32(currBase + currSize - addr);
        RoomIs(entries, k, n);
      }
    }
    Conclude(p.free, p.blocks, entries, memoryStart, n);
    StartedOnMap(p.free, p.blocks, entries, memoryStart);
    if StartsNowhere(entries, memoryStart) { NoFirstEntry(entries, memoryStart); }
  }

  lemma ZeroFits()
    ensures Low32(0) == 0
  {
  }

  lemma RoomIs(entries: seq<Entry>, k: nat, n: nat)
    requires k < |entries|
    ensures Room(entries, k, n) == Low32(entries[k].BaseLo() + entries[k].LengthLo() - n * PAGE)
    ensures entries[k].End() == Low32(entries[k].BaseLo() + entries[k].LengthLo())
  {
  }
}
