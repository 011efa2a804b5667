/** The virtual page allocator of vmm.c: the free list in its pool of nodes. */
module Vmm {
  import opened FreeRanges
  import opened FreeList
  import opened MemDefs

  class BlockList {
    const lo: nat
    const hi: nat
    const memoryBuffer: array<Node>
    var listStart: int
    /** The slots of the list, in order. */
    ghost var list: seq<nat>

    ghost predicate Linkage()
      reads this, memoryBuffer
    {
      Chain(memoryBuffer[..], list, listStart)
    }

    ghost function Ranges(): seq<Range>
      requires Linkage()
      reads this, memoryBuffer
    {
      RangesOf(memoryBuffer[..], list)
    }

    /** The list is acyclic and uses exactly the slots in use; its ranges are whole pages of the
        region, in order, and separated by gaps; the pool has a node for every two pages. */
    ghost predicate Valid()
      reads this, memoryBuffer
    {
      && Linkage()
      && Separated(Ranges()) && WholePages(Ranges()) && InRegion(Ranges(), lo, hi)
      && 0 < lo <= hi <= WORD && lo % PAGE == 0 && hi - lo <= 2 * memoryBuffer.Length * PAGE
    }

    /** VMM_Init: one range, the whole region. */
    constructor (pool: nat, lo: nat, hi: nat)
      requires 0 < pool && 0 < lo < hi <= WORD && lo % PAGE == 0 && hi % PAGE == 0
      requires hi - lo <= 2 * pool * PAGE
      ensures Valid() && Ranges() == [Range(lo, hi - lo)]
      ensures this.lo == lo && this.hi == hi
      ensures fresh(memoryBuffer) && memoryBuffer.Length == pool
    {
      this.lo, this.hi := lo, hi;
      var buffer := new Node[pool](_ => Node(0, 0, 0));
      memoryBuffer := buffer;
      listStart := 0;
      list := [0];
      new;
      memoryBuffer[0] := Node(lo, hi - lo, NULL);
      assert Ranges() == [Range(lo, hi - lo)];
    }

    /** VMM_FindBlockStruct. */
    method FindBlockStruct() returns (slot: int)
      ensures slot != NULL ==> 0 <= slot < memoryBuffer.Length && memoryBuffer[slot].start == 0
      ensures slot != NULL ==> forall s: nat :: s < slot ==> memoryBuffer[s].start != 0
      ensures slot == NULL ==> forall s: nat :: s < memoryBuffer.Length ==> memoryBuffer[s].start != 0
    {
      var i := 0;
      while i < memoryBuffer.Length
        invariant 0 <= i <= memoryBuffer.Length
        invariant forall s: nat :: s < i ==> memoryBuffer[s].start != 0
      {
        if memoryBuffer[i].start == 0 { return i; }
        i := i + 1;
      }
      slot := NULL;
    }

    // ----- The pointer updates -----

    /** Write the start and the size of the k-th node. */
    method SetRange(slot: int, ghost k: nat, start: nat, size: nat)
      requires Linkage() && k < |list| && slot == list[k] && start != 0
      modifies memoryBuffer
      ensures Linkage() && Ranges() == old(Ranges())[k := Range(start, size)]
    {
      hide Chain;
      ghost var nodes := memoryBuffer[..];
      ChainAt(nodes, list, listStart, k);
      Resize(nodes, list, listStart, k, Range(start, size));
      memoryBuffer[slot] := Node(start, size, memoryBuffer[slot].next);
      assert memoryBuffer[..] == Resized(nodes, list[k], start, size);
    }

    /** Take the k-th node out of the list and mark its slot unused. */
    method Bypass(previous: int, current: int, ghost k: nat)
      requires Linkage() && k < |list| && current == list[k]
      requires previous == if k == 0 then NULL else list[k - 1]
      modifies this, memoryBuffer
      ensures Linkage() && Ranges() == RemoveAt(old(Ranges()), k)
    {
      hide Chain, RangesOf, RemoveAt;
      ghost var nodes := memoryBuffer[..];
      ChainBounds(nodes, list, listStart);
      ChainAt(nodes, list, listStart, k);
      Unlink(nodes, list, listStart, k);
      if previous == NULL {
        listStart := memoryBuffer[current].next;
      } else {
        memoryBuffer[previous] := memoryBuffer[previous].(next := memoryBuffer[current].next);
      }
      memoryBuffer[current] := memoryBuffer[current].(start := 0);
      assert memoryBuffer[..] == Unlinked(nodes, list, k);
      list := WithoutSlot(list, k);
    }

    /** Put an unused slot before the k-th node. */
    method Insert(previous: int, current: int, ghost k: nat, slot: int, start: nat, size: nat)
      requires Linkage() && k <= |list| && current == At(list, k)
      requires previous == if k == 0 then NULL else list[k - 1]
      requires 0 <= slot < memoryBuffer.Length && memoryBuffer[slot].start == 0 && start != 0
      modifies this, memoryBuffer
      ensures Linkage() && Ranges() == old(Ranges())[..k] + [Range(start, size)] + old(Ranges())[k..]
    {
      hide Chain, RangesOf;
      ghost var nodes := memoryBuffer[..];
      ChainBounds(nodes, list, listStart);
      Link(nodes, list, listStart, k, slot, Range(start, size));
      memoryBuffer[slot] := Node(start, size, current);
      if previous == NULL {
        listStart := slot;
      } else {
        memoryBuffer[previous] := memoryBuffer[previous].(next := slot);
      }
      assert memoryBuffer[..] == Linked(nodes, list, k, slot, Range(start, size));
      list := WithSlot(list, k, slot);
    }

    /** VMM_AllocateBlock: 0 stands for NULL. */
    method AllocateBlock(count: nat) returns (address: nat)
      requires Valid()
      modifies this, memoryBuffer
      ensures Valid()
      ensures (address, Ranges()) == Allocate(old(Ranges()), Bytes(count))
    {
      hide Chain, Separated, WholePages, InRegion, RangesOf, Bytes;
      var size := Bytes(count);
      ghost var rs, nodes := Ranges(), memoryBuffer[..];
      AllocateKeepsAll(rs, count, lo, hi);
      ChainAt(nodes, list, listStart, 0);
      var previous, current := NULL, listStart;
      ghost var k: nat := 0;
      while current != NULL
        invariant k <= |list| && current == At(list, k) && previous == (if k == 0 then NULL else At(list, k - 1))
        invariant memoryBuffer[..] == nodes && list == old(list) && listStart == old(listStart)
        invariant forall i :: 0 <= i < k ==> rs[i].size < size
        decreases |list| - k
      {
        ChainAt(nodes, list, listStart, k);
        if memoryBuffer[current].size == size {
          FirstFitIs(rs, size, k);
          address := memoryBuffer[current].start;
          Bypass(previous, current, k);
          return;
        } else if memoryBuffer[current].size > size {
          FirstFitIs(rs, size, k);
          address := memoryBuffer[current].start;
          SetRange(current, k, address + size, memoryBuffer[current].size - size);
          return;
        }
        ChainAt(nodes, list, listStart, k + 1);
        previous, current, k := current, memoryBuffer[current].next, k + 1;
      }
      FirstFitIs(rs, size, k);
      address := 0;
    }

    /** The walk of VMM_FreePages: the node before and the node after `address`. */
    method FindPosition(address: nat) returns (previous: int, current: int, ghost k: nat)
      requires Linkage()
      ensures k == Position(Ranges(), address) <= |list| == |Ranges()|
      ensures current == At(list, k) && previous == if k == 0 then NULL else list[k - 1]
    {
      hide Chain, RangesOf, Position;
      ghost var rs, nodes := Ranges(), memoryBuffer[..];
      ChainAt(nodes, list, listStart, 0);
      previous, current, k := NULL, listStart, 0;
      while current != NULL
        invariant k <= |list| && current == At(list, k) && previous == if k == 0 then NULL else list[k - 1]
        invariant forall i :: 0 <= i < k ==> rs[i].start <= address
        decreases |list| - k
      {
        ChainAt(nodes, list, listStart, k);
        if memoryBuffer[current].start > address { break; }
        ChainAt(nodes, list, listStart, k + 1);
        previous, current, k := current, memoryBuffer[current].next, k + 1;
      }
      ChainAt(nodes, list, listStart, k);
      PositionIs(rs, address, k);
    }

    /** The list part of VMM_FreePages, for pages that are not free. */
    method ReleaseBlock(address: nat, count: nat)
      requires Valid() && Bytes(count) > 0 && address % PAGE == 0
      requires lo <= address && address + Bytes(count) <= hi
      requires RunTaken(Ranges(), address, Bytes(count))
      modifies this, memoryBuffer
      ensures Valid()
      ensures Ranges() == Release(old(Ranges()), address, Bytes(count))
    {
      hide Chain, Separated, WholePages, InRegion, RangesOf, Bytes, RunTaken, Release, Position, RemoveAt;
      var size := Bytes(count);
      ghost var rs, nodes := Ranges(), memoryBuffer[..];
      BytesArePages(count);
      ReleaseIsExact(rs, address, size, lo, hi);
      var previous, current, k := FindPosition(address);
      ChainAt(nodes, list, listStart, k);
      if k > 0 { ChainAt(nodes, list, listStart, k - 1); }
      var coalesceLeft := previous != NULL && memoryBuffer[previous].start + memoryBuffer[previous].size == address;
      var coalesceRight := current != NULL && memoryBuffer[current].start == address + size;
      if !coalesceLeft && !coalesceRight {
        ReleaseNone(rs, address, size, k);
        PoolSuffices(rs, address, size, lo, hi, memoryBuffer.Length);
        var newBlock := FindBlockStruct();
        SlotRemains(nodes, list, listStart);
        Insert(previous, current, k, newBlock, address, size);
      } else if coalesceLeft && coalesceRight {
        ReleaseBoth(rs, address, size, k);
        var total := memoryBuffer[previous].size + size + memoryBuffer[current].size;
        SetRange(previous, k - 1, memoryBuffer[previous].start, total);
        Bypass(previous, current, k);
      } else if coalesceLeft {
        ReleaseLeft(rs, address, size, k);
        SetRange(previous, k - 1, memoryBuffer[previous].start, memoryBuffer[previous].size + size);
      } else {
        ReleaseRight(rs, address, size, k);
        SetRange(current, k, memoryBuffer[current].start - size, memoryBuffer[current].size + size);
      }
    }
  }

  /** A list shorter than the pool leaves an unused slot. */
  lemma SlotRemains(nodes: seq<Node>, list: seq<nat>, head: int)
    requires Chain(nodes, list, head) && |list| < |nodes|
    ensures exists slot: nat :: slot < |nodes| && nodes[slot].start == 0
  {
    if forall slot: nat :: slot < |nodes| ==> nodes[slot].start != 0 {
      AllListed(list, |nodes|);
    }
  }

  lemma ChainBounds(nodes: seq<Node>, list: seq<nat>, head: int)
    requires Chain(nodes, list, head)
    ensures forall i :: 0 <= i < |list| ==> list[i] < |nodes|
  {
  }

  /** What the k-th step of a walk along the list sees. */
  lemma ChainAt(nodes: seq<Node>, list: seq<nat>, head: int, k: nat)
    requires Chain(nodes, list, head)
    ensures At(list, 0) == head
    ensures |RangesOf(nodes, list)| == |list|
    ensures k < |list| ==>
      && list[k] < |nodes| && nodes[list[k]].next == At(list, k + 1)
      && nodes[list[k]].start != 0 && RangesOf(nodes, list)[k] == RangeAt(nodes, list[k])
  {
    assert k < |list| ==> list[k] in list;
  }

  lemma FirstFitIs(rs: seq<Range>, size: nat, k: nat)
    requires k <= |rs| && forall i :: 0 <= i < k ==> rs[i].size < size
    requires k < |rs| ==> rs[k].size >= size
    ensures FirstFit(rs, size) == k
  {
    hide FirstFit;
  }

  lemma AllocateKeepsAll(rs: seq<Range>, count: nat, lo: nat, hi: nat)
    requires Separated(rs) && WholePages(rs) && InRegion(rs, lo, hi)
    ensures var t := Allocate(rs, Bytes(count)).1;
      Separated(t) && WholePages(t) && InRegion(t, lo, hi)
  {
    hide Separated, WholePages, InRegion, Allocate, Covers;
    BytesArePages(count);
    AllocateIsExact(rs, Bytes(count), lo, hi);
  }
}
