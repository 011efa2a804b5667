/** Whole runs of the virtual page allocator: any sequence of allocations and releases. */
module RangeRuns {
  import opened MemDefs
  import opened FreeRanges

  /** The free list and the addresses handed out and not given back. */
  datatype Pool = Pool(free: seq<Range>, live: iset<nat>)

  datatype Operation = Take(count: nat) | Give(address: nat, count: nat)

  ghost function Addresses(a: nat, size: nat): iset<nat>
  {
    iset x: nat | Within(Range(a, size), x)
  }

  /** Requests for 1 page or more whose size does not wrap, whether they succeed or not; releases
      of any whole pages that are live: a range as it was handed out, part of one, or several. */
  ghost predicate Proper(p: Pool, op: Operation)
  {
    match op
    case Take(count) => 0 < count * PAGE < WORD
    case Give(address, count) => 0 < count && address % PAGE == 0 && Addresses(address, count * PAGE) <= p.live
  }

  ghost function Apply(p: Pool, op: Operation): Pool
    requires Proper(p, op)
  {
    match op
    case Take(count) =>
      var (a, free) := Allocate(p.free, Bytes(count));
      Pool(free, if a == 0 then p.live else p.live + Addresses(a, Bytes(count)))
    case Give(address, count) =>
      Pool(Release(p.free, address, count * PAGE), p.live - Addresses(address, count * PAGE))
  }

  ghost predicate Leads(p: Pool, ops: seq<Operation>, p': Pool)
    decreases |ops|
  {
    if ops == [] then p' == p
    else Proper(p, ops[0]) && Leads(Apply(p, ops[0]), ops[1..], p')
  }

  /** The free list is in order, with gaps between its ranges; every address of the region is either
      free or live, never both, and no address outside is. */
  ghost predicate Safe(p: Pool, lo: nat, hi: nat)
  {
    && Separated(p.free) && WholePages(p.free) && InRegion(p.free, lo, hi) && 0 < lo
    && (forall x: nat :: Covers(p.free, x) || x in p.live <==> lo <= x < hi)
    && forall x: nat :: !(Covers(p.free, x) && x in p.live)
  }

  lemma TakeIsSafe(p: Pool, lo: nat, hi: nat, count: nat)
    requires Safe(p, lo, hi) && Proper(p, Take(count))
    ensures Safe(Apply(p, Take(count)), lo, hi)
  {
    hide Separated, Covers, Allocate, Bytes;
    BytesArePages(count);
    AllocateIsExact(p.free, Bytes(count), lo, hi);
    TakenRange(p.free, Bytes(count), lo, hi);
  }

  lemma TakenRange(free: seq<Range>, size: nat, lo: nat, hi: nat)
    requires InRegion(free, lo, hi) && 0 < lo
    ensures var a := Allocate(free, size).0;
      && (a == 0 <==> FirstFit(free, size) == |free|)
      && (a != 0 ==> a + size <= hi && forall x: nat :: a <= x < a + size ==> Covers(free, x))
  {
    var k := FirstFit(free, size);
    if k < |free| {
      RangeIsRun(free, k, free[k].start, size);
    }
  }

  /** What a request hands out was not live: live allocations never overlap. */
  lemma TakenIsNew(p: Pool, lo: nat, hi: nat, count: nat)
    requires Safe(p, lo, hi) && Proper(p, Take(count)) && Allocate(p.free, Bytes(count)).0 != 0
    ensures Addresses(Allocate(p.free, Bytes(count)).0, count * PAGE) !! p.live
  {
    hide Separated, Covers, Allocate, Bytes;
    BytesArePages(count);
    TakenRange(p.free, Bytes(count), lo, hi);
  }

  lemma GiveIsSafe(p: Pool, lo: nat, hi: nat, address: nat, count: nat)
    requires Safe(p, lo, hi) && Proper(p, Give(address, count))
    ensures Safe(Apply(p, Give(address, count)), lo, hi)
  {
    hide Separated, Release, Covers;
    var size := count * PAGE;
    assert size > 0 && size % PAGE == 0;
    forall x: nat | address <= x < address + size ensures x in p.live {
      assert x in Addresses(address, size);
    }
    assert RunTaken(p.free, address, size);
    assert lo <= address < address + size - 1 + 1 <= hi by {
      assert address in p.live && address + size - 1 in p.live;
    }
    ReleaseIsExact(p.free, address, size, lo, hi);
  }

  /** Every state of every run is safe: the free list is sorted, its ranges whole pages with gaps
      between them, no live address is in it, and together they are exactly the region. */
  lemma {:induction false} RunsAreSafe(p: Pool, lo: nat, hi: nat, ops: seq<Operation>, p': Pool)
    requires Safe(p, lo, hi) && Leads(p, ops, p')
    ensures Safe(p', lo, hi)
    decreases |ops|
  {
    hide Safe, Apply, Proper;
    if ops != [] {
      match ops[0] {
        case Take(count) => TakeIsSafe(p, lo, hi, count);
        case Give(address, count) => GiveIsSafe(p, lo, hi, address, count);
      }
      RunsAreSafe(Apply(p, ops[0]), lo, hi, ops[1..], p');
    }
  }

  lemma StartIsSafe(lo: nat, hi: nat)
    requires 0 < lo < hi && lo % PAGE == 0 && hi % PAGE == 0
    ensures Safe(Pool([Range(lo, hi - lo)], iset{}), lo, hi)
  {
    var whole := [Range(lo, hi - lo)];
    forall x: nat ensures Covers(whole, x) <==> lo <= x < hi {
      CoversOne(whole[0], x);
    }
  }

  /** However the pages were taken and given back, once nothing is live the list is again the one
      that VMM_Init set up. */
  lemma CompleteRunRestores(lo: nat, hi: nat, ops: seq<Operation>, p': Pool)
    requires 0 < lo < hi && lo % PAGE == 0 && hi % PAGE == 0
    requires Leads(Pool([Range(lo, hi - lo)], iset{}), ops, p') && p'.live == iset{}
    ensures p'.free == [Range(lo, hi - lo)]
  {
    hide Leads, Separated, WholePages, InRegion;
    var start := Pool([Range(lo, hi - lo)], iset{});
    StartIsSafe(lo, hi);
    RunsAreSafe(start, lo, hi, ops, p');
    SeparatedIsCanonical(p'.free, start.free);
  }
}
