/** The free list of vmm.c on values: an address-ordered sequence of ranges, first fit, and
    coalescing on both sides. */
module FreeRanges {
  import opened MemDefs

  datatype Range = Range(start: nat, size: nat)
  {
    function End(): nat { start + size }
  }

  /** count * PAGE_SIZE in 32 bits. */
  function Bytes(count: nat): nat
  {
    count * PAGE % WORD
  }

  lemma BytesArePages(count: nat)
    ensures Bytes(count) % PAGE == 0
    ensures count * PAGE < WORD ==> Bytes(count) == count * PAGE
  {
    var q := count * PAGE / WORD;
    assert Bytes(count) == PAGE * (count - q * 0x100000);
  }

  ghost predicate Covers(rs: seq<Range>, a: nat)
  {
    exists i :: 0 <= i < |rs| && Within(rs[i], a)
  }

  predicate Within(r: Range, a: nat)
  {
    r.start <= a < r.End()
  }

  /** In order, non-empty, with a gap between any two: nothing left to coalesce. */
  ghost predicate Separated(rs: seq<Range>)
  {
    && (forall i :: 0 <= i < |rs| ==> rs[i].size > 0)
    && forall i, j :: 0 <= i < j < |rs| ==> rs[i].End() < rs[j].start
  }

  ghost predicate WholePages(rs: seq<Range>)
  {
    forall i :: 0 <= i < |rs| ==> rs[i].start % PAGE == 0 && rs[i].size % PAGE == 0
  }

  ghost predicate InRegion(rs: seq<Range>, lo: nat, hi: nat)
  {
    forall i :: 0 <= i < |rs| ==> lo <= rs[i].start && rs[i].End() <= hi
  }

  /** All of [a, a + n) is free. */
  ghost predicate RunFree(rs: seq<Range>, a: nat, n: nat)
  {
    forall x: nat :: a <= x < a + n ==> Covers(rs, x)
  }

  // ----- First fit -----

  function FirstFit(rs: seq<Range>, size: nat): (k: nat)
    ensures k <= |rs|
    ensures forall i :: 0 <= i < k ==> rs[i].size < size
    ensures k < |rs| ==> rs[k].size >= size
  {
    if rs == [] || rs[0].size >= size then 0 else 1 + FirstFit(rs[1..], size)
  }

  function RemoveAt(rs: seq<Range>, k: nat): seq<Range>
    requires k < |rs|
  {
    rs[..k] + rs[k + 1..]
  }

  /** The address returned (0 for NULL) and the list left behind by VMM_AllocateBlock, for a
      size in bytes. */
  function Allocate(rs: seq<Range>, size: nat): (nat, seq<Range>)
  {
    var k := FirstFit(rs, size);
    if k == |rs| then (0, rs)
    else if rs[k].size == size then (rs[k].start, RemoveAt(rs, k))
    else (rs[k].start, rs[k := Range(rs[k].start + size, rs[k].size - size)])
  }

  /** A run of free addresses lies inside one range: that is what the gaps are for. */
  lemma RunInOneRange(rs: seq<Range>, a: nat, n: nat) returns (i: nat)
    requires Separated(rs) && n > 0 && RunFree(rs, a, n)
    ensures i < |rs| && rs[i].start <= a && a + n <= rs[i].End()
  {
    assert Covers(rs, a);
    i :| 0 <= i < |rs| && Within(rs[i], a);
    EndIsNotCovered(rs, i);
  }

  lemma EndIsNotCovered(rs: seq<Range>, i: nat)
    requires Separated(rs) && i < |rs|
    ensures !Covers(rs, rs[i].End())
  {
  }

  lemma RangeIsRun(rs: seq<Range>, i: nat, a: nat, n: nat)
    requires i < |rs| && rs[i].start <= a && a + n <= rs[i].End()
    ensures RunFree(rs, a, n)
  {
    forall x: nat | a <= x < a + n ensures Covers(rs, x) {
      assert Within(rs[i], x);
    }
  }

  /** Allocation fails if and only if there is no free run of that size anywhere, and otherwise
      returns the lowest one. */
  lemma AllocateIsLowestFit(rs: seq<Range>, size: nat)
    requires Separated(rs) && size > 0 && forall i :: 0 <= i < |rs| ==> rs[i].start > 0
    ensures var a := Allocate(rs, size).0;
      && (a == 0 <==> forall x: nat :: !RunFree(rs, x, size))
      && (a != 0 ==> RunFree(rs, a, size) && forall x: nat :: RunFree(rs, x, size) ==> a <= x)
  {
    var k := FirstFit(rs, size);
    if k < |rs| {
      RangeIsRun(rs, k, rs[k].start, size);
    }
    forall x: nat | RunFree(rs, x, size) ensures k < |rs| && rs[k].start <= x {
      var i := RunInOneRange(rs, x, size);
    }
  }

  lemma OneRange(rs: seq<Range>, i: nat, j: nat, x: nat)
    requires Separated(rs) && i < |rs| && j < |rs| && Within(rs[i], x) && Within(rs[j], x)
    ensures i == j
  {
  }

  lemma CoversRemoved(rs: seq<Range>, k: nat, x: nat)
    requires Separated(rs) && k < |rs|
    ensures Covers(RemoveAt(rs, k), x) <==> Covers(rs, x) && !Within(rs[k], x)
  {
    hide Within, Separated;
    var t := RemoveAt(rs, k);
    if Covers(t, x) {
      var i :| 0 <= i < |t| && Within(t[i], x);
      var j := if i < k then i else i + 1;
      assert rs[j] == t[i];
      if Within(rs[k], x) { OneRange(rs, j, k, x); }
    }
    if Covers(rs, x) && !Within(rs[k], x) {
      var i :| 0 <= i < |rs| && Within(rs[i], x);
      var j := if i < k then i else i - 1;
      assert t[j] == rs[i];
    }
  }

  lemma CoversReplaced(rs: seq<Range>, k: nat, r: Range, x: nat)
    requires Separated(rs) && k < |rs|
    ensures Covers(rs[k := r], x) <==> (Covers(rs, x) && !Within(rs[k], x)) || Within(r, x)
  {
    var t := rs[k := r];
    if Covers(t, x) {
      var i :| 0 <= i < |t| && Within(t[i], x);
      assert i != k ==> t[i] == rs[i];
    }
    if Covers(rs, x) && !Within(rs[k], x) {
      var i :| 0 <= i < |rs| && Within(rs[i], x);
      assert t[i] == rs[i];
    }
    if Within(r, x) { assert t[k] == r; }
  }

  lemma AllocateCovers(rs: seq<Range>, size: nat, x: nat)
    requires Separated(rs) && FirstFit(rs, size) < |rs|
    ensures var (a, t) := Allocate(rs, size);
      Covers(t, x) <==> Covers(rs, x) && !(a <= x < a + size)
  {
    hide FirstFit, Separated, RemoveAt;
    var k := FirstFit(rs, size);
    var r := rs[k];
    assert Within(r, x) ==> Covers(rs, x);
    hide Covers;
    if r.size == size {
      CoversRemoved(rs, k, x);
    } else {
      CoversReplaced(rs, k, Range(r.start + size, r.size - size), x);
    }
  }

  /** Allocation takes exactly the range it returns out of the list and keeps the list separated. */
  lemma AllocateIsExact(rs: seq<Range>, size: nat, lo: nat, hi: nat)
    requires Separated(rs) && WholePages(rs) && InRegion(rs, lo, hi) && size % PAGE == 0
    ensures var (a, t) := Allocate(rs, size);
      && Separated(t) && WholePages(t) && InRegion(t, lo, hi)
      && (FirstFit(rs, size) == |rs| ==> t == rs)
      && (FirstFit(rs, size) < |rs| ==>
           && lo <= a && a % PAGE == 0
           && forall x: nat :: Covers(t, x) <==> Covers(rs, x) && !(a <= x < a + size))
  {
    hide Covers;
    var k := FirstFit(rs, size);
    if k < |rs| {
      forall x: nat ensures
        var (a, t) := Allocate(rs, size);
        Covers(t, x) <==> Covers(rs, x) && !(a <= x < a + size)
      {
        AllocateCovers(rs, size, x);
      }
    }
    AllocateKeepsPages(rs, size);
    AllocateKeepsOrder(rs, size, lo, hi);
  }

  lemma RemoveKeepsOrder(rs: seq<Range>, k: nat, lo: nat, hi: nat)
    requires Separated(rs) && InRegion(rs, lo, hi) && k < |rs|
    ensures Separated(RemoveAt(rs, k)) && InRegion(RemoveAt(rs, k), lo, hi)
  {
    var t := RemoveAt(rs, k);
    assert forall i :: 0 <= i < |t| ==> t[i] == rs[if i < k then i else i + 1];
    hide RemoveAt;
  }

  lemma ShrinkKeepsOrder(rs: seq<Range>, k: nat, r: Range, lo: nat, hi: nat)
    requires Separated(rs) && InRegion(rs, lo, hi) && k < |rs|
    requires rs[k].start <= r.start && r.End() == rs[k].End() && r.size > 0
    ensures Separated(rs[k := r]) && InRegion(rs[k := r], lo, hi)
  {
  }

  lemma AllocateKeepsOrder(rs: seq<Range>, size: nat, lo: nat, hi: nat)
    requires Separated(rs) && InRegion(rs, lo, hi)
    ensures Separated(Allocate(rs, size).1) && InRegion(Allocate(rs, size).1, lo, hi)
  {
    hide FirstFit, Separated, InRegion, RemoveAt;
    var k := FirstFit(rs, size);
    if k < |rs| {
      if rs[k].size == size {
        RemoveKeepsOrder(rs, k, lo, hi);
      } else {
        ShrinkKeepsOrder(rs, k, Range(rs[k].start + size, rs[k].size - size), lo, hi);
      }
    }
  }

  lemma AllocateKeepsPages(rs: seq<Range>, size: nat)
    requires WholePages(rs) && size % PAGE == 0
    ensures WholePages(Allocate(rs, size).1)
  {
    hide FirstFit;
    var k := FirstFit(rs, size);
    if k < |rs| {
      if rs[k].size == size {
        RemoveAtShape(rs, k);
        hide RemoveAt;
      } else {
        PageDifference(rs[k].start, rs[k].size, size);
      }
    }
  }

  lemma PageDifference(start: nat, size: nat, taken: nat)
    requires start % PAGE == 0 && size % PAGE == 0 && taken % PAGE == 0 && taken <= size
    ensures (start + taken) % PAGE == 0 && (size - taken) % PAGE == 0
  {
  }

  lemma RemoveAtShape(rs: seq<Range>, k: nat)
    requires k < |rs|
    ensures |RemoveAt(rs, k)| == |rs| - 1
    ensures forall i: nat :: i < |rs| - 1 ==> RemoveAt(rs, k)[i] == rs[if i < k then i else i + 1]
  {
  }

  // ----- Freeing -----

  /** The first range that starts above address a. */
  function Position(rs: seq<Range>, a: nat): (k: nat)
    ensures k <= |rs|
    ensures forall i :: 0 <= i < k ==> rs[i].start <= a
    ensures k < |rs| ==> rs[k].start > a
  {
    if rs == [] || rs[0].start > a then 0 else 1 + Position(rs[1..], a)
  }

  predicate TouchesLeft(rs: seq<Range>, k: nat, a: nat)
    requires k <= |rs|
  {
    k > 0 && rs[k - 1].End() == a
  }

  predicate TouchesRight(rs: seq<Range>, k: nat, end: nat)
    requires k <= |rs|
  {
    k < |rs| && rs[k].start == end
  }

  /** The list left behind by VMM_FreePages: the four coalescing cases. */
  function Release(rs: seq<Range>, a: nat, size: nat): seq<Range>
  {
    var k := Position(rs, a);
    var left, right := TouchesLeft(rs, k, a), TouchesRight(rs, k, a + size);
    if left && right then
      rs[..k - 1] + [Range(rs[k - 1].start, rs[k - 1].size + size + rs[k].size)] + rs[k + 1..]
    else if left then
      rs[k - 1 := Range(rs[k - 1].start, rs[k - 1].size + size)]
    else if right then
      rs[k := Range(a, rs[k].size + size)]
    else
      rs[..k] + [Range(a, size)] + rs[k..]
  }

  /** None of [a, a + size) is free. */
  ghost predicate RunTaken(rs: seq<Range>, a: nat, size: nat)
  {
    forall x: nat :: a <= x < a + size ==> !Covers(rs, x)
  }

  /** The range to be freed lies strictly between its neighbours in the list, or touches them. */
  lemma Neighbours(rs: seq<Range>, a: nat, size: nat)
    requires Separated(rs) && size > 0 && RunTaken(rs, a, size)
    ensures var k := Position(rs, a);
      && (forall i :: 0 <= i < k ==> rs[i].End() <= a)
      && (forall i :: k <= i < |rs| ==> a + size <= rs[i].start)
  {
    var k := Position(rs, a);
    forall i | 0 <= i < k ensures rs[i].End() <= a {
      assert !Covers(rs, a);
      assert !Within(rs[i], a);
    }
    if k < |rs| {
      assert Within(rs[k], rs[k].start);
      assert Covers(rs, rs[k].start);
    }
  }

  /** The ranges left of the one being formed, that range, and the ranges right of it. */
  function Before(rs: seq<Range>, a: nat): seq<Range>
  {
    var k := Position(rs, a);
    if TouchesLeft(rs, k, a) then rs[..k - 1] else rs[..k]
  }

  function Formed(rs: seq<Range>, a: nat, size: nat): Range
  {
    var k := Position(rs, a);
    var first := if TouchesLeft(rs, k, a) then rs[k - 1].start else a;
    var last := if TouchesRight(rs, k, a + size) then rs[k].End() else a + size;
    Range(first, last - first)
  }

  function After(rs: seq<Range>, a: nat, size: nat): seq<Range>
  {
    var k := Position(rs, a);
    if TouchesRight(rs, k, a + size) then rs[k + 1..] else rs[k..]
  }

  lemma ReleaseShape(rs: seq<Range>, a: nat, size: nat)
    ensures Release(rs, a, size) == Before(rs, a) + [Formed(rs, a, size)] + After(rs, a, size)
  {
    hide Position;
    var k := Position(rs, a);
    var left, right := TouchesLeft(rs, k, a), TouchesRight(rs, k, a + size);
    var r := Formed(rs, a, size);
    assert left && right ==> r == Range(rs[k - 1].start, rs[k - 1].size + size + rs[k].size);
    assert left && !right ==> r == Range(rs[k - 1].start, rs[k - 1].size + size);
    assert !left && right ==> r == Range(a, rs[k].size + size);
    assert !left && !right ==> r == Range(a, size);
    hide Formed, TouchesLeft, TouchesRight;
    if left && right {
      assert Release(rs, a, size) == rs[..k - 1] + [r] + rs[k + 1..];
    } else if left {
      UpdateIsSplit(rs, k - 1, r);
      assert rs[k - 1 + 1..] == rs[k..];
    } else if right {
      UpdateIsSplit(rs, k, r);
    }
  }

  lemma UpdateIsSplit(rs: seq<Range>, i: nat, r: Range)
    requires i < |rs|
    ensures rs[i := r] == rs[..i] + [r] + rs[i + 1..]
  {
  }

  lemma SeparatedSplit(s: seq<Range>, r: Range, t: seq<Range>)
    requires Separated(s) && Separated(t) && r.size > 0
    requires forall i :: 0 <= i < |s| ==> s[i].End() < r.start
    requires forall i :: 0 <= i < |t| ==> r.End() < t[i].start
    ensures Separated(s + [r] + t)
  {
    var u := s + [r] + t;
    forall i | 0 <= i < |u| ensures u[i] == (if i < |s| then s[i] else if i == |s| then r else t[i - |s| - 1]) {
    }
  }

  lemma BeforeApart(rs: seq<Range>, a: nat, size: nat)
    requires Separated(rs) && size > 0
    requires forall i :: 0 <= i < Position(rs, a) ==> rs[i].End() <= a
    ensures Separated(Before(rs, a))
    ensures forall i :: 0 <= i < |Before(rs, a)| ==> Before(rs, a)[i].End() < Formed(rs, a, size).start
  {
    hide Position;
    var k := Position(rs, a);
    var s := Before(rs, a);
    assert forall i :: 0 <= i < |s| ==> s[i] == rs[i];
    if k > 0 {
      assert forall i :: 0 <= i < k - 1 ==> rs[i].End() < rs[k - 1].start;
    }
  }

  lemma SuffixSeparated(rs: seq<Range>, k: nat)
    requires Separated(rs) && k <= |rs|
    ensures Separated(rs[k..])
    ensures forall r :: 0 < k && r in rs[k..] ==> rs[k - 1].End() < r.start
    ensures forall r :: k < |rs| && r in rs[k..] ==> rs[k].start <= r.start
  {
  }

  lemma AfterApart(rs: seq<Range>, a: nat, size: nat)
    requires Separated(rs) && size > 0
    requires forall i :: Position(rs, a) <= i < |rs| ==> a + size <= rs[i].start
    ensures Separated(After(rs, a, size))
    ensures forall i :: 0 <= i < |After(rs, a, size)| ==> Formed(rs, a, size).End() < After(rs, a, size)[i].start
  {
    hide Position, Separated;
    var k := Position(rs, a);
    SuffixSeparated(rs, k);
    if TouchesRight(rs, k, a + size) {
      SuffixSeparated(rs, k + 1);
    }
  }

  lemma FormedNotEmpty(rs: seq<Range>, a: nat, size: nat)
    requires size > 0
    ensures Formed(rs, a, size).size > 0
  {
  }

  lemma ReleaseKeepsOrder(rs: seq<Range>, a: nat, size: nat)
    requires Separated(rs) && size > 0 && RunTaken(rs, a, size)
    ensures Separated(Release(rs, a, size))
  {
    hide Separated, RunTaken, Release, Before, Formed, After;
    Neighbours(rs, a, size);
    BeforeApart(rs, a, size);
    AfterApart(rs, a, size);
    assert Formed(rs, a, size).size > 0 by { FormedNotEmpty(rs, a, size); }
    ReleaseShape(rs, a, size);
    SeparatedSplit(Before(rs, a), Formed(rs, a, size), After(rs, a, size));
  }

  lemma ReleaseKeepsRegion(rs: seq<Range>, a: nat, size: nat, lo: nat, hi: nat)
    requires InRegion(rs, lo, hi) && lo <= a && a + size <= hi
    ensures InRegion(Release(rs, a, size), lo, hi)
  {
    hide Position;
  }

  lemma ReleaseKeepsPages(rs: seq<Range>, a: nat, size: nat)
    requires WholePages(rs) && a % PAGE == 0 && size % PAGE == 0
    ensures WholePages(Release(rs, a, size))
  {
    hide Position;
    var k := Position(rs, a);
    if TouchesLeft(rs, k, a) {
      PageSum(rs[k - 1].size, size);
      if TouchesRight(rs, k, a + size) { PageSum(rs[k - 1].size + size, rs[k].size); }
    } else if TouchesRight(rs, k, a + size) {
      PageSum(rs[k].size, size);
    }
  }

  lemma PageSum(a: nat, b: nat)
    requires a % PAGE == 0 && b % PAGE == 0
    ensures (a + b) % PAGE == 0
  {
  }

  lemma CoversConcat(s: seq<Range>, t: seq<Range>, x: nat)
    ensures Covers(s + t, x) <==> Covers(s, x) || Covers(t, x)
  {
    var u := s + t;
    if Covers(s, x) {
      var i :| 0 <= i < |s| && Within(s[i], x);
      assert u[i] == s[i];
    }
    if Covers(t, x) {
      var i :| 0 <= i < |t| && Within(t[i], x);
      assert u[|s| + i] == t[i];
    }
  }

  lemma CoversOne(r: Range, x: nat)
    ensures Covers([r], x) <==> Within(r, x)
  {
    assert [r][0] == r;
  }

  /** A list seen as a prefix, one range and a suffix. */
  lemma CoversSplit(s: seq<Range>, r: Range, t: seq<Range>, x: nat)
    ensures Covers(s + [r] + t, x) <==> Covers(s, x) || Within(r, x) || Covers(t, x)
  {
    CoversConcat(s + [r], t, x);
    CoversConcat(s, [r], x);
    CoversOne(r, x);
  }

  lemma BeforeCovers(rs: seq<Range>, a: nat, x: nat)
    ensures var k := Position(rs, a);
      Covers(rs[..k], x) <==> Covers(Before(rs, a), x) || (TouchesLeft(rs, k, a) && Within(rs[k - 1], x))
  {
    hide Covers, Position, Within;
    var k := Position(rs, a);
    if TouchesLeft(rs, k, a) {
      assert rs[..k] == rs[..k - 1] + [rs[k - 1]];
      CoversConcat(rs[..k - 1], [rs[k - 1]], x);
      CoversOne(rs[k - 1], x);
    }
  }

  lemma AfterCovers(rs: seq<Range>, a: nat, size: nat, x: nat)
    ensures var k := Position(rs, a);
      Covers(rs[k..], x) <==> Covers(After(rs, a, size), x) || (TouchesRight(rs, k, a + size) && Within(rs[k], x))
  {
    hide Covers, Position, Within;
    var k := Position(rs, a);
    if TouchesRight(rs, k, a + size) {
      assert rs[k..] == [rs[k]] + rs[k + 1..];
      CoversConcat([rs[k]], rs[k + 1..], x);
      CoversOne(rs[k], x);
    }
  }

  lemma FormedWithin(rs: seq<Range>, a: nat, size: nat, x: nat)
    requires size > 0
    ensures var k := Position(rs, a);
      Within(Formed(rs, a, size), x) <==>
        (TouchesLeft(rs, k, a) && Within(rs[k - 1], x)) || a <= x < a + size ||
        (TouchesRight(rs, k, a + size) && Within(rs[k], x))
  {
    hide Position;
  }

  lemma ReleaseCovers(rs: seq<Range>, a: nat, size: nat, x: nat)
    requires size > 0
    ensures Covers(Release(rs, a, size), x) <==> Covers(rs, x) || a <= x < a + size
  {
    hide Covers, Position, Release, Before, Formed, After, TouchesLeft, TouchesRight, Within;
    var k := Position(rs, a);
    ReleaseShape(rs, a, size);
    CoversSplit(Before(rs, a), Formed(rs, a, size), After(rs, a, size), x);
    assert rs == rs[..k] + rs[k..];
    CoversConcat(rs[..k], rs[k..], x);
    BeforeCovers(rs, a, x);
    AfterCovers(rs, a, size, x);
    FormedWithin(rs, a, size, x);
  }

  /** Freeing a range none of which is free adds exactly its addresses, in all four coalescing
      cases, and leaves a gap between any two ranges of the list. */
  lemma ReleaseIsExact(rs: seq<Range>, a: nat, size: nat, lo: nat, hi: nat)
    requires Separated(rs) && WholePages(rs) && InRegion(rs, lo, hi)
    requires size > 0 && a % PAGE == 0 && size % PAGE == 0 && lo <= a && a + size <= hi
    requires RunTaken(rs, a, size)
    ensures var t := Release(rs, a, size);
      && Separated(t) && WholePages(t) && InRegion(t, lo, hi)
      && forall x: nat :: Covers(t, x) <==> Covers(rs, x) || a <= x < a + size
  {
    hide Covers, Separated, WholePages, InRegion, RunTaken, Release;
    ReleaseKeepsOrder(rs, a, size);
    ReleaseKeepsPages(rs, a, size);
    ReleaseKeepsRegion(rs, a, size, lo, hi);
    forall x: nat ensures Covers(Release(rs, a, size), x) <==> Covers(rs, x) || a <= x < a + size {
      ReleaseCovers(rs, a, size, x);
    }
  }

  lemma PositionIs(rs: seq<Range>, a: nat, k: nat)
    requires k <= |rs| && forall i :: 0 <= i < k ==> rs[i].start <= a
    requires k < |rs| ==> rs[k].start > a
    ensures Position(rs, a) == k
  {
    hide Position;
  }

  lemma ReleaseNone(rs: seq<Range>, a: nat, size: nat, k: nat)
    requires Position(rs, a) == k && !TouchesLeft(rs, k, a) && !TouchesRight(rs, k, a + size)
    ensures Release(rs, a, size) == rs[..k] + [Range(a, size)] + rs[k..]
  {
    hide Position;
  }

  lemma ReleaseBoth(rs: seq<Range>, a: nat, size: nat, k: nat)
    requires Position(rs, a) == k && TouchesLeft(rs, k, a) && TouchesRight(rs, k, a + size)
    ensures var r := Range(rs[k - 1].start, rs[k - 1].size + size + rs[k].size);
      Release(rs, a, size) == RemoveAt(rs[k - 1 := r], k)
  {
    hide Position;
    UpdateIsSplit(rs, k - 1, Range(rs[k - 1].start, rs[k - 1].size + size + rs[k].size));
  }

  lemma ReleaseLeft(rs: seq<Range>, a: nat, size: nat, k: nat)
    requires Position(rs, a) == k && TouchesLeft(rs, k, a) && !TouchesRight(rs, k, a + size)
    ensures Release(rs, a, size) == rs[k - 1 := Range(rs[k - 1].start, rs[k - 1].size + size)]
  {
    hide Position;
  }

  lemma ReleaseRight(rs: seq<Range>, a: nat, size: nat, k: nat)
    requires Position(rs, a) == k && !TouchesLeft(rs, k, a) && TouchesRight(rs, k, a + size)
    ensures Release(rs, a, size) == rs[k := Range(rs[k].start - size, rs[k].size + size)]
  {
    hide Position;
  }

  // ----- One list for each set of free addresses -----

  ghost predicate SameAddresses(s: seq<Range>, t: seq<Range>)
  {
    forall x: nat :: Covers(s, x) <==> Covers(t, x)
  }

  lemma CoversHead(s: seq<Range>, x: nat)
    requires s != []
    ensures Covers(s, x) <==> Within(s[0], x) || Covers(s[1..], x)
  {
    assert s == [s[0]] + s[1..];
    CoversConcat([s[0]], s[1..], x);
    CoversOne(s[0], x);
  }

  lemma TailStartsAbove(s: seq<Range>, x: nat)
    requires Separated(s) && s != [] && Covers(s[1..], x)
    ensures x > s[0].End()
  {
    var i :| 0 <= i < |s[1..]| && Within(s[1..][i], x);
    assert s[1..][i] == s[i + 1];
  }

  lemma HeadNoLater(s: seq<Range>, t: seq<Range>)
    requires Separated(s) && Separated(t) && SameAddresses(s, t) && s != []
    ensures t != [] && t[0].start <= s[0].start
  {
    var x := s[0].start;
    CoversHead(s, x);
    assert Covers(t, x);
    CoversHead(t, x);
    if Covers(t[1..], x) { TailStartsAbove(t, x); }
  }

  lemma HeadNoLonger(s: seq<Range>, t: seq<Range>)
    requires Separated(s) && Separated(t) && SameAddresses(s, t) && s != [] && t != []
    requires s[0].start == t[0].start
    ensures s[0].End() >= t[0].End()
  {
    var x := s[0].End();
    if x < t[0].End() {
      CoversHead(t, x);
      assert Covers(s, x);
      CoversHead(s, x);
      TailStartsAbove(s, x);
    }
  }

  /** Two separated lists that cover the same addresses are the same list. */
  lemma {:induction false} SeparatedIsCanonical(s: seq<Range>, t: seq<Range>)
    requires Separated(s) && Separated(t) && SameAddresses(s, t)
    ensures s == t
  {
    if s == [] {
      if t != [] { HeadNoLater(t, s); }
    } else {
      HeadNoLater(s, t);
      HeadNoLater(t, s);
      HeadNoLonger(s, t);
      HeadNoLonger(t, s);
      forall x: nat ensures Covers(s[1..], x) <==> Covers(t[1..], x) {
        assert Covers(s, x) <==> Covers(t, x);
        CoversHead(s, x);
        CoversHead(t, x);
        if Covers(s[1..], x) { TailStartsAbove(s, x); }
        if Covers(t[1..], x) { TailStartsAbove(t, x); }
      }
      SeparatedIsCanonical(s[1..], t[1..]);
      assert s == [s[0]] + s[1..] && t == [t[0]] + t[1..];
    }
  }

  /** Freeing what was just allocated restores the list, range by range. */
  lemma ReleaseUndoesAllocate(rs: seq<Range>, size: nat, lo: nat, hi: nat)
    requires Separated(rs) && WholePages(rs) && InRegion(rs, lo, hi) && 0 < lo
    requires size > 0 && size % PAGE == 0 && Allocate(rs, size).0 != 0
    ensures Release(Allocate(rs, size).1, Allocate(rs, size).0, size) == rs
  {
    hide Covers, Separated, Release;
    var (a, t) := Allocate(rs, size);
    var k := FirstFit(rs, size);
    AllocateIsExact(rs, size, lo, hi);
    RangeIsRun(rs, k, a, size);
    ReleaseIsExact(t, a, size, lo, hi);
    SeparatedIsCanonical(Release(t, a, size), rs);
  }

  // ----- The node pool is large enough -----

  lemma {:induction false} StartsAreSpread(rs: seq<Range>, lo: nat, hi: nat, i: nat)
    requires Separated(rs) && WholePages(rs) && InRegion(rs, lo, hi) && lo % PAGE == 0 && i < |rs|
    ensures lo + 2 * i * PAGE <= rs[i].start
  {
    if i > 0 {
      StartsAreSpread(rs, lo, hi, i - 1);
      PageApart(rs[i - 1], rs[i]);
    }
  }

  lemma PageApart(r: Range, s: Range)
    requires r.start % PAGE == 0 && r.size % PAGE == 0 && s.start % PAGE == 0
    requires r.size > 0 && r.End() < s.start
    ensures r.start + 2 * PAGE <= s.start
  {
    assert r.size >= PAGE;
    assert (s.start - r.End()) % PAGE == 0;
  }

  /** A separated list of n ranges takes up at least 2n - 1 pages. */
  lemma RangesNeedPages(rs: seq<Range>, lo: nat, hi: nat)
    requires Separated(rs) && WholePages(rs) && InRegion(rs, lo, hi) && lo % PAGE == 0 && rs != []
    ensures lo + (2 * |rs| - 1) * PAGE <= hi
  {
    StartsAreSpread(rs, lo, hi, |rs| - 1);
    assert rs[|rs| - 1].size >= PAGE;
  }

  /** When freeing needs a new node, one of a pool that has a node for every two pages of the
      region is unused. */
  lemma PoolSuffices(rs: seq<Range>, a: nat, size: nat, lo: nat, hi: nat, pool: nat)
    requires Separated(rs) && WholePages(rs) && InRegion(rs, lo, hi) && lo % PAGE == 0
    requires size > 0 && a % PAGE == 0 && size % PAGE == 0 && lo <= a && a + size <= hi
    requires RunTaken(rs, a, size) && hi - lo <= 2 * pool * PAGE
    requires !TouchesLeft(rs, Position(rs, a), a) && !TouchesRight(rs, Position(rs, a), a + size)
    ensures |rs| < pool
  {
    hide Covers, Separated, WholePages, InRegion, RunTaken, Position;
    ReleaseIsExact(rs, a, size, lo, hi);
    assert |Release(rs, a, size)| == |rs| + 1;
    RangesNeedPages(Release(rs, a, size), lo, hi);
  }

  // ----- The width of the size -----

  /** Requests of 2^20 pages or more wrap around. A request is answered properly (NULL if and
      only if there is no free run that long) exactly when it does not wrap or when nothing fits
      the wrapped size either. */
  lemma WrappedRequestIff(rs: seq<Range>, lo: nat, count: nat)
    requires Separated(rs) && WholePages(rs) && InRegion(rs, lo, WORD) && 0 < lo && 0 < count < WORD
    ensures (Allocate(rs, Bytes(count)).0 == 0 <==> forall x: nat :: !RunFree(rs, x, count * PAGE)) <==>
            count * PAGE < WORD || forall i :: 0 <= i < |rs| ==> rs[i].size < Bytes(count)
  {
    hide Separated, WholePages, RunFree;
    BytesArePages(count);
    if count * PAGE < WORD {
      AllocateIsLowestFit(rs, count * PAGE);
    } else {
      forall x: nat ensures !RunFree(rs, x, count * PAGE) {
        NoRunPastRegion(rs, lo, x, count * PAGE);
      }
      var k := FirstFit(rs, Bytes(count));
      assert k < |rs| ==> rs[k].size >= Bytes(count);
      hide FirstFit, Bytes;
    }
  }

  lemma NoRunPastRegion(rs: seq<Range>, lo: nat, x: nat, n: nat)
    requires Separated(rs) && InRegion(rs, lo, WORD) && 0 < lo && n >= WORD
    ensures !RunFree(rs, x, n)
  {
    if RunFree(rs, x, n) {
      var i := RunInOneRange(rs, x, n);
    }
  }

  /** A request for 2^20 pages is answered with the start of the first range, and takes nothing. */
  lemma WrappedRequestTakesNothing(rs: seq<Range>)
    requires rs != [] && rs[0].size > 0
    ensures Bytes(0x100000) == 0 && Allocate(rs, Bytes(0x100000)) == (rs[0].start, rs)
  {
    assert FirstFit(rs, 0) == 0;
    assert rs[0 := Range(rs[0].start + 0, rs[0].size - 0)] == rs;
  }
}
