/** The memory map of the BIOS, and which frames the start-up loop of PMM_Init makes free. */
module MemoryMap {
  import opened Basics
  import opened MemDefs

  /** What is left of a number in 32 bits. */
  function Low32(x: int): (r: nat)
    ensures r < WORD
  {
    x % WORD
  }

  /** An entry of the memory map, as wide as the BIOS gives it; kind 1 is usable memory. */
  datatype Entry = Entry(base: nat, length: nat, kind: nat)
  {
    /** The code looks at the low words only. */
    function BaseLo(): nat { Low32(base) }

    function LengthLo(): nat { Low32(length) }

    /** The end of the entry as the code computes it, in 32 bits. */
    function End(): nat { Low32(BaseLo() + LengthLo()) }

    /** The first frame past the page in which the entry ends. */
    function NextFrame(): nat { End() / PAGE + 1 }

    /** The entry ends below 4 GiB: the code sees it as it is. */
    predicate Plain() { base + length < WORD }

    /** Frame f lies wholly in the entry. */
    predicate Holds(f: nat) { base <= f * PAGE && (f + 1) * PAGE <= base + length }
  }

  /** Frame f lies wholly in a usable entry. */
  ghost predicate Usable(entries: seq<Entry>, f: nat)
  {
    exists i: nat :: i < |entries| && entries[i].kind == 1 && entries[i].Holds(f)
  }

  // ----- The path of the loop -----

  /** The test of the two searches: the first one is strict. */
  predicate Spans(e: Entry, addr: nat, strict: bool)
  {
    (if strict then e.BaseLo() < addr else e.BaseLo() <= addr) && addr < e.End()
  }

  /** The first entry, from `from` on, that passes it; |entries| if there is none. */
  function Find(entries: seq<Entry>, from: nat, addr: nat, strict: bool): (k: nat)
    requires from <= |entries|
    ensures from <= k <= |entries|
    ensures k < |entries| ==> Spans(entries[k], addr, strict)
    ensures forall j :: from <= j < k ==> !Spans(entries[j], addr, strict)
    decreases |entries| - from
  {
    if from == |entries| || Spans(entries[from], addr, strict) then from else Find(entries, from + 1, addr, strict)
  }

  /** From entry k, which the loop has come to at frame n, to the next one: past its end the loop
      searches; usable memory it uses up and goes straight on; other memory it walks through, and
      searches then. */
  function Step(entries: seq<Entry>, k: nat, n: nat): (r: (nat, nat))
    requires k < |entries|
    ensures k < r.0 <= |entries| && n <= r.1 && entries[k].NextFrame() <= r.1
  {
    var e := entries[k];
    if e.End() < n * PAGE then (Find(entries, k, n * PAGE, false), n)
    else if e.kind == 1 then (k + 1, e.NextFrame())
    else (Find(entries, k, e.NextFrame() * PAGE, false), e.NextFrame())
  }

  /** What the loop makes free at an entry it comes to at frame n. */
  predicate FreesHere(e: Entry, n: nat, f: nat)
  {
    e.kind == 1 && n <= f && (f + 1) * PAGE <= e.End()
  }

  /** What it makes free from entry k on. */
  predicate FreedFrom(entries: seq<Entry>, k: nat, n: nat, f: nat)
    requires k <= |entries|
    decreases |entries| - k
  {
    && k < |entries|
    && (FreesHere(entries[k], n, f) || FreedFrom(entries, Step(entries, k, n).0, Step(entries, k, n).1, f))
  }

  function FirstEntry(entries: seq<Entry>, first: nat): (k: nat)
    ensures k <= |entries|
  {
    Find(entries, 0, first * PAGE, true)
  }

  /** The loop, started at frame `first`, makes frame f free. */
  predicate Freed(entries: seq<Entry>, first: nat, f: nat)
  {
    FreedFrom(entries, FirstEntry(entries, first), first, f)
  }

  /** The frame at which the loop, being at entry j and frame n, comes to entry k, if it does. */
  function Arrival(entries: seq<Entry>, j: nat, n: nat, k: nat): Option<nat>
    requires j <= |entries| && k < |entries|
    decreases |entries| - j
  {
    if j == k then Some(n)
    else if j > k then None
    else Arrival(entries, Step(entries, j, n).0, Step(entries, j, n).1, k)
  }

  /** The frame at which the loop comes to entry k. */
  function EntryFrom(entries: seq<Entry>, first: nat, k: nat): Option<nat>
    requires k < |entries|
  {
    Arrival(entries, FirstEntry(entries, first), first, k)
  }

  predicate FreesAt(entries: seq<Entry>, j: nat, n: nat, k: nat, f: nat)
    requires j <= |entries| && k < |entries|
  {
    Arrival(entries, j, n, k).Some? && FreesHere(entries[k], Arrival(entries, j, n, k).value, f)
  }

  predicate FreedAt(entries: seq<Entry>, first: nat, k: nat, f: nat)
    requires k < |entries|
  {
    FreesAt(entries, FirstEntry(entries, first), first, k, f)
  }

  lemma {:induction false} FreedFromIff(entries: seq<Entry>, j: nat, n: nat, f: nat)
    requires j <= |entries|
    ensures FreedFrom(entries, j, n, f) <==> exists k: nat :: k < |entries| && FreesAt(entries, j, n, k, f)
    decreases |entries| - j
  {
    hide FreesHere, Step;
    if j < |entries| {
      var (i, m) := Step(entries, j, n);
      FreedFromIff(entries, i, m, f);
      assert FreesAt(entries, j, n, j, f) <==> FreesHere(entries[j], n, f);
      forall k: nat | k < |entries| && k != j ensures FreesAt(entries, j, n, k, f) <==> FreesAt(entries, i, m, k, f) {
      }
    }
  }

  lemma FreedIff(entries: seq<Entry>, first: nat, f: nat)
    ensures Freed(entries, first, f) <==> exists k: nat :: k < |entries| && FreedAt(entries, first, k, f)
  {
    FreedFromIff(entries, FirstEntry(entries, first), first, f);
    hide FreesAt;
    var i := FirstEntry(entries, first);
    forall k: nat | k < |entries| ensures FreedAt(entries, first, k, f) <==> FreesAt(entries, i, first, k, f) {
    }
  }

  lemma {:induction false} ArrivalGrows(entries: seq<Entry>, j: nat, n: nat, k: nat)
    requires j <= |entries| && k < |entries| && Arrival(entries, j, n, k).Some?
    ensures j <= k && n <= Arrival(entries, j, n, k).value
    decreases |entries| - j
  {
    hide Step;
    if j < k { ArrivalGrows(entries, Step(entries, j, n).0, Step(entries, j, n).1, k); }
  }

  /** Coming to k after j is coming to k from j. */
  lemma {:induction false} ArrivalThrough(entries: seq<Entry>, i: nat, n: nat, j: nat, k: nat)
    requires i <= |entries| && j < k < |entries| && Arrival(entries, i, n, j).Some?
    ensures Arrival(entries, i, n, k) == Arrival(entries, j, Arrival(entries, i, n, j).value, k)
    decreases |entries| - i
  {
    hide Step;
    if i < j { ArrivalThrough(entries, Step(entries, i, n).0, Step(entries, i, n).1, j, k); }
  }

  /** The entry before k on the path. */
  lemma {:induction false} LastStep(entries: seq<Entry>, i: nat, n: nat, k: nat) returns (w: nat)
    requires i < k < |entries| && Arrival(entries, i, n, k).Some?
    ensures i <= w < k && Arrival(entries, i, n, w).Some?
    ensures Step(entries, w, Arrival(entries, i, n, w).value) == (k, Arrival(entries, i, n, k).value)
    decreases |entries| - i
  {
    hide Step;
    var (j, m) := Step(entries, i, n);
    if j == k { w := i; } else { w := LastStep(entries, j, m, k); }
  }

  /** The loop comes to an entry at the frame it started with, or one past the page in which an entry
      on its path ends. */
  lemma {:induction false} ArrivalFrame(entries: seq<Entry>, i: nat, n: nat, k: nat) returns (w: nat)
    requires i <= k < |entries| && Arrival(entries, i, n, k).Some?
    ensures Arrival(entries, i, n, k) == Some(n) ||
      (i <= w < k && Arrival(entries, i, n, w).Some? && Arrival(entries, i, n, k) == Some(entries[w].NextFrame()))
    decreases |entries| - i
  {
    w := i;
    if i < k {
      var (j, m) := Step(entries, i, n);
      hide Step;
      ArrivalGrows(entries, j, m, k);
      var v := ArrivalFrame(entries, j, m, k);
      if Arrival(entries, j, m, k) != Some(m) { w := v; }
    }
  }

  // ----- Sorted maps -----

  /** The entries are in order and do not overlap; there may be gaps. Only the last one may reach past
      4 GiB, if it is not usable. */
  ghost predicate Sorted(entries: seq<Entry>)
  {
    && (forall i, j :: 0 <= i < j < |entries| ==> entries[i].base + entries[i].length <= entries[j].base)
    && forall i :: 0 <= i < |entries| && (i < |entries| - 1 || entries[i].kind == 1) ==> entries[i].Plain()
  }

  lemma PlainEnd(e: Entry)
    requires e.Plain()
    ensures e.End() == e.base + e.length && e.BaseLo() == e.base
  {
  }

  lemma InOrder(entries: seq<Entry>, i: nat, j: nat)
    requires Sorted(entries) && i < j < |entries|
    ensures entries[i].Plain() && entries[i].End() == entries[i].base + entries[i].length <= entries[j].base
  {
    PlainEnd(entries[i]);
  }

  lemma UsableIsPlain(entries: seq<Entry>, k: nat)
    requires Sorted(entries) && k < |entries| && entries[k].kind == 1
    ensures entries[k].Plain() && entries[k].End() == entries[k].base + entries[k].length
    ensures entries[k].BaseLo() == entries[k].base
  {
    PlainEnd(entries[k]);
  }

  /** To a usable entry after one that holds frame f, the loop comes at a later frame. */
  lemma {:induction false} ComesLater(entries: seq<Entry>, i: nat, n: nat, j: nat, k: nat, f: nat)
    requires Sorted(entries) && i <= j < k < |entries| && entries[k].kind == 1 && entries[j].Holds(f)
    requires Arrival(entries, i, n, k).Some?
    ensures Arrival(entries, i, n, k).value > f
    decreases |entries| - i
  {
    var (i', n') := Step(entries, i, n);
    ArrivalGrows(entries, i', n', k);
    if i' <= j {
      ComesLater(entries, i', n', j, k, f);
    } else {
      InOrder(entries, j, k);
      if i < j { SearchPassesBy(entries, i, n, j, k, f); }
    }
  }

  lemma SearchPassesBy(entries: seq<Entry>, i: nat, n: nat, j: nat, k: nat, f: nat)
    requires Sorted(entries) && i < j < k < |entries| && j < Step(entries, i, n).0 <= k
    requires entries[k].kind == 1 && entries[j].Holds(f)
    ensures Step(entries, i, n).1 > f
  {
    var (i', n') := Step(entries, i, n);
    assert !Spans(entries[j], n' * PAGE, false) && Spans(entries[i'], n' * PAGE, false);
    hide Step;
    InOrder(entries, j, i');
    PlainEnd(entries[j]);
    UsableIsPlain(entries, k);
    if i' < k { InOrder(entries, i', k); PlainEnd(entries[i']); }
  }

  /** A frame that is made free at an entry and is usable lies in that entry. */
  lemma FreedInItsEntry(entries: seq<Entry>, first: nat, k: nat, f: nat)
    requires Sorted(entries) && k < |entries| && FreedAt(entries, first, k, f)
    ensures Usable(entries, f) ==> entries[k].Holds(f)
  {
    hide Step, Find, Sorted, FirstEntry, Arrival;
    UsableIsPlain(entries, k);
    var i := FirstEntry(entries, first);
    ArrivalGrows(entries, i, first, k);
    BeginsBefore(entries, first);
    if i < k { InOrder(entries, i, k); }
    PlainEnd(entries[i]);
    hide Entry.End, Entry.BaseLo;
    forall j: nat | j < |entries| && j != k ensures !entries[j].Holds(f) {
      if j < i { InOrder(entries, j, i); }
      if i <= j < k && entries[j].Holds(f) { ComesLater(entries, i, first, j, k, f); }
      if k < j { InOrder(entries, k, j); }
    }
  }

  lemma BeginsBefore(entries: seq<Entry>, first: nat)
    requires FirstEntry(entries, first) < |entries|
    ensures var e := entries[FirstEntry(entries, first)]; e.BaseLo() < first * PAGE
  {
  }

  // ----- Which usable frames are lost -----

  /** Frame f of usable entry k is lost: the loop never comes to the entry; or f is the first frame of
      the entry, which begins on a page boundary right where an entry on the path ends. */
  ghost predicate Loses(entries: seq<Entry>, first: nat, k: nat, f: nat)
    requires k < |entries|
  {
    && entries[k].kind == 1 && entries[k].Holds(f)
    && (EntryFrom(entries, first, k).None? || exists j: nat :: j < k && EndsAt(entries, first, j, k, f))
  }

  predicate EndsAt(entries: seq<Entry>, first: nat, j: nat, k: nat, f: nat)
    requires j < k < |entries|
  {
    EntryFrom(entries, first, j).Some? && entries[j].End() == entries[k].base == f * PAGE
  }

  lemma LostHereIff(entries: seq<Entry>, first: nat, k: nat, f: nat)
    requires Sorted(entries) && first <= f && k < |entries| && entries[k].kind == 1 && entries[k].Holds(f)
    ensures FreedAt(entries, first, k, f) <==> !Loses(entries, first, k, f)
  {
    hide Step, Find;
    UsableIsPlain(entries, k);
    var i := FirstEntry(entries, first);
    if EntryFrom(entries, first, k).Some? {
      ArrivalGrows(entries, i, first, k);
      var n := EntryFrom(entries, first, k).value;
      if n > f {
        var w := ArrivalFrame(entries, i, first, k);
        InOrder(entries, w, k);
        assert EndsAt(entries, first, w, k, f);
      }
      forall j: nat | j < k && EndsAt(entries, first, j, k, f) ensures n > f {
        var m := EntryFrom(entries, first, j).value;
        ArrivalThrough(entries, i, first, j, k);
        ArrivalGrows(entries, Step(entries, j, m).0, Step(entries, j, m).1, k);
      }
    }
  }

  lemma LostIff(entries: seq<Entry>, first: nat, f: nat)
    requires Sorted(entries) && first <= f
    ensures Usable(entries, f) && !Freed(entries, first, f) <==>
            exists k: nat :: k < |entries| && Loses(entries, first, k, f)
  {
    hide Sorted, Freed, FreedAt, Loses;
    FreedIff(entries, first, f);
    forall k: nat | k < |entries| && FreedAt(entries, first, k, f) ensures Usable(entries, f) ==> entries[k].Holds(f) {
      FreedInItsEntry(entries, first, k, f);
    }
    forall k: nat | k < |entries| && entries[k].kind == 1 && entries[k].Holds(f)
      ensures FreedAt(entries, first, k, f) <==> !Loses(entries, first, k, f)
    {
      LostHereIff(entries, first, k, f);
    }
    forall k: nat | k < |entries| && Loses(entries, first, k, f) ensures entries[k].kind == 1 && entries[k].Holds(f) {
      LosesItsOwn(entries, first, k, f);
    }
    forall j: nat, k: nat | j < |entries| && k < |entries| && entries[j].Holds(f) && entries[k].Holds(f)
      ensures j == k
    {
      OneHolder(entries, j, k, f);
    }
  }

  lemma LosesItsOwn(entries: seq<Entry>, first: nat, k: nat, f: nat)
    requires k < |entries| && Loses(entries, first, k, f)
    ensures entries[k].kind == 1 && entries[k].Holds(f)
  {
  }

  lemma OneHolder(entries: seq<Entry>, j: nat, k: nat, f: nat)
    requires Sorted(entries) && j < |entries| && k < |entries| && entries[j].Holds(f) && entries[k].Holds(f)
    ensures j == k
  {
    if j < k { InOrder(entries, j, k); }
    if k < j { InOrder(entries, k, j); }
  }

  // ----- Which other frames are made free -----

  /** Frame f begins in the gap between two usable entries on the path, past the page in which the
      first ends, and ends with the second at the latest. */
  ghost predicate FreesGap(entries: seq<Entry>, first: nat, k: nat, f: nat)
    requires k < |entries|
  {
    && k > 0 && entries[k - 1].kind == 1 && entries[k].kind == 1
    && EntryFrom(entries, first, k - 1).Some? && EntryFrom(entries, first, k - 1).value * PAGE <= entries[k - 1].End()
    && entries[k - 1].NextFrame() <= f && f * PAGE < entries[k].base && (f + 1) * PAGE <= entries[k].End()
  }

  lemma FreedGapIff(entries: seq<Entry>, first: nat, f: nat)
    requires Sorted(entries)
    ensures Freed(entries, first, f) && !Usable(entries, f) <==>
            exists k: nat :: k < |entries| && FreesGap(entries, first, k, f)
  {
    hide Sorted, Freed, FreedAt, FreesGap;
    FreedIff(entries, first, f);
    if k: nat :| k < |entries| && FreesGap(entries, first, k, f) {
      GapFrameIsFreed(entries, first, k, f);
    }
    if k: nat :| k < |entries| && FreedAt(entries, first, k, f) {
      if !Usable(entries, f) { FreedIsGapFrame(entries, first, k, f); }
    }
  }

  lemma GapFrameIsFreed(entries: seq<Entry>, first: nat, k: nat, f: nat)
    requires Sorted(entries) && k < |entries| && FreesGap(entries, first, k, f)
    ensures FreedAt(entries, first, k, f) && !Usable(entries, f)
  {
    hide Find;
    var n := EntryFrom(entries, first, k - 1).value;
    ArrivalThrough(entries, FirstEntry(entries, first), first, k - 1, k);
    assert Step(entries, k - 1, n) == (k, entries[k - 1].NextFrame());
    hide Step;
    FreedInItsEntry(entries, first, k, f);
  }

  lemma FreedIsGapFrame(entries: seq<Entry>, first: nat, k: nat, f: nat)
    requires Sorted(entries) && k < |entries| && FreedAt(entries, first, k, f) && !Usable(entries, f)
    ensures FreesGap(entries, first, k, f)
  {
    hide Find;
    assert !entries[k].Holds(f);
    UsableIsPlain(entries, k);
    var i := FirstEntry(entries, first);
    ArrivalGrows(entries, i, first, k);
    if i == k {
      BeginsBefore(entries, first);
    } else {
      var w := LastStep(entries, i, first, k);
    }
  }

  // ----- When the start-up is right -----

  /** The first frame from `first` on that can lie wholly in the entry. */
  function FirstIn(e: Entry, first: nat): nat
  {
    if e.base <= first * PAGE then first else (e.base + 0xfff) / PAGE
  }

  /** The loop comes to usable entry k at the first frame it has, if it has one; otherwise it makes
      nothing free there. */
  ghost predicate BeginsRight(entries: seq<Entry>, first: nat, k: nat)
    requires k < |entries|
  {
    var n, c := EntryFrom(entries, first, k), FirstIn(entries[k], first);
    if entries[k].Holds(c) then n == Some(c)
    else n.Some? ==> entries[k].End() < (n.value + 1) * PAGE
  }

  ghost predicate FreesExactlyUsable(entries: seq<Entry>, first: nat)
  {
    forall f: nat :: first <= f ==> (Freed(entries, first, f) <==> Usable(entries, f))
  }

  ghost predicate AllBeginRight(entries: seq<Entry>, first: nat)
  {
    forall k: nat :: k < |entries| && entries[k].kind == 1 ==> BeginsRight(entries, first, k)
  }

  /** The frames made free are exactly the usable ones if and only if every usable entry begins
      right. */
  lemma StartupIsRightIff(entries: seq<Entry>, first: nat)
    requires Sorted(entries)
    ensures FreesExactlyUsable(entries, first) <==> AllBeginRight(entries, first)
  {
    hide Sorted, Freed, Usable, BeginsRight;
    if AllBeginRight(entries, first) {
      forall f: nat | first <= f ensures Freed(entries, first, f) <==> Usable(entries, f) {
        RightFrame(entries, first, f);
      }
    } else {
      var k: nat :| k < |entries| && entries[k].kind == 1 && !BeginsRight(entries, first, k);
      var f := WrongFrame(entries, first, k);
    }
  }

  lemma FirstFrameIn(e: Entry, first: nat, f: nat)
    requires first <= f && e.Holds(f)
    ensures FirstIn(e, first) <= f && e.Holds(FirstIn(e, first))
  {
  }

  lemma RightFrame(entries: seq<Entry>, first: nat, f: nat)
    requires Sorted(entries) && AllBeginRight(entries, first) && first <= f
    ensures Freed(entries, first, f) <==> Usable(entries, f)
  {
    FreedIff(entries, first, f);
    hide Freed, Arrival, FirstIn;
    if k: nat :| k < |entries| && entries[k].kind == 1 && entries[k].Holds(f) {
      FirstFrameIn(entries[k], first, f);
      UsableIsPlain(entries, k);
      assert FreedAt(entries, first, k, f);
    }
    if k: nat :| k < |entries| && FreedAt(entries, first, k, f) {
      UsableIsPlain(entries, k);
      assert entries[k].Holds(f);
    }
  }

  lemma WrongFrame(entries: seq<Entry>, first: nat, k: nat) returns (f: nat)
    requires Sorted(entries) && k < |entries| && entries[k].kind == 1 && !BeginsRight(entries, first, k)
    ensures first <= f && (Freed(entries, first, f) <==> !Usable(entries, f))
  {
    var e, n := entries[k], EntryFrom(entries, first, k);
    UsableIsPlain(entries, k);
    if n.Some? { ArrivalGrows(entries, FirstEntry(entries, first), first, k); }
    if n.Some? && e.Holds(n.value) { FirstFrameIn(e, first, n.value); }
    assert FirstIn(e, first) >= first;
    hide Freed, Arrival, FirstIn, Sorted, Usable;
    if n.Some? && (n.value + 1) * PAGE <= e.End() && !e.Holds(n.value) {
      f := n.value;
      assert FreedAt(entries, first, k, f);
      FreedInItsEntry(entries, first, k, f);
    } else {
      f := FirstIn(e, first);
      assert e.Holds(f);
      assert n.Some? ==> n.value > f;
      forall j: nat | j < |entries| ensures !FreedAt(entries, first, j, f) {
        if FreedAt(entries, first, j, f) {
          FreedInItsEntry(entries, first, j, f);
          OneHolder(entries, j, k, f);
        }
      }
    }
    FreedIff(entries, first, f);
  }

  // ----- Short gaps -----

  /** Between two usable entries there is no gap, or it ends in the page after the first. */
  ghost predicate GapsAreShort(entries: seq<Entry>)
  {
    forall i: nat :: i + 1 < |entries| && entries[i].kind == 1 && entries[i + 1].kind == 1 ==>
      entries[i + 1].base <= entries[i].NextFrame() * PAGE
  }

  /** In a map below 4 GiB, sorted or not, whose gaps are short, only usable frames are made free. */
  lemma ShortGapsFreeUsable(entries: seq<Entry>, first: nat, f: nat)
    requires GapsAreShort(entries) && forall i :: 0 <= i < |entries| ==> entries[i].Plain()
    requires Freed(entries, first, f)
    ensures Usable(entries, f)
  {
    var k := FirstEntry(entries, first);
    if k < |entries| { PlainEnd(entries[k]); }
    ShortGapsFrom(entries, k, first, f);
  }

  lemma {:induction false} ShortGapsFrom(entries: seq<Entry>, k: nat, n: nat, f: nat)
    requires GapsAreShort(entries) && forall i :: 0 <= i < |entries| ==> entries[i].Plain()
    requires k < |entries| && FreedFrom(entries, k, n, f)
    requires entries[k].kind == 1 && n * PAGE <= entries[k].End() ==> entries[k].base <= n * PAGE
    ensures Usable(entries, f)
    decreases |entries| - k
  {
    var e := entries[k];
    PlainEnd(e);
    if FreesHere(e, n, f) {
      assert e.Holds(f);
    } else {
      var (j, m) := Step(entries, k, n);
      if j < |entries| { PlainEnd(entries[j]); }
      ShortGapsFrom(entries, j, m, f);
    }
  }

  // ----- Three maps -----

  /** Usable memory up to 0x2000, and from there on: frame 2 is lost. */
  lemma AdjacentEntriesLoseAFrame()
    ensures var entries := [Entry(0, 0x2000, 1), Entry(0x2000, 0x3000, 1)];
      Sorted(entries) && Usable(entries, 2) && !Freed(entries, 1, 2)
  {
    var entries := [Entry(0, 0x2000, 1), Entry(0x2000, 0x3000, 1)];
    assert entries[1].Holds(2);
    assert EndsAt(entries, 1, 0, 1, 2);
    LostIff(entries, 1, 2);
  }

  /** Usable memory up to 0x3000, and from 0x6000 on: frame 4, in between, is made free. */
  lemma GapIsMadeFree()
    ensures var entries := [Entry(0, 0x3000, 1), Entry(0x6000, 0x2000, 1)];
      Sorted(entries) && Freed(entries, 1, 4) && !Usable(entries, 4)
  {
    var entries := [Entry(0, 0x3000, 1), Entry(0x6000, 0x2000, 1)];
    assert FreesGap(entries, 1, 1, 4);
    FreedGapIff(entries, 1, 4);
  }

  /** Memory that the code takes for lower one, because it sees the low words: with usable memory up to
      0x3000, and from 4 GiB on, frame 4 is made free. So is frame 5 when other memory lies
      between, through the search. */
  lemma HighMemoryFreesLowFrames()
    ensures var entries := [Entry(0, 0x3000, 1), Entry(0x1_0000_0000, 0x8000, 1)];
      Freed(entries, 1, 4) && !Usable(entries, 4)
    ensures var entries := [Entry(0, 0x3000, 1), Entry(0x3000, 0x1000, 2), Entry(0x1_0000_0000, 0x8000, 1)];
      Freed(entries, 1, 5) && !Usable(entries, 5)
  {
    var entries := [Entry(0, 0x3000, 1), Entry(0x1_0000_0000, 0x8000, 1)];
    assert FirstEntry(entries, 1) == 0;
    assert Step(entries, 0, 1) == (1, 4);
    assert FreesHere(entries[1], 4, 4);
    assert FreedFrom(entries, 1, 4, 4);
    SearchFindsHighMemory();
  }

  lemma SearchFindsHighMemory()
    ensures var entries := [Entry(0, 0x3000, 1), Entry(0x3000, 0x1000, 2), Entry(0x1_0000_0000, 0x8000, 1)];
      Freed(entries, 1, 5) && !Usable(entries, 5)
  {
    var entries := [Entry(0, 0x3000, 1), Entry(0x3000, 0x1000, 2), Entry(0x1_0000_0000, 0x8000, 1)];
    assert FirstEntry(entries, 1) == 0;
    assert Step(entries, 0, 1) == (1, 4);
    assert Find(entries, 1, 0x5000, false) == 2;
    assert Step(entries, 1, 4) == (2, 5);
    assert FreesHere(entries[2], 5, 5);
    assert FreedFrom(entries, 2, 5, 5);
    assert FreedFrom(entries, 1, 4, 5);
  }
}
