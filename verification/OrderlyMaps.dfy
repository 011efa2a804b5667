/** What start-up makes free of the memory maps that a BIOS gives, in terms of the map alone: which
    frames, whatever path the loop takes. */
module OrderlyMaps {
  import opened Basics
  import opened MemDefs
  import opened MemoryMap

  predicate Around(e: Entry, start: nat)
  {
    e.base < start < e.base + e.length < 0x1_0000_0000
  }

  /** A sorted map with an entry around the start, whose later entries are longer than a page. */
  ghost predicate Orderly(entries: seq<Entry>, start: nat)
  {
    && Sorted(entries) && (exists i: nat :: i < |entries| && Around(entries[i], start))
    && forall i :: 0 < i < |entries| && start < entries[i - 1].base + entries[i - 1].length ==>
         entries[i].length > 0x1000
  }

  /** The address past the page in which an entry ends. */
  function PastEnd(e: Entry): nat
  {
    ((e.base + e.length) / 0x1000 + 1) * 0x1000
  }

  /** Entry k ends past the start, and every entry before it that does is usable or is followed by one
      that begins no later than a page past its end. */
  ghost predicate Comes(entries: seq<Entry>, start: nat, k: nat)
  {
    && k < |entries| && start < entries[k].base + entries[k].length
    && forall j :: 0 <= j < k && start < entries[j].base + entries[j].length ==>
         entries[j].kind == 1 || entries[j + 1].base <= PastEnd(entries[j])
  }

  /** The first frame looked at in entry k. */
  function FirstFrom(entries: seq<Entry>, first: nat, k: nat): nat
    requires k < |entries|
  {
    if k == 0 || entries[k - 1].base + entries[k - 1].length <= first * 0x1000 then first
    else PastEnd(entries[k - 1]) / 0x1000
  }

  ghost predicate FreedThere(entries: seq<Entry>, first: nat, k: nat, f: nat)
    requires k < |entries|
  {
    && entries[k].kind == 1 && Comes(entries, first * 0x1000, k)
    && FirstFrom(entries, first, k) <= f && (f + 1) * 0x1000 <= entries[k].base + entries[k].length
  }

  // ----- The path in an orderly map -----

  lemma StartsAround(entries: seq<Entry>, first: nat, k: nat)
    requires Sorted(entries) && k < |entries| && Around(entries[k], first * 0x1000)
    ensures FirstEntry(entries, first) == k
  {
    PlainEnd(entries[k]);
    var i := FirstEntry(entries, first);
    if i < k { InOrder(entries, i, k); }
  }

  /** A usable entry around the start gives all its frames from the first page on. */
  lemma StartEntryIsFreed(entries: seq<Entry>, first: nat, k: nat, f: nat)
    requires Sorted(entries) && k < |entries| && entries[k].kind == 1 && Around(entries[k], first * 0x1000)
    requires first <= f && (f + 1) * 0x1000 <= entries[k].base + entries[k].length
    ensures Freed(entries, first, f)
  {
    StartsAround(entries, first, k);
    PlainEnd(entries[k]);
  }

  lemma PastEndFrame(e: Entry)
    requires e.Plain()
    ensures PastEnd(e) == e.NextFrame() * PAGE && PastEnd(e) / 0x1000 == e.NextFrame()
    ensures e.End() < PastEnd(e) <= e.End() + PAGE
  {
    PlainEnd(e);
  }

  /** Where the loop is when it comes to an entry: at or before its end. */
  lemma WithinEntry(entries: seq<Entry>, first: nat, s: nat, k: nat)
    requires Orderly(entries, first * 0x1000) && s <= k < |entries| && Around(entries[s], first * 0x1000)
    requires entries[k].Plain()
    ensures FirstFrom(entries, first, k) * PAGE < entries[k].base + entries[k].length
  {
    if s < k {
      if s < k - 1 { InOrder(entries, s, k - 1); }
      InOrder(entries, k - 1, k);
      PastEndFrame(entries[k - 1]);
    } else if k > 0 {
      InOrder(entries, k - 1, k);
    }
  }

  lemma {:induction false} ComesArrives(entries: seq<Entry>, first: nat, s: nat, k: nat)
    requires Orderly(entries, first * 0x1000) && s <= k < |entries| && Around(entries[s], first * 0x1000)
    requires Comes(entries, first * 0x1000, k) && entries[k].Plain()
    ensures EntryFrom(entries, first, k) == Some(FirstFrom(entries, first, k))
    decreases k
  {
    StartsAround(entries, first, s);
    if s == k {
      if k > 0 { InOrder(entries, k - 1, k); }
    } else {
      var j := k - 1;
      InOrder(entries, j, k);
      if s < j { InOrder(entries, s, j); }
      ComesArrives(entries, first, s, j);
      WithinEntry(entries, first, s, j);
      var n := FirstFrom(entries, first, j);
      ArrivalThrough(entries, s, first, j, k);
      StepOn(entries, first, s, j, n);
    }
  }

  /** From an entry that is usable, or is followed soon enough, to the next. */
  lemma StepOn(entries: seq<Entry>, first: nat, s: nat, j: nat, n: nat)
    requires Orderly(entries, first * 0x1000) && s <= j && j + 1 < |entries| && Around(entries[s], first * 0x1000)
    requires entries[j + 1].Plain() && n * PAGE < entries[j].base + entries[j].length
    requires entries[j].kind == 1 || entries[j + 1].base <= PastEnd(entries[j])
    ensures Step(entries, j, n) == (j + 1, FirstFrom(entries, first, j + 1))
    ensures Arrival(entries, j, n, j + 1) == Some(FirstFrom(entries, first, j + 1))
  {
    InOrder(entries, j, j + 1);
    if s < j { InOrder(entries, s, j); }
    PastEndFrame(entries[j]);
    PlainEnd(entries[j + 1]);
    WithinEntry(entries, first, s, j + 1);
    hide Orderly, Sorted;
    if entries[j].kind != 1 {
      assert Spans(entries[j + 1], PastEnd(entries[j]), false);
      assert !Spans(entries[j], PastEnd(entries[j]), false);
    }
  }

  /** Past an entry that is not usable and not followed soon enough, the loop comes to no usable one. */
  lemma StopsAfter(entries: seq<Entry>, j: nat, n: nat, k: nat)
    requires Sorted(entries) && j < k < |entries| && entries[k].kind == 1
    requires n * PAGE < entries[j].base + entries[j].length
    requires entries[j].kind != 1 && entries[j + 1].base > PastEnd(entries[j])
    ensures Arrival(entries, j, n, k) == None
  {
    InOrder(entries, j, k);
    PastEndFrame(entries[j]);
    var (i, m) := Step(entries, j, n);
    if i <= k {
      if j + 1 < i { InOrder(entries, j + 1, i); }
      if i < k { InOrder(entries, i, k); } else { UsableIsPlain(entries, k); }
      PlainEnd(entries[i]);
    }
  }

  lemma {:induction false} NotComing(entries: seq<Entry>, start: nat, s: nat, k: nat) returns (j: nat)
    requires Orderly(entries, start) && s <= k < |entries| && Around(entries[s], start) && !Comes(entries, start, k)
    requires start < entries[k].base + entries[k].length
    ensures s <= j < k && Comes(entries, start, j)
    ensures entries[j].kind != 1 && entries[j + 1].base > PastEnd(entries[j])
    decreases k
  {
    hide Orderly, Sorted, Comes, PastEnd;
    StartComes(entries, start, s);
    assert s < k;
    EndsPastStart(entries, start, s, k - 1);
    if Comes(entries, start, k - 1) {
      j := k - 1;
      StopsHere(entries, start, k);
    } else {
      j := NotComing(entries, start, s, k - 1);
    }
  }

  lemma EndsPastStart(entries: seq<Entry>, start: nat, s: nat, k: nat)
    requires Orderly(entries, start) && s <= k < |entries| && Around(entries[s], start)
    ensures start < entries[k].base + entries[k].length
  {
    if s < k { InOrder(entries, s, k); }
  }

  lemma StopsHere(entries: seq<Entry>, start: nat, k: nat)
    requires 0 < k < |entries| && Comes(entries, start, k - 1) && !Comes(entries, start, k)
    requires start < entries[k].base + entries[k].length
    ensures entries[k - 1].kind != 1 && entries[k].base > PastEnd(entries[k - 1])
  {
    hide PastEnd;
  }

  lemma StartComes(entries: seq<Entry>, start: nat, s: nat)
    requires Orderly(entries, start) && s < |entries| && Around(entries[s], start)
    ensures Comes(entries, start, s)
  {
    forall j | 0 <= j < s ensures entries[j].base + entries[j].length <= start {
      InOrder(entries, j, s);
    }
  }

  lemma FreedThereIff(entries: seq<Entry>, first: nat, s: nat, k: nat, f: nat)
    requires Orderly(entries, first * 0x1000) && s < |entries| && Around(entries[s], first * 0x1000)
    requires k < |entries|
    ensures FreedAt(entries, first, k, f) <==> FreedThere(entries, first, k, f)
  {
    if entries[k].kind == 1 {
      UsableIsPlain(entries, k);
      StartsAround(entries, first, s);
      if k < s {
        InOrder(entries, k, s);
      } else if Comes(entries, first * 0x1000, k) {
        ComesArrives(entries, first, s, k);
      } else {
        if s < k { InOrder(entries, s, k); }
        var j := NotComing(entries, first * 0x1000, s, k);
        InOrder(entries, j, k);
        ComesArrives(entries, first, s, j);
        WithinEntry(entries, first, s, j);
        ArrivalThrough(entries, s, first, j, k);
        StopsAfter(entries, j, FirstFrom(entries, first, j), k);
      }
    }
  }

  /** In an orderly map, with or without gaps, frame f is made free if and only if it lies, from the first
      frame looked at on, before the end of a usable entry that the loop comes to. */
  lemma OrderlyFreedIff(entries: seq<Entry>, first: nat, f: nat)
    requires Orderly(entries, first * 0x1000)
    ensures Freed(entries, first, f) <==> exists k: nat :: k < |entries| && FreedThere(entries, first, k, f)
  {
    var s: nat :| s < |entries| && Around(entries[s], first * 0x1000);
    hide Freed, FreedAt, FreedThere, Orderly;
    FreedIff(entries, first, f);
    forall k: nat | k < |entries| ensures FreedAt(entries, first, k, f) <==> FreedThere(entries, first, k, f) {
      FreedThereIff(entries, first, s, k, f);
    }
  }

  // ----- Maps without gaps -----

  /** From the entry around the start on, each entry begins on a page boundary right where the one
      before ends, and is at least two pages long. */
  ghost predicate Contiguous(entries: seq<Entry>, start: nat)
  {
    && Sorted(entries) && (exists i: nat :: i < |entries| && Around(entries[i], start))
    && forall i :: 0 < i < |entries| && start < entries[i - 1].base + entries[i - 1].length ==>
         entries[i].base == entries[i - 1].base + entries[i - 1].length
         && entries[i].base % 0x1000 == 0 && entries[i].length >= 0x2000
  }

  /** The frame lies wholly in the entry, and is not the one at which the entry begins, unless that is
      below the start. */
  predicate Gives(e: Entry, first: nat, f: nat)
  {
    && e.kind == 1 && e.base <= f * 0x1000 && (f + 1) * 0x1000 <= e.base + e.length
    && (e.base < first * 0x1000 || e.base < f * 0x1000)
  }

  /** In a map without gaps every usable frame from the start on is made free, but for the first one of
      each later entry; and no other frame is. */
  lemma ContiguousFreedIff(entries: seq<Entry>, first: nat, f: nat)
    requires Contiguous(entries, first * 0x1000) && first <= f
    ensures Freed(entries, first, f) <==> exists k: nat :: k < |entries| && Gives(entries[k], first, f)
  {
    var s: nat :| s < |entries| && Around(entries[s], first * 0x1000);
    OrderlyFreedIff(entries, first, f);
    forall k: nat | k < |entries| ensures FreedThere(entries, first, k, f) <==> Gives(entries[k], first, f) {
      GivesThere(entries, first, s, k, f);
    }
  }

  lemma GivesThere(entries: seq<Entry>, first: nat, s: nat, k: nat, f: nat)
    requires Contiguous(entries, first * 0x1000) && s < |entries| && Around(entries[s], first * 0x1000)
    requires k < |entries| && first <= f
    ensures FreedThere(entries, first, k, f) <==> Gives(entries[k], first, f)
  {
    var start := first * 0x1000;
    if entries[k].kind == 1 {
      UsableIsPlain(entries, k);
      if k < s {
        InOrder(entries, k, s);
      } else {
        ContiguousComes(entries, start, s, k);
        if k > s {
          if s < k - 1 { InOrder(entries, s, k - 1); }
          InOrder(entries, k - 1, k);
          PastEndFrame(entries[k - 1]);
        } else if k > 0 {
          InOrder(entries, k - 1, k);
        }
      }
    }
  }

  lemma ContiguousComes(entries: seq<Entry>, start: nat, s: nat, k: nat)
    requires Contiguous(entries, start) && s <= k < |entries| && Around(entries[s], start) && entries[k].Plain()
    ensures Comes(entries, start, k)
  {
    if s < k { InOrder(entries, s, k); }
    forall j | 0 <= j < k && start < entries[j].base + entries[j].length
      ensures entries[j + 1].base <= PastEnd(entries[j])
    {
      InOrder(entries, j, k);
      PastEndFrame(entries[j]);
    }
  }

  /** The map of a PC with 128 MiB, with the kernel's memory up to 4 MiB: frame 0x400 is made free. */
  lemma UsualMap()
    ensures var entries := [Entry(0, 0x9fc00, 1), Entry(0x9fc00, 0x400, 2), Entry(0xf0000, 0x10000, 2),
                            Entry(0x100000, 0x7ee0000, 1)];
      Freed(entries, 0x400, 0x400)
  {
    hide Freed;
    var entries := [Entry(0, 0x9fc00, 1), Entry(0x9fc00, 0x400, 2), Entry(0xf0000, 0x10000, 2),
                    Entry(0x100000, 0x7ee0000, 1)];
    StartEntryIsFreed(entries, 0x400, 3, 0x400);
  }
}
