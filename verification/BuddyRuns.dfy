/** Whole runs of the frame allocator: any sequence of requests and releases. */
module BuddyRuns {
  import opened BuddyBlocks
  import opened BuddySplit
  import opened BuddyFrames
  import opened BuddyFree
  import opened BuddyOddCounts
  import opened BuddyRoundTrip

  /** A range of frames returned by PMM_GetFrames and not given back yet. */
  datatype Allocation = Allocation(first: nat, count: nat)

  /** The free blocks, the live allocations, and the frames that were neither returned nor
      handed back (they are never used again). */
  datatype System = System(free: FreeSet, live: seq<Allocation>, kept: iset<nat>)

  datatype Operation = Request(count: nat) | Release(which: nat)

  ghost predicate Holds(al: Allocation, f: nat)
  {
    InRun(f, al.first, al.count)
  }

  /** Any request at all, and the release of any live allocation. */
  predicate Proper(sys: System, op: Operation)
  {
    op.Release? ==> op.which < |sys.live|
  }

  /** The state after a request that returned a and left the free blocks as t; a request for no
      frame takes four, which nobody owns. */
  ghost function AfterRequest(sys: System, count: nat, a: nat, t: FreeSet): System
    requires a != 0 ==> count <= 16
  {
    if a == 0 then sys.(free := t)
    else if count == 0 then System(t, sys.live, sys.kept + Run(a, Size(LevelFor(0))))
    else System(t, sys.live + [Allocation(a, count)],
                sys.kept + Run(a + count + TailLength(count), Kept(count)))
  }

  /** The state after a release that leaves the free blocks as `free`. */
  function AfterRelease(sys: System, k: nat, free: FreeSet): System
    requires k < |sys.live|
  {
    System(free, sys.live[..k] + sys.live[k + 1..], sys.kept)
  }

  /** One operation as it was meant: requests with their whole tail, or none if they fail, and
      releases with a return at the top level. */
  ghost function Apply(sys: System, op: Operation): System
    requires Proper(sys, op)
  {
    match op
    case Request(count) => var (a, t) := MeantGet(sys.free, count); AfterRequest(sys, count, a, t)
    case Release(k) => AfterRelease(sys, k, Merge(sys.free, sys.live[k].first, sys.live[k].count))
  }

  /** sys' is what the operations make of sys, each of them proper when its turn comes. */
  ghost predicate Leads(sys: System, ops: seq<Operation>, sys': System)
    decreases |ops|
  {
    if ops == [] then sys' == sys
    else Proper(sys, ops[0]) && Leads(Apply(sys, ops[0]), ops[1..], sys')
  }

  // ----- The code as written -----

  /** The operation does not ask for level 5. */
  ghost predicate StaysInBounds(sys: System, op: Operation)
    requires Proper(sys, op)
  {
    op.Release? ==> Free(sys.free, sys.live[op.which].first, sys.live[op.which].count).inBounds
  }

  ghost function ApplyAsWritten(sys: System, op: Operation): System
    requires Proper(sys, op)
  {
    match op
    case Request(count) => var (a, t) := Get(sys.free, count); AfterRequest(sys, count, a, t)
    case Release(k) => AfterRelease(sys, k, Free(sys.free, sys.live[k].first, sys.live[k].count).state)
  }

  /** The code as written gets through the operations without asking for level 5 and ends in sys'. */
  ghost predicate LeadsAsWritten(sys: System, ops: seq<Operation>, sys': System)
    decreases |ops|
  {
    if ops == [] then sys' == sys
    else
      && Proper(sys, ops[0]) && StaysInBounds(sys, ops[0])
      && LeadsAsWritten(ApplyAsWritten(sys, ops[0]), ops[1..], sys')
  }

  /** In terms of frames: the operation releases part of a top-level block whose other frames are
      all free, next to a free top-level block. */
  ghost predicate CompletesPair(sys: System, op: Operation)
    requires Proper(sys, op)
  {
    op.Release? &&
    var al := sys.live[op.which];
    al.count < 16 && CompletesTopBlock(sys.free, al.first, al.count) && Buddy(TopBlock(al.first)) in sys.free
  }

  /** The request fails although the bits of its tail are not clear, or it is for twelve frames and
      succeeds. */
  ghost predicate StrayRequest(sys: System, op: Operation)
  {
    op.Request? && op.count <= 16 &&
    if Get(sys.free, op.count).0 == 0 then !(Tail(0, op.count) <= sys.free) else op.count == 12
  }

  /** The code as written stays in bounds and does what was meant, operation after operation. */
  ghost predicate FollowsAsWritten(sys: System, ops: seq<Operation>)
    decreases |ops|
  {
    ops != [] && Proper(sys, ops[0]) ==>
      && StaysInBounds(sys, ops[0]) && ApplyAsWritten(sys, ops[0]) == Apply(sys, ops[0])
      && FollowsAsWritten(Apply(sys, ops[0]), ops[1..])
  }

  /** No operation of the run, each taken as it was meant, is a stray request or completes a pair of
      top-level blocks. */
  ghost predicate NeverAstray(sys: System, ops: seq<Operation>)
    decreases |ops|
  {
    ops != [] && Proper(sys, ops[0]) ==>
      && !StrayRequest(sys, ops[0]) && !CompletesPair(sys, ops[0])
      && NeverAstray(Apply(sys, ops[0]), ops[1..])
  }

  /** No request of the run is a stray one. */
  ghost predicate NoStrayRequest(sys: System, ops: seq<Operation>)
    decreases |ops|
  {
    ops != [] && Proper(sys, ops[0]) ==>
      !StrayRequest(sys, ops[0]) && NoStrayRequest(Apply(sys, ops[0]), ops[1..])
  }

  ghost predicate LiveAt(live: seq<Allocation>, f: nat)
  {
    exists k :: 0 <= k < |live| && Holds(live[k], f)
  }

  ghost predicate ProperAllocation(s: FreeSet, blocks: nat, al: Allocation)
  {
    && 0 < al.count <= 16
    && Live(s, blocks, al.first, al.count, LevelFor(al.count))
  }

  ghost predicate Disjoint(live: seq<Allocation>)
  {
    forall j, k, f: nat :: 0 <= j < |live| && 0 <= k < |live| && Holds(live[j], f) && Holds(live[k], f) ==> j == k
  }

  /** Every frame of `all` is in exactly one place: a free block, a live allocation, or the kept
      frames; no other frame, frame 0 in particular, is in any of them. */
  ghost predicate Accounted(sys: System, all: iset<nat>)
  {
    && 0 !in all
    && (forall f: nat :: f in all <==> FreeAt(sys.free, f) || LiveAt(sys.live, f) || f in sys.kept)
    && (forall f: nat :: LiveAt(sys.live, f) ==> !FreeAt(sys.free, f) && f !in sys.kept)
    && (forall f: nat :: f in sys.kept ==> !FreeAt(sys.free, f))
  }

  ghost predicate Safe(sys: System, blocks: nat, all: iset<nat>)
  {
    && WellFormed(sys.free, blocks) && Coalesced(sys.free)
    && (forall k :: 0 <= k < |sys.live| ==> ProperAllocation(sys.free, blocks, sys.live[k]))
    && Disjoint(sys.live)
    && Accounted(sys, all)
  }

  lemma RequestAccounts(sys: System, blocks: nat, all: iset<nat>, a: nat, t: FreeSet, count: nat)
    requires Safe(sys, blocks, all)
    requires 0 < count <= 16 && Got(sys.free, t, blocks, a, count)
    ensures Accounted(System(t, sys.live + [Allocation(a, count)],
                      sys.kept + Run(a + count + TailLength(count), Kept(count))), all)
    ensures Disjoint(sys.live + [Allocation(a, count)])
  {
    hide Up, Down, WellFormed, Coalesced, FreeAt, InMemory, Size;
    var al := Allocation(a, count);
    var live := sys.live + [al];
    var rest := a + count + TailLength(count);
    forall f: nat ensures LiveAt(live, f) <==> LiveAt(sys.live, f) || Holds(al, f) {
      if Holds(al, f) { assert Holds(live[|sys.live|], f); }
      if LiveAt(sys.live, f) {
        var k :| 0 <= k < |sys.live| && Holds(sys.live[k], f);
        assert Holds(live[k], f);
      }
    }
    forall f: nat | Holds(al, f) || InRun(f, rest, Kept(count)) ensures FreeAt(sys.free, f) {
      PartsOfBlock(a, count, f);
    }
  }

  lemma RequestIsSafe(sys: System, blocks: nat, all: iset<nat>, count: nat)
    requires Safe(sys, blocks, all) && Proper(sys, Request(count))
    ensures Safe(Apply(sys, Request(count)), blocks, all)
  {
    hide Up, Down, WellFormed, Coalesced, FreeAt, InMemory, Size, Take, Disjoint, Accounted;
    var (a, t) := MeantGet(sys.free, count);
    if a != 0 {
      hide MeantGet;
      assert count <= 16 by { MeantUpToSixteen(sys.free, count); }
      if count == 0 {
        MeantZero(sys.free, blocks);
        ZeroAccounts(sys, blocks, all, a, t);
      } else {
        MeantGetIsExact(sys.free, blocks, count);
        SmallSize(LevelFor(count));
        RequestAccounts(sys, blocks, all, a, t, count);
      }
    }
  }

  /** A successful request for 1 to 16 frames adds what it returns, frames that were all free, to the live
      allocations, and leaves out of use as many frames as the count is known to waste. */
  lemma RequestBecomesLive(sys: System, blocks: nat, all: iset<nat>, count: nat)
    requires Safe(sys, blocks, all) && 0 < count <= 16 && MeantGet(sys.free, count).0 != 0
    ensures var a := MeantGet(sys.free, count).0; var sys' := Apply(sys, Request(count));
      && sys'.live == sys.live + [Allocation(a, count)]
      && (forall f: nat :: a <= f < a + count ==> FreeAt(sys.free, f))
      && forall f: nat :: f in sys'.kept <==>
           (f in sys.kept || (FreeAt(sys.free, f) && !FreeAt(sys'.free, f) && !(a <= f < a + count)))
  {
    hide Up, Down, WellFormed, Coalesced, FreeAt, InMemory, Size, MeantGet, Disjoint, Accounted;
    MeantGetIsExact(sys.free, blocks, count);
    SmallSize(LevelFor(count));
    var a := MeantGet(sys.free, count).0;
    forall f: nat | InRun(f, a + count + TailLength(count), Kept(count)) ensures FreeAt(sys.free, f) {
      PartsOfBlock(a, count, f);
    }
  }

  lemma MeantUpToSixteen(s: FreeSet, count: nat)
    requires MeantGet(s, count).0 != 0
    ensures count <= 16
  {
  }

  lemma MeantZero(s: FreeSet, blocks: nat)
    requires WellFormed(s, blocks) && Coalesced(s) && MeantGet(s, 0).0 != 0
    ensures TookRun(s, MeantGet(s, 0).1, blocks, MeantGet(s, 0).0, LevelFor(0))
  {
    hide WellFormed, Coalesced, TookRun, Take;
    var (a, t) := Take(s, 2);
    assert t + MeantTail(a, 0) == t;
    TakeRunIsExact(s, blocks, 2);
  }

  lemma ZeroAccounts(sys: System, blocks: nat, all: iset<nat>, a: nat, t: FreeSet)
    requires Safe(sys, blocks, all) && TookRun(sys.free, t, blocks, a, LevelFor(0))
    ensures Accounted(System(t, sys.live, sys.kept + Run(a, Size(LevelFor(0)))), all)
  {
    hide Up, Down, WellFormed, Coalesced, FreeAt, InMemory, Size, LiveAt;
  }

  lemma ReleaseAccounts(sys: System, all: iset<nat>, k: nat, t: FreeSet)
    requires Disjoint(sys.live) && Accounted(sys, all) && k < |sys.live|
    requires forall f: nat :: FreeAt(t, f) <==> FreeAt(sys.free, f) || Holds(sys.live[k], f)
    ensures Disjoint(sys.live[..k] + sys.live[k + 1..])
    ensures Accounted(System(t, sys.live[..k] + sys.live[k + 1..], sys.kept), all)
  {
    hide FreeAt, Holds;
    var live := sys.live[..k] + sys.live[k + 1..];
    forall f: nat ensures LiveAt(live, f) <==> LiveAt(sys.live, f) && !Holds(sys.live[k], f) {
      if LiveAt(live, f) {
        var j :| 0 <= j < |live| && Holds(live[j], f);
        assert live[j] == sys.live[if j < k then j else j + 1];
      }
      if LiveAt(sys.live, f) && !Holds(sys.live[k], f) {
        var j :| 0 <= j < |sys.live| && Holds(sys.live[j], f);
        assert live[if j < k then j else j - 1] == sys.live[j];
      }
    }
    forall i, j, f: nat | 0 <= i < |live| && 0 <= j < |live| && Holds(live[i], f) && Holds(live[j], f) ensures i == j {
      assert live[i] == sys.live[if i < k then i else i + 1];
      assert live[j] == sys.live[if j < k then j else j + 1];
    }
  }

  lemma ReleaseIsSafe(sys: System, blocks: nat, all: iset<nat>, k: nat)
    requires Safe(sys, blocks, all) && Proper(sys, Release(k))
    ensures Safe(Apply(sys, Release(k)), blocks, all)
  {
    hide Up, Down, WellFormed, Coalesced, FreeAt, InMemory, Size, Free, Merge, Accounted;
    var al := sys.live[k];
    FreeIsExact(sys.free, blocks, al.first, al.count);
    ReleaseAccounts(sys, all, k, Merge(sys.free, al.first, al.count));
  }

  lemma OperationIsSafe(sys: System, blocks: nat, all: iset<nat>, op: Operation)
    requires Safe(sys, blocks, all) && Proper(sys, op)
    ensures Safe(Apply(sys, op), blocks, all)
  {
    hide Safe, Apply, Proper;
    match op {
      case Request(count) => RequestIsSafe(sys, blocks, all, count);
      case Release(k) => ReleaseIsSafe(sys, blocks, all, k);
    }
  }

  /** Every state of every run is safe: the free blocks are disjoint and maximally coalesced,
      live allocations overlap neither each other nor the free blocks, frame 0 is in none of
      them, and free, live and kept frames together stay exactly what was free at first. */
  lemma {:induction false} RunsAreSafe(sys: System, blocks: nat, all: iset<nat>, ops: seq<Operation>, sys': System)
    requires Safe(sys, blocks, all) && Leads(sys, ops, sys')
    ensures Safe(sys', blocks, all)
    decreases |ops|
  {
    hide Safe, Apply, Proper;
    if ops != [] {
      OperationIsSafe(sys, blocks, all, ops[0]);
      RunsAreSafe(Apply(sys, ops[0]), blocks, all, ops[1..], sys');
    }
  }

  /** A freshly initialized allocator is safe. */
  lemma StartIsSafe(s: FreeSet, blocks: nat)
    requires WellFormed(s, blocks) && Coalesced(s)
    ensures Safe(System(s, [], iset{}), blocks, FreeFrames(s))
  {
    if FreeAt(s, 0) {
      var l: nat :| l <= TOP && Block(l, Up(0, l)) in s;
      UpOfZero(l);
    }
  }

  /** A run that has released everything, and kept nothing on the way, has restored every bit,
      whatever the order of requests and releases was. */
  lemma CompleteRunRestores(s: FreeSet, blocks: nat, ops: seq<Operation>, sys': System)
    requires WellFormed(s, blocks) && Coalesced(s)
    requires Leads(System(s, [], iset{}), ops, sys')
    requires sys'.live == [] && sys'.kept == iset{}
    ensures sys'.free == s
  {
    hide WellFormed, Coalesced, FreeAt, Leads;
    StartIsSafe(s, blocks);
    RunsAreSafe(System(s, [], iset{}), blocks, FreeFrames(s), ops, sys');
    assert forall f: nat :: f in FreeFrames(s) <==> FreeAt(sys'.free, f);
    assert FreeFrames(sys'.free) == FreeFrames(s);
    CoalescedIsCanonical(sys'.free, s, blocks);
  }

  // ----- When the code as written follows -----

  /** A request as written does what was meant if and only if it is not a stray one. */
  lemma RequestMeetsIntentIff(s: FreeSet, blocks: nat, count: nat)
    requires WellFormed(s, blocks) && Coalesced(s)
    ensures Get(s, count).0 == MeantGet(s, count).0
    ensures Get(s, count) == MeantGet(s, count) <==> !StrayRequest(System(s, [], iset{}), Request(count))
  {
    hide Up, Down, WellFormed, Coalesced, FreeAt, InMemory;
    if count <= 16 {
      var (a, t) := Take(s, LevelFor(count));
      hide Take;
      if a == 0 {
        FailureIsHarmlessIff(s, blocks, count);
      } else if count == 12 {
        TwelveIsNotMeant(s, blocks);
      }
    }
  }

  /** An operation as written stays in bounds and does what was meant if and only if it is neither a
      stray request nor completes a pair of top-level blocks. */
  lemma OperationMeetsIntentIff(sys: System, blocks: nat, all: iset<nat>, op: Operation)
    requires Safe(sys, blocks, all) && Proper(sys, op)
    ensures StaysInBounds(sys, op) <==> !CompletesPair(sys, op)
    ensures StaysInBounds(sys, op) && ApplyAsWritten(sys, op) == Apply(sys, op) <==>
            !StrayRequest(sys, op) && !CompletesPair(sys, op)
  {
    hide WellFormed, Coalesced, FreeAt, InMemory, Size, Free, Merge, Get, MeantGet, Accounted, CompletesTopBlock;
    match op {
      case Release(k) =>
        var al := sys.live[k];
        FreeIsExact(sys.free, blocks, al.first, al.count);
        FreeMeetsIntentIff(sys.free, blocks, al.first, al.count);
      case Request(count) =>
        RequestMeetsIntentIff(sys.free, blocks, count);
    }
  }

  /** The code as written goes through the states that were meant, all along a run, if and only if the
      run never goes astray. A run without stray requests gets through as written if and only if
      it never goes astray, and then it ends where it was meant to. */
  lemma {:induction false} WrittenRunsIff(sys: System, blocks: nat, all: iset<nat>, ops: seq<Operation>, sys': System)
    requires Safe(sys, blocks, all)
    ensures FollowsAsWritten(sys, ops) <==> NeverAstray(sys, ops)
    ensures NoStrayRequest(sys, ops) ==>
      (LeadsAsWritten(sys, ops, sys') <==> Leads(sys, ops, sys') && NeverAstray(sys, ops))
    decreases |ops|
  {
    hide Safe, Apply, ApplyAsWritten, Proper, StaysInBounds, CompletesPair, StrayRequest;
    if ops != [] && Proper(sys, ops[0]) {
      OperationIsSafe(sys, blocks, all, ops[0]);
      OperationMeetsIntentIff(sys, blocks, all, ops[0]);
      WrittenRunsIff(Apply(sys, ops[0]), blocks, all, ops[1..], sys');
    }
  }

  /** With two free top-level blocks side by side, requesting one frame and giving it back was
      meant to restore the state; the code as written does not get through. */
  lemma OneFrameRun()
    ensures var s := {Block(TOP, 2), Block(TOP, 3)};
      var ops := [Request(1), Release(0)];
      && Leads(System(s, [], iset{}), ops, System(s, [], iset{}))
      && forall sys' :: !LeadsAsWritten(System(s, [], iset{}), ops, sys')
  {
    hide Up, Down, FreeAt, Merge, Free, Get, Contains, WellFormed, Coalesced, InMemory;
    var s := {Block(TOP, 2), Block(TOP, 3)};
    var sys := System(s, [], iset{});
    var ops := [Request(1), Release(0)];
    OneFrameOfTwoBlocks(s);
    OneFrameOverruns();
    GetIsExact(s, 4, 1);
    var t := Get(s, 1).1;
    MergeUndoesGetIff(s, t, 4, 32, 1);
    RequestMeetsIntentIff(s, 4, 1);
    var mid := System(t, [Allocation(32, 1)], iset{});
    assert Run(33, 0) == iset{};
    assert Apply(sys, ops[0]) == mid && ApplyAsWritten(sys, ops[0]) == mid;
    assert ops[1..] == [Release(0)] && [Release(0)][1..] == [];
    assert Apply(mid, Release(0)) == sys;
    assert Leads(mid, [Release(0)], sys);
  }

  lemma {:induction false} UpOfZero(l: nat)
    ensures Up(0, l) == 0
  {
    if l > 0 { UpOfZero(l - 1); }
  }
}
