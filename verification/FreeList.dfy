/** The free list of vmm.c: nodes in a fixed pool, linked by index, changed in place. */
module FreeList {
  import opened FreeRanges

  const NULL: int := -1

  /** A Block of vmm.c; start 0 says that the slot is unused, next is a slot or NULL. */
  datatype Node = Node(start: nat, size: nat, next: int)

  /** The i-th slot of a list, NULL past its end. */
  function At(list: seq<nat>, i: nat): int
  {
    if i < |list| then list[i] else NULL
  }

  ghost predicate Distinct(list: seq<nat>)
  {
    forall i, j :: 0 <= i < j < |list| ==> list[i] != list[j]
  }

  /** The slots `list`, in this order, are linked from `head`, each at most once, and they are
      exactly the slots in use. */
  ghost predicate Chain(nodes: seq<Node>, list: seq<nat>, head: int)
  {
    && (forall i :: 0 <= i < |list| ==> list[i] < |nodes|)
    && Distinct(list)
    && head == At(list, 0)
    && (forall i: nat :: i < |list| ==> nodes[list[i]].next == At(list, i + 1))
    && (forall slot: nat :: slot < |nodes| ==> (nodes[slot].start != 0 <==> slot in list))
  }

  ghost function RangeAt(nodes: seq<Node>, slot: nat): Range
    requires slot < |nodes|
  {
    Range(nodes[slot].start, nodes[slot].size)
  }

  /** The ranges of the listed nodes. */
  ghost function RangesOf(nodes: seq<Node>, list: seq<nat>): (rs: seq<Range>)
    requires forall i :: 0 <= i < |list| ==> list[i] < |nodes|
    ensures |rs| == |list| && forall i :: 0 <= i < |rs| ==> rs[i] == RangeAt(nodes, list[i])
  {
    seq(|list|, i requires 0 <= i < |list| => RangeAt(nodes, list[i]))
  }

  // ----- The three changes to a chain -----

  function Resized(nodes: seq<Node>, slot: nat, start: nat, size: nat): seq<Node>
    requires slot < |nodes|
  {
    nodes[slot := Node(start, size, nodes[slot].next)]
  }

  lemma Resize(nodes: seq<Node>, list: seq<nat>, head: int, k: nat, r: Range)
    requires Chain(nodes, list, head) && k < |list| && r.start != 0
    ensures var n := Resized(nodes, list[k], r.start, r.size);
      Chain(n, list, head) && RangesOf(n, list) == RangesOf(nodes, list)[k := r]
  {
    var n := Resized(nodes, list[k], r.start, r.size);
    assert forall i :: 0 <= i < |list| && i != k ==> n[list[i]] == nodes[list[i]];
  }

  function WithoutSlot(list: seq<nat>, k: nat): seq<nat>
    requires k < |list|
  {
    list[..k] + list[k + 1..]
  }

  /** Bypass the k-th node and mark its slot unused. */
  function Unlinked(nodes: seq<Node>, list: seq<nat>, k: nat): seq<Node>
    requires k < |list| && forall i :: 0 <= i < |list| ==> list[i] < |nodes|
  {
    var n := if k == 0 then nodes
             else nodes[list[k - 1] := nodes[list[k - 1]].(next := nodes[list[k]].next)];
    n[list[k] := n[list[k]].(start := 0)]
  }

  lemma WithoutShape(list: seq<nat>, k: nat)
    requires Distinct(list) && k < |list|
    ensures var l := WithoutSlot(list, k);
      && Distinct(l) && |l| == |list| - 1
      && (forall i: nat :: i < k ==> l[i] == list[i])
      && (forall i: nat :: k <= i < |l| ==> l[i] == list[i + 1])
      && forall s: nat :: s in l <==> s in list && s != list[k]
  {
    var l := WithoutSlot(list, k);
    assert list == list[..k] + [list[k]] + list[k + 1..];
  }

  lemma UnlinkedNodes(nodes: seq<Node>, list: seq<nat>, k: nat)
    requires k < |list| && Distinct(list) && forall i :: 0 <= i < |list| ==> list[i] < |nodes|
    ensures var n := Unlinked(nodes, list, k);
      && |n| == |nodes|
      && (forall s: nat :: s < |n| && s != list[k] && !(k > 0 && s == list[k - 1]) ==> n[s] == nodes[s])
      && n[list[k]].start == 0
      && (k > 0 ==> n[list[k - 1]] == nodes[list[k - 1]].(next := nodes[list[k]].next))
  {
  }

  lemma UnlinkNode(nodes: seq<Node>, list: seq<nat>, head: int, k: nat, i: nat)
    requires Chain(nodes, list, head) && k < |list| && i < |list| - 1
    ensures var n, l := Unlinked(nodes, list, k), WithoutSlot(list, k);
      && |l| == |list| - 1 && l[i] < |n| == |nodes|
      && n[l[i]].next == At(l, i + 1) && RangeAt(n, l[i]) == RangeAt(nodes, l[i])
      && l[i] == list[if i < k then i else i + 1]
  {
    hide WithoutSlot, Unlinked, Distinct;
    var j := if i < k then i else i + 1;
    WithoutShape(list, k);
    UnlinkedNodes(nodes, list, k);
    DistinctAt(list, j, k);
    if k > 0 { DistinctAt(list, j, k - 1); }
  }

  lemma Unlink(nodes: seq<Node>, list: seq<nat>, head: int, k: nat)
    requires Chain(nodes, list, head) && k < |list|
    ensures var n, l := Unlinked(nodes, list, k), WithoutSlot(list, k);
      && Chain(n, l, if k == 0 then nodes[list[k]].next else head)
      && RangesOf(n, l) == RemoveAt(RangesOf(nodes, list), k)
  {
    hide WithoutSlot, Unlinked, Distinct, At, RemoveAt;
    var n, l := Unlinked(nodes, list, k), WithoutSlot(list, k);
    var rs := RangesOf(nodes, list);
    UnlinkChain(nodes, list, head, k);
    WithoutShape(list, k);
    RemoveAtShape(rs, k);
    forall i: nat | i < |l| ensures RangesOf(n, l)[i] == RemoveAt(rs, k)[i] {
      UnlinkNode(nodes, list, head, k, i);
    }
  }

  lemma UnlinkChain(nodes: seq<Node>, list: seq<nat>, head: int, k: nat)
    requires Chain(nodes, list, head) && k < |list|
    ensures Chain(Unlinked(nodes, list, k), WithoutSlot(list, k), if k == 0 then nodes[list[k]].next else head)
  {
    hide WithoutSlot, Unlinked, Distinct;
    var n, l := Unlinked(nodes, list, k), WithoutSlot(list, k);
    WithoutShape(list, k);
    UnlinkedNodes(nodes, list, k);
    forall i: nat | i < |l| ensures l[i] < |n| && n[l[i]].next == At(l, i + 1) {
      UnlinkNode(nodes, list, head, k, i);
    }
  }

  lemma DistinctAt(list: seq<nat>, i: nat, j: nat)
    requires Distinct(list) && i < |list| && j < |list|
    ensures list[i] == list[j] <==> i == j
  {
  }

  /** Put an unused slot before the k-th node. */
  function Linked(nodes: seq<Node>, list: seq<nat>, k: nat, slot: nat, r: Range): seq<Node>
    requires k <= |list| && slot < |nodes| && forall i :: 0 <= i < |list| ==> list[i] < |nodes|
  {
    var n := nodes[slot := Node(r.start, r.size, At(list, k))];
    if k == 0 then n else n[list[k - 1] := n[list[k - 1]].(next := slot)]
  }

  function WithSlot(list: seq<nat>, k: nat, slot: nat): seq<nat>
    requires k <= |list|
  {
    list[..k] + [slot] + list[k..]
  }

  lemma WithShape(list: seq<nat>, k: nat, slot: nat)
    requires Distinct(list) && k <= |list| && slot !in list
    ensures var l := WithSlot(list, k, slot);
      && Distinct(l) && |l| == |list| + 1 && l[k] == slot
      && (forall i: nat :: i < k ==> l[i] == list[i])
      && (forall i: nat :: k < i < |l| ==> l[i] == list[i - 1])
      && forall s: nat :: s in l <==> s in list || s == slot
  {
    assert list == list[..k] + list[k..];
  }

  lemma LinkedNodes(nodes: seq<Node>, list: seq<nat>, k: nat, slot: nat, r: Range)
    requires k <= |list| && slot < |nodes| && slot !in list && forall i :: 0 <= i < |list| ==> list[i] < |nodes|
    ensures var n := Linked(nodes, list, k, slot, r);
      && |n| == |nodes|
      && (forall s: nat :: s < |n| && s != slot && !(k > 0 && s == list[k - 1]) ==> n[s] == nodes[s])
      && n[slot] == Node(r.start, r.size, At(list, k))
      && (k > 0 ==> n[list[k - 1]] == nodes[list[k - 1]].(next := slot))
  {
  }

  lemma LinkNode(nodes: seq<Node>, list: seq<nat>, head: int, k: nat, slot: nat, r: Range, i: nat)
    requires Chain(nodes, list, head) && k <= |list| && i <= |list|
    requires slot < |nodes| && nodes[slot].start == 0
    ensures var n, l := Linked(nodes, list, k, slot, r), WithSlot(list, k, slot);
      && |l| == |list| + 1 && l[i] < |n| == |nodes|
      && n[l[i]].next == At(l, i + 1)
      && RangeAt(n, l[i]) == if i == k then r else RangeAt(nodes, list[if i < k then i else i - 1])
  {
    hide WithSlot, Linked, Distinct;
    WithShape(list, k, slot);
    LinkedNodes(nodes, list, k, slot, r);
    var l := WithSlot(list, k, slot);
    if i < k {
      assert l[i] == list[i] && list[i] in list;
      DistinctAt(list, i, k - 1);
    } else if i > k {
      assert l[i] == list[i - 1] && list[i - 1] in list;
      if k > 0 { DistinctAt(list, i - 1, k - 1); }
    }
  }

  lemma LinkChain(nodes: seq<Node>, list: seq<nat>, head: int, k: nat, slot: nat, r: Range)
    requires Chain(nodes, list, head) && k <= |list| && r.start != 0
    requires slot < |nodes| && nodes[slot].start == 0
    ensures Chain(Linked(nodes, list, k, slot, r), WithSlot(list, k, slot), if k == 0 then slot else head)
  {
    hide WithSlot, Linked, Distinct;
    var n, l := Linked(nodes, list, k, slot, r), WithSlot(list, k, slot);
    WithShape(list, k, slot);
    forall i: nat | i < |l| ensures l[i] < |n| && n[l[i]].next == At(l, i + 1) {
      LinkNode(nodes, list, head, k, slot, r, i);
    }
    LinkUse(nodes, list, head, k, slot, r);
  }

  lemma LinkUse(nodes: seq<Node>, list: seq<nat>, head: int, k: nat, slot: nat, r: Range)
    requires Chain(nodes, list, head) && k <= |list| && r.start != 0
    requires slot < |nodes| && nodes[slot].start == 0
    ensures var n, l := Linked(nodes, list, k, slot, r), WithSlot(list, k, slot);
      |n| == |nodes| && forall s: nat :: s < |n| ==> (n[s].start != 0 <==> s in l)
  {
    hide WithSlot, Linked, Distinct, At;
    WithShape(list, k, slot);
    LinkedNodes(nodes, list, k, slot, r);
  }

  lemma Link(nodes: seq<Node>, list: seq<nat>, head: int, k: nat, slot: nat, r: Range)
    requires Chain(nodes, list, head) && k <= |list| && r.start != 0
    requires slot < |nodes| && nodes[slot].start == 0
    ensures var n, l := Linked(nodes, list, k, slot, r), WithSlot(list, k, slot);
      && Chain(n, l, if k == 0 then slot else head)
      && RangesOf(n, l) == RangesOf(nodes, list)[..k] + [r] + RangesOf(nodes, list)[k..]
  {
    hide WithSlot, Linked, Distinct, At;
    var n, l := Linked(nodes, list, k, slot, r), WithSlot(list, k, slot);
    LinkChain(nodes, list, head, k, slot, r);
    var rs := RangesOf(nodes, list);
    LinkNode(nodes, list, head, k, slot, r, 0);
    forall i: nat | i < |rs| + 1 ensures RangesOf(n, l)[i] == (rs[..k] + [r] + rs[k..])[i] {
      LinkNode(nodes, list, head, k, slot, r, i);
    }
  }

  /** If every slot below n is listed, the list has at least n entries. */
  lemma {:induction false} AllListed(list: seq<nat>, n: nat)
    requires forall slot: nat :: slot < n ==> slot in list
    ensures n <= |list|
    decreases n
  {
    if n > 0 {
      assert n - 1 in list;
      var i: nat :| i < |list| && list[i] == n - 1;
      var rest := WithoutSlot(list, i);
      assert list == list[..i] + [list[i]] + list[i + 1..];
      forall slot: nat | slot < n - 1 ensures slot in rest {
        assert slot in list[..i] + [list[i]] + list[i + 1..];
      }
      AllListed(rest, n - 1);
    }
  }
}
