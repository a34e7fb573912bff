/** Tablets, the routing table they form, and how a split or a change of owner alters routing. */
module Tablets {
  import opened ByteStrings

  /** A half-open key range with the node that owns it and its last recorded number of keys. */
  datatype Tablet = Tablet(id: nat, start: Bytes, end: Bytes, node: nat, count: nat)

  /** What the master keeps in memory and writes to the table file. */
  datatype Table = Table(tablets: seq<Tablet>, nextId: nat, epoch: nat)

  const SPLIT_THRESHOLD := 6
  const BALANCE_DIFF_THRESHOLD := 7

  predicate Holds(t: Tablet, k: Bytes) {
    InRange(k, t.start, t.end)
  }

  /** Sorted by start, and no range reaches into the next one. */
  ghost predicate Ordered(ts: seq<Tablet>) {
    forall i, j :: 0 <= i < j < |ts| ==>
      Less(ts[i].start, ts[j].start) && ts[i].end != [] && AtMost(ts[i].end, ts[j].start)
  }

  /** Adjacent ranges meet and together cover every key. */
  ghost predicate Partition(ts: seq<Tablet>) {
    && ts != [] && ts[0].start == [] && ts[|ts| - 1].end == []
    && forall i :: 0 <= i < |ts| - 1 ==> ts[i].end == ts[i + 1].start && Less(ts[i].start, ts[i].end)
  }

  ghost predicate DistinctIds(ts: seq<Tablet>, nextId: nat) {
    && (forall i :: 0 <= i < |ts| ==> ts[i].id < nextId)
    && (forall i, j :: 0 <= i < j < |ts| ==> ts[i].id != ts[j].id)
  }

  ghost predicate OwnersAmong(ts: seq<Tablet>, nodes: set<nat>) {
    forall i :: 0 <= i < |ts| ==> ts[i].node in nodes
  }

  /** The invariant of every table the master ever routes by. */
  ghost predicate TableOk(tb: Table, nodes: set<nat>) {
    Partition(tb.tablets) && DistinctIds(tb.tablets, tb.nextId) && OwnersAmong(tb.tablets, nodes)
  }

  lemma {:induction false} StartsSorted(ts: seq<Tablet>, i: nat, j: nat)
    requires Partition(ts) && i < j < |ts|
    ensures Less(ts[i].start, ts[j].start)
    decreases j
  {
    if i < j - 1 {
      StartsSorted(ts, i, j - 1);
      LessTransitive(ts[i].start, ts[j - 1].start, ts[j].start);
    }
  }

  /** A partition is in particular ordered. */
  lemma PartitionOrdered(ts: seq<Tablet>)
    requires Partition(ts)
    ensures Ordered(ts)
  {
    hide Less;
    forall i, j | 0 <= i < j < |ts|
      ensures Less(ts[i].start, ts[j].start) && ts[i].end != [] && AtMost(ts[i].end, ts[j].start)
    {
      StartsSorted(ts, i, j);
      assert ts[i].end == ts[i + 1].start && Less(ts[i].start, ts[i].end);
      assert ts[i].end != [] by { BelowIsNonEmpty(ts[i].start, ts[i].end); }
      if i + 1 < j { StartsSorted(ts, i + 1, j); }
    }
  }

  lemma BelowIsNonEmpty(a: Bytes, b: Bytes)
    requires Less(a, b)
    ensures b != []
  {}

  /** Ranges of an ordered table are disjoint. */
  lemma HolderUnique(ts: seq<Tablet>, i: nat, j: nat, k: Bytes)
    requires Ordered(ts) && i < |ts| && j < |ts| && Holds(ts[i], k) && Holds(ts[j], k)
    ensures i == j
  {
    hide Less;
    LessIsStrictTotal();
    LessAsymmetric();
  }

  lemma {:induction false} HolderExistsUpTo(ts: seq<Tablet>, k: Bytes, n: nat)
    requires Partition(ts) && n < |ts| && Before(k, ts[n].end)
    ensures exists i :: 0 <= i <= n && Holds(ts[i], k)
  {
    if AtMost(ts[n].start, k) {
      assert Holds(ts[n], k);
    } else {
      AtMostIsNotLess(ts[n].start, k);
      assert n > 0 by { LessTotal(ts[n].start, k); }
      assert ts[n - 1].end == ts[n].start;
      HolderExistsUpTo(ts, k, n - 1);
    }
  }

  /** The position of the one tablet that holds k. */
  ghost function OwnerIndex(ts: seq<Tablet>, k: Bytes): (i: nat)
    requires Partition(ts)
    ensures i < |ts| && Holds(ts[i], k)
  {
    HolderExistsUpTo(ts, k, |ts| - 1);
    var i :| 0 <= i < |ts| && Holds(ts[i], k);
    i
  }

  /** The node that requests for k are routed to. */
  ghost function NodeOf(ts: seq<Tablet>, k: Bytes): nat
    requires Partition(ts)
  {
    ts[OwnerIndex(ts, k)].node
  }

  lemma OwnerIs(ts: seq<Tablet>, k: Bytes, i: nat)
    requires Partition(ts) && i < |ts| && Holds(ts[i], k)
    ensures OwnerIndex(ts, k) == i && NodeOf(ts, k) == ts[i].node
  {
    PartitionOrdered(ts);
    HolderUnique(ts, OwnerIndex(ts, k), i, k);
  }

  ghost predicate SameOwners(a: seq<Tablet>, b: seq<Tablet>)
    requires Partition(a) && Partition(b)
  {
    forall k :: NodeOf(a, k) == NodeOf(b, k)
  }

  // ---- the three changes the balancer makes to a table ----

  function WithCount(ts: seq<Tablet>, idx: nat, n: nat): seq<Tablet>
    requires idx < |ts|
  {
    ts[idx := ts[idx].(count := n)]
  }

  function WithNode(ts: seq<Tablet>, idx: nat, node: nat): seq<Tablet>
    requires idx < |ts|
  {
    ts[idx := ts[idx].(node := node)]
  }

  /** The tablet at idx, holding n keys, cut at mid into two with fresh identifiers. */
  function SplitAt(tb: Table, idx: nat, mid: Bytes, n: nat): Table
    requires idx < |tb.tablets|
  {
    var t := tb.tablets[idx];
    var left := Tablet(tb.nextId, t.start, mid, t.node, n / 2);
    var right := Tablet(tb.nextId + 1, mid, t.end, t.node, n - n / 2);
    Table(tb.tablets[..idx] + [left, right] + tb.tablets[idx + 1..], tb.nextId + 2, tb.epoch + 1)
  }

  /** The guard under which the master splits. */
  predicate SplitGuard(t: Tablet, mid: Bytes) {
    mid != [] && Less(t.start, mid) && Before(mid, t.end)
  }

  lemma SplitEntries(tb: Table, idx: nat, mid: Bytes, n: nat)
    requires idx < |tb.tablets|
    ensures var ts, us := tb.tablets, SplitAt(tb, idx, mid, n).tablets;
            |us| == |ts| + 1 && (forall i :: 0 <= i < idx ==> us[i] == ts[i])
            && us[idx] == ts[idx].(id := tb.nextId, end := mid, count := n / 2)
            && us[idx + 1] == ts[idx].(id := tb.nextId + 1, start := mid, count := n - n / 2)
            && (forall i :: idx + 2 <= i < |us| ==> us[i] == ts[i - 1])
    ensures SplitAt(tb, idx, mid, n).nextId == tb.nextId + 2
  {}

  lemma SplitPartition(tb: Table, idx: nat, mid: Bytes, n: nat)
    requires Partition(tb.tablets) && idx < |tb.tablets| && SplitGuard(tb.tablets[idx], mid)
    ensures Partition(SplitAt(tb, idx, mid, n).tablets)
  {
    hide Less, SplitAt;
    SplitEntries(tb, idx, mid, n);
    var ts, us := tb.tablets, SplitAt(tb, idx, mid, n).tablets;
    forall i | 0 <= i < |us| - 1 ensures us[i].end == us[i + 1].start && Less(us[i].start, us[i].end) {
      if i < idx { assert ts[i].end == ts[i + 1].start; }
      else if idx + 1 <= i {
        assert ts[i - 1].end == ts[i].start && Less(ts[i - 1].start, ts[i - 1].end);
        BelowIsNonEmpty(ts[i - 1].start, ts[i - 1].end);
      }
    }
  }

  lemma SplitTableOk(tb: Table, idx: nat, mid: Bytes, n: nat, nodes: set<nat>)
    requires TableOk(tb, nodes) && idx < |tb.tablets| && SplitGuard(tb.tablets[idx], mid)
    ensures TableOk(SplitAt(tb, idx, mid, n), nodes)
  {
    SplitPartition(tb, idx, mid, n);
    hide Less, Partition, SplitAt;
    SplitEntries(tb, idx, mid, n);
    var us := SplitAt(tb, idx, mid, n);
    assert forall i :: 0 <= i < |us.tablets| ==>
      us.tablets[i].node in nodes && us.tablets[i].id < us.nextId;
  }

  /** A split moves no key: every key keeps its owner. */
  lemma SplitKeepsOwners(tb: Table, idx: nat, mid: Bytes, n: nat)
    requires Partition(tb.tablets) && idx < |tb.tablets| && SplitGuard(tb.tablets[idx], mid)
    requires Partition(SplitAt(tb, idx, mid, n).tablets)
    ensures SameOwners(tb.tablets, SplitAt(tb, idx, mid, n).tablets)
  {
    hide Less, Partition, NodeOf, SplitAt;
    SplitEntries(tb, idx, mid, n);
    var ts, us := tb.tablets, SplitAt(tb, idx, mid, n).tablets;
    forall k ensures NodeOf(ts, k) == NodeOf(us, k) {
      var i := OwnerIndex(ts, k);
      OwnerIs(ts, k, i);
      if i == idx {
        AtMostIsNotLess(mid, k);
        LessIsStrictTotal();
        OwnerIs(us, k, if Less(k, mid) then idx else idx + 1);
      } else {
        var j := if i < idx then i else i + 1;
        assert us[j] == ts[i];
        OwnerIs(us, k, j);
      }
    }
  }

  /** Recording a count changes neither the ranges nor the owners. */
  lemma WithCountKeepsOwners(tb: Table, idx: nat, n: nat, nodes: set<nat>)
    requires TableOk(tb, nodes) && idx < |tb.tablets|
    ensures TableOk(tb.(tablets := WithCount(tb.tablets, idx, n)), nodes)
    ensures SameOwners(tb.tablets, WithCount(tb.tablets, idx, n))
  {
    hide Less;
    var ts, us := tb.tablets, WithCount(tb.tablets, idx, n);
    assert Partition(us);
    forall k ensures NodeOf(ts, k) == NodeOf(us, k) {
      hide Partition;
      var i := OwnerIndex(ts, k);
      OwnerIs(us, k, i);
    }
  }

  /** Changing the owner at idx re-routes exactly the keys of that range. */
  lemma WithNodeMovesRange(tb: Table, idx: nat, dst: nat, nodes: set<nat>)
    requires TableOk(tb, nodes) && idx < |tb.tablets| && dst in nodes
    ensures TableOk(tb.(tablets := WithNode(tb.tablets, idx, dst)), nodes)
    ensures forall k :: NodeOf(WithNode(tb.tablets, idx, dst), k)
                     == if Holds(tb.tablets[idx], k) then dst else NodeOf(tb.tablets, k)
    ensures forall k :: Holds(tb.tablets[idx], k) ==> NodeOf(tb.tablets, k) == tb.tablets[idx].node
  {
    hide Less;
    var ts, us := tb.tablets, WithNode(tb.tablets, idx, dst);
    assert Partition(us);
    forall k
      ensures NodeOf(us, k) == if Holds(ts[idx], k) then dst else NodeOf(ts, k)
      ensures Holds(ts[idx], k) ==> NodeOf(ts, k) == ts[idx].node
    {
      hide Partition;
      var i := OwnerIndex(ts, k);
      OwnerIs(us, k, i);
      if Holds(ts[idx], k) { OwnerIs(ts, k, idx); }
    }
  }

  const LETTER_M: Bytes := [109]

  /** The table a first start creates: everything below "m" on one node, the rest on another. */
  function InitialTable(first: nat, second: nat): Table {
    Table([Tablet(1, [], LETTER_M, first, 0), Tablet(2, LETTER_M, [], second, 0)], 3, 1)
  }

  lemma InitialTableOk(first: nat, second: nat, nodes: set<nat>)
    requires first in nodes && second in nodes
    ensures TableOk(InitialTable(first, second), nodes)
  {
    assert Less([], LETTER_M);
  }

  /** A tablet holds the keys from its start on and before its end, an empty end being plus infinity. */
  lemma HoldsMeans(t: Tablet, k: Bytes)
    ensures Holds(t, k) <==> !Less(k, t.start) && (t.end == [] || Less(k, t.end))
  {
    AtMostIsNotLess(t.start, k);
  }

  /** By numbers: keys that are empty or start below the letter m, which is 109, go to the first node. */
  lemma InitialRoutes(first: nat, second: nat, k: Bytes)
    ensures Partition(InitialTable(first, second).tablets)
    ensures NodeOf(InitialTable(first, second).tablets, k) == if k == [] || k[0] < 109 then first else second
  {
    var ts := InitialTable(first, second).tablets;
    assert Less([], LETTER_M);
    AtMostIsNotLess(LETTER_M, k);
    AtMostIsNotLess([], k);
    if k != [] && k[0] == 109 { assert !Less(k[1..], []); }
    OwnerIs(ts, k, if k == [] || k[0] < 109 then 0 else 1);
  }

  /** No tablet of a partition is empty. */
  lemma HoldsStart(ts: seq<Tablet>, i: nat)
    requires Partition(ts) && i < |ts|
    ensures Holds(ts[i], ts[i].start)
  {
    LessIrreflexive(ts[i].start);
    AtMostIsNotLess(ts[i].start, ts[i].start);
  }
}
