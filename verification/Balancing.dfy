/** The balancer as an algorithm on a store nobody writes: one pass syncs the counts, splits in a
    loop over a list that grows under it, then makes one greedy move. Passes converge, and a bound
    on their number depends on the size of the store alone. */
module Balancing {
  import opened BitMath
  import opened ByteStrings
  import opened Storage
  import opened Tablets
  import opened Counting

  // ---- the three stages of a pass ----

  function Sync(ts: seq<Tablet>, keys: seq<Bytes>): (us: seq<Tablet>)
    ensures |us| == |ts|
    ensures forall i :: 0 <= i < |ts| ==> us[i] == ts[i].(count := Count(keys, ts[i]))
  {
    seq(|ts|, i requires 0 <= i < |ts| => ts[i].(count := Count(keys, ts[i])))
  }

  ghost predicate Good(tb: Table, keys: seq<Bytes>, nodes: set<nat>) {
    TableOk(tb, nodes) && StrictlySorted(keys)
  }

  lemma SyncGood(tb: Table, keys: seq<Bytes>, nodes: set<nat>)
    requires Good(tb, keys, nodes)
    ensures Good(tb.(tablets := Sync(tb.tablets, keys)), keys, nodes)
    ensures Synced(Sync(tb.tablets, keys), keys)
  {
    hide Less, Rank;
    var ts, us := tb.tablets, Sync(tb.tablets, keys);
    assert Partition(us);
    forall i | 0 <= i < |us| ensures us[i].count == Count(keys, us[i]) {
      assert us[i] == ts[i].(count := Count(keys, ts[i]));
    }
  }

  /** The split of the tablet at idx at its median. */
  function SplitStep(tb: Table, idx: nat, keys: seq<Bytes>): Table
    requires idx < |tb.tablets| && Count(keys, tb.tablets[idx]) > 0
  {
    var t := tb.tablets[idx];
    SplitAt(tb, idx, Median(keys, t), Count(keys, t))
  }

  /** A split at the median keeps every invariant, true counts included. */
  lemma SplitStepGood(tb: Table, idx: nat, keys: seq<Bytes>, nodes: set<nat>)
    requires Good(tb, keys, nodes) && Synced(tb.tablets, keys)
    requires idx < |tb.tablets| && tb.tablets[idx].count >= 2
    ensures var r := SplitStep(tb, idx, keys);
            Good(r, keys, nodes) && Synced(r.tablets, keys) && |r.tablets| == |tb.tablets| + 1
            && r.tablets[idx + 1].count < tb.tablets[idx].count
  {
    hide Partition, Rank, SplitAt, DistinctIds, Less, NodeOf;
    var ts, t := tb.tablets, tb.tablets[idx];
    var mid, n := Median(keys, t), Count(keys, t);
    MedianSplitsExactly(keys, t);
    SplitTableOk(tb, idx, mid, n, nodes);
    SplitEntries(tb, idx, mid, n);
    var us := SplitAt(tb, idx, mid, n).tablets;
    forall i | 0 <= i < |us| ensures us[i].count == Count(keys, us[i]) {
      assert i < idx ==> us[i] == ts[i];
      assert idx + 2 <= i ==> us[i] == ts[i - 1];
    }
  }

  /** The split loop from position idx on: it terminates because a split leaves fewer keys at the
      next position than it found at this one, and no more tablets to visit. */
  ghost function SplitFrom(tb: Table, idx: nat, keys: seq<Bytes>, nodes: set<nat>): (r: Table)
    requires Good(tb, keys, nodes) && Synced(tb.tablets, keys)
    ensures Good(r, keys, nodes) && Synced(r.tablets, keys)
    decreases |tb.tablets| - idx, if idx < |tb.tablets| then tb.tablets[idx].count else 0
  {
    if idx >= |tb.tablets| then tb
    else if tb.tablets[idx].count < SPLIT_THRESHOLD then SplitFrom(tb, idx + 1, keys, nodes)
    else
      SplitStepGood(tb, idx, keys, nodes);
      SplitFrom(SplitStep(tb, idx, keys), idx + 1, keys, nodes)
  }

  /** The loop re-routes no key, shifts no load, and leaves what it has passed alone. */
  lemma {:induction false} SplitFromKeeps(tb: Table, idx: nat, keys: seq<Bytes>, nodes: set<nat>, n: nat, k: Bytes)
    requires Good(tb, keys, nodes) && Synced(tb.tablets, keys) && idx <= |tb.tablets|
    ensures var r := SplitFrom(tb, idx, keys, nodes);
            && NodeOf(r.tablets, k) == NodeOf(tb.tablets, k) && Load(r.tablets, n) == Load(tb.tablets, n)
            && |tb.tablets| <= |r.tablets| && r.tablets[..idx] == tb.tablets[..idx]
    decreases |tb.tablets| - idx, if idx < |tb.tablets| then tb.tablets[idx].count else 0
  {
    hide Partition, DistinctIds, Rank, Median, Count, SplitAt, Load, NodeOf;
    var ts := tb.tablets;
    if idx >= |ts| {
    } else if ts[idx].count < SPLIT_THRESHOLD {
      SplitFromKeeps(tb, idx + 1, keys, nodes, n, k);
      var r := SplitFrom(tb, idx + 1, keys, nodes);
      assert r.tablets[..idx] == r.tablets[..idx + 1][..idx];
    } else {
      SplitStepGood(tb, idx, keys, nodes);
      var mid := Median(keys, ts[idx]);
      MedianSplitsExactly(keys, ts[idx]);
      SplitEntries(tb, idx, mid, ts[idx].count);
      SplitKeepsOwners(tb, idx, mid, ts[idx].count);
      SplitKeepsLoad(tb, idx, mid, ts[idx].count, n);
      var next := SplitStep(tb, idx, keys);
      SplitFromKeeps(next, idx + 1, keys, nodes, n, k);
      var r := SplitFrom(next, idx + 1, keys, nodes);
      assert r.tablets[..idx] == r.tablets[..idx + 1][..idx] == next.tablets[..idx] == ts[..idx];
    }
  }

  function Max(a: nat, b: nat): nat {
    if a < b then b else a
  }

  /** One split pass halves: tablets of at most b keys become tablets of at most max(5, b/2). */
  lemma {:induction false} SplitHalves(tb: Table, idx: nat, keys: seq<Bytes>, nodes: set<nat>, b: nat)
    requires Good(tb, keys, nodes) && Synced(tb.tablets, keys) && idx <= |tb.tablets|
    requires CountsAtMost(tb.tablets, b)
    requires forall i :: 0 <= i < idx ==> tb.tablets[i].count <= Max(5, b / 2)
    ensures CountsAtMost(SplitFrom(tb, idx, keys, nodes).tablets, Max(5, b / 2))
    decreases |tb.tablets| - idx, if idx < |tb.tablets| then tb.tablets[idx].count else 0
  {
    hide TableOk, Rank, Median, Count, SplitAt;
    if idx >= |tb.tablets| {
    } else if tb.tablets[idx].count < SPLIT_THRESHOLD {
      SplitHalves(tb, idx + 1, keys, nodes, b);
    } else {
      SplitStepGood(tb, idx, keys, nodes);
      SplitEntries(tb, idx, Median(keys, tb.tablets[idx]), Count(keys, tb.tablets[idx]));
      var ts, r := tb.tablets, SplitStep(tb, idx, keys);
      forall i | 0 <= i < |r.tablets|
        ensures r.tablets[i].count <= b
        ensures i < idx + 1 ==> r.tablets[i].count <= Max(5, b / 2)
      {
        assert i < idx ==> r.tablets[i] == ts[i];
        assert idx + 2 <= i ==> r.tablets[i] == ts[i - 1];
      }
      SplitHalves(r, idx + 1, keys, nodes, b);
    }
  }

  /** The loop never goes back to a left half, so a tablet of twelve keys or more leaves one of at
      least six behind. */
  lemma {:induction false} BigTabletLeavesBigHalf(tb: Table, idx: nat, keys: seq<Bytes>, nodes: set<nat>, j: nat)
    requires Good(tb, keys, nodes) && Synced(tb.tablets, keys) && idx <= j < |tb.tablets|
    requires tb.tablets[j].count >= 2 * SPLIT_THRESHOLD
    ensures exists i :: 0 <= i < |SplitFrom(tb, idx, keys, nodes).tablets|
                        && SplitFrom(tb, idx, keys, nodes).tablets[i].count >= SPLIT_THRESHOLD
    decreases |tb.tablets| - idx, if idx < |tb.tablets| then tb.tablets[idx].count else 0
  {
    hide TableOk, Rank, Median, Count, SplitAt;
    if tb.tablets[idx].count < SPLIT_THRESHOLD {
      BigTabletLeavesBigHalf(tb, idx + 1, keys, nodes, j);
      assert SplitFrom(tb, idx, keys, nodes) == SplitFrom(tb, idx + 1, keys, nodes);
    } else {
      SplitStepGood(tb, idx, keys, nodes);
      SplitEntries(tb, idx, Median(keys, tb.tablets[idx]), Count(keys, tb.tablets[idx]));
      var r := SplitStep(tb, idx, keys);
      if j == idx {
        SplitFromKeeps(r, idx + 1, keys, nodes, 0, []);
        var last := SplitFrom(r, idx + 1, keys, nodes);
        assert last.tablets[idx] == last.tablets[..idx + 1][idx] == r.tablets[..idx + 1][idx];
      } else {
        assert r.tablets[j + 1] == tb.tablets[j];
        BigTabletLeavesBigHalf(r, idx + 1, keys, nodes, j + 1);
      }
      assert SplitFrom(tb, idx, keys, nodes) == SplitFrom(r, idx + 1, keys, nodes);
    }
  }

  /** One pass of the split loop brings every tablet below the threshold if and only if none held
      twice the threshold before. */
  lemma OnePassSplitsAllIff(tb: Table, keys: seq<Bytes>, nodes: set<nat>)
    requires Good(tb, keys, nodes) && Synced(tb.tablets, keys)
    ensures CountsAtMost(SplitFrom(tb, 0, keys, nodes).tablets, SPLIT_THRESHOLD - 1)
       <==> CountsAtMost(tb.tablets, 2 * SPLIT_THRESHOLD - 1)
  {
    hide TableOk, Rank, Count, SplitFrom;
    if CountsAtMost(tb.tablets, 2 * SPLIT_THRESHOLD - 1) {
      SplitHalves(tb, 0, keys, nodes, 2 * SPLIT_THRESHOLD - 1);
    } else {
      var j :| 0 <= j < |tb.tablets| && tb.tablets[j].count > 2 * SPLIT_THRESHOLD - 1;
      BigTabletLeavesBigHalf(tb, 0, keys, nodes, j);
    }
  }

  lemma {:induction false} NothingToSplit(tb: Table, idx: nat, keys: seq<Bytes>, nodes: set<nat>)
    requires Good(tb, keys, nodes) && Synced(tb.tablets, keys) && CountsAtMost(tb.tablets, SPLIT_THRESHOLD - 1)
    ensures SplitFrom(tb, idx, keys, nodes) == tb
    decreases |tb.tablets| - idx
  {
    if idx < |tb.tablets| { NothingToSplit(tb, idx + 1, keys, nodes); }
  }

  // ---- the greedy move ----

  function Owners(ts: seq<Tablet>): set<nat> {
    set i | 0 <= i < |ts| :: ts[i].node
  }

  /** Node a comes before n by greater load, ties going to the smaller id. */
  predicate Above(ts: seq<Tablet>, a: nat, n: nat) {
    Load(ts, n) < Load(ts, a) || (Load(ts, n) == Load(ts, a) && a <= n)
  }

  /** Node b comes before n by smaller load, ties going to the smaller id. */
  predicate Below(ts: seq<Tablet>, b: nat, n: nat) {
    Load(ts, b) < Load(ts, n) || (Load(ts, n) == Load(ts, b) && b <= n)
  }

  predicate IsSourceAmong(ts: seq<Tablet>, s: set<nat>, a: nat) {
    a in s && forall n | n in s :: Above(ts, a, n)
  }

  predicate IsTargetAmong(ts: seq<Tablet>, s: set<nat>, b: nat) {
    b in s && forall n | n in s :: Below(ts, b, n)
  }

  /** The first node, in order of node id, with the greatest load. */
  predicate IsSource(ts: seq<Tablet>, a: nat) {
    IsSourceAmong(ts, Owners(ts), a)
  }

  /** The first node, in order of node id, with the least load. */
  predicate IsTarget(ts: seq<Tablet>, b: nat) {
    IsTargetAmong(ts, Owners(ts), b)
  }

  /** Among the first k tablets, i is the first on node a with the greatest count, and not empty. */
  predicate IsLargestBelow(ts: seq<Tablet>, a: nat, k: nat, i: nat)
    requires k <= |ts|
  {
    && i < k && ts[i].node == a && ts[i].count > 0
    && forall j | 0 <= j < k && ts[j].node == a :: ts[j].count <= ts[i].count && (j < i ==> ts[j].count < ts[i].count)
  }

  predicate IsLargestOn(ts: seq<Tablet>, a: nat, i: nat) {
    IsLargestBelow(ts, a, |ts|, i)
  }

  /** The move DoLoadBalance makes: tablet i to node b. */
  ghost predicate Chosen(ts: seq<Tablet>, i: nat, b: nat) {
    && i < |ts| && IsSource(ts, ts[i].node) && IsTarget(ts, b)
    && Load(ts, ts[i].node) >= Load(ts, b) + BALANCE_DIFF_THRESHOLD
    && IsLargestOn(ts, ts[i].node, i)
  }

  /** The move without the predicates it is composed of: from the owner with the greatest load to the one
      with the least, the smaller node id winning ties; the tablet is the source's first one with the
      greatest count, and not empty; the gap is 7 or more. */
  lemma ChosenMeans(ts: seq<Tablet>, i: nat, b: nat)
    ensures Chosen(ts, i, b) <==>
              && i < |ts| && b in Owners(ts) && ts[i].count > 0
              && var a := ts[i].node;
                 && (forall n :: n in Owners(ts) ==>
                       Load(ts, n) < Load(ts, a) || (Load(ts, n) == Load(ts, a) && a <= n))
                 && (forall n :: n in Owners(ts) ==>
                       Load(ts, b) < Load(ts, n) || (Load(ts, n) == Load(ts, b) && b <= n))
                 && (forall j :: 0 <= j < |ts| && ts[j].node == a ==>
                       ts[j].count <= ts[i].count && (j < i ==> ts[j].count < ts[i].count))
                 && Load(ts, a) >= Load(ts, b) + 7
    ensures forall n :: n in Owners(ts) <==> exists j :: 0 <= j < |ts| && ts[j].node == n
  {
    hide Load;
    if i < |ts| { assert ts[i].node in Owners(ts); }
  }

  /** The loads of any two nodes that own tablets differ by less than the threshold. */
  ghost predicate Settled(ts: seq<Tablet>) {
    forall a, b :: a in Owners(ts) && b in Owners(ts) ==> Load(ts, a) < Load(ts, b) + BALANCE_DIFF_THRESHOLD
  }

  lemma {:induction false} ExtremesExist(ts: seq<Tablet>, s: set<nat>)
    requires s != {}
    ensures exists a :: IsSourceAmong(ts, s, a)
    ensures exists b :: IsTargetAmong(ts, s, b)
    decreases |s|
  {
    hide Load;
    var x :| x in s;
    var rest := s - {x};
    assert s == rest + {x};
    if rest != {} {
      ExtremesExist(ts, rest);
      var a :| IsSourceAmong(ts, rest, a);
      var b :| IsTargetAmong(ts, rest, b);
      assert IsSourceAmong(ts, s, if Above(ts, x, a) then x else a);
      assert IsTargetAmong(ts, s, if Below(ts, x, b) then x else b);
    } else {
      assert IsSourceAmong(ts, s, x) && IsTargetAmong(ts, s, x);
    }
  }

  /** What the scan for the largest tablet of a node has found after k tablets. */
  lemma {:induction false} LargestExists(ts: seq<Tablet>, a: nat, k: nat)
    requires k <= |ts|
    ensures (exists i: nat :: IsLargestBelow(ts, a, k, i))
            || forall j :: 0 <= j < k && ts[j].node == a ==> ts[j].count == 0
  {
    if k > 0 {
      LargestExists(ts, a, k - 1);
      var p := k - 1;
      if exists i: nat :: IsLargestBelow(ts, a, p, i) {
        var i: nat :| IsLargestBelow(ts, a, p, i);
        assert IsLargestBelow(ts, a, k, if ts[k - 1].node == a && ts[k - 1].count > ts[i].count then k - 1 else i);
      } else if ts[k - 1].node == a && ts[k - 1].count > 0 {
        assert IsLargestBelow(ts, a, k, k - 1);
      }
    }
  }

  /** The rules leave no choice of move. */
  lemma MoveUnique(ts: seq<Tablet>, i: nat, b: nat, i': nat, b': nat)
    requires Chosen(ts, i, b) && Chosen(ts, i', b')
    ensures i == i' && b == b'
  {
    hide Load, Owners;
    var a, a' := ts[i].node, ts[i'].node;
    assert Above(ts, a, a') && Above(ts, a', a) && Below(ts, b, b') && Below(ts, b', b);
  }

  /** DoLoadBalance finds a move exactly when the loads are not settled. */
  lemma MoveExistsIffUnsettled(ts: seq<Tablet>)
    requires ts != []
    ensures (exists i, b :: Chosen(ts, i, b)) <==> !Settled(ts)
  {
    hide Load;
    if !Settled(ts) {
      assert ts[0].node in Owners(ts);
      ExtremesExist(ts, Owners(ts));
      var a :| IsSourceAmong(ts, Owners(ts), a);
      var b :| IsTargetAmong(ts, Owners(ts), b);
      var x, y :| x in Owners(ts) && y in Owners(ts) && Load(ts, x) >= Load(ts, y) + BALANCE_DIFF_THRESHOLD;
      assert Above(ts, a, x) && Below(ts, b, y);
      assert Load(ts, a) >= Load(ts, b) + BALANCE_DIFF_THRESHOLD;
      LargestExists(ts, a, |ts|);
      if forall j :: 0 <= j < |ts| && ts[j].node == a ==> ts[j].count == 0 { LoadZero(ts, a); }
      var i: nat :| IsLargestBelow(ts, a, |ts|, i);
      assert Chosen(ts, i, b);
    }
  }

  /** The sum of the squared loads of the nodes below bound. */
  function Potential(ts: seq<Tablet>, bound: nat): nat {
    if bound == 0 then 0 else Potential(ts, bound - 1) + Load(ts, bound - 1) * Load(ts, bound - 1)
  }

  function LoadSum(ts: seq<Tablet>, bound: nat): nat {
    if bound == 0 then 0 else LoadSum(ts, bound - 1) + Load(ts, bound - 1)
  }

  lemma {:induction false} PotentialAtMostSquare(ts: seq<Tablet>, bound: nat)
    ensures Potential(ts, bound) <= LoadSum(ts, bound) * LoadSum(ts, bound)
  {
    if bound > 0 {
      PotentialAtMostSquare(ts, bound - 1);
      SquareOfSum(LoadSum(ts, bound - 1), Load(ts, bound - 1));
    }
  }

  lemma SquareOfSum(s: nat, l: nat)
    ensures s * s + l * l <= (s + l) * (s + l)
  {
    assert (s + l) * (s + l) == s * s + 2 * (s * l) + l * l;
  }

  lemma {:induction false} LoadSumIsTotal(ts: seq<Tablet>, bound: nat)
    requires forall i :: 0 <= i < |ts| ==> ts[i].node < bound
    ensures LoadSum(ts, bound) == Total(ts)
  {
    if ts == [] {
      LoadSumEmpty(bound);
    } else {
      LoadSumIsTotal(ts[1..], bound);
      LoadSumCons(ts, bound);
    }
  }

  lemma {:induction false} LoadSumEmpty(bound: nat)
    ensures LoadSum([], bound) == 0
  {
    if bound > 0 { LoadSumEmpty(bound - 1); }
  }

  lemma {:induction false} LoadSumCons(ts: seq<Tablet>, bound: nat)
    requires ts != []
    ensures LoadSum(ts, bound) == LoadSum(ts[1..], bound) + if ts[0].node < bound then ts[0].count else 0
  {
    if bound > 0 { LoadSumCons(ts, bound - 1); }
  }

  /** Moving one tablet changes the squares of two loads only. */
  lemma {:induction false} PotentialAfterMove(ts: seq<Tablet>, i: nat, b: nat, bound: nat)
    requires i < |ts| && ts[i].node != b && Load(ts, ts[i].node) >= ts[i].count
    ensures var a, c := ts[i].node, ts[i].count;
            var la, lb := Load(ts, a), Load(ts, b);
            Potential(WithNode(ts, i, b), bound)
            == Potential(ts, bound)
               - (if a < bound then la * la - (la - c) * (la - c) else 0)
               + (if b < bound then (lb + c) * (lb + c) - lb * lb else 0)
  {
    hide Load;
    if bound > 0 {
      PotentialAfterMove(ts, i, b, bound - 1);
      LoadWithNode(ts, i, b, bound - 1);
    }
  }

  /** What moving c keys between loads la and lb does to the sum of their squares. */
  lemma SquaresAfterMove(la: int, lb: int, c: int)
    ensures (la * la - (la - c) * (la - c)) - ((lb + c) * (lb + c) - lb * lb) == 2 * (c * (la - lb - c))
  {
    assert (la - c) * (la - c) == la * la - 2 * (c * la) + c * c;
    assert (lb + c) * (lb + c) == lb * lb + 2 * (c * lb) + c * c;
    assert c * (la - lb - c) == c * la - c * lb - c * c;
  }

  lemma ProductSign(c: int, d: int)
    requires c > 0
    ensures c * d > 0 <==> d > 0
  {}

  lemma GapArithmetic(c: int, d: int)
    requires 1 <= c <= 5 && c + d >= 7
    ensures c * d >= 6
  {
    assert c == 1 || c == 2 || c == 3 || c == 4 || c == 5;
  }

  /** With every tablet below the split threshold, each move lowers the sum of squared loads by at
      least twelve, conserves the total, and leaves its source with another tablet. */
  lemma MoveLowersPotential(ts: seq<Tablet>, i: nat, b: nat, bound: nat)
    requires Chosen(ts, i, b) && CountsAtMost(ts, SPLIT_THRESHOLD - 1)
    requires forall j :: 0 <= j < |ts| ==> ts[j].node < bound
    ensures Potential(WithNode(ts, i, b), bound) + 12 <= Potential(ts, bound)
    ensures Total(WithNode(ts, i, b)) == Total(ts)
    ensures Owners(WithNode(ts, i, b)) == Owners(ts)
    ensures exists j :: 0 <= j < |ts| && j != i && ts[j].node == ts[i].node && ts[j].count > 0
  {
    hide Load, Potential;
    var us := WithNode(ts, i, b);
    var la, lb := Load(ts, ts[i].node), Load(ts, b);
    var k :| 0 <= k < |ts| && ts[k].node == b;
    assert b < bound;
    LoadAtLeast(ts, i);
    PotentialAfterMove(ts, i, b, bound);
    SquaresAfterMove(la, lb, ts[i].count);
    GapArithmetic(ts[i].count, la - lb - ts[i].count);
    var j := SecondTablet(ts, i);
    LoadSumIsTotal(ts, bound);
    TotalAround(ts, us, i);
    assert us[j] == ts[j] && us[i].node == b && us[k].node == b;
    forall n ensures n in Owners(us) <==> n in Owners(ts) {
      if n in Owners(ts) {
        var x :| 0 <= x < |ts| && ts[x].node == n;
        assert us[if x == i then j else x].node == n;
      }
      if n in Owners(us) {
        var x :| 0 <= x < |us| && us[x].node == n;
        assert ts[if x == i then k else x].node == n;
      }
    }
  }

  /** Without the bound on tablet sizes a move lowers the sum of squared loads if and only if the
      moved tablet holds fewer keys than the gap between the two loads; otherwise it does not. */
  lemma MoveLowersIffSmallerThanGap(ts: seq<Tablet>, i: nat, b: nat, bound: nat)
    requires Chosen(ts, i, b) && ts[i].node < bound && b < bound
    ensures Potential(WithNode(ts, i, b), bound) < Potential(ts, bound)
       <==> ts[i].count < Load(ts, ts[i].node) - Load(ts, b)
  {
    hide Load, Potential, Owners;
    LoadAtLeast(ts, i);
    PotentialAfterMove(ts, i, b, bound);
    var la: int, lb: int, c: int := Load(ts, ts[i].node), Load(ts, b), ts[i].count;
    SquaresAfterMove(la, lb, c);
    ProductSign(c, la - lb - c);
  }

  lemma TotalAround(ts: seq<Tablet>, us: seq<Tablet>, i: nat)
    requires i < |ts| == |us| && us == ts[i := us[i]] && us[i].count == ts[i].count
    ensures Total(us) == Total(ts)
  {
    hide Total;
    TotalAt(ts, i);
    TotalAt(us, i);
    assert us[..i] == ts[..i] && us[i + 1..] == ts[i + 1..];
  }

  lemma TotalAt(ts: seq<Tablet>, i: nat)
    requires i < |ts|
    ensures Total(ts) == Total(ts[..i]) + ts[i].count + Total(ts[i + 1..])
  {
    assert ts == ts[..i] + ts[i..];
    TotalAppend(ts[..i], ts[i..]);
    assert ts[i..][1..] == ts[i + 1..];
  }

  // ---- passes ----

  /** The balancing stage of a pass in which every RPC succeeds. */
  ghost function Balance(tb: Table): Table {
    if tb.tablets == [] || Settled(tb.tablets) then tb
    else
      MoveExistsIffUnsettled(tb.tablets);
      var i, b :| Chosen(tb.tablets, i, b);
      Table(WithNode(tb.tablets, i, b), tb.nextId, tb.epoch + 1)
  }

  lemma BalanceIs(tb: Table, i: nat, b: nat)
    requires Chosen(tb.tablets, i, b)
    ensures Balance(tb) == Table(WithNode(tb.tablets, i, b), tb.nextId, tb.epoch + 1)
  {
    hide Load, Owners, IsSource, IsTarget;
    MoveExistsIffUnsettled(tb.tablets);
    var i', b' :| Chosen(tb.tablets, i', b')
                  && Balance(tb) == Table(WithNode(tb.tablets, i', b'), tb.nextId, tb.epoch + 1);
    MoveUnique(tb.tablets, i, b, i', b');
  }

  lemma BalanceStays(tb: Table)
    requires Settled(tb.tablets)
    ensures Balance(tb) == tb
  {}

  lemma BalanceGood(tb: Table, keys: seq<Bytes>, nodes: set<nat>)
    requires Good(tb, keys, nodes) && Synced(tb.tablets, keys)
    ensures Good(Balance(tb), keys, nodes) && Synced(Balance(tb).tablets, keys)
    ensures |Balance(tb).tablets| == |tb.tablets|
    ensures forall b :: CountsAtMost(tb.tablets, b) ==> CountsAtMost(Balance(tb).tablets, b)
  {
    hide Less, Load, Settled, NodeOf, Rank, StopAt, Balance, IsSourceAmong, IsLargestBelow;
    MoveExistsIffUnsettled(tb.tablets);
    if Settled(tb.tablets) {
      BalanceStays(tb);
    } else {
      var i, b :| Chosen(tb.tablets, i, b);
      BalanceIs(tb, i, b);
      TargetOwns(tb.tablets, b);
      WithNodeMovesRange(tb, i, b, nodes);
    }
  }

  /** One iteration of the balancer's loop. */
  ghost function Pass(tb: Table, keys: seq<Bytes>, nodes: set<nat>): (r: Table)
    requires Good(tb, keys, nodes)
    ensures Good(r, keys, nodes) && Synced(r.tablets, keys)
  {
    SyncGood(tb, keys, nodes);
    var split := SplitFrom(tb.(tablets := Sync(tb.tablets, keys)), 0, keys, nodes);
    BalanceGood(split, keys, nodes);
    Balance(split)
  }

  ghost function Passes(tb: Table, keys: seq<Bytes>, nodes: set<nat>, p: nat): (r: Table)
    requires Good(tb, keys, nodes)
    ensures Good(r, keys, nodes)
    decreases p
  {
    if p == 0 then tb else Passes(Pass(tb, keys, nodes), keys, nodes, p - 1)
  }

  /** Tablets are never merged. */
  lemma PassGrows(tb: Table, keys: seq<Bytes>, nodes: set<nat>)
    requires Good(tb, keys, nodes)
    ensures |tb.tablets| <= |Pass(tb, keys, nodes).tablets|
  {
    hide TableOk, Load, Count, Settled, SplitFrom, Balance, Sync;
    SyncGood(tb, keys, nodes);
    var synced := tb.(tablets := Sync(tb.tablets, keys));
    SplitFromKeeps(synced, 0, keys, nodes, 0, []);
    BalanceGood(SplitFrom(synced, 0, keys, nodes), keys, nodes);
  }

  lemma {:induction false} PassesGrow(tb: Table, keys: seq<Bytes>, nodes: set<nat>, p: nat)
    requires Good(tb, keys, nodes)
    ensures |tb.tablets| <= |Passes(tb, keys, nodes, p).tablets|
    decreases p
  {
    hide Good, Pass;
    if p > 0 {
      PassGrows(tb, keys, nodes);
      PassesGrow(Pass(tb, keys, nodes), keys, nodes, p - 1);
    }
  }

  /** Nothing is left to split or to move. */
  ghost predicate Quiet(tb: Table, keys: seq<Bytes>) {
    Synced(tb.tablets, keys) && CountsAtMost(tb.tablets, SPLIT_THRESHOLD - 1) && Settled(tb.tablets)
  }

  /** By numbers: true counts of at most 5, and loads that differ by less than 7. */
  lemma QuietMeans(tb: Table, keys: seq<Bytes>)
    ensures Quiet(tb, keys) <==>
              && (forall i :: 0 <= i < |tb.tablets| ==> tb.tablets[i].count == Count(keys, tb.tablets[i]) <= 5)
              && (forall a, b :: a in Owners(tb.tablets) && b in Owners(tb.tablets) ==>
                    Load(tb.tablets, a) < Load(tb.tablets, b) + 7)
  {
    hide Load, Owners, Count;
  }

  lemma SyncOfSynced(ts: seq<Tablet>, keys: seq<Bytes>)
    requires Synced(ts, keys)
    ensures Sync(ts, keys) == ts
  {}

  /** A quiet table is a fixed point of the loop. */
  lemma QuietStays(tb: Table, keys: seq<Bytes>, nodes: set<nat>)
    requires Good(tb, keys, nodes) && Quiet(tb, keys)
    ensures Pass(tb, keys, nodes) == tb
  {
    hide TableOk, Load, Count, Settled, Balance;
    BalanceStays(tb);
    SyncOfSynced(tb.tablets, keys);
    NothingToSplit(tb, 0, keys, nodes);
  }

  lemma {:induction false} QuietForever(tb: Table, keys: seq<Bytes>, nodes: set<nat>, p: nat)
    requires Good(tb, keys, nodes) && Quiet(tb, keys)
    ensures Passes(tb, keys, nodes, p) == tb
  {
    if p > 0 {
      QuietStays(tb, keys, nodes);
      QuietForever(tb, keys, nodes, p - 1);
    }
  }

  /** True counts of the tablets, whatever counts are recorded. */
  ghost predicate TrueCountsAtMost(tb: Table, keys: seq<Bytes>, b: nat) {
    CountsAtMost(Sync(tb.tablets, keys), b)
  }

  lemma PassHalves(tb: Table, keys: seq<Bytes>, nodes: set<nat>, b: nat)
    requires Good(tb, keys, nodes) && TrueCountsAtMost(tb, keys, b)
    ensures TrueCountsAtMost(Pass(tb, keys, nodes), keys, Max(5, b / 2))
  {
    hide TableOk, Load, Count, Settled, SplitFrom, Balance, Sync;
    SyncGood(tb, keys, nodes);
    var synced := tb.(tablets := Sync(tb.tablets, keys));
    SplitHalves(synced, 0, keys, nodes, b);
    BalanceGood(SplitFrom(synced, 0, keys, nodes), keys, nodes);
    SyncOfSynced(Pass(tb, keys, nodes).tablets, keys);
  }

  /** How often a number can be halved before it is at most five. */
  function Halvings(n: nat): nat {
    if n <= 5 then 0 else 1 + Halvings(n / 2)
  }

  /** The number of halvings is below the binary logarithm. */
  lemma {:induction false} HalvingsLogarithmic(n: nat)
    ensures Halvings(n) > 0 ==> 3 * Pow2(Halvings(n)) <= n
  {
    if n > 5 { HalvingsLogarithmic(n / 2); }
  }

  lemma {:induction false} SmallAfterHalvings(tb: Table, keys: seq<Bytes>, nodes: set<nat>, b: nat, p: nat)
    requires Good(tb, keys, nodes) && TrueCountsAtMost(tb, keys, b) && p >= Halvings(b)
    ensures TrueCountsAtMost(Passes(tb, keys, nodes, p), keys, 5)
    decreases p
  {
    hide TableOk, Pass;
    if p > 0 {
      PassHalves(tb, keys, nodes, b);
      SmallAfterHalvings(Pass(tb, keys, nodes), keys, nodes, Max(5, b / 2), p - 1);
    }
  }

  ghost predicate NodesBelow(ts: seq<Tablet>, bound: nat) {
    forall i :: 0 <= i < |ts| ==> ts[i].node < bound
  }

  /** On small tablets a pass is one move, or nothing at all. */
  lemma PassOnSmallTablets(tb: Table, keys: seq<Bytes>, nodes: set<nat>, bound: nat)
    requires Good(tb, keys, nodes) && TrueCountsAtMost(tb, keys, 5) && NodesBelow(tb.tablets, bound)
    ensures var r := Pass(tb, keys, nodes);
            && TrueCountsAtMost(r, keys, 5) && NodesBelow(r.tablets, bound) && Sync(r.tablets, keys) == r.tablets
            && if Settled(Sync(tb.tablets, keys)) then Quiet(r, keys)
               else Potential(r.tablets, bound) + 12 <= Potential(Sync(tb.tablets, keys), bound)
  {
    hide TableOk, Load, Count, Settled, Potential, Balance, IsSourceAmong, IsTargetAmong, IsLargestBelow;
    SyncGood(tb, keys, nodes);
    var ts := Sync(tb.tablets, keys);
    var synced := tb.(tablets := ts);
    NothingToSplit(synced, 0, keys, nodes);
    BalanceGood(synced, keys, nodes);
    SyncOfSynced(Pass(tb, keys, nodes).tablets, keys);
    if !Settled(ts) {
      if ts == [] { SettledEmpty(ts); }
      MoveExistsIffUnsettled(ts);
      var i, b :| Chosen(ts, i, b);
      BalanceIs(synced, i, b);
      MoveLowersPotential(ts, i, b, bound);
      TargetOwns(ts, b);
    } else {
      BalanceStays(synced);
    }
  }

  lemma TargetOwns(ts: seq<Tablet>, b: nat)
    requires IsTarget(ts, b)
    ensures exists k :: 0 <= k < |ts| && ts[k].node == b
  {}

  lemma SettledEmpty(ts: seq<Tablet>)
    requires ts == []
    ensures Settled(ts)
  {}

  lemma {:induction false} QuietAfterMoves(tb: Table, keys: seq<Bytes>, nodes: set<nat>, bound: nat, p: nat)
    requires Good(tb, keys, nodes) && TrueCountsAtMost(tb, keys, 5) && NodesBelow(tb.tablets, bound)
    requires p >= Potential(Sync(tb.tablets, keys), bound) / 12 + 1
    ensures Quiet(Passes(tb, keys, nodes, p), keys)
    decreases p
  {
    hide TableOk, Load, Count, Settled, Potential, Pass, Quiet;
    PassOnSmallTablets(tb, keys, nodes, bound);
    var r := Pass(tb, keys, nodes);
    if Settled(Sync(tb.tablets, keys)) {
      QuietForever(r, keys, nodes, p - 1);
    } else {
      QuietAfterMoves(r, keys, nodes, bound, p - 1);
    }
  }

  lemma {:induction false} PassesAdd(tb: Table, keys: seq<Bytes>, nodes: set<nat>, p: nat, q: nat)
    requires Good(tb, keys, nodes)
    ensures Passes(tb, keys, nodes, p + q) == Passes(Passes(tb, keys, nodes, p), keys, nodes, q)
    decreases p
  {
    hide Good, Pass;
    if p > 0 { PassesAdd(Pass(tb, keys, nodes), keys, nodes, p - 1, q); }
  }

  /** The sum of squared loads of a synced table is at most the square of the number of keys. */
  lemma PotentialBound(tb: Table, keys: seq<Bytes>, nodes: set<nat>, bound: nat)
    requires Good(tb, keys, nodes) && NodesBelow(tb.tablets, bound)
    ensures Potential(Sync(tb.tablets, keys), bound) <= |keys| * |keys|
  {
    hide Load, Count, Potential, LoadSum, Total, Less;
    SyncGood(tb, keys, nodes);
    var ts := Sync(tb.tablets, keys);
    TotalIsStoreSize(ts, keys);
    LoadSumIsTotal(ts, bound);
    PotentialAtMostSquare(ts, bound);
  }

  lemma NodesHaveBound(ts: seq<Tablet>) returns (bound: nat)
    ensures NodesBelow(ts, bound)
  {
    bound := 0;
    for i := 0 to |ts|
      invariant forall j :: 0 <= j < i ==> ts[j].node < bound
    {
      bound := Max(bound, ts[i].node + 1);
    }
  }

  /** Convergence: from any table over a store of N keys, after Halvings(N) + N*N/12 + 1 passes every
      tablet has at most five keys, loads of tablet-owning nodes differ by less than seven, and no
      further pass changes anything. */
  lemma BalancerConverges(tb: Table, keys: seq<Bytes>, nodes: set<nat>, p: nat)
    requires Good(tb, keys, nodes)
    requires p >= Halvings(|keys|) + |keys| * |keys| / 12 + 1
    ensures Quiet(Passes(tb, keys, nodes, p), keys)
    ensures var ts := Passes(tb, keys, nodes, p).tablets;
            && (forall i :: 0 <= i < |ts| ==> ts[i].count == Count(keys, ts[i]) <= 5)
            && (forall a, b :: a in Owners(ts) && b in Owners(ts) ==> Load(ts, a) < Load(ts, b) + 7)
    ensures forall q :: q >= p ==> Passes(tb, keys, nodes, q) == Passes(tb, keys, nodes, p)
  {
    hide TableOk, Pass, Passes, Quiet, Halvings, Potential;
    var h, m := Halvings(|keys|), |keys| * |keys| / 12 + 1;
    assert TrueCountsAtMost(tb, keys, |keys|);
    SmallAfterHalvings(tb, keys, nodes, |keys|, h);
    var mid := Passes(tb, keys, nodes, h);
    var bound := NodesHaveBound(mid.tablets);
    PotentialBound(mid, keys, nodes, bound);
    QuietAfterMoves(mid, keys, nodes, bound, p - h);
    PassesAdd(tb, keys, nodes, h, p - h);
    QuietMeans(Passes(tb, keys, nodes, p), keys);
    forall q: nat | q >= p ensures Passes(tb, keys, nodes, q) == Passes(tb, keys, nodes, p) {
      PassesAdd(tb, keys, nodes, p, q - p);
      QuietForever(Passes(tb, keys, nodes, p), keys, nodes, q - p);
    }
  }
}
