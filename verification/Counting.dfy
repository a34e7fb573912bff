/** How many keys of a store a tablet holds, the median at which it is split, and the load that the
    recorded counts put on each node. The store is given by the sorted list of all its keys. */
module Counting {
  import opened ByteStrings
  import opened Storage
  import opened Tablets

  /** The number of keys in the tablet's range. */
  function Count(keys: seq<Bytes>, t: Tablet): nat {
    StopAt(keys, t.start, t.end) - Rank(keys, t.start)
  }

  /** The key RangeStats reports for a range that has keys: the one at half their number. */
  function Median(keys: seq<Bytes>, t: Tablet): Bytes
    requires Count(keys, t) > 0
  {
    keys[Rank(keys, t.start) + Count(keys, t) / 2]
  }

  ghost predicate Synced(ts: seq<Tablet>, keys: seq<Bytes>) {
    forall i :: 0 <= i < |ts| ==> ts[i].count == Count(keys, ts[i])
  }

  ghost predicate CountsAtMost(ts: seq<Tablet>, b: nat) {
    forall i :: 0 <= i < |ts| ==> ts[i].count <= b
  }

  lemma RankOfKey(keys: seq<Bytes>, j: nat)
    requires StrictlySorted(keys) && j < |keys|
    ensures Rank(keys, keys[j]) == j
  {
    LessAsymmetric();
    RankIs(keys, keys[j], j);
  }

  /** What a range query returns is as long as the count, and its middle key is the median. */
  lemma CountIsRangeSize(db: Db, t: Tablet)
    ensures var keys := SortedKeys(db.Keys);
            && Count(keys, t) == |KeysIn(db, t.start, t.end)| == |RangeKeys(db, t.start, t.end)|
            && (Count(keys, t) > 0 ==> RangeKeys(db, t.start, t.end)[Count(keys, t) / 2] == Median(keys, t))
  {
    hide SortedKeys, Rank, InRange;
    RangeIsSlice(db, t.start, t.end);
  }

  /** Median split is exact: with at least two keys in range the median passes every split guard, and
      the counts recorded for the halves are the true ones, so both halves are non-empty. */
  lemma MedianSplitsExactly(keys: seq<Bytes>, t: Tablet)
    requires StrictlySorted(keys) && Count(keys, t) >= 2
    ensures SplitGuard(t, Median(keys, t))
    ensures Count(keys, t.(end := Median(keys, t))) == Count(keys, t) / 2 > 0
    ensures Count(keys, t.(start := Median(keys, t))) == Count(keys, t) - Count(keys, t) / 2 > 0
  {
    hide Less, Rank;
    var lo, n, mid := Rank(keys, t.start), Count(keys, t), Median(keys, t);
    InRangeIsBetween(keys, t.start, t.end);
    RankOfKey(keys, lo + n / 2);
    assert InRange(keys[lo], t.start, t.end) && InRange(mid, t.start, t.end);
    assert Less(keys[lo], mid);
    LessIsStrictTotal();
    BelowIsNonEmpty(keys[lo], mid);
  }

  // ---- loads ----

  /** The recorded load of node n: the sum of the counts of its tablets. */
  function Load(ts: seq<Tablet>, n: nat): nat {
    if ts == [] then 0 else (if ts[0].node == n then ts[0].count else 0) + Load(ts[1..], n)
  }

  function Total(ts: seq<Tablet>): nat {
    if ts == [] then 0 else ts[0].count + Total(ts[1..])
  }

  lemma {:induction false} LoadAppend(a: seq<Tablet>, b: seq<Tablet>, n: nat)
    ensures Load(a + b, n) == Load(a, n) + Load(b, n)
  {
    if a == [] {
      assert a + b == b;
    } else {
      assert (a + b)[0] == a[0] && (a + b)[1..] == a[1..] + b;
      LoadAppend(a[1..], b, n);
    }
  }

  lemma {:induction false} TotalAppend(a: seq<Tablet>, b: seq<Tablet>)
    ensures Total(a + b) == Total(a) + Total(b)
  {
    if a == [] {
      assert a + b == b;
    } else {
      assert (a + b)[0] == a[0] && (a + b)[1..] == a[1..] + b;
      TotalAppend(a[1..], b);
    }
  }

  /** One tablet's share of a load. */
  function Share(t: Tablet, n: nat): nat {
    if t.node == n then t.count else 0
  }

  lemma LoadAround(ts: seq<Tablet>, i: nat, n: nat)
    requires i < |ts|
    ensures Load(ts, n) == Load(ts[..i], n) + Share(ts[i], n) + Load(ts[i + 1..], n)
  {
    assert ts == ts[..i] + (ts[i..i + 1] + ts[i + 1..]);
    LoadAppend(ts[..i], ts[i..i + 1] + ts[i + 1..], n);
    LoadAppend(ts[i..i + 1], ts[i + 1..], n);
    assert Load(ts[i..i + 1], n) == Share(ts[i], n) + Load(ts[i..i + 1][1..], n);
  }

  lemma LoadWithNode(ts: seq<Tablet>, i: nat, dst: nat, n: nat)
    requires i < |ts|
    ensures Load(WithNode(ts, i, dst), n)
         == Load(ts, n) - Share(ts[i], n) + (if n == dst then ts[i].count else 0)
  {
    var us := WithNode(ts, i, dst);
    LoadAround(ts, i, n);
    LoadAround(us, i, n);
    assert us[..i] == ts[..i] && us[i + 1..] == ts[i + 1..];
  }

  lemma LoadAtLeast(ts: seq<Tablet>, i: nat)
    requires i < |ts|
    ensures Load(ts, ts[i].node) >= ts[i].count
  {
    LoadAround(ts, i, ts[i].node);
  }

  lemma {:induction false} LoadZero(ts: seq<Tablet>, n: nat)
    requires forall j :: 0 <= j < |ts| && ts[j].node == n ==> ts[j].count == 0
    ensures Load(ts, n) == 0
  {
    if ts != [] {
      assert ts[0].node == n ==> ts[0].count == 0;
      assert forall j :: 0 <= j < |ts[1..]| ==> ts[1..][j] == ts[j + 1];
      LoadZero(ts[1..], n);
    }
  }

  /** A load that one tablet does not explain comes from another tablet of the same node. */
  lemma SecondTablet(ts: seq<Tablet>, i: nat) returns (j: nat)
    requires i < |ts| && Load(ts, ts[i].node) > ts[i].count
    ensures j < |ts| && j != i && ts[j].node == ts[i].node && ts[j].count > 0
  {
    var n := ts[i].node;
    LoadAround(ts, i, n);
    if j :| 0 <= j < |ts| && j != i && ts[j].node == n && ts[j].count > 0 {
      return j;
    }
    forall j | 0 <= j < i && ts[..i][j].node == n ensures ts[..i][j].count == 0 { assert ts[..i][j] == ts[j]; }
    LoadZero(ts[..i], n);
    var r := ts[i + 1..];
    forall j | 0 <= j < |r| && r[j].node == n ensures r[j].count == 0 { assert r[j] == ts[i + 1 + j]; }
    LoadZero(r, n);
    assert false;
  }

  /** A split leaves the load of every node as it was. */
  lemma SplitKeepsLoad(tb: Table, idx: nat, mid: Bytes, c: nat, n: nat)
    requires idx < |tb.tablets| && tb.tablets[idx].count == c
    ensures Load(SplitAt(tb, idx, mid, c).tablets, n) == Load(tb.tablets, n)
  {
    var ts, us := tb.tablets, SplitAt(tb, idx, mid, c).tablets;
    LoadAround(ts, idx, n);
    LoadAround(us, idx, n);
    var tail := us[idx + 1..];
    LoadAround(tail, 0, n);
    assert us[..idx] == ts[..idx] && tail[0] == us[idx + 1] && tail[1..] == ts[idx + 1..];
  }

  /** The tablets before position i count the keys below its start. */
  lemma {:induction false} TotalTelescopes(ts: seq<Tablet>, keys: seq<Bytes>, i: nat)
    requires Partition(ts) && StrictlySorted(keys) && Synced(ts, keys) && i <= |ts|
    ensures Total(ts[..i]) == if i == |ts| then |keys| else Rank(keys, ts[i].start)
  {
    if i > 0 {
      var t := ts[i - 1];
      TotalTelescopes(ts, keys, i - 1);
      assert ts[..i] == ts[..i - 1] + [t];
      TotalAppend(ts[..i - 1], [t]);
      assert Total([t]) == t.count + Total([t][1..]);
      RankMonotone(keys, t.start, t.end);
    } else {
      RankSplits(keys, []);
      assert Rank(keys, ts[0].start) == 0 by { if |keys| > 0 { assert !Less(keys[0], []); } }
    }
  }

  lemma RankMonotone(keys: seq<Bytes>, a: Bytes, b: Bytes)
    requires StrictlySorted(keys) && Before(a, b)
    ensures Rank(keys, a) <= RankEnd(keys, b)
  {
    hide Less, Rank;
    RankSplits(keys, a);
    RankSplits(keys, b);
    LessIsStrictTotal();
    var p := RankEnd(keys, b);
    assert b != [] && p < |keys| ==> !Less(keys[p], b);
    assert b != [] && p < |keys| ==> (Less(keys[p], a) <==> p < Rank(keys, a));
  }

  /** Every key of the store is counted in exactly one tablet of a synced table. */
  lemma TotalIsStoreSize(ts: seq<Tablet>, keys: seq<Bytes>)
    requires Partition(ts) && StrictlySorted(keys) && Synced(ts, keys)
    ensures Total(ts) == |keys|
  {
    TotalTelescopes(ts, keys, |ts|);
    assert ts[..|ts|] == ts;
  }
}
