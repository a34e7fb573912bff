/** The master and its balancer, in place over the routing fields, with the data nodes reached by
    RPCs that may fail and clients that act between any two of them. A ghost log records every atomic
    effect, so each method is a run of the protocol machine, and what the machine guarantees over all
    runs, crashes included, holds of the methods. In a calm environment, where RPCs succeed and
    clients rest, the balancer's methods compute the functions of module Balancing. */
module MasterNode {
  import opened ByteStrings
  import opened Storage
  import opened Tablets
  import opened Protocol
  import opened Placement
  import opened Counting
  import opened Balancing

  /** Counts travel in four bytes. */
  const COUNT_MODULUS := 0x1_0000_0000

  /** One more operation at the end of a recorded run. */
  lemma Extend(start: State, m0: Db, log: seq<Op>, s: State, op: Op)
    requires Run(start, log, s) && Inv(s, Replay(m0, log))
    requires Enabled(s, op) && Assumed(s, op)
    ensures WellFormed(Apply(s, op))
    ensures Run(start, log + [op], Apply(s, op))
    ensures Replay(m0, log + [op]) == Effect(Replay(m0, log), op)
    ensures Inv(Apply(s, op), Replay(m0, log + [op]))
  {
    hide PhaseOk, TableOk, Enabled, Assumed, Apply, Read, ReadBy, Run;
    StepKeepsInv(s, op, Replay(m0, log));
    RunOne(s, op);
    RunAppend(start, log, s, [op], Apply(s, op));
    ReplayAppend(m0, log, [op]);
    assert [op][1..] == [];
  }

  /** With exact placement, a node's keys in a tablet it owns are the store's keys in that range. */
  lemma TabletKeysAreStoreKeys(s: State, m: Db, i: nat)
    requires Inv(s, m) && Exact(s) && s.phase.Idle? && i < |s.mem.tablets|
    ensures var t := s.mem.tablets[i];
            && KeysIn(s.stores[t.node], t.start, t.end) == KeysIn(m, t.start, t.end)
            && |KeysIn(m, t.start, t.end)| == Count(SortedKeys(m.Keys), t)
            && RangeKeys(s.stores[t.node], t.start, t.end) == RangeKeys(m, t.start, t.end)
  {
    hide Partition, DistinctIds, NodeOf, InRange, SortedKeys, Count;
    ShardsWhenSettled(s, m);
    var t := s.mem.tablets[i];
    forall k ensures k in KeysIn(s.stores[t.node], t.start, t.end) <==> k in KeysIn(m, t.start, t.end) {
      if InRange(k, t.start, t.end) {
        OwnerIs(s.mem.tablets, k, i);
        assert Lookup(s.stores[t.node], k) == Lookup(m, k);
      }
    }
    CountIsRangeSize(m, t);
  }

  /** The keys of m in the first i tablets, as far as node n owns them. */
  ghost function KeysOn(m: Db, ts: seq<Tablet>, i: nat, n: nat): set<Bytes>
    requires i <= |ts|
  {
    set k | k in m && exists j :: 0 <= j < i && ts[j].node == n && Holds(ts[j], k)
  }

  lemma {:induction false} KeysOnIsLoad(m: Db, ts: seq<Tablet>, i: nat, n: nat)
    requires Partition(ts) && i <= |ts| && Synced(ts, SortedKeys(m.Keys))
    ensures |KeysOn(m, ts, i, n)| == Load(ts[..i], n)
  {
    hide Partition, SortedKeys, Count, Holds, Load;
    if i == 0 {
      assert KeysOn(m, ts, 0, n) == {};
      NoLoad(n);
    } else {
      var t := ts[i - 1];
      KeysOnIsLoad(m, ts, i - 1, n);
      CountIsRangeSize(m, t);
      assert ts[..i] == ts[..i - 1] + [t];
      LoadOfOneMore(ts[..i - 1], t, n);
      OneMoreTablet(m, ts, i, n);
      hide KeysOn, KeysIn;
    }
  }

  /** One more tablet adds its keys, none of which were counted before, if the node owns it. */
  lemma OneMoreTablet(m: Db, ts: seq<Tablet>, i: nat, n: nat)
    requires Partition(ts) && 0 < i <= |ts|
    ensures var t := ts[i - 1];
            |KeysOn(m, ts, i, n)|
            == |KeysOn(m, ts, i - 1, n)| + if t.node == n then |KeysIn(m, t.start, t.end)| else 0
  {
    hide Partition, Holds;
    var t, before := ts[i - 1], KeysOn(m, ts, i - 1, n);
    var more := if t.node == n then KeysIn(m, t.start, t.end) else {};
    forall k | k in m ensures k in KeysIn(m, t.start, t.end) <==> Holds(t, k) { HeldIsIn(t, k); }
    assert KeysOn(m, ts, i, n) == before + more;
    forall k | k in before ensures k !in more {
      var j :| 0 <= j < i - 1 && ts[j].node == n && Holds(ts[j], k);
      OwnerIs(ts, k, j);
      if Holds(t, k) { OwnerIs(ts, k, i - 1); }
    }
    assert before !! more;
  }

  lemma HeldIsIn(t: Tablet, k: Bytes)
    ensures Holds(t, k) <==> InRange(k, t.start, t.end)
  {}

  lemma NoLoad(n: nat)
    ensures Load([], n) == 0
  {}

  lemma LoadOfOneMore(ts: seq<Tablet>, t: Tablet, n: nat)
    ensures Load(ts + [t], n) == Load(ts, n) + if t.node == n then t.count else 0
  {
    LoadAppend(ts, [t], n);
    assert [t][1..] == [] && Load([t], n) == Share(t, n) + Load([t][1..], n);
  }

  /** With exact placement and true counts, the recorded load of a node is the number of keys on it. */
  lemma LoadIsStoreSize(s: State, m: Db, n: nat)
    requires Inv(s, m) && Exact(s) && s.phase.Idle? && n in s.stores
    requires Synced(s.mem.tablets, SortedKeys(m.Keys))
    ensures Load(s.mem.tablets, n) == |s.stores[n]|
  {
    hide Partition, DistinctIds, NodeOf, SortedKeys, Count, Holds, Load;
    var ts := s.mem.tablets;
    KeysOnIsLoad(m, ts, |ts|, n);
    assert ts[..|ts|] == ts;
    ShardsWhenSettled(s, m);
    forall k ensures k in KeysOn(m, ts, |ts|, n) <==> k in s.stores[n] {
      assert Lookup(s.stores[n], k) == if n == NodeOf(ts, k) then Lookup(m, k) else None;
      var i := OwnerIndex(ts, k);
      OwnerIs(ts, k, i);
      if k in KeysOn(m, ts, |ts|, n) {
        var j :| 0 <= j < |ts| && ts[j].node == n && Holds(ts[j], k);
        OwnerIs(ts, k, j);
      }
    }
    assert KeysOn(m, ts, |ts|, n) == s.stores[n].Keys;
    assert |s.stores[n]| == |s.stores[n].Keys|;
  }

  /** What becomes of a call: whether an answer comes in time; whether a put is stored although it does
      not; whether the scan's reply breaks off before this pair; which part of a range is deleted
      although no answer comes. */
  datatype Outcome = Outcome(answered: bool, applied: bool, broken: bool, part: set<Bytes>)

  /** The table, what the nodes hold, and the calls made so far. */
  datatype Moment = Moment(table: Table, stores: map<nat, Db>, calls: nat)

  predicate Fine(o: Outcome) {
    o.answered && !o.broken
  }

  class Master {
    var tablets: seq<Tablet>
    var nextId: nat
    var epoch: nat
    var file: Table
    var stores: map<nat, Db>
    const calm: bool
      // what becomes of the calls, in order, and how many were made
    const net: nat -> Outcome
    var calls: nat

    ghost var phase: Phase
    ghost var log: seq<Op>
    ghost const start: State
    ghost const m0: Db

    ghost function Routes(): Table
      reads this`tablets, this`nextId, this`epoch
    {
      Table(tablets, nextId, epoch)
    }

    ghost function Abs(): State
      reads this`tablets, this`nextId, this`epoch, this`file, this`stores, this`phase
    {
      State(Routes(), file, stores, phase)
    }

    /** The map clients should see by now. */
    ghost function Plain(): Db
      reads this`log
    {
      Replay(m0, log)
    }

    ghost function Keys(): seq<Bytes>
      reads this`log
    {
      SortedKeys(Plain().Keys)
    }

    ghost predicate Valid()
      reads this`tablets, this`nextId, this`epoch, this`file, this`stores, this`phase, this`log
    {
      && Run(start, log, Abs())
      && Inv(Abs(), Plain())
      && (calm ==> Exact(Abs()))
      && (calm ==> forall c: nat :: Fine(net(c)))
    }

    /** A scan at call number from and the n puts after it all go well. */
    ghost predicate CopyGoes(from: nat, n: nat) {
      net(from).answered && forall c: nat :: from < c <= from + n ==> Fine(net(c))
    }

    /** Valid, and the balancer is between two of its actions. */
    ghost predicate Ready()
      reads this`tablets, this`nextId, this`epoch, this`file, this`stores, this`phase, this`log
    {
      Valid() && phase == Idle
    }

    /** Every count in a calm store fits the wire. */
    ghost predicate Small()
      reads this`log
    {
      |Keys()| < COUNT_MODULUS
    }

    /** Start without a table file: build the initial table over the first two data nodes, save it. */
    constructor (dataNodes: seq<nat>, calm: bool, net: nat -> Outcome)
      requires |dataNodes| >= 2
      requires calm ==> forall c: nat :: Fine(net(c))
      ensures Ready() && this.calm == calm && this.net == net && calls == 0 && Plain() == map[]
      ensures tablets == InitialTable(dataNodes[0], dataNodes[1]).tablets && file == Routes()
      ensures nextId == 3 && epoch == 1 && |tablets| == 2 && tablets[0].id == 1 && tablets[1].id == 2
      ensures forall k :: NodeOf(tablets, k) == if k == [] || k[0] < 109 then dataNodes[0] else dataNodes[1]
    {
      var initial := InitialTable(dataNodes[0], dataNodes[1]);
      tablets, nextId, epoch := initial.tablets, initial.nextId, initial.epoch;
      file := initial;
      stores := map n | n in dataNodes :: map[];
      this.calm := calm;
      this.net, calls := net, 0;
      phase, log := Idle, [];
      start := FreshCluster(dataNodes[0], dataNodes[1], set n | n in dataNodes);
      m0 := map[];
      FreshClusterInv(dataNodes[0], dataNodes[1], set n | n in dataNodes);
      new;
      assert Abs() == start;
      forall k ensures NodeOf(tablets, k) == if k == [] || k[0] < 109 then dataNodes[0] else dataNodes[1] {
        InitialRoutes(dataNodes[0], dataNodes[1], k);
      }
    }

    /** Start from a table file over data nodes that hold data. */
    constructor Resume(file: Table, stores: map<nat, Db>, ghost m: Db, calm: bool, net: nat -> Outcome)
      requires Inv(State(file, file, stores, Idle), m)
      requires calm ==> forall c: nat :: Fine(net(c))
      requires calm ==> Exact(State(file, file, stores, Idle))
      ensures Ready() && this.calm == calm && this.net == net && calls == 0
      ensures Plain() == m && this.stores == stores
      ensures Routes() == file && this.file == file
    {
      tablets, nextId, epoch := file.tablets, file.nextId, file.epoch;
      this.file := file;
      this.stores := stores;
      this.calm := calm;
      this.net, calls := net, 0;
      phase, log := Idle, [];
      start := State(file, file, stores, Idle);
      m0 := m;
    }

    ghost method Record(before: State, op: Op)
      requires Run(start, log, before) && Inv(before, Plain())
      requires Enabled(before, op) && Assumed(before, op) && Abs() == Apply(before, op)
      requires calm ==> Exact(before) && FailureFree(before, op)
      requires calm ==> forall c: nat :: Fine(net(c))
      modifies this`log
      ensures log == old(log) + [op]
      ensures Valid() && Plain() == Effect(old(Plain()), op)
    {
      hide Run, Inv, Exact, Enabled, Assumed, FailureFree, Apply;
      Extend(start, m0, log, before, op);
      if calm { StepKeepsExact(before, op, Plain()); }
      log := log + [op];
    }

    // ---- routing ----

    /** Binary search for the last tablet that starts at or below the key. */
    method FindTabletIndex(key: Bytes) returns (idx: nat)
      requires Ordered(tablets)
      ensures idx <= |tablets|
      ensures idx < |tablets| ==> AtMost(tablets[idx].start, key)
      ensures forall j :: 0 <= j < |tablets| && (idx < j || idx == |tablets|) ==> Less(key, tablets[j].start)
    {
      hide Less;
      LessIsStrictTotal();
      var left, right := 0, |tablets|;
      while left < right
        invariant 0 <= left <= right <= |tablets|
        invariant forall j :: 0 <= j < left ==> AtMost(tablets[j].start, key)
        invariant forall j :: right <= j < |tablets| ==> Less(key, tablets[j].start)
      {
        var mid := left + (right - left) / 2;
        if AtMost(tablets[mid].start, key) {
          left := mid + 1;
        } else {
          AtMostIsNotLess(tablets[mid].start, key);
          right := mid;
        }
      }
      if left == 0 { return |tablets|; }
      return left - 1;
    }

    /** A route is found exactly when some tablet holds the key, and it is that tablet. */
    method GetTabletRoute(key: Bytes) returns (route: Option<Tablet>)
      requires Ordered(tablets)
      ensures route.Some? <==> exists i :: 0 <= i < |tablets| && Holds(tablets[i], key)
      ensures route.Some? ==> route.value in tablets && Holds(route.value, key)
      ensures Partition(tablets) ==> route == Some(tablets[OwnerIndex(tablets, key)])
    {
      hide Less, Partition;
      LessIsStrictTotal();
      LessAsymmetric();
      if tablets == [] { return None; }
      var idx := FindTabletIndex(key);
      if idx >= |tablets| { return None; }
      var t := tablets[idx];
      AtMostIsNotLess(t.end, key);
      if t.end != [] && AtMost(t.end, key) {
        forall i | 0 <= i < |tablets| ensures !Holds(tablets[i], key) {
          assert i < idx ==> AtMost(tablets[i].end, tablets[idx].start);
          AtMostIsNotLess(tablets[i].start, key);
        }
        return None;
      }
      if Partition(tablets) { OwnerIs(tablets, key, idx); }
      return Some(t);
    }

    // ---- what clients do between the balancer's actions ----

    method ClientPut(key: Bytes, value: Bytes)
      requires Valid() && Assumed(Abs(), Protocol.ClientPut(key, value)) && !calm
      modifies this`stores, this`log
      ensures old(log) <= log
      ensures Valid() && Plain() == old(Plain())[key := value] && stores.Keys == old(stores.Keys)
    {
      hide Run, Inv, Exact, Partition, DistinctIds, Assumed, Less, NodeOf;
      ghost var before := Abs();
      assert TableOk(Routes(), stores.Keys) by { InvTables(before, Plain()); }
      PartitionOrdered(tablets);
      var route := GetTabletRoute(key);
      var node := route.value.node;
      assert node == NodeOf(tablets, key) by { OwnerIs(tablets, key, OwnerIndex(tablets, key)); }
      stores := stores[node := stores[node][key := value]];
      Record(before, Protocol.ClientPut(key, value));
    }

    method ClientGet(key: Bytes) returns (answer: Option<Bytes>)
      requires Valid() && !calm
      modifies this`log
      ensures old(log) <= log
      ensures Valid() && Plain() == old(Plain()) && answer == Lookup(Plain(), key)
    {
      hide Run, Inv, Exact, Partition, DistinctIds, Less, NodeOf;
      ghost var before := Abs();
      assert TableOk(Routes(), stores.Keys) by { InvTables(before, Plain()); }
      PartitionOrdered(tablets);
      var route := GetTabletRoute(key);
      answer := Lookup(stores[route.value.node], key);
      OwnerIs(tablets, key, OwnerIndex(tablets, key));
      InvReads(before, Plain(), key);
      Record(before, Protocol.ClientGet(key, answer));
    }

    method ClientDelete(key: Bytes)
      requires Valid() && Assumed(Abs(), Protocol.ClientDelete(key)) && !calm
      modifies this`stores, this`log
      ensures old(log) <= log
      ensures Valid() && Plain() == old(Plain()) - {key} && stores.Keys == old(stores.Keys)
    {
      hide Run, Inv, Exact, Partition, DistinctIds, Assumed, Less, NodeOf;
      ghost var before := Abs();
      assert TableOk(Routes(), stores.Keys) by { InvTables(before, Plain()); }
      PartitionOrdered(tablets);
      var route := GetTabletRoute(key);
      var node := route.value.node;
      assert node == NodeOf(tablets, key) by { OwnerIs(tablets, key, OwnerIndex(tablets, key)); }
      stores := stores[node := stores[node] - {key}];
      Record(before, Protocol.ClientDelete(key));
    }

    /** Any client operation that the protocol's assumptions allow, and no other: a put into the range
        of busy changes nothing unless the copy is doomed, and a deleted key has no leftover copy and
        no pair waiting to be sent. */
    method ClientStep(busy: Option<Tablet>, doomed: bool, waiting: seq<(Bytes, Bytes)>)
      requires Valid() && !calm && (doomed ==> phase.Copying? && phase.transferred < phase.done)
      requires phase.Copying? ==>
                 && phase.idx < |tablets| && busy == Some(tablets[phase.idx])
                 && phase.done <= |phase.pairs| && waiting == phase.pairs[phase.done..]
      requires phase.Flipped? ==> busy == Some(phase.t)
      modifies this`stores, this`log
      ensures old(log) <= log
      ensures Valid() && stores.Keys == old(stores.Keys)
    {
      hide Run, Inv, Exact, Partition, DistinctIds, Less, NodeOf, Holds;
      var kind: nat, key: Bytes, value: Bytes := *, *, *;
      InvTables(Abs(), Plain());
      PartitionOrdered(tablets);
      var route := GetTabletRoute(key);
      var node := route.value.node;
      OwnerIs(tablets, key, OwnerIndex(tablets, key));
      if kind == 0 {
        var _ := ClientGet(key);
      } else if kind == 1 {
        var free := busy.None? || !Holds(busy.value, key);
        if free || doomed || Lookup(stores[node], key) == Some(value) { ClientPut(key, value); }
      } else {
        var alone := forall n | n in stores :: n == node || key !in stores[n];
        if alone && forall p | p in waiting :: p.0 != key {
          NotAwaiting(phase, waiting, key);
          ClientDelete(key);
        }
      }
    }

    /** Any number of client operations, none in a calm environment. */
    method Clients(busy: Option<Tablet>, doomed: bool, waiting: seq<(Bytes, Bytes)>)
      requires Valid() && (doomed ==> phase.Copying? && phase.transferred < phase.done)
      requires phase.Copying? ==>
                 && phase.idx < |tablets| && busy == Some(tablets[phase.idx])
                 && phase.done <= |phase.pairs| && waiting == phase.pairs[phase.done..]
      requires phase.Flipped? ==> busy == Some(phase.t)
      modifies this`stores, this`log
      ensures old(log) <= log
      ensures Valid()
      ensures calm ==> stores == old(stores) && log == old(log)
      ensures stores.Keys == old(stores.Keys)
    {
      hide Valid, Plain, Abs;
      if calm { return; }
      var rounds: int := *;
      for i := 0 to if rounds < 0 then 0 else rounds
        invariant old(log) <= log
        invariant Valid() && stores.Keys == old(stores.Keys)
      {
        ClientStep(busy, doomed, waiting);
      }
    }

    /** Clients act while the balancer is between two of its actions. */
    method Rest()
      requires Valid() && (phase.Idle? || phase.SplitUnsaved? || phase.Deleting?)
      modifies this`stores, this`log
      ensures old(log) <= log
      ensures Valid() && stores.Keys == old(stores.Keys)
      ensures calm ==> stores == old(stores) && Plain() == old(Plain())
    {
      hide Run, Inv, Exact;
      Clients(None, false, []);
    }

    // ---- statistics and splits ----

    /** Ask a node for the number of keys in a range and for its median. */
    method QueryTabletStats(node: nat, start: Bytes, end: Bytes) returns (ok: bool, count: nat, median: Bytes)
      modifies this`calls
      ensures ok <==> node in stores && net(old(calls)).answered
      ensures ok ==> var ks := RangeKeys(stores[node], start, end);
                     count == |ks| % COUNT_MODULUS && median == if ks == [] then [] else ks[|ks| / 2]
      ensures calls == if node in stores then old(calls) + 1 else old(calls)
    {
      ok, count, median := false, 0, [];
      if node !in stores { return; }
      ok := net(calls).answered;
      calls := calls + 1;
      if ok {
        var keys := RangeKeys(stores[node], start, end);
        count := |keys| % COUNT_MODULUS;
        if |keys| > 0 { median := keys[|keys| / 2]; }
      }
    }

    /** In a calm store the reply is the true count and the true median. */
    lemma CalmStats(i: nat)
      requires Ready() && calm && Small() && i < |tablets|
      ensures var t := tablets[i];
              && t.node in stores
              && |KeysIn(stores[t.node], t.start, t.end)| % COUNT_MODULUS == Count(Keys(), t)
                 == |KeysIn(stores[t.node], t.start, t.end)|
              && (Count(Keys(), t) > 0 ==>
                    RangeKeys(stores[t.node], t.start, t.end)[Count(Keys(), t) / 2] == Median(Keys(), t))
    {
      hide Run, Partition, DistinctIds, NodeOf, InRange, SortedKeys, Rank, Inv, Exact;
      InvTables(Abs(), Plain());
      TabletKeysAreStoreKeys(Abs(), Plain(), i);
      CountIsRangeSize(Plain(), tablets[i]);
    }

    /** Facts about the fields that every valid state gives. */
    lemma Shape()
      requires Valid()
      ensures TableOk(Routes(), stores.Keys) && Partition(tablets) && OwnersAmong(tablets, stores.Keys) && tablets != []
      ensures phase.Copying? ==>
                phase.dst in stores && phase.idx < |tablets| && phase.transferred <= phase.done <= |phase.pairs|
    {
      hide Run, Exact, NodeOf, InRange;
    }

    lemma CalmNet()
      requires Valid()
      ensures calm ==> forall c: nat :: Fine(net(c))
    {}

    lemma NodeRuns(idx: nat)
      requires Valid() && idx < |tablets|
      ensures tablets[idx].node in stores
    {
      Shape();
    }

    method RecordCountAt(i: nat, count: nat)
      requires Ready() && i < |tablets|
      modifies this`tablets, this`log
      ensures old(log) <= log
      ensures Ready() && Plain() == old(Plain()) && tablets == WithCount(old(tablets), i, count)
    {
      hide Run, Inv, Exact, Partition, DistinctIds, Less, NodeOf;
      ghost var before := Abs();
      InvTables(before, Plain());
      tablets := tablets[i := tablets[i].(count := count)];
      Record(before, RecordCount(i, count));
    }

    /** Ask for the count of one tablet and record it if it changed. */
    method SyncTabletStats(i: nat)
      requires Ready() && i < |tablets|
      modifies this`tablets, this`stores, this`calls, this`log
      ensures old(log) <= log
      ensures Ready() && stores.Keys == old(stores.Keys) && calls == old(calls) + 1
      ensures |tablets| == |old(tablets)| && tablets == WithCount(old(tablets), i, tablets[i].count)
      ensures CountTaken(old(tablets)[i], old(stores), net(old(calls)).answered, tablets[i].count)
      ensures calm ==> stores == old(stores) && Plain() == old(Plain())
      ensures calm && Small() ==> tablets[i].count == Count(Keys(), old(tablets)[i])
    {
      hide Valid, Plain, Abs, SortedKeys, Count, Median;
      NodeRuns(i);
      CalmNet();
      var ok, count, median := QueryTabletStats(tablets[i].node, tablets[i].start, tablets[i].end);
      if calm && Small() { CalmStats(i); }
      if ok && tablets[i].count != count { RecordCountAt(i, count); }
      Rest();
    }

    /** Refresh every recorded count; ranges, owners and identifiers stay. Each tablet's count is what its
        node held when it was asked, if it answered; seen is what the nodes held then. */
    method SyncAllTabletStats() returns (ghost seen: seq<map<nat, Db>>)
      requires Ready()
      modifies this`tablets, this`stores, this`calls, this`log
      ensures old(log) <= log
      ensures Ready() && stores.Keys == old(stores.Keys)
      ensures |tablets| == |old(tablets)| == |seen| && calls == old(calls) + |tablets|
      ensures forall i :: 0 <= i < |tablets| ==> tablets[i] == old(tablets)[i].(count := tablets[i].count)
      ensures forall i :: 0 <= i < |tablets| ==>
                CountTaken(old(tablets)[i], seen[i], net(old(calls) + i).answered, tablets[i].count)
      ensures seen != [] ==> seen[0] == old(stores)
      ensures calm ==> stores == old(stores) && Plain() == old(Plain())
      ensures calm && Small() ==> tablets == Sync(old(tablets), Keys())
    {
      hide Valid, Plain, Abs, SortedKeys, Rank, StopAt, CountTaken;
      var i := 0;
      ghost var keys := Keys();
      seen := [];
      while i < |tablets|
        invariant old(log) <= log
        invariant Ready() && stores.Keys == old(stores.Keys)
        invariant i <= |tablets| == |old(tablets)| && |seen| == i && calls == old(calls) + i
        invariant i == 0 ==> stores == old(stores)
        invariant seen != [] ==> seen[0] == old(stores)
        invariant forall j :: 0 <= j < |tablets| ==> tablets[j] == old(tablets)[j].(count := tablets[j].count)
        invariant forall j :: i <= j < |tablets| ==> tablets[j] == old(tablets)[j]
        invariant forall j :: 0 <= j < i ==>
                    CountTaken(old(tablets)[j], seen[j], net(old(calls) + j).answered, tablets[j].count)
        invariant calm ==> stores == old(stores) && Plain() == old(Plain()) && Keys() == keys
        invariant calm && Small() ==> forall j :: 0 <= j < i ==> tablets[j].count == Count(keys, old(tablets)[j])
      {
        seen := seen + [stores];
        SyncTabletStats(i);
        i := i + 1;
      }
    }

    /** Write the whole table to the file. */
    method SaveTablets()
      requires Valid() && (phase.SplitUnsaved? || phase.Flipped?)
      modifies this`file, this`phase, this`log
      ensures old(log) <= log
      ensures Valid() && file == Routes() && phase == AfterSave(old(phase)) && Plain() == old(Plain())
    {
      hide Run, Inv, Exact, Partition, DistinctIds, Less, NodeOf;
      ghost var before := Abs();
      InvTables(before, Plain());
      file := Table(tablets, nextId, epoch);
      phase := AfterSave(phase);
      Record(before, Save);
    }

    /** Put both halves in place of the tablet, in memory only. */
    method ReplaceByHalves(idx: nat, median: Bytes, count: nat)
      requires Ready() && idx < |tablets| && SplitGuard(tablets[idx], median)
      modifies this`tablets, this`nextId, this`epoch, this`phase, this`log
      ensures old(log) <= log
      ensures Valid() && phase == SplitUnsaved && Plain() == old(Plain())
      ensures Routes() == SplitAt(old(Routes()), idx, median, count)
    {
      hide Run, Inv, Exact, Partition, DistinctIds, Less, NodeOf, SplitGuard;
      ghost var before := Abs();
      InvTables(before, Plain());
      var oldT := tablets[idx];
      var left := oldT.(id := nextId, end := median, count := count / 2);
      var right := oldT.(id := nextId + 1, start := median, count := count - count / 2);
      nextId := nextId + 2;
      tablets := tablets[..idx] + [left, right] + tablets[idx + 1..];
      epoch := epoch + 1;
      phase := SplitUnsaved;
      SplitIs(before.mem, Routes(), idx, median, count);
      hide SplitAt;
      Record(before, Split(idx, median, count));
    }

    /** Split one tablet at the median its node reports, if it has six keys or more on record, the node
        answers, and the median passes the guards; the halves get the count just answered. The table is
        saved before the method returns. */
    method TrySplitTablet(idx: nat) returns (ok: bool)
      requires Ready()
      modifies this`tablets, this`nextId, this`epoch, this`file, this`stores, this`phase, this`calls, this`log
      ensures old(log) <= log
      ensures Ready() && stores.Keys == old(stores.Keys)
      ensures !ok ==> Routes() == old(Routes()) && file == old(file)
      ensures idx < |old(tablets)| && old(tablets)[idx].count >= 6 ==>
                var t := old(tablets)[idx];
                && t.node in old(stores) && calls == old(calls) + 1
                && var ks := RangeKeys(old(stores)[t.node], t.start, t.end);
                   && (ok <==> net(old(calls)).answered && MiddleSplits(t, ks))
                   && (ok ==> CutAtMedian(old(Routes()), idx, ks, Routes()) && file == Routes())
      ensures idx >= |old(tablets)| || old(tablets)[idx].count < 6 ==> !ok && calls == old(calls)
      ensures |tablets| >= |old(tablets)|
      ensures calm ==> stores == old(stores) && Plain() == old(Plain())
      ensures calm && Small() && idx < |old(tablets)| && old(tablets)[idx].count == Count(Keys(), old(tablets)[idx]) ==>
                (ok <==> old(tablets)[idx].count >= SPLIT_THRESHOLD)
                && (ok ==> Routes() == SplitStep(old(Routes()), idx, Keys()))
    {
      hide Valid, Plain, Abs, SplitAt, SplitGuard, SortedKeys, Count, Median, KeysIn, RangeKeys, PastEnd, AtMost;
      hide CutAtMedian, MiddleSplits;
      if idx >= |tablets| { return false; }
      var oldT := tablets[idx];
      if oldT.count < SPLIT_THRESHOLD { return false; }
      NodeRuns(idx);
      CalmNet();
      ghost var ks := RangeKeys(stores[oldT.node], oldT.start, oldT.end);
      if calm && Small() && oldT.count == Count(Keys(), oldT) { CalmCut(idx); }
      if ks == [] { NothingToCut(oldT, ks); } else { CutIsSplit(Routes(), idx, ks); }
      var answered, count, median := QueryTabletStats(oldT.node, oldT.start, oldT.end);
      Rest();
      GuardsAgree(oldT, median);
      if !answered || median == [] || AtMost(median, oldT.start) || PastEnd(median, oldT.end) {
        return false;
      }
      ok := idx < |tablets| && tablets[idx].id == oldT.id && tablets[idx].count >= SPLIT_THRESHOLD;
      if ok { SaveHalves(idx, median, count); }
    }

    /** Put both halves in place of the tablet and save the table. */
    method SaveHalves(idx: nat, median: Bytes, count: nat)
      requires Ready() && idx < |tablets| && SplitGuard(tablets[idx], median)
      modifies this`tablets, this`nextId, this`epoch, this`file, this`stores, this`phase, this`log
      ensures old(log) <= log
      ensures Ready() && stores.Keys == old(stores.Keys)
      ensures Routes() == SplitAt(old(Routes()), idx, median, count) && file == Routes()
      ensures |tablets| == |old(tablets)| + 1
      ensures calm ==> stores == old(stores) && Plain() == old(Plain())
    {
      hide Valid, Plain, Abs, SplitAt, SplitGuard;
      SplitGrows(Routes(), idx, median, count);
      ReplaceByHalves(idx, median, count);
      Rest();
      SaveTablets();
    }

    /** In a calm store with true counts the guards pass, and the cut is the one of SplitStep. */
    lemma CalmCut(idx: nat)
      requires Ready() && calm && Small() && idx < |tablets|
      requires tablets[idx].count == Count(Keys(), tablets[idx]) >= SPLIT_THRESHOLD
      ensures var t := tablets[idx];
              && t.node in stores
              && var ks := RangeKeys(stores[t.node], t.start, t.end);
                 && MiddleSplits(t, ks)
                 && SplitStep(Routes(), idx, Keys()) == SplitAt(Routes(), idx, ks[|ks| / 2], |ks| % COUNT_MODULUS)
    {
      hide Valid, Plain, Abs, SortedKeys, Count, Median, SplitAt, KeysIn, RangeKeys;
      var t := tablets[idx];
      CalmStats(idx);
      KeysOfRange(stores[t.node], t.start, t.end);
      assert StrictlySorted(Keys());
      MedianSplitsExactly(Keys(), t);
    }

    /** A calm store whose recorded counts are true and fit the wire. */
    ghost predicate Steady()
      reads this`tablets, this`log
    {
      calm && Small() && Synced(tablets, Keys())
    }

    ghost function Now(): Moment
      reads this`tablets, this`nextId, this`epoch, this`stores, this`calls
    {
      Moment(Routes(), stores, calls)
    }

    /** From m to next the tablet at idx is left alone if it has fewer than six keys on record; otherwise
        its node is asked, and it is cut exactly if an answer comes and the middle key lies inside. */
    ghost predicate SplitTried(m: Moment, idx: nat, next: Moment) {
      && idx < |m.table.tablets|
      && var t := m.table.tablets[idx];
         if t.count < 6 then next == m
         else
           && t.node in m.stores && next.calls == m.calls + 1
           && var ks := RangeKeys(m.stores[t.node], t.start, t.end);
              if net(m.calls).answered && MiddleSplits(t, ks) then CutAtMedian(m.table, idx, ks, next.table)
              else next.table == m.table
    }

    /** Every position is tried once, in order, on the table the attempts before it have left. */
    ghost predicate SplitTrace(trace: seq<Moment>) {
      trace != [] && forall j :: 0 <= j < |trace| - 1 ==> SplitTried(trace[j], j, trace[j + 1])
    }

    /** The split loop, followed for at most budget iterations: the list it walks grows under it. trace are
        the moments before each iteration and after the last. In a steady store it ends, with the result
        of SplitFrom, once the budget allows for that result. */
    method SplitAll(budget: nat, ghost nodes: set<nat>) returns (finished: bool, ghost trace: seq<Moment>)
      requires Ready() && nodes == stores.Keys
      modifies this`tablets, this`nextId, this`epoch, this`file, this`stores, this`phase, this`calls, this`log
      ensures old(log) <= log
      ensures Ready() && stores.Keys == nodes
      ensures SplitTrace(trace) && trace[0] == old(Now()) && trace[|trace| - 1] == Now()
      ensures finished <==> |trace| - 1 == |tablets|
      ensures !finished ==> |trace| - 1 == budget
      ensures calm ==> stores == old(stores) && Plain() == old(Plain())
      ensures old(Steady()) ==>
                && Good(old(Routes()), Keys(), nodes)
                && (finished ==> Routes() == SplitFrom(old(Routes()), 0, Keys(), nodes))
                && (budget >= |SplitFrom(old(Routes()), 0, Keys(), nodes).tablets| ==> finished)
    {
      hide Valid, Plain, Abs, Partition, DistinctIds, Less, NodeOf, SortedKeys, Rank, SplitAt, SplitStep;
      hide RangeKeys, MiddleSplits, CutAtMedian;
      ghost var keys, steady, tb0 := Keys(), Steady(), Routes();
      Shape();
      assert StrictlySorted(keys);
      var splitIdx := 0;
      trace := [Now()];
      while splitIdx < |tablets| && splitIdx < budget
        invariant old(log) <= log
        invariant Ready() && stores.Keys == nodes && splitIdx <= |tablets| && splitIdx <= budget
        invariant |trace| == splitIdx + 1 && SplitTrace(trace) && trace[0] == old(Now()) && trace[splitIdx] == Now()
        invariant calm ==> stores == old(stores) && Plain() == old(Plain())
        invariant steady ==>
                    && calm && Small() && Keys() == keys
                    && Good(tb0, keys, nodes) && Synced(tb0.tablets, keys)
                    && Good(Routes(), keys, nodes) && Synced(tablets, keys)
                    && SplitFrom(Routes(), splitIdx, keys, nodes) == SplitFrom(tb0, 0, keys, nodes)
        decreases budget - splitIdx
      {
        if tablets[splitIdx].count >= SPLIT_THRESHOLD {
          if steady { SplitStepGood(Routes(), splitIdx, keys, nodes); }
          var _ := TrySplitTablet(splitIdx);
        }
        OneMoreTried(trace, Now());
        trace := trace + [Now()];
        splitIdx := splitIdx + 1;
      }
      finished := splitIdx >= |tablets|;
      if steady { SplitFromKeeps(Routes(), splitIdx, keys, nodes, 0, []); }
    }

    lemma OneMoreTried(trace: seq<Moment>, next: Moment)
      requires SplitTrace(trace) && SplitTried(trace[|trace| - 1], |trace| - 1, next)
      ensures SplitTrace(trace + [next])
    {
      hide SplitTried;
    }

    // ---- migration ----

    /** Send one pair to a node. A lost reply says nothing about whether the pair was stored, and once
        an answer is missing it may arrive in place of a later one. */
    method SendPut(node: nat, key: Bytes, value: Bytes, missing: bool) returns (replied: bool, ghost applied: bool)
      requires node in stores
      modifies this`stores, this`calls
      ensures calls == old(calls) + 1 && replied == net(old(calls)).answered
      ensures applied == (net(old(calls)).applied || (replied && !missing))
      ensures stores == if applied then old(stores)[node := old(stores)[node][key := value]] else old(stores)
    {
      var o := net(calls);
      calls := calls + 1;
      replied := o.answered;
      applied := o.applied || (o.answered && !missing);
      if o.applied || (o.answered && !missing) { stores := stores[node := stores[node][key := value]]; }
    }

    /** Ask a node to delete a range. Without an answer any part of the range may be gone. */
    method SendDeleteRange(node: nat, start: Bytes, end: Bytes) returns (ok: bool, ghost removed: set<Bytes>)
      requires node in stores
      modifies this`stores, this`calls
      ensures calls == old(calls) + 1 && ok == net(old(calls)).answered
      ensures removed == if ok then KeysIn(old(stores)[node], start, end)
                         else net(old(calls)).part * KeysIn(old(stores)[node], start, end)
      ensures stores == old(stores)[node := old(stores)[node] - removed]
    {
      var o := net(calls);
      calls := calls + 1;
      ok := o.answered;
      var all := KeysIn(stores[node], start, end);
      var gone := if ok then all else o.part * all;
      removed := gone;
      stores := stores[node := stores[node] - gone];
    }

    method BeginCopy(idx: nat, dst: nat)
      requires Ready() && idx < |tablets| && tablets[idx].node != dst && dst in stores
      modifies this`phase, this`log
      ensures old(log) <= log
      ensures Valid() && Plain() == old(Plain())
      ensures tablets[idx].node in stores
      ensures var t := tablets[idx];
              phase == Copying(idx, dst, RangeList(stores[t.node], t.start, t.end), 0, 0)
    {
      hide Run, Inv, Exact, Partition, DistinctIds, Less, NodeOf, RangeList;
      ghost var before := Abs();
      InvTables(before, Plain());
      var t := tablets[idx];
      var pairs := RangeList(stores[t.node], t.start, t.end);
      assert pairs[..|pairs|] == pairs == ScanOf(before, idx);
      phase := Copying(idx, dst, pairs, 0, 0);
      Record(before, Scan(idx, dst, |pairs|));
    }

    /** Send the next pair. */
    method CopyPair(dst: nat, key: Bytes, value: Bytes, missing: bool) returns (replied: bool)
      requires Valid() && phase.Copying? && phase.dst == dst
      requires missing ==> phase.transferred < phase.done && !calm
      requires phase.done < |phase.pairs| && phase.pairs[phase.done] == (key, value)
      modifies this`stores, this`phase, this`calls, this`log
      ensures old(log) <= log
      ensures Valid() && Plain() == old(Plain()) && stores.Keys == old(stores.Keys)
      ensures old(phase).Copying?
      ensures phase == old(phase).(done := old(phase).done + 1,
                                   transferred := old(phase).transferred + if replied then 1 else 0)
      ensures calls == old(calls) + 1 && replied == net(old(calls)).answered
    {
      hide Run, Inv, Exact, Partition, DistinctIds, Less, NodeOf;
      ghost var before := Abs();
      Shape();
      ghost var applied;
      replied, applied := SendPut(dst, key, value, missing);
      phase := before.phase.(done := before.phase.done + 1,
                             transferred := before.phase.transferred + if replied then 1 else 0);
      Record(before, CopyOne(applied, replied));
    }

    /** Send every scanned pair to the destination and count the answers. The scan's reply may break off
        before any pair, which ends the loop. */
    method TransferPairs(idx: nat, dst: nat, pairs: seq<(Bytes, Bytes)>) returns (transferred: nat)
      requires Valid() && phase == Copying(idx, dst, pairs, 0, 0) && idx < |tablets|
      modifies this`stores, this`phase, this`calls, this`log
      ensures old(log) <= log
      ensures Valid() && stores.Keys == old(stores.Keys)
      ensures exists i :: transferred <= i <= |pairs| && phase == Copying(idx, dst, pairs, i, transferred)
      ensures transferred == |pairs| <==> forall c: nat :: old(calls) <= c < old(calls) + |pairs| ==> Fine(net(c))
      ensures transferred == |pairs| ==> calls == old(calls) + |pairs|
      ensures calm ==> Plain() == old(Plain())
    {
      hide Valid, Plain, Abs;
      CalmNet();
      var t := tablets[idx];
      transferred := 0;
      var i := 0;
      while i < |pairs|
        invariant old(log) <= log
        invariant Valid() && i <= |pairs| && stores.Keys == old(stores.Keys)
        invariant phase == Copying(idx, dst, pairs, i, transferred) && transferred <= i
        invariant calls == old(calls) + i
        invariant transferred == i <==> forall c: nat :: old(calls) <= c < calls ==> Fine(net(c))
        invariant calm ==> Plain() == old(Plain())
      {
        ClientsDuring(t, transferred < i, pairs[i..]);
        if net(calls).broken { break; }
        var replied := CopyPair(dst, pairs[i].0, pairs[i].1, transferred < i);
        if replied { transferred := transferred + 1; }
        i := i + 1;
      }
      ClientsDuring(t, transferred < i, pairs[i..]);
    }

    /** Scan the source and copy what was scanned: true exactly if the scan and every put are answered and
        the reply does not break off. A scan whose count of pairs wraps is outside the assumptions and
        taken to fail. */
    method ScanAndTransferData(idx: nat, dst: nat) returns (ok: bool)
      requires Ready() && idx < |tablets| && tablets[idx].node != dst
      modifies this`stores, this`phase, this`calls, this`log
      ensures old(log) <= log
      ensures Valid() && stores.Keys == old(stores.Keys) && tablets[idx].node in old(stores)
      ensures var t := tablets[idx];
              var n := |RangeList(old(stores)[t.node], t.start, t.end)|;
              && (ok <==> dst in stores && (n < COUNT_MODULUS || calm) && CopyGoes(old(calls), n))
              && (ok ==> calls == old(calls) + 1 + n)
      ensures ok ==> phase.Copying? && phase.idx == idx && phase.dst == dst && dst in stores
                     && phase.done == phase.transferred == |phase.pairs| && tablets[idx].node in stores
      ensures !ok ==> phase == Idle
      ensures calm ==> Plain() == old(Plain()) && (ok <==> dst in stores)
    {
      hide Valid, Plain, Abs, RangeList;
      var t := tablets[idx];
      NodeRuns(idx);
      CalmNet();
      if dst !in stores { return false; }
      var scanned := net(calls).answered;
      calls := calls + 1;
      var pairs := RangeList(stores[t.node], t.start, t.end);
      if !scanned || !(calm || |pairs| < COUNT_MODULUS) {
        return false;
      }
      BeginCopy(idx, dst);
      var transferred := TransferPairs(idx, dst, pairs);
      ok := transferred == |pairs|;
      if !ok { AbandonCopy(); }
    }

    /** Clients act while the tablet t is being copied or has been re-routed without being saved. */
    method ClientsDuring(t: Tablet, doomed: bool, waiting: seq<(Bytes, Bytes)>)
      requires Valid() && (doomed ==> phase.Copying? && phase.transferred < phase.done)
      requires
        || (phase.Copying? && phase.idx < |tablets| && tablets[phase.idx] == t
            && phase.done <= |phase.pairs| && waiting == phase.pairs[phase.done..])
        || (phase.Flipped? && phase.t == t)
      modifies this`stores, this`log
      ensures old(log) <= log
      ensures Valid() && stores.Keys == old(stores.Keys)
      ensures calm ==> stores == old(stores) && Plain() == old(Plain())
    {
      hide Run, Inv, Exact, Holds;
      Clients(Some(t), doomed, waiting);
    }

    method AbandonCopy()
      requires Valid() && phase.Copying? && !(phase.done == phase.transferred == |phase.pairs|)
      requires !calm
      modifies this`phase, this`log
      ensures old(log) <= log
      ensures Ready() && Plain() == old(Plain())
    {
      hide Run, Inv, Exact, Partition, DistinctIds, Less, NodeOf;
      ghost var before := Abs();
      InvTables(before, Plain());
      phase := Idle;
      Record(before, GiveUp);
    }

    /** Re-route the copied tablet, in memory only. */
    method FlipRoute(idx: nat, dst: nat)
      requires Valid() && phase.Copying? && phase.done == phase.transferred == |phase.pairs|
      requires phase.idx == idx && phase.dst == dst && idx < |tablets| && dst in stores
      modifies this`tablets, this`epoch, this`phase, this`log
      ensures old(log) <= log
      ensures Valid() && Plain() == old(Plain())
      ensures tablets == WithNode(old(tablets), idx, dst) && epoch == old(epoch) + 1
      ensures phase == Flipped(old(tablets)[idx], dst)
    {
      hide Run, Inv, Exact, Partition, DistinctIds, Less, NodeOf;
      ghost var before := Abs();
      InvTables(before, Plain());
      phase := Flipped(tablets[idx], dst);
      tablets := tablets[idx := tablets[idx].(node := dst)];
      epoch := epoch + 1;
      Record(before, Flip);
    }

    /** Remove the old copies; whether that succeeds or not, the migration is over. */
    method DeleteAtSource(node: nat, start: Bytes, end: Bytes) returns (ok: bool)
      requires Valid() && phase.Deleting? && node in stores
      requires phase.t.node == node && phase.t.start == start && phase.t.end == end
      modifies this`stores, this`phase, this`calls, this`log
      ensures old(log) <= log
      ensures Ready() && Plain() == old(Plain()) && stores.Keys == old(stores.Keys)
      ensures calls == old(calls) + 1 && ok == net(old(calls)).answered
      ensures ok ==> node in stores && KeysIn(stores[node], start, end) == {}
    {
      hide Run, Inv, Exact, Partition, DistinctIds, Less, NodeOf, InRange;
      ghost var before := Abs();
      InvTables(before, Plain());
      ghost var removed;
      ok, removed := SendDeleteRange(node, start, end);
      phase := Idle;
      Record(before, DeleteSource(removed));
      if ok { assert KeysIn(stores[node], start, end) == {}; }
    }

    /** After a complete copy: re-route, save, delete at the source. */
    method CommitMigration(idx: nat, dst: nat, t: Tablet)
      requires Valid() && phase.Copying? && phase.done == phase.transferred == |phase.pairs|
      requires phase.idx == idx && phase.dst == dst && idx < |tablets| && dst in stores
      requires tablets[idx] == t && t.node in stores
      modifies this`tablets, this`epoch, this`file, this`stores, this`phase, this`calls, this`log
      ensures old(log) <= log
      ensures Ready() && stores.Keys == old(stores.Keys)
      ensures tablets == WithNode(old(tablets), idx, dst) && epoch == old(epoch) + 1 && file == Routes()
      ensures calls == old(calls) + 1 && t.node in stores
      ensures net(old(calls)).answered ==> KeysIn(stores[t.node], t.start, t.end) == {}
      ensures calm ==> Plain() == old(Plain())
    {
      hide Valid, Plain, Abs, WithNode, KeysIn;
      FlipRoute(idx, dst);
      ClientsDuring(t, false, []);
      SaveTablets();
      Rest();
      var _ := DeleteAtSource(t.node, t.start, t.end);
    }

    /** Copy, re-route, save, delete at the source, in that order. It succeeds exactly if the copy goes
        well; then, if the last call is answered as well, the source has no key of the range left. */
    method MigrateTablet(idx: nat, dst: nat) returns (ok: bool)
      requires Ready()
      modifies this`tablets, this`epoch, this`file, this`stores, this`phase, this`calls, this`log
      ensures old(log) <= log
      ensures Ready() && stores.Keys == old(stores.Keys)
      ensures !ok ==> Routes() == old(Routes()) && file == old(file)
      ensures ok <==> Movable(old(tablets), idx, dst, old(stores))
                      && MoveGoes(old(tablets), idx, old(stores), old(calls))
      ensures ok ==> tablets == old(tablets)[idx := old(tablets)[idx].(node := dst)]
                     && epoch == old(epoch) + 1 && nextId == old(nextId) && file == Routes()
      ensures ok ==> var t := old(tablets)[idx];
                     && t.node in old(stores) && t.node in stores
                     && var n := |RangeList(old(stores)[t.node], t.start, t.end)|;
                        && calls == old(calls) + n + 2
                        && (net(old(calls) + n + 1).answered ==> KeysIn(stores[t.node], t.start, t.end) == {})
      ensures calm ==> Plain() == old(Plain()) && (ok <==> Movable(old(tablets), idx, dst, old(stores)))
    {
      hide Valid, Plain, Abs, RangeList, KeysIn, CopyGoes;
      if idx >= |tablets| { return false; }
      var t := tablets[idx];
      if t.node == dst { return false; }
      var copied := ScanAndTransferData(idx, dst);
      if !copied { return false; }
      CommitMigration(idx, dst, t);
      return true;
    }

    /** The copy of the tablet at idx goes well, the scan being the call number from. */
    ghost predicate MoveGoes(ts: seq<Tablet>, idx: nat, st: map<nat, Db>, from: nat) {
      && idx < |ts| && ts[idx].node in st
      && var t := ts[idx];
         var n := |RangeList(st[t.node], t.start, t.end)|;
         (n < COUNT_MODULUS || calm) && CopyGoes(from, n)
    }

    /** From m to the table after: if two owners' recorded loads differ by 7 or more the chosen tablet gets
        its new owner exactly if its copy goes well; otherwise nothing changes. */
    ghost predicate Balanced(m: Moment, after: Table) {
      var ts := m.table.tablets;
      if forall a, b :: a in Owners(ts) && b in Owners(ts) ==> Load(ts, a) < Load(ts, b) + 7 then after == m.table
      else exists i, b :: Chosen(ts, i, b) && AfterMove(m, i, b, after)
    }

    ghost predicate AfterMove(m: Moment, i: nat, b: nat, after: Table) {
      var ts := m.table.tablets;
      && i < |ts|
      && after == if MoveGoes(ts, i, m.stores, m.calls)
                  then Table(ts[i := ts[i].(node := b)], m.table.nextId, m.table.epoch + 1) else m.table
    }

    /** The greedy move: the largest tablet of the most loaded node to the least loaded one, made exactly
        if two owners' recorded loads differ by 7 or more and its copy goes well. */
    method DoLoadBalance() returns (ok: bool)
      requires Ready()
      modifies this`tablets, this`epoch, this`file, this`stores, this`phase, this`calls, this`log
      ensures old(log) <= log
      ensures Ready() && stores.Keys == old(stores.Keys)
      ensures !ok ==> Routes() == old(Routes()) && file == old(file)
      ensures ok ==> exists i, b :: Chosen(old(tablets), i, b) && tablets == WithNode(old(tablets), i, b)
                                    && epoch == old(epoch) + 1 && file == Routes()
      ensures (forall a, b :: a in Owners(old(tablets)) && b in Owners(old(tablets)) ==>
                 Load(old(tablets), a) < Load(old(tablets), b) + 7)
                || exists i, b :: Chosen(old(tablets), i, b)
                                  && (ok <==> MoveGoes(old(tablets), i, old(stores), old(calls)))
      ensures ok ==> exists a, b :: a in Owners(old(tablets)) && b in Owners(old(tablets))
                                    && Load(old(tablets), a) >= Load(old(tablets), b) + 7
      ensures Balanced(old(Now()), Routes())
      ensures calm ==> Plain() == old(Plain()) && Routes() == Balance(old(Routes()))
                       && (ok <==> !Settled(old(tablets)))
    {
      ghost var m := Now();
      hide Valid, Plain, Abs, Partition, DistinctIds, Balance, Load, Owners, MoveGoes;
      hide IsSourceAmong, IsTargetAmong, IsLargestBelow, Settled;
      Shape();
      SettledMeans(tablets);
      if |tablets| < 2 {
        FewOwnersSettled(Routes());
        return false;
      }
      var nodeLoad := NodeLoads();
      if |nodeLoad| < 2 {
        assert |Owners(tablets)| < 2;
        FewOwnersSettled(Routes());
        return false;
      }
      var srcNode := MaxElement(nodeLoad);
      var dstNode := MinElement(nodeLoad);
      var diff := if nodeLoad[srcNode] > nodeLoad[dstNode] then nodeLoad[srcNode] - nodeLoad[dstNode] else 0;
      if diff < BALANCE_DIFF_THRESHOLD {
        SmallGapSettled(Routes(), srcNode, dstNode);
        return false;
      }
      var targetIdx := LargestTabletOf(srcNode);
      TargetIsChosen(tablets, targetIdx, srcNode, dstNode, stores.Keys);
      BalanceIs(Routes(), targetIdx, dstNode);
      ok := MigrateTablet(targetIdx, dstNode);
      assert AfterMove(m, targetIdx, dstNode, Routes());
    }

    /** The node max_element finds. */
    method MaxElement(nodeLoad: map<nat, nat>) returns (node: nat)
      requires tablets != [] && nodeLoad.Keys == Owners(tablets)
      requires forall n :: n in nodeLoad ==> nodeLoad[n] == Load(tablets, n)
      ensures node in nodeLoad && IsSource(tablets, node)
    {
      hide Load, Owners, FirstGreatest, IsSource, IsSourceAmong;
      GreatestExists(tablets, nodeLoad);
      node :| node in nodeLoad && FirstGreatest(nodeLoad, node);
      GreatestIsSource(tablets, nodeLoad, node);
    }

    /** The node min_element finds. */
    method MinElement(nodeLoad: map<nat, nat>) returns (node: nat)
      requires tablets != [] && nodeLoad.Keys == Owners(tablets)
      requires forall n :: n in nodeLoad ==> nodeLoad[n] == Load(tablets, n)
      ensures node in nodeLoad && IsTarget(tablets, node)
    {
      hide Load, Owners, FirstLeast, IsTarget, IsTargetAmong;
      LeastLoadExists(tablets, nodeLoad);
      node :| node in nodeLoad && FirstLeast(nodeLoad, node);
      LeastIsTarget(tablets, nodeLoad, node);
    }

    /** The accumulation of loads by node. */
    method NodeLoads() returns (nodeLoad: map<nat, nat>)
      ensures nodeLoad.Keys == Owners(tablets)
      ensures forall n :: n in nodeLoad ==> nodeLoad[n] == Load(tablets, n)
    {
      nodeLoad := map[];
      var i := 0;
      while i < |tablets|
        invariant i <= |tablets|
        invariant nodeLoad.Keys == Owners(tablets[..i])
        invariant forall n :: n in nodeLoad ==> nodeLoad[n] == Load(tablets[..i], n)
      {
        var t := tablets[i];
        assert tablets[..i + 1] == tablets[..i] + [t];
        OwnersSnoc(tablets[..i], t);
        forall n ensures Load(tablets[..i + 1], n) == Load(tablets[..i], n) + Share(t, n) {
          LoadAppend(tablets[..i], [t], n);
          assert Load([t], n) == Share(t, n) + Load([t][1..], n);
        }
        if t.node !in nodeLoad { LoadOfStranger(tablets[..i], t.node); }
        nodeLoad := nodeLoad[t.node := (if t.node in nodeLoad then nodeLoad[t.node] else 0) + t.count];
        i := i + 1;
      }
      assert tablets[..i] == tablets;
    }

    /** The search for the first tablet of a node with the greatest count. */
    method LargestTabletOf(node: nat) returns (targetIdx: nat)
      requires Load(tablets, node) > 0
      ensures IsLargestOn(tablets, node, targetIdx)
    {
      targetIdx := |tablets|;
      var maxCount := 0;
      var i := 0;
      while i < |tablets|
        invariant i <= |tablets|
        invariant if maxCount == 0
                  then targetIdx == |tablets|
                       && forall j :: 0 <= j < i && tablets[j].node == node ==> tablets[j].count == 0
                  else IsLargestBelow(tablets, node, i, targetIdx) && tablets[targetIdx].count == maxCount
      {
        if tablets[i].node == node && tablets[i].count > maxCount {
          maxCount := tablets[i].count;
          targetIdx := i;
        }
        i := i + 1;
      }
      if maxCount == 0 { LoadZero(tablets, node); }
    }

    /** The splitting starts from the tablets with the counts their nodes answered, one call each. */
    ghost predicate Refreshed(ts: seq<Tablet>, seen: seq<map<nat, Db>>, from: nat, trace: seq<Moment>) {
      && trace != [] && |seen| == |ts| == |trace[0].table.tablets| && trace[0].calls == from + |ts|
      && forall i :: 0 <= i < |ts| ==>
           && trace[0].table.tablets[i] == ts[i].(count := trace[0].table.tablets[i].count)
           && CountTaken(ts[i], seen[i], net(from + i).answered, trace[0].table.tablets[i].count)
    }

    /** One iteration of the balancer's loop, its split loop followed for at most budget iterations. */
    method BalancerRound(budget: nat)
      returns (finished: bool, ghost seen: seq<map<nat, Db>>, ghost trace: seq<Moment>)
      requires Ready()
      modifies this`tablets, this`nextId, this`epoch, this`file, this`stores, this`phase, this`calls, this`log
      ensures old(log) <= log
      ensures Ready() && stores.Keys == old(stores.Keys)
      ensures Refreshed(old(tablets), seen, old(calls), trace) && SplitTrace(trace)
      ensures if |trace| - 1 == |trace[|trace| - 1].table.tablets|
              then finished && Balanced(trace[|trace| - 1], Routes())
              else !finished && |trace| - 1 == budget && Now() == trace[|trace| - 1]
      ensures calm ==> Plain() == old(Plain())
      ensures calm && old(Small()) ==>
                && Good(old(Routes()), Keys(), stores.Keys)
                && (finished ==> Routes() == Pass(old(Routes()), Keys(), stores.Keys))
                && (budget >= |Pass(old(Routes()), Keys(), stores.Keys).tablets| ==> finished)
    {
      hide Valid, Plain, Abs, SortedKeys, Sync, SplitFrom, Balance, Partition, DistinctIds, Count;
      hide SplitTrace, Balanced, Refreshed, Good;
      ghost var tb, nodes, keys := Routes(), stores.Keys, Keys();
      finished, seen, trace := SyncAndSplit(budget);
      if calm && |keys| < COUNT_MODULUS { PassSize(tb, keys, nodes); }
      if finished { var _ := DoLoadBalance(); }
    }

    /** The first two stages of a round. */
    method SyncAndSplit(budget: nat) returns (finished: bool, ghost seen: seq<map<nat, Db>>, ghost trace: seq<Moment>)
      requires Ready()
      modifies this`tablets, this`nextId, this`epoch, this`file, this`stores, this`phase, this`calls, this`log
      ensures old(log) <= log
      ensures Ready() && stores.Keys == old(stores.Keys)
      ensures Refreshed(old(tablets), seen, old(calls), trace) && SplitTrace(trace) && trace[|trace| - 1] == Now()
      ensures finished <==> |trace| - 1 == |tablets|
      ensures !finished ==> |trace| - 1 == budget
      ensures calm ==> stores == old(stores) && Plain() == old(Plain())
      ensures calm && old(Small()) ==>
                && Good(old(Routes()), Keys(), stores.Keys)
                && var split := SplitStage(old(Routes()), Keys(), stores.Keys);
                   (finished ==> Routes() == split) && (budget >= |split.tablets| ==> finished)
    {
      hide Valid, Plain, Abs, SortedKeys, Sync, SplitFrom, Partition, DistinctIds, Count, SplitTried, CountTaken;
      Shape();
      ghost var tb, nodes, keys := Routes(), stores.Keys, Keys();
      assert StrictlySorted(keys);
      SyncGood(tb, keys, nodes);
      seen := SyncAllTabletStats();
      finished, trace := SplitAll(budget, nodes);
    }

    /** The balancer's loop for a given number of rounds, in any environment. In a calm one, once the
        rounds reach the bound, nothing is left to split or to move. */
    method BalancerLoop(rounds: nat, budget: nat) returns (finished: bool)
      requires Ready()
      modifies this`tablets, this`nextId, this`epoch, this`file, this`stores, this`phase, this`calls, this`log
      ensures old(log) <= log
      ensures Ready() && stores.Keys == old(stores.Keys)
      ensures calm ==> Plain() == old(Plain())
      ensures calm && old(Small()) ==>
                && Good(old(Routes()), Keys(), stores.Keys)
                && (finished ==> Routes() == Passes(old(Routes()), Keys(), stores.Keys, rounds))
                && (budget >= |Passes(old(Routes()), Keys(), stores.Keys, rounds).tablets| ==> finished)
                && (finished && rounds >= Halvings(|Keys()|) + |Keys()| * |Keys()| / 12 + 1 ==>
                      Quiet(Routes(), Keys()) && EvenlySpread())
    {
      hide Valid, Plain, Abs, SortedKeys, Partition, DistinctIds, Halvings, Pass, Passes, Quiet, Count;
      Shape();
      ghost var keys, nodes, tb0, small := Keys(), stores.Keys, Routes(), calm && Small();
      assert StrictlySorted(keys);
      var i := 0;
      finished := true;
      if small { PassesNone(tb0, keys, nodes); }
      while i < rounds && finished
        invariant i <= rounds && old(log) <= log
        invariant Ready() && stores.Keys == nodes
        invariant calm ==> Plain() == old(Plain())
        invariant small ==>
                    && calm && Small() && Keys() == keys && Good(tb0, keys, nodes)
                    && (finished ==> Routes() == Passes(tb0, keys, nodes, i))
                    && (budget >= |Passes(tb0, keys, nodes, rounds).tablets| ==> finished)
        decreases rounds - i, finished
      {
        ghost var tb := Routes();
        ghost var seen, trace;
        finished, seen, trace := BalancerRound(budget);
        if small { PassesNext(tb0, tb, keys, nodes, i, rounds); }
        if finished { i := i + 1; }
      }
      if small && finished && rounds >= Halvings(|keys|) + |keys| * |keys| / 12 + 1 {
        BalancerConverges(tb0, keys, nodes, rounds);
        QuietIsEven();
      }
    }

    /** What the nodes really hold: at most five keys in any tablet's range, and on any two nodes that own
        tablets, numbers of keys that differ by less than seven. */
    ghost predicate EvenlySpread()
      reads this`tablets, this`stores
    {
      && (forall i :: 0 <= i < |tablets| ==>
            var t := tablets[i]; t.node in stores && |KeysIn(stores[t.node], t.start, t.end)| <= 5)
      && (forall i, j :: 0 <= i < |tablets| && 0 <= j < |tablets|
                         && tablets[i].node in stores && tablets[j].node in stores ==>
            |stores[tablets[i].node]| < |stores[tablets[j].node]| + 7)
    }

    lemma QuietIsEven()
      requires Ready() && calm && Small() && Quiet(Routes(), Keys())
      ensures EvenlySpread()
    {
      hide Run, Inv, Exact, Partition, DistinctIds, SortedKeys, Count, Load, Quiet, Owners, KeysIn;
      QuietMeans(Routes(), Keys());
      TrueCounts(Routes(), Keys());
      forall i | 0 <= i < |tablets|
        ensures var t := tablets[i]; t.node in stores && |KeysIn(stores[t.node], t.start, t.end)| <= 5
      {
        CalmStats(i);
      }
      forall i, j | 0 <= i < |tablets| && 0 <= j < |tablets| && tablets[i].node in stores && tablets[j].node in stores
        ensures |stores[tablets[i].node]| < |stores[tablets[j].node]| + 7
      {
        LoadIsStoreSize(Abs(), Plain(), tablets[i].node);
        LoadIsStoreSize(Abs(), Plain(), tablets[j].node);
        OwnerOfTablet(tablets, i);
        OwnerOfTablet(tablets, j);
      }
    }

    /** The master dies at any point and starts again from the table file. */
    method Restart()
      requires Valid() && !calm
      modifies this`tablets, this`nextId, this`epoch, this`phase, this`log
      ensures old(log) <= log
      ensures Ready() && Routes() == file && Plain() == old(Plain())
    {
      hide Run, Inv, Exact, Partition, DistinctIds, Less, NodeOf;
      ghost var before := Abs();
      InvTables(before, Plain());
      tablets, nextId, epoch := file.tablets, file.nextId, file.epoch;
      phase := Idle;
      Record(before, Crash);
    }
  }

  /** The tests on the reported median are the split guard. */
  lemma GuardsAgree(t: Tablet, mid: Bytes)
    ensures SplitGuard(t, mid) <==> !(mid == [] || AtMost(mid, t.start) || PastEnd(mid, t.end))
  {
    AtMostIsNotLess(mid, t.start);
    AtMostIsNotLess(t.end, mid);
  }

  lemma SplitIs(a: Table, b: Table, idx: nat, mid: Bytes, n: nat)
    requires idx < |a.tablets|
    requires var t := a.tablets[idx];
             b == Table(a.tablets[..idx] + [t.(id := a.nextId, end := mid, count := n / 2),
                                                          t.(id := a.nextId + 1, start := mid, count := n - n / 2)]
                                      + a.tablets[idx + 1..], a.nextId + 2, a.epoch + 1)
    ensures b == SplitAt(a, idx, mid, n)
  {}

  /** The count recorded for a tablet after its node was asked: the number of keys the node holds in the
      range, modulo 2^32, or what was recorded before if it does not answer. */
  ghost predicate CountTaken(t: Tablet, stores: map<nat, Db>, answered: bool, count: nat) {
    t.node in stores
    && count == if answered then |RangeKeys(stores[t.node], t.start, t.end)| % 4294967296 else t.count
  }

  /** The table b is a with the tablet at idx cut at the middle one of its keys ks: two new identifiers,
      half of the keys counted left, the rest right, one epoch later. */
  ghost predicate CutAtMedian(a: Table, idx: nat, ks: seq<Bytes>, b: Table)
    requires idx < |a.tablets| && ks != []
  {
    var t, mid, n := a.tablets[idx], ks[|ks| / 2], |ks| % 4294967296;
    b == Table(a.tablets[..idx]
               + [Tablet(a.nextId, t.start, mid, t.node, n / 2), Tablet(a.nextId + 1, mid, t.end, t.node, n - n / 2)]
               + a.tablets[idx + 1..],
               a.nextId + 2, a.epoch + 1)
  }

  /** The middle one of ks lies strictly between the bounds. */
  ghost predicate MiddleSplits(t: Tablet, ks: seq<Bytes>) {
    ks != [] && Less(t.start, ks[|ks| / 2]) && (t.end == [] || Less(ks[|ks| / 2], t.end))
  }

  lemma NothingToCut(t: Tablet, ks: seq<Bytes>)
    requires ks == []
    ensures !MiddleSplits(t, ks) && !SplitGuard(t, [])
  {}

  lemma KeysOfRange(db: Db, start: Bytes, end: Bytes)
    ensures |RangeKeys(db, start, end)| == |KeysIn(db, start, end)|
  {}

  lemma CutIsSplit(a: Table, idx: nat, ks: seq<Bytes>)
    requires idx < |a.tablets| && ks != []
    ensures CutAtMedian(a, idx, ks, SplitAt(a, idx, ks[|ks| / 2], |ks| % COUNT_MODULUS))
    ensures MiddleSplits(a.tablets[idx], ks) <==> SplitGuard(a.tablets[idx], ks[|ks| / 2])
  {}

  lemma SplitGrows(tb: Table, idx: nat, mid: Bytes, n: nat)
    requires idx < |tb.tablets|
    ensures |SplitAt(tb, idx, mid, n).tablets| == |tb.tablets| + 1
  {}

  lemma FewOwnersSettled(tb: Table)
    requires tb.tablets != [] && (|tb.tablets| < 2 || |Owners(tb.tablets)| < 2)
    ensures Settled(tb.tablets) && Balance(tb) == tb
  {
    var x := tb.tablets[0].node;
    assert x in Owners(tb.tablets);
    forall a | a in Owners(tb.tablets) ensures a == x {
      if |tb.tablets| >= 2 && a != x {
        assert {a, x} <= Owners(tb.tablets);
        SubsetSize({a, x}, Owners(tb.tablets));
      }
    }
  }

  lemma TrueCounts(tb: Table, keys: seq<Bytes>)
    requires Quiet(tb, keys)
    ensures Synced(tb.tablets, keys)
  {}

  lemma OwnerOfTablet(ts: seq<Tablet>, i: nat)
    requires i < |ts|
    ensures ts[i].node in Owners(ts)
  {}

  lemma SubsetSize(a: set<nat>, b: set<nat>)
    requires a <= b
    ensures |a| <= |b|
  {
    assert b == a + (b - a);
  }

  lemma SmallGapSettled(tb: Table, src: nat, dst: nat)
    requires IsSource(tb.tablets, src) && IsTarget(tb.tablets, dst)
    requires Load(tb.tablets, src) < Load(tb.tablets, dst) + BALANCE_DIFF_THRESHOLD
    ensures Settled(tb.tablets) && Balance(tb) == tb
  {
    hide Load, Owners;
    forall a, b | a in Owners(tb.tablets) && b in Owners(tb.tablets)
      ensures Load(tb.tablets, a) < Load(tb.tablets, b) + BALANCE_DIFF_THRESHOLD
    {
      assert Above(tb.tablets, src, a) && Below(tb.tablets, dst, b);
    }
  }

  ghost predicate Movable(ts: seq<Tablet>, idx: nat, dst: nat, st: map<nat, Db>) {
    idx < |ts| && ts[idx].node != dst && dst in st
  }

  /** Settled, by the number: no two owners' loads differ by 7 or more. */
  lemma SettledMeans(ts: seq<Tablet>)
    ensures Settled(ts) <==> forall a, b :: a in Owners(ts) && b in Owners(ts) ==> Load(ts, a) < Load(ts, b) + 7
  {
    hide Load, Owners;
  }

  /** The first key, in key order, with the greatest load. */
  predicate FirstGreatest(load: map<nat, nat>, node: nat)
    requires node in load
  {
    forall n | n in load :: load[n] < load[node] || (load[n] == load[node] && node <= n)
  }

  /** The first key, in key order, with the least load. */
  predicate FirstLeast(load: map<nat, nat>, node: nat)
    requires node in load
  {
    forall n | n in load :: load[node] < load[n] || (load[n] == load[node] && node <= n)
  }

  ghost predicate AreLoads(ts: seq<Tablet>, load: map<nat, nat>) {
    load.Keys == Owners(ts) && forall n :: n in load ==> load[n] == Load(ts, n)
  }

  lemma GreatestExists(ts: seq<Tablet>, load: map<nat, nat>)
    requires ts != [] && AreLoads(ts, load)
    ensures exists node :: node in load && FirstGreatest(load, node)
  {
    hide Load;
    assert ts[0].node in Owners(ts);
    ExtremesExist(ts, Owners(ts));
    hide Owners;
    var a :| IsSourceAmong(ts, Owners(ts), a);
    forall n | n in load ensures load[n] < load[a] || (load[n] == load[a] && a <= n) {
      assert Above(ts, a, n);
    }
    assert a in load && FirstGreatest(load, a);
  }

  lemma LeastLoadExists(ts: seq<Tablet>, load: map<nat, nat>)
    requires ts != [] && AreLoads(ts, load)
    ensures exists node :: node in load && FirstLeast(load, node)
  {
    hide Load;
    assert ts[0].node in Owners(ts);
    ExtremesExist(ts, Owners(ts));
    hide Owners;
    var b :| IsTargetAmong(ts, Owners(ts), b);
    forall n | n in load ensures load[b] < load[n] || (load[n] == load[b] && b <= n) {
      assert Below(ts, b, n);
    }
    assert b in load && FirstLeast(load, b);
  }

  lemma GreatestIsSource(ts: seq<Tablet>, load: map<nat, nat>, node: nat)
    requires AreLoads(ts, load) && node in load && FirstGreatest(load, node)
    ensures IsSource(ts, node)
  {
    hide Load, Owners;
    forall n | n in Owners(ts) ensures Above(ts, node, n) { assert n in load; }
  }

  lemma LeastIsTarget(ts: seq<Tablet>, load: map<nat, nat>, node: nat)
    requires AreLoads(ts, load) && node in load && FirstLeast(load, node)
    ensures IsTarget(ts, node)
  {
    hide Load, Owners;
    forall n | n in Owners(ts) ensures Below(ts, node, n) { assert n in load; }
  }

  /** The table after the first two stages of a pass. */
  ghost function SplitStage(tb: Table, keys: seq<Bytes>, nodes: set<nat>): Table
    requires Good(tb, keys, nodes)
  {
    SyncGood(tb, keys, nodes);
    SplitFrom(tb.(tablets := Sync(tb.tablets, keys)), 0, keys, nodes)
  }

  lemma PassSize(tb: Table, keys: seq<Bytes>, nodes: set<nat>)
    requires Good(tb, keys, nodes)
    ensures Pass(tb, keys, nodes) == Balance(SplitStage(tb, keys, nodes))
    ensures |Pass(tb, keys, nodes).tablets| == |SplitStage(tb, keys, nodes).tablets|
  {
    hide TableOk, Balance, Sync, SplitFrom;
    SyncGood(tb, keys, nodes);
    BalanceGood(SplitStage(tb, keys, nodes), keys, nodes);
  }

  lemma PassesNone(tb: Table, keys: seq<Bytes>, nodes: set<nat>)
    requires Good(tb, keys, nodes)
    ensures Passes(tb, keys, nodes, 0) == tb
  {}

  /** One more pass, which leaves no more tablets than all passes together. */
  lemma PassesNext(tb0: Table, tb: Table, keys: seq<Bytes>, nodes: set<nat>, i: nat, rounds: nat)
    requires Good(tb0, keys, nodes) && i < rounds && tb == Passes(tb0, keys, nodes, i)
    ensures Pass(tb, keys, nodes) == Passes(tb0, keys, nodes, i + 1)
    ensures |Pass(tb, keys, nodes).tablets| <= |Passes(tb0, keys, nodes, rounds).tablets|
  {
    hide Pass, Good;
    PassesAdd(tb0, keys, nodes, i, 1);
    assert Passes(tb, keys, nodes, 1) == Passes(Pass(tb, keys, nodes), keys, nodes, 0);
    PassesAdd(tb0, keys, nodes, i + 1, rounds - i - 1);
    PassesGrow(Pass(tb, keys, nodes), keys, nodes, rounds - i - 1);
  }

  /** A key that no waiting pair has is not to be sent. */
  lemma NotAwaiting(p: Phase, waiting: seq<(Bytes, Bytes)>, key: Bytes)
    requires p.Copying? ==> p.done <= |p.pairs| && waiting == p.pairs[p.done..]
    requires forall w :: w in waiting ==> w.0 != key
    ensures p.Copying? ==> forall j :: p.done <= j < |p.pairs| ==> p.pairs[j].0 != key
  {
    if p.Copying? {
      forall j | p.done <= j < |p.pairs| ensures p.pairs[j].0 != key {
        assert waiting[j - p.done] == p.pairs[j];
      }
    }
  }

  lemma TargetIsChosen(ts: seq<Tablet>, i: nat, src: nat, dst: nat, nodes: set<nat>)
    requires IsSource(ts, src) && IsTarget(ts, dst) && IsLargestOn(ts, src, i) && OwnersAmong(ts, nodes)
    requires Load(ts, src) >= Load(ts, dst) + BALANCE_DIFF_THRESHOLD
    ensures Chosen(ts, i, dst) && !Settled(ts) && ts[i].node != dst && dst in nodes
  {
    hide Load;
  }

  lemma OwnersSnoc(ts: seq<Tablet>, t: Tablet)
    ensures Owners(ts + [t]) == Owners(ts) + {t.node}
  {
    var us := ts + [t];
    forall n ensures n in Owners(us) <==> n in Owners(ts) + {t.node} {
      if n in Owners(ts) {
        var i :| 0 <= i < |ts| && ts[i].node == n;
        assert us[i].node == n;
      }
      assert us[|ts|].node == t.node;
    }
  }

  lemma LoadOfStranger(ts: seq<Tablet>, n: nat)
    requires n !in Owners(ts)
    ensures Load(ts, n) == 0
  {
    assert forall j :: 0 <= j < |ts| ==> ts[j].node in Owners(ts);
    LoadZero(ts, n);
  }

  lemma InvTables(s: State, m: Db)
    requires Inv(s, m)
    ensures WellFormed(s) && s.mem.tablets != []
  {}

  lemma InvReads(s: State, m: Db, k: Bytes)
    requires Inv(s, m)
    ensures Read(s, k) == Lookup(m, k)
  {}
}
