/** Where copies of keys lie: exact placement over failure-free runs, and, for each thing the code
    relies on without enforcing it, what goes wrong without it and exactly when. */
module Placement {
  import opened ByteStrings
  import opened Storage
  import opened Tablets
  import opened Protocol

  // ---- runs ----

  lemma {:induction false} RunAppend(s: State, a: seq<Op>, mid: State, b: seq<Op>, last: State)
    requires Run(s, a, mid) && Run(mid, b, last)
    ensures Run(s, a + b, last)
    decreases |a|
  {
    hide WellFormed, Enabled, Assumed, Apply;
    if a == [] {
      assert a + b == b;
    } else {
      assert (a + b)[0] == a[0] && (a + b)[1..] == a[1..] + b;
      RunAppend(Apply(s, a[0]), a[1..], mid, b, last);
    }
  }

  lemma RunOne(s: State, op: Op)
    requires WellFormed(s) && Enabled(s, op) && Assumed(s, op)
    ensures Run(s, [op], Apply(s, op))
  {
    hide WellFormed, Enabled, Assumed, Apply;
    assert [op][1..] == [];
  }

  lemma {:induction false} ReplayAppend(m: Db, a: seq<Op>, b: seq<Op>)
    ensures Replay(m, a + b) == Replay(Replay(m, a), b)
    decreases |a|
  {
    if a == [] {
      assert a + b == b;
    } else {
      assert (a + b)[0] == a[0] && (a + b)[1..] == a[1..] + b;
      ReplayAppend(Effect(m, a[0]), a[1..], b);
    }
  }

  /** The cluster a first start creates: the initial table, saved, over empty data nodes. */
  ghost function FreshCluster(first: nat, second: nat, nodes: set<nat>): State {
    State(InitialTable(first, second), InitialTable(first, second), map n | n in nodes :: map[], Idle)
  }

  lemma FreshClusterInv(first: nat, second: nat, nodes: set<nat>)
    requires first in nodes && second in nodes
    ensures Inv(FreshCluster(first, second, nodes), map[])
  {
    hide Partition, NodeOf;
    InitialTableOk(first, second, nodes);
    assert FreshCluster(first, second, nodes).stores.Keys == nodes;
  }

  /** The table file never runs ahead of memory. */
  ghost predicate FileBehind(s: State) {
    s.disk.epoch <= s.mem.epoch && s.disk.nextId <= s.mem.nextId
  }

  lemma StepEpoch(s: State, op: Op)
    requires WellFormed(s) && Enabled(s, op) && FileBehind(s)
    ensures var s' := Apply(s, op);
            && FileBehind(s') && s.disk.epoch <= s'.disk.epoch && s.disk.nextId <= s'.disk.nextId
            && (op != Crash ==> s.mem.epoch <= s'.mem.epoch && s.mem.nextId <= s'.mem.nextId)
  {
    hide WellFormed, NodeOf;
  }

  /** The saved epoch and the saved next identifier never fall; the ones in memory fall only when a
      crash brings back a table that was not saved yet. */
  lemma {:induction false} EpochNeverFalls(s: State, ops: seq<Op>, last: State)
    requires Run(s, ops, last) && FileBehind(s)
    ensures FileBehind(last)
    ensures s.disk.epoch <= last.disk.epoch && s.disk.nextId <= last.disk.nextId
    ensures Crash !in ops ==> s.mem.epoch <= last.mem.epoch && s.mem.nextId <= last.mem.nextId
    decreases |ops|
  {
    hide WellFormed, NodeOf, Assumed, Enabled, Apply;
    if ops != [] {
      StepEpoch(s, ops[0]);
      var s' := Apply(s, ops[0]);
      assert ops == [ops[0]] + ops[1..];
      EpochNeverFalls(s', ops[1..], last);
    }
  }

  /** Crash safety: killed at any point of any run and reloaded from the table file, the master routes
      every key to a node that holds its current value, so no read changes. */
  lemma CrashChangesNoRead(s: State, ops: seq<Op>, last: State, m: Db)
    requires Inv(s, m) && Run(s, ops, last)
    ensures WellFormed(last) && WellFormed(Apply(last, Crash))
    ensures forall k :: Read(Apply(last, Crash), k) == Read(last, k) == Lookup(Replay(m, ops), k)
    ensures Apply(last, Crash).mem == last.disk && Apply(last, Crash).stores == last.stores
  {
    hide TableOk, NodeOf;
    Refinement(s, ops, last, m);
    StepKeepsInv(last, Crash, Replay(m, ops));
  }

  // ---- exact placement ----

  /** A second copy that the migration under way explains. */
  ghost predicate InTransit(s: State, n: nat, k: Bytes) {
    match s.phase
    case Idle => false
    case SplitUnsaved => false
    case Copying(idx, dst, _, _, _) =>
      n == dst && idx < |s.mem.tablets| && Holds(s.mem.tablets[idx], k) && !AwaitsCopy(s, k)
    case Flipped(t, _) => n == t.node && Holds(t, k)
    case Deleting(t, _) => n == t.node && Holds(t, k)
  }

  /** Every copy of a key lies at its owner, but for the copies the running migration makes. */
  ghost predicate Exact(s: State)
    requires WellFormed(s)
  {
    forall n, k :: LeftoverAt(s, n, k) ==> InTransit(s, n, k)
  }

  ghost predicate Migrating(s: State, k: Bytes) {
    InMotion(s, k) || (s.phase.Deleting? && Holds(s.phase.t, k))
  }

  /** Nothing fails, and clients leave the range alone from its scan to its deletion at the source. */
  ghost predicate FailureFree(s: State, op: Op)
    requires WellFormed(s)
  {
    match op
    case ClientPut(k, _) => !Migrating(s, k)
    case ClientDelete(k) => !Migrating(s, k)
    case Scan(idx, _, n) => idx < |s.mem.tablets| && n == |ScanOf(s, idx)|
    case CopyOne(applied, replied) => applied && replied
    case GiveUp => false
    case SaveLost => false
    case DeleteSource(removed) =>
      s.phase.Deleting? && s.phase.t.node in s.stores
      && removed == KeysIn(s.stores[s.phase.t.node], s.phase.t.start, s.phase.t.end)
    case Crash => false
    case _ => true
  }

  lemma TransitIsMigrating(s: State, k: Bytes)
    ensures forall n :: InTransit(s, n, k) ==> Migrating(s, k)
  {
    hide AwaitsCopy, Holds;
  }

  lemma AwaitingIsMoving(s: State, k: Bytes)
    requires WellFormed(s) && s.phase.Copying? && CopyOk(s)
    ensures AwaitsCopy(s, k) ==> InMotion(s, k)
  {}

  /** A failure-free step is one the code's assumptions cover, client deletes included. */
  lemma FailureFreeIsAssumed(s: State, op: Op)
    requires WellFormed(s) && Exact(s) && Enabled(s, op) && FailureFree(s, op) && (s.phase.Copying? ==> CopyOk(s))
    ensures Assumed(s, op)
  {
    hide Partition, DistinctIds, OwnersAmong, NodeOf, InRange;
    if op.ClientDelete? {
      TransitIsMigrating(s, op.key);
      if s.phase.Copying? { AwaitingIsMoving(s, op.key); }
    }
  }

  lemma StepKeepsExact(s: State, op: Op, m: Db)
    requires Inv(s, m) && Exact(s) && Enabled(s, op) && FailureFree(s, op)
    ensures WellFormed(Apply(s, op)) && Exact(Apply(s, op))
  {
    hide Partition, DistinctIds, NodeOf, InRange, RangeList, SplitAt;
    StepKeepsWellFormed(s, op);
    var s' := Apply(s, op);
    match op
    case RecordCount(idx, n) =>
      WithCountKeepsOwners(s.mem, idx, n, s.stores.Keys);
      OwnersFixed(s, s');
    case Split(idx, mid, n) =>
      SplitTableOk(s.mem, idx, mid, n, s.stores.Keys);
      SplitKeepsOwners(s.mem, idx, mid, n);
      OwnersFixed(s, s');
    case CopyOne(_, _) =>
      CopyKeepsExact(s, m);
    case Flip => FlipKeepsExact(s, m);
    case DeleteSource(removed) =>
      forall n, k ensures !LeftoverAt(s', n, k) {
        assert LeftoverAt(s', n, k) ==> LeftoverAt(s, n, k);
        assert LeftoverAt(s, n, k) ==> InTransit(s, n, k);
        assert LeftoverAt(s, n, k) ==> k in KeysIn(s.stores[n], s.phase.t.start, s.phase.t.end);
      }
    case ClientPut(key, _) =>
      forall n, k | LeftoverAt(s', n, k) ensures InTransit(s', n, k) {
        assert LeftoverAt(s, n, k);
      }
    case ClientDelete(_) =>
      forall n, k | LeftoverAt(s', n, k) ensures InTransit(s', n, k) {
        assert LeftoverAt(s, n, k);
      }
    case ClientGet(_, _) =>
    case Scan(_, _, _) => assert forall n, k :: LeftoverAt(s', n, k) ==> LeftoverAt(s, n, k);
    case Save => assert forall n, k :: LeftoverAt(s', n, k) ==> LeftoverAt(s, n, k);
    case GiveUp =>
    case SaveLost =>
    case Crash =>
  }

  lemma CopyKeepsExact(s: State, m: Db)
    requires Inv(s, m) && Exact(s) && Enabled(s, CopyOne(true, true))
    ensures WellFormed(Apply(s, CopyOne(true, true))) && Exact(Apply(s, CopyOne(true, true)))
  {
    hide Partition, DistinctIds, NodeOf, InRange, RangeList;
    StepKeepsWellFormed(s, CopyOne(true, true));
    var s', p := Apply(s, CopyOne(true, true)), s.phase;
    var key := p.pairs[p.done].0;
    assert Holds(s.mem.tablets[p.idx], key) && !AwaitsCopy(s', key);
    forall n, k | LeftoverAt(s', n, k) ensures InTransit(s', n, k) {
      if n != p.dst || k != key {
        assert LeftoverAt(s, n, k);
        if k != key { StillAwaits(s, s', k); }
      }
    }
  }

  lemma OwnersFixed(s: State, s': State)
    requires WellFormed(s) && WellFormed(s') && Exact(s) && s.phase.Idle? && s'.stores == s.stores
    requires SameOwners(s.mem.tablets, s'.mem.tablets)
    ensures Exact(s')
  {
    hide Partition, DistinctIds, NodeOf;
    forall n, k ensures !LeftoverAt(s', n, k) {
      assert NodeOf(s.mem.tablets, k) == NodeOf(s'.mem.tablets, k);
      assert LeftoverAt(s', n, k) ==> LeftoverAt(s, n, k);
      assert !InTransit(s, n, k);
    }
  }

  lemma FlipKeepsExact(s: State, m: Db)
    requires Inv(s, m) && Exact(s) && Enabled(s, Flip)
    ensures WellFormed(Apply(s, Flip)) && Exact(Apply(s, Flip))
  {
    hide Partition, DistinctIds, NodeOf, InRange, RangeList;
    StepKeepsWellFormed(s, Flip);
    var s', p := Apply(s, Flip), s.phase;
    WithNodeMovesRange(s.mem, p.idx, p.dst, s.stores.Keys);
    assert forall n, k :: InTransit(s, n, k) ==> n == p.dst && Holds(s.mem.tablets[p.idx], k);
    forall n, k | LeftoverAt(s', n, k) ensures InTransit(s', n, k) {
      assert n != NodeOf(s.mem.tablets, k) ==> LeftoverAt(s, n, k);
    }
  }

  ghost predicate FailureFreeRun(s: State, ops: seq<Op>, last: State)
    decreases |ops|
  {
    if ops == [] then last == s
    else WellFormed(s) && Enabled(s, ops[0]) && FailureFree(s, ops[0])
         && FailureFreeRun(Apply(s, ops[0]), ops[1..], last)
  }

  /** The nodes' maps together are exactly m, each key once, at its owner. */
  ghost predicate Shards(s: State, m: Db)
    requires WellFormed(s)
  {
    forall n, k :: n in s.stores ==>
      Lookup(s.stores[n], k) == if n == NodeOf(s.mem.tablets, k) then Lookup(m, k) else None
  }

  /** Over failure-free runs, now with client deletes, the same refinement holds and, whenever no
      migration is under way, the data nodes shard the plain map exactly. */
  lemma {:induction false} ExactPlacement(s: State, ops: seq<Op>, last: State, m: Db)
    requires Inv(s, m) && Exact(s) && FailureFreeRun(s, ops, last)
    ensures AnswersFrom(m, ops)
    ensures Run(s, ops, last)
    ensures Inv(last, Replay(m, ops)) && Exact(last)
    ensures last.phase.Idle? || last.phase.SplitUnsaved? ==> Shards(last, Replay(m, ops))
    decreases |ops|
  {
    hide TableOk, NodeOf, Apply, Enabled, Assumed, FailureFree;
    if ops != [] {
      FailureFreeIsAssumed(s, ops[0]);
      StepKeepsExact(s, ops[0], m);
      StepKeepsInv(s, ops[0], m);
      ExactPlacement(Apply(s, ops[0]), ops[1..], last, Effect(m, ops[0]));
    } else {
      if last.phase.Idle? || last.phase.SplitUnsaved? { ShardsWhenSettled(last, m); }
    }
  }

  lemma ShardsWhenSettled(s: State, m: Db)
    requires Inv(s, m) && Exact(s) && (s.phase.Idle? || s.phase.SplitUnsaved?)
    ensures Shards(s, m)
  {
    hide Partition, DistinctIds, NodeOf;
    forall n, k | n in s.stores
      ensures Lookup(s.stores[n], k) == if n == NodeOf(s.mem.tablets, k) then Lookup(m, k) else None
    {
      assert Read(s, k) == Lookup(m, k);
      assert !InTransit(s, n, k);
      assert !LeftoverAt(s, n, k);
    }
  }

  // ---- what the assumptions are needed for ----

  function Copies(n: nat): (ops: seq<Op>)
    ensures |ops| == n
  {
    if n == 0 then [] else [CopyOne(true, true)] + Copies(n - 1)
  }

  /** The pairs of ps written over db in order. */
  function Written(db: Db, ps: seq<(Bytes, Bytes)>): Db
    decreases |ps|
  {
    if ps == [] then db else Written(db[ps[0].0 := ps[0].1], ps[1..])
  }

  lemma {:induction false} WrittenAt(db: Db, ps: seq<(Bytes, Bytes)>, k: Bytes)
    requires forall i, j :: 0 <= i < j < |ps| ==> ps[i].0 != ps[j].0
    ensures forall j :: 0 <= j < |ps| && ps[j].0 == k ==> Lookup(Written(db, ps), k) == Some(ps[j].1)
    ensures (forall j :: 0 <= j < |ps| ==> ps[j].0 != k) ==> Lookup(Written(db, ps), k) == Lookup(db, k)
    decreases |ps|
  {
    if ps != [] {
      var t := ps[1..];
      WrittenAt(db[ps[0].0 := ps[0].1], t, k);
      forall j | 0 <= j < |ps| && ps[j].0 == k ensures Lookup(Written(db, ps), k) == Some(ps[j].1) {
        if j > 0 { assert t[j - 1] == ps[j]; }
        else { assert forall i :: 0 <= i < |t| ==> t[i] == ps[i + 1]; }
      }
    }
  }

  lemma {:induction false} WrittenHas(db: Db, ps: seq<(Bytes, Bytes)>, k: Bytes)
    requires k in db || exists j :: 0 <= j < |ps| && ps[j].0 == k
    ensures k in Written(db, ps)
    decreases |ps|
  {
    if ps != [] {
      var t := ps[1..];
      if k !in db[ps[0].0 := ps[0].1] {
        var j :| 0 <= j < |ps| && ps[j].0 == k;
        assert t[j - 1] == ps[j];
      }
      WrittenHas(db[ps[0].0 := ps[0].1], t, k);
    }
  }

  /** From any point of a copy, its remaining pairs can all be sent and answered. */
  lemma {:induction false} CopyToEnd(s: State) returns (last: State)
    requires WellFormed(s) && s.phase.Copying? && s.phase.dst in s.stores
    requires s.phase.done <= |s.phase.pairs|
    ensures var p := s.phase;
            && Run(s, Copies(|p.pairs| - p.done), last) && WellFormed(last)
            && last == s.(stores := s.stores[p.dst := Written(s.stores[p.dst], p.pairs[p.done..])],
                          phase := p.(done := |p.pairs|, transferred := p.transferred + |p.pairs| - p.done))
    decreases |s.phase.pairs| - s.phase.done
  {
    hide Partition, DistinctIds, OwnersAmong, NodeOf;
    var p := s.phase;
    if p.done == |p.pairs| {
      last := s;
      assert s.stores == s.stores[p.dst := s.stores[p.dst]];
    } else {
      var op := CopyOne(true, true);
      StepKeepsWellFormed(s, op);
      var s' := Apply(s, op);
      assert p.pairs[p.done..][1..] == p.pairs[p.done + 1..];
      last := CopyToEnd(s');
      var rest := Copies(|p.pairs| - p.done - 1);
      assert Copies(|p.pairs| - p.done) == [op] + rest;
      assert ([op] + rest)[1..] == rest;
    }
  }

  /** The copied pairs as the destination holds them once the copy ends. */
  lemma CopyThenFlip(s: State) returns (ops: seq<Op>, last: State)
    requires WellFormed(s) && s.phase.Copying? && s.phase.dst in s.stores && s.phase.idx < |s.mem.tablets|
    requires s.phase.transferred == s.phase.done <= |s.phase.pairs|
    ensures Run(s, ops, last) && WellFormed(last)
    ensures forall op :: op in ops ==> op == CopyOne(true, true) || op == Flip
    ensures forall k :: Holds(s.mem.tablets[s.phase.idx], k) ==>
              Read(last, k) == Lookup(Written(s.stores[s.phase.dst], s.phase.pairs[s.phase.done..]), k)
  {
    hide Partition, DistinctIds, NodeOf, Holds;
    var p := s.phase;
    var mid := CopyToEnd(s);
    RunOne(mid, Flip);
    last := Apply(mid, Flip);
    StepKeepsWellFormed(mid, Flip);
    ops := Copies(|p.pairs| - p.done) + [Flip];
    RunAppend(s, Copies(|p.pairs| - p.done), mid, [Flip], last);
    CopiesOnly(|p.pairs| - p.done);
    WithNodeMovesRange(mid.mem, p.idx, p.dst, mid.stores.Keys);
  }

  lemma {:induction false} CopiesOnly(n: nat)
    ensures forall op :: op in Copies(n) ==> op == CopyOne(true, true)
  {
    if n > 0 { CopiesOnly(n - 1); }
  }

  /** No client put or delete of k is among ops. */
  predicate LeavesAlone(ops: seq<Op>, k: Bytes) {
    forall op :: op in ops && (op.ClientPut? || op.ClientDelete?) ==> op.key != k
  }

  lemma {:induction false} ReplayLeavesAlone(m: Db, ops: seq<Op>, k: Bytes)
    requires LeavesAlone(ops, k)
    ensures Lookup(Replay(m, ops), k) == Lookup(m, k)
    decreases |ops|
  {
    if ops != [] {
      assert ops[0] in ops && forall op :: op in ops[1..] ==> op in ops;
      ReplayLeavesAlone(Effect(m, ops[0]), ops[1..], k);
    }
  }

  /** Stays: whatever balancer, failures and other clients do afterwards, k reads as r until a client
      writes it again. */
  ghost predicate StaysAs(s: State, k: Bytes, r: Option<Bytes>) {
    forall ops, last :: Run(s, ops, last) && LeavesAlone(ops, k) && WellFormed(last) ==> Read(last, k) == r
  }

  /** An assumed client operation has its effect for good. */
  lemma AssumedStays(s: State, m: Db, op: Op, k: Bytes)
    requires Inv(s, m) && Enabled(s, op) && Assumed(s, op)
    ensures WellFormed(Apply(s, op)) && StaysAs(Apply(s, op), k, Lookup(Effect(m, op), k))
  {
    hide TableOk, NodeOf, Apply, Enabled, Assumed, PhaseOk, LeavesAlone;
    StepKeepsInv(s, op, m);
    var s', m' := Apply(s, op), Effect(m, op);
    forall ops, last | Run(s', ops, last) && LeavesAlone(ops, k) && WellFormed(last)
      ensures Read(last, k) == Lookup(m', k)
    {
      Refinement(s', ops, last, m');
      ReplayLeavesAlone(m', ops, k);
    }
  }

  /** Every run that continues from here reads as the plain map that continues from m. */
  ghost predicate Refines(s: State, m: Db) {
    forall ops, last :: Run(s, ops, last) && WellFormed(last) ==>
      forall k :: Read(last, k) == Lookup(Replay(m, ops), k)
  }

  lemma AssumedRefines(s: State, m: Db, op: Op)
    requires Inv(s, m) && Enabled(s, op) && Assumed(s, op)
    ensures WellFormed(Apply(s, op)) && Refines(Apply(s, op), Effect(m, op))
  {
    hide TableOk, NodeOf, Apply, Enabled, Assumed, PhaseOk, Run, Refines;
    StepKeepsInv(s, op, m);
    InvRefines(Apply(s, op), Effect(m, op));
  }

  /** A client put stays in effect, from any point of any run, if and only if its key is not in motion,
      or it changes nothing, or the copy under way is doomed already. Otherwise the migration brings
      the scanned value back, or a crash before the save does. */
  lemma PutStaysIffAtRest(s: State, m: Db, k: Bytes, v: Bytes)
    requires Inv(s, m)
    ensures WellFormed(Apply(s, ClientPut(k, v)))
    ensures StaysAs(Apply(s, ClientPut(k, v)), k, Some(v))
       <==> !InMotion(s, k) || Lookup(m, k) == Some(v) || Doomed(s)
  {
    hide TableOk, NodeOf, Holds, RangeList, Run;
    var put := ClientPut(k, v);
    StepKeepsWellFormed(s, put);
    assert Read(s, k) == Lookup(m, k);
    if !InMotion(s, k) || Lookup(m, k) == Some(v) || Doomed(s) {
      AssumedStays(s, m, put, k);
    } else if s.phase.Copying? {
      var ops, last := PutDuringCopyIsLost(s, m, k, v);
      assert Read(last, k) != Some(v);
    } else {
      PutBeforeSaveIsLostByCrash(s, m, k, v);
      var s' := Apply(s, put);
      RunOne(s', Crash);
      assert LeavesAlone([Crash], k) && Read(Apply(s', Crash), k) != Some(v);
    }
  }

  /** A client delete stays in effect, from any point of any run, if and only if no other node has a
      leftover copy of the key and no pair of it is still to be sent: the code deletes at the owner
      only, and moving the tablet onto a leftover brings the deleted value back. */
  lemma DeleteStaysIffNoLeftover(s: State, m: Db, k: Bytes)
    requires Inv(s, m)
    ensures WellFormed(Apply(s, ClientDelete(k)))
    ensures StaysAs(Apply(s, ClientDelete(k)), k, None)
       <==> (forall n :: !LeftoverAt(s, n, k)) && !AwaitsCopy(s, k)
  {
    hide TableOk, NodeOf, Holds, RangeList, Run, CopyOk;
    StepKeepsWellFormed(s, ClientDelete(k));
    var s' := Apply(s, ClientDelete(k));
    if exists n :: LeftoverAt(s, n, k) {
      var n :| LeftoverAt(s, n, k);
      RunNone(s');
      var ops, last := CopyComesBack(s', [], s', n, k);
    } else if AwaitsCopy(s, k) {
      var ops, last := PendingPairComesBack(s, m, k);
    } else {
      AssumedStays(s, m, ClientDelete(k), k);
    }
  }

  lemma RunNone(s: State)
    ensures Run(s, [], s)
  {}

  /** A deleted key whose pair is still to be sent comes back at the destination. */
  lemma PendingPairComesBack(s: State, m: Db, k: Bytes) returns (ops: seq<Op>, last: State)
    requires Inv(s, m) && AwaitsCopy(s, k)
    ensures WellFormed(Apply(s, ClientDelete(k)))
    ensures Run(Apply(s, ClientDelete(k)), ops, last) && LeavesAlone(ops, k)
    ensures WellFormed(last) && Read(last, k) != None
  {
    hide TableOk, NodeOf, Holds, RangeList, Run;
    StepKeepsWellFormed(s, ClientDelete(k));
    var s', p := Apply(s, ClientDelete(k)), s.phase;
    var j :| p.done <= j < |p.pairs| && p.pairs[j].0 == k;
    var mid := CopyToEnd(s');
    assert p.pairs[p.done..][j - p.done].0 == k;
    WrittenHas(s'.stores[p.dst], p.pairs[p.done..], k);
    CopiesOnly(|p.pairs| - p.done);
    ops, last := CopyComesBack(s', Copies(|p.pairs| - p.done), mid, p.dst, k);
  }

  /** Once a run reaches a copy of k on any node, it can go on so that k reads as present. */
  lemma CopyComesBack(s: State, ops: seq<Op>, mid: State, n: nat, k: Bytes) returns (more: seq<Op>, last: State)
    requires WellFormed(s) && Run(s, ops, mid) && WellFormed(mid) && n in mid.stores && k in mid.stores[n]
    requires LeavesAlone(ops, k)
    ensures Run(s, more, last) && LeavesAlone(more, k) && WellFormed(last) && Read(last, k) != None
  {
    hide TableOk, NodeOf, Holds, RangeList, Run, StaysAs;
    StepKeepsWellFormed(mid, Crash);
    RunOne(mid, Crash);
    last := Apply(mid, Crash);
    RunAppend(s, ops, mid, [Crash], last);
    more := ops + [Crash];
    if Read(last, k) == None {
      var rest, end := LeftoverComesBack(last, n, k);
      RunAppend(s, more, last, rest, end);
      more, last := more + rest, end;
    }
  }

  /** Migrating a tablet onto a node with a stray copy of an absent key makes the stray copy current. */
  lemma LeftoverComesBack(s: State, n: nat, k: Bytes) returns (ops: seq<Op>, last: State)
    requires WellFormed(s) && s.phase.Idle? && LeftoverAt(s, n, k) && Read(s, k) == None
    ensures Run(s, ops, last) && LeavesAlone(ops, k) && WellFormed(last)
    ensures Read(last, k) == Some(s.stores[n][k])
  {
    hide Partition, DistinctIds, NodeOf, RangeList;
    var i := OwnerIndex(s.mem.tablets, k);
    OwnerIs(s.mem.tablets, k, i);
    var t := s.mem.tablets[i];
    var ps := ScanOf(s, i);
    var scan := Scan(i, n, |ps|);
    assert ps[..|ps|] == ps;
    RunOne(s, scan);
    StepKeepsWellFormed(s, scan);
    var mid := Apply(s, scan);
    var rest;
    rest, last := CopyThenFlip(mid);
    ops := [scan] + rest;
    RunAppend(s, [scan], mid, rest, last);
    assert ps[0..] == ps;
    PairsDistinct(s.stores[t.node], t.start, t.end);
    RangeListEntries(s.stores[t.node], t.start, t.end);
    WrittenAt(s.stores[n], ps, k);
    assert forall j :: 0 <= j < |ps| ==> ps[j].0 != k;
  }

  /** A client put into a range under copy with nothing lost so far is undone by the migration that
      then succeeds: the key reads as it did at the scan. */
  lemma PutDuringCopyIsLost(s: State, m: Db, k: Bytes, v: Bytes) returns (ops: seq<Op>, last: State)
    requires Inv(s, m) && s.phase.Copying? && s.phase.transferred == s.phase.done
    requires Holds(s.mem.tablets[s.phase.idx], k)
    ensures Enabled(s, ClientPut(k, v)) && WellFormed(Apply(s, ClientPut(k, v)))
    ensures Run(Apply(s, ClientPut(k, v)), ops, last) && LeavesAlone(ops, k) && WellFormed(last)
    ensures Read(last, k) == Lookup(m, k)
  {
    hide Partition, DistinctIds, NodeOf, RangeList, InRange;
    var p := s.phase;
    var t := s.mem.tablets[p.idx];
    StepKeepsWellFormed(s, ClientPut(k, v));
    var s' := Apply(s, ClientPut(k, v));
    OwnerIs(s.mem.tablets, k, p.idx);
    assert s'.stores[p.dst] == s.stores[p.dst];
    ops, last := CopyThenFlip(s');
    RestOfCopyReadsAsScanned(s, m, k);
  }

  lemma RestOfCopyReadsAsScanned(s: State, m: Db, k: Bytes)
    requires Inv(s, m) && s.phase.Copying? && s.phase.transferred == s.phase.done
    requires Holds(s.mem.tablets[s.phase.idx], k)
    ensures Lookup(Written(s.stores[s.phase.dst], s.phase.pairs[s.phase.done..]), k) == Lookup(m, k)
  {
    hide Partition, DistinctIds, NodeOf, RangeList, InRange, Written;
    var p := s.phase;
    OwnerIs(s.mem.tablets, k, p.idx);
    assert Read(s, k) == Lookup(m, k);
    var rest := p.pairs[p.done..];
    assert forall j :: 0 <= j < |rest| ==> rest[j] == p.pairs[p.done + j];
    WrittenAt(s.stores[p.dst], rest, k);
    if AwaitsCopy(s, k) {
      var j :| p.done <= j < |p.pairs| && p.pairs[j].0 == k;
      assert rest[j - p.done].0 == k;
    }
  }

  /** A client put into a re-routed range before the table is saved is undone by a crash. */
  lemma PutBeforeSaveIsLostByCrash(s: State, m: Db, k: Bytes, v: Bytes)
    requires Inv(s, m) && s.phase.Flipped? && Holds(s.phase.t, k)
    ensures WellFormed(Apply(s, ClientPut(k, v)))
    ensures Read(Apply(s, ClientPut(k, v)), k) == Some(v)
    ensures Read(Apply(Apply(s, ClientPut(k, v)), Crash), k) == Lookup(m, k)
  {
    hide Partition, DistinctIds, NodeOf, Holds;
    StepKeepsWellFormed(s, ClientPut(k, v));
    var s' := Apply(s, ClientPut(k, v));
    StepKeepsWellFormed(s', Crash);
    assert ReadBy(s.disk.tablets, s.stores, k) == Lookup(m, k);
    assert NodeOf(s.disk.tablets, k) != NodeOf(s.mem.tablets, k) by { FileRoutesToSource(s, m, k); }
  }

  lemma FileRoutesToSource(s: State, m: Db, k: Bytes)
    requires Inv(s, m) && s.phase.Flipped? && Holds(s.phase.t, k)
    ensures NodeOf(s.disk.tablets, k) != NodeOf(s.mem.tablets, k)
  {}

  /** SaveTablets only prints when it cannot write, and its caller goes on. A lost save is harmless if
      and only if it was the save of a split: after a re-routing the next client put into the range,
      which the destination stores, is undone by a crash. */
  lemma LostSaveHarmlessIffSplit(s: State, m: Db)
    requires Inv(s, m) && Enabled(s, SaveLost)
    ensures WellFormed(Apply(s, SaveLost))
    ensures Refines(Apply(s, SaveLost), m) <==> s.phase.SplitUnsaved?
  {
    hide TableOk, NodeOf, Holds, Run;
    if s.phase.SplitUnsaved? {
      AssumedRefines(s, m, SaveLost);
    } else {
      var k := s.phase.t.start;
      var v: Bytes := if Lookup(m, k) == Some([]) then [0] else [];
      var ops, last := PutAfterLostSaveIsLost(s, m, k, v);
      assert Replay(m, ops) == m[k := v] by { ReplayPutCrash(m, k, v); }
      assert Read(last, k) != Lookup(Replay(m, ops), k);
    }
  }

  lemma ReplayPutCrash(m: Db, k: Bytes, v: Bytes)
    ensures Replay(m, [ClientPut(k, v), Crash]) == m[k := v]
  {
    assert [ClientPut(k, v), Crash][1..] == [Crash] && [Crash][1..] == [];
  }

  lemma PutAfterLostSaveIsLost(s: State, m: Db, k: Bytes, v: Bytes) returns (ops: seq<Op>, last: State)
    requires Inv(s, m) && s.phase.Flipped? && Holds(s.phase.t, k)
    ensures WellFormed(Apply(s, SaveLost)) && Run(Apply(s, SaveLost), ops, last) && WellFormed(last)
    ensures ops == [ClientPut(k, v), Crash] && Read(last, k) == Lookup(m, k)
  {
    hide Partition, DistinctIds, OwnersAmong, NodeOf, Holds, Run;
    var s1, put := Apply(s, SaveLost), ClientPut(k, v);
    StepKeepsWellFormed(s1, put);
    var s2 := Apply(s1, put);
    RunOne(s1, put);
    RunOne(s2, Crash);
    ops, last := [put] + [Crash], Apply(s2, Crash);
    RunAppend(s1, [put], s2, [Crash], last);
    FileRoutesToSource(s, m, k);
    assert ReadBy(s.disk.tablets, s.stores, k) == Lookup(m, k);
  }

  /** The state after the save of a re-routing was lost. */
  ghost function Unsaved(s: State): State
    requires s.phase.Flipped?
  {
    s.(phase := Deleting(s.phase.t, s.phase.dst))
  }

  ghost predicate SaveSkipped(s: State, next: State) {
    WellFormed(s) && Enabled(s, SaveLost) && next == Apply(s, SaveLost)
  }

  ghost predicate Restarted(s: State, next: State) {
    WellFormed(s) && Enabled(s, Crash) && next == Apply(s, Crash) && WellFormed(next)
  }

  /** The step from s to next deletes the whole moved range at its source. */
  ghost predicate RangeDeleted(s: State, next: State) {
    && s.phase.Deleting? && s.phase.t.node in s.stores && WellFormed(s)
    && var all := DeleteSource(KeysIn(s.stores[s.phase.t.node], s.phase.t.start, s.phase.t.end));
       Enabled(s, all) && next == Apply(s, all)
  }

  /** One way a lost save shows at once: the source is deleted and the master restarts before any client
      writes. Then every key is kept if and only if the moved range was empty. */
  lemma LostSaveThenRestartKeepsAllIffRangeEmpty(s: State, m: Db) returns (deleted: State, reloaded: State)
    requires Inv(s, m) && s.phase.Flipped? && s.phase.t.node in s.stores
    ensures SaveSkipped(s, Unsaved(s)) && RangeDeleted(Unsaved(s), deleted) && Restarted(deleted, reloaded)
    ensures (forall k :: Read(reloaded, k) == Lookup(m, k))
              <==> KeysIn(m, s.phase.t.start, s.phase.t.end) == {}
  {
    hide Partition, DistinctIds, NodeOf, InRange;
    var t := s.phase.t;
    var gone := KeysIn(s.stores[t.node], t.start, t.end);
    var s1 := Apply(s, SaveLost);
    StepKeepsWellFormed(s1, DeleteSource(gone));
    deleted := Apply(s1, DeleteSource(gone));
    reloaded := Apply(deleted, Crash);
    var s3 := reloaded;
    forall k
      ensures Read(s3, k) == if Holds(t, k) then None else Lookup(m, k)
    {
      assert ReadBy(s.disk.tablets, s.stores, k) == Lookup(m, k);
      if Holds(t, k) { FileRoutesToSource(s, m, k); }
    }
    forall k ensures k in KeysIn(m, t.start, t.end) <==> Holds(t, k) && Lookup(m, k) != None {}
    if KeysIn(m, t.start, t.end) != {} {
      var k :| k in KeysIn(m, t.start, t.end);
      assert Read(s3, k) != Lookup(m, k);
    } else {
      forall k ensures Read(s3, k) == Lookup(m, k) {
        assert k !in KeysIn(m, t.start, t.end);
      }
    }
  }

  /** The master may take a scan for complete that is not: a count of pairs that wraps, a late reply to
      another request. Reading only the first n pairs is harmless if and only if the destination has
      all the others already. */
  lemma ShortScanHarmlessIffNothingMissed(s: State, m: Db, idx: nat, dst: nat, n: nat)
    requires Inv(s, m) && Enabled(s, Scan(idx, dst, n))
    ensures WellFormed(Apply(s, Scan(idx, dst, n)))
    ensures Refines(Apply(s, Scan(idx, dst, n)), m) <==> NothingMissed(s, idx, dst, n)
  {
    hide TableOk, NodeOf, Holds, RangeList, Run, InRange;
    if NothingMissed(s, idx, dst, n) {
      AssumedRefines(s, m, Scan(idx, dst, n));
    } else {
      var ps := ScanOf(s, idx);
      var j :| n <= j < |ps| && Lookup(s.stores[dst], ps[j].0) != Some(ps[j].1);
      var ops, last := MissedPairIsLost(s, m, idx, dst, n, j);
      assert Read(last, ps[j].0) != Lookup(Replay(m, ops), ps[j].0);
    }
  }

  lemma MissedPairIsLost(s: State, m: Db, idx: nat, dst: nat, n: nat, j: nat) returns (ops: seq<Op>, last: State)
    requires Inv(s, m) && Enabled(s, Scan(idx, dst, n)) && n <= j < |ScanOf(s, idx)|
    ensures var k := ScanOf(s, idx)[j].0;
            && WellFormed(Apply(s, Scan(idx, dst, n))) && Run(Apply(s, Scan(idx, dst, n)), ops, last)
            && WellFormed(last) && Read(last, k) == Lookup(s.stores[dst], k)
            && Lookup(Replay(m, ops), k) == Lookup(m, k) == Some(ScanOf(s, idx)[j].1)
  {
    hide Partition, DistinctIds, NodeOf, RangeList, Run, InRange;
    var t, ps := s.mem.tablets[idx], ScanOf(s, idx);
    var k := ps[j].0;
    RangeListEntries(s.stores[t.node], t.start, t.end);
    PairsDistinct(s.stores[t.node], t.start, t.end);
    OwnerIs(s.mem.tablets, k, idx);
    assert Read(s, k) == Lookup(m, k);
    var mid := Apply(s, Scan(idx, dst, n));
    ops, last := CopyThenFlip(mid);
    var sent := ps[..n];
    assert sent[0..] == sent;
    WrittenAt(s.stores[dst], sent, k);
    assert LeavesAlone(ops, k);
    ReplayLeavesAlone(m, ops, k);
  }

  /** A table file that cannot be read makes the master start over with the initial table. Between
      migrations, and where keys are placed exactly, that is harmless if and only if the lost table
      routed every present key as the initial one does. */
  lemma UnreadableFileHarmlessIffRoutesInitial(s: State, m: Db, first: nat, second: nat)
    requires Inv(s, m) && Exact(s) && s.phase.Idle? && first in s.stores && second in s.stores
    ensures var initial := InitialTable(first, second);
            && TableOk(initial, s.stores.Keys)
            && (Refines(State(initial, initial, s.stores, Idle), m)
                <==> forall k :: k in m ==> NodeOf(initial.tablets, k) == NodeOf(s.mem.tablets, k))
  {
    hide Partition, DistinctIds, OwnersAmong, NodeOf, InitialTable, Run;
    InitialTableOk(first, second, s.stores.Keys);
    ShardsWhenSettled(s, m);
    var initial := InitialTable(first, second);
    var s' := State(initial, initial, s.stores, Idle);
    if forall k :: k in m ==> NodeOf(initial.tablets, k) == NodeOf(s.mem.tablets, k) {
      forall k ensures Read(s', k) == Lookup(m, k) {
        OwnerIsRunning(initial.tablets, s.stores, k);
        assert Lookup(s.stores[NodeOf(initial.tablets, k)], k) == Lookup(m, k);
      }
      InvRefines(s', m);
    } else {
      var k :| k in m && NodeOf(initial.tablets, k) != NodeOf(s.mem.tablets, k);
      OwnerIsRunning(initial.tablets, s.stores, k);
      RunNone(s');
      assert Replay(m, []) == m && Read(s', k) == None;
    }
  }

  lemma InvRefines(s: State, m: Db)
    requires Inv(s, m)
    ensures Refines(s, m)
  {
    hide TableOk, NodeOf, PhaseOk, Run;
    forall ops, last | Run(s, ops, last) && WellFormed(last)
      ensures forall k :: Read(last, k) == Lookup(Replay(m, ops), k)
    {
      Refinement(s, ops, last, m);
    }
  }

  // ---- remembered routes ----

  /** The state after a client puts k at node n, by whatever route it remembers. */
  ghost function PutAt(s: State, n: nat, k: Bytes, v: Bytes): State
    requires n in s.stores
  {
    s.(stores := s.stores[n := s.stores[n][k := v]])
  }

  lemma PutAtKeepsWellFormed(s: State, n: nat, k: Bytes, v: Bytes)
    requires WellFormed(s) && n in s.stores
    ensures WellFormed(PutAt(s, n, k, v))
    ensures Read(PutAt(s, n, k, v), k) == if n == NodeOf(s.mem.tablets, k) then Some(v) else Read(s, k)
  {
    hide Partition, DistinctIds, NodeOf;
    assert PutAt(s, n, k, v).stores.Keys == s.stores.Keys;
  }

  /** A copy of a present key on another node is harmless if it is current, or if it lies neither where
      the table file routes the key nor where the migration under way is about to. */
  ghost predicate HarmlessAt(s: State, m: Db, n: nat, k: Bytes, v: Bytes)
    requires WellFormed(s)
  {
    || Lookup(m, k) == Some(v)
    || (k in m && n != NodeOf(s.disk.tablets, k)
        && !(s.phase.Copying? && n == s.phase.dst && InMotion(s, k) && !AwaitsCopy(s, k) && !Doomed(s)))
  }

  lemma HarmlessKeepsInv(s: State, m: Db, n: nat, k: Bytes, v: Bytes)
    requires Inv(s, m) && n in s.stores && n != NodeOf(s.mem.tablets, k) && HarmlessAt(s, m, n, k, v)
    ensures WellFormed(PutAt(s, n, k, v)) && Inv(PutAt(s, n, k, v), m)
  {
    hide Partition, DistinctIds, NodeOf, InRange;
    PutAtKeepsWellFormed(s, n, k, v);
    var s' := PutAt(s, n, k, v);
    forall x
      ensures Read(s', x) == Lookup(m, x)
      ensures ReadBy(s'.disk.tablets, s'.stores, x) == Lookup(m, x)
    {
      assert Read(s, x) == Lookup(m, x) == ReadBy(s.disk.tablets, s.stores, x);
    }
    if s.phase.Copying? { HarmlessKeepsCopy(s, m, n, k, v); }
  }

  lemma HarmlessKeepsCopy(s: State, m: Db, n: nat, k: Bytes, v: Bytes)
    requires Inv(s, m) && s.phase.Copying? && n in s.stores
    requires n != NodeOf(s.mem.tablets, k) && HarmlessAt(s, m, n, k, v)
    ensures WellFormed(PutAt(s, n, k, v)) && CopyOk(PutAt(s, n, k, v))
  {
    hide Partition, DistinctIds, NodeOf, InRange;
    PutAtKeepsWellFormed(s, n, k, v);
    var s', p := PutAt(s, n, k, v), s.phase;
    var t := s.mem.tablets[p.idx];
    forall x | Holds(t, x) ensures Lookup(s'.stores[t.node], x) == Lookup(s.stores[t.node], x) == Lookup(m, x) {
      OwnerIs(s.mem.tablets, x, p.idx);
      assert Read(s, x) == Lookup(m, x);
    }
    if !Doomed(s) {
      forall x | Holds(t, x) && x in s'.stores[t.node] && !AwaitsCopy(s', x)
        ensures Lookup(s'.stores[p.dst], x) == Lookup(s'.stores[t.node], x)
      {
        assert !AwaitsCopy(s, x);
      }
    }
  }

  /** A put that a client sends by a remembered route takes effect, and stays in effect until the next
      client write of the key, if and only if the plain map has that value already, or the route is
      still current and the put is one that stays. */
  lemma PutAtStaysIff(s: State, m: Db, n: nat, k: Bytes, v: Bytes)
    requires Inv(s, m) && n in s.stores
    ensures WellFormed(PutAt(s, n, k, v))
    ensures StaysAs(PutAt(s, n, k, v), k, Some(v))
       <==> Lookup(m, k) == Some(v) || (n == NodeOf(s.mem.tablets, k) && (!InMotion(s, k) || Doomed(s)))
  {
    hide Partition, DistinctIds, OwnersAmong, NodeOf, Holds, Run, PhaseOk, AwaitsCopy;
    PutAtKeepsWellFormed(s, n, k, v);
    assert Read(s, k) == Lookup(m, k);
    var s' := PutAt(s, n, k, v);
    if n == NodeOf(s.mem.tablets, k) {
      assert s' == Apply(s, ClientPut(k, v));
      PutStaysIffAtRest(s, m, k, v);
    } else if Lookup(m, k) == Some(v) {
      HarmlessKeepsInv(s, m, n, k, v);
      InvStays(s', m, k);
    } else {
      RunNone(s');
      assert LeavesAlone([], k);
    }
  }

  /** Likewise a delete. */
  lemma DeleteAtStaysIff(s: State, m: Db, n: nat, k: Bytes)
    requires Inv(s, m) && n in s.stores
    ensures var s' := s.(stores := s.stores[n := s.stores[n] - {k}]);
            && WellFormed(s')
            && (StaysAs(s', k, None)
                <==> k !in m || (n == NodeOf(s.mem.tablets, k)
                                 && (forall x :: !LeftoverAt(s, x, k)) && !AwaitsCopy(s, k)))
  {
    hide Partition, DistinctIds, OwnersAmong, NodeOf, Holds, Run, PhaseOk, AwaitsCopy;
    var s' := s.(stores := s.stores[n := s.stores[n] - {k}]);
    assert s'.stores.Keys == s.stores.Keys;
    assert Read(s, k) == Lookup(m, k);
    if k !in m {
      SameDelete(s.stores, n, k);
      InvStays(s, m, k);
    } else if n == NodeOf(s.mem.tablets, k) {
      assert s' == Apply(s, ClientDelete(k));
      DeleteStaysIffNoLeftover(s, m, k);
    } else {
      RunNone(s');
      assert LeavesAlone([], k) && Read(s', k) != None;
    }
  }

  lemma InvStays(s: State, m: Db, k: Bytes)
    requires Inv(s, m)
    ensures StaysAs(s, k, Lookup(m, k))
  {
    hide TableOk, NodeOf, PhaseOk, LeavesAlone, Run;
    forall ops, last | Run(s, ops, last) && LeavesAlone(ops, k) && WellFormed(last)
      ensures Read(last, k) == Lookup(m, k)
    {
      Refinement(s, ops, last, m);
      ReplayLeavesAlone(m, ops, k);
    }
  }

  /** A put sent by a route that is no longer current, unseen at first, stays unseen until the next
      client write of the key if and only if its copy is harmless. Otherwise it surfaces later with no
      client doing anything: a crash or the migration under way reads it, or, of an absent key, some
      later migration does. */
  lemma StalePutStaysUnseenIffHarmless(s: State, m: Db, n: nat, k: Bytes, v: Bytes)
    requires Inv(s, m) && n in s.stores && n != NodeOf(s.mem.tablets, k)
    ensures WellFormed(PutAt(s, n, k, v)) && Read(PutAt(s, n, k, v), k) == Lookup(m, k)
    ensures StaysAs(PutAt(s, n, k, v), k, Lookup(m, k)) <==> HarmlessAt(s, m, n, k, v)
  {
    hide Partition, DistinctIds, OwnersAmong, NodeOf, Holds, Run, CopyOk;
    PutAtKeepsWellFormed(s, n, k, v);
    assert Read(s, k) == Lookup(m, k);
    var s' := PutAt(s, n, k, v);
    if HarmlessAt(s, m, n, k, v) {
      HarmlessKeepsInv(s, m, n, k, v);
      InvStays(s', m, k);
    } else if k !in m {
      RunNone(s');
      var ops, last := CopyComesBack(s', [], s', n, k);
    } else if n == NodeOf(s.disk.tablets, k) {
      StepKeepsWellFormed(s', Crash);
      RunOne(s', Crash);
      assert LeavesAlone([Crash], k) && Read(Apply(s', Crash), k) == Some(v);
    } else {
      var ops, last := CopiedStalePutSurfaces(s, m, n, k, v);
      assert Read(last, k) == Some(v);
    }
  }

  lemma CopiedStalePutSurfaces(s: State, m: Db, n: nat, k: Bytes, v: Bytes) returns (ops: seq<Op>, last: State)
    requires Inv(s, m) && s.phase.Copying? && n == s.phase.dst && n in s.stores
    requires InMotion(s, k) && !AwaitsCopy(s, k) && !Doomed(s)
    ensures WellFormed(PutAt(s, n, k, v)) && Run(PutAt(s, n, k, v), ops, last)
    ensures LeavesAlone(ops, k) && WellFormed(last) && Read(last, k) == Some(v)
  {
    hide Partition, DistinctIds, NodeOf, Holds, Run;
    PutAtKeepsWellFormed(s, n, k, v);
    var s', p := PutAt(s, n, k, v), s.phase;
    ops, last := CopyThenFlip(s');
    var rest := p.pairs[p.done..];
    forall j | 0 <= j < |rest| ensures rest[j] == p.pairs[p.done + j] && rest[j].0 != k {}
    WrittenAt(s'.stores[n], rest, k);
  }

  /** The node has a current copy: it owns the key, or a migration under way copied the key to it or
      has not saved the route away from it. */
  ghost predicate HasCurrent(s: State, n: nat, k: Bytes)
    requires WellFormed(s)
  {
    || n == NodeOf(s.mem.tablets, k)
    || (s.phase.Copying? && n == s.phase.dst && InMotion(s, k) && !AwaitsCopy(s, k))
    || (s.phase.Flipped? && n == s.phase.t.node && Holds(s.phase.t, k))
  }

  /** Where keys are placed exactly, and up to the deletion at the source, no node has an outdated copy:
      a get sent by a remembered route answers the current value or nothing at all, and is right if
      and only if the node has a current copy or the key is absent. */
  lemma StaleGetNeverOutdated(s: State, m: Db, n: nat, k: Bytes)
    requires Inv(s, m) && Exact(s) && n in s.stores && !s.phase.Deleting? && !Doomed(s)
    ensures Lookup(s.stores[n], k) == if HasCurrent(s, n, k) then Lookup(m, k) else None
    ensures Lookup(s.stores[n], k) == Lookup(m, k) <==> HasCurrent(s, n, k) || Lookup(m, k) == None
  {
    hide Partition, DistinctIds, NodeOf, InRange;
    assert Read(s, k) == Lookup(m, k) == ReadBy(s.disk.tablets, s.stores, k);
    if k in s.stores[n] && n != NodeOf(s.mem.tablets, k) {
      assert LeftoverAt(s, n, k);
      assert InTransit(s, n, k);
    }
    if s.phase.Copying? && InMotion(s, k) { OwnerIs(s.mem.tablets, k, s.phase.idx); }
  }

  /** Client operations and the save, which is all that can happen between re-routing and deletion. */
  predicate BeforeDeletion(ops: seq<Op>) {
    forall op :: op in ops ==> op.ClientPut? || op.ClientGet? || op.ClientDelete? || op.Save?
  }

  lemma {:induction false} SourceKeepsOldValue(s: State, ops: seq<Op>, last: State, m: Db, k: Bytes)
    requires Inv(s, m) && Run(s, ops, last) && BeforeDeletion(ops)
    requires (s.phase.Flipped? || s.phase.Deleting?) && s.phase.t.node in s.stores && Holds(s.phase.t, k)
    ensures (last.phase.Flipped? || last.phase.Deleting?) && last.phase.t == s.phase.t
    ensures s.phase.t.node in last.stores
    ensures Lookup(last.stores[s.phase.t.node], k) == Lookup(s.stores[s.phase.t.node], k)
    decreases |ops|
  {
    hide Partition, DistinctIds, OwnersAmong, NodeOf, Holds, InRange, ScanOf, CopyOk;
    if ops != [] {
      var s' := Apply(s, ops[0]);
      StepKeepsInv(s, ops[0], m);
      StepKeepsWellFormed(s, ops[0]);
      assert ops[0] in ops && forall op :: op in ops[1..] ==> op in ops;
      assert NodeOf(s.mem.tablets, k) == s.phase.dst != s.phase.t.node;
      SourceKeepsOldValue(s', ops[1..], last, Effect(m, ops[0]), k);
    }
  }

  /** From the re-routing to the deletion, a get sent to the source answers what the key held at the
      re-routing, so it is right if and only if no client has changed the key since. */
  lemma StaleGetAnswersOldValue(s: State, ops: seq<Op>, last: State, m: Db, k: Bytes)
    requires Inv(s, m) && Run(s, ops, last) && BeforeDeletion(ops) && s.phase.Flipped? && Holds(s.phase.t, k)
    ensures s.phase.t.node in last.stores && Lookup(last.stores[s.phase.t.node], k) == Lookup(m, k)
    ensures WellFormed(last)
    ensures Lookup(last.stores[s.phase.t.node], k) == Read(last, k)
       <==> Lookup(Replay(m, ops), k) == Lookup(m, k)
  {
    hide Partition, DistinctIds, OwnersAmong, NodeOf, Holds, Run, InRange;
    OwnerIsRunning(s.disk.tablets, s.stores, k);
    assert ReadBy(s.disk.tablets, s.stores, k) == Lookup(m, k);
    SourceKeepsOldValue(s, ops, last, m, k);
    Refinement(s, ops, last, m);
  }
}
