/** The tablet protocol as a state machine: one master with an in-memory table and a table file, the
    ordered map of every data node, and the progress of the one split or migration under way.
    Every atomic effect is an operation, and an operation carries whatever the environment decides
    (a reply lost, a delete cut short), so that applying an operation is a function.
    The main theorem is that every run refines one plain map. */
module Protocol {
  import opened ByteStrings
  import opened Storage
  import opened Tablets

  datatype Phase =
    | Idle
      // a split is in the in-memory table but not in the file
    | SplitUnsaved
      // pairs were read from the owner of tablet idx; done were sent to dst, transferred answered
    | Copying(idx: nat, dst: nat, pairs: seq<(Bytes, Bytes)>, done: nat, transferred: nat)
      // the in-memory table routes t to dst, the file still to t.node
    | Flipped(t: Tablet, dst: nat)
      // the save is over, the old copies on t.node are not deleted yet
    | Deleting(t: Tablet, dst: nat)

  datatype State = State(mem: Table, disk: Table, stores: map<nat, Db>, phase: Phase)

  datatype Op =
    | ClientPut(key: Bytes, value: Bytes)
    | ClientGet(key: Bytes, answer: Option<Bytes>)
    | ClientDelete(key: Bytes)
    | RecordCount(idx: nat, n: nat)
    | Split(idx: nat, mid: Bytes, n: nat)
    | Scan(idx: nat, dst: nat, n: nat)
    | CopyOne(applied: bool, replied: bool)
    | GiveUp
    | Flip
    | Save
    | SaveLost
    | DeleteSource(removed: set<Bytes>)
    | Crash

  /** Both tables are partitions among the running data nodes. */
  ghost predicate WellFormed(s: State) {
    TableOk(s.mem, s.stores.Keys) && TableOk(s.disk, s.stores.Keys)
  }

  /** What a client that routes by table ts reads at k. */
  ghost function ReadBy(ts: seq<Tablet>, stores: map<nat, Db>, k: Bytes): Option<Bytes>
    requires Partition(ts) && OwnersAmong(ts, stores.Keys)
  {
    Lookup(stores[NodeOf(ts, k)], k)
  }

  ghost function Read(s: State, k: Bytes): Option<Bytes>
    requires WellFormed(s)
  {
    ReadBy(s.mem.tablets, s.stores, k)
  }

  /** The pairs a scan of a tablet finds at its owner. */
  ghost function ScanOf(s: State, idx: nat): seq<(Bytes, Bytes)>
    requires WellFormed(s) && idx < |s.mem.tablets|
  {
    var t := s.mem.tablets[idx];
    RangeList(s.stores[t.node], t.start, t.end)
  }

  /** The destination has every pair past the first n already. */
  ghost predicate NothingMissed(s: State, idx: nat, dst: nat, n: nat)
    requires WellFormed(s) && idx < |s.mem.tablets| && dst in s.stores
  {
    var ps := ScanOf(s, idx);
    forall j :: n <= j < |ps| ==> Lookup(s.stores[dst], ps[j].0) == Some(ps[j].1)
  }

  /** An answer is missing already, so the copy under way cannot end in a re-routing. */
  ghost predicate Doomed(s: State) {
    s.phase.Copying? && s.phase.transferred < s.phase.done
  }

  /** The control flow of the code: which operation can come next. */
  ghost predicate Enabled(s: State, op: Op)
    requires WellFormed(s)
  {
    match op
    case ClientPut(_, _) => true
    case ClientGet(k, answer) => answer == Read(s, k)
    case ClientDelete(_) => true
    case RecordCount(idx, _) => s.phase.Idle? && idx < |s.mem.tablets|
    case Split(idx, mid, _) =>
      s.phase.Idle? && idx < |s.mem.tablets| && SplitGuard(s.mem.tablets[idx], mid)
    case Scan(idx, dst, n) =>
      // the master may take a scan for complete that is not
      && s.phase.Idle? && idx < |s.mem.tablets| && dst in s.stores && s.mem.tablets[idx].node != dst
      && n <= |ScanOf(s, idx)|
    case CopyOne(applied, replied) =>
      // a reply means the pair is stored, or comes late for a pair whose answer is missing
      && s.phase.Copying? && s.phase.done < |s.phase.pairs| && s.phase.dst in s.stores
      && (replied ==> applied || Doomed(s))
    case GiveUp => s.phase.Copying? && !(s.phase.done == s.phase.transferred == |s.phase.pairs|)
    case Flip =>
      && s.phase.Copying? && s.phase.done == |s.phase.pairs| && s.phase.transferred == |s.phase.pairs|
      && s.phase.idx < |s.mem.tablets| && s.phase.dst in s.stores
    case Save => s.phase.SplitUnsaved? || s.phase.Flipped?
    case SaveLost => s.phase.SplitUnsaved? || s.phase.Flipped?
    case DeleteSource(removed) =>
      && s.phase.Deleting? && s.phase.t.node in s.stores
      && removed <= KeysIn(s.stores[s.phase.t.node], s.phase.t.start, s.phase.t.end)
    case Crash => true
  }

  function AfterSave(p: Phase): Phase {
    if p.Flipped? then Deleting(p.t, p.dst) else Idle
  }

  ghost function Apply(s: State, op: Op): State
    requires WellFormed(s) && Enabled(s, op)
  {
    match op
    case ClientPut(k, v) =>
      var n := NodeOf(s.mem.tablets, k);
      s.(stores := s.stores[n := s.stores[n][k := v]])
    case ClientGet(_, _) => s
    case ClientDelete(k) =>
      var n := NodeOf(s.mem.tablets, k);
      s.(stores := s.stores[n := s.stores[n] - {k}])
    case RecordCount(idx, n) => s.(mem := s.mem.(tablets := WithCount(s.mem.tablets, idx, n)))
    case Split(idx, mid, n) => s.(mem := SplitAt(s.mem, idx, mid, n), phase := SplitUnsaved)
    case Scan(idx, dst, n) => s.(phase := Copying(idx, dst, ScanOf(s, idx)[..n], 0, 0))
    case CopyOne(applied, replied) =>
      var (k, v) := s.phase.pairs[s.phase.done];
      s.(stores := if applied then s.stores[s.phase.dst := s.stores[s.phase.dst][k := v]] else s.stores,
         phase := s.phase.(done := s.phase.done + 1,
                           transferred := s.phase.transferred + if replied then 1 else 0))
    case GiveUp => s.(phase := Idle)
    case Flip =>
      s.(mem := s.mem.(tablets := WithNode(s.mem.tablets, s.phase.idx, s.phase.dst), epoch := s.mem.epoch + 1),
         phase := Flipped(s.mem.tablets[s.phase.idx], s.phase.dst))
    case Save => s.(disk := s.mem, phase := AfterSave(s.phase))
    case SaveLost => s.(phase := AfterSave(s.phase))
    case DeleteSource(removed) =>
      var n := s.phase.t.node;
      s.(stores := s.stores[n := s.stores[n] - removed], phase := Idle)
    case Crash => s.(mem := s.disk, phase := Idle)
  }

  /** The key lies in the range being moved, and the move is not yet in the table file. */
  ghost predicate InMotion(s: State, k: Bytes) {
    || (s.phase.Copying? && s.phase.idx < |s.mem.tablets| && Holds(s.mem.tablets[s.phase.idx], k))
    || (s.phase.Flipped? && Holds(s.phase.t, k))
  }

  /** Some node that does not own k still has a copy of it. */
  ghost predicate LeftoverAt(s: State, n: nat, k: Bytes)
    requires WellFormed(s)
  {
    n in s.stores && k in s.stores[n] && n != NodeOf(s.mem.tablets, k)
  }

  /** The key was scanned and its pair is still to be sent. */
  ghost predicate AwaitsCopy(s: State, k: Bytes) {
    s.phase.Copying? && exists j :: s.phase.done <= j < |s.phase.pairs| && s.phase.pairs[j].0 == k
  }

  /** What the code relies on without enforcing it: no client put that changes a key of a range in
      motion unless the copy is doomed, no client delete of a key with a leftover copy or with a pair
      still to be sent, no scan that misses a pair, no lost save of a re-routing. */
  ghost predicate Assumed(s: State, op: Op)
    requires WellFormed(s)
  {
    match op
    case ClientPut(k, v) => !InMotion(s, k) || Read(s, k) == Some(v) || Doomed(s)
    case ClientDelete(k) => (forall n :: !LeftoverAt(s, n, k)) && !AwaitsCopy(s, k)
    case Scan(idx, dst, n) => idx < |s.mem.tablets| && dst in s.stores && NothingMissed(s, idx, dst, n)
    case SaveLost => !s.phase.Flipped?
    case _ => true
  }

  // ---- the plain map that clients should see ----

  function Effect(m: Db, op: Op): Db {
    match op
    case ClientPut(k, v) => m[k := v]
    case ClientDelete(k) => m - {k}
    case _ => m
  }

  function Replay(m: Db, ops: seq<Op>): Db
    decreases |ops|
  {
    if ops == [] then m else Replay(Effect(m, ops[0]), ops[1..])
  }

  /** Every get in ops answers what the plain map holds at that point. */
  predicate AnswersFrom(m: Db, ops: seq<Op>)
    decreases |ops|
  {
    ops == []
    || ((ops[0].ClientGet? ==> ops[0].answer == Lookup(m, ops[0].key))
        && AnswersFrom(Effect(m, ops[0]), ops[1..]))
  }

  ghost predicate Run(s: State, ops: seq<Op>, last: State)
    decreases |ops|
  {
    if ops == [] then last == s
    else WellFormed(s) && Enabled(s, ops[0]) && Assumed(s, ops[0]) && Run(Apply(s, ops[0]), ops[1..], last)
  }

  // ---- the inductive invariant ----

  /** The pairs still to be sent belong to present keys of the range. While no answer is missing they
      are current, and the destination has every other pair of the range. */
  ghost predicate CopyOk(s: State)
    requires WellFormed(s) && s.phase.Copying?
  {
    var p := s.phase;
    && p.idx < |s.mem.tablets| && p.dst in s.stores && p.transferred <= p.done <= |p.pairs|
    && (forall i, j :: 0 <= i < j < |p.pairs| ==> p.pairs[i].0 != p.pairs[j].0)
    && var t := s.mem.tablets[p.idx];
    && t.node != p.dst
    && (forall j :: p.done <= j < |p.pairs| ==> Holds(t, p.pairs[j].0) && p.pairs[j].0 in s.stores[t.node])
    && (p.transferred == p.done ==>
          && (forall j :: p.done <= j < |p.pairs| ==> Lookup(s.stores[t.node], p.pairs[j].0) == Some(p.pairs[j].1))
          && forall k :: Holds(t, k) && k in s.stores[t.node] && !AwaitsCopy(s, k) ==>
               Lookup(s.stores[p.dst], k) == Lookup(s.stores[t.node], k))
  }

  /** How the in-memory table relates to the table file in each phase. */
  ghost predicate PhaseOk(s: State)
    requires WellFormed(s)
  {
    match s.phase
    case Idle => SameOwners(s.mem.tablets, s.disk.tablets)
    case SplitUnsaved => SameOwners(s.mem.tablets, s.disk.tablets)
    case Copying(_, _, _, _, _) => SameOwners(s.mem.tablets, s.disk.tablets) && CopyOk(s)
    case Flipped(t, dst) =>
      && t.node != dst && Holds(t, t.start)
      && (forall k :: NodeOf(s.mem.tablets, k) == if Holds(t, k) then dst else NodeOf(s.disk.tablets, k))
      && (forall k :: Holds(t, k) ==> NodeOf(s.disk.tablets, k) == t.node)
    case Deleting(t, dst) =>
      && t.node != dst && SameOwners(s.mem.tablets, s.disk.tablets)
      && forall k :: Holds(t, k) ==> NodeOf(s.mem.tablets, k) == dst
  }

  /** Routing by memory and routing by the file both read m, and no node holds a key m lacks;
      so every key stored anywhere is also stored, with its current value, at its owner. */
  ghost predicate Inv(s: State, m: Db) {
    && WellFormed(s)
    && (forall k :: Read(s, k) == Lookup(m, k))
    && (forall k :: ReadBy(s.disk.tablets, s.stores, k) == Lookup(m, k))
    && (forall n, k :: n in s.stores && k in s.stores[n] ==> k in m)
    && PhaseOk(s)
  }

  lemma StepKeepsWellFormed(s: State, op: Op)
    requires WellFormed(s) && Enabled(s, op)
    ensures WellFormed(Apply(s, op))
    ensures Apply(s, op).stores.Keys == s.stores.Keys
  {
    hide Partition, DistinctIds, NodeOf, SplitAt, Less, Holds;
    match op
    case ClientPut(k, v) => OwnerIsRunning(s.mem.tablets, s.stores, k);
    case ClientDelete(k) => OwnerIsRunning(s.mem.tablets, s.stores, k);
    case RecordCount(idx, n) => WithCountKeepsOwners(s.mem, idx, n, s.stores.Keys);
    case Split(idx, mid, n) => SplitTableOk(s.mem, idx, mid, n, s.stores.Keys);
    case Flip => WithNodeMovesRange(s.mem, s.phase.idx, s.phase.dst, s.stores.Keys);
    case _ =>
  }

  lemma OwnerIsRunning(ts: seq<Tablet>, stores: map<nat, Db>, k: Bytes)
    requires Partition(ts) && OwnersAmong(ts, stores.Keys)
    ensures NodeOf(ts, k) in stores
  {}

  lemma RangeListEntries(db: Db, start: Bytes, end: Bytes)
    ensures forall j :: 0 <= j < |RangeList(db, start, end)| ==>
              var p := RangeList(db, start, end)[j];
              InRange(p.0, start, end) && Lookup(db, p.0) == Some(p.1)
    ensures forall k :: k in db && InRange(k, start, end) ==>
              exists j :: 0 <= j < |RangeList(db, start, end)| && RangeList(db, start, end)[j].0 == k
  {
    hide InRange, SortedKeys;
    var ks, ps := RangeKeys(db, start, end), RangeList(db, start, end);
    assert forall j :: 0 <= j < |ps| ==> ks[j] in ks && ps[j].0 == ks[j];
    forall k | k in db && InRange(k, start, end) ensures exists j :: 0 <= j < |ps| && ps[j].0 == k {
      assert k in ks;
      var j :| 0 <= j < |ks| && ks[j] == k;
      assert ps[j].0 == k;
    }
  }

  /** A change that keeps every key still to be sent, and lies outside the moving range unless the copy
      is doomed, leaves the copy in progress intact. */
  lemma CopyFrame(s: State, stores: map<nat, Db>)
    requires WellFormed(s) && s.phase.Copying? && CopyOk(s) && stores.Keys == s.stores.Keys
    requires WellFormed(s.(stores := stores))
    requires Doomed(s) || forall n, k :: n in stores && Holds(s.mem.tablets[s.phase.idx], k) ==>
                            Lookup(stores[n], k) == Lookup(s.stores[n], k)
    requires forall n, k :: n in stores && k in s.stores[n] && AwaitsCopy(s, k) ==> k in stores[n]
    ensures CopyOk(s.(stores := stores))
  {
    hide Partition, DistinctIds, InRange, SortedKeys, RangeList;
    var p := s.phase;
    var t := s.mem.tablets[p.idx];
    assert t.node in s.stores;
    forall j | p.done <= j < |p.pairs| ensures p.pairs[j].0 in stores[t.node] {
      assert AwaitsCopy(s, p.pairs[j].0);
    }
    var s' := s.(stores := stores);
    if !Doomed(s) {
      forall k | Holds(t, k) && k in stores[t.node] && !AwaitsCopy(s', k)
        ensures Lookup(stores[p.dst], k) == Lookup(stores[t.node], k)
      {
        assert Lookup(stores[t.node], k) == Lookup(s.stores[t.node], k);
        assert !AwaitsCopy(s, k);
      }
    }
  }

  lemma PutKeepsInv(s: State, m: Db, key: Bytes, v: Bytes)
    requires Inv(s, m) && Assumed(s, ClientPut(key, v))
    ensures WellFormed(Apply(s, ClientPut(key, v)))
    ensures Inv(Apply(s, ClientPut(key, v)), m[key := v])
  {
    hide Partition, DistinctIds, NodeOf, Holds, RangeList;
    StepKeepsWellFormed(s, ClientPut(key, v));
    var s' := Apply(s, ClientPut(key, v));
    assert Read(s, key) == Lookup(m, key);
    if Read(s, key) == Some(v) {
      SamePut(s.stores, NodeOf(s.mem.tablets, key), key, v);
      assert m[key := v] == m;
      return;
    }
    assert NodeOf(s.mem.tablets, key) == NodeOf(s.disk.tablets, key);
    if s.phase.Copying? {
      assert CopyOk(s') by { CopyFrame(s, s'.stores); }
    }
    forall k
      ensures Read(s', k) == Lookup(m[key := v], k)
      ensures ReadBy(s'.disk.tablets, s'.stores, k) == Lookup(m[key := v], k)
    {
      assert Read(s, k) == Lookup(m, k) == ReadBy(s.disk.tablets, s.stores, k);
    }
  }

  lemma SamePut(stores: map<nat, Db>, n: nat, k: Bytes, v: Bytes)
    requires n in stores && Lookup(stores[n], k) == Some(v)
    ensures stores[n := stores[n][k := v]] == stores
  {
    assert stores[n][k := v] == stores[n];
  }

  lemma SameDelete(stores: map<nat, Db>, n: nat, k: Bytes)
    requires n in stores && k !in stores[n]
    ensures stores[n := stores[n] - {k}] == stores
  {
    assert stores[n] - {k} == stores[n];
  }

  lemma DeleteKeepsInv(s: State, m: Db, key: Bytes)
    requires Inv(s, m) && Assumed(s, ClientDelete(key))
    ensures WellFormed(Apply(s, ClientDelete(key)))
    ensures Inv(Apply(s, ClientDelete(key)), m - {key})
  {
    hide Partition, DistinctIds, NodeOf, Holds, RangeList;
    StepKeepsWellFormed(s, ClientDelete(key));
    var s' := Apply(s, ClientDelete(key));
    assert Read(s, key) == Lookup(m, key);
    if key !in m {
      SameDelete(s.stores, NodeOf(s.mem.tablets, key), key);
      assert m - {key} == m;
      return;
    }
    if InMotion(s, key) && !Doomed(s) { MovingKeyHasCopy(s, m, key); }
    assert NodeOf(s.mem.tablets, key) == NodeOf(s.disk.tablets, key);
    if s.phase.Copying? {
      assert CopyOk(s') by { CopyFrame(s, s'.stores); }
    }
    forall k
      ensures Read(s', k) == Lookup(m - {key}, k)
      ensures ReadBy(s'.disk.tablets, s'.stores, k) == Lookup(m - {key}, k)
    {
      assert Read(s, k) == Lookup(m, k) == ReadBy(s.disk.tablets, s.stores, k);
    }
    forall n, k | n in s'.stores && k in s'.stores[n] ensures k in m - {key} {
      assert !LeftoverAt(s, n, key);
    }
  }

  /** A present key of a range in motion has a second copy already or a pair still to be sent, unless
      the copy is doomed. */
  lemma MovingKeyHasCopy(s: State, m: Db, key: Bytes)
    requires Inv(s, m) && key in m && InMotion(s, key) && !Doomed(s)
    ensures AwaitsCopy(s, key) || exists n :: LeftoverAt(s, n, key)
  {
    hide Partition, DistinctIds, NodeOf, InRange, RangeList;
    assert Read(s, key) == Lookup(m, key) == ReadBy(s.disk.tablets, s.stores, key);
    if s.phase.Flipped? {
      OwnerIsRunning(s.disk.tablets, s.stores, key);
      assert LeftoverAt(s, s.phase.t.node, key);
    } else {
      var p := s.phase;
      var t := s.mem.tablets[p.idx];
      OwnerIs(s.mem.tablets, key, p.idx);
      if !AwaitsCopy(s, key) { assert LeftoverAt(s, p.dst, key); }
    }
  }

  /** Splits and recorded counts re-route nothing. */
  lemma SameOwnersKeepInv(s: State, m: Db, mem: Table, phase: Phase)
    requires Inv(s, m) && s.phase.Idle? && (phase.Idle? || phase.SplitUnsaved?)
    requires TableOk(mem, s.stores.Keys) && SameOwners(s.mem.tablets, mem.tablets)
    ensures Inv(s.(mem := mem, phase := phase), m)
  {
    hide Partition, DistinctIds, NodeOf;
    forall k ensures ReadBy(mem.tablets, s.stores, k) == Lookup(m, k)
      ensures NodeOf(mem.tablets, k) == NodeOf(s.disk.tablets, k)
    {
      assert Read(s, k) == Lookup(m, k);
      assert NodeOf(s.mem.tablets, k) == NodeOf(mem.tablets, k);
      assert NodeOf(s.mem.tablets, k) == NodeOf(s.disk.tablets, k);
    }
  }

  lemma CopyKeepsInv(s: State, m: Db, applied: bool, replied: bool)
    requires Inv(s, m) && Enabled(s, CopyOne(applied, replied))
    ensures WellFormed(Apply(s, CopyOne(applied, replied)))
    ensures Inv(Apply(s, CopyOne(applied, replied)), m)
  {
    hide Partition, DistinctIds, NodeOf, InRange, RangeList;
    var op := CopyOne(applied, replied);
    StepKeepsWellFormed(s, op);
    var s', p := Apply(s, op), s.phase;
    var t := s.mem.tablets[p.idx];
    var (key, v) := p.pairs[p.done];
    assert Holds(t, key) && key in s.stores[t.node];
    OwnerIs(s.mem.tablets, key, p.idx);
    assert Read(s, key) == Lookup(m, key);
    forall k
      ensures Read(s', k) == Lookup(m, k)
      ensures ReadBy(s'.disk.tablets, s'.stores, k) == Lookup(m, k)
    {
      assert Read(s, k) == Lookup(m, k) == ReadBy(s.disk.tablets, s.stores, k);
    }
    assert s'.stores[t.node] == s.stores[t.node];
    if p.transferred == p.done && replied {
      forall k | Holds(t, k) && k in s.stores[t.node] && !AwaitsCopy(s', k)
        ensures Lookup(s'.stores[p.dst], k) == Lookup(s.stores[t.node], k)
      {
        if k != key { StillAwaits(s, s', k); }
      }
    }
  }

  /** Sending a pair leaves the others waiting. */
  lemma StillAwaits(s: State, s': State, k: Bytes)
    requires s.phase.Copying? && s.phase.done < |s.phase.pairs| && k != s.phase.pairs[s.phase.done].0
    requires s'.phase.Copying? && s'.phase.pairs == s.phase.pairs && s'.phase.done == s.phase.done + 1
    ensures AwaitsCopy(s', k) <==> AwaitsCopy(s, k)
  {}

  lemma PairsDistinct(db: Db, start: Bytes, end: Bytes)
    ensures var ps := RangeList(db, start, end);
            forall i, j :: 0 <= i < j < |ps| ==> ps[i].0 != ps[j].0
  {
    LessIsStrictTotal();
  }

  lemma FlipKeepsInv(s: State, m: Db)
    requires Inv(s, m) && Enabled(s, Flip)
    ensures WellFormed(Apply(s, Flip))
    ensures Inv(Apply(s, Flip), m)
  {
    hide Partition, DistinctIds, NodeOf, InRange, RangeList;
    StepKeepsWellFormed(s, Flip);
    var s', p := Apply(s, Flip), s.phase;
    var t := s.mem.tablets[p.idx];
    HoldsStart(s.mem.tablets, p.idx);
    WithNodeMovesRange(s.mem, p.idx, p.dst, s.stores.Keys);
    forall k ensures Read(s', k) == Lookup(m, k) {
      assert Read(s, k) == Lookup(m, k);
      if Holds(t, k) {
        OwnerIs(s.mem.tablets, k, p.idx);
        assert !AwaitsCopy(s, k);
      }
    }
    forall k
      ensures NodeOf(s'.mem.tablets, k) == if Holds(t, k) then p.dst else NodeOf(s'.disk.tablets, k)
      ensures Holds(t, k) ==> NodeOf(s'.disk.tablets, k) == t.node
    {
      assert NodeOf(s.mem.tablets, k) == NodeOf(s.disk.tablets, k);
    }
  }

  lemma DeleteSourceKeepsInv(s: State, m: Db, removed: set<Bytes>)
    requires Inv(s, m) && Enabled(s, DeleteSource(removed))
    ensures WellFormed(Apply(s, DeleteSource(removed)))
    ensures Inv(Apply(s, DeleteSource(removed)), m)
  {
    hide Partition, DistinctIds, NodeOf, InRange;
    StepKeepsWellFormed(s, DeleteSource(removed));
    var s', t := Apply(s, DeleteSource(removed)), s.phase.t;
    forall k
      ensures Read(s', k) == Lookup(m, k)
      ensures ReadBy(s'.disk.tablets, s'.stores, k) == Lookup(m, k)
    {
      assert Read(s, k) == Lookup(m, k) == ReadBy(s.disk.tablets, s.stores, k);
      if k in removed { assert Holds(t, k); }
      assert NodeOf(s.mem.tablets, k) == NodeOf(s.disk.tablets, k);
    }
  }

  /** Every operation, at any point of any run, carries the invariant along with the plain map. */
  lemma StepKeepsInv(s: State, op: Op, m: Db)
    requires Inv(s, m) && Enabled(s, op) && Assumed(s, op)
    ensures WellFormed(Apply(s, op)) && Inv(Apply(s, op), Effect(m, op))
    ensures op.ClientGet? ==> op.answer == Lookup(m, op.key)
  {
    hide Partition, DistinctIds, NodeOf, InRange;
    match op
    case ClientPut(k, v) => PutKeepsInv(s, m, k, v);
    case ClientGet(k, _) => assert Read(s, k) == Lookup(m, k);
    case ClientDelete(k) => DeleteKeepsInv(s, m, k);
    case RecordCount(idx, n) =>
      WithCountKeepsOwners(s.mem, idx, n, s.stores.Keys);
      SameOwnersKeepInv(s, m, Apply(s, op).mem, Idle);
    case Split(idx, mid, n) =>
      SplitTableOk(s.mem, idx, mid, n, s.stores.Keys);
      SplitKeepsOwners(s.mem, idx, mid, n);
      SameOwnersKeepInv(s, m, Apply(s, op).mem, SplitUnsaved);
    case Scan(idx, dst, n) => ScanKeepsInv(s, m, idx, dst, n);
    case CopyOne(applied, replied) => CopyKeepsInv(s, m, applied, replied);
    case GiveUp =>
    case Flip => FlipKeepsInv(s, m);
    case Save => SaveKeepsInv(s, m);
    case SaveLost =>
    case DeleteSource(removed) => DeleteSourceKeepsInv(s, m, removed);
    case Crash =>
  }

  lemma ScanKeepsInv(s: State, m: Db, idx: nat, dst: nat, n: nat)
    requires Inv(s, m) && Enabled(s, Scan(idx, dst, n)) && Assumed(s, Scan(idx, dst, n))
    ensures WellFormed(Apply(s, Scan(idx, dst, n))) && Inv(Apply(s, Scan(idx, dst, n)), m)
  {
    hide Partition, DistinctIds, NodeOf, InRange, RangeList;
    var s', t, ps := Apply(s, Scan(idx, dst, n)), s.mem.tablets[idx], ScanOf(s, idx);
    RangeListEntries(s.stores[t.node], t.start, t.end);
    PairsDistinct(s.stores[t.node], t.start, t.end);
    forall k | Holds(t, k) && k in s.stores[t.node] && !AwaitsCopy(s', k)
      ensures Lookup(s.stores[dst], k) == Lookup(s.stores[t.node], k)
    {
      var j :| 0 <= j < |ps| && ps[j].0 == k;
      assert n <= j;
    }
  }

  lemma SaveKeepsInv(s: State, m: Db)
    requires Inv(s, m) && Enabled(s, Save)
    ensures WellFormed(Apply(s, Save)) && Inv(Apply(s, Save), m)
  {
    hide Partition, DistinctIds, NodeOf, InRange;
    var s' := Apply(s, Save);
    forall k ensures ReadBy(s'.disk.tablets, s'.stores, k) == Lookup(m, k) {
      assert Read(s, k) == Lookup(m, k);
    }
  }

  /** Main theorem: from any state that satisfies the invariant, whatever splits, migrations, lost
      replies, partial deletes and crashes a run contains, every get answers what one plain map
      would, and the store still reads as that map afterwards. */
  lemma {:induction false} Refinement(s: State, ops: seq<Op>, last: State, m: Db)
    requires Inv(s, m) && Run(s, ops, last)
    ensures AnswersFrom(m, ops)
    ensures Inv(last, Replay(m, ops))
    ensures forall k :: Read(last, k) == Lookup(Replay(m, ops), k)
    decreases |ops|
  {
    hide TableOk, NodeOf, PhaseOk;
    if ops != [] {
      StepKeepsInv(s, ops[0], m);
      Refinement(Apply(s, ops[0]), ops[1..], last, Effect(m, ops[0]));
    }
  }

  // ---- the same without the plain map ----

  predicate Writes(op: Op, k: Bytes) {
    (op.ClientPut? && op.key == k) || (op.ClientDelete? && op.key == k)
  }

  /** What a client write leaves at its key. */
  function LeftBy(op: Op): Option<Bytes> {
    if op.ClientPut? then Some(op.value) else None
  }

  /** ops[i] is the last write of k before position n. */
  ghost predicate LastWrite(ops: seq<Op>, k: Bytes, i: nat, n: nat)
    requires n <= |ops|
  {
    i < n && Writes(ops[i], k) && forall j :: i < j < n ==> !Writes(ops[j], k)
  }

  /** The plain map at the end of ops holds what the last write left, or what it held before. */
  lemma {:induction false} ReplayIsLastWrite(m: Db, ops: seq<Op>, k: Bytes)
    ensures (forall j :: 0 <= j < |ops| ==> !Writes(ops[j], k)) ==> Lookup(Replay(m, ops), k) == Lookup(m, k)
    ensures forall i: nat :: LastWrite(ops, k, i, |ops|) ==> Lookup(Replay(m, ops), k) == LeftBy(ops[i])
    decreases |ops|
  {
    if ops != [] {
      var rest := ops[1..];
      assert forall j :: 0 <= j < |rest| ==> rest[j] == ops[j + 1];
      ReplayIsLastWrite(Effect(m, ops[0]), rest, k);
      forall i: nat | LastWrite(ops, k, i, |ops|) ensures Lookup(Replay(m, ops), k) == LeftBy(ops[i]) {
        if i > 0 {
          assert LastWrite(rest, k, i - 1, |rest|);
        } else {
          assert forall j :: 0 <= j < |rest| ==> !Writes(rest[j], k);
        }
      }
    }
  }

  lemma {:induction false} AnswerAt(m: Db, ops: seq<Op>, i: nat)
    requires AnswersFrom(m, ops) && i < |ops| && ops[i].ClientGet?
    ensures ops[i].answer == Lookup(Replay(m, ops[..i]), ops[i].key)
    decreases |ops|
  {
    if i > 0 {
      AnswerAt(Effect(m, ops[0]), ops[1..], i - 1);
      assert ops[..i][1..] == ops[1..][..i - 1];
    }
  }

  /** What clients see, from the operations alone: over every run, each get answers the value of the last
      put of its key before it, nothing if that write is a delete, and what the store read at the start
      if there is none. */
  lemma GetsAnswerLastWrite(s: State, ops: seq<Op>, last: State, m: Db, i: nat)
    requires Inv(s, m) && Run(s, ops, last) && i < |ops| && ops[i].ClientGet?
    ensures WellFormed(s)
    ensures (forall j :: 0 <= j < i ==> !Writes(ops[j], ops[i].key)) ==> ops[i].answer == Read(s, ops[i].key)
    ensures forall j: nat :: LastWrite(ops, ops[i].key, j, i) ==> ops[i].answer == LeftBy(ops[j])
  {
    hide TableOk, NodeOf, PhaseOk, Run, Replay;
    var k, before := ops[i].key, ops[..i];
    Refinement(s, ops, last, m);
    AnswerAt(m, ops, i);
    ReplayIsLastWrite(m, before, k);
    assert forall j :: 0 <= j < i ==> before[j] == ops[j];
    assert Read(s, k) == Lookup(m, k);
    forall j: nat | LastWrite(ops, k, j, i) ensures ops[i].answer == LeftBy(ops[j]) {
      assert LastWrite(before, k, j, |before|);
    }
  }
}
