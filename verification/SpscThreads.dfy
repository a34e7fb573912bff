/** The ring buffer under two threads, one atomic action at a time. Each side knows its own counter;
    what it loads of the other side's counter may be out of date, though never older than what it
    loaded before. Bytes are stored and copied one by one, in any interleaving. */
module SpscThreads {
  import opened ByteStrings
  import opened BitMath
  import opened SpscQueue

  /** seen is the number of consumed bytes the producer last learned of. */
  datatype Producer =
    | Free(seen: nat)
    | Writing(seen: nat, off: nat, len: nat)

  /** seen is the number of committed bytes the consumer last learned of; of the n readable bytes at
      off it has copied some into its own memory. */
  datatype Consumer =
    | Resting(seen: nat)
    | Reading(seen: nat, off: nat, n: nat, copied: Bytes)

  /** The shared words and buffer, the two threads, and the streams committed and consumed so far. */
  datatype System = System(capacity: nat, writePos: nat, readPos: nat, buffer: Bytes,
                           producer: Producer, consumer: Consumer, sent: Bytes, got: Bytes)

  datatype Action =
      // prepare_write(len), loading the consumer's counter as it was after loaded bytes; a request
      // for no bytes loads nothing
    | Prepare(len: nat, loaded: nat)
      // store one byte of the reserved region
    | Store(i: nat, b: byte)
      // commit_write(n)
    | Commit(n: nat)
      // peek and readable_bytes, loading the producer's counter as it was after loaded bytes
    | Look(loaded: nat)
      // copy the next readable byte
    | Copy
      // consume(n)
    | Consume(n: nat)

  ghost predicate Enabled(s: System, a: Action) {
    match a
    case Prepare(len, loaded) =>
      s.capacity > 0 && s.producer.Free? && len < WORD && s.producer.seen <= loaded <= |s.got|
    case Store(i, _) => s.producer.Writing? && i < s.producer.len && s.producer.off + i < |s.buffer|
    case Commit(n) => s.producer.Writing? && n <= s.producer.len && s.producer.off + n <= |s.buffer|
    case Look(loaded) => s.capacity > 0 && s.consumer.Resting? && s.consumer.seen <= loaded <= |s.sent|
    case Copy =>
      && s.consumer.Reading? && |s.consumer.copied| < s.consumer.n
      && s.consumer.off + |s.consumer.copied| < |s.buffer|
    case Consume(n) => s.consumer.Reading? && n <= |s.consumer.copied|
  }

  function Apply(s: System, a: Action): System
    requires Enabled(s, a)
  {
    match a
    case Prepare(len, loaded) =>
      var answer := PrepareWords(s.capacity, s.writePos, loaded % WORD, len);
      var seen := if len == 0 then s.producer.seen else loaded;
      s.(producer := if answer.Some? then Writing(seen, answer.value, len) else Free(seen))
    case Store(i, b) => s.(buffer := s.buffer[s.producer.off + i := b])
    case Commit(n) =>
      s.(writePos := Add(s.writePos, n),
         sent := s.sent + s.buffer[s.producer.off..s.producer.off + n],
         producer := Free(s.producer.seen))
    case Look(loaded) =>
      var n := ReadableWords(s.capacity, s.readPos, loaded % WORD);
      s.(consumer := Reading(loaded, BitAnd(s.readPos, s.capacity - 1), n, []))
    case Copy =>
      var c := s.consumer;
      s.(consumer := c.(copied := c.copied + [s.buffer[c.off + |c.copied|]]))
    case Consume(n) =>
      s.(readPos := Add(s.readPos, n), got := s.got + s.consumer.copied[..n], consumer := Resting(s.consumer.seen))
  }

  ghost predicate Run(s: System, actions: seq<Action>, last: System)
    decreases |actions|
  {
    if actions == [] then last == s
    else Enabled(s, actions[0]) && Run(Apply(s, actions[0]), actions[1..], last)
  }

  function Fresh(k: nat): System {
    System(Pow2(k), 0, 0, seq(Pow2(k), _ => 0), Free(0), Resting(0), [], [])
  }

  /** Capacity, counters and stale knowledge fit together. */
  ghost predicate Counters(s: System) {
    && (exists k: nat :: k <= 63 && s.capacity == Pow2(k)) && |s.buffer| == s.capacity
    && s.writePos == |s.sent| % WORD && s.readPos == |s.got| % WORD
    && s.producer.seen <= |s.got| <= s.consumer.seen <= |s.sent|
    && |s.sent| <= s.producer.seen + s.capacity - 1
  }

  /** A reservation starts where the stream ends and keeps clear of what the producer knows unread. */
  ghost predicate ProducerOk(s: System)
    requires s.capacity > 0
  {
    s.producer.Writing? ==>
      && s.producer.off == Offset(|s.sent|, s.capacity)
      && s.producer.off + s.producer.len <= s.capacity
      && |s.sent| + s.producer.len <= s.producer.seen + s.capacity - 1
  }

  /** What the consumer has copied so far are the next bytes of the stream. */
  ghost predicate ConsumerOk(s: System)
    requires s.capacity > 0 && |s.got| <= |s.sent|
  {
    var c := s.consumer;
    c.Reading? ==>
      && c.off == Offset(|s.got|, s.capacity) && c.off + c.n <= s.capacity
      && |s.got| + c.n <= c.seen && |c.copied| <= c.n && |s.got| + |c.copied| <= |s.sent|
      && c.copied == s.sent[|s.got|..|s.got| + |c.copied|]
  }

  ghost predicate Inv(s: System) {
    && Counters(s) && ProducerOk(s) && ConsumerOk(s)
    && s.got <= s.sent
    && forall i :: |s.got| <= i < |s.sent| ==> s.buffer[Offset(i, s.capacity)] == s.sent[i]
  }

  lemma PrepareKeepsInv(s: System, len: nat, loaded: nat)
    requires Inv(s) && Enabled(s, Prepare(len, loaded))
    ensures Inv(Apply(s, Prepare(len, loaded)))
  {
    hide Pow2, Offset, PrepareWords;
    var k: nat :| k <= 63 && s.capacity == Pow2(k);
    PrepareMeaning(k, |s.sent|, loaded, len);
  }

  lemma StoreKeepsInv(s: System, i: nat, b: byte)
    requires Inv(s) && Enabled(s, Store(i, b))
    ensures Inv(Apply(s, Store(i, b)))
  {
    hide Pow2, Offset;
    RegionIsFree(|s.got|, |s.sent|, s.capacity, s.producer.len);
  }

  lemma CommitKeepsInv(s: System, n: nat)
    requires Inv(s) && Enabled(s, Commit(n))
    ensures Inv(Apply(s, Commit(n)))
  {
    hide Pow2, Offset;
    WrappedSum(|s.sent|, n);
    var off := s.producer.off;
    forall i | |s.sent| <= i < |s.sent| + n ensures Offset(i, s.capacity) == off + (i - |s.sent|) {
      OffsetsRun(|s.sent|, i - |s.sent|, s.capacity);
    }
  }

  lemma LookKeepsInv(s: System, loaded: nat)
    requires Inv(s) && Enabled(s, Look(loaded))
    ensures Inv(Apply(s, Look(loaded)))
  {
    hide Pow2, Offset, ReadableWords;
    var k: nat :| k <= 63 && s.capacity == Pow2(k);
    ReadableMeaning(k, |s.got|, loaded);
    MaskedOffset(|s.got|, k);
  }

  lemma CopyKeepsInv(s: System)
    requires Inv(s) && Enabled(s, Copy)
    ensures Inv(Apply(s, Copy))
  {
    hide Pow2, Offset;
    var c := s.consumer;
    OffsetsRun(|s.got|, |c.copied|, s.capacity);
  }

  lemma ConsumeKeepsInv(s: System, n: nat)
    requires Inv(s) && Enabled(s, Consume(n))
    ensures Inv(Apply(s, Consume(n)))
  {
    hide Pow2, Offset;
    WrappedSum(|s.got|, n);
    assert s.sent[..|s.got|] + s.sent[|s.got|..|s.got| + n] == s.sent[..|s.got| + n];
  }

  lemma StepKeepsInv(s: System, a: Action)
    requires Inv(s) && Enabled(s, a)
    ensures Inv(Apply(s, a))
    ensures s.sent <= Apply(s, a).sent && s.got <= Apply(s, a).got
  {
    match a
    case Prepare(len, loaded) => PrepareKeepsInv(s, len, loaded);
    case Store(i, b) => StoreKeepsInv(s, i, b);
    case Commit(n) => CommitKeepsInv(s, n);
    case Look(loaded) => LookKeepsInv(s, loaded);
    case Copy => CopyKeepsInv(s);
    case Consume(n) => ConsumeKeepsInv(s, n);
  }

  lemma FreshInv(k: nat)
    requires k <= 63
    ensures Inv(Fresh(k))
  {
    hide Pow2;
    assert Fresh(k).capacity == Pow2(k);
  }

  lemma {:induction false} RunKeepsInv(s: System, actions: seq<Action>, last: System)
    requires Inv(s) && Run(s, actions, last)
    ensures Inv(last)
    decreases |actions|
  {
    if actions != [] {
      StepKeepsInv(s, actions[0]);
      RunKeepsInv(Apply(s, actions[0]), actions[1..], last);
    }
  }

  /** Safety of every interleaving, with stale loads and wrapped counters: what was read out of the
      buffer and consumed is a prefix of what was committed, in order; at most capacity - 1 bytes are
      in use; and no byte of a reserved region is one of the bytes not consumed yet. */
  lemma SafeUnderEveryInterleaving(k: nat, actions: seq<Action>, last: System)
    requires k <= 63 && Run(Fresh(k), actions, last)
    ensures last.got <= last.sent
    ensures |last.sent| - |last.got| <= Pow2(k) - 1
    ensures last.capacity == Pow2(k)
    ensures last.producer.Writing? ==>
              forall i :: |last.got| <= i < |last.sent| ==>
                !(last.producer.off <= Offset(i, Pow2(k)) < last.producer.off + last.producer.len)
    ensures Sub(last.writePos, last.readPos) == |last.sent| - |last.got|
    ensures BitAnd(last.writePos, Pow2(k) - 1) == Offset(|last.sent|, Pow2(k))
    ensures BitAnd(last.readPos, Pow2(k) - 1) == Offset(|last.got|, Pow2(k))
  {
    hide Pow2, Offset, BitAnd, Run;
    FreshInv(k);
    RunKeepsInv(Fresh(k), actions, last);
    CapacityFixed(Fresh(k), actions, last);
    WordIsPow2();
    Pow2Monotone(k, 63);
    WrappedDifference(|last.sent|, |last.got|);
    MaskedOffset(|last.sent|, k);
    MaskedOffset(|last.got|, k);
    if last.producer.Writing? && last.producer.len > 0 {
      RegionIsFree(|last.got|, |last.sent|, Pow2(k), last.producer.len);
    }
  }

  lemma {:induction false} CapacityFixed(s: System, actions: seq<Action>, last: System)
    requires Run(s, actions, last)
    ensures last.capacity == s.capacity
    decreases |actions|
  {
    if actions != [] { CapacityFixed(Apply(s, actions[0]), actions[1..], last); }
  }

  // ---- what the queue carries, from the actions alone ----

  /** The bytes that commits publish: for each, the bytes last stored since the reservation, from the
      first on. stored holds what was stored so far. */
  function Committed(actions: seq<Action>, stored: map<nat, byte>): Bytes
    decreases |actions|
  {
    if actions == [] then []
    else match actions[0]
      case Prepare(_, _) => Committed(actions[1..], map[])
      case Store(i, b) => Committed(actions[1..], stored[i := b])
      case Commit(n) => seq(n, i => if i in stored then stored[i] else 0) + Committed(actions[1..], map[])
      case Look(_) => Committed(actions[1..], stored)
      case Copy => Committed(actions[1..], stored)
      case Consume(_) => Committed(actions[1..], stored)
  }

  /** Every byte that a commit publishes was stored since the reservation. */
  predicate Diligent(actions: seq<Action>, stored: map<nat, byte>)
    decreases |actions|
  {
    if actions == [] then true
    else match actions[0]
      case Prepare(_, _) => Diligent(actions[1..], map[])
      case Store(i, b) => Diligent(actions[1..], stored[i := b])
      case Commit(n) => (forall i :: 0 <= i < n ==> i in stored) && Diligent(actions[1..], map[])
      case Look(_) => Diligent(actions[1..], stored)
      case Copy => Diligent(actions[1..], stored)
      case Consume(_) => Diligent(actions[1..], stored)
  }

  /** How many bytes the consumer has given back. */
  function Consumed(actions: seq<Action>): nat {
    if actions == [] then 0
    else (if actions[0].Consume? then actions[0].n else 0) + Consumed(actions[1..])
  }

  /** The buffer holds what the producer stored since its reservation. */
  ghost predicate Holding(s: System, stored: map<nat, byte>) {
    s.producer.Writing? ==>
      forall i :: i in stored ==> s.producer.off + i < |s.buffer| && s.buffer[s.producer.off + i] == stored[i]
  }

  /** What is stored after one more action. */
  function StoredAfter(stored: map<nat, byte>, a: Action): map<nat, byte> {
    match a
    case Prepare(_, _) => map[]
    case Store(i, b) => stored[i := b]
    case Commit(_) => map[]
    case Look(_) => stored
    case Copy => stored
    case Consume(_) => stored
  }

  lemma StepKeepsHolding(s: System, a: Action, stored: map<nat, byte>)
    requires Enabled(s, a) && Holding(s, stored)
    ensures Holding(Apply(s, a), StoredAfter(stored, a))
    ensures (a.Commit? ==> forall i :: 0 <= i < a.n ==> i in stored) ==>
              Apply(s, a).sent == s.sent + Published(a, stored)
    ensures |Apply(s, a).got| == |s.got| + if a.Consume? then a.n else 0
  {}

  /** What one action publishes. */
  function Published(a: Action, stored: map<nat, byte>): Bytes {
    if a.Commit? then seq(a.n, i => if i in stored then stored[i] else 0) else []
  }

  lemma CommittedStep(actions: seq<Action>, stored: map<nat, byte>)
    requires actions != []
    ensures Committed(actions, stored)
            == Published(actions[0], stored) + Committed(actions[1..], StoredAfter(stored, actions[0]))
    ensures Diligent(actions, stored) ==> Diligent(actions[1..], StoredAfter(stored, actions[0]))
    ensures Diligent(actions, stored) && actions[0].Commit? ==> forall i :: 0 <= i < actions[0].n ==> i in stored
  {}

  lemma {:induction false} StreamIsCommitted(s: System, actions: seq<Action>, last: System, stored: map<nat, byte>)
    requires Run(s, actions, last) && Diligent(actions, stored) && Holding(s, stored)
    ensures last.sent == s.sent + Committed(actions, stored)
    ensures |last.got| == |s.got| + Consumed(actions)
    decreases |actions|
  {
    hide Apply, Enabled, Holding, Diligent, StoredAfter, Published;
    if actions == [] {
      assert s.sent + [] == s.sent;
    } else {
      hide Committed;
      CommittedStep(actions, stored);
      StepKeepsHolding(s, actions[0], stored);
      StreamIsCommitted(Apply(s, actions[0]), actions[1..], last, StoredAfter(stored, actions[0]));
      Joined(s.sent, Published(actions[0], stored), Committed(actions[1..], StoredAfter(stored, actions[0])));
    }
  }

  lemma Joined(a: Bytes, b: Bytes, c: Bytes)
    ensures a + b + c == a + (b + c)
  {}

  /** Under every interleaving of a producer that stores what it commits: the stream sent is, from the
      actions alone, what was stored and committed, and what the consumer has taken are the first bytes
      of it, as many as it has given back. */
  lemma ConsumerGetsWhatWasStored(k: nat, actions: seq<Action>, last: System)
    requires k <= 63 && Run(Fresh(k), actions, last) && Diligent(actions, map[])
    ensures last.sent == Committed(actions, map[])
    ensures Consumed(actions) <= |Committed(actions, map[])|
    ensures last.got == Committed(actions, map[])[..Consumed(actions)]
  {
    hide Pow2, Run, Committed, Consumed, Diligent;
    SafeUnderEveryInterleaving(k, actions, last);
    StreamIsCommitted(Fresh(k), actions, last, map[]);
    assert [] + Committed(actions, map[]) == Committed(actions, map[]);
  }

  /** In terms of unbounded counters, what each action does: a reservation is granted exactly if it
      leaves a byte free, by the count loaded, and fits the tail; a look finds the unread bytes it
      learned of, up to the end of the buffer; a copy takes the next byte of the stream; a commit
      appends, a consume removes. */
  ghost predicate DoneRight(s: System, a: Action, s': System)
    requires Inv(s) && Enabled(s, a)
  {
    var tail, head := Offset(|s.sent|, s.capacity), Offset(|s.got|, s.capacity);
    match a
    case Prepare(len, loaded) =>
      && (s'.producer.Writing?
          <==> len == 0 || (|s.sent| + len <= loaded + s.capacity - 1 && tail + len <= s.capacity))
      && (s'.producer.Writing? ==> s'.producer.off == tail && s'.producer.len == len)
      && s'.buffer == s.buffer
    case Store(i, b) => s'.producer == s.producer && tail + i < |s.buffer| && s'.buffer == s.buffer[tail + i := b]
    case Commit(n) =>
      && tail + n <= |s.buffer| && s'.sent == s.sent + s.buffer[tail..tail + n]
      && s'.writePos == (s.writePos + n) % WORD && s'.producer.Free? && s'.buffer == s.buffer
    case Look(loaded) =>
      loaded >= |s.got| && s'.consumer == Reading(loaded, head, Min(loaded - |s.got|, s.capacity - head), [])
    case Copy =>
      var taken := s.consumer.copied;
      |s.got| + |taken| < |s.sent| && s'.consumer == s.consumer.(copied := taken + [s.sent[|s.got| + |taken|]])
    case Consume(n) =>
      && |s.got| + n <= |s.sent| && s'.got == s.sent[..|s.got| + n]
      && s'.readPos == (s.readPos + n) % WORD && s'.consumer.Resting?
  }

  lemma ActionsDoneRight(s: System, a: Action)
    requires Inv(s) && Enabled(s, a)
    ensures DoneRight(s, a, Apply(s, a))
  {
    hide Pow2, Offset, PrepareWords, ReadableWords, Inv;
    match a
    case Prepare(_, _) => PrepareDoneRight(s, a);
    case Look(_) => LookDoneRight(s, a);
    case Copy => CopyDoneRight(s);
    case Consume(_) => ConsumeDoneRight(s, a);
    case Store(_, _) => WriteDoneRight(s, a);
    case Commit(_) => WriteDoneRight(s, a);
  }

  lemma PrepareDoneRight(s: System, a: Action)
    requires Inv(s) && Enabled(s, a) && a.Prepare?
    ensures DoneRight(s, a, Apply(s, a))
  {
    hide Pow2, Offset, PrepareWords;
    var k: nat :| k <= 63 && s.capacity == Pow2(k);
    PrepareMeaning(k, |s.sent|, a.loaded, a.len);
  }

  lemma LookDoneRight(s: System, a: Action)
    requires Inv(s) && Enabled(s, a) && a.Look?
    ensures DoneRight(s, a, Apply(s, a))
  {
    hide Pow2, Offset, ReadableWords;
    var k: nat :| k <= 63 && s.capacity == Pow2(k);
    ReadableMeaning(k, |s.got|, a.loaded);
    MaskedOffset(|s.got|, k);
  }

  lemma CopyDoneRight(s: System)
    requires Inv(s) && Enabled(s, Copy)
    ensures DoneRight(s, Copy, Apply(s, Copy))
  {
    hide Pow2, Offset;
    OffsetsRun(|s.got|, |s.consumer.copied|, s.capacity);
  }

  lemma ConsumeDoneRight(s: System, a: Action)
    requires Inv(s) && Enabled(s, a) && a.Consume?
    ensures DoneRight(s, a, Apply(s, a))
  {
    hide Pow2, Offset;
    assert s.sent[..|s.got|] + s.sent[|s.got|..|s.got| + a.n] == s.sent[..|s.got| + a.n];
  }

  lemma WriteDoneRight(s: System, a: Action)
    requires Inv(s) && Enabled(s, a) && (a.Store? || a.Commit?)
    ensures DoneRight(s, a, Apply(s, a))
  {
    hide Pow2, Offset;
  }
}
