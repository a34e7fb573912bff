/** The request handlers of a data node: payload in, effect on the store and reply payload out, with
    the readings the master and the client make of the replies. */
module DataNode {
  import opened ByteStrings
  import opened Storage
  import opened Wire
  import opened ScanCodec

  // ---- parsing of request payloads ----

  /** Put and delete: opcode, key length, value length, key, value. */
  function ParseKeyValue(p: Bytes): Option<(Bytes, Bytes)> {
    if |p| < 7 then None
    else
      var kl, vl := U16(p, 1), U32(p, 3);
      if |p| < 7 + kl + vl then None else Some((p[7..7 + kl], p[7 + kl..7 + kl + vl]))
  }

  /** Statistics, scan and range delete: opcode, then both bounds with their lengths. */
  function ParseRange(p: Bytes): Option<(Bytes, Bytes)> {
    if |p| < 5 then None
    else
      var sl := U16(p, 1);
      if |p| < 5 + sl then None
      else
        var el := U16(p, 3 + sl);
        if |p| < 5 + sl + el then None else Some((p[3..3 + sl], p[5 + sl..5 + sl + el]))
  }

  /** A request's key and value survive the trip if and only if their lengths fit the length fields. */
  lemma KeyValueSurvivesIffFits(op: byte, key: Bytes, value: Bytes)
    ensures ParseKeyValue(KeyValuePayload(op, key, value)) == Some((key, value))
       <==> |key| < LIM16 && |value| < LIM32
  {
    hide BE16, BE32, U16, U32;
    var p := KeyValuePayload(op, key, value);
    var kl, vl := |key| % LIM16, |value| % LIM32;
    assert p[1..3] == BE16(kl) && p[3..7] == BE32(vl);
    U16Is(p, 1, kl);
    U32Is(p, 3, vl);
    assert p[7..] == key + value;
    if |key| < LIM16 && |value| < LIM32 {
      assert p[7..7 + kl] == p[7..][..kl] == key;
      assert p[7 + kl..7 + kl + vl] == p[7..][kl..kl + vl] == value;
    }
  }

  /** So do the bounds of a range request. */
  lemma RangeSurvivesIffFits(op: byte, start: Bytes, end: Bytes)
    ensures ParseRange(RangePayload(op, start, end)) == Some((start, end))
       <==> |start| < LIM16 && |end| < LIM16
  {
    hide BE16, U16;
    var p := RangePayload(op, start, end);
    var sl, el := |start| % LIM16, |end| % LIM16;
    assert p[1..3] == BE16(sl);
    U16Is(p, 1, sl);
    if |start| < LIM16 {
      RangeParts(op, start, end);
      hide RangePayload;
      U16Is(p, 3 + sl, el);
      if |end| < LIM16 { assert p[5 + sl..5 + sl + el] == p[5 + sl..]; }
    }
  }

  lemma RangeParts(op: byte, start: Bytes, end: Bytes)
    requires |start| < LIM16
    ensures var p, sl := RangePayload(op, start, end), |start|;
            && |p| == 5 + sl + |end|
            && p[3..3 + sl] == start && p[3 + sl..5 + sl] == BE16(|end| % LIM16) && p[5 + sl..] == end
  {
    hide BE16;
    var p, sl, rest := RangePayload(op, start, end), |start|, BE16(|end| % LIM16) + end;
    assert p[3..] == start + rest;
    assert p[3..3 + sl] == p[3..][..sl] && p[3 + sl..] == p[3..][sl..] == rest;
    assert p[3 + sl..5 + sl] == rest[..2] && p[5 + sl..] == rest[2..];
  }

  // ---- what a request does ----

  function Median(db: Db, start: Bytes, end: Bytes): Bytes {
    var n := |KeysIn(db, start, end)|;
    if n == 0 then [] else RangeKeys(db, start, end)[n / 2]
  }

  function StatsReply(count: nat, median: Bytes): Bytes {
    [ST_OK] + BE32(count % LIM32) + BE16(|median| % LIM16) + median
  }

  /** The new contents of the store and what is sent back, or no defined result: the source reads past
      the end of the request. */
  datatype Served = Done(db: Db, reply: Bytes) | Undefined

  function Serve(db: Db, p: Bytes): Served {
    if p == [] then Done(db, [ST_BAD_REQUEST])
    else if p[0] == OP_PUT then ServePut(db, p)
    else if p[0] == OP_GET then ServeGet(db, p)
    else if p[0] == OP_DELETE then ServeDelete(db, p)
    else if p[0] == OP_TABLET_STATS then Done(db, ServeStats(db, p))
    else if p[0] == OP_SCAN_RANGE then Done(db, ServeScan(db, p))
    else if p[0] == OP_DELETE_RANGE then ServeDeleteRange(db, p)
    else Done(db, [ST_BAD_REQUEST])
  }

  /** The sum of the lengths is taken in 32 bits, so a huge value length slips through the check. */
  predicate PutOverruns(p: Bytes) {
    |p| >= 7 && (7 + U16(p, 1) + U32(p, 3)) % LIM32 <= |p| < 7 + U16(p, 1) + U32(p, 3)
  }

  /** A get does not check the length of its key. */
  predicate GetOverruns(p: Bytes) {
    |p| >= 7 && U32(p, 3) == 0 && |p| < 7 + U16(p, 1)
  }

  function ServePut(db: Db, p: Bytes): Served {
    match ParseKeyValue(p)
    case None => if PutOverruns(p) then Undefined else Done(db, [ST_BAD_REQUEST])
    case Some((k, v)) => Done(db[k := v], [ST_OK])
  }

  /** A get may not carry a value. */
  function ServeGet(db: Db, p: Bytes): Served {
    if GetOverruns(p) then Undefined
    else if |p| < 7 || U32(p, 3) != 0 then Done(db, [ST_BAD_REQUEST])
    else match Lookup(db, p[7..7 + U16(p, 1)])
      case None => Done(db, [ST_NOT_FOUND])
      case Some(v) => Done(db, [ST_OK] + v)
  }

  function ServeDelete(db: Db, p: Bytes): Served {
    if |p| < 7 || U32(p, 3) != 0 || |p| < 7 + U16(p, 1) then Done(db, [ST_BAD_REQUEST])
    else Done(db - {p[7..7 + U16(p, 1)]}, [ST_OK])
  }

  function ServeStats(db: Db, p: Bytes): Bytes {
    match ParseRange(p)
    case None => [ST_BAD_REQUEST]
    case Some((s, e)) => StatsReply(|KeysIn(db, s, e)|, Median(db, s, e))
  }

  function ServeScan(db: Db, p: Bytes): Bytes {
    match ParseRange(p)
    case None => [ST_BAD_REQUEST]
    case Some((s, e)) => [ST_OK] + ScanBody(RangeList(db, s, e))
  }

  function ServeDeleteRange(db: Db, p: Bytes): Served {
    match ParseRange(p)
    case None => Done(db, [ST_BAD_REQUEST])
    case Some((s, e)) => Done(db - KeysIn(db, s, e), [ST_OK])
  }

  /** No payload with key and value as the encoders write it is without a result, whatever the sizes. */
  lemma EncodedRequestsAreDefined(db: Db, op: byte, key: Bytes, value: Bytes)
    ensures Serve(db, KeyValuePayload(op, key, value)).Done?
  {
    hide BE16, BE32, U16, U32, ParseRange, ScanBody, RangeList, KeysIn, RangeKeys;
    var p := KeyValuePayload(op, key, value);
    assert p[1..3] == BE16(|key| % LIM16) && p[3..7] == BE32(|value| % LIM32);
    U16Is(p, 1, |key| % LIM16);
    U32Is(p, 3, |value| % LIM32);
    assert |key| % LIM16 <= |key| && |value| % LIM32 <= |value|;
  }

  /** A request is without a result exactly if it is a put or a get that overruns; each does for some
      payload. */
  lemma UndefinedIffOverruns(db: Db, p: Bytes)
    ensures Serve(db, p).Undefined?
       <==> p != [] && ((p[0] == OP_PUT && PutOverruns(p)) || (p[0] == OP_GET && GetOverruns(p)))
    ensures GetOverruns([OP_GET, 0, 1, 0, 0, 0, 0])
    ensures PutOverruns([OP_PUT, 0, 0, 255, 255, 255, 249])
  {
    hide ScanBody, RangeList, KeysIn, RangeKeys;
  }

  // ---- the same by the bytes of the payload ----

  /** The 16-bit number at a position, by weights. */
  function Num16(p: Bytes, at: nat): nat
    requires at + 2 <= |p|
  {
    256 * p[at] as int + p[at + 1] as int
  }

  function Num32(p: Bytes, at: nat): nat
    requires at + 4 <= |p|
  {
    16777216 * p[at] as int + 65536 * p[at + 1] as int + 256 * p[at + 2] as int + p[at + 3] as int
  }

  lemma NumsAreFields(p: Bytes, at: nat)
    ensures at + 2 <= |p| ==> U16(p, at) == Num16(p, at)
    ensures at + 4 <= |p| ==> U32(p, at) == Num32(p, at)
  {
    hide BE16, BE32, U16, U32;
    if at + 2 <= |p| { Weights16(p, at, 0); }
    if at + 4 <= |p| { Weights32(p, at, 0); }
  }

  /** Opcode 3, a put: status 0 and the pair is stored, status 3 if the payload is too short. */
  lemma PutByBytes(db: Db, p: Bytes)
    requires p != [] && p[0] == 3
    ensures |p| < 7 ==> Serve(db, p) == Done(db, [3])
    ensures |p| >= 7 ==>
              var kl, vl := Num16(p, 1), Num32(p, 3);
              && (|p| >= 7 + kl + vl ==> Serve(db, p) == Done(db[p[7..7 + kl] := p[7 + kl..7 + kl + vl]], [0]))
              && (|p| < 7 + kl + vl < 4294967296 ==> Serve(db, p) == Done(db, [3]))
  {
    hide U16, U32, Num16, Num32;
    NumsAreFields(p, 1);
    NumsAreFields(p, 3);
  }

  /** Opcode 2, a get: status 0 and the value, 1 if there is none, 3 for a payload that carries a value. */
  lemma GetByBytes(db: Db, p: Bytes)
    requires p != [] && p[0] == 2
    ensures |p| < 7 ==> Serve(db, p) == Done(db, [3])
    ensures |p| >= 7 ==>
              var kl, vl := Num16(p, 1), Num32(p, 3);
              && (vl != 0 ==> Serve(db, p) == Done(db, [3]))
              && (vl == 0 && |p| >= 7 + kl ==>
                    var k := p[7..7 + kl]; Serve(db, p) == Done(db, if k in db then [0] + db[k] else [1]))
  {
    hide U16, U32, Num16, Num32;
    NumsAreFields(p, 1);
    NumsAreFields(p, 3);
  }

  /** Opcode 4, a delete: status 0 and the key is gone, 3 for a value or a payload that is too short. */
  lemma DeleteByBytes(db: Db, p: Bytes)
    requires p != [] && p[0] == 4
    ensures |p| < 7 ==> Serve(db, p) == Done(db, [3])
    ensures |p| >= 7 ==>
              var kl, vl := Num16(p, 1), Num32(p, 3);
              Serve(db, p) == if vl != 0 || |p| < 7 + kl then Done(db, [3]) else Done(db - {p[7..7 + kl]}, [0])
  {
    hide U16, U32, Num16, Num32;
    NumsAreFields(p, 1);
    NumsAreFields(p, 3);
  }

  /** The bounds of a range request, by the bytes. */
  ghost predicate HasRange(p: Bytes, start: Bytes, end: Bytes) {
    && |p| >= 5 && |p| >= 5 + |start| + |end|
    && Num16(p, 1) == |start| && p[3..3 + |start|] == start
    && Num16(p, 3 + |start|) == |end| && p[5 + |start|..5 + |start| + |end|] == end
  }

  /** Opcode 9, a range delete: status 0 and the keys of the range are gone; opcode 8, a scan: status 0
      and the scan body; opcode 7, statistics: status 0, four bytes of count, two of length, median. */
  lemma RangeByBytes(db: Db, p: Bytes, start: Bytes, end: Bytes)
    requires p != [] && HasRange(p, start, end)
    ensures p[0] == 9 ==> Serve(db, p) == Done(db - KeysIn(db, start, end), [0])
    ensures p[0] == 8 ==> Serve(db, p) == Done(db, [0] + ScanBody(RangeList(db, start, end)))
    ensures p[0] == 7 ==>
              && Serve(db, p) == Done(db, StatsReply(|KeysIn(db, start, end)|, Median(db, start, end)))
              && IsStats(StatsReply(|KeysIn(db, start, end)|, Median(db, start, end)),
                         |KeysIn(db, start, end)|, Median(db, start, end))
  {
    hide U16, U32, Num16, Num32, KeysIn, RangeList, ScanBody, Median, StatsReply, IsStats;
    NumsAreFields(p, 1);
    NumsAreFields(p, 3 + |start|);
    assert ParseRange(p) == Some((start, end));
    StatsBytes(|KeysIn(db, start, end)|, Median(db, start, end));
  }

  ghost predicate IsStats(r: Bytes, count: nat, median: Bytes) {
    && |r| == 7 + |median| && r[0] == 0 && Num32(r, 1) == count % 4294967296
    && Num16(r, 5) == |median| % 65536 && r[7..] == median
  }

  lemma StatsBytes(count: nat, median: Bytes)
    ensures IsStats(StatsReply(count, median), count, median)
  {
    hide BE16, BE32, U16, U32;
    var r := StatsReply(count, median);
    assert r[1..5] == BE32(count % LIM32) && r[5..7] == BE16(|median| % LIM16);
    Weights32(r, 1, count % LIM32);
    Weights16(r, 5, |median| % LIM16);
  }

  /** Range requests whose lengths overrun the payload, and all other opcodes, are answered with status 3. */
  lemma BadByBytes(db: Db, p: Bytes)
    ensures p == [] || p[0] !in {2, 3, 4, 7, 8, 9} ==> Serve(db, p) == Done(db, [3])
    ensures p != [] && p[0] in {7, 8, 9}
            && (|p| < 5 || |p| < 5 + Num16(p, 1) || |p| < 5 + Num16(p, 1) + Num16(p, 3 + Num16(p, 1))) ==>
              Serve(db, p) == Done(db, [3])
  {
    hide U16, U32, Num16, KeysIn, RangeList, ScanBody, Median, StatsReply;
    if |p| >= 5 {
      NumsAreFields(p, 1);
      if |p| >= 5 + Num16(p, 1) { NumsAreFields(p, 3 + Num16(p, 1)); }
    }
  }

  class DataNode {
    const engine: StorageEngine

    constructor ()
      ensures fresh(engine) && engine.db == map[]
    {
      engine := new StorageEngine();
    }

    /** Dispatch on the opcode; every branch does and answers what Serve says. */
    method HandleBinaryRequest(payload: Bytes) returns (defined: bool, reply: Bytes)
      modifies engine
      ensures Serve(old(engine.db), payload) == if defined then Done(engine.db, reply) else Undefined
    {
      hide U16, U32, KeysIn, RangeList, ScanBody, SortedKeys, BE16, BE32, RangeKeys, ServePut, ServeGet;
      defined := true;
      if payload == [] { return true, [ST_BAD_REQUEST]; }
      var opcode := payload[0];
      if opcode == OP_PUT { defined, reply := HandlePut(payload); return; }
      if opcode == OP_GET { defined, reply := HandleGet(payload); return; }
      if opcode == OP_DELETE { reply := HandleDelete(payload); return; }
      if opcode == OP_TABLET_STATS { reply := HandleTabletStats(payload); return; }
      if opcode == OP_SCAN_RANGE { reply := HandleScanRange(payload); return; }
      if opcode == OP_DELETE_RANGE { reply := HandleDeleteRange(payload); return; }
      return true, [ST_BAD_REQUEST];
    }

    method HandlePut(payload: Bytes) returns (defined: bool, reply: Bytes)
      modifies engine
      ensures ServePut(old(engine.db), payload) == if defined then Done(engine.db, reply) else Undefined
    {
      hide U16, U32;
      if |payload| < 7 { return true, [ST_BAD_REQUEST]; }
      var keyLen, valLen := U16(payload, 1), U32(payload, 3);
      if |payload| < (7 + keyLen + valLen) % LIM32 { return true, [ST_BAD_REQUEST]; }
      if |payload| < 7 + keyLen + valLen { return false, []; }
      var _ := engine.Put(payload[7..7 + keyLen], payload[7 + keyLen..7 + keyLen + valLen]);
      return true, [ST_OK];
    }

    method HandleGet(payload: Bytes) returns (defined: bool, reply: Bytes)
      ensures ServeGet(engine.db, payload) == if defined then Done(engine.db, reply) else Undefined
    {
      hide U16, U32;
      if |payload| < 7 { return true, [ST_BAD_REQUEST]; }
      var keyLen, valLen := U16(payload, 1), U32(payload, 3);
      if valLen != 0 { return true, [ST_BAD_REQUEST]; }
      if |payload| < 7 + keyLen { return false, []; }
      var value := engine.Get(payload[7..7 + keyLen]);
      if value.None? { return true, [ST_NOT_FOUND]; }
      return true, [ST_OK] + value.value;
    }

    method HandleDelete(payload: Bytes) returns (reply: Bytes)
      modifies engine
      ensures ServeDelete(old(engine.db), payload) == Done(engine.db, reply)
    {
      if |payload| < 7 { return [ST_BAD_REQUEST]; }
      var keyLen, valLen := U16(payload, 1), U32(payload, 3);
      if valLen != 0 { return [ST_BAD_REQUEST]; }
      if |payload| < 7 + keyLen { return [ST_BAD_REQUEST]; }
      var _ := engine.Delete(payload[7..7 + keyLen]);
      return [ST_OK];
    }

    method HandleTabletStats(payload: Bytes) returns (reply: Bytes)
      ensures reply == ServeStats(engine.db, payload)
    {
      hide KeysIn, RangeKeys;
      var parsed := ParseRange(payload);
      if parsed.None? { return [ST_BAD_REQUEST]; }
      var count, median := engine.RangeStats(parsed.value.0, parsed.value.1);
      reply := [ST_OK];
      reply := reply + BE32(count % LIM32);
      reply := reply + BE16(|median| % LIM16);
      reply := reply + median;
    }

    method HandleScanRange(payload: Bytes) returns (reply: Bytes)
      ensures reply == ServeScan(engine.db, payload)
    {
      hide RangeList, ScanBody;
      var parsed := ParseRange(payload);
      if parsed.None? { return [ST_BAD_REQUEST]; }
      var pairs := engine.RangeQuery(parsed.value.0, parsed.value.1);
      var body := EncodeScanBody(pairs);
      return [ST_OK] + body;
    }

    method HandleDeleteRange(payload: Bytes) returns (reply: Bytes)
      modifies engine
      ensures ServeDeleteRange(old(engine.db), payload) == Done(engine.db, reply)
    {
      hide KeysIn;
      var parsed := ParseRange(payload);
      if parsed.None? { return [ST_BAD_REQUEST]; }
      var _ := engine.DeleteRange(parsed.value.0, parsed.value.1);
      return [ST_OK];
    }
  }

  // ---- what the callers read from the replies ----

  /** What the server frames as the response: status first, then the length and bytes of the rest. */
  function Response(reply: Bytes): Bytes {
    var r := if reply == [] then [ST_BAD_REQUEST] else reply;
    ResponsePayload(r[0], r[1..])
  }

  /** The client's reading of a response: a status and a result, or no defined result where the sum of
      the lengths, taken in 32 bits, wraps below the size of a response that is too short. */
  datatype Reading = Empty | Result(status: byte, value: Bytes) | Overread

  function ReadResult(response: Bytes): Reading {
    if response == [] then Empty
    else if |response| < 5 || U32(response, 1) == 0 || |response| < (5 + U32(response, 1)) % LIM32
    then Result(response[0], [])
    else if |response| < 5 + U32(response, 1) then Overread
    else Result(response[0], response[5..5 + U32(response, 1)])
  }

  /** The master's reading of a statistics response. */
  function ReadStats(response: Bytes): Option<(nat, Bytes)> {
    if |response| < 11 || response[0] != ST_OK then None
    else
      var ml := U16(response, 9);
      if |response| < 11 + ml then None else Some((U32(response, 5), response[11..11 + ml]))
  }

  lemma ResultRoundTrip(status: byte, value: Bytes)
    requires 5 + |value| < LIM32
    ensures ReadResult(Response([status] + value)) == Result(status, value)
  {
    hide BE32, U32;
    var r := Response([status] + value);
    assert ([status] + value)[1..] == value;
    assert r[1..5] == BE32(|value|) && r[5..] == value && r[0] == status;
    assert r[5..5 + |value|] == value;
    U32Is(r, 1, |value|);
  }

  /** Put through the wire stores the pair. */
  lemma PutWorks(db: Db, key: Bytes, value: Bytes)
    requires |key| < LIM16 && |value| < LIM32
    ensures Serve(db, KeyValuePayload(OP_PUT, key, value)) == Done(db[key := value], [ST_OK])
  {
    hide BE16, BE32, ParseKeyValue;
    KeyValueSurvivesIffFits(OP_PUT, key, value);
  }

  /** Get through the wire answers what the store holds, and changes nothing. */
  lemma GetWorks(db: Db, key: Bytes)
    requires |key| < LIM16
    requires forall v :: Lookup(db, key) == Some(v) ==> 5 + |v| < LIM32
    ensures var r := Serve(db, KeyValuePayload(OP_GET, key, []));
            r.Done? && r.db == db && ReadResult(Response(r.reply))
                                     == match Lookup(db, key)
                                        case None => Result(ST_NOT_FOUND, [])
                                        case Some(v) => Result(ST_OK, v)
  {
    KeyOnlyPayload(OP_GET, key);
    hide BE16, BE32, U16, U32, ReadResult, Response;
    match Lookup(db, key)
    case None =>
      ResultRoundTrip(ST_NOT_FOUND, []);
      assert [ST_NOT_FOUND] + [] == [ST_NOT_FOUND];
    case Some(v) => ResultRoundTrip(ST_OK, v);
  }

  lemma KeyOnlyPayload(op: byte, key: Bytes)
    requires |key| < LIM16
    ensures var p := KeyValuePayload(op, key, []);
            |p| == 7 + |key| && p[0] == op && U16(p, 1) == |key| && U32(p, 3) == 0 && p[7..7 + |key|] == key
  {
    var p := KeyValuePayload(op, key, []);
    assert p[1..3] == BE16(|key|) && p[3..7] == BE32(0);
    U16Is(p, 1, |key|);
    U32Is(p, 3, 0);
  }

  /** Delete through the wire removes the key. */
  lemma DeleteWorks(db: Db, key: Bytes)
    requires |key| < LIM16
    ensures Serve(db, KeyValuePayload(OP_DELETE, key, [])) == Done(db - {key}, [ST_OK])
  {
    KeyOnlyPayload(OP_DELETE, key);
    hide BE16, BE32, U16, U32;
  }

  /** Statistics through the wire: the master reads the count, modulo 2^32, and the very median. */
  lemma StatsWork(db: Db, start: Bytes, end: Bytes)
    requires |start| < LIM16 && |end| < LIM16
    requires forall k :: k in db ==> |k| < LIM16
    ensures var r := Serve(db, RangePayload(OP_TABLET_STATS, start, end));
            r.Done? && r.db == db && 0 < |r.reply| < 7 + LIM16
            && ReadStats(Response(r.reply)) == Some((|KeysIn(db, start, end)| % LIM32, Median(db, start, end)))
  {
    hide BE16, BE32, U16, U32, ParseRange, InRange, SortedKeys;
    RangeSurvivesIffFits(OP_TABLET_STATS, start, end);
    var n, median := |KeysIn(db, start, end)|, Median(db, start, end);
    if n > 0 { assert median in RangeKeys(db, start, end); }
    StatsReadBack(n, median);
  }

  lemma StatsReadBack(n: nat, median: Bytes)
    requires |median| < LIM16
    ensures ReadStats(Response(StatsReply(n, median))) == Some((n % LIM32, median))
  {
    hide BE16, BE32, U16, U32;
    var reply := StatsReply(n, median);
    var r := Response(reply);
    assert reply[1..] == BE32(n % LIM32) + BE16(|median|) + median;
    assert r[5..] == reply[1..];
    assert r[5..9] == r[5..][..4] == BE32(n % LIM32);
    assert r[9..11] == r[5..][4..6] == BE16(|median|);
    assert r[11..11 + |median|] == r[11..] == r[5..][6..] == median;
    assert r[0] == reply[0] == ST_OK;
    U32Is(r, 5, n % LIM32);
    U16Is(r, 9, |median|);
  }

  /** Which replies to other requests a scan takes for its own: of a statistics reply, exactly the one of
      an empty range, or of one whose count wraps to zero, and it reads it as a scan of no pairs. */
  lemma StatsReplyReadAsScan(n: nat, median: Bytes)
    requires |median| < LIM16
    ensures ParseReply(Response(StatsReply(n, median))) == if n % LIM32 == 0 then Some([]) else None
  {
    hide BE16, BE32, U16, U32;
    var reply := StatsReply(n, median);
    var r := Response(reply);
    assert reply[0] == ST_OK && reply[1..] == BE32(n % LIM32) + BE16(|median|) + median;
    assert r[1..5] == BE32(|reply[1..]|) && r[5..] == reply[1..];
    assert r[5..9] == r[5..][..4] == BE32(n % LIM32);
    assert r[9..11] == r[5..][4..6] == BE16(|median|);
    U32Is(r, 1, |reply[1..]|);
    U32Is(r, 5, n % LIM32);
    U16Is(r, 9, |median|);
  }

  /** A scan through the wire: the master reads back exactly the pairs of the range, in order. */
  lemma ScanWorks(db: Db, start: Bytes, end: Bytes)
    requires |start| < LIM16 && |end| < LIM16 && FitsFrame(RangeList(db, start, end))
    ensures var r := Serve(db, RangePayload(OP_SCAN_RANGE, start, end));
            r.Done? && r.db == db && ParseReply(Response(r.reply)) == Some(RangeList(db, start, end))
  {
    hide BE16, BE32, ParseRange, FitsFrame, RangeList, ScanBody, ParseReply;
    RangeSurvivesIffFits(OP_SCAN_RANGE, start, end);
    var pairs := RangeList(db, start, end);
    ScanRoundTrip(pairs);
    assert ([ST_OK] + ScanBody(pairs))[1..] == ScanBody(pairs);
  }

  /** A range delete through the wire removes exactly the keys of the range. */
  lemma DeleteRangeWorks(db: Db, start: Bytes, end: Bytes)
    requires |start| < LIM16 && |end| < LIM16
    ensures Serve(db, RangePayload(OP_DELETE_RANGE, start, end)) == Done(db - KeysIn(db, start, end), [ST_OK])
  {
    hide BE16, ParseRange;
    RangeSurvivesIffFits(OP_DELETE_RANGE, start, end);
  }
}
