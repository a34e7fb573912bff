/** The master's calls, from the bytes it sends to the value it reads back: encoding, the server's loop,
    the client's frame cutting, decoding and reading compose to a direct effect on the node's store,
    exactly within the limits of the length fields. */
module Rpc {
  import opened ByteStrings
  import opened Storage
  import opened Wire
  import opened ScanCodec
  import opened DataNode
  import opened Framing

  // ---- what a store can hold ----

  /** Every pair fits a put request. */
  ghost predicate Storable(db: Db) {
    forall k :: k in db ==> |k| < LIM16 && 17 + |k| + |db[k]| < LIM32
  }

  lemma ServeKeepsStorable(db: Db, p: Bytes)
    requires Storable(db) && 10 + |p| < LIM32 && Serve(db, p).Done?
    ensures Storable(Serve(db, p).db)
  {
    hide KeysIn, RangeList, ScanBody, ServeStats, U32;
  }

  /** Whatever frames a node is sent, what it stores fits a put request. */
  lemma {:induction false} AnswerAllKeepsStorable(db: Db, frames: seq<Bytes>)
    requires Storable(db) && AnswerAll(db, frames).Done?
    ensures Storable(AnswerAll(db, frames).db)
    decreases |frames|
  {
    hide Storable, Serve, U32, Header;
    if frames != [] {
      var d := Decode(frames[0]);
      if d.Got? {
        PayloadBelow(frames[0]);
        ServeKeepsStorable(db, d.payload);
      }
      AnswerAllKeepsStorable(Answer(db, frames[0]).db, frames[1..]);
    }
  }

  lemma PayloadBelow(frame: Bytes)
    requires Decode(frame).Got?
    ensures 10 + |Decode(frame).payload| < LIM32
  {}

  // ---- one call ----

  /** What EncodeCustomRequest puts on the wire. */
  function Sent(reqId: nat, payload: Bytes): Bytes
    requires reqId < LIM32
  {
    Header((10 + |payload| % LIM32) % LIM32, reqId) + payload
  }

  /** What EncodeRequest puts on the wire for a put. */
  function SentPut(reqId: nat, key: Bytes, value: Bytes): Bytes
    requires reqId < LIM32
  {
    Header((17 + |key| % LIM16 + |value| % LIM32) % LIM32, reqId) + KeyValuePayload(OP_PUT, key, value)
  }

  /** The store after the server's loop and the payload the caller decodes, if it gets one. */
  function Reply(db: Db, request: Bytes): Option<(Db, Bytes)> {
    match AnswerAll(db, Frames(request))
    case Undefined => None
    case Done(db', out) =>
      match FirstFrame(out)
      case None => None
      case Some(f) =>
        var d := Decode(f);
        if d.Got? then Some((db', d.payload)) else None
  }

  /** Cut bytes into chunks, as the network pleases. */
  method Chunks(data: Bytes) returns (events: seq<Event>)
    ensures Smooth(events) && Pending(events) == data
  {
    events := [];
    var left := data;
    while left != []
      invariant Smooth(events) && data == left + Pending(events)
      decreases |left|
    {
      var n: int := *;
      var cut := if 0 <= n < |left| then n else 0;
      ghost var later := events;
      events := [Data(left[cut..])] + events;
      assert events[1..] == later && left == left[..cut] + left[cut..];
      left := left[..cut];
    }
  }

  /** One call over a connection that lasts: the node serves what it is sent, the caller takes one frame
      out of what comes back, however both streams are chunked. */
  method Call(node: DataNode, toServer: Connection, sends: (nat, nat) -> int)
    returns (end: End, reply: Option<Bytes>)
    requires node.engine as object != toServer && Smooth(toServer.events)
    modifies node.engine, toServer
    ensures (forall i, j :: sends(i, j) > 0) ==> !end.SendFailed?
    ensures end.StreamEnded? ==>
              Reply(old(node.engine.db), old(toServer.Stream()))
              == match reply case None => None case Some(p) => Some((node.engine.db, p))
  {
    hide AnswerAll, FirstFrame, Frames, Rest, Decode;
    ghost var fs := Frames(toServer.Stream());
    SmoothIsPatient(toServer.events, 5000);
    var out;
    ghost var handled;
    out, end, handled := HandleClient(node, toServer, sends);
    assert fs[..|fs|] == fs;
    var events := Chunks(out);
    var toClient := new Connection(events);
    assert toClient.Stream() == out;
    var got, frame := toClient.RecvFrame(3000);
    if !got { return end, None; }
    var _, decoded, _, _, payload := TryDecode(frame);
    reply := if decoded then Some(payload) else None;
  }

  /** What the caller decodes of a response with this status and value. A value so long that the length
      field wraps leaves a frame that is cut short, or none. */
  function CutResponse(status: byte, value: Bytes): Option<Bytes> {
    var response, frameLen := ResponsePayload(status, value), (15 + |value| % LIM32) % LIM32;
    if frameLen < 10 then None else Some(response[..frameLen - 10])
  }

  /** A request that fits is a direct call of the node's handler, its response cut to the length field. */
  lemma CallIsServe(db: Db, reqId: nat, payload: Bytes)
    requires reqId < LIM32 && 10 + |payload| < LIM32
    requires Serve(db, payload).Done? && Serve(db, payload).reply != []
    ensures var r := Serve(db, payload);
            Reply(db, Frame(reqId, payload))
            == match CutResponse(r.reply[0], r.reply[1..]) case None => None case Some(p) => Some((r.db, p))
  {
    hide Serve, Frame, Decode, IsFrame, FirstFrame, Frames, Header, ResponsePayload;
    var r, f := Serve(db, payload), Frame(reqId, payload);
    FrameIsFrame(reqId, payload);
    OneFrame(f);
    AnswerOne(db, f);
    hide AnswerAll;
    var response := ResponsePayload(r.reply[0], r.reply[1..]);
    ResponseSize(r.reply[0], r.reply[1..]);
    FirstOfCut((15 + |r.reply[1..]| % LIM32) % LIM32, reqId, response);
  }

  lemma ResponseSize(status: byte, value: Bytes)
    ensures |ResponsePayload(status, value)| == 5 + |value|
  {}

  /** The frame at the front of a header and a body is as long as the header says. */
  lemma FirstOfCut(frameLen: nat, reqId: nat, body: Bytes)
    requires frameLen < LIM32 && reqId < LIM32 && frameLen <= 10 + |body|
    ensures var out := Header(frameLen, reqId) + body;
            if frameLen < 10 then FirstFrame(out) == None
            else FirstFrame(out) == Some(out[..frameLen])
                 && Decode(out[..frameLen]) == Got(frameLen, reqId, body[..frameLen - 10])
  {
    hide BE32, U32;
    var out := Header(frameLen, reqId) + body;
    assert frameLen % LIM32 == frameLen && out[0..4] == BE32(frameLen);
    U32Is(out, 0, frameLen);
    if frameLen >= 10 {
      assert out[..frameLen] == Frame(reqId, body[..frameLen - 10]);
      FrameIsFrame(reqId, body[..frameLen - 10]);
    }
  }

  lemma OneFrame(f: Bytes)
    requires IsFrame(f)
    ensures Frames(f) == [f]
  {
    hide IsFrame, FirstFrame, Frames, Rest;
    assert FirstFrame([]) == None by { NoFrame(); }
    FramesOfConcat([f], []);
    assert [f][1..] == [] && f + [] == f;
  }

  lemma NoFrame()
    ensures FirstFrame([]) == None
  {}

  lemma AnswerOne(db: Db, f: Bytes)
    ensures AnswerAll(db, [f]) == Answer(db, f)
  {
    hide Answer;
    assert [f][1..] == [];
    if Answer(db, f).Done? { AfterLast(Answer(db, f)); }
  }

  /** What is sent is a frame if its length fits. */
  lemma SentIsFrame(reqId: nat, payload: Bytes)
    requires reqId < LIM32 && 10 + |payload| < LIM32
    ensures Sent(reqId, payload) == Frame(reqId, payload)
  {
    hide Header;
  }

  lemma RangePayloadSize(op: byte, start: Bytes, end: Bytes)
    requires |start| < LIM16 && |end| < LIM16
    ensures 10 + |RangePayload(op, start, end)| < LIM32
  {}

  /** A response that fits arrives whole. */
  lemma CutNothing(status: byte, value: Bytes)
    requires 15 + |value| < LIM32
    ensures CutResponse(status, value) == Some(ResponsePayload(status, value))
  {
    hide BE32;
    var response := ResponsePayload(status, value);
    assert response[..5 + |value|] == response;
  }

  lemma PlainOk()
    ensures [ST_OK][0] == ST_OK && [ST_OK][1..] == []
    ensures CutResponse(ST_OK, []) == Some(ResponsePayload(ST_OK, []))
  {
    CutNothing(ST_OK, []);
  }

  // ---- the four calls of the master ----

  /** A put call stores exactly its pair, on every store, if and only if the pair fits the request. */
  lemma PutCallIffFits(reqId: nat, key: Bytes, value: Bytes)
    requires reqId < LIM32
    ensures (forall db :: Reply(db, SentPut(reqId, key, value)) == Some((db[key := value], ResponsePayload(ST_OK, []))))
       <==> |key| < LIM16 && 17 + |key| + |value| < LIM32
  {
    hide Serve, SentPut, KeyValuePayload, Frame, Reply, CutResponse, ResponsePayload;
    var request := SentPut(reqId, key, value);
    if |key| < LIM16 && 17 + |key| + |value| < LIM32 {
      var payload := KeyValuePayload(OP_PUT, key, value);
      SentPutIsFrame(reqId, key, value);
      forall db ensures Reply(db, request) == Some((db[key := value], ResponsePayload(ST_OK, []))) {
        PutWorks(db, key, value);
        PlainOk();
        CallIsServe(db, reqId, payload);
      }
    } else {
      NotStored(request, key, value);
    }
  }

  lemma SentPutIsFrame(reqId: nat, key: Bytes, value: Bytes)
    requires reqId < LIM32 && |key| < LIM16 && 17 + |key| + |value| < LIM32
    ensures 10 + |KeyValuePayload(OP_PUT, key, value)| < LIM32
    ensures SentPut(reqId, key, value) == Frame(reqId, KeyValuePayload(OP_PUT, key, value))
  {
    hide Header, BE16, BE32;
    assert |KeyValuePayload(OP_PUT, key, value)| == 7 + |key| + |value|;
  }

  lemma NotStored(request: Bytes, key: Bytes, value: Bytes)
    requires !(|key| < LIM16 && 17 + |key| + |value| < LIM32)
    ensures Reply(map[], request) != Some((map[][key := value], ResponsePayload(ST_OK, [])))
  {
    hide Frames, AnswerAll, FirstFrame, Decode;
    if AnswerAll(map[], Frames(request)).Done? { AnswerAllKeepsStorable(map[], Frames(request)); }
    var db: Db := map[][key := value];
    assert key in db && db[key] == value;
  }

  /** A statistics call reads the count modulo 2^32 and the median. */
  lemma StatsCall(db: Db, reqId: nat, start: Bytes, end: Bytes)
    requires reqId < LIM32 && Storable(db) && |start| < LIM16 && |end| < LIM16
    ensures var r := Reply(db, Sent(reqId, RangePayload(OP_TABLET_STATS, start, end)));
            && r.Some? && r.value.0 == db
            && ReadStats(r.value.1) == Some((|KeysIn(db, start, end)| % LIM32, Median(db, start, end)))
  {
    hide Serve, Header, RangePayload, KeysIn, Median, ReadStats, Reply, CutResponse, ResponsePayload;
    var payload := RangePayload(OP_TABLET_STATS, start, end);
    RangePayloadSize(OP_TABLET_STATS, start, end);
    SentIsFrame(reqId, payload);
    StatsWork(db, start, end);
    CallIsServe(db, reqId, payload);
    var reply := Serve(db, payload).reply;
    CutNothing(reply[0], reply[1..]);
  }

  /** A range delete call removes exactly the keys of the range. */
  lemma DeleteRangeCall(db: Db, reqId: nat, start: Bytes, end: Bytes)
    requires reqId < LIM32 && |start| < LIM16 && |end| < LIM16
    ensures Reply(db, Sent(reqId, RangePayload(OP_DELETE_RANGE, start, end)))
            == Some((db - KeysIn(db, start, end), ResponsePayload(ST_OK, [])))
  {
    hide Serve, Header, RangePayload, KeysIn, Reply, CutResponse, ResponsePayload;
    var payload := RangePayload(OP_DELETE_RANGE, start, end);
    RangePayloadSize(OP_DELETE_RANGE, start, end);
    SentIsFrame(reqId, payload);
    DeleteRangeWorks(db, start, end);
    PlainOk();
    CallIsServe(db, reqId, payload);
  }

  /** What the master takes for the pairs of the range. */
  function ReadScan(db: Db, reqId: nat, start: Bytes, end: Bytes): Option<seq<Pair>>
    requires reqId < LIM32
  {
    match Reply(db, Sent(reqId, RangePayload(OP_SCAN_RANGE, start, end)))
    case None => None
    case Some((_, p)) => ParseReply(p)
  }

  /** The count of pairs and the length of the reply are both taken modulo 2^32. What a list is read as is
      the first of its pairs, as many as the wrapped count says, if they lie within the wrapped length,
      and nothing otherwise. */
  function ReadAs(list: seq<Pair>): Option<seq<Pair>> {
    var first, size := list[..|list| % LIM32], |ScanBody(list)| % LIM32;
    if |ScanBody(first)| <= size < LIM32 - 15 then Some(first) else None
  }

  /** A scan call reads what ReadAs says of the pairs of the range, and changes nothing. */
  lemma ScanCallReads(db: Db, reqId: nat, start: Bytes, end: Bytes)
    requires reqId < LIM32 && Storable(db) && |start| < LIM16 && |end| < LIM16
    ensures ReadScan(db, reqId, start, end) == ReadAs(RangeList(db, start, end))
    ensures var r := Reply(db, Sent(reqId, RangePayload(OP_SCAN_RANGE, start, end)));
            r.Some? ==> r.value.0 == db
  {
    hide Serve, Header, RangePayload, RangeList, ScanBody, Reply, ParseReply, CutResponse, ResponsePayload;
    hide Storable, Fits;
    var payload, list := RangePayload(OP_SCAN_RANGE, start, end), RangeList(db, start, end);
    RangePayloadSize(OP_SCAN_RANGE, start, end);
    SentIsFrame(reqId, payload);
    ScanServed(db, start, end);
    CallIsServe(db, reqId, payload);
    ListFits(db, start, end);
    CutScanReads(list);
  }

  lemma ScanServed(db: Db, start: Bytes, end: Bytes)
    requires |start| < LIM16 && |end| < LIM16
    ensures var r := Serve(db, RangePayload(OP_SCAN_RANGE, start, end));
            && r.Done? && r.db == db && r.reply != []
            && r.reply[0] == ST_OK && r.reply[1..] == ScanBody(RangeList(db, start, end))
  {
    hide RangeList, ScanBody, BE16, BE32, ParseRange;
    RangeSurvivesIffFits(OP_SCAN_RANGE, start, end);
  }

  lemma CutScanReads(list: seq<Pair>)
    requires Fits(list)
    ensures match CutResponse(ST_OK, ScanBody(list))
            case None => ReadAs(list) == None
            case Some(p) => ParseReply(p) == ReadAs(list)
  {
    hide BE32, U32, Entries, Fits, ParseEntries;
    var c, size := |list| % LIM32, |ScanBody(list)| % LIM32;
    if 4 <= size < LIM32 - 15 {
      var whole := ResponsePayload(ST_OK, ScanBody(list));
      var p := whole[..5 + size];
      CutFields(list, size);
      assert ParseReply(p) == ParseEntries(p, 9, c);
      PrefixParse(p, whole, list, c);
      EntriesPrefix(list, c, size - 4);
    }
  }

  /** The fields of a scan response cut to its length field. */
  lemma CutFields(list: seq<Pair>, size: nat)
    requires size == |ScanBody(list)| % LIM32 && 4 <= size < LIM32 - 15
    ensures var whole := ResponsePayload(ST_OK, ScanBody(list));
            var p := whole[..5 + size];
            && p[0] == ST_OK && U32(p, 1) == size && U32(p, 5) == |list| % LIM32
            && p <= whole && whole[9..] == Entries(list) && p[9..] == Entries(list)[..size - 4]
  {
    hide BE32, U32, Entries;
    var whole := ResponsePayload(ST_OK, ScanBody(list));
    var p := whole[..5 + size];
    assert p[1..5] == whole[1..5] == BE32(size) && p[5..9] == whole[5..9] == BE32(|list| % LIM32);
    U32Is(p, 1, size);
    U32Is(p, 5, |list| % LIM32);
    assert whole[9..] == Entries(list) && p[9..] == whole[9..][..size - 4];
  }

  /** Of the bytes of a list's entries, cut somewhere, c pairs parse to the first c or to nothing. */
  lemma PrefixParse(p: Bytes, whole: Bytes, list: seq<Pair>, c: nat)
    requires |p| >= 9 && p <= whole && whole[9..] == Entries(list) && Fits(list) && c <= |list|
    ensures ParseEntries(p, 9, c) == if Entries(list[..c]) <= p[9..] then Some(list[..c]) else None
  {
    hide Entries, U32, U16, ParseEntries;
    var first := list[..c];
    assert list == first + list[c..];
    EntriesAppend(first, list[c..]);
    ParseIffWritten(p, 9, c, first);
    ParseIffWritten(whole, 9, c, first);
    var r := ParseEntries(p, 9, c);
    if r.Some? {
      ParseIffWritten(p, 9, c, r.value);
      assert p[9..] == whole[9..|p|] == whole[9..][..|p| - 9];
      ParseIffWritten(whole, 9, c, r.value);
    }
  }

  lemma EntriesPrefix(list: seq<Pair>, c: nat, n: nat)
    requires c <= |list| && n <= |Entries(list)|
    ensures Entries(list[..c]) <= Entries(list)[..n] <==> |Entries(list[..c])| <= n
  {
    hide Entries;
    assert list == list[..c] + list[c..];
    EntriesAppend(list[..c], list[c..]);
  }

  lemma BodySize(ps: seq<Pair>)
    ensures |ScanBody(ps)| >= 4 + 6 * |ps|
  {
    hide Entries, BE32;
    EntriesLong(ps);
  }

  /** A list is read whole if and only if it fits one reply, never in part if it has fewer than 2^32
      pairs, and in part exactly if both wrap so that the part fits. */
  lemma ReadAsWhole(list: seq<Pair>)
    ensures ReadAs(list) == Some(list) <==> 15 + |ScanBody(list)| < LIM32
    ensures |list| < LIM32 ==> ReadAs(list) == None || ReadAs(list) == Some(list)
    ensures ReadAs(list).Some? && ReadAs(list).value != list
       <==> |list| >= LIM32 && |ScanBody(list[..|list| % LIM32])| <= |ScanBody(list)| % LIM32 < LIM32 - 15
  {
    hide ScanBody;
    BodySize(list);
    if |list| < LIM32 {
      assert list[..|list|] == list;
    } else {
      assert |list[..|list| % LIM32]| < |list|;
    }
  }

  /** A scan call reads exactly the pairs of the range if and only if all of them fit one reply. Of fewer
      than 2^32 pairs it never reads less than all. */
  lemma ScanCallIffFits(db: Db, reqId: nat, start: Bytes, end: Bytes)
    requires reqId < LIM32 && Storable(db) && |start| < LIM16 && |end| < LIM16
    ensures var r := Reply(db, Sent(reqId, RangePayload(OP_SCAN_RANGE, start, end)));
            r.Some? ==> r.value.0 == db
    ensures var list, read := RangeList(db, start, end), ReadScan(db, reqId, start, end);
            && (read == Some(list) <==> 15 + |ScanBody(list)| < LIM32)
            && (|list| < LIM32 ==> read == None || read == Some(list))
  {
    hide Storable, RangeList, ReadScan, ReadAs, Reply, ScanBody;
    ScanCallReads(db, reqId, start, end);
    ReadAsWhole(RangeList(db, start, end));
  }

  /** Reading less than the range holds without noticing: a count that wraps, and a wrapped length that
      covers the pairs which are left of it. */
  lemma ShortScanIffWraps(db: Db, reqId: nat, start: Bytes, end: Bytes)
    requires reqId < LIM32 && Storable(db) && |start| < LIM16 && |end| < LIM16
    ensures var list, read := RangeList(db, start, end), ReadScan(db, reqId, start, end);
            var size := |ScanBody(list)| % LIM32;
            read.Some? && read.value != list
            <==> |list| >= LIM32 && |ScanBody(list[..|list| % LIM32])| <= size < LIM32 - 15
  {
    hide Storable, RangeList, ReadScan, ReadAs, Reply, ScanBody;
    ScanCallReads(db, reqId, start, end);
    ReadAsWhole(RangeList(db, start, end));
  }

  lemma ListFits(db: Db, start: Bytes, end: Bytes)
    requires Storable(db)
    ensures Fits(RangeList(db, start, end))
  {
    hide Entries, SortedKeys, InRange, BE32;
    var ks, list := RangeKeys(db, start, end), RangeList(db, start, end);
    forall i | 0 <= i < |list| ensures |list[i].0| < LIM16 && |list[i].1| < LIM32 {
      assert ks[i] in ks && list[i] == (ks[i], db[ks[i]]);
    }
  }

  lemma {:induction false} EntriesLong(ps: seq<Pair>)
    ensures |Entries(ps)| >= 6 * |ps|
  {
    hide Entry;
    if ps != [] { EntriesLong(ps[1..]); }
  }

  // ---- a store whose scan comes short ----

  /** The first n four-byte keys, each with an empty value. */
  ghost function Numbered(n: nat): Db
    requires n <= LIM32
  {
    if n == 0 then map[] else Numbered(n - 1)[BE32(n - 1) := []]
  }

  lemma {:induction false} NumberedKeys(n: nat)
    requires n <= LIM32
    ensures |Numbered(n).Keys| == n
    ensures forall k :: k in Numbered(n) ==> |k| == 4 && U32(k, 0) < n && Numbered(n)[k] == []
  {
    hide Numbered, BE32, U32;
    NumberedStep(n);
    if n > 0 {
      NumberedKeys(n - 1);
      var db, k := Numbered(n - 1), BE32(n - 1);
      U32Is(k, 0, n - 1);
      assert k[0..4] == k;
      assert db[k := []].Keys == db.Keys + {k};
    }
  }

  lemma NumberedStep(n: nat)
    requires n <= LIM32
    ensures Numbered(n) == if n == 0 then map[] else Numbered(n - 1)[BE32(n - 1) := []]
  {}

  lemma {:induction false} EntriesOfEqualSize(ps: seq<Pair>)
    requires forall i :: 0 <= i < |ps| ==> |ps[i].0| == 4 && ps[i].1 == []
    ensures |Entries(ps)| == 10 * |ps|
  {
    hide Entry;
    if ps != [] { EntriesOfEqualSize(ps[1..]); }
  }

  lemma NumberedList()
    ensures var db := Numbered(LIM32);
            var list := RangeList(db, [], []);
            Storable(db) && |list| == LIM32 && |ScanBody(list)| == 4 + 10 * LIM32
  {
    hide Numbered, BE32, U32, SortedKeys, Entries;
    var db := Numbered(LIM32);
    NumberedKeys(LIM32);
    forall k ensures k in KeysIn(db, [], []) <==> k in db.Keys { AllInRange(k); }
    assert KeysIn(db, [], []) == db.Keys;
    var ks, list := RangeKeys(db, [], []), RangeList(db, [], []);
    forall i | 0 <= i < |list| ensures |list[i].0| == 4 && list[i].1 == [] {
      assert ks[i] in ks && list[i] == (ks[i], db[ks[i]]);
    }
    EntriesOfEqualSize(list);
  }

  /** 2^32 such keys, which puts can store, are scanned as none at all. */
  lemma ShortScanHappens(reqId: nat)
    requires reqId < LIM32
    ensures var db := Numbered(LIM32);
            Storable(db) && |RangeList(db, [], [])| == LIM32 && ReadScan(db, reqId, [], []) == Some([])
  {
    hide Numbered, RangeList, Storable, ReadScan, Entries, Reply, BE32;
    var list := RangeList(Numbered(LIM32), [], []);
    NumberedList();
    ScanCallReads(Numbered(LIM32), reqId, [], []);
    assert list[..0] == [];
    NoEntries();
  }

  lemma NoEntries()
    ensures Entries([]) == []
  {}

  lemma AllInRange(k: Bytes)
    ensures InRange(k, [], [])
  {}
}
