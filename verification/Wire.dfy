/** The binary frame format: big-endian integers, the frame header, the encoders, the decoder. */
module Wire {
  import opened ByteStrings

  const MAGIC: byte := 0x4C
  const VERSION: byte := 0x01

  const OP_GET_ROUTE: byte := 0x01
  const OP_GET: byte := 0x02
  const OP_PUT: byte := 0x03
  const OP_DELETE: byte := 0x04
  const OP_TABLET_STATS: byte := 0x07
  const OP_SCAN_RANGE: byte := 0x08
  const OP_DELETE_RANGE: byte := 0x09

  const ST_OK: byte := 0x00
  const ST_NOT_FOUND: byte := 0x01
  const ST_BAD_REQUEST: byte := 0x03

  const LIM16 := 0x1_0000
  const LIM32 := 0x1_0000_0000

  function BE16(n: nat): (s: Bytes)
    requires n < LIM16
    ensures |s| == 2
  {
    [n / 0x100, n % 0x100]
  }

  function BE32(n: nat): (s: Bytes)
    requires n < LIM32
    ensures |s| == 4
  {
    [n / 0x100_0000, n / 0x1_0000 % 0x100, n / 0x100 % 0x100, n % 0x100]
  }

  /** The 16-bit integer at position at. */
  function U16(s: Bytes, at: nat): (n: nat)
    requires at + 2 <= |s|
    ensures n < LIM16
  {
    s[at] as int * 0x100 + s[at + 1] as int
  }

  function U32(s: Bytes, at: nat): (n: nat)
    requires at + 4 <= |s|
    ensures n < LIM32
  {
    s[at] as int * 0x100_0000 + s[at + 1] as int * 0x1_0000 + s[at + 2] as int * 0x100 + s[at + 3] as int
  }

  /** Reading back a 16-bit integer written at a position, and the only bytes that read so. */
  lemma U16Is(s: Bytes, at: nat, n: nat)
    requires at + 2 <= |s| && n < LIM16
    ensures U16(s, at) == n <==> s[at..at + 2] == BE16(n)
  {
    var t := s[at..at + 2];
    assert t == [s[at], s[at + 1]];
    assert t == BE16(n) ==> t[0] == BE16(n)[0] && t[1] == BE16(n)[1];
    if U16(s, at) == n { assert n / 0x100 == s[at] as int && n % 0x100 == s[at + 1] as int; }
  }

  lemma U32Is(s: Bytes, at: nat, n: nat)
    requires at + 4 <= |s| && n < LIM32
    ensures U32(s, at) == n <==> s[at..at + 4] == BE32(n)
  {
    var t := s[at..at + 4];
    assert t == [s[at], s[at + 1], s[at + 2], s[at + 3]];
    Digits32(s[at], s[at + 1], s[at + 2], s[at + 3], n);
    if U32(s, at) == n {
      assert t == BE32(n);
    }
    if t == BE32(n) {
      assert t[0] == BE32(n)[0] && t[1] == BE32(n)[1] && t[2] == BE32(n)[2] && t[3] == BE32(n)[3];
    }
  }

  /** Four digits to base 256 are unique. */
  lemma Digits32(a: byte, b: byte, c: byte, d: byte, n: nat)
    requires n < LIM32
    ensures n == a as int * 0x100_0000 + b as int * 0x1_0000 + c as int * 0x100 + d as int
       <==> a as int == n / 0x100_0000 && b as int == n / 0x1_0000 % 0x100
            && c as int == n / 0x100 % 0x100 && d as int == n % 0x100
  {
    var x, y, z: int := n / 0x100, n / 0x1_0000, n / 0x100_0000;
    assert y == x / 0x100 && z == y / 0x100;
    assert n == x * 0x100 + n % 0x100 && x == y * 0x100 + x % 0x100 && y == z * 0x100 + y % 0x100;
  }

  /** By weights: the two bytes of a 16-bit integer, the high one first. */
  lemma Weights16(s: Bytes, at: nat, n: nat)
    requires at + 2 <= |s| && n < LIM16
    ensures U16(s, at) == 256 * s[at] as int + s[at + 1] as int
    ensures s[at..at + 2] == BE16(n) <==> n == 256 * s[at] as int + s[at + 1] as int
  {
    hide BE16;
    U16Is(s, at, n);
  }

  /** The four bytes of a 32-bit integer, the highest first. */
  lemma Weights32(s: Bytes, at: nat, n: nat)
    requires at + 4 <= |s| && n < LIM32
    ensures var w := 16777216 * s[at] as int + 65536 * s[at + 1] as int + 256 * s[at + 2] as int + s[at + 3] as int;
            U32(s, at) == w && (s[at..at + 4] == BE32(n) <==> n == w)
  {
    hide BE32;
    U32Is(s, at, n);
  }

  /** The ten bytes every frame starts with. */
  function Header(frameLen: nat, reqId: nat): (s: Bytes)
    requires reqId < LIM32
    ensures |s| == 10
  {
    BE32(frameLen % LIM32) + [MAGIC, VERSION] + BE32(reqId)
  }

  /** A frame that carries a payload. */
  function Frame(reqId: nat, payload: Bytes): (s: Bytes)
    requires reqId < LIM32
    ensures |s| == 10 + |payload|
  {
    Header(10 + |payload|, reqId) + payload
  }

  function KeyValuePayload(op: byte, key: Bytes, value: Bytes): Bytes {
    [op] + BE16(|key| % LIM16) + BE32(|value| % LIM32) + key + value
  }

  function ResponsePayload(status: byte, value: Bytes): Bytes {
    [status] + BE32(|value| % LIM32) + value
  }

  function RangePayload(op: byte, start: Bytes, end: Bytes): Bytes {
    [op] + BE16(|start| % LIM16) + start + BE16(|end| % LIM16) + end
  }

  function RoutePayload(key: Bytes): Bytes {
    [OP_GET_ROUTE] + BE16(|key| % LIM16) + key
  }

  /** The master's reading of a route request: opcode, key length, key. */
  function ParseRouteKey(p: Bytes): Option<Bytes> {
    if |p| < 3 || |p| < 3 + U16(p, 1) then None else Some(p[3..3 + U16(p, 1)])
  }

  /** The key of a route request survives the trip if and only if it fits its length field. */
  lemma RouteKeySurvivesIffFits(key: Bytes)
    ensures ParseRouteKey(RoutePayload(key)) == Some(key) <==> |key| < LIM16
  {
    hide U16, BE16;
    var p := RoutePayload(key);
    assert p[1..3] == BE16(|key| % LIM16) && p[3..] == key;
    U16Is(p, 1, |key| % LIM16);
    if |key| < LIM16 { assert p[3..3 + |key|] == key; }
  }

  // ---- the bytes themselves ----

  /** The header of a frame: its length, 0x4C, 1, the request id. */
  lemma FrameBytes(reqId: nat, payload: Bytes)
    requires reqId < LIM32 && 10 + |payload| < LIM32
    ensures var f := Frame(reqId, payload);
            && 16777216 * f[0] as int + 65536 * f[1] as int + 256 * f[2] as int + f[3] as int == |f|
            && f[4] == 0x4C && f[5] == 1
            && 16777216 * f[6] as int + 65536 * f[7] as int + 256 * f[8] as int + f[9] as int == reqId
            && f[10..] == payload
  {
    hide BE32, U32;
    var f := Frame(reqId, payload);
    assert f[0..4] == BE32(|f|) && f[6..10] == BE32(reqId);
    Weights32(f, 0, |f|);
    Weights32(f, 6, reqId);
  }

  /** Opcode, two bytes of key length, four of value length, key, value. */
  lemma KeyValueBytes(op: byte, key: Bytes, value: Bytes)
    requires |key| < LIM16 && |value| < LIM32
    ensures var p := KeyValuePayload(op, key, value);
            && |p| == 7 + |key| + |value| && p[0] == op
            && 256 * p[1] as int + p[2] as int == |key|
            && 16777216 * p[3] as int + 65536 * p[4] as int + 256 * p[5] as int + p[6] as int == |value|
            && p[7..7 + |key|] == key && p[7 + |key|..] == value
  {
    hide BE16, BE32, U16, U32;
    var p := KeyValuePayload(op, key, value);
    assert p[1..3] == BE16(|key|) && p[3..7] == BE32(|value|);
    Weights16(p, 1, |key|);
    Weights32(p, 3, |value|);
  }

  /** Opcode, then both bounds, each after two bytes of length. */
  lemma RangeBytes(op: byte, start: Bytes, end: Bytes)
    requires |start| < LIM16 && |end| < LIM16
    ensures var p, sl := RangePayload(op, start, end), |start|;
            && |p| == 5 + sl + |end| && p[0] == op
            && 256 * p[1] as int + p[2] as int == sl && p[3..3 + sl] == start
            && 256 * p[3 + sl] as int + p[4 + sl] as int == |end| && p[5 + sl..] == end
  {
    hide BE16, U16;
    var p, sl := RangePayload(op, start, end), |start|;
    assert p[1..3] == BE16(sl) && p[3 + sl..5 + sl] == BE16(|end|);
    Weights16(p, 1, sl);
    Weights16(p, 3 + sl, |end|);
  }

  /** Status, four bytes of length, value. */
  lemma ResponseBytes(status: byte, value: Bytes)
    requires |value| < LIM32
    ensures var p := ResponsePayload(status, value);
            && |p| == 5 + |value| && p[0] == status && p[5..] == value
            && 16777216 * p[1] as int + 65536 * p[2] as int + 256 * p[3] as int + p[4] as int == |value|
  {
    hide BE32, U32;
    var p := ResponsePayload(status, value);
    assert p[1..5] == BE32(|value|);
    Weights32(p, 1, |value|);
  }

  /** Opcode 1, two bytes of length, key. */
  lemma RouteBytes(key: Bytes)
    requires |key| < LIM16
    ensures var p := RoutePayload(key);
            |p| == 3 + |key| && p[0] == 1 && 256 * p[1] as int + p[2] as int == |key| && p[3..] == key
  {
    hide BE16, U16;
    var p := RoutePayload(key);
    assert p[1..3] == BE16(|key|);
    Weights16(p, 1, |key|);
  }

  /** Byte by byte what a request with key and value is: frame length, 0x4C, 1, request id, opcode, key
      length, value length, key, value. */
  predicate IsRequest(buf: Bytes, reqId: nat, op: byte, key: Bytes, value: Bytes) {
    && |buf| == 17 + |key| + |value| && buf[4] == 0x4C && buf[5] == 1 && buf[10] == op
    && 16777216 * buf[0] as int + 65536 * buf[1] as int + 256 * buf[2] as int + buf[3] as int == |buf|
    && 16777216 * buf[6] as int + 65536 * buf[7] as int + 256 * buf[8] as int + buf[9] as int == reqId
    && 256 * buf[11] as int + buf[12] as int == |key|
    && 16777216 * buf[13] as int + 65536 * buf[14] as int + 256 * buf[15] as int + buf[16] as int == |value|
    && buf[17..17 + |key|] == key && buf[17 + |key|..] == value
  }

  /** And what a response is: frame length, 0x4C, 1, request id, status, value length, value. */
  predicate IsResponse(buf: Bytes, reqId: nat, status: byte, value: Bytes) {
    && |buf| == 15 + |value| && buf[4] == 0x4C && buf[5] == 1 && buf[10] == status
    && 16777216 * buf[0] as int + 65536 * buf[1] as int + 256 * buf[2] as int + buf[3] as int == |buf|
    && 16777216 * buf[6] as int + 65536 * buf[7] as int + 256 * buf[8] as int + buf[9] as int == reqId
    && 16777216 * buf[11] as int + 65536 * buf[12] as int + 256 * buf[13] as int + buf[14] as int == |value|
    && buf[15..] == value
  }

  lemma ResponseFrameBytes(reqId: nat, status: byte, value: Bytes)
    requires reqId < LIM32 && 15 + |value| < LIM32
    ensures IsResponse(Frame(reqId, ResponsePayload(status, value)), reqId, status, value)
  {
    var p := ResponsePayload(status, value);
    var buf := Frame(reqId, p);
    ResponseBytes(status, value);
    FrameBytes(reqId, p);
    hide ResponsePayload, Frame;
    assert forall i :: 0 <= i < |p| ==> buf[10 + i] == buf[10..][i] == p[i];
    assert buf[15..] == p[5..];
  }

  // ---- encoders ----

  method WriteHeader(frameLen: nat, reqId: nat) returns (buf: Bytes)
    requires frameLen < LIM32 && reqId < LIM32
    ensures buf == Header(frameLen, reqId)
  {
    hide BE32;
    assert frameLen % LIM32 == frameLen;
    buf := BE32(frameLen);
    buf := buf + [MAGIC];
    buf := buf + [VERSION];
    buf := buf + BE32(reqId);
  }

  /** Lengths are cast to the width of their fields; the bytes themselves are appended in full. */
  method EncodeRequest(reqId: nat, opcode: byte, key: Bytes, value: Bytes) returns (buf: Bytes)
    requires reqId < LIM32
    ensures buf == Header((17 + |key| % LIM16 + |value| % LIM32) % LIM32, reqId) + KeyValuePayload(opcode, key, value)
    ensures |key| < LIM16 && 17 + |key| + |value| < LIM32 ==> buf == Frame(reqId, KeyValuePayload(opcode, key, value))
    ensures |key| < 65536 && 17 + |key| + |value| < 4294967296 ==> IsRequest(buf, reqId, opcode, key, value)
  {
    hide BE16, BE32, Header, IsRequest;
    var keyLen, valLen := |key| % LIM16, |value| % LIM32;
    var payloadLen := (1 + 2 + 4 + keyLen + valLen) % LIM32;
    var frameLen := (10 + payloadLen) % LIM32;
    buf := WriteHeader(frameLen, reqId);
    ghost var h := buf;
    buf := buf + [opcode];
    buf := buf + BE16(keyLen);
    buf := buf + BE32(valLen);
    buf := buf + key;
    buf := buf + value;
    assert buf == h + KeyValuePayload(opcode, key, value);
    if |key| < LIM16 && 17 + |key| + |value| < LIM32 { KeyValueFrameBytes(reqId, opcode, key, value); }
  }

  lemma KeyValueFrameBytes(reqId: nat, op: byte, key: Bytes, value: Bytes)
    requires reqId < LIM32 && |key| < LIM16 && 17 + |key| + |value| < LIM32
    ensures IsRequest(Frame(reqId, KeyValuePayload(op, key, value)), reqId, op, key, value)
  {
    var p := KeyValuePayload(op, key, value);
    var buf := Frame(reqId, p);
    KeyValueBytes(op, key, value);
    FrameBytes(reqId, p);
    hide KeyValuePayload, Frame;
    assert forall i :: 0 <= i < |p| ==> buf[10 + i] == buf[10..][i] == p[i];
    assert buf[17..17 + |key|] == p[7..7 + |key|] && buf[17 + |key|..] == p[7 + |key|..];
  }

  method EncodeGetRoute(reqId: nat, key: Bytes) returns (buf: Bytes)
    requires reqId < LIM32
    ensures buf == Header(13 + |key| % LIM16, reqId) + RoutePayload(key)
    ensures |key| < LIM16 ==> buf == Frame(reqId, RoutePayload(key))
  {
    hide BE16, BE32, Header;
    var keyLen := |key| % LIM16;
    var payloadLen := 1 + 2 + keyLen;
    var frameLen := 10 + payloadLen;
    buf := WriteHeader(frameLen, reqId);
    ghost var h := buf;
    buf := buf + [OP_GET_ROUTE];
    buf := buf + BE16(keyLen);
    buf := buf + key;
    assert buf == h + RoutePayload(key);
  }

  method EncodeResponse(reqId: nat, status: byte, value: Bytes) returns (buf: Bytes)
    requires reqId < LIM32
    ensures buf == Header((15 + |value| % LIM32) % LIM32, reqId) + ResponsePayload(status, value)
    ensures 15 + |value| < LIM32 ==> buf == Frame(reqId, ResponsePayload(status, value))
    ensures 15 + |value| < 4294967296 ==> IsResponse(buf, reqId, status, value)
  {
    hide BE32, Header, IsResponse;
    var valLen := |value| % LIM32;
    var payloadLen := (1 + 4 + valLen) % LIM32;
    var frameLen := (10 + payloadLen) % LIM32;
    buf := WriteHeader(frameLen, reqId);
    ghost var h := buf;
    buf := buf + [status];
    buf := buf + BE32(valLen);
    buf := buf + value;
    assert buf == h + ResponsePayload(status, value);
    if 15 + |value| < LIM32 { ResponseFrameBytes(reqId, status, value); }
  }

  method EncodeCustomRequest(reqId: nat, payload: Bytes) returns (buf: Bytes)
    requires reqId < LIM32
    ensures buf == Header((10 + |payload| % LIM32) % LIM32, reqId) + payload
    ensures 10 + |payload| < LIM32 ==> buf == Frame(reqId, payload)
  {
    hide BE32, Header;
    var payloadLen := |payload| % LIM32;
    var frameLen := (10 + payloadLen) % LIM32;
    buf := WriteHeader(frameLen, reqId);
    buf := buf + payload;
  }

  // ---- decoder ----

  /** A length field that does not even cover the header makes the payload length wrap below zero:
      the source has no defined result for it, and its callers never pass it on. */
  datatype Decoded =
    | NeedMore
    | Skip
    | BadLength
    | Got(consumed: nat, reqId: nat, payload: Bytes)

  function Decode(buf: Bytes): Decoded {
    if |buf| < 10 || |buf| < U32(buf, 0) then NeedMore
    else if buf[4] != MAGIC || buf[5] != VERSION then Skip
    else if U32(buf, 0) < 10 then BadLength
    else Got(U32(buf, 0), U32(buf, 6), buf[10..U32(buf, 0)])
  }

  method TryDecode(buf: Bytes) returns (defined: bool, ok: bool, consumed: nat, reqId: nat, payload: Bytes)
    ensures defined <==> !Decode(buf).BadLength?
    ensures ok <==> Decode(buf).Got?
    ensures ok ==> Decode(buf) == Got(consumed, reqId, payload)
    ensures defined && !ok ==> consumed == if Decode(buf).Skip? then 1 else 0
  {
    defined, ok, consumed, reqId, payload := true, false, 0, 0, [];
    if |buf| < 10 { return; }
    var frameLen := U32(buf, 0);
    if |buf| < frameLen { return; }
    if buf[4] != MAGIC {
      consumed := 1;
      return;
    }
    if buf[5] != VERSION {
      consumed := 1;
      return;
    }
    reqId := U32(buf, 6);
    if frameLen < 10 {
      defined := false;
      return;
    }
    var payloadLen := frameLen - 10;
    payload := buf[10..10 + payloadLen];
    consumed := frameLen;
    ok := true;
  }

  lemma FrameParts(reqId: nat, payload: Bytes, rest: Bytes)
    requires reqId < LIM32 && 10 + |payload| < LIM32
    ensures var b := Frame(reqId, payload) + rest;
            && U32(b, 0) == 10 + |payload| && b[4] == MAGIC && b[5] == VERSION && U32(b, 6) == reqId
            && b[10..10 + |payload|] == payload && b[..10 + |payload|] == Frame(reqId, payload)
  {
    hide U32, BE32;
    var b := Frame(reqId, payload) + rest;
    assert b[0..4] == BE32(10 + |payload|);
    assert b[6..10] == BE32(reqId);
    U32Is(b, 0, 10 + |payload|);
    U32Is(b, 6, reqId);
  }

  /** The decoder is the exact inverse of framing, whatever follows the frame: it answers a frame if and
      only if the buffer starts with that very frame. */
  lemma DecodeIffFrame(buf: Bytes, consumed: nat, reqId: nat, payload: Bytes)
    ensures Decode(buf) == Got(consumed, reqId, payload)
       <==> reqId < LIM32 && consumed == 10 + |payload| < LIM32 && consumed <= |buf|
            && buf[..consumed] == Frame(reqId, payload)
  {
    hide Header, BE32, U32;
    if reqId < LIM32 && consumed == 10 + |payload| < LIM32 && consumed <= |buf|
       && buf[..consumed] == Frame(reqId, payload)
    {
      var rest := buf[consumed..];
      assert buf == Frame(reqId, payload) + rest;
      FrameParts(reqId, payload, rest);
    }
    if Decode(buf) == Got(consumed, reqId, payload) {
      HeaderIs(buf, consumed, reqId);
      assert buf[..consumed] == buf[..10] + buf[10..consumed];
    }
  }

  lemma HeaderIs(buf: Bytes, n: nat, reqId: nat)
    requires |buf| >= 10 && n < LIM32 && reqId < LIM32
    requires U32(buf, 0) == n && buf[4] == MAGIC && buf[5] == VERSION && U32(buf, 6) == reqId
    ensures buf[..10] == Header(n, reqId)
  {
    hide BE32, U32;
    U32Is(buf, 0, n);
    U32Is(buf, 6, reqId);
    assert buf[..10] == buf[0..4] + [buf[4], buf[5]] + buf[6..10];
  }
}
