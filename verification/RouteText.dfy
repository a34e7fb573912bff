/** The textual route table: how the master prints it, how the client splits it up again and searches
    it, and when the two agree on the owner of a key. */
module RouteText {
  import opened ByteStrings
  import opened Tablets

  const COLON: byte := 58
  const SPACE: byte := 32
  const ZERO: byte := 48

  datatype Peer = Peer(id: nat, ip: Bytes, port: nat)

  /** A route table entry as the client keeps it. */
  datatype CachedTablet = CachedTablet(id: nat, start: Bytes, end: Bytes, addr: Bytes)

  /** The characters that end a token. */
  predicate IsSpace(c: byte) {
    9 <= c <= 13 || c == SPACE
  }

  predicate IsDigit(c: byte) {
    48 <= c <= 57
  }

  ghost predicate NoSpace(s: Bytes) {
    forall i :: 0 <= i < |s| ==> !IsSpace(s[i])
  }

  /** Neither a separator of fields nor one of entries occurs in s. */
  ghost predicate Clean(s: Bytes) {
    COLON !in s && NoSpace(s)
  }

  // ---- decimal numbers ----

  function Decimal(n: nat): (s: Bytes)
    ensures s != []
    ensures forall i :: 0 <= i < |s| ==> IsDigit(s[i])
  {
    if n < 10 then [48 + n] else Decimal(n / 10) + [48 + n % 10]
  }

  /** The number a string of digits spells. */
  function Value(s: Bytes): nat
    requires forall i :: 0 <= i < |s| ==> IsDigit(s[i])
  {
    if s == [] then 0
    else
      assert IsDigit(s[|s| - 1]);
      10 * Value(s[..|s| - 1]) + (s[|s| - 1] as int - ZERO as int)
  }

  lemma {:induction false} ValueOfDecimal(n: nat)
    ensures Value(Decimal(n)) == n
  {
    var s := Decimal(n);
    if n >= 10 {
      ValueOfDecimal(n / 10);
      assert s[..|s| - 1] == Decimal(n / 10);
    } else {
      assert |s[..0]| == 0;
    }
  }

  /** How many characters at the front are digits. */
  function DigitCount(s: Bytes): (n: nat)
    ensures n <= |s|
    ensures forall i :: 0 <= i < n ==> IsDigit(s[i])
  {
    if s == [] || !IsDigit(s[0]) then 0 else 1 + DigitCount(s[1..])
  }

  lemma {:induction false} DigitsThenOther(d: Bytes, rest: Bytes)
    requires forall i :: 0 <= i < |d| ==> IsDigit(d[i])
    requires rest == [] || !IsDigit(rest[0])
    ensures DigitCount(d + rest) == |d|
  {
    if d == [] {
      assert d + rest == rest;
    } else {
      assert (d + rest)[1..] == d[1..] + rest;
      DigitsThenOther(d[1..], rest);
    }
  }

  // ---- splitting at a separator ----

  /** Position of the first separator, or the length if there is none. */
  function IndexOf(s: Bytes, sep: byte): (i: nat)
    ensures i <= |s|
    ensures forall j :: 0 <= j < i ==> s[j] != sep
    ensures i < |s| ==> s[i] == sep
  {
    if s == [] || s[0] == sep then 0 else 1 + IndexOf(s[1..], sep)
  }

  function Split(s: Bytes, sep: byte): seq<Bytes>
    decreases |s|
  {
    var i := IndexOf(s, sep);
    if i == |s| then [s] else [s[..i]] + Split(s[i + 1..], sep)
  }

  lemma {:induction false} IndexAfter(a: Bytes, sep: byte, rest: Bytes)
    requires sep !in a
    ensures IndexOf(a + [sep] + rest, sep) == |a|
  {
    var s := a + [sep] + rest;
    assert s[|a|] == sep;
    assert forall i :: 0 <= i < |a| ==> s[i] == a[i] && a[i] in a;
  }

  lemma SplitFirst(a: Bytes, sep: byte, rest: Bytes)
    requires sep !in a
    ensures Split(a + [sep] + rest, sep) == [a] + Split(rest, sep)
  {
    var s := a + [sep] + rest;
    IndexAfter(a, sep, rest);
    assert s[..|a|] == a && s[|a| + 1..] == rest;
  }

  lemma SplitLast(a: Bytes, sep: byte)
    requires sep !in a
    ensures Split(a, sep) == [a]
  {}

  lemma {:induction false} SplitParts(s: Bytes, sep: byte)
    ensures forall i :: 0 <= i < |Split(s, sep)| ==> sep !in Split(s, sep)[i]
    ensures forall i, c :: 0 <= i < |Split(s, sep)| && c in Split(s, sep)[i] ==> c in s
    decreases |s|
  {
    var i := IndexOf(s, sep);
    if i < |s| {
      SplitParts(s[i + 1..], sep);
      assert forall c :: c in s[i + 1..] || c in s[..i] ==> c in s;
    }
  }

  // ---- tokens ----

  function TokenLength(s: Bytes): (n: nat)
    ensures n <= |s|
    ensures forall i :: 0 <= i < n ==> !IsSpace(s[i])
    ensures n < |s| ==> IsSpace(s[n])
  {
    if s == [] || IsSpace(s[0]) then 0 else 1 + TokenLength(s[1..])
  }

  /** What repeated extraction of strings from a stream yields. */
  function Tokens(s: Bytes): seq<Bytes>
    decreases |s|
  {
    if s == [] then []
    else if IsSpace(s[0]) then Tokens(s[1..])
    else
      var n := TokenLength(s);
      if n == 0 then [] else [s[..n]] + Tokens(s[n..])
  }

  lemma TokenFirst(a: Bytes, rest: Bytes)
    requires a != [] && NoSpace(a) && (rest == [] || IsSpace(rest[0]))
    ensures Tokens(a + rest) == [a] + Tokens(rest)
  {
    var s := a + rest;
    var n := TokenLength(s);
    assert forall i :: 0 <= i < |a| ==> s[i] == a[i];
    assert rest != [] ==> s[|a|] == rest[0];
    assert s[..n] == a && s[n..] == rest;
  }

  lemma {:induction false} TokensHaveNoSpace(s: Bytes)
    ensures forall i :: 0 <= i < |Tokens(s)| ==> NoSpace(Tokens(s)[i])
    decreases |s|
  {
    if s != [] {
      if IsSpace(s[0]) { TokensHaveNoSpace(s[1..]); }
      else { TokensHaveNoSpace(s[TokenLength(s)..]); }
    }
  }

  // ---- printing ----

  /** The address of a node, empty for a node that is no peer. */
  function Address(peers: seq<Peer>, node: nat): Bytes {
    if peers == [] then []
    else if peers[0].id == node then peers[0].ip + [COLON] + Decimal(peers[0].port)
    else Address(peers[1..], node)
  }

  /** The master's search for a node's address: the first peer with that id. */
  method GetNodeAddr(peers: seq<Peer>, node: nat) returns (addr: Bytes)
    ensures addr == Address(peers, node)
    ensures Known(peers, node) ==> exists i :: 0 <= i < |peers| && peers[i].id == node
                                     && addr == peers[i].ip + [COLON] + Decimal(peers[i].port)
    ensures !Known(peers, node) ==> addr == []
  {
    hide Decimal;
    var i := 0;
    while i < |peers|
      invariant i <= |peers| && forall j :: 0 <= j < i ==> peers[j].id != node
      invariant Address(peers, node) == Address(peers[i..], node)
    {
      if peers[i].id == node { return peers[i].ip + [COLON] + Decimal(peers[i].port); }
      i := i + 1;
    }
    return [];
  }

  predicate Known(peers: seq<Peer>, node: nat) {
    exists i :: 0 <= i < |peers| && peers[i].id == node
  }

  function Segment(t: Tablet, peers: seq<Peer>): Bytes {
    Decimal(t.id) + [COLON] + t.start + [COLON] + t.end + [COLON] + Address(peers, t.node)
  }

  /** The segments, each but the first after a space. */
  function Segments(ts: seq<Tablet>, peers: seq<Peer>): Bytes {
    if ts == [] then []
    else if |ts| == 1 then Segment(ts[0], peers)
    else Segments(ts[..|ts| - 1], peers) + [SPACE] + Segment(ts[|ts| - 1], peers)
  }

  function PrintedTable(ts: seq<Tablet>, peers: seq<Peer>): Bytes {
    Decimal(|ts|) + [SPACE] + Segments(ts, peers)
  }

  /** The printed text by its bytes: the number of tablets and a space (32), then for each tablet, after
      one more space unless it is the first, its identifier, start, end and address, the four of them
      joined by colons (58); an address is the ip, a colon, the port. */
  lemma PrintedBytes(ts: seq<Tablet>, t: Tablet, peers: seq<Peer>)
    ensures PrintedTable(ts, peers) == Decimal(|ts|) + [32] + Segments(ts, peers)
    ensures Segments([], peers) == []
    ensures Segments(ts + [t], peers)
            == (if ts == [] then [] else Segments(ts, peers) + [32])
               + (Decimal(t.id) + [58] + t.start + [58] + t.end + [58] + Address(peers, t.node))
    ensures forall i :: FirstPeer(peers, t.node, i) ==>
              Address(peers, t.node) == peers[i].ip + [58] + Decimal(peers[i].port)
  {
    hide Decimal, Address;
    var us := ts + [t];
    assert us[..|us| - 1] == ts && us[|us| - 1] == t;
    if ts == [] { assert [] + Segment(t, peers) == Segment(t, peers); }
    forall i | FirstPeer(peers, t.node, i)
      ensures Address(peers, t.node) == peers[i].ip + [58] + Decimal(peers[i].port)
    {
      AddressIsFirst(peers, t.node, i);
    }
  }

  /** The first peer with that id. */
  ghost predicate FirstPeer(peers: seq<Peer>, node: nat, i: int) {
    0 <= i < |peers| && peers[i].id == node && forall j :: 0 <= j < i ==> peers[j].id != node
  }

  lemma {:induction false} AddressIsFirst(peers: seq<Peer>, node: nat, i: int)
    requires FirstPeer(peers, node, i)
    ensures Address(peers, node) == peers[i].ip + [58] + Decimal(peers[i].port)
    decreases |peers|
  {
    hide Decimal;
    if i > 0 {
      assert peers[0].id != node;
      AddressIsFirst(peers[1..], node, i - 1);
    }
  }

  /** Decimal digits are the bytes from 48 on, the last one for the remainder by ten. */
  lemma DecimalBytes(n: nat)
    ensures Decimal(n) == if n < 10 then [48 + n] else Decimal(n / 10) + [48 + n % 10]
  {}

  /** For one, a first start on two nodes with ports 8001 and 8002 prints as
      "2 1::m:" ip ":8001 2:m::" ip ":8002". */
  lemma InitialTablePrinted(ip1: Bytes, ip2: Bytes)
    ensures PrintedTable(InitialTable(1, 2).tablets, [Peer(1, ip1, 8001), Peer(2, ip2, 8002)])
            == [50, 32] + ([49, 58, 58, 109, 58] + ip1 + [58, 56, 48, 48, 49])
               + [32] + [50, 58, 109, 58, 58] + ip2 + [58, 56, 48, 48, 50]
  {
    hide Decimal, Address, Segments, PrintedTable, InitialTable;
    var peers := [Peer(1, ip1, 8001), Peer(2, ip2, 8002)];
    var first, second := Tablet(1, [], LETTER_M, 1, 0), Tablet(2, LETTER_M, [], 2, 0);
    var ts := InitialTable(1, 2).tablets;
    InitialTwo();
    PrintedBytes([], first, peers);
    PrintedBytes([first], second, peers);
    PrintedBytes(ts, second, peers);
    assert [] + [first] == [first] && [first] + [second] == ts;
    FirstEntryPrinted(ip1, peers);
    SecondEntryPrinted(ip2, peers);
    OneDigit();
    Laid([49, 58, 58, 109, 58] + ip1 + [58, 56, 48, 48, 49], [50, 58, 109, 58, 58], ip2, [58, 56, 48, 48, 50]);
  }

  lemma InitialTwo()
    ensures InitialTable(1, 2).tablets == [Tablet(1, [], LETTER_M, 1, 0), Tablet(2, LETTER_M, [], 2, 0)]
  {}

  lemma OneDigit()
    ensures Decimal(1) == [49] && Decimal(2) == [50]
  {}

  lemma FirstEntryPrinted(ip: Bytes, peers: seq<Peer>)
    requires peers != [] && peers[0] == Peer(1, ip, 8001)
    ensures Decimal(1) + [58] + [] + [58] + LETTER_M + [58] + Address(peers, 1)
            == [49, 58, 58, 109, 58] + ip + [58, 56, 48, 48, 49]
  {
    hide Decimal, Address;
    AddressIsFirst(peers, 1, 0);
    Port800(1);
    OneDigit();
  }

  lemma SecondEntryPrinted(ip: Bytes, peers: seq<Peer>)
    requires |peers| >= 2 && peers[0].id == 1 && peers[1] == Peer(2, ip, 8002)
    ensures Decimal(2) + [58] + LETTER_M + [58] + [] + [58] + Address(peers, 2)
            == [50, 58, 109, 58, 58] + ip + [58, 56, 48, 48, 50]
  {
    hide Decimal, Address;
    AddressIsFirst(peers, 2, 1);
    Port800(2);
    OneDigit();
  }

  lemma Laid(one: Bytes, a: Bytes, b: Bytes, c: Bytes)
    ensures [50] + [32] + (([] + one) + [32] + (a + b + c)) == [50, 32] + one + [32] + a + b + c
  {}

  lemma Port800(d: nat)
    requires d < 10
    ensures Decimal(8000 + d) == [56, 48, 48, 48 + d]
  {
    DecimalBytes(8000 + d);
    DecimalBytes(800);
    DecimalBytes(80);
    DecimalBytes(8);
    assert (8000 + d) / 10 == 800 && (8000 + d) % 10 == d;
  }

  /** The master's reply body. */
  method HandleMasterShards(tablets: seq<Tablet>, peers: seq<Peer>) returns (body: Bytes)
    ensures body == PrintedTable(tablets, peers)
  {
    hide Decimal, Address;
    body := Decimal(|tablets|) + [SPACE];
    ghost var head := body;
    var first := true;
    var i := 0;
    while i < |tablets|
      invariant i <= |tablets| && (first <==> i == 0)
      invariant body == head + Segments(tablets[..i], peers)
    {
      ghost var before := body;
      if !first { body := body + [SPACE]; }
      var addr := GetNodeAddr(peers, tablets[i].node);
      var t := tablets[i];
      body := body + (Decimal(t.id) + [COLON] + t.start + [COLON] + t.end + [COLON] + addr);
      assert Segment(t, peers) == Decimal(t.id) + [COLON] + t.start + [COLON] + t.end + [COLON] + addr;
      assert tablets[..i + 1][..i] == tablets[..i];
      first := false;
      i := i + 1;
    }
    assert tablets[..i] == tablets;
  }

  // ---- parsing ----

  /** One token as a table entry. Fewer than four parts are ignored; exactly four, or an identifier
      that is no number, is where the source has no defined result. */
  datatype ParsedSegment = Ignored | Entry(tablet: CachedTablet) | Undefined

  function ParseSegment(segment: Bytes): ParsedSegment {
    var parts := Split(segment, COLON);
    if |parts| < 4 then Ignored
    else if |parts| == 4 || DigitCount(parts[0]) == 0 then Undefined
    else Entry(CachedTablet(Value(parts[0][..DigitCount(parts[0])]), parts[1], parts[2], parts[3] + [COLON] + parts[4]))
  }

  /** All entries of a list of tokens, or nothing if some token is undefined. */
  function ParseSegments(tokens: seq<Bytes>): Option<seq<CachedTablet>>
    decreases |tokens|
  {
    if tokens == [] then Some([])
    else match ParseSegments(tokens[..|tokens| - 1])
      case None => None
      case Some(cs) =>
        match ParseSegment(tokens[|tokens| - 1])
        case Ignored => Some(cs)
        case Entry(c) => Some(cs + [c])
        case Undefined => None
  }

  /** The count at the front is skipped; without one nothing is read at all. */
  function ParseTable(body: Bytes): Option<seq<CachedTablet>> {
    var n := DigitCount(body);
    if n == 0 then Some([]) else ParseSegments(Tokens(body[n..]))
  }

  /** Cut a token at its colons. */
  method SplitSegment(segment: Bytes) returns (parts: seq<Bytes>)
    ensures parts == Split(segment, COLON)
  {
    hide IndexOf, Split;
    parts := [];
    var pos := 0;
    assert segment[0..] == segment && [] + Split(segment, COLON) == Split(segment, COLON);
    while true
      invariant pos <= |segment|
      invariant parts + Split(segment[pos..], COLON) == Split(segment, COLON)
      decreases |segment| - pos
    {
      var c := pos + IndexOf(segment[pos..], COLON);
      SplitFrom(segment, pos, parts);
      if c == |segment| {
        parts := parts + [segment[pos..]];
        return;
      }
      parts := parts + [segment[pos..c]];
      pos := c + 1;
    }
  }

  /** Splitting the tail of s is its first part, then splitting what follows the next colon. */
  lemma SplitFrom(s: Bytes, pos: nat, parts: seq<Bytes>)
    requires pos <= |s|
    ensures var c := pos + IndexOf(s[pos..], COLON);
            if c == |s| then Split(s[pos..], COLON) == [s[pos..]]
            else parts + Split(s[pos..], COLON) == parts + [s[pos..c]] + Split(s[c + 1..], COLON)
  {
    hide IndexOf;
    var c := pos + IndexOf(s[pos..], COLON);
    if c < |s| {
      assert s[pos..][..c - pos] == s[pos..c] && s[pos..][c - pos + 1..] == s[c + 1..];
    }
  }

  /** The parsing half of FetchRouteTable. */
  method ReadTable(body: Bytes) returns (ok: bool, table: seq<CachedTablet>)
    ensures ok <==> ParseTable(body).Some?
    ensures ok ==> ParseTable(body) == Some(table)
  {
    hide Tokens, Value;
    ok, table := true, [];
    var n := DigitCount(body);
    if n == 0 { return; }
    var tokens := Tokens(body[n..]);
    var i := 0;
    while i < |tokens|
      invariant i <= |tokens|
      invariant ParseSegments(tokens[..i]) == Some(table)
    {
      assert tokens[..i + 1][..i] == tokens[..i];
      var parts := SplitSegment(tokens[i]);
      if |parts| >= 4 {
        if |parts| == 4 || DigitCount(parts[0]) == 0 {
          UndefinedStays(tokens, i + 1);
          return false, [];
        }
        table := table + [CachedTablet(Value(parts[0][..DigitCount(parts[0])]), parts[1], parts[2],
                                       parts[3] + [COLON] + parts[4])];
      }
      i := i + 1;
    }
    assert tokens[..i] == tokens;
  }

  lemma {:induction false} UndefinedStays(tokens: seq<Bytes>, i: nat)
    requires i <= |tokens| && ParseSegments(tokens[..i]) == None
    ensures ParseSegments(tokens) == None
    decreases |tokens|
  {
    if i == |tokens| {
      assert tokens[..i] == tokens;
    } else {
      assert tokens[..|tokens| - 1][..i] == tokens[..i];
      UndefinedStays(tokens[..|tokens| - 1], i);
    }
  }

  // ---- the round trip ----

  function Cached(ts: seq<Tablet>, peers: seq<Peer>): (cs: seq<CachedTablet>)
    ensures |cs| == |ts|
    ensures forall i :: 0 <= i < |ts| ==>
              cs[i] == CachedTablet(ts[i].id, ts[i].start, ts[i].end, Address(peers, ts[i].node))
  {
    seq(|ts|, i requires 0 <= i < |ts| => CachedTablet(ts[i].id, ts[i].start, ts[i].end, Address(peers, ts[i].node)))
  }

  /** Addresses are an address without separators, a colon and a port, and every owner has one. */
  ghost predicate PeersOk(ts: seq<Tablet>, peers: seq<Peer>) {
    && (forall i :: 0 <= i < |peers| ==> Clean(peers[i].ip))
    && (forall i :: 0 <= i < |ts| ==> Known(peers, ts[i].node))
  }

  ghost predicate CleanBounds(ts: seq<Tablet>) {
    forall i :: 0 <= i < |ts| ==> Clean(ts[i].start) && Clean(ts[i].end)
  }

  lemma DecimalIsClean(n: nat)
    ensures Clean(Decimal(n))
  {
    var d := Decimal(n);
    forall i | 0 <= i < |d| ensures d[i] != COLON && !IsSpace(d[i]) { assert IsDigit(d[i]); }
  }

  lemma {:induction false} AddressParts(peers: seq<Peer>, node: nat) returns (ip: Bytes, port: Bytes)
    requires (forall i :: 0 <= i < |peers| ==> Clean(peers[i].ip)) && Known(peers, node)
    ensures Clean(ip) && Clean(port) && Address(peers, node) == ip + [COLON] + port
  {
    if peers[0].id == node {
      ip, port := peers[0].ip, Decimal(peers[0].port);
      DecimalIsClean(peers[0].port);
    } else {
      var i :| 0 <= i < |peers| && peers[i].id == node;
      assert peers[1..][i - 1].id == node;
      ip, port := AddressParts(peers[1..], node);
    }
  }

  lemma SplitFive(a: Bytes, b: Bytes, c: Bytes, d: Bytes, e: Bytes)
    requires COLON !in a && COLON !in b && COLON !in c && COLON !in d && COLON !in e
    ensures Split(a + [COLON] + b + [COLON] + c + [COLON] + (d + [COLON] + e), COLON) == [a, b, c, d, e]
  {
    hide Split;
    var r3 := d + [COLON] + e;
    var r2 := c + [COLON] + r3;
    var r1 := b + [COLON] + r2;
    var s := a + [COLON] + b + [COLON] + c + [COLON] + r3;
    assert s == a + [COLON] + r1;
    SplitFirst(a, COLON, r1);
    SplitFirst(b, COLON, r2);
    SplitFirst(c, COLON, r3);
    SplitFirst(d, COLON, e);
    SplitLast(e, COLON);
  }

  lemma SegmentParts(t: Tablet, peers: seq<Peer>) returns (ip: Bytes, port: Bytes)
    requires (forall i :: 0 <= i < |peers| ==> Clean(peers[i].ip)) && Known(peers, t.node)
    requires Clean(t.start) && Clean(t.end)
    ensures Split(Segment(t, peers), COLON) == [Decimal(t.id), t.start, t.end, ip, port]
    ensures Address(peers, t.node) == ip + [COLON] + port && NoSpace(Address(peers, t.node))
  {
    hide Decimal, Split, Address, NoSpace, Known;
    ip, port := AddressParts(peers, t.node);
    DecimalIsClean(t.id);
    SplitFive(Decimal(t.id), t.start, t.end, ip, port);
    JoinNoSpace(ip, port);
  }

  lemma JoinNoSpace(a: Bytes, b: Bytes)
    requires NoSpace(a) && NoSpace(b)
    ensures NoSpace(a + [COLON] + b)
  {}

  lemma IdOfDecimal(n: nat)
    ensures DigitCount(Decimal(n)) == |Decimal(n)| > 0
    ensures Value(Decimal(n)[..DigitCount(Decimal(n))]) == n
  {
    hide Decimal, Value;
    var d := Decimal(n);
    DigitsThenOther(d, []);
    assert d + [] == d && d[..|d|] == d;
    ValueOfDecimal(n);
  }

  /** A printed entry with clean fields is one token that parses back to itself. */
  lemma SegmentRoundTrip(t: Tablet, peers: seq<Peer>)
    requires (forall i :: 0 <= i < |peers| ==> Clean(peers[i].ip)) && Known(peers, t.node)
    requires Clean(t.start) && Clean(t.end)
    ensures NoSpace(Segment(t, peers)) && Segment(t, peers) != []
    ensures ParseSegment(Segment(t, peers)) == Entry(CachedTablet(t.id, t.start, t.end, Address(peers, t.node)))
  {
    hide Decimal, Split, Value, Address, NoSpace, Known, DigitCount;
    var ip, port := SegmentParts(t, peers);
    IdOfDecimal(t.id);
    DecimalIsClean(t.id);
    ConcatNoSpace(Decimal(t.id), t.start, t.end, Address(peers, t.node));
    hide Segment;
  }

  lemma ConcatNoSpace(a: Bytes, b: Bytes, c: Bytes, d: Bytes)
    requires NoSpace(a) && NoSpace(b) && NoSpace(c) && NoSpace(d)
    ensures NoSpace(a + [COLON] + b + [COLON] + c + [COLON] + d)
  {
    var s := a + [COLON] + b + [COLON] + c + [COLON] + d;
    forall i | 0 <= i < |s| ensures !IsSpace(s[i]) {
      assert s[i] in a || s[i] in b || s[i] in c || s[i] in d || s[i] == COLON;
    }
  }

  lemma {:induction false} TokensAppend(a: Bytes, b: Bytes)
    requires b != [] && NoSpace(b)
    ensures Tokens(a + [SPACE] + b) == Tokens(a) + [b]
    decreases |a|
  {
    var s := a + [SPACE] + b;
    if a == [] {
      assert s[1..] == b;
      TokenFirst(b, []);
      assert b + [] == b;
    } else if IsSpace(a[0]) {
      assert s[1..] == a[1..] + [SPACE] + b;
      TokensAppend(a[1..], b);
    } else {
      var n := TokenLength(a);
      var first, rest := a[..n], a[n..];
      assert a == first + rest && s == first + (rest + [SPACE] + b);
      assert NoSpace(first);
      TokenFirst(first, rest);
      TokenFirst(first, rest + [SPACE] + b);
      TokensAppend(rest, b);
    }
  }

  /** Printing one more entry adds one more token. */
  lemma SegmentsTokens(ts: seq<Tablet>, peers: seq<Peer>)
    requires ts != [] && NoSpace(Segment(ts[|ts| - 1], peers)) && Segment(ts[|ts| - 1], peers) != []
    ensures Tokens(Segments(ts, peers)) == Tokens(Segments(ts[..|ts| - 1], peers)) + [Segment(ts[|ts| - 1], peers)]
  {
    hide Segment, Tokens, NoSpace;
    var p, last := ts[..|ts| - 1], Segment(ts[|ts| - 1], peers);
    if |ts| == 1 {
      TokenFirst(last, []);
      assert last + [] == last;
      NoTokens();
      assert Segments(p, peers) == [];
      assert [last] + Tokens([]) == Tokens([]) + [last];
    } else {
      TokensAppend(Segments(p, peers), last);
    }
  }

  lemma {:induction false} SegmentsRoundTrip(ts: seq<Tablet>, peers: seq<Peer>)
    requires PeersOk(ts, peers) && CleanBounds(ts)
    ensures ParseSegments(Tokens(Segments(ts, peers))) == Some(Cached(ts, peers))
    decreases |ts|
  {
    hide Segment, Tokens, ParseSegment, Known, Address, Clean, Segments, NoSpace;
    if ts == [] {
      NoSegments(peers);
    } else {
      var p, t := ts[..|ts| - 1], ts[|ts| - 1];
      SegmentRoundTrip(t, peers);
      SegmentsRoundTrip(p, peers);
      SegmentsTokens(ts, peers);
      var toks := Tokens(Segments(ts, peers));
      assert toks[..|toks| - 1] == Tokens(Segments(p, peers));
      assert Cached(ts, peers) == Cached(p, peers) + [CachedTablet(t.id, t.start, t.end, Address(peers, t.node))];
    }
  }

  lemma NoSegments(peers: seq<Peer>)
    ensures Tokens(Segments([], peers)) == []
  {}

  lemma NoTokens()
    ensures Tokens([]) == []
  {}

  /** Whatever the client parses has bounds without separators. */
  lemma {:induction false} ParsedBoundsAreClean(tokens: seq<Bytes>)
    requires (forall i :: 0 <= i < |tokens| ==> NoSpace(tokens[i])) && ParseSegments(tokens).Some?
    ensures forall i :: 0 <= i < |ParseSegments(tokens).value| ==>
              Clean(ParseSegments(tokens).value[i].start) && Clean(ParseSegments(tokens).value[i].end)
    decreases |tokens|
  {
    hide Split, Value;
    if tokens != [] {
      var last := tokens[|tokens| - 1];
      ParsedBoundsAreClean(tokens[..|tokens| - 1]);
      SplitParts(last, COLON);
      PartsHaveNoSpace(last);
    }
  }

  lemma PartsHaveNoSpace(s: Bytes)
    requires NoSpace(s)
    ensures forall i :: 0 <= i < |Split(s, COLON)| ==> NoSpace(Split(s, COLON)[i])
  {
    hide Split;
    SplitParts(s, COLON);
    var parts := Split(s, COLON);
    forall i, j | 0 <= i < |parts| && 0 <= j < |parts[i]| ensures !IsSpace(parts[i][j]) {
      assert parts[i][j] in parts[i] && parts[i][j] in s;
    }
  }

  /** By the bytes: no colon, no space, no tab, line feed, vertical tab, form feed or carriage return. */
  predicate NoSeparator(s: Bytes) {
    58 !in s && 32 !in s && 9 !in s && 10 !in s && 11 !in s && 12 !in s && 13 !in s
  }

  lemma CleanBytes(s: Bytes)
    ensures Clean(s) <==> NoSeparator(s)
  {
    assert forall i :: 0 <= i < |s| ==> s[i] in s;
  }

  /** The client reads the master's table back, entry by entry, if and only if no bound of any tablet
      contains a colon or white space. */
  lemma TableSurvivesIffClean(ts: seq<Tablet>, peers: seq<Peer>)
    requires PeersOk(ts, peers)
    ensures ParseTable(PrintedTable(ts, peers)) == Some(Cached(ts, peers)) <==> CleanBounds(ts)
    ensures CleanBounds(ts) <==> forall i :: 0 <= i < |ts| ==> NoSeparator(ts[i].start) && NoSeparator(ts[i].end)
  {
    hide Decimal, Tokens, ParseSegments, Segments, DigitCount, Clean, Known;
    hide NoSeparator;
    forall i | 0 <= i < |ts|
      ensures Clean(ts[i].start) <==> NoSeparator(ts[i].start)
      ensures Clean(ts[i].end) <==> NoSeparator(ts[i].end)
    {
      CleanBytes(ts[i].start);
      CleanBytes(ts[i].end);
    }
    var n, rest := Decimal(|ts|), [SPACE] + Segments(ts, peers);
    var body := PrintedTable(ts, peers);
    assert body == n + rest;
    DigitsThenOther(n, rest);
    assert body[|n|..] == rest;
    SpaceFirst(Segments(ts, peers));
    if CleanBounds(ts) {
      SegmentsRoundTrip(ts, peers);
    }
    if ParseTable(body) == Some(Cached(ts, peers)) {
      TokensHaveNoSpace(rest);
      ParsedBoundsAreClean(Tokens(rest));
      forall i | 0 <= i < |ts| ensures Clean(ts[i].start) && Clean(ts[i].end) {
        assert Cached(ts, peers)[i].start == ts[i].start && Cached(ts, peers)[i].end == ts[i].end;
      }
    }
  }

  lemma SpaceFirst(s: Bytes)
    ensures Tokens([SPACE] + s) == Tokens(s)
  {
    assert ([SPACE] + s)[1..] == s;
  }

  // ---- sorting and searching ----

  /** out is in sorted, by start. */
  ghost predicate IsSortOf(sorted: seq<CachedTablet>, table: seq<CachedTablet>) {
    multiset(sorted) == multiset(table)
    && forall i, j :: 0 <= i < j < |sorted| ==> AtMost(sorted[i].start, sorted[j].start)
  }

  ghost predicate StartsAscend(cs: seq<CachedTablet>) {
    forall i, j :: 0 <= i < j < |cs| ==> Less(cs[i].start, cs[j].start)
  }

  /** Sorting a table whose starts already ascend strictly changes nothing, however it is done. */
  lemma {:induction false} SortIsIdentity(sorted: seq<CachedTablet>, table: seq<CachedTablet>)
    requires IsSortOf(sorted, table) && StartsAscend(table)
    ensures sorted == table
    decreases |table|
  {
    hide *;
    SameSize(sorted, table);
    if table != [] {
      SortedFirst(sorted, table);
      SortedTail(sorted, table);
      SortIsIdentity(sorted[1..], table[1..]);
      assert sorted == [sorted[0]] + sorted[1..] && table == [table[0]] + table[1..];
    }
  }

  lemma SameSize(sorted: seq<CachedTablet>, table: seq<CachedTablet>)
    requires IsSortOf(sorted, table)
    ensures |sorted| == |table|
  {
    hide AtMost;
    assert |multiset(sorted)| == |sorted| && |multiset(table)| == |table|;
  }

  lemma SortedFirst(sorted: seq<CachedTablet>, table: seq<CachedTablet>)
    requires IsSortOf(sorted, table) && StartsAscend(table) && |sorted| == |table| > 0
    ensures sorted[0] == table[0]
  {
    hide Less, AtMost;
    var a, b := sorted[0], table[0];
    assert a in multiset(sorted) && b in multiset(table);
    var i :| 0 <= i < |table| && table[i] == a;
    var j :| 0 <= j < |sorted| && sorted[j] == b;
    AtMostIsNotLess(a.start, b.start);
  }

  lemma SortedTail(sorted: seq<CachedTablet>, table: seq<CachedTablet>)
    requires IsSortOf(sorted, table) && StartsAscend(table) && |sorted| == |table| > 0 && sorted[0] == table[0]
    ensures IsSortOf(sorted[1..], table[1..]) && StartsAscend(table[1..])
  {
    hide Less, AtMost;
    assert sorted == [sorted[0]] + sorted[1..] && table == [table[0]] + table[1..];
    assert multiset(sorted) == multiset{sorted[0]} + multiset(sorted[1..]);
    assert multiset(table) == multiset{table[0]} + multiset(table[1..]);
    assert multiset(sorted[1..]) == multiset(sorted) - multiset{sorted[0]};
    assert multiset(table[1..]) == multiset(table) - multiset{table[0]};
  }

  predicate HoldsKey(c: CachedTablet, k: Bytes) {
    InRange(k, c.start, c.end)
  }

  /** Sorted by start, and no range reaches into the next one. */
  ghost predicate OrderedCache(cs: seq<CachedTablet>) {
    forall i, j :: 0 <= i < j < |cs| ==>
      Less(cs[i].start, cs[j].start) && cs[i].end != [] && AtMost(cs[i].end, cs[j].start)
  }

  /** The client's search: an address is found exactly when some entry holds the key, and it is that
      entry's address. */
  method FindRoute(tablets: seq<CachedTablet>, key: Bytes) returns (addr: Option<Bytes>)
    requires OrderedCache(tablets)
    ensures addr.Some? <==> exists i :: 0 <= i < |tablets| && HoldsKey(tablets[i], key)
    ensures forall i :: 0 <= i < |tablets| && HoldsKey(tablets[i], key) ==> addr == Some(tablets[i].addr)
  {
    hide Less;
    LessIsStrictTotal();
    LessAsymmetric();
    if tablets == [] { return None; }
    var left, right := 0, |tablets|;
    while left < right
      invariant 0 <= left <= right <= |tablets|
      invariant forall j :: 0 <= j < left ==> AtMost(tablets[j].start, key)
      invariant forall j :: right <= j < |tablets| ==> Less(key, tablets[j].start)
    {
      var mid := left + (right - left) / 2;
      if AtMost(tablets[mid].start, key) { left := mid + 1; } else { right := mid; }
    }
    if left == 0 { return None; }
    var t := tablets[left - 1];
    if t.end != [] && AtMost(t.end, key) { return None; }
    return Some(t.addr);
  }

  lemma CachedOrdered(ts: seq<Tablet>, peers: seq<Peer>)
    requires Partition(ts)
    ensures OrderedCache(Cached(ts, peers)) && StartsAscend(Cached(ts, peers))
  {
    PartitionOrdered(ts);
    hide Less, Partition, Address;
    var cs := Cached(ts, peers);
    forall i, j | 0 <= i < j < |cs|
      ensures Less(cs[i].start, cs[j].start) && cs[i].end != [] && AtMost(cs[i].end, cs[j].start)
    {
      assert Less(ts[i].start, ts[j].start) && ts[i].end != [] && AtMost(ts[i].end, ts[j].start);
    }
  }

  /** Client and master agree: print the table, parse it, sort it in any way, search it, and the result
      is the address of the node the master routes the key to. */
  method RouteAtClient(tablets: seq<Tablet>, peers: seq<Peer>, sorted: seq<CachedTablet>, key: Bytes)
    returns (addr: Option<Bytes>)
    requires Partition(tablets) && PeersOk(tablets, peers) && CleanBounds(tablets)
    requires var parsed := ParseTable(PrintedTable(tablets, peers)); parsed.Some? ==> IsSortOf(sorted, parsed.value)
    ensures addr == Some(Address(peers, NodeOf(tablets, key)))
  {
    hide Less, Partition, PeersOk, CleanBounds, ParseTable, PrintedTable, Address;
    TableSurvivesIffClean(tablets, peers);
    ghost var cs := Cached(tablets, peers);
    CachedOrdered(tablets, peers);
    SortIsIdentity(sorted, cs);
    addr := FindRoute(sorted, key);
    ghost var i := OwnerIndex(tablets, key);
    assert HoldsKey(sorted[i], key);
    OwnerIs(tablets, key, i);
  }
}
