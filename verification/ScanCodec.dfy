/** The body of a scan reply: a count, then every pair with its lengths. The source node writes it and
    the master parses it while it migrates a tablet. */
module ScanCodec {
  import opened ByteStrings
  import opened Wire

  type Pair = (Bytes, Bytes)

  function Entry(p: Pair): (s: Bytes)
    ensures |s| == 6 + |p.0| + |p.1|
  {
    BE16(|p.0| % LIM16) + p.0 + BE32(|p.1| % LIM32) + p.1
  }

  function Entries(ps: seq<Pair>): Bytes {
    if ps == [] then [] else Entry(ps[0]) + Entries(ps[1..])
  }

  function ScanBody(ps: seq<Pair>): Bytes {
    BE32(|ps| % LIM32) + Entries(ps)
  }

  /** Keys and values fit their length fields. */
  ghost predicate Fits(ps: seq<Pair>) {
    forall i :: 0 <= i < |ps| ==> |ps[i].0| < LIM16 && |ps[i].1| < LIM32
  }

  /** The whole reply fits a frame. */
  ghost predicate FitsFrame(ps: seq<Pair>) {
    Fits(ps) && |ps| < LIM32 && 15 + |ScanBody(ps)| < LIM32
  }

  lemma {:induction false} EntriesAppend(a: seq<Pair>, b: seq<Pair>)
    ensures Entries(a + b) == Entries(a) + Entries(b)
  {
    hide Entry;
    if a == [] {
      assert a + b == b;
    } else {
      assert (a + b)[0] == a[0] && (a + b)[1..] == a[1..] + b;
      EntriesAppend(a[1..], b);
    }
  }

  lemma EntriesOne(p: Pair)
    ensures Entries([p]) == Entry(p)
  {
    hide Entry;
    assert |[p][1..]| == 0;
  }

  /** Append entry after entry, then fill in the count in the four bytes kept free for it. */
  method EncodeScanBody(ps: seq<Pair>) returns (body: Bytes)
    ensures body == ScanBody(ps)
  {
    hide Entry, BE32;
    body := [0, 0, 0, 0];
    var count := 0;
    while count < |ps|
      invariant count <= |ps| && body == [0, 0, 0, 0] + Entries(ps[..count])
    {
      assert ps[..count + 1] == ps[..count] + [ps[count]];
      EntriesAppend(ps[..count], [ps[count]]);
      assert Entries([ps[count]]) == Entry(ps[count]) by { EntriesOne(ps[count]); }
      body := body + Entry(ps[count]);
      count := count + 1;
    }
    assert ps[..count] == ps;
    body := BE32(count % LIM32) + body[4..];
  }

  /** n pairs parsed from position pos, or nothing if the bytes end too soon. */
  function ParseEntries(s: Bytes, pos: nat, n: nat): (r: Option<seq<Pair>>)
    requires pos <= |s|
    decreases n
  {
    if n == 0 then Some([])
    else if pos + 2 > |s| then None
    else
      var kl := U16(s, pos);
      if pos + 2 + kl > |s| || pos + 2 + kl + 4 > |s| then None
      else
        var vl := U32(s, pos + 2 + kl);
        var end := pos + 6 + kl + vl;
        if end > |s| then None
        else match ParseEntries(s, end, n - 1)
          case None => None
          case Some(rest) => Some([(s[pos + 2..pos + 2 + kl], s[pos + 6 + kl..end])] + rest)
  }

  /** By the bytes: a scan body starts with its count, an entry is key length, key, value length, value. */
  lemma BodyBytes(ps: seq<Pair>)
    requires |ps| < LIM32
    ensures var b := ScanBody(ps);
            && 16777216 * b[0] as int + 65536 * b[1] as int + 256 * b[2] as int + b[3] as int == |ps|
            && b[4..] == Entries(ps)
  {
    hide BE32, U32, Entries;
    var b := ScanBody(ps);
    assert b[0..4] == BE32(|ps|);
    Weights32(b, 0, |ps|);
  }

  lemma EntryBytes(p: Pair)
    requires |p.0| < LIM16 && |p.1| < LIM32
    ensures var e, kl := Entry(p), |p.0|;
            && |e| == 6 + kl + |p.1| && 256 * e[0] as int + e[1] as int == kl && e[2..2 + kl] == p.0
            && 16777216 * e[2 + kl] as int + 65536 * e[3 + kl] as int + 256 * e[4 + kl] as int + e[5 + kl] as int
               == |p.1|
            && e[6 + kl..] == p.1
  {
    hide BE16, BE32, U16, U32;
    EntryIs(p);
    var e, kl := Entry(p), |p.0|;
    assert e[0..2] == BE16(kl) && e[2 + kl..6 + kl] == BE32(|p.1|);
    Weights16(e, 0, kl);
    Weights32(e, 2 + kl, |p.1|);
  }

  /** Parsing is the exact inverse of writing: it yields ps if and only if ps fit their length fields
      and the bytes at pos start with the entries of ps. */
  lemma {:induction false} ParseIffWritten(s: Bytes, pos: nat, n: nat, ps: seq<Pair>)
    requires pos <= |s|
    ensures ParseEntries(s, pos, n) == Some(ps) <==> |ps| == n && Fits(ps) && Entries(ps) <= s[pos..]
    decreases n
  {
    hide Entry, Fits, U16, U32;
    if n == 0 {
      NoPairs(ps);
    } else if ps == [] {
      assert ParseEntries(s, pos, n) != Some(ps);
    } else {
      var p := ps[0];
      var end := pos + 6 + |p.0| + |p.1|;
      FitsCons(ps);
      if end <= |s| && |p.0| < LIM16 && |p.1| < LIM32 && s[pos..end] == Entry(p) {
        ParseIffWritten(s, end, n - 1, ps[1..]);
        assert s[pos..] == s[pos..end] + s[end..];
        PrefixSplit(Entry(p), Entries(ps[1..]), s[end..]);
        HeadRead(s, pos, n, p, ps);
      } else {
        if Entries(ps) <= s[pos..] { PrefixGivesEntry(s, pos, ps); }
        HeadMismatch(s, pos, n, ps);
      }
    }
  }

  lemma NoPairs(ps: seq<Pair>)
    ensures ps == [] <==> |ps| == 0
    ensures ps == [] ==> Fits(ps) && Entries(ps) == []
  {}

  lemma FitsCons(ps: seq<Pair>)
    requires ps != []
    ensures Fits(ps) <==> |ps[0].0| < LIM16 && |ps[0].1| < LIM32 && Fits(ps[1..])
  {
    assert forall i :: 0 <= i < |ps[1..]| ==> ps[1..][i] == ps[i + 1];
    if |ps[0].0| < LIM16 && |ps[0].1| < LIM32 && Fits(ps[1..]) {
      forall i | 0 <= i < |ps| ensures |ps[i].0| < LIM16 && |ps[i].1| < LIM32 {
        if i > 0 { assert ps[i] == ps[1..][i - 1]; }
      }
    }
  }

  lemma PrefixSplit(a: Bytes, b: Bytes, c: Bytes)
    ensures a + b <= a + c <==> b <= c
  {
    if a + b <= a + c {
      assert b == (a + b)[|a|..] && c == (a + c)[|a|..];
      assert (a + c)[..|a + b|] == a + b;
      assert c[..|b|] == b;
    }
  }

  /** The length fields and slices at pos read as p. */
  ghost predicate ReadsAs(s: Bytes, pos: nat, p: Pair)
    requires pos + 6 + |p.0| + |p.1| <= |s|
  {
    && U16(s, pos) == |p.0| && s[pos + 2..pos + 2 + |p.0|] == p.0
    && U32(s, pos + 2 + |p.0|) == |p.1| && s[pos + 6 + |p.0|..pos + 6 + |p.0| + |p.1|] == p.1
  }

  /** The bytes at pos are the entry of p exactly when the length fields and the slices say so. */
  lemma FirstEntry(s: Bytes, pos: nat, p: Pair)
    requires pos + 6 + |p.0| + |p.1| <= |s| && |p.0| < LIM16 && |p.1| < LIM32
    ensures s[pos..pos + 6 + |p.0| + |p.1|] == Entry(p) <==> ReadsAs(s, pos, p)
  {
    hide U16, U32, BE16, BE32, Entry;
    var kl, vl := |p.0|, |p.1|;
    U16Is(s, pos, kl);
    U32Is(s, pos + 2 + kl, vl);
    EntryIs(p);
    var i, j, k, l := pos + 2, pos + 2 + kl, pos + 6 + kl, pos + 6 + kl + vl;
    FourSlices(s, pos, i, j, k, l);
    FourParts(s[pos..i], s[i..j], s[j..k], s[k..l], BE16(kl), p.0, BE32(vl), p.1);
  }

  lemma FourSlices(s: Bytes, h: nat, i: nat, j: nat, k: nat, l: nat)
    requires h <= i <= j <= k <= l <= |s|
    ensures s[h..l] == s[h..i] + s[i..j] + s[j..k] + s[k..l]
  {
    TwoSlices(s, h, i, j);
    TwoSlices(s, h, j, k);
    TwoSlices(s, h, k, l);
  }

  lemma TwoSlices(s: Bytes, h: nat, i: nat, j: nat)
    requires h <= i <= j <= |s|
    ensures s[h..j] == s[h..i] + s[i..j]
  {}

  lemma EntryIs(p: Pair)
    requires |p.0| < LIM16 && |p.1| < LIM32
    ensures Entry(p) == BE16(|p.0|) + p.0 + BE32(|p.1|) + p.1
  {
    hide BE16, BE32;
  }

  /** Concatenations of parts of equal lengths are equal exactly if the parts are. */
  lemma FourParts(a: Bytes, b: Bytes, c: Bytes, d: Bytes, a': Bytes, b': Bytes, c': Bytes, d': Bytes)
    requires |a| == |a'| && |b| == |b'| && |c| == |c'| && |d| == |d'|
    ensures a + b + c + d == a' + b' + c' + d' <==> a == a' && b == b' && c == c' && d == d'
  {
    var l, r := a + b + c + d, a' + b' + c' + d';
    var i, j, k := |a|, |a| + |b|, |a| + |b| + |c|;
    assert l[..i] == a && l[i..j] == b && l[j..k] == c && l[k..] == d;
    assert r[..i] == a' && r[i..j] == b' && r[j..k] == c' && r[k..] == d';
  }

  lemma PrefixGivesEntry(s: Bytes, pos: nat, ps: seq<Pair>)
    requires pos <= |s| && ps != [] && Entries(ps) <= s[pos..]
    ensures var end := pos + 6 + |ps[0].0| + |ps[0].1|;
            end <= |s| && s[pos..end] == Entry(ps[0])
  {
    hide Entry;
    var e := Entry(ps[0]);
    assert e == Entries(ps)[..|e|];
    assert s[pos..][..|e|] == e;
  }

  lemma HeadRead(s: Bytes, pos: nat, n: nat, p: Pair, ps: seq<Pair>)
    requires n > 0 && ps != [] && ps[0] == p && pos + 6 + |p.0| + |p.1| <= |s|
    requires |p.0| < LIM16 && |p.1| < LIM32 && s[pos..pos + 6 + |p.0| + |p.1|] == Entry(p)
    ensures ParseEntries(s, pos, n) == Some(ps)
       <==> ParseEntries(s, pos + 6 + |p.0| + |p.1|, n - 1) == Some(ps[1..])
  {
    hide Entry, U16, U32;
    FirstEntry(s, pos, p);
    var rest := ParseEntries(s, pos + 6 + |p.0| + |p.1|, n - 1);
    if rest.Some? {
      assert ([p] + rest.value)[1..] == rest.value;
      assert ps == [p] + ps[1..];
    }
  }

  lemma HeadMismatch(s: Bytes, pos: nat, n: nat, ps: seq<Pair>)
    requires pos <= |s| && n > 0 && ps != []
    requires var p := ps[0]; !(pos + 6 + |p.0| + |p.1| <= |s| && |p.0| < LIM16 && |p.1| < LIM32
                              && s[pos..pos + 6 + |p.0| + |p.1|] == Entry(p))
    ensures ParseEntries(s, pos, n) != Some(ps)
  {
    hide Entry, U16, U32;
    var p := ps[0];
    var r := ParseEntries(s, pos, n);
    if r.Some? {
      var q := r.value[0];
      assert q.0 == s[pos + 2..pos + 2 + U16(s, pos)];
      assert |q.0| == U16(s, pos) && |q.1| == U32(s, pos + 2 + |q.0|);
      FirstEntry(s, pos, q);
    }
  }

  /** The master's reading of a scan reply. */
  function ParseReply(reply: Bytes): Option<seq<Pair>> {
    if |reply| < 5 || reply[0] != ST_OK then None
    else if |reply| < (5 + U32(reply, 1)) % LIM32 || 9 > |reply| then None
    else ParseEntries(reply, 9, U32(reply, 5))
  }

  /** The parsing half of ScanAndTransferData: true exactly if every announced pair was read. */
  method ReadScanReply(reply: Bytes) returns (ok: bool, pairs: seq<Pair>)
    ensures ok <==> ParseReply(reply).Some?
    ensures ok ==> ParseReply(reply) == Some(pairs)
  {
    hide U16, U32;
    ok, pairs := false, [];
    if |reply| < 1 || reply[0] != ST_OK { return; }
    if |reply| < 5 { return; }
    var valLen := U32(reply, 1);
    if |reply| < (5 + valLen) % LIM32 { return; }
    var pos: nat := 5;
    if pos + 4 > |reply| { return; }
    var count := U32(reply, pos);
    pos := pos + 4;
    var i: nat := 0;
    PrependedNil(ParseEntries(reply, pos, count));
    while i < count
      invariant i == |pairs| <= count && pos <= |reply|
      invariant ParseReply(reply) == Prepended(pairs, ParseEntries(reply, pos, count - i))
    {
      if pos + 2 > |reply| { break; }
      var keyLen := U16(reply, pos);
      if pos + 2 + keyLen > |reply| { break; }
      if pos + 2 + keyLen + 4 > |reply| { break; }
      var vLen := U32(reply, pos + 2 + keyLen);
      if pos + 6 + keyLen + vLen > |reply| { break; }
      var pair := (reply[pos + 2..pos + 2 + keyLen], reply[pos + 6 + keyLen..pos + 6 + keyLen + vLen]);
      PrependedSnoc(pairs, pair, ParseEntries(reply, pos + 6 + keyLen + vLen, count - i - 1));
      pairs := pairs + [pair];
      pos := pos + 6 + keyLen + vLen;
      i := i + 1;
    }
    assert pairs + [] == pairs;
    ok := |pairs| == count;
  }

  function Prepended(a: seq<Pair>, r: Option<seq<Pair>>): Option<seq<Pair>> {
    match r
    case None => None
    case Some(b) => Some(a + b)
  }

  lemma PrependedNil(r: Option<seq<Pair>>)
    ensures Prepended([], r) == r
  {
    if r.Some? { assert [] + r.value == r.value; }
  }

  lemma PrependedSnoc(a: seq<Pair>, p: Pair, r: Option<seq<Pair>>)
    ensures Prepended(a + [p], r) == Prepended(a, Prepended([p], r))
  {
    if r.Some? { assert a + [p] + r.value == a + ([p] + r.value); }
  }

  /** Round trip: within the limits of the length fields, the master reads back the list the node sent. */
  lemma ScanRoundTrip(ps: seq<Pair>)
    requires FitsFrame(ps)
    ensures ParseReply(ResponsePayload(ST_OK, ScanBody(ps))) == Some(ps)
  {
    hide Fits, Entries, U32, BE32;
    var body := ScanBody(ps);
    var reply := ResponsePayload(ST_OK, body);
    assert reply[1..5] == BE32(|body|) && reply[5..9] == BE32(|ps|) && reply[9..] == Entries(ps);
    U32Is(reply, 1, |body|);
    U32Is(reply, 5, |ps|);
    ParseIffWritten(reply, 9, |ps|, ps);
  }

  /** A truncated reply is never a short success: a proper prefix parses to nothing. */
  lemma TruncatedScanFails(ps: seq<Pair>, cut: nat)
    requires FitsFrame(ps) && cut < |ResponsePayload(ST_OK, ScanBody(ps))|
    ensures ParseReply(ResponsePayload(ST_OK, ScanBody(ps))[..cut]) == None
  {
    hide Entries, U32, BE32;
    var body := ScanBody(ps);
    var reply := ResponsePayload(ST_OK, body);
    if cut >= 5 {
      var short := reply[..cut];
      assert short[1..5] == reply[1..5] == BE32(|body|);
      U32Is(short, 1, |body|);
    }
  }

  /** A reply of a status alone, as puts, range deletes and errors get, is never read as a scan. */
  lemma StatusIsNoScan(status: byte)
    ensures ParseReply(ResponsePayload(status, [])) == None
  {}

  /** Whatever reply succeeds announces exactly the pairs it carries, in order. */
  lemma SuccessIsComplete(reply: Bytes, ps: seq<Pair>)
    requires ParseReply(reply) == Some(ps)
    ensures |reply| >= 9 && |ps| == U32(reply, 5) && Fits(ps) && Entries(ps) <= reply[9..]
  {
    hide U32, Entries;
    ParseIffWritten(reply, 9, U32(reply, 5), ps);
  }
}
