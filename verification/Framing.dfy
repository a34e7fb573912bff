/** Cutting a byte stream into frames, whatever chunks recv delivers it in: the client's RecvFrame over
    its carried-over buffer, and the server's loop that decodes, handles and answers. */
module Framing {
  import opened ByteStrings
  import opened Storage
  import opened Wire
  import opened DataNode

  /** The frame a byte sequence starts with, if it is complete and its length field covers the header. */
  function FirstFrame(s: Bytes): (r: Option<Bytes>)
    ensures r.Some? ==> 10 <= |r.value| <= |s| && r.value == s[..|r.value|]
  {
    if |s| < 4 then None
    else
      var n := U32(s, 0);
      if n < 10 || |s| < n then None else Some(s[..n])
  }

  lemma SameLengthField(s: Bytes, n: nat)
    requires 4 <= n <= |s|
    ensures U32(s[..n], 0) == U32(s, 0)
  {}

  /** All complete frames at the front of s, and what is left after them. */
  function Frames(s: Bytes): seq<Bytes>
    decreases |s|
  {
    match FirstFrame(s)
    case None => []
    case Some(f) => [f] + Frames(s[|f|..])
  }

  function Rest(s: Bytes): Bytes
    decreases |s|
  {
    match FirstFrame(s)
    case None => s
    case Some(f) => Rest(s[|f|..])
  }

  function Concat(fs: seq<Bytes>): Bytes {
    if fs == [] then [] else fs[0] + Concat(fs[1..])
  }

  /** A length field and as many bytes as it says. */
  predicate IsFrame(f: Bytes) {
    |f| >= 10 && U32(f, 0) == |f|
  }

  lemma FirstFrameOf(f: Bytes, more: Bytes)
    requires IsFrame(f)
    ensures FirstFrame(f + more) == Some(f)
  {
    hide U32;
    SameLengthField(f + more, |f|);
    assert (f + more)[..|f|] == f;
  }

  lemma FirstFrameIsFrame(s: Bytes)
    requires FirstFrame(s).Some?
    ensures IsFrame(FirstFrame(s).value)
  {
    hide U32;
    SameLengthField(s, U32(s, 0));
  }

  /** A stream of frames, with or without the start of another one, is cut into those very frames. */
  lemma {:induction false} FramesOfConcat(fs: seq<Bytes>, tail: Bytes)
    requires forall i :: 0 <= i < |fs| ==> IsFrame(fs[i])
    requires FirstFrame(tail) == None
    ensures Frames(Concat(fs) + tail) == fs && Rest(Concat(fs) + tail) == tail
    decreases |fs|
  {
    hide FirstFrame, IsFrame;
    if fs == [] {
      assert Concat(fs) + tail == tail;
    } else {
      hide Frames, Rest, Concat;
      var more := Concat(fs[1..]) + tail;
      FramesOfConcat(fs[1..], tail);
      FirstFrameOf(fs[0], more);
      FramesStep(fs[0], more);
      ConcatStep(fs, tail);
      assert fs == [fs[0]] + fs[1..];
    }
  }

  lemma FramesStep(f: Bytes, more: Bytes)
    requires FirstFrame(f + more) == Some(f)
    ensures Frames(f + more) == [f] + Frames(more) && Rest(f + more) == Rest(more)
  {
    hide FirstFrame;
    assert (f + more)[|f|..] == more;
  }

  lemma ConcatStep(fs: seq<Bytes>, tail: Bytes)
    requires fs != []
    ensures Concat(fs) + tail == fs[0] + (Concat(fs[1..]) + tail)
  {
    Reassociate(fs[0], Concat(fs[1..]), tail);
  }

  /** Cutting loses nothing and invents nothing. */
  lemma {:induction false} FramesConserve(s: Bytes)
    ensures Concat(Frames(s)) + Rest(s) == s
    ensures forall i :: 0 <= i < |Frames(s)| ==> IsFrame(Frames(s)[i])
    ensures FirstFrame(Rest(s)) == None
    decreases |s|
  {
    hide FirstFrame, IsFrame;
    match FirstFrame(s)
    case None =>
      assert [] + s == s;
    case Some(f) =>
      hide Frames, Rest, Concat;
      FirstFrameIsFrame(s);
      var t := s[|f|..];
      FramesConserve(t);
      assert s == f + t;
      FramesStep(f, t);
      ConcatStep([f] + Frames(t), Rest(t));
      assert ([f] + Frames(t))[1..] == Frames(t);
  }

  lemma Reassociate(a: Bytes, b: Bytes, c: Bytes)
    ensures a + b + c == a + (b + c)
  {}

  /** Chunking is irrelevant: cutting a first, then its rest with b, is cutting a and b at once. */
  lemma {:induction false} ChunkingIrrelevant(a: Bytes, b: Bytes)
    ensures Frames(a + b) == Frames(a) + Frames(Rest(a) + b)
    ensures Rest(a + b) == Rest(Rest(a) + b)
    decreases |a|
  {
    hide FirstFrame;
    match FirstFrame(a)
    case None =>
      assert [] + Frames(a + b) == Frames(a + b);
    case Some(f) =>
      FirstFrameIsFrame(a);
      hide Frames, Rest;
      var t := a[|f|..];
      assert a == f + t && a + b == f + (t + b);
      FirstFrameOf(f, t + b);
      FramesStep(f, t);
      FramesStep(f, t + b);
      ChunkingIrrelevant(t, b);
  }

  // ---- the receiving side ----

  /** What one call of recv brings. */
  datatype Event = Data(chunk: Bytes) | Again | Closed | Broken

  /** The bytes still to come. */
  function Pending(events: seq<Event>): Bytes {
    if events == [] then []
    else (if events[0].Data? then events[0].chunk else []) + Pending(events[1..])
  }

  /** Nothing but data until the peer closes. */
  ghost predicate Smooth(events: seq<Event>) {
    forall i :: 0 <= i < |events| ==> events[i].Data? && events[i].chunk != []
  }

  /** How often recv has nothing yet. */
  function Agains(events: seq<Event>): nat {
    if events == [] then 0 else (if events[0].Again? then 1 else 0) + Agains(events[1..])
  }

  /** Data until the peer closes, and fewer pauses of ten milliseconds than the timeout allows. */
  ghost predicate Patient(events: seq<Event>, timeoutMs: int) {
    && (forall i :: 0 <= i < |events| ==> events[i].Data? || events[i].Again?)
    && (Agains(events) == 0 || 10 * Agains(events) < timeoutMs)
  }

  lemma {:induction false} SmoothIsPatient(events: seq<Event>, timeoutMs: int)
    requires Smooth(events)
    ensures Agains(events) == 0 && Patient(events, timeoutMs)
  {
    if events != [] { SmoothIsPatient(events[1..], timeoutMs); }
  }

  /** The events taken between two moments. */
  ghost function Taken(before: seq<Event>, after: seq<Event>): seq<Event>
    requires |after| <= |before|
  {
    before[..|before| - |after|]
  }

  ghost predicate Ended(events: seq<Event>) {
    exists i :: 0 <= i < |events| && (events[i].Closed? || events[i].Broken?)
  }

  lemma {:induction false} AgainsAppend(a: seq<Event>, b: seq<Event>)
    ensures Agains(a + b) == Agains(a) + Agains(b)
    ensures Pending(a + b) == Pending(a) + Pending(b)
  {
    if a == [] {
      assert a + b == b && [] + Pending(b) == Pending(b);
    } else {
      assert (a + b)[0] == a[0] && (a + b)[1..] == a[1..] + b;
      AgainsAppend(a[1..], b);
      Reassociate(if a[0].Data? then a[0].chunk else [], Pending(a[1..]), Pending(b));
    }
  }

  lemma OneEvent(e: Event)
    ensures Agains([e]) == (if e.Again? then 1 else 0) && Pending([e]) == if e.Data? then e.chunk else []
  {
    assert |[e][1..]| == 0;
    if e.Data? { assert e.chunk + [] == e.chunk; }
  }

  /** What taking one more event adds. */
  lemma TakeOne(before: seq<Event>, now: seq<Event>)
    requires now != [] && |now| <= |before| && before == Taken(before, now) + now
    ensures before == Taken(before, now[1..]) + now[1..]
    ensures Taken(before, now[1..]) == Taken(before, now) + [now[0]]
    ensures Agains(Taken(before, now[1..])) == Agains(Taken(before, now)) + if now[0].Again? then 1 else 0
    ensures Pending(Taken(before, now[1..]))
            == Pending(Taken(before, now)) + if now[0].Data? then now[0].chunk else []
    ensures Agains(Taken(before, now[1..])) <= Agains(before)
  {
    ShiftOne(before, now);
    hide Taken, Agains, Pending;
    AgainsAppend(Taken(before, now), [now[0]]);
    OneEvent(now[0]);
    AgainsAppend(Taken(before, now[1..]), now[1..]);
  }

  lemma ShiftOne(before: seq<Event>, now: seq<Event>)
    requires now != [] && |now| <= |before| && before == Taken(before, now) + now
    ensures Taken(before, now[1..]) == Taken(before, now) + [now[0]]
    ensures before == Taken(before, now[1..]) + now[1..]
  {
    var n := |before| - |now|;
    assert before[n] == now[0] && before[..n + 1] == before[..n] + [before[n]];
    assert before[n + 1..] == before[n..][1..] == now[1..];
  }

  lemma TakenNone(before: seq<Event>, start: Bytes)
    ensures Taken(before, before) == [] && [] + before == before && Agains([]) == 0 && Pending([]) == []
    ensures start + [] == start
  {}

  lemma NoData(before: seq<Event>, now: seq<Event>, next: seq<Event>)
    requires |now| <= |before|
    ensures Pending(Taken(before, now)) + [] == Pending(Taken(before, now)) && [] + Pending(next) == Pending(next)
  {}

  lemma EndedNow(before: seq<Event>, now: seq<Event>)
    requires now != [] && |now| <= |before| && before == Taken(before, now) + now
    requires now[0].Closed? || now[0].Broken?
    ensures Ended(Taken(before, now[1..]))
  {
    var used := Taken(before, now[1..]);
    assert used[|used| - 1] == before[|before| - |now|] == now[0];
  }

  /** Without a break, and before the patience ends, receiving stops only when all data has come. */
  lemma Stopped(before: seq<Event>, now: seq<Event>, timeoutMs: int, buf: Bytes, total: nat)
    requires |now| <= |before| && before == Taken(before, now) + now && |buf| < total
    requires var used := Taken(before, now);
             now == [] || Ended(used) || (Agains(used) > 0 && 10 * Agains(used) >= timeoutMs)
    ensures Patient(before, timeoutMs) ==> Patient(now, timeoutMs) && |buf + Pending(now)| < total
    ensures Smooth(before) ==> Smooth(now) && |buf + Pending(now)| < total
  {
    var used := Taken(before, now);
    AgainsAppend(used, now);
    StillPatient(before, now, timeoutMs);
    if Smooth(before) { SmoothIsPatient(before, timeoutMs); }
    if Ended(used) {
      var i :| 0 <= i < |used| && (used[i].Closed? || used[i].Broken?);
      assert before[i] == used[i];
    }
  }

  lemma StillPatient(before: seq<Event>, now: seq<Event>, timeoutMs: int)
    requires |now| <= |before| && before == Taken(before, now) + now
    ensures Patient(before, timeoutMs) ==> Patient(now, timeoutMs)
    ensures Smooth(before) ==> Smooth(now)
  {
    if Patient(before, timeoutMs) { PatientRest(before, now, timeoutMs); }
    if Smooth(before) {
      forall i | 0 <= i < |now| ensures now[i].Data? && now[i].chunk != [] {
        assert now[i] == before[|before| - |now| + i];
      }
    }
  }

  /** What is left of a patient connection is patient. */
  lemma PatientRest(before: seq<Event>, now: seq<Event>, timeoutMs: int)
    requires |now| <= |before| && before == Taken(before, now) + now && Patient(before, timeoutMs)
    ensures Patient(now, timeoutMs)
  {
    AgainsAppend(Taken(before, now), now);
    forall i | 0 <= i < |now| ensures now[i].Data? || now[i].Again? {
      assert now[i] == before[|before| - |now| + i];
    }
  }

  class Connection {
    var events: seq<Event>
    var buf: Bytes

    constructor (events: seq<Event>)
      ensures this.events == events && buf == []
    {
      this.events := events;
      buf := [];
    }

    /** Everything received and not taken out yet, or still to be received. */
    function Stream(): Bytes
      reads this
    {
      buf + Pending(events)
    }

    method Recv() returns (e: Event)
      modifies this`events
      ensures Pending(old(events)) == (if e.Data? then e.chunk else []) + Pending(events)
      ensures |events| == if old(events) == [] then 0 else |old(events)| - 1
      ensures old(events) == [] ==> e == Closed
      ensures old(events) != [] ==> e == old(events)[0] && events == old(events)[1..]
    {
      if events == [] { return Closed; }
      e := events[0];
      events := events[1..];
    }

    /** Receive until the buffer holds total bytes, or the connection or the patience ends: each time recv
        has nothing yet, ten milliseconds go by. Patience ends when they reach the timeout, not before. */
    method RecvAll(total: nat, timeoutMs: int) returns (ok: bool)
      modifies this
      ensures Stream() == old(Stream())
      ensures |events| <= |old(events)| && old(events) == Taken(old(events), events) + events
      ensures buf == old(buf) + Pending(Taken(old(events), events))
      ensures ok <==> |buf| >= total
      ensures var pauses := Agains(Taken(old(events), events));
              && (ok ==> pauses == 0 || 10 * pauses < timeoutMs)
              && (!ok ==> events == [] || Ended(Taken(old(events), events)) || (pauses > 0 && 10 * pauses >= timeoutMs))
      ensures old(Patient(events, timeoutMs)) ==>
                Patient(events, timeoutMs) && (ok <==> |old(Stream())| >= total)
      ensures old(Smooth(events)) ==> Smooth(events) && (ok <==> |old(Stream())| >= total)
    {
      hide Agains, Ended, Patient, Smooth, Taken;
      ghost var before, start := events, buf;
      TakenNone(before, start);
      var left := timeoutMs;
      while |buf| < total
        invariant Stream() == old(Stream())
        invariant |events| <= |before| && before == Taken(before, events) + events
        invariant buf == start + Pending(Taken(before, events))
        invariant left == timeoutMs - 10 * Agains(Taken(before, events))
        invariant Agains(Taken(before, events)) == 0 || left > 0
        decreases |events|
      {
        ghost var was, now := buf, events;
        var e := Recv();
        if now != [] { TakeOne(before, now); }
        match e {
          case Data(chunk) =>
            buf := buf + chunk;
            Reassociate(start, Pending(Taken(before, now)), chunk);
            Reassociate(was, chunk, Pending(events));
          case Again =>
            NoData(before, now, events);
            left := left - 10;
            if left <= 0 {
              Stopped(before, events, timeoutMs, buf, total);
              return false;
            }
          case Closed =>
            NoData(before, now, events);
            if now != [] { EndedNow(before, now); }
            Stopped(before, events, timeoutMs, buf, total);
            return false;
          case Broken =>
            NoData(before, now, events);
            EndedNow(before, now);
            Stopped(before, events, timeoutMs, buf, total);
            return false;
        }
      }
      StillPatient(before, events, timeoutMs);
      return true;
    }

    /** Take the next frame out of the stream, however it arrives. On failure nothing is lost. Each of the
        two waits, for the length and for the rest, has the whole timeout. */
    method RecvFrame(timeoutMs: int) returns (ok: bool, frame: Bytes)
      modifies this
      ensures ok ==> FirstFrame(old(Stream())) == Some(frame) && Stream() == old(Stream())[|frame|..]
      ensures !ok ==> Stream() == old(Stream()) && frame == []
      ensures old(Patient(events, timeoutMs)) ==>
                Patient(events, timeoutMs) && (ok <==> FirstFrame(old(Stream())).Some?)
      ensures old(Smooth(events)) ==> Smooth(events) && (ok <==> FirstFrame(old(Stream())).Some?)
    {
      hide U32, Patient, Agains, Ended, Taken, Smooth;
      ok, frame := false, [];
      var four := RecvAll(4, timeoutMs);
      if !four { return; }
      SamePrefixLength(buf, Pending(events));
      var frameLen := U32(buf, 0);
      if frameLen < 10 { return; }
      var whole := RecvAll(frameLen, timeoutMs);
      if !whole { return; }
      frame := buf[..frameLen];
      assert frame == (buf + Pending(events))[..frameLen];
      assert buf[frameLen..] + Pending(events) == (buf + Pending(events))[frameLen..];
      buf := buf[frameLen..];
      ok := true;
    }
  }

  lemma SamePrefixLength(a: Bytes, b: Bytes)
    requires |a| >= 4
    ensures U32(a + b, 0) == U32(a, 0)
  {}

  // ---- the server's loop ----

  /** The effect of one frame on the store and the response frame, none for a frame that is skipped. */
  function Answer(db: Db, frame: Bytes): Served {
    match Decode(frame)
    case NeedMore => Done(db, [])
    case Skip => Done(db, [])
    case BadLength => Undefined
    case Got(_, reqId, payload) =>
      match Serve(db, payload)
      case Undefined => Undefined
      case Done(db', reply) =>
        var r := if reply == [] then [ST_BAD_REQUEST] else reply;
        Done(db', Header((15 + |r[1..]| % LIM32) % LIM32, reqId) + ResponsePayload(r[0], r[1..]))
  }

  /** What follows out on the same connection. */
  function After(out: Bytes, next: Served): Served {
    match next
    case Undefined => Undefined
    case Done(db, more) => Done(db, out + more)
  }

  /** The effect of a list of frames in order, and all responses. */
  function AnswerAll(db: Db, frames: seq<Bytes>): Served
    decreases |frames|
  {
    if frames == [] then Done(db, [])
    else match Answer(db, frames[0])
      case Undefined => Undefined
      case Done(db1, out) => After(out, AnswerAll(db1, frames[1..]))
  }

  lemma AfterAfter(a: Bytes, b: Bytes, next: Served)
    ensures After(a, After(b, next)) == After(a + b, next)
  {
    if next.Done? { Reassociate(a, b, next.reply); }
  }

  lemma AfterNothing(next: Served)
    ensures After([], next) == next
  {
    if next.Done? { assert [] + next.reply == next.reply; }
  }

  lemma {:induction false} AnswerAllSnoc(db: Db, fs: seq<Bytes>, f: Bytes)
    ensures AnswerAll(db, fs + [f])
            == match AnswerAll(db, fs)
               case Undefined => Undefined
               case Done(db', out) => After(out, Answer(db', f))
    decreases |fs|
  {
    hide Answer, After;
    var gs := fs + [f];
    if fs == [] {
      assert gs[0] == f && gs[1..] == [];
      AfterNothing(Answer(db, f));
      if Answer(db, f).Done? { AfterLast(Answer(db, f)); }
    } else {
      assert gs[0] == fs[0] && gs[1..] == fs[1..] + [f];
      var first := Answer(db, fs[0]);
      if first.Done? {
        AnswerAllSnoc(first.db, fs[1..], f);
        SnocStep(first.reply, AnswerAll(first.db, fs[1..]), f);
      }
    }
  }

  lemma AfterLast(r: Served)
    requires r.Done?
    ensures After(r.reply, Done(r.db, [])) == r
  {
    assert r.reply + [] == r.reply;
  }

  lemma SnocStep(out: Bytes, rest: Served, f: Bytes)
    ensures After(out, match rest case Undefined => Undefined case Done(db, more) => After(more, Answer(db, f)))
            == match After(out, rest)
               case Undefined => Undefined
               case Done(db, all) => After(all, Answer(db, f))
  {
    hide Answer;
    if rest.Done? { AfterAfter(out, rest.reply, Answer(rest.db, f)); }
  }

  /** The frames with the right magic and version. */
  function Kept(frames: seq<Bytes>): (kept: seq<Bytes>)
    requires forall i :: 0 <= i < |frames| ==> |frames[i]| >= 10
  {
    if frames == [] then []
    else (if frames[0][4] == 0x4C && frames[0][5] == 1 then [frames[0]] else []) + Kept(frames[1..])
  }

  /** Frames with a wrong magic or version change nothing and are answered with nothing: store and output
      are those of the stream without them. */
  lemma {:induction false} BadFramesAreSilent(db: Db, frames: seq<Bytes>)
    requires forall i :: 0 <= i < |frames| ==> IsFrame(frames[i]) && |frames[i]| >= 10
    ensures AnswerAll(db, frames) == AnswerAll(db, Kept(frames))
    decreases |frames|
  {
    hide Answer, IsFrame, After;
    if frames != [] {
      var f, rest := frames[0], frames[1..];
      if f[4] == 0x4C && f[5] == 1 {
        var kept := [f] + Kept(rest);
        assert kept[1..] == Kept(rest);
        if Answer(db, f).Done? { BadFramesAreSilent(Answer(db, f).db, rest); }
      } else {
        BadFrameIsSilent(db, f);
        AfterNothing(AnswerAll(db, rest));
        BadFramesAreSilent(db, rest);
        assert [] + Kept(rest) == Kept(rest);
      }
    }
  }

  lemma BadFrameIsSilent(db: Db, f: Bytes)
    requires IsFrame(f) && (f[4] != 0x4C || f[5] != 1)
    ensures Answer(db, f) == Done(db, [])
  {
    hide U32, Serve, Header;
  }

  /** Why the server's loop ended: no further frame came, a response could not be sent in full, or a
      request had no defined result. */
  datatype End = StreamEnded | SendFailed | NoResult

  /** Receive, decode, handle, respond until no further frame comes. Store and output are those of the
      first frames of the byte stream, in order, however it was chunked, and what was not handled is
      still there; a peer that only sends, pauses less than five seconds and closes has every one of its
      frames handled. sends(i, j) is the result of the j-th send call for the i-th frame; a response that
      cannot be sent in full ends the loop, its request handled. */
  method HandleClient(node: DataNode, conn: Connection, sends: (nat, nat) -> int)
    returns (out: Bytes, end: End, ghost handled: nat)
    requires node.engine as object != conn
    modifies node.engine, conn
    ensures handled <= |Frames(old(conn.Stream()))|
    ensures var fs := Frames(old(conn.Stream()));
            match end
            case StreamEnded =>
              && AnswerAll(old(node.engine.db), fs[..handled]) == Done(node.engine.db, out)
              && Frames(conn.Stream()) == fs[handled..]
              && (old(Patient(conn.events, 5000)) ==> handled == |fs|)
            case SendFailed =>
              && (exists i, j :: sends(i, j) <= 0)
              && AnswerAll(old(node.engine.db), fs[..handled]).Done?
              && AnswerAll(old(node.engine.db), fs[..handled]).db == node.engine.db
              && out < AnswerAll(old(node.engine.db), fs[..handled]).reply
              && Frames(conn.Stream()) == fs[handled..]
            case NoResult => handled < |fs| && AnswerAll(old(node.engine.db), fs[..handled + 1]).Undefined?
    ensures Rest(conn.Stream()) == Rest(old(conn.Stream()))
  {
    hide FirstFrame, Answer, AnswerAll, After, Patient, Smooth, SentBy;
    ghost var stream, db0, patient := conn.Stream(), node.engine.db, Patient(conn.events, 5000);
    ghost var fs := Frames(stream);
    out, end, handled := [], StreamEnded, 0;
    AnswerNone(db0);
    var more := true;
    var frames: nat := 0;
    while more
      invariant handled <= |fs| && Frames(conn.Stream()) == fs[handled..] && Rest(conn.Stream()) == Rest(stream)
      invariant AnswerAll(db0, fs[..handled]) == Done(node.engine.db, out) && end == StreamEnded
      invariant patient ==> Patient(conn.events, 5000) && (!more ==> FirstFrame(conn.Stream()).None?)
      decreases more, |conn.Stream()|
    {
      ghost var s := conn.Stream();
      var ok, frame := conn.RecvFrame(5000);
      more := ok;
      if ok {
        FirstFrameLength(s);
        assert fs[handled..] == [frame] + Frames(conn.Stream());
        assert fs[handled] == fs[handled..][0] == frame;
        assert fs[handled + 1..] == fs[handled..][1..] == Frames(conn.Stream());
        AnswerAllSnoc(db0, fs[..handled], frame);
        assert fs[..handled + 1] == fs[..handled] + [frame];
        var defined, response := AnswerFrame(node, frame);
        AfterIs(out, node.engine.db, response);
        if !defined { return out, NoResult, handled; }
        handled := handled + 1;
        var sent := Send(response, (j: nat) => sends(frames, j));
        frames := frames + 1;
        if sent < |response| {
          ProperPrefix(out, response, sent);
          return out + response[..sent], SendFailed, handled;
        }
        out := out + response;
      }
    }
  }

  lemma AnswerNone(db: Db)
    ensures AnswerAll(db, []) == Done(db, [])
  {}

  lemma AfterIs(out: Bytes, db: Db, more: Bytes)
    ensures After(out, Done(db, more)) == Done(db, out + more) && After(out, Undefined) == Undefined
  {}

  lemma ProperPrefix(a: Bytes, b: Bytes, n: nat)
    requires n < |b|
    ensures a + b[..n] < a + b
  {
    assert (a + b)[..|a| + n] == a + b[..n];
  }

  lemma FirstFrameLength(s: Bytes)
    requires FirstFrame(s).Some?
    ensures 10 <= |FirstFrame(s).value| <= |s|
  {}

  /** How many of left bytes are sent when the j-th call and the following ones have these results: each
      takes as many as it says, and the first that is not positive ends it. */
  function SentBy(left: nat, result: nat -> int, j: nat): (n: nat)
    ensures n <= left
    decreases left
  {
    if left == 0 || result(j) <= 0 then 0
    else if result(j) >= left then left
    else result(j) + SentBy(left - result(j), result, j + 1)
  }

  /** Everything is sent unless some call fails. */
  lemma {:induction false} AllSentUnlessFailure(left: nat, result: nat -> int, j: nat)
    ensures SentBy(left, result, j) < left ==> exists i :: i >= j && result(i) <= 0
    decreases left
  {
    if left > 0 && 0 < result(j) < left { AllSentUnlessFailure(left - result(j), result, j + 1); }
  }

  /** The send loop: each call takes some of what is left, until nothing is left or a call fails. */
  method Send(data: Bytes, result: nat -> int) returns (sent: nat)
    ensures sent == SentBy(|data|, result, 0) <= |data|
    ensures (forall j :: result(j) > 0) ==> sent == |data|
  {
    sent := 0;
    var call := 0;
    while sent < |data|
      invariant sent <= |data|
      invariant SentBy(|data|, result, 0) == sent + SentBy(|data| - sent, result, call)
      decreases |data| - sent
    {
      var n := result(call);
      if n <= 0 { break; }
      sent := if n < |data| - sent then sent + n else |data|;
      call := call + 1;
    }
    AllSentUnlessFailure(|data|, result, 0);
  }

  /** Decode one frame, hand its payload to the node, frame the reply; a frame with a wrong magic or
      version is skipped. */
  method AnswerFrame(node: DataNode, frame: Bytes) returns (defined: bool, response: Bytes)
    modifies node.engine
    ensures Answer(old(node.engine.db), frame) == if defined then Done(node.engine.db, response) else Undefined
  {
    hide U32, Serve, Header, BE32;
    var ok, consumed, reqId, payload;
    defined, ok, consumed, reqId, payload := TryDecode(frame);
    if !defined { return false, []; }
    if !ok { return true, []; }
    DecodedId(frame);
    var reply;
    defined, reply := node.HandleBinaryRequest(payload);
    if !defined { return false, []; }
    if reply == [] { reply := [ST_BAD_REQUEST]; }
    response := EncodeResponse(reqId, reply[0], reply[1..]);
  }

  lemma DecodedId(frame: Bytes)
    requires Decode(frame).Got?
    ensures Decode(frame).reqId < LIM32
  {}

  // ---- the whole exchange ----

  /** A request as its sender frames it. */
  function RequestFrame(r: (nat, Bytes)): Bytes
    requires r.0 < LIM32
  {
    Frame(r.0, r.1)
  }

  /** Requests a frame can carry, which have a result, and whose replies a frame can carry. */
  ghost predicate Exchangeable(db: Db, rs: seq<(nat, Bytes)>)
    decreases |rs|
  {
    rs == []
    || (rs[0].0 < LIM32 && 10 + |rs[0].1| < LIM32
        && var r := Serve(db, rs[0].1);
           r.Done? && 10 + |Response(r.reply)| < LIM32 && Exchangeable(r.db, rs[1..]))
  }

  function RequestFrames(rs: seq<(nat, Bytes)>): seq<Bytes>
    requires forall i :: 0 <= i < |rs| ==> rs[i].0 < LIM32
  {
    if rs == [] then [] else [RequestFrame(rs[0])] + RequestFrames(rs[1..])
  }

  /** Serving the payloads one after the other. */
  ghost function ServeAll(db: Db, rs: seq<(nat, Bytes)>): (Db, seq<Bytes>)
    requires Exchangeable(db, rs)
    decreases |rs|
  {
    if rs == [] then (db, [])
    else
      var r := Serve(db, rs[0].1);
      var (db2, rest) := ServeAll(r.db, rs[1..]);
      (db2, [Frame(rs[0].0, Response(r.reply))] + rest)
  }

  lemma FrameIsFrame(reqId: nat, payload: Bytes)
    requires reqId < LIM32 && 10 + |payload| < LIM32
    ensures IsFrame(Frame(reqId, payload))
    ensures Decode(Frame(reqId, payload)) == Got(10 + |payload|, reqId, payload)
  {
    hide U32, Header;
    var f := Frame(reqId, payload);
    FrameParts(reqId, payload, []);
    assert f + [] == f;
    DecodeIffFrame(f, |f|, reqId, payload);
    assert f[..|f|] == f;
  }

  lemma AnswerToRequest(db: Db, reqId: nat, payload: Bytes)
    requires reqId < LIM32 && 10 + |payload| < LIM32
    requires Serve(db, payload).Done? && 10 + |Response(Serve(db, payload).reply)| < LIM32
    ensures IsFrame(Frame(reqId, payload))
    ensures var r := Serve(db, payload);
            && Answer(db, Frame(reqId, payload)) == Done(r.db, Frame(reqId, Response(r.reply)))
            && IsFrame(Frame(reqId, Response(r.reply)))
  {
    hide IsFrame, Decode, Serve, Header, BE32;
    FrameIsFrame(reqId, payload);
    FrameIsFrame(reqId, Response(Serve(db, payload).reply));
  }

  /** The server answers every request of a stream, in order, with the same request id, as if the
      payloads had been handed to the store directly. */
  lemma {:induction false} ServerAnswersEach(db: Db, rs: seq<(nat, Bytes)>)
    requires Exchangeable(db, rs)
    ensures forall i :: 0 <= i < |rs| ==> rs[i].0 < LIM32
    ensures var fs := RequestFrames(rs);
            && (forall i :: 0 <= i < |fs| ==> IsFrame(fs[i]))
            && AnswerAll(db, fs) == Done(ServeAll(db, rs).0, Concat(ServeAll(db, rs).1))
    ensures forall i :: 0 <= i < |ServeAll(db, rs).1| ==> IsFrame(ServeAll(db, rs).1[i])
    decreases |rs|
  {
    hide IsFrame, Serve, Frame, Answer, Response;
    if rs != [] {
      var r, t := rs[0], rs[1..];
      AnswerToRequest(db, r.0, r.1);
      var served := Serve(db, r.1);
      ServerAnswersEach(served.db, t);
      forall i | 0 <= i < |rs| ensures rs[i].0 < LIM32 { if i > 0 { assert rs[i] == t[i - 1]; } }
      var fs := RequestFrames(rs);
      assert fs == [Frame(r.0, r.1)] + RequestFrames(t);
      assert fs[1..] == RequestFrames(t);
      var gs := ServeAll(db, rs).1;
      assert gs == [Frame(r.0, Response(served.reply))] + ServeAll(served.db, t).1;
      assert gs[1..] == ServeAll(served.db, t).1;
    }
  }

  /** End to end: whatever the chunks, a client that sends framed requests reads back, frame by frame,
      the responses to them in order, with nothing left over on either side. */
  lemma ExchangeIsFaithful(db: Db, rs: seq<(nat, Bytes)>, events: seq<Event>)
    requires Exchangeable(db, rs)
    ensures forall i :: 0 <= i < |rs| ==> rs[i].0 < LIM32
    ensures Pending(events) == Concat(RequestFrames(rs)) ==>
              && Frames(Pending(events)) == RequestFrames(rs) && Rest(Pending(events)) == []
              && var r := AnswerAll(db, RequestFrames(rs));
                 r.Done? && r.db == ServeAll(db, rs).0 && Frames(r.reply) == ServeAll(db, rs).1 && Rest(r.reply) == []
  {
    hide IsFrame, Serve, Answer;
    ServerAnswersEach(db, rs);
    var fs, gs := RequestFrames(rs), ServeAll(db, rs).1;
    FramesOfConcat(fs, []);
    FramesOfConcat(gs, []);
    assert Concat(fs) + [] == Concat(fs) && Concat(gs) + [] == Concat(gs);
  }
}
