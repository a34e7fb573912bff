/** The single-producer single-consumer ring buffer. Positions are 64-bit words that wrap around;
    ghost histories of all bytes ever committed and ever consumed give the queue's meaning, and the
    word arithmetic is proved to agree with it. */
module SpscQueue {
  import opened ByteStrings
  import opened BitMath

  // ---- word arithmetic ----

  /** Unsigned 64-bit subtraction. */
  function Sub(a: int, b: int): (r: nat)
    ensures r < WORD
  {
    (a - b) % WORD
  }

  /** Unsigned 64-bit addition. */
  function Add(a: int, b: int): (r: nat)
    ensures r < WORD
  {
    (a + b) % WORD
  }

  function Min(a: nat, b: nat): nat {
    if a <= b then a else b
  }

  /** The difference of two wrapped counters is the true difference while that fits a word. */
  lemma WrappedDifference(a: nat, b: nat)
    requires b <= a < b + WORD
    ensures Sub(a % WORD, b % WORD) == a - b
  {
    var d := a / WORD - b / WORD;
    assert a == (a / WORD) * WORD + a % WORD && b == (b / WORD) * WORD + b % WORD;
    assert a % WORD - b % WORD == (a - b) - d * WORD;
    ModShift(a - b, d);
  }

  lemma SubExact(a: nat, b: nat)
    requires b <= a < WORD
    ensures Sub(a, b) == a - b
  {}

  lemma ModShift(x: nat, d: int)
    requires x < WORD && -WORD < x - d * WORD < WORD
    ensures (x - d * WORD) % WORD == x
  {}

  lemma WrappedSum(a: nat, n: nat)
    ensures Add(a % WORD, n) == (a + n) % WORD
  {
    var q := a / WORD;
    assert a == q * WORD + a % WORD;
    var s := a % WORD + n;
    assert s == (s / WORD) * WORD + s % WORD;
    DivModIs(a + n, WORD, q + s / WORD, s % WORD);
  }

  /** Because the capacity divides 2^64, the mask of a wrapped counter is the true counter's offset. */
  lemma MaskedOffset(n: nat, k: nat)
    requires k <= 63
    ensures BitAnd(n % WORD, Pow2(k) - 1) == Offset(n, Pow2(k))
  {
    hide Pow2, BitAnd;
    WordIsPow2();
    Pow2Adds(64 - k, k);
    AndMask(n % WORD, k);
    RemainderOfRemainder(n, Pow2(64 - k), Pow2(k), WORD);
  }

  lemma MulAssociates(q: nat, a: nat, b: nat)
    ensures q * (a * b) == (q * a) * b
  {}

  lemma MulAdds(x: nat, y: nat, b: nat)
    ensures (x + y) * b == x * b + y * b
  {}

  lemma RemainderOfRemainder(n: nat, a: nat, b: nat, m: nat)
    requires b > 0 && m > 0 && m == a * b
    ensures n % m % b == n % b
  {
    var q, r := n / m, n % m;
    assert n == q * m + r;
    var q', r' := r / b, r % b;
    assert r == q' * b + r';
    MulAssociates(q, a, b);
    MulAdds(q * a, q', b);
    DivModIs(n, b, q * a + q', r');
  }

  /** Where byte number n of the stream lies in a buffer of c bytes. */
  function Offset(n: nat, c: nat): (r: nat)
    requires c > 0
    ensures r < c
  {
    n % c
  }

  /** What prepare_write answers to given counter words: an offset into the buffer, or nothing. */
  function PrepareWords(capacity: nat, wp: nat, rp: nat, len: nat): Option<nat> {
    var pos := BitAnd(wp, Sub(capacity, 1));
    if len == 0 then Some(pos)
    else if len > Sub(Sub(capacity, Sub(wp, rp)), 1) then None
    else if Sub(capacity, pos) < len then None
    else Some(pos)
  }

  /** What readable_bytes answers to given counter words. */
  function ReadableWords(capacity: nat, rp: nat, wp: nat): nat
    requires capacity > 0
  {
    if Sub(wp, rp) == 0 then 0 else Min(Sub(wp, rp), Sub(capacity, BitAnd(rp, capacity - 1)))
  }

  /** With w bytes ever written and r ever read, a reservation succeeds exactly when it leaves one
      byte free and does not reach past the end of the buffer. */
  lemma PrepareMeaning(k: nat, w: nat, r: nat, len: nat)
    requires k <= 63 && r <= w <= r + Pow2(k) - 1 && len < WORD
    ensures PrepareWords(Pow2(k), w % WORD, r % WORD, len)
         == if len == 0 || (w + len <= r + Pow2(k) - 1 && Offset(w, Pow2(k)) + len <= Pow2(k))
            then Some(Offset(w, Pow2(k))) else None
  {
    hide Pow2, BitAnd, Offset, Sub;
    WordIsPow2();
    Pow2Monotone(k, 63);
    WrappedDifference(w, r);
    MaskedOffset(w, k);
    SubExact(Pow2(k), 1);
    SubExact(Pow2(k), w - r);
    SubExact(Pow2(k) - (w - r), 1);
    SubExact(Pow2(k), Offset(w, Pow2(k)));
  }

  /** What any load of the consumer's counter leads to, however old: a reservation that fits the tail is
      also granted when the load lags by the capacity or more, because the free space then wraps below
      zero. Only loads that lag by less make PrepareMeaning's answer the safe one. */
  lemma PrepareWithAnyLoad(k: nat, w: nat, r: nat, len: nat)
    requires k <= 63 && r <= w < r + WORD && 0 < len < WORD
    ensures PrepareWords(Pow2(k), w % WORD, r % WORD, len).Some?
       <==> Offset(w, Pow2(k)) + len <= Pow2(k) && (w + len <= r + Pow2(k) - 1 || w - r >= Pow2(k))
  {
    hide Pow2, BitAnd, Offset, Sub;
    WordIsPow2();
    Pow2Monotone(k, 63);
    WrappedDifference(w, r);
    MaskedOffset(w, k);
    SubExact(Pow2(k), 1);
    SubExact(Pow2(k), Offset(w, Pow2(k)));
    FreeSpace(Pow2(k), w - r);
  }

  lemma FreeSpace(c: nat, used: nat)
    requires 0 < c <= WORD / 2 && used < WORD
    ensures Sub(Sub(c, used), 1) == if used < c then c - used - 1 else WORD + c - used - 1
  {
    hide Sub;
    if used <= c { SubExact(c, used); } else { SubWraps(c, used); }
    if used != c { SubExact(Sub(c, used), 1); } else { SubWraps(0, 1); }
  }

  lemma SubWraps(a: nat, b: nat)
    requires a < b < WORD
    ensures Sub(a, b) == WORD + a - b
  {}

  /** A queue whose capacity wrapped to 0 never grants a byte. */
  lemma ZeroCapacityGrantsNothing(len: nat)
    requires 0 < len < WORD
    ensures PrepareWords(0, 0, 0, len) == None
  {}

  /** The readable part is all unread bytes up to the end of the buffer, never across it. */
  lemma ReadableMeaning(k: nat, r: nat, w: nat)
    requires k <= 63 && r <= w <= r + Pow2(k) - 1
    ensures ReadableWords(Pow2(k), r % WORD, w % WORD) == Min(w - r, Pow2(k) - Offset(r, Pow2(k)))
  {
    hide Pow2, BitAnd, Offset, Sub;
    WordIsPow2();
    Pow2Monotone(k, 63);
    WrappedDifference(w, r);
    MaskedOffset(r, k);
    SubExact(Pow2(k), Offset(r, Pow2(k)));
  }

  /** The header suggests waiting for the consumer when the tail of the buffer is too short. Waiting
      helps, for a reservation that has to wait, if and only if the tail is long enough already: no
      progress r' of the consumer moves the write position. */
  lemma WaitingHelpsIffTailFits(k: nat, w: nat, r: nat, len: nat)
    requires k <= 63 && r <= w <= r + Pow2(k) - 1 && 0 < len < WORD
    ensures (exists r': nat :: r <= r' <= w && PrepareWords(Pow2(k), w % WORD, r' % WORD, len).Some?)
       <==> Offset(w, Pow2(k)) + len <= Pow2(k) && len <= Pow2(k) - 1
  {
    hide Pow2, PrepareWords, Offset;
    forall r': nat | r <= r' <= w
      ensures PrepareWords(Pow2(k), w % WORD, r' % WORD, len)
           == if len == 0 || (w + len <= r' + Pow2(k) - 1 && Offset(w, Pow2(k)) + len <= Pow2(k))
              then Some(Offset(w, Pow2(k))) else None
    {
      PrepareMeaning(k, w, r', len);
    }
    if Offset(w, Pow2(k)) + len <= Pow2(k) && len <= Pow2(k) - 1 {
      assert PrepareWords(Pow2(k), w % WORD, w % WORD, len).Some?;
    }
  }

  /** Positions less than the capacity apart share no offset. */
  lemma OffsetsDiffer(i: nat, j: nat, c: nat)
    requires c > 0 && i < j < i + c
    ensures Offset(i, c) != Offset(j, c)
  {
    if i % c == j % c {
      var d := j / c - i / c;
      assert i == (i / c) * c + i % c && j == (j / c) * c + j % c;
      MulSub(j / c, i / c, c);
      assert j - i == d * c;
      if d >= 1 { MulAtLeast(d, c); }
      if d <= -1 { MulAtLeast(-d, c); MulSub(0, d, c); }
    }
  }

  /** Within the buffer's end, consecutive positions have consecutive offsets. */
  lemma OffsetsRun(w: nat, i: nat, c: nat)
    requires c > 0 && Offset(w, c) + i < c
    ensures Offset(w + i, c) == Offset(w, c) + i
  {
    assert w == (w / c) * c + w % c;
    DivModIs(w + i, c, w / c, w % c + i);
  }

  /** The region [off, off+len) that follows position w does not touch the unread bytes r..w. */
  lemma RegionIsFree(r: nat, w: nat, c: nat, len: nat)
    requires c > 0 && r <= w && w + len <= r + c - 1 && Offset(w, c) + len <= c
    ensures forall i :: r <= i < w ==> !(Offset(w, c) <= Offset(i, c) < Offset(w, c) + len)
  {
    forall i | r <= i < w ensures !(Offset(w, c) <= Offset(i, c) < Offset(w, c) + len) {
      if Offset(w, c) <= Offset(i, c) < Offset(w, c) + len {
        var j := Offset(i, c) - Offset(w, c);
        OffsetsRun(w, j, c);
        OffsetsDiffer(i, w + j, c);
      }
    }
  }

  /** The capacity for a request, and its exponent where it is a power of two. */
  method CapacityFor(requested: nat) returns (c: nat, ghost e: nat)
    requires requested < WORD
    ensures requested < WORD / 2 ==>
              && e <= 63 && c == Pow2(e) && c >= requested && (c >= 2 <==> requested >= 2)
              && c >= (if requested % 2 == 1 then requested else requested + 1)
              && forall x: nat :: (if requested % 2 == 1 then requested else requested + 1) <= Pow2(x) ==> c <= Pow2(x)
    ensures requested >= WORD / 2 ==> c == 0
  {
    hide Pow2;
    OrOne(requested);
    c := BitCeil(BitOr(requested, 1));
    e := 0;
    if requested < WORD / 2 {
      e :| e <= 63 && c == Pow2(e);
      SmallPowers();
      assert requested <= 1 ==> c <= Pow2(0);
    }
  }

  lemma MaskIs(k: nat)
    requires k <= 63
    ensures Sub(Pow2(k), 1) == Pow2(k) - 1
  {
    hide Pow2, Sub;
    WordIsPow2();
    Pow2Monotone(k, 63);
    SubExact(Pow2(k), 1);
  }

  class SpscQueue {
    var writePos: nat
    var readPos: nat
    const capacity: nat
    const mask: nat
    const buffer: array<byte>

    ghost const exponent: nat
    ghost var sent: Bytes
    ghost var got: Bytes

    ghost predicate Valid()
      reads this, buffer
    {
      && exponent <= 63 && capacity == Pow2(exponent) && mask == capacity - 1 && buffer.Length == capacity
      && writePos == |sent| % WORD && readPos == |got| % WORD
      && got <= sent && |sent| <= |got| + capacity - 1
      && forall i :: |got| <= i < |sent| ==> buffer[Offset(i, capacity)] == sent[i]
    }

    /** A power of two at least as large as requested; 0 and 1 give a queue that holds nothing, and so do
        requests of 2^63 and more, for which the power wraps to 0. */
    constructor (requested: nat)
      requires requested < WORD
      ensures fresh(buffer) && sent == got == [] && writePos == readPos == 0 && buffer.Length == capacity
      ensures requested < WORD / 2 ==>
                && Valid() && capacity >= requested && (capacity >= 2 <==> requested >= 2)
                && capacity >= (if requested % 2 == 1 then requested else requested + 1)
                && forall e: nat ::
                     (if requested % 2 == 1 then requested else requested + 1) <= Pow2(e) ==> capacity <= Pow2(e)
      ensures requested >= WORD / 2 ==> capacity == 0 && mask == WORD - 1
    {
      hide Pow2, Offset, Sub;
      var c;
      ghost var e;
      c, e := CapacityFor(requested);
      if requested < WORD / 2 { MaskIs(e); } else { SubWraps(0, 1); }
      capacity := c;
      mask := Sub(c, 1);
      exponent := e;
      buffer := new byte[c];
      writePos, readPos := 0, 0;
      sent, got := [], [];
    }

    /** Reserve len contiguous bytes: the offset of a region no unread byte lies in, or nothing. */
    method PrepareWrite(len: nat) returns (region: Option<nat>)
      requires Valid() && len < WORD
      ensures region == PrepareWords(capacity, writePos, readPos, len)
      ensures region.Some?
         <==> len == 0
              || (|sent| - |got| + len <= capacity - 1 && Offset(|sent|, capacity) + len <= capacity)
      ensures region.Some? ==> region.value == Offset(|sent|, capacity) && region.value + len <= capacity
      ensures region.Some? ==>
                forall i :: |got| <= i < |sent| ==> !(region.value <= Offset(i, capacity) < region.value + len)
    {
      hide Pow2, BitAnd, Offset;
      PrepareMeaning(exponent, |sent|, |got|, len);
      MaskIs(exponent);
      if |sent| + len <= |got| + capacity - 1 && Offset(|sent|, capacity) + len <= capacity {
        RegionIsFree(|got|, |sent|, capacity, len);
      }
      var wp := writePos;
      if len == 0 { return Some(BitAnd(wp, mask)); }
      var rp := readPos;
      var used := Sub(wp, rp);
      if len > Sub(Sub(capacity, used), 1) { return None; }
      var pos := BitAnd(wp, mask);
      var toEnd := Sub(capacity, pos);
      if toEnd < len { return None; }
      return Some(pos);
    }

    /** The producer fills the region it reserved; unread bytes are untouched. */
    method Fill(at: nat, data: Bytes)
      requires Valid() && at == Offset(|sent|, capacity) && at + |data| <= capacity
      requires |sent| + |data| <= |got| + capacity - 1
      modifies buffer
      ensures Valid()
      ensures buffer[at..at + |data|] == data
    {
      hide Pow2, Offset;
      RegionIsFree(|got|, |sent|, capacity, |data|);
      var i := 0;
      while i < |data|
        invariant i <= |data|
        invariant buffer[at..at + i] == data[..i]
        invariant forall j :: |got| <= j < |sent| ==> buffer[Offset(j, capacity)] == sent[j]
      {
        buffer[at + i] := data[i];
        i := i + 1;
      }
      assert data[..i] == data;
    }

    /** Publish len bytes of the reserved region: they join the end of the queue. */
    method CommitWrite(len: nat)
      requires Valid() && |sent| - |got| + len <= capacity - 1 && Offset(|sent|, capacity) + len <= capacity
      modifies this`writePos, this`sent
      ensures Valid()
      ensures sent == old(sent) + buffer[Offset(old(|sent|), capacity)..Offset(old(|sent|), capacity) + len]
    {
      hide Pow2, Offset;
      ghost var off := Offset(|sent|, capacity);
      WrappedSum(|sent|, len);
      forall i | |sent| <= i < |sent| + len ensures Offset(i, capacity) == off + (i - |sent|) {
        OffsetsRun(|sent|, i - |sent|, capacity);
      }
      writePos := Add(writePos, len);
      sent := sent + buffer[off..off + len];
    }

    /** The largest reservation that would succeed now. */
    method WritableBytes() returns (n: nat)
      requires Valid()
      ensures forall len :: 0 < len < WORD ==> (len <= n <==> PrepareWords(capacity, writePos, readPos, len).Some?)
    {
      hide Pow2, BitAnd, Offset;
      MaskIs(exponent);
      var wp, rp := writePos, readPos;
      var freeTotal := Sub(Sub(capacity, Sub(wp, rp)), 1);
      var pos := BitAnd(wp, mask);
      var toEnd := Sub(capacity, pos);
      n := Min(freeTotal, toEnd);
    }

    /** The offset of the first unread byte, or nothing if the queue is empty. */
    method Peek() returns (region: Option<nat>)
      requires Valid()
      ensures region == if sent == got then None else Some(Offset(|got|, capacity))
      ensures region.Some? ==> buffer[region.value] == sent[|got|]
    {
      hide Pow2, BitAnd, Offset;
      EmptyIffWordsEqual();
      MaskedOffset(|got|, exponent);
      if readPos == writePos { return None; }
      return Some(BitAnd(readPos, mask));
    }

    /** The words are equal exactly when everything sent was consumed. */
    lemma EmptyIffWordsEqual()
      requires Valid()
      ensures writePos == readPos <==> sent == got
      ensures sent == got <==> |sent| == |got|
    {
      hide Pow2, Offset;
      WordIsPow2();
      Pow2Monotone(exponent, 63);
      WrappedDifference(|sent|, |got|);
    }

    /** How many unread bytes lie contiguously from the first one on, and what they are. */
    method ReadableBytes() returns (n: nat)
      requires Valid()
      ensures n == ReadableWords(capacity, readPos, writePos) == Min(|sent| - |got|, capacity - Offset(|got|, capacity))
      ensures Offset(|got|, capacity) + n <= capacity
      ensures buffer[Offset(|got|, capacity)..Offset(|got|, capacity) + n] == sent[|got|..|got| + n]
    {
      hide Pow2, BitAnd, Offset, Sub;
      ReadableMeaning(exponent, |got|, |sent|);
      var rp, wp := readPos, writePos;
      var readableTotal := Sub(wp, rp);
      if readableTotal == 0 {
        n := 0;
      } else {
        var pos := BitAnd(rp, mask);
        var toEnd := Sub(capacity, pos);
        n := Min(readableTotal, toEnd);
      }
      ghost var off := Offset(|got|, capacity);
      ghost var unread, region := sent[|got|..|got| + n], buffer[off..off + n];
      forall i | 0 <= i < n ensures region[i] == unread[i] {
        OffsetsRun(|got|, i, capacity);
        assert unread[i] == sent[|got| + i];
      }
    }

    /** Give back len bytes that were readable: they are the next ones in order. */
    method Consume(len: nat)
      requires Valid() && len <= |sent| - |got|
      modifies this`readPos, this`got
      ensures Valid()
      ensures got == old(got) + sent[old(|got|)..old(|got|) + len]
    {
      hide Pow2, Offset;
      WrappedSum(|got|, len);
      readPos := Add(readPos, len);
      got := got + sent[|got|..|got| + len];
      assert got == sent[..|got|];
    }

    method Empty() returns (e: bool)
      requires Valid()
      ensures e <==> sent == got
    {
      EmptyIffWordsEqual();
      e := readPos == writePos;
    }
  }
}
