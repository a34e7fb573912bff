/** Byte strings in unsigned lexicographic order, the order std::string and LevelDB's bytewise
    comparator share, with half-open key ranges and the sorted enumeration of a finite key set. */
module ByteStrings {

  type byte = x: int | 0 <= x < 256
  type Bytes = seq<byte>

  datatype Option<+T> = None | Some(value: T)

  /** a < b */
  predicate Less(a: Bytes, b: Bytes) {
    b != [] && (a == [] || a[0] < b[0] || (a[0] == b[0] && Less(a[1..], b[1..])))
  }

  /** a <= b */
  predicate AtMost(a: Bytes, b: Bytes) {
    a == b || Less(a, b)
  }

  /** k < end, an empty end standing for plus infinity. */
  predicate Before(k: Bytes, end: Bytes) {
    end == [] || Less(k, end)
  }

  /** start <= k < end. */
  predicate InRange(k: Bytes, start: Bytes, end: Bytes) {
    AtMost(start, k) && Before(k, end)
  }

  /** Without recursion: a is a proper prefix of b, or smaller at the first byte where they differ. */
  lemma {:induction false} LessMeans(a: Bytes, b: Bytes)
    ensures Less(a, b) <==> exists i :: 0 <= i <= |a| && i < |b| && SmallerAt(a, b, i)
    decreases |a|
  {
    if b == [] || a == [] {
      if b != [] { assert SmallerAt(a, b, 0); }
    } else {
      LessMeans(a[1..], b[1..]);
      if Less(a, b) {
        if a[0] < b[0] {
          assert SmallerAt(a, b, 0);
        } else {
          var i :| 0 <= i <= |a[1..]| && i < |b[1..]| && SmallerAt(a[1..], b[1..], i);
          assert a[..i + 1] == [a[0]] + a[1..][..i] && b[..i + 1] == [b[0]] + b[1..][..i];
          assert SmallerAt(a, b, i + 1);
        }
      }
      if i :| 0 <= i <= |a| && i < |b| && SmallerAt(a, b, i) && i > 0 {
        assert a[0] == a[..i][0] == b[..i][0] == b[0];
        assert a[1..][..i - 1] == a[..i][1..] == b[..i][1..] == b[1..][..i - 1];
        assert SmallerAt(a[1..], b[1..], i - 1);
      }
    }
  }

  /** a and b agree below position i, where a ends or has the smaller byte. */
  ghost predicate SmallerAt(a: Bytes, b: Bytes, i: nat)
    requires i <= |a| && i < |b|
  {
    a[..i] == b[..i] && (i == |a| || a[i] < b[i])
  }

  lemma {:induction false} LessIrreflexive(a: Bytes)
    ensures !Less(a, a)
  {
    if a != [] { LessIrreflexive(a[1..]); }
  }

  lemma {:induction false} LessTransitive(a: Bytes, b: Bytes, c: Bytes)
    requires Less(a, b) && Less(b, c)
    ensures Less(a, c)
  {
    if a != [] && a[0] == b[0] && b[0] == c[0] { LessTransitive(a[1..], b[1..], c[1..]); }
  }

  lemma {:induction false} LessTotal(a: Bytes, b: Bytes)
    ensures Less(a, b) || a == b || Less(b, a)
  {
    if a != [] && b != [] && a[0] == b[0] {
      LessTotal(a[1..], b[1..]);
      assert a == [a[0]] + a[1..] && b == [b[0]] + b[1..];
    }
  }

  /** The three order laws for every pair and triple, as one fact. */
  lemma LessIsStrictTotal()
    ensures forall a: Bytes :: !Less(a, a)
    ensures forall a, b :: Less(a, b) || a == b || Less(b, a)
    ensures forall a, b, c :: Less(a, b) && Less(b, c) ==> Less(a, c)
  {
    forall a: Bytes ensures !Less(a, a) { LessIrreflexive(a); }
    forall a, b ensures Less(a, b) || a == b || Less(b, a) { LessTotal(a, b); }
    forall a, b, c | Less(a, b) && Less(b, c) ensures Less(a, c) { LessTransitive(a, b, c); }
  }

  /** AtMost is the negation of Less the other way round. */
  lemma AtMostIsNotLess(a: Bytes, b: Bytes)
    ensures AtMost(a, b) <==> !Less(b, a)
  {
    LessTotal(a, b);
    LessIrreflexive(a);
    if Less(a, b) && Less(b, a) { LessTransitive(a, b, a); }
  }

  lemma LessAsymmetric()
    ensures forall a: Bytes :: !Less(a, a)
    ensures forall a, b :: !(Less(a, b) && Less(b, a))
  {
    forall a: Bytes ensures !Less(a, a) { LessIrreflexive(a); }
    forall a, b ensures !(Less(a, b) && Less(b, a)) {
      if Less(a, b) && Less(b, a) { LessTransitive(a, b, a); }
    }
  }

  ghost predicate StrictlySorted(ks: seq<Bytes>) {
    forall i, j :: 0 <= i < j < |ks| ==> Less(ks[i], ks[j])
  }

  predicate IsLeast(k: Bytes, s: set<Bytes>) {
    k in s && forall x | x in s :: AtMost(k, x)
  }

  lemma LeastExists(s: set<Bytes>)
    requires s != {}
    ensures exists k :: IsLeast(k, s)
    ensures forall a, b :: IsLeast(a, s) && IsLeast(b, s) ==> a == b
    decreases |s|
  {
    hide Less;
    LessIsStrictTotal();
    LessAsymmetric();
    var k :| k in s;
    if s == {k} {
      assert IsLeast(k, s);
    } else {
      var rest := s - {k};
      assert s == {k} + rest;
      LeastExists(rest);
      var m :| IsLeast(m, rest);
      assert IsLeast(if Less(m, k) then m else k, s);
    }
  }

  lemma ConsSorted(k: Bytes, ks: seq<Bytes>)
    requires StrictlySorted(ks) && forall x :: x in ks ==> AtMost(k, x) && k != x
    ensures StrictlySorted([k] + ks)
  {
    hide Less;
    assert forall j :: 0 <= j < |ks| ==> ks[j] in ks;
  }

  /** The keys of a set in the order an iterator visits them. */
  function SortedKeys(s: set<Bytes>): (ks: seq<Bytes>)
    ensures StrictlySorted(ks)
    ensures forall k :: k in ks <==> k in s
    ensures |ks| == |s|
    decreases |s|
  {
    if s == {} then []
    else
      LeastExists(s);
      var k :| k in s && IsLeast(k, s);
      var rest := SortedKeys(s - {k});
      ConsSorted(k, rest);
      [k] + rest
  }

  /** A strictly sorted list is determined by its elements. */
  lemma {:induction false} SortedUnique(a: seq<Bytes>, b: seq<Bytes>)
    requires StrictlySorted(a) && StrictlySorted(b)
    requires forall k :: k in a <==> k in b
    ensures a == b
  {
    assert b != [] ==> b[0] in b;
    if a != [] {
      assert a[0] in a && a[0] in b;
      assert b[0] in b && b[0] in a;
      LessAsymmetric();
      assert a[0] == b[0];
      var ta, tb := a[1..], b[1..];
      assert a == [a[0]] + ta && b == [b[0]] + tb;
      assert StrictlySorted(ta) && StrictlySorted(tb);
      forall k ensures k in ta <==> k in tb {
        assert k in a <==> k == a[0] || k in ta;
        assert k in b <==> k == b[0] || k in tb;
        assert a[0] !in ta && b[0] !in tb;
      }
      SortedUnique(ta, tb);
    }
  }

  /** How many keys of a sorted list lie below b. */
  function Rank(ks: seq<Bytes>, b: Bytes): (r: nat)
    ensures r <= |ks|
  {
    if ks == [] || !Less(ks[0], b) then 0 else 1 + Rank(ks[1..], b)
  }

  /** In a sorted list exactly the first Rank(ks, b) keys lie below b. */
  lemma {:induction false} RankSplits(ks: seq<Bytes>, b: Bytes)
    requires StrictlySorted(ks)
    ensures forall i :: 0 <= i < |ks| ==> (Less(ks[i], b) <==> i < Rank(ks, b))
  {
    if ks != [] {
      var t := ks[1..];
      RankSplits(t, b);
      LessIsStrictTotal();
      forall i | 0 <= i < |ks| ensures Less(ks[i], b) <==> i < Rank(ks, b) {
        if i > 0 { assert ks[i] == t[i - 1]; }
      }
    }
  }

  /** Only one split point separates the keys below b from the rest. */
  lemma RankIs(ks: seq<Bytes>, b: Bytes, r: nat)
    requires StrictlySorted(ks) && r <= |ks|
    requires forall i :: 0 <= i < r ==> Less(ks[i], b)
    requires forall i :: r <= i < |ks| ==> !Less(ks[i], b)
    ensures Rank(ks, b) == r
  {
    RankSplits(ks, b);
    var p := Rank(ks, b);
    assert r < |ks| ==> (Less(ks[r], b) <==> r < p);
    assert p < |ks| ==> (Less(ks[p], b) <==> p < p);
  }
}
