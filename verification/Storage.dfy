/** The storage engine of one data node: an ordered key-value map whose range scans walk the keys
    with an iterator, and whose range delete collects keys first and removes them afterwards. */
module Storage {
  import opened ByteStrings

  type Db = map<Bytes, Bytes>

  function Lookup(db: Db, k: Bytes): Option<Bytes> {
    if k in db then Some(db[k]) else None
  }

  function KeysIn(db: Db, start: Bytes, end: Bytes): set<Bytes> {
    set k | k in db && InRange(k, start, end)
  }

  /** The keys of db in [start, end), in order. */
  function RangeKeys(db: Db, start: Bytes, end: Bytes): (ks: seq<Bytes>) {
    SortedKeys(KeysIn(db, start, end))
  }

  function Pairs(db: Db, ks: seq<Bytes>): (kvs: seq<(Bytes, Bytes)>)
    requires forall k :: k in ks ==> k in db
    ensures |kvs| == |ks|
    ensures forall i :: 0 <= i < |ks| ==> kvs[i] == (ks[i], db[ks[i]])
  {
    seq(|ks|, i requires 0 <= i < |ks| => (ks[i], db[ks[i]]))
  }

  /** The key-value pairs of db in [start, end), in key order. */
  function RangeList(db: Db, start: Bytes, end: Bytes): seq<(Bytes, Bytes)> {
    Pairs(db, RangeKeys(db, start, end))
  }

  /** First position at or past the end of the range, an empty end being plus infinity. */
  function RankEnd(ks: seq<Bytes>, end: Bytes): (r: nat)
    ensures r <= |ks|
  {
    if end == [] then |ks| else Rank(ks, end)
  }

  /** Where an iterator that seeks to start and stops at end leaves off. */
  function StopAt(ks: seq<Bytes>, start: Bytes, end: Bytes): (r: nat)
    ensures Rank(ks, start) <= r <= |ks|
  {
    if RankEnd(ks, end) < Rank(ks, start) then Rank(ks, start) else RankEnd(ks, end)
  }

  /** The test on which both scans stop. */
  predicate PastEnd(k: Bytes, end: Bytes) {
    end != [] && AtMost(end, k)
  }

  lemma InRangeIsBetween(ks: seq<Bytes>, start: Bytes, end: Bytes)
    requires StrictlySorted(ks)
    ensures forall i :: 0 <= i < |ks| ==>
              (InRange(ks[i], start, end) <==> Rank(ks, start) <= i < StopAt(ks, start, end))
    ensures forall i :: 0 <= i < |ks| ==> (PastEnd(ks[i], end) <==> RankEnd(ks, end) <= i)
  {
    hide Less;
    RankSplits(ks, start);
    RankSplits(ks, end);
    forall i | 0 <= i < |ks|
      ensures InRange(ks[i], start, end) <==> Rank(ks, start) <= i < StopAt(ks, start, end)
      ensures PastEnd(ks[i], end) <==> RankEnd(ks, end) <= i
    {
      AtMostIsNotLess(start, ks[i]);
      AtMostIsNotLess(end, ks[i]);
    }
  }

  /** A range of the map is one contiguous slice of its sorted keys. */
  lemma RangeIsSlice(db: Db, start: Bytes, end: Bytes)
    ensures var ks := SortedKeys(db.Keys);
            RangeKeys(db, start, end) == ks[Rank(ks, start)..StopAt(ks, start, end)]
  {
    hide Less, SortedKeys, InRange, Rank, StopAt;
    var ks := SortedKeys(db.Keys);
    InRangeIsBetween(ks, start, end);
    SliceSame(ks, RangeKeys(db, start, end), Rank(ks, start), StopAt(ks, start, end));
  }

  /** A sorted list of just the elements between two positions is that slice. */
  lemma SliceSame(ks: seq<Bytes>, a: seq<Bytes>, lo: nat, hi: nat)
    requires StrictlySorted(ks) && StrictlySorted(a) && lo <= hi <= |ks|
    requires forall k :: k in a ==> k in ks
    requires forall i :: 0 <= i < |ks| ==> (ks[i] in a <==> lo <= i < hi)
    ensures a == ks[lo..hi]
  {
    hide Less;
    var b := ks[lo..hi];
    forall k | k in a ensures k in b {
      var i :| 0 <= i < |ks| && ks[i] == k;
      assert b[i - lo] == k;
    }
    forall i | 0 <= i < |b| ensures b[i] in a {
      assert b[i] == ks[lo + i];
    }
    SortedUnique(a, b);
  }

  function Elements(ks: seq<Bytes>): set<Bytes> {
    set k | k in ks
  }

  class StorageEngine {
    var db: Db

    constructor ()
      ensures db == map[]
    {
      db := map[];
    }

    method Put(key: Bytes, value: Bytes) returns (ok: bool)
      modifies this
      ensures ok && db == old(db)[key := value]
    {
      db := db[key := value];
      ok := true;
    }

    method Get(key: Bytes) returns (value: Option<Bytes>)
      ensures value == Lookup(db, key)
    {
      if key in db { value := Some(db[key]); } else { value := None; }
    }

    method Delete(key: Bytes) returns (ok: bool)
      modifies this
      ensures ok && db == old(db) - {key}
    {
      db := db - {key};
      ok := true;
    }

    /** Seek to start, visit pairs in order, stop at the first key at or past a non-empty end.
        Both callbacks the source passes collect the pair and ask to go on. */
    method RangeQuery(start: Bytes, end: Bytes) returns (kvs: seq<(Bytes, Bytes)>)
      ensures kvs == RangeList(db, start, end)
    {
      hide Less, SortedKeys, Rank, PastEnd, InRange, RankEnd, RangeKeys;
      var ks := SortedKeys(db.Keys);
      var it := Rank(ks, start);
      kvs := [];
      ghost var lo, hi := it, StopAt(ks, start, end);
      InRangeIsBetween(ks, start, end);
      while it < |ks|
        invariant lo <= it <= hi
        invariant |kvs| == it - lo
        invariant forall i :: 0 <= i < |kvs| ==> kvs[i] == (ks[lo + i], db[ks[lo + i]])
      {
        if PastEnd(ks[it], end) { break; }
        kvs := kvs + [(ks[it], db[ks[it]])];
        it := it + 1;
      }
      assert it == hi;
      RangeIsSlice(db, start, end);
    }

    /** Number of keys in the range, and the key at half that number when there is one. */
    method RangeStats(start: Bytes, end: Bytes) returns (count: nat, median: Bytes)
      ensures count == |KeysIn(db, start, end)|
      ensures median == if count == 0 then [] else RangeKeys(db, start, end)[count / 2]
    {
      var kvs := RangeQuery(start, end);
      var keys := seq(|kvs|, i requires 0 <= i < |kvs| => kvs[i].0);
      assert keys == RangeKeys(db, start, end);
      count := |keys|;
      if count == 0 {
        median := [];
      } else {
        median := keys[count / 2];
      }
    }

    /** The first pass of DeleteRange: collect, so that nothing is deleted under the iterator. */
    method CollectKeys(start: Bytes, end: Bytes) returns (keys: seq<Bytes>)
      ensures keys == RangeKeys(db, start, end)
    {
      hide Less, SortedKeys, Rank, PastEnd, InRange, RankEnd, RangeKeys;
      var ks := SortedKeys(db.Keys);
      var it := Rank(ks, start);
      keys := [];
      InRangeIsBetween(ks, start, end);
      while it < |ks|
        invariant Rank(ks, start) <= it <= StopAt(ks, start, end)
        invariant keys == ks[Rank(ks, start)..it]
      {
        if PastEnd(ks[it], end) { break; }
        keys := keys + [ks[it]];
        it := it + 1;
      }
      RangeIsSlice(db, start, end);
    }

    /** Collect the keys of the range, then delete them one by one. */
    method DeleteRange(start: Bytes, end: Bytes) returns (ok: bool)
      modifies this
      ensures ok && db == old(db) - KeysIn(old(db), start, end)
    {
      hide Less, SortedKeys;
      var keysToDelete := CollectKeys(start, end);
      var i := 0;
      while i < |keysToDelete|
        invariant 0 <= i <= |keysToDelete|
        invariant db == old(db) - Elements(keysToDelete[..i])
      {
        assert keysToDelete[..i + 1] == keysToDelete[..i] + [keysToDelete[i]];
        assert Elements(keysToDelete[..i + 1]) == Elements(keysToDelete[..i]) + {keysToDelete[i]};
        db := db - {keysToDelete[i]};
        i := i + 1;
      }
      assert keysToDelete[..i] == keysToDelete;
      assert Elements(keysToDelete) == KeysIn(old(db), start, end);
      ok := true;
    }
  }
}
