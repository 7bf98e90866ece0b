/** Key/value entries kept in strictly ascending key order: the reference
    definition of what an ordered index holds. */
module OrderedEntries {
  type Key = int
  type Value(==, !new)

  datatype Entry = Entry(key: Key, val: Value)

  ghost predicate Sorted(s: seq<Entry>) {
    forall i, j :: 0 <= i < j < |s| ==> s[i].key < s[j].key
  }

  ghost predicate HasKey(s: seq<Entry>, k: Key) {
    exists i :: 0 <= i < |s| && s[i].key == k
  }

  /** Every key of `s` lies strictly below every key of `t`. */
  ghost predicate Precedes(s: seq<Entry>, t: seq<Entry>) {
    forall i, j :: 0 <= i < |s| && 0 <= j < |t| ==> s[i].key < t[j].key
  }

  /** Adds an entry in front of the first larger key. */
  function Put(s: seq<Entry>, k: Key, v: Value): seq<Entry> {
    if s == [] || k < s[0].key then [Entry(k, v)] + s else [s[0]] + Put(s[1..], k, v)
  }

  /** Drops every entry with key `k`. */
  function Without(s: seq<Entry>, k: Key): seq<Entry> {
    if s == [] then []
    else if s[0].key == k then Without(s[1..], k)
    else [s[0]] + Without(s[1..], k)
  }

  /** The finite map an entry sequence stands for. */
  function ToMap(s: seq<Entry>): map<Key, Value> {
    if s == [] then map[] else ToMap(s[1..])[s[0].key := s[0].val]
  }

  lemma {:induction false} ToMapKeys(s: seq<Entry>)
    ensures forall k :: k in ToMap(s) <==> HasKey(s, k)
  {
    if s != [] {
      ToMapKeys(s[1..]);
      KeyOfHeadOrTail(s);
    }
  }

  lemma KeyOfHeadOrTail(s: seq<Entry>)
    requires s != []
    ensures forall k :: HasKey(s, k) <==> s[0].key == k || HasKey(s[1..], k)
  {
    forall k ensures HasKey(s, k) <==> s[0].key == k || HasKey(s[1..], k) {
      if HasKey(s, k) {
        var i :| 0 <= i < |s| && s[i].key == k;
        assert i > 0 ==> s[1..][i - 1] == s[i];
      } else {
        assert forall i :: 0 <= i < |s[1..]| ==> s[1..][i] == s[i + 1];
      }
    }
  }

  lemma {:induction false} PutAfter(a: seq<Entry>, s: seq<Entry>, k: Key, v: Value)
    requires forall i :: 0 <= i < |a| ==> a[i].key <= k
    ensures Put(a + s, k, v) == a + Put(s, k, v)
  {
    if a == [] {
      assert a + s == s;
    } else {
      PutAfter(a[1..], s, k, v);
      assert (a + s)[1..] == a[1..] + s;
      assert a + Put(s, k, v) == [a[0]] + (a[1..] + Put(s, k, v));
    }
  }

  lemma {:induction false} PutBefore(s: seq<Entry>, b: seq<Entry>, k: Key, v: Value)
    requires forall i :: 0 <= i < |b| ==> k < b[i].key
    ensures Put(s + b, k, v) == Put(s, k, v) + b
  {
    if s == [] {
      assert s + b == b;
      assert b != [] ==> k < b[0].key;
    } else if k < s[0].key {
    } else {
      PutBefore(s[1..], b, k, v);
      assert (s + b)[1..] == s[1..] + b;
    }
  }

  /** `Put` only touches the part of a split sequence that surrounds the key. */
  lemma PutInMiddle(a: seq<Entry>, e: seq<Entry>, b: seq<Entry>, k: Key, v: Value)
    requires forall i :: 0 <= i < |a| ==> a[i].key <= k
    requires forall i :: 0 <= i < |b| ==> k < b[i].key
    ensures Put(a + e + b, k, v) == a + Put(e, k, v) + b
  {
    PutBefore(a + e, b, k, v);
    PutAfter(a, e, k, v);
  }

  lemma {:induction false} WithoutAppend(a: seq<Entry>, b: seq<Entry>, k: Key)
    ensures Without(a + b, k) == Without(a, k) + Without(b, k)
  {
    if a == [] {
      assert a + b == b;
    } else {
      WithoutAppend(a[1..], b, k);
      assert (a + b)[1..] == a[1..] + b;
      var head := if a[0].key == k then [] else [a[0]];
      assert head + (Without(a[1..], k) + Without(b, k)) == head + Without(a[1..], k) + Without(b, k);
    }
  }

  lemma WithoutAbsent(s: seq<Entry>, k: Key)
    requires !HasKey(s, k)
    ensures Without(s, k) == s
  {
    if s != [] {
      KeyOfHeadOrTail(s);
      WithoutAbsent(s[1..], k);
    }
  }

  lemma SortedAppend(a: seq<Entry>, b: seq<Entry>)
    requires Sorted(a) && Sorted(b) && Precedes(a, b)
    ensures Sorted(a + b)
  {
  }

  lemma {:induction false} PutSorted(s: seq<Entry>, k: Key, v: Value)
    requires Sorted(s) && !HasKey(s, k)
    ensures Sorted(Put(s, k, v)) && |Put(s, k, v)| == |s| + 1
    ensures forall e :: e in Put(s, k, v) <==> e in s || e == Entry(k, v)
  {
    if s == [] || k < s[0].key {
    } else {
      KeyOfHeadOrTail(s);
      PutSorted(s[1..], k, v);
      var p := Put(s[1..], k, v);
      forall i | 0 <= i < |p| ensures s[0].key < p[i].key {
        assert p[i] in p;
      }
    }
  }

  lemma {:induction false} ToMapSize(s: seq<Entry>)
    requires Sorted(s)
    ensures |ToMap(s)| == |s|
  {
    if s != [] {
      ToMapSize(s[1..]);
      var m := ToMap(s[1..]);
      assert s[0].key !in m by { ToMapKeys(s[1..]); }
      assert m[s[0].key := s[0].val].Keys == m.Keys + {s[0].key};
      assert |m[s[0].key := s[0].val].Keys| == |m.Keys| + 1;
    }
  }

  lemma {:induction false} ToMapPut(s: seq<Entry>, k: Key, v: Value)
    requires !HasKey(s, k)
    ensures ToMap(Put(s, k, v)) == ToMap(s)[k := v]
  {
    if s == [] || k < s[0].key {
      assert Put(s, k, v)[1..] == s;
    } else {
      KeyOfHeadOrTail(s);
      ToMapPut(s[1..], k, v);
    }
  }

  lemma {:induction false} ToMapWithout(s: seq<Entry>, k: Key)
    ensures ToMap(Without(s, k)) == ToMap(s) - {k}
  {
    if s != [] {
      ToMapWithout(s[1..], k);
    }
  }

  lemma {:induction false} WithoutSorted(s: seq<Entry>, k: Key)
    requires Sorted(s)
    ensures Sorted(Without(s, k))
    ensures |Without(s, k)| == if HasKey(s, k) then |s| - 1 else |s|
  {
    if s != [] {
      WithoutSorted(s[1..], k);
      KeyOfHeadOrTail(s);
      assert s[0].key == k ==> !HasKey(s[1..], k);
      WithoutAbove(s[1..], k, s[0].key);
    }
  }

  /** Dropping entries keeps the rest above a bound. */
  lemma {:induction false} WithoutAbove(s: seq<Entry>, k: Key, low: Key)
    requires forall i :: 0 <= i < |s| ==> low < s[i].key
    ensures forall i :: 0 <= i < |Without(s, k)| ==> low < Without(s, k)[i].key
  {
    if s != [] {
      WithoutAbove(s[1..], k, low);
    }
  }
}
