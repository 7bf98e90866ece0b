/** An LRU cache with expiry as its recency list, most recent first. */
module LruModel {
  import opened Options

  type Key = string
  type Value(==, !new)

  datatype Entry = Entry(key: Key, val: Value, expires: int)

  predicate Expired(e: Entry, now: int) { now > e.expires }

  function Find(l: seq<Entry>, k: Key): (r: Option<Entry>)
    ensures r.Some? ==> r.value in l && r.value.key == k
  {
    if l == [] then None else if l[0].key == k then Some(l[0]) else Find(l[1..], k)
  }

  function Drop(l: seq<Entry>, k: Key): seq<Entry> {
    if l == [] then [] else if l[0].key == k then l[1..] else [l[0]] + Drop(l[1..], k)
  }

  function Live(l: seq<Entry>, now: int): seq<Entry> {
    if l == [] then []
    else if Expired(l[0], now) then Live(l[1..], now)
    else [l[0]] + Live(l[1..], now)
  }

  function Front(l: seq<Entry>): seq<Entry> { if l == [] then [] else l[..|l| - 1] }

  /** A hit moves to the front; an expired entry is removed and counts as a miss. */
  function GetList(l: seq<Entry>, k: Key, now: int): (seq<Entry>, Option<Value>) {
    match Find(l, k)
    case None => (l, None)
    case Some(e) => if Expired(e, now) then (Drop(l, k), None) else ([e] + Drop(l, k), Some(e.val))
  }

  /** A present key is refreshed in place of recency; a new one may push out the oldest. */
  function PutList(l: seq<Entry>, k: Key, v: Value, expires: int, capacity: int): seq<Entry> {
    var e := Entry(k, v, expires);
    if Find(l, k).Some? then [e] + Drop(l, k)
    else if |l| + 1 > capacity then Front([e] + l)
    else [e] + l
  }

  ghost predicate NoKey(l: seq<Entry>, k: Key) { forall i :: 0 <= i < |l| ==> l[i].key != k }

  ghost predicate Distinct(l: seq<Entry>) {
    forall i, j :: 0 <= i < j < |l| ==> l[i].key != l[j].key
  }

  function Room(capacity: int): nat { if capacity < 0 then 0 else capacity }

  ghost predicate Fits(l: seq<Entry>, capacity: int) { Distinct(l) && |l| <= Room(capacity) }

  lemma {:induction false} FindMeansPresent(l: seq<Entry>, k: Key)
    ensures Find(l, k).None? <==> NoKey(l, k)
  {
    if l != [] {
      FindMeansPresent(l[1..], k);
    }
  }

  lemma {:induction false} DropLength(l: seq<Entry>, k: Key)
    ensures |Drop(l, k)| == if Find(l, k).None? then |l| else |l| - 1
  {
    if l != [] {
      DropLength(l[1..], k);
    }
  }

  lemma {:induction false} DropFacts(l: seq<Entry>, k: Key)
    requires Distinct(l)
    ensures Distinct(Drop(l, k)) && NoKey(Drop(l, k), k)
    ensures |Drop(l, k)| == if Find(l, k).None? then |l| else |l| - 1
  {
    DropLength(l, k);
    if l != [] && l[0].key != k {
      DropFacts(l[1..], k);
      DropAvoids(l[1..], k, l[0].key);
    }
  }

  lemma {:induction false} DropAvoids(l: seq<Entry>, k: Key, x: Key)
    requires NoKey(l, x)
    ensures NoKey(Drop(l, k), x)
  {
    if l != [] {
      DropAvoids(l[1..], k, x);
    }
  }

  lemma {:induction false} LiveFacts(l: seq<Entry>, now: int)
    requires Distinct(l)
    ensures Distinct(Live(l, now)) && |Live(l, now)| <= |l|
    ensures forall e :: e in Live(l, now) <==> e in l && !Expired(e, now)
  {
    if l != [] {
      LiveFacts(l[1..], now);
      var rest := Live(l[1..], now);
      forall i | 0 <= i < |rest| ensures rest[i].key != l[0].key {
        assert rest[i] in l[1..];
      }
    }
  }

  // ---- calls and runs

  datatype Call = Get(key: Key) | Put(key: Key, val: Value) | Clear | Cleanup
  datatype Timed = Timed(call: Call, now: int)

  function Step(l: seq<Entry>, c: Timed, ttl: int, capacity: int): (seq<Entry>, Option<Value>) {
    match c.call
    case Get(k) => GetList(l, k, c.now)
    case Put(k, v) => (PutList(l, k, v, c.now + ttl, capacity), None)
    case Clear => ([], None)
    case Cleanup => (Live(l, c.now), None)
  }

  function Run(l: seq<Entry>, cs: seq<Timed>, ttl: int, capacity: int): (seq<Entry>, seq<Option<Value>>)
    decreases |cs|
  {
    if cs == [] then (l, [])
    else
      var (l', r) := Step(l, cs[0], ttl, capacity);
      var (end, rs) := Run(l', cs[1..], ttl, capacity);
      (end, [r] + rs)
  }

  /** Keys stay distinct and the capacity is never exceeded. */
  lemma StepFits(l: seq<Entry>, c: Timed, ttl: int, capacity: int)
    requires Fits(l, capacity)
    ensures Fits(Step(l, c, ttl, capacity).0, capacity)
  {
    match c.call
    case Get(k) => FindMeansPresent(l, k); DropFacts(l, k);
    case Put(k, v) => FindMeansPresent(l, k); DropFacts(l, k);
    case Clear =>
    case Cleanup => LiveFacts(l, c.now);
  }
}
