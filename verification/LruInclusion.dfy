/** The inclusion property: of two caches that see the same timed calls, the larger one
    always holds everything the smaller one holds. */
module LruInclusion {
  import opened Options
  import opened LruModel

  /** `s` is `l` with some entries left out. */
  ghost predicate Sub(s: seq<Entry>, l: seq<Entry>) {
    if s == [] then true
    else l != [] && ((s[0] == l[0] && Sub(s[1..], l[1..])) || Sub(s, l[1..]))
  }

  lemma {:induction false} SubLength(s: seq<Entry>, l: seq<Entry>)
    requires Sub(s, l)
    ensures |s| <= |l|
    decreases |l|
  {
    if s != [] {
      if s[0] == l[0] && Sub(s[1..], l[1..]) { SubLength(s[1..], l[1..]); } else { SubLength(s, l[1..]); }
    }
  }

  lemma {:induction false} SubMember(s: seq<Entry>, l: seq<Entry>, e: Entry)
    requires Sub(s, l) && e in s
    ensures e in l
    decreases |l|
  {
    if s[0] == l[0] && Sub(s[1..], l[1..]) {
      if e != s[0] { SubMember(s[1..], l[1..], e); }
    } else {
      SubMember(s, l[1..], e);
    }
  }

  /** With distinct keys a key present in both lists has the same entry in both. */
  lemma SubFind(s: seq<Entry>, l: seq<Entry>, k: Key)
    requires Sub(s, l) && Distinct(l)
    ensures Find(s, k).Some? ==> Find(l, k) == Find(s, k)
  {
    if Find(s, k).Some? {
      SubMember(s, l, Find(s, k).value);
      FindMeansPresent(l, k);
    }
  }

  lemma {:induction false} SubDrop(s: seq<Entry>, l: seq<Entry>, k: Key)
    requires Sub(s, l) && Distinct(s) && Distinct(l)
    ensures Sub(Drop(s, k), Drop(l, k))
    decreases |l|
  {
    if s != [] {
      if s[0] == l[0] && Sub(s[1..], l[1..]) {
        SubDrop(s[1..], l[1..], k);
      } else if l[0].key == k {
        SubFind(s, l[1..], k);
        FindMeansPresent(s, k);
        FindMeansPresent(l[1..], k);
        DropAbsent(s, k);
      } else {
        SubDrop(s, l[1..], k);
      }
    }
  }

  lemma {:induction false} DropAbsent(l: seq<Entry>, k: Key)
    requires NoKey(l, k)
    ensures Drop(l, k) == l
  {
    if l != [] {
      DropAbsent(l[1..], k);
    }
  }

  lemma {:induction false} SubLive(s: seq<Entry>, l: seq<Entry>, now: int)
    requires Sub(s, l)
    ensures Sub(Live(s, now), Live(l, now))
    ensures |Live(l, now)| - |Live(s, now)| <= |l| - |s|
    decreases |l|
  {
    if s == [] {
      LiveShrinks(l, now);
    } else if s[0] == l[0] && Sub(s[1..], l[1..]) {
      SubLive(s[1..], l[1..], now);
      SubCons(l[0], Live(s[1..], now), Live(l[1..], now));
    } else {
      SubLive(s, l[1..], now);
      SubCons(l[0], Live(s, now), Live(l[1..], now));
    }
  }

  lemma {:induction false} LiveShrinks(l: seq<Entry>, now: int)
    ensures |Live(l, now)| <= |l|
  {
    if l != [] {
      LiveShrinks(l[1..], now);
    }
  }

  lemma FrontTail(l: seq<Entry>)
    requires |l| > 1
    ensures Front(l) != [] && Front(l)[0] == l[0] && Front(l)[1..] == Front(l[1..])
  {
    assert l[..|l| - 1][1..] == l[1..][..|l| - 2];
  }

  lemma {:induction false} SubFrontLeft(s: seq<Entry>, l: seq<Entry>)
    requires Sub(s, l)
    ensures Sub(Front(s), l)
    decreases |l|
  {
    if |s| > 1 {
      if s[0] == l[0] && Sub(s[1..], l[1..]) {
        SubFrontLeft(s[1..], l[1..]);
        FrontTail(s);
      } else {
        SubFrontLeft(s, l[1..]);
      }
    }
  }

  /** Evicting the oldest entry from both keeps the inclusion. */
  lemma {:induction false} SubFront(s: seq<Entry>, l: seq<Entry>)
    requires Sub(s, l)
    ensures Sub(Front(s), Front(l))
    decreases |l|
  {
    if |s| > 1 {
      if s[0] == l[0] && Sub(s[1..], l[1..]) {
        SubLength(s[1..], l[1..]);
        SubFront(s[1..], l[1..]);
        FrontTail(s);
        FrontTail(l);
      } else {
        SubLength(s, l[1..]);
        SubFront(s, l[1..]);
        FrontTail(l);
      }
    }
  }

  ghost predicate Included(s: seq<Entry>, l: seq<Entry>, k1: int, k2: int) {
    && Sub(s, l) && Fits(s, k1) && Fits(l, k2)
    && |l| - |s| <= Room(k2) - Room(k1)
  }

  lemma SubCons(e: Entry, s: seq<Entry>, l: seq<Entry>)
    requires Sub(s, l)
    ensures Sub([e] + s, [e] + l) && Sub(s, [e] + l)
  {
    assert ([e] + s)[1..] == s && ([e] + l)[1..] == l;
  }

  lemma IncludedGet(s: seq<Entry>, l: seq<Entry>, k: Key, now: int, k1: int, k2: int)
    requires Included(s, l, k1, k2)
    ensures Sub(GetList(s, k, now).0, GetList(l, k, now).0)
    ensures |GetList(l, k, now).0| - |GetList(s, k, now).0| <= |l| - |s|
    ensures GetList(s, k, now).1.Some? ==> GetList(l, k, now).1 == GetList(s, k, now).1
  {
    SubFind(s, l, k);
    SubDrop(s, l, k);
    FindMeansPresent(s, k);
    FindMeansPresent(l, k);
    DropFacts(s, k);
    DropFacts(l, k);
    if Find(s, k).None? { DropAbsent(s, k); }
    if Find(l, k).Some? { SubCons(Find(l, k).value, Drop(s, k), Drop(l, k)); }
  }

  lemma IncludedPut(s: seq<Entry>, l: seq<Entry>, k: Key, v: Value, expires: int, k1: int, k2: int)
    requires Included(s, l, k1, k2) && k1 <= k2
    ensures Sub(PutList(s, k, v, expires, k1), PutList(l, k, v, expires, k2))
    ensures |PutList(l, k, v, expires, k2)| - |PutList(s, k, v, expires, k1)| <= Room(k2) - Room(k1)
  {
    var e := Entry(k, v, expires);
    SubFind(s, l, k);
    SubDrop(s, l, k);
    FindMeansPresent(s, k);
    FindMeansPresent(l, k);
    DropFacts(s, k);
    DropFacts(l, k);
    if Find(s, k).None? { DropAbsent(s, k); }
    SubCons(e, Drop(s, k), Drop(l, k));
    if Find(s, k).None? && Find(l, k).Some? {
      SubFrontLeft([e] + s, [e] + Drop(l, k));
    } else if Find(s, k).None? {
      DropAbsent(l, k);
      SubFrontLeft([e] + s, [e] + l);
      SubFront([e] + s, [e] + l);
    }
  }

  /** One call keeps the inclusion, and a hit in the smaller cache is the same hit in the larger. */
  lemma IncludedStep(s: seq<Entry>, l: seq<Entry>, c: Timed, ttl: int, k1: int, k2: int)
    requires Included(s, l, k1, k2) && k1 <= k2
    ensures Included(Step(s, c, ttl, k1).0, Step(l, c, ttl, k2).0, k1, k2)
    ensures Step(s, c, ttl, k1).1.Some? ==> Step(l, c, ttl, k2).1 == Step(s, c, ttl, k1).1
  {
    StepFits(s, c, ttl, k1);
    StepFits(l, c, ttl, k2);
    match c.call
    case Get(k) => IncludedGet(s, l, k, c.now, k1, k2);
    case Put(k, v) => IncludedPut(s, l, k, v, c.now + ttl, k1, k2);
    case Clear =>
    case Cleanup => SubLive(s, l, c.now);
  }

  /** For every timed trace of calls and all capacities k1 <= k2: the smaller cache's recency
      list is always a subsequence of the larger one's, entry for entry and expiry included,
      and every hit in the smaller cache is a hit with the same value in the larger. */
  lemma {:induction false} Inclusion(s: seq<Entry>, l: seq<Entry>, cs: seq<Timed>, ttl: int, k1: int, k2: int)
    requires Included(s, l, k1, k2) && k1 <= k2
    ensures Included(Run(s, cs, ttl, k1).0, Run(l, cs, ttl, k2).0, k1, k2)
    ensures |Run(s, cs, ttl, k1).1| == |Run(l, cs, ttl, k2).1| == |cs|
    ensures forall i :: 0 <= i < |cs| && Run(s, cs, ttl, k1).1[i].Some? ==> Run(l, cs, ttl, k2).1[i] == Run(s, cs, ttl, k1).1[i]
    decreases |cs|
  {
    if cs != [] {
      IncludedStep(s, l, cs[0], ttl, k1, k2);
      Inclusion(Step(s, cs[0], ttl, k1).0, Step(l, cs[0], ttl, k2).0, cs[1..], ttl, k1, k2);
    }
  }
}
