/** What makes the cache least recently used: each call moves exactly one entry, the list is
    ordered by last use over every run, and what stays is what was used most recently. */
module LruRecency {
  import opened Options
  import opened LruModel

  // ---- one call

  function Removed(l: seq<Entry>, i: nat): seq<Entry>
    requires i < |l|
  {
    l[..i] + l[i + 1..]
  }

  lemma {:induction false} At(l: seq<Entry>, i: nat)
    requires Distinct(l) && i < |l|
    ensures Find(l, l[i].key) == Some(l[i]) && Drop(l, l[i].key) == Removed(l, i)
  {
    if i == 0 {
      assert Removed(l, 0) == l[1..];
    } else {
      At(l[1..], i - 1);
      assert l[1..][i - 1] == l[i];
      assert [l[0]] + Removed(l[1..], i - 1) == Removed(l, i);
    }
  }

  /** Looking up a present key: a live entry goes to the front and answers, an expired one goes
      away; the others keep their order. */
  lemma GetMoves(l: seq<Entry>, i: nat, now: int)
    requires Distinct(l) && i < |l|
    ensures GetList(l, l[i].key, now) ==
      if now > l[i].expires then (Removed(l, i), None) else ([l[i]] + Removed(l, i), Some(l[i].val))
  {
    At(l, i);
  }

  lemma GetMisses(l: seq<Entry>, k: Key, now: int)
    requires NoKey(l, k)
    ensures GetList(l, k, now) == (l, None)
  {
    FindMeansPresent(l, k);
  }

  /** Putting a present key replaces its entry by a fresh one at the front. */
  lemma PutMoves(l: seq<Entry>, i: nat, v: Value, expires: int, capacity: int)
    requires Distinct(l) && i < |l|
    ensures PutList(l, l[i].key, v, expires, capacity) == [Entry(l[i].key, v, expires)] + Removed(l, i)
  {
    At(l, i);
  }

  /** Putting a new key adds it in front; only if the cache is full, and then only the last entry
      has to go. */
  lemma PutAdds(l: seq<Entry>, k: Key, v: Value, expires: int, capacity: int)
    requires NoKey(l, k)
    ensures PutList(l, k, v, expires, capacity) ==
      if |l| < capacity then [Entry(k, v, expires)] + l
      else if l == [] then []
      else [Entry(k, v, expires)] + l[..|l| - 1]
  {
    FindMeansPresent(l, k);
  }

  ghost predicate Has(l: seq<Entry>, k: Key) { !NoKey(l, k) }

  // ---- histories

  /** A call uses a key if it puts it or finds it. */
  ghost predicate Uses(c: Timed, r: Option<Value>, k: Key) {
    match c.call
    case Put(x, _) => x == k
    case Get(x) => x == k && r.Some?
    case _ => false
  }

  /** When the key was last used, -1 if never. */
  ghost function LastUse(cs: seq<Timed>, rs: seq<Option<Value>>, k: Key): (n: int)
    requires |cs| == |rs|
    ensures -1 <= n < |cs|
  {
    if cs == [] then -1
    else
      var n := |cs| - 1;
      if Uses(cs[n], rs[n], k) then n else LastUse(cs[..n], rs[..n], k)
  }

  /** The last Put of the key. */
  ghost function LastPut(cs: seq<Timed>, k: Key): Option<Timed> {
    if cs == [] then None
    else
      var n := |cs| - 1;
      if cs[n].call.Put? && cs[n].call.key == k then Some(cs[n]) else LastPut(cs[..n], k)
  }

  lemma LastUseGrows(cs: seq<Timed>, rs: seq<Option<Value>>, c: Timed, r: Option<Value>, k: Key)
    requires |cs| == |rs|
    ensures LastUse(cs + [c], rs + [r], k) == if Uses(c, r, k) then |cs| else LastUse(cs, rs, k)
  {
    assert (cs + [c])[..|cs|] == cs && (rs + [r])[..|rs|] == rs;
  }

  lemma LastPutGrows(cs: seq<Timed>, c: Timed, k: Key)
    ensures LastPut(cs + [c], k) == if c.call.Put? && c.call.key == k then Some(c) else LastPut(cs, k)
  {
    assert (cs + [c])[..|cs|] == cs;
  }

  /** The list is ordered by last use, latest first. */
  ghost predicate ByRecency(l: seq<Entry>, cs: seq<Timed>, rs: seq<Option<Value>>)
    requires |cs| == |rs|
  {
    && (forall i :: 0 <= i < |l| ==> LastUse(cs, rs, l[i].key) >= 0)
    && forall i, j :: 0 <= i < j < |l| ==> LastUse(cs, rs, l[i].key) > LastUse(cs, rs, l[j].key)
  }

  /** Every entry is what the last Put of its key made it. */
  ghost predicate Current(l: seq<Entry>, cs: seq<Timed>, ttl: int) {
    forall i :: 0 <= i < |l| ==> IsCurrent(l[i], cs, ttl)
  }

  ghost predicate IsCurrent(e: Entry, cs: seq<Timed>, ttl: int) {
    var p := LastPut(cs, e.key);
    p.Some? && p.value.call == Put(e.key, e.val) && e.expires == p.value.now + ttl
  }

  /** Entries of `m` come from `l` in their order, except perhaps a new one in front. */
  ghost predicate FromBehind(l: seq<Entry>, m: seq<Entry>, source: seq<nat>) {
    && |source| == |m|
    && (forall i :: 0 <= i < |m| ==> source[i] < |l| && m[i] == l[source[i]])
    && forall i, j :: 0 <= i < j < |m| ==> source[i] < source[j]
  }

  function Shifted(source: seq<nat>): seq<nat> {
    seq(|source|, i requires 0 <= i < |source| => source[i] + 1)
  }

  lemma ShiftBehind(l: seq<Entry>, m: seq<Entry>, source: seq<nat>)
    requires l != [] && FromBehind(l[1..], m, source)
    ensures FromBehind(l, m, Shifted(source))
  {
  }

  lemma KeepBehind(l: seq<Entry>, m: seq<Entry>, source: seq<nat>)
    requires l != [] && FromBehind(l, m, source) && forall i :: 0 <= i < |source| ==> source[i] > 0
    ensures FromBehind(l, [l[0]] + m, [0] + source)
  {
  }

  lemma {:induction false} LiveFromBehind(l: seq<Entry>, now: int) returns (source: seq<nat>)
    ensures FromBehind(l, Live(l, now), source)
  {
    if l == [] {
      source := [];
    } else {
      hide FromBehind;
      var rest := LiveFromBehind(l[1..], now);
      ShiftBehind(l, Live(l[1..], now), rest);
      source := Shifted(rest);
      if !Expired(l[0], now) {
        KeepBehind(l, Live(l[1..], now), source);
        source := [0] + source;
      }
    }
  }

  lemma RemovedFromBehind(l: seq<Entry>, i: nat) returns (source: seq<nat>)
    requires i < |l|
    ensures FromBehind(l, Removed(l, i), source)
  {
    source := seq(|l| - 1, j requires 0 <= j < |l| - 1 => if j < i then j else j + 1);
  }

  lemma SameFromBehind(l: seq<Entry>, n: nat) returns (source: seq<nat>)
    requires n <= |l|
    ensures FromBehind(l, l[..n], source)
  {
    source := seq(n, j requires 0 <= j < n => j);
  }

  /** A call leaves entries in their order, behind at most one entry with the key it uses. */
  ghost predicate Leaves(l: seq<Entry>, c: Timed, r: Option<Value>, front: seq<Entry>, m: seq<Entry>, source: seq<nat>) {
    && |front| <= 1 && FromBehind(l, m, source)
    && (front != [] ==> Uses(c, r, front[0].key))
    && forall i :: 0 <= i < |m| ==> !Uses(c, r, m[i].key)
  }

  lemma GetLeaves(l: seq<Entry>, c: Timed, ttl: int, capacity: int)
    returns (front: seq<Entry>, m: seq<Entry>, source: seq<nat>)
    requires Distinct(l) && c.call.Get?
    ensures Step(l, c, ttl, capacity).0 == front + m && Leaves(l, c, Step(l, c, ttl, capacity).1, front, m, source)
    ensures front != [] ==> front[0] in l
  {
    hide FromBehind;
    front := [];
    var k := c.call.key;
    if i :| 0 <= i < |l| && l[i].key == k {
      GetMoves(l, i, c.now);
      m := Removed(l, i);
      source := RemovedFromBehind(l, i);
      RemovedPresence(l, i, i);
      if c.now <= l[i].expires {
        front := [l[i]];
      }
    } else {
      GetMisses(l, k, c.now);
      m := l;
      source := SameFromBehind(l, |l|);
      assert l[..|l|] == l;
    }
  }

  lemma PutLeaves(l: seq<Entry>, c: Timed, ttl: int, capacity: int)
    returns (front: seq<Entry>, m: seq<Entry>, source: seq<nat>)
    requires Distinct(l) && c.call.Put?
    ensures Step(l, c, ttl, capacity) == (front + m, None) && Leaves(l, c, None, front, m, source)
    ensures front != [] ==> front[0] == Entry(c.call.key, c.call.val, c.now + ttl)
  {
    hide FromBehind, Leaves, PutList, Distinct;
    var e := Entry(c.call.key, c.call.val, c.now + ttl);
    if i :| 0 <= i < |l| && l[i].key == c.call.key {
      PutMoves(l, i, c.call.val, c.now + ttl, capacity);
      front, m := [e], Removed(l, i);
      source := RemovedFromBehind(l, i);
      RemovedPresence(l, i, i);
    } else {
      front, m, source := PutNew(l, e, capacity);
    }
    PutLeavesOthers(l, c, front, m, source);
  }

  lemma PutNew(l: seq<Entry>, e: Entry, capacity: int) returns (front: seq<Entry>, m: seq<Entry>, source: seq<nat>)
    requires NoKey(l, e.key)
    ensures PutList(l, e.key, e.val, e.expires, capacity) == front + m && FromBehind(l, m, source)
    ensures (front == [] || front == [e]) && NoKey(m, e.key)
  {
    hide FromBehind, PutList;
    PutAdds(l, e.key, e.val, e.expires, capacity);
    var n := if |l| < capacity then |l| else if l == [] then 0 else |l| - 1;
    front := if l == [] && capacity <= 0 then [] else [e];
    m := l[..n];
    source := SameFromBehind(l, n);
    assert |l| < capacity ==> m == l;
  }

  lemma PutLeavesOthers(l: seq<Entry>, c: Timed, front: seq<Entry>, m: seq<Entry>, source: seq<nat>)
    requires c.call.Put? && FromBehind(l, m, source) && NoKey(m, c.call.key)
    requires |front| <= 1 && (front != [] ==> front[0].key == c.call.key)
    ensures Leaves(l, c, None, front, m, source)
  {
  }

  lemma StepLeaves(l: seq<Entry>, c: Timed, ttl: int, capacity: int)
    returns (front: seq<Entry>, m: seq<Entry>, source: seq<nat>)
    requires Distinct(l)
    ensures Step(l, c, ttl, capacity).0 == front + m
    ensures Leaves(l, c, Step(l, c, ttl, capacity).1, front, m, source)
    ensures front != [] ==> if c.call.Put? then front[0] == Entry(c.call.key, c.call.val, c.now + ttl) else front[0] in l
  {
    hide GetList, PutList;
    match c.call
    case Clear => front, m, source := [], [], [];
    case Cleanup =>
      front, m := [], Live(l, c.now);
      source := LiveFromBehind(l, c.now);
    case Get(_) => front, m, source := GetLeaves(l, c, ttl, capacity);
    case Put(_, _) => front, m, source := PutLeaves(l, c, ttl, capacity);
  }

  lemma LeavesKeepsRecency(l: seq<Entry>, cs: seq<Timed>, rs: seq<Option<Value>>, c: Timed, r: Option<Value>,
                           front: seq<Entry>, m: seq<Entry>, source: seq<nat>)
    requires |cs| == |rs| && ByRecency(l, cs, rs) && Leaves(l, c, r, front, m, source)
    ensures ByRecency(front + m, cs + [c], rs + [r])
  {
    hide LastUse, Uses;
    forall e | e in front + m ensures LastUse(cs + [c], rs + [r], e.key) == if e in m then LastUse(cs, rs, e.key) else |cs| {
      LastUseGrows(cs, rs, c, r, e.key);
    }
    var l' := front + m;
    forall i | 0 <= i < |l'| ensures LastUse(cs + [c], rs + [r], l'[i].key) >= 0 {
      assert l'[i] in front + m;
    }
    forall i, j | 0 <= i < j < |l'| ensures LastUse(cs + [c], rs + [r], l'[i].key) > LastUse(cs + [c], rs + [r], l'[j].key) {
      var f := |front|;
      assert l'[j] == m[j - f];
      LastUseGrows(cs, rs, c, r, l'[j].key);
      LastUseGrows(cs, rs, c, r, l'[i].key);
      if i >= f {
        assert l'[i] == m[i - f];
      } else {
        assert l'[i] == front[0];
      }
    }
  }

  lemma LeavesKeepsCurrent(l: seq<Entry>, cs: seq<Timed>, ttl: int, c: Timed, r: Option<Value>,
                           front: seq<Entry>, m: seq<Entry>, source: seq<nat>)
    requires Current(l, cs, ttl) && Leaves(l, c, r, front, m, source)
    requires front != [] ==> if c.call.Put? then front[0] == Entry(c.call.key, c.call.val, c.now + ttl) else front[0] in l
    ensures Current(front + m, cs + [c], ttl)
  {
    hide LastPut;
    var l' := front + m;
    forall i | 0 <= i < |l'| ensures IsCurrent(l'[i], cs + [c], ttl) {
      LastPutGrows(cs, c, l'[i].key);
      if i >= |front| {
        assert l'[i] == m[i - |front|] && IsCurrent(l[source[i - |front|]], cs, ttl);
      } else if !c.call.Put? {
        assert IsCurrent(front[0], cs, ttl);
      }
    }
  }

  /** Both hold of the list after every call. */
  ghost predicate Recorded(l: seq<Entry>, cs: seq<Timed>, rs: seq<Option<Value>>, ttl: int, capacity: int) {
    |cs| == |rs| && Fits(l, capacity) && ByRecency(l, cs, rs) && Current(l, cs, ttl)
  }

  lemma StepRecorded(l: seq<Entry>, cs: seq<Timed>, rs: seq<Option<Value>>, c: Timed, ttl: int, capacity: int)
    requires Recorded(l, cs, rs, ttl, capacity)
    ensures var (l', r) := Step(l, c, ttl, capacity); Recorded(l', cs + [c], rs + [r], ttl, capacity)
  {
    hide ByRecency, Current, Step, Leaves;
    var (l', r) := Step(l, c, ttl, capacity);
    StepFits(l, c, ttl, capacity);
    var front, m, source := StepLeaves(l, c, ttl, capacity);
    LeavesKeepsRecency(l, cs, rs, c, r, front, m, source);
    LeavesKeepsCurrent(l, cs, ttl, c, r, front, m, source);
  }

  lemma {:induction false} RunRecorded(l: seq<Entry>, past: seq<Timed>, rs: seq<Option<Value>>, cs: seq<Timed>, ttl: int, capacity: int)
    requires Recorded(l, past, rs, ttl, capacity)
    ensures var (l', rs') := Run(l, cs, ttl, capacity); Recorded(l', past + cs, rs + rs', ttl, capacity)
    decreases |cs|
  {
    hide Recorded, Step;
    if cs == [] {
      assert past + cs == past && rs + [] == rs;
    } else {
      var (l1, r) := Step(l, cs[0], ttl, capacity);
      StepRecorded(l, past, rs, cs[0], ttl, capacity);
      RunRecorded(l1, past + [cs[0]], rs + [r], cs[1..], ttl, capacity);
      assert past + [cs[0]] + cs[1..] == past + cs;
      var (l', rs') := Run(l1, cs[1..], ttl, capacity);
      assert rs + [r] + rs' == rs + ([r] + rs');
    }
  }

  /** After every run of a new cache the list is ordered by last Put or hit, latest first, and
      each entry has the value and expiry of the last Put of its key. */
  lemma RunInOrder(cs: seq<Timed>, ttl: int, capacity: int)
    ensures var (l, rs) := Run([], cs, ttl, capacity);
      |rs| == |cs| && Fits(l, capacity) && ByRecency(l, cs, rs) && Current(l, cs, ttl)
  {
    hide Run;
    RunRecorded([], [], [], cs, ttl, capacity);
    var (l, rs) := Run([], cs, ttl, capacity);
    assert [] + cs == cs && [] + rs == rs;
  }

  /** Which keys one call takes out of the cache: all for Clear, the expired ones for Cleanup, the
      key itself for a Get that finds it expired, and for a Put of a new key into a full cache
      the last one, which by the order is the one least recently used. */
  lemma LosesExactly(l: seq<Entry>, c: Timed, ttl: int, capacity: int, i: nat)
    requires Fits(l, capacity) && i < |l|
    ensures NoKey(Step(l, c, ttl, capacity).0, l[i].key) <==>
      match c.call
      case Clear => true
      case Cleanup => c.now > l[i].expires
      case Get(k) => k == l[i].key && c.now > l[i].expires
      case Put(k, _) => NoKey(l, k) && |l| >= capacity && i == |l| - 1
  {
    match c.call
    case Clear =>
    case Cleanup => LivePresence(l, c.now, i);
    case Get(k) => GetPresence(l, k, c.now, i);
    case Put(k, v) => PutPresence(l, k, v, c.now + ttl, capacity, i);
  }

  lemma LivePresence(l: seq<Entry>, now: int, i: nat)
    requires Distinct(l) && i < |l|
    ensures NoKey(Live(l, now), l[i].key) <==> now > l[i].expires
  {
    LiveFacts(l, now);
    var m := Live(l, now);
    if l[i] in m {
      var j :| 0 <= j < |m| && m[j] == l[i];
    } else {
      forall j | 0 <= j < |m| ensures m[j].key != l[i].key {
        assert m[j] in l;
      }
    }
  }

  lemma RemovedPresence(l: seq<Entry>, j: nat, i: nat)
    requires Distinct(l) && i < |l| && j < |l|
    ensures NoKey(Removed(l, j), l[i].key) <==> i == j
  {
    if i < j {
      assert Removed(l, j)[i] == l[i];
    } else if i > j {
      assert Removed(l, j)[i - 1] == l[i];
    }
  }

  lemma GetPresence(l: seq<Entry>, k: Key, now: int, i: nat)
    requires Distinct(l) && i < |l|
    ensures NoKey(GetList(l, k, now).0, l[i].key) <==> k == l[i].key && now > l[i].expires
  {
    if j :| 0 <= j < |l| && l[j].key == k {
      GetMoves(l, j, now);
      RemovedPresence(l, j, i);
      PresenceInFront(l[j], Removed(l, j), l[i].key);
    } else {
      GetMisses(l, k, now);
      assert !NoKey(l, l[i].key);
    }
  }

  lemma PresenceInFront(e: Entry, m: seq<Entry>, k: Key)
    ensures NoKey([e] + m, k) <==> e.key != k && NoKey(m, k)
  {
    var l := [e] + m;
    if NoKey(l, k) {
      assert l[0].key != k;
      forall i | 0 <= i < |m| ensures m[i].key != k {
        assert l[i + 1] == m[i];
      }
    }
  }

  lemma PutPresence(l: seq<Entry>, k: Key, v: Value, expires: int, capacity: int, i: nat)
    requires Fits(l, capacity) && i < |l|
    ensures NoKey(PutList(l, k, v, expires, capacity), l[i].key) <==> NoKey(l, k) && |l| >= capacity && i == |l| - 1
  {
    var e := Entry(k, v, expires);
    if j :| 0 <= j < |l| && l[j].key == k {
      PutMoves(l, j, v, expires, capacity);
      RemovedPresence(l, j, i);
      PresenceInFront(e, Removed(l, j), l[i].key);
    } else {
      PutAdds(l, k, v, expires, capacity);
      var m := if |l| < capacity then l else l[..|l| - 1];
      PresenceInFront(e, m, l[i].key);
      if i < |m| {
        assert m[i] == l[i];
      }
    }
  }

  /** After every run of a new cache a Put evicts a key only if it is new and the cache full, and
      then the key whose last Put or hit is the oldest of all present. */
  lemma EvictsOldest(cs: seq<Timed>, ttl: int, capacity: int, c: Timed, i: nat)
    requires c.call.Put? && i < |Run([], cs, ttl, capacity).0|
    ensures var (l, rs) := Run([], cs, ttl, capacity);
      && |rs| == |cs|
      && (NoKey(Step(l, c, ttl, capacity).0, l[i].key) <==>
            && NoKey(l, c.call.key) && |l| >= capacity
            && forall j :: 0 <= j < |l| && j != i ==> LastUse(cs, rs, l[j].key) > LastUse(cs, rs, l[i].key))
  {
    hide Run, LastUse, Step, NoKey;
    RunInOrder(cs, ttl, capacity);
    var (l, rs) := Run([], cs, ttl, capacity);
    LosesExactly(l, c, ttl, capacity, i);
    var n := |l| - 1;
    if i != n {
      assert LastUse(cs, rs, l[i].key) > LastUse(cs, rs, l[n].key);
    }
  }

  // ---- while nothing expires, the cache holds what was used most recently

  /** No call comes later than the time to live after a Put before it. */
  ghost predicate Unexpired(cs: seq<Timed>, ttl: int) {
    forall i, j :: 0 <= i < j < |cs| && cs[i].call.Put? ==> cs[j].now <= cs[i].now + ttl
  }

  /** When the cache was last cleared, -1 if never. */
  ghost function LastClear(cs: seq<Timed>): int {
    if cs == [] then -1
    else
      var n := |cs| - 1;
      if cs[n].call.Clear? then n else LastClear(cs[..n])
  }

  lemma LastClearGrows(cs: seq<Timed>, c: Timed)
    ensures LastClear(cs + [c]) == if c.call.Clear? then |cs| else LastClear(cs)
  {
    assert (cs + [c])[..|cs|] == cs;
  }

  ghost predicate Used(cs: seq<Timed>, rs: seq<Option<Value>>, k: Key)
    requires |cs| == |rs|
  {
    LastUse(cs, rs, k) > LastClear(cs)
  }

  /** Everything present was used since the last Clear; what was used since and is not present
      is older than all that is, and the cache is full. */
  ghost predicate MostRecent(l: seq<Entry>, cs: seq<Timed>, rs: seq<Option<Value>>, capacity: int)
    requires |cs| == |rs|
  {
    && (forall i :: 0 <= i < |l| ==> Used(cs, rs, l[i].key))
    && forall k :: NoKey(l, k) && Used(cs, rs, k) ==>
         |l| == Room(capacity) && forall i :: 0 <= i < |l| ==> LastUse(cs, rs, l[i].key) > LastUse(cs, rs, k)
  }

  /** The list after a call that does not clear: the key it uses, if any, in front of others. */
  ghost predicate Fresh(l: seq<Entry>, c: Timed, r: Option<Value>, l': seq<Entry>, capacity: int) {
    && (forall i :: 0 <= i < |l'| ==> Uses(c, r, l'[i].key) || Has(l, l'[i].key))
    && (forall k :: NoKey(l', k) ==>
          || (NoKey(l, k) && !Uses(c, r, k) && (|l| == Room(capacity) ==> |l'| == |l|))
          || (Room(capacity) == 0 && l' == [])
          || (|l'| == Room(capacity) && l != [] && l[|l| - 1].key == k && !Uses(c, r, k)))
  }

  lemma FreshKeepsMostRecent(l: seq<Entry>, cs: seq<Timed>, rs: seq<Option<Value>>, c: Timed, r: Option<Value>, l': seq<Entry>, capacity: int)
    requires |cs| == |rs| && ByRecency(l, cs, rs) && MostRecent(l, cs, rs, capacity)
    requires !c.call.Clear? && Fresh(l, c, r, l', capacity) && ByRecency(l', cs + [c], rs + [r])
    ensures MostRecent(l', cs + [c], rs + [r], capacity)
  {
    hide LastUse, Uses, LastClear, ByRecency;
    LastClearGrows(cs, c);
    forall k ensures LastUse(cs + [c], rs + [r], k) == if Uses(c, r, k) then |cs| else LastUse(cs, rs, k) {
      LastUseGrows(cs, rs, c, r, k);
    }
    assert LastClear(cs) < |cs| by { ClearBefore(cs); }
    forall i | 0 <= i < |l'| ensures Used(cs + [c], rs + [r], l'[i].key) {
      if !Uses(c, r, l'[i].key) {
        var j :| 0 <= j < |l| && l[j].key == l'[i].key;
      }
    }
    forall k | NoKey(l', k) && Used(cs + [c], rs + [r], k)
      ensures |l'| == Room(capacity)
      ensures forall i :: 0 <= i < |l'| ==> LastUse(cs + [c], rs + [r], l'[i].key) > LastUse(cs + [c], rs + [r], k)
    {
      if l' != [] {
        forall i | 0 <= i < |l'| ensures LastUse(cs + [c], rs + [r], l'[i].key) > LastUse(cs + [c], rs + [r], k) {
          OlderThan(l, cs, rs, c, r, l', capacity, k, i);
        }
      }
    }
  }

  lemma ClearBefore(cs: seq<Timed>)
    ensures -1 <= LastClear(cs) < |cs|
  {
  }

  lemma OlderThan(l: seq<Entry>, cs: seq<Timed>, rs: seq<Option<Value>>, c: Timed, r: Option<Value>, l': seq<Entry>, capacity: int, k: Key, i: nat)
    requires |cs| == |rs| && ByRecency(l, cs, rs) && MostRecent(l, cs, rs, capacity)
    requires Fresh(l, c, r, l', capacity) && i < |l'| && NoKey(l', k) && !Uses(c, r, k) && Used(cs, rs, k)
    ensures LastUse(cs + [c], rs + [r], l'[i].key) > LastUse(cs + [c], rs + [r], k)
  {
    hide LastUse, Uses, LastClear;
    LastUseGrows(cs, rs, c, r, k);
    LastUseGrows(cs, rs, c, r, l'[i].key);
    if !Uses(c, r, l'[i].key) {
      var j :| 0 <= j < |l| && l[j].key == l'[i].key;
      assert l[j].key != k;
      if !NoKey(l, k) {
        assert l[|l| - 1].key == k;
      }
    } else {
      UseBefore(cs, rs, k);
    }
  }

  lemma UseBefore(cs: seq<Timed>, rs: seq<Option<Value>>, k: Key)
    requires |cs| == |rs|
    ensures LastUse(cs, rs, k) < |cs|
  {
  }

  lemma {:induction false} AllLive(l: seq<Entry>, now: int)
    requires forall i :: 0 <= i < |l| ==> now <= l[i].expires
    ensures Live(l, now) == l
  {
    if l != [] {
      AllLive(l[1..], now);
    }
  }

  lemma GetFresh(l: seq<Entry>, c: Timed, ttl: int, capacity: int)
    requires Fits(l, capacity) && c.call.Get? && forall i :: 0 <= i < |l| ==> c.now <= l[i].expires
    ensures var (l', r) := Step(l, c, ttl, capacity); Fresh(l, c, r, l', capacity)
  {
    var k := c.call.key;
    if j :| 0 <= j < |l| && l[j].key == k {
      GetMoves(l, j, c.now);
      MovedPresence(l, j, l[j]);
    } else {
      GetMisses(l, k, c.now);
    }
  }

  lemma MovedPresence(l: seq<Entry>, j: nat, e: Entry)
    requires Distinct(l) && j < |l| && e.key == l[j].key
    ensures var l' := [e] + Removed(l, j);
      |l'| == |l| && (forall k :: NoKey(l', k) <==> NoKey(l, k)) && forall i :: 0 <= i < |l'| ==> Has(l, l'[i].key)
  {
    var l' := [e] + Removed(l, j);
    forall k ensures NoKey(l', k) <==> NoKey(l, k) {
      PresenceInFront(e, Removed(l, j), k);
      if i :| 0 <= i < |l| && l[i].key == k {
        RemovedPresence(l, j, i);
      } else {
        forall i | 0 <= i < |Removed(l, j)| ensures Removed(l, j)[i].key != k {
          assert Removed(l, j)[i] == l[if i < j then i else i + 1];
        }
      }
    }
    forall i | 0 <= i < |l'| ensures Has(l, l'[i].key) {
      assert !NoKey(l', l'[i].key);
    }
  }

  lemma PutFresh(l: seq<Entry>, c: Timed, ttl: int, capacity: int)
    requires Fits(l, capacity) && c.call.Put?
    ensures Fresh(l, c, None, Step(l, c, ttl, capacity).0, capacity)
  {
    hide Fresh, PutList, Distinct;
    var e := Entry(c.call.key, c.call.val, c.now + ttl);
    if j :| 0 <= j < |l| && l[j].key == e.key {
      PutMoves(l, j, e.val, e.expires, capacity);
      FreshMoved(l, c, e, j, capacity);
    } else {
      PutAdds(l, e.key, e.val, e.expires, capacity);
      FreshAdded(l, c, e, capacity);
    }
  }

  lemma FreshMoved(l: seq<Entry>, c: Timed, e: Entry, j: nat, capacity: int)
    requires Fits(l, capacity) && c.call.Put? && j < |l| && l[j].key == e.key == c.call.key
    ensures Fresh(l, c, None, [e] + Removed(l, j), capacity)
  {
    hide Removed, Distinct;
    MovedPresence(l, j, e);
  }

  lemma FreshAdded(l: seq<Entry>, c: Timed, e: Entry, capacity: int)
    requires Fits(l, capacity) && c.call.Put? && NoKey(l, e.key) && e.key == c.call.key
    ensures Fresh(l, c, None, if |l| < capacity then [e] + l else if l == [] then [] else [e] + l[..|l| - 1], capacity)
  {
    hide Distinct;
    if |l| < capacity {
      AddedPresence(l, e);
    } else if l != [] {
      EvictedPresence(l, e);
    }
  }

  lemma AddedPresence(l: seq<Entry>, e: Entry)
    ensures forall x :: NoKey([e] + l, x) ==> NoKey(l, x) && x != e.key
    ensures forall i :: 0 <= i < |[e] + l| ==> ([e] + l)[i].key == e.key || Has(l, ([e] + l)[i].key)
  {
    forall x | NoKey([e] + l, x) ensures NoKey(l, x) && x != e.key {
      PresenceInFront(e, l, x);
    }
  }

  lemma EvictedPresence(l: seq<Entry>, e: Entry)
    requires l != []
    ensures var l' := [e] + l[..|l| - 1];
      && (forall x :: NoKey(l', x) ==> x != e.key && (NoKey(l, x) || l[|l| - 1].key == x))
      && (forall i :: 0 <= i < |l'| ==> l'[i].key == e.key || Has(l, l'[i].key))
  {
    var m := l[..|l| - 1];
    var l' := [e] + m;
    forall x | NoKey(l', x) ensures x != e.key && (NoKey(l, x) || l[|l| - 1].key == x) {
      PresenceInFront(e, m, x);
      forall i | 0 <= i < |l| && l[|l| - 1].key != x ensures l[i].key != x {
        assert i < |m| ==> m[i] == l[i];
      }
    }
    forall i | 0 < i < |l'| ensures Has(l, l'[i].key) {
      assert l[i - 1] == l'[i];
    }
  }

  /** While nothing expires every call keeps the cache filled with the most recent keys. */
  lemma StepMostRecent(l: seq<Entry>, cs: seq<Timed>, rs: seq<Option<Value>>, c: Timed, ttl: int, capacity: int)
    requires Recorded(l, cs, rs, ttl, capacity) && MostRecent(l, cs, rs, capacity) && Unexpired(cs + [c], ttl)
    ensures var (l', r) := Step(l, c, ttl, capacity); MostRecent(l', cs + [c], rs + [r], capacity)
  {
    hide MostRecent, Fresh, ByRecency, Distinct;
    var (l', r) := Step(l, c, ttl, capacity);
    NothingExpired(l, cs, ttl, c);
    StepRecorded(l, cs, rs, c, ttl, capacity);
    match c.call
    case Clear => ClearedMostRecent(cs, rs, c, r, capacity);
    case Cleanup => AllLive(l, c.now); SameFresh(l, c, r, capacity); FreshKeepsMostRecent(l, cs, rs, c, r, l', capacity);
    case Get(_) => GetFresh(l, c, ttl, capacity); FreshKeepsMostRecent(l, cs, rs, c, r, l', capacity);
    case Put(_, _) => PutFresh(l, c, ttl, capacity); FreshKeepsMostRecent(l, cs, rs, c, r, l', capacity);
  }

  lemma SameFresh(l: seq<Entry>, c: Timed, r: Option<Value>, capacity: int)
    requires c.call.Cleanup?
    ensures Fresh(l, c, r, l, capacity)
  {
  }

  lemma ClearedMostRecent(cs: seq<Timed>, rs: seq<Option<Value>>, c: Timed, r: Option<Value>, capacity: int)
    requires |cs| == |rs| && c.call.Clear?
    ensures MostRecent([], cs + [c], rs + [r], capacity)
  {
    LastClearGrows(cs, c);
    forall k ensures !Used(cs + [c], rs + [r], k) {
      LastUseGrows(cs, rs, c, r, k);
    }
  }

  lemma {:induction false} LastPutIn(cs: seq<Timed>, k: Key)
    requires LastPut(cs, k).Some?
    ensures exists i :: 0 <= i < |cs| && cs[i] == LastPut(cs, k).value && cs[i].call.Put?
  {
    var n := |cs| - 1;
    if !(cs[n].call.Put? && cs[n].call.key == k) {
      LastPutIn(cs[..n], k);
      var i :| 0 <= i < n && cs[..n][i] == LastPut(cs, k).value;
      assert cs[i] == LastPut(cs, k).value;
    }
  }

  lemma NothingExpired(l: seq<Entry>, cs: seq<Timed>, ttl: int, c: Timed)
    requires Current(l, cs, ttl) && Unexpired(cs + [c], ttl)
    ensures forall i :: 0 <= i < |l| ==> c.now <= l[i].expires
  {
    hide LastPut;
    forall i | 0 <= i < |l| ensures c.now <= l[i].expires {
      assert IsCurrent(l[i], cs, ttl);
      LastPutIn(cs, l[i].key);
      var j :| 0 <= j < |cs| && cs[j] == LastPut(cs, l[i].key).value;
      assert (cs + [c])[j] == cs[j] && (cs + [c])[|cs|] == c;
    }
  }

  lemma UnexpiredFront(cs: seq<Timed>, ds: seq<Timed>, ttl: int)
    requires Unexpired(cs + ds, ttl)
    ensures Unexpired(cs, ttl)
  {
    assert forall i :: 0 <= i < |cs| ==> (cs + ds)[i] == cs[i];
  }

  lemma {:induction false} RunMostRecent(l: seq<Entry>, past: seq<Timed>, rs: seq<Option<Value>>, cs: seq<Timed>, ttl: int, capacity: int)
    requires Recorded(l, past, rs, ttl, capacity) && MostRecent(l, past, rs, capacity) && Unexpired(past + cs, ttl)
    ensures var (l', rs') := Run(l, cs, ttl, capacity);
      |past + cs| == |rs + rs'| && MostRecent(l', past + cs, rs + rs', capacity)
    decreases |cs|
  {
    hide ByRecency, Current, Fits, Step, MostRecent, Unexpired;
    if cs == [] {
      assert past + cs == past && rs + [] == rs;
    } else {
      var (l1, r) := Step(l, cs[0], ttl, capacity);
      assert past + [cs[0]] + cs[1..] == past + cs;
      UnexpiredFront(past + [cs[0]], cs[1..], ttl);
      StepRecorded(l, past, rs, cs[0], ttl, capacity);
      StepMostRecent(l, past, rs, cs[0], ttl, capacity);
      RunMostRecent(l1, past + [cs[0]], rs + [r], cs[1..], ttl, capacity);
      var (l', rs') := Run(l1, cs[1..], ttl, capacity);
      assert rs + [r] + rs' == rs + ([r] + rs');
    }
  }

  function KeysIn(cs: seq<Timed>): set<Key> {
    set c | c in cs && (c.call.Get? || c.call.Put?) :: c.call.key
  }

  /** The keys used after step `n`. */
  ghost function UsedAfter(cs: seq<Timed>, rs: seq<Option<Value>>, n: int): set<Key>
    requires |cs| == |rs|
  {
    set k | k in KeysIn(cs) && LastUse(cs, rs, k) > n
  }

  lemma {:induction false} UsedIsIn(cs: seq<Timed>, rs: seq<Option<Value>>, k: Key)
    requires |cs| == |rs| && LastUse(cs, rs, k) >= 0
    ensures k in KeysIn(cs)
  {
    var n := |cs| - 1;
    if Uses(cs[n], rs[n], k) {
      assert cs[n] in cs;
    } else {
      UsedIsIn(cs[..n], rs[..n], k);
      var c :| c in cs[..n] && (c.call.Get? || c.call.Put?) && c.call.key == k;
      assert c in cs;
    }
  }

  ghost function FirstKeys(l: seq<Entry>, n: nat): set<Key>
    requires n <= |l|
  {
    if n == 0 then {} else FirstKeys(l, n - 1) + {l[n - 1].key}
  }

  lemma {:induction false} InFirstKeys(l: seq<Entry>, n: nat, x: Key)
    requires n <= |l|
    ensures x in FirstKeys(l, n) <==> exists i :: 0 <= i < n && l[i].key == x
  {
    if n > 0 {
      InFirstKeys(l, n - 1, x);
    }
  }

  lemma {:induction false} FirstKeysCount(l: seq<Entry>, n: nat)
    requires Distinct(l) && n <= |l|
    ensures |FirstKeys(l, n)| == n
  {
    if n > 0 {
      FirstKeysCount(l, n - 1);
      InFirstKeys(l, n - 1, l[n - 1].key);
    }
  }

  lemma SmallerSet(a: set<Key>, b: set<Key>)
    requires a <= b
    ensures |a| <= |b|
  {
    assert b == a + (b - a);
  }

  /** A key is present exactly if fewer keys than the capacity have been used since its last use. */
  lemma PresentIff(l: seq<Entry>, cs: seq<Timed>, rs: seq<Option<Value>>, capacity: int, k: Key)
    requires |cs| == |rs| && Fits(l, capacity) && ByRecency(l, cs, rs) && MostRecent(l, cs, rs, capacity)
    ensures !Used(cs, rs, k) ==> NoKey(l, k)
    ensures Used(cs, rs, k) ==> (Has(l, k) <==> |UsedAfter(cs, rs, LastUse(cs, rs, k))| < Room(capacity))
  {
    hide LastUse, LastClear, KeysIn, FirstKeys;
    var used := UsedAfter(cs, rs, LastUse(cs, rs, k));
    if Used(cs, rs, k) {
      if i :| 0 <= i < |l| && l[i].key == k {
        forall x | x in used ensures x in FirstKeys(l, i) {
          LaterIsInFront(l, cs, rs, capacity, i, x);
        }
        FirstKeysCount(l, i);
        SmallerSet(used, FirstKeys(l, i));
      } else {
        forall x | x in FirstKeys(l, |l|) ensures x in used {
          InFirstKeys(l, |l|, x);
          var j :| 0 <= j < |l| && l[j].key == x;
          UsedIsIn(cs, rs, x);
        }
        FirstKeysCount(l, |l|);
        SmallerSet(FirstKeys(l, |l|), used);
      }
    }
  }

  lemma LaterIsInFront(l: seq<Entry>, cs: seq<Timed>, rs: seq<Option<Value>>, capacity: int, i: nat, x: Key)
    requires |cs| == |rs| && ByRecency(l, cs, rs) && MostRecent(l, cs, rs, capacity) && i < |l|
    requires LastUse(cs, rs, x) > LastUse(cs, rs, l[i].key)
    ensures x in FirstKeys(l, i)
  {
    hide LastUse, LastClear;
    assert Used(cs, rs, l[i].key);
    assert !NoKey(l, x);
    var j :| 0 <= j < |l| && l[j].key == x;
    assert j < i;
    InFirstKeys(l, i, x);
  }

  /** The answer of a Get after any run of a new cache in which nothing expires, from the history
      alone: a hit exactly if the key was put or hit since the last Clear and fewer other keys
      than the capacity have been since then; and then the value last put. */
  lemma HitsExactly(cs: seq<Timed>, ttl: int, capacity: int, k: Key, now: int)
    requires Unexpired(cs + [Timed(Get(k), now)], ttl)
    ensures var (l, rs) := Run([], cs, ttl, capacity);
      && |rs| == |cs|
      && var r := GetList(l, k, now).1;
         if Used(cs, rs, k) && |UsedAfter(cs, rs, LastUse(cs, rs, k))| < capacity
         then LastPut(cs, k).Some? && LastPut(cs, k).value.call.Put? && r == Some(LastPut(cs, k).value.call.val)
         else r == None
  {
    hide Run, LastUse, LastPut, UsedAfter, ByRecency, MostRecent, Used;
    var c := Timed(Get(k), now);
    UnexpiredFront(cs, [c], ttl);
    StartsMostRecent(capacity);
    assert [] + cs == cs;
    RunMostRecent([], [], [], cs, ttl, capacity);
    RunInOrder(cs, ttl, capacity);
    var (l, rs) := Run([], cs, ttl, capacity);
    assert [] + rs == rs;
    PresentIff(l, cs, rs, capacity, k);
    if i :| 0 <= i < |l| && l[i].key == k {
      NothingExpired(l, cs, ttl, c);
      GetMoves(l, i, now);
      assert IsCurrent(l[i], cs, ttl);
    } else {
      GetMisses(l, k, now);
    }
  }

  lemma StartsMostRecent(capacity: int)
    ensures MostRecent([], [], [], capacity)
    ensures forall ttl :: Recorded([], [], [], ttl, capacity)
  {
  }

  /** A Get that answers gives the value of the last Put of its key, not yet expired; expiry
      included, it can miss a key only if that was never put, lost before, or is expired. */
  lemma GetReturnsLastPut(cs: seq<Timed>, ttl: int, capacity: int, k: Key, now: int)
    ensures var l := Run([], cs, ttl, capacity).0;
      var r := GetList(l, k, now).1;
      && (r.Some? ==> LastPut(cs, k).Some? && LastPut(cs, k).value.call == Put(k, r.value) && now <= LastPut(cs, k).value.now + ttl)
      && (r.None? <==> NoKey(l, k) || (LastPut(cs, k).Some? && now > LastPut(cs, k).value.now + ttl))
  {
    hide Run, LastPut, ByRecency;
    RunInOrder(cs, ttl, capacity);
    var l := Run([], cs, ttl, capacity).0;
    if i :| 0 <= i < |l| && l[i].key == k {
      GetMoves(l, i, now);
      assert IsCurrent(l[i], cs, ttl);
    } else {
      GetMisses(l, k, now);
    }
  }
}
