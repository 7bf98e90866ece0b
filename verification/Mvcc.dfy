/** Multi-version concurrency control of pkg/mvcc as a step machine. Beginning, aborting and
    collecting hold the manager's mutex and are one step each; a commit validates in one step and
    then installs key by key, and a read makes two separate lookups, so that both interleave. */
module Mvcc {
  import opened Options

  type Key(==, !new)
  type Value(==, !new)

  /** One version of a key; no value marks a deletion. `base` is the read version of the
      transaction that created it. */
  datatype Version = Version(number: nat, value: Option<Value>, base: nat)

  /** Versions of one key, newest first. */
  type Chain = seq<Version>

  // ---- version chains

  ghost predicate Descending(c: Chain) {
    forall i, j :: 0 <= i < j < |c| ==> c[i].number > c[j].number
  }

  /** The newest version a snapshot may see. */
  function Visible(c: Chain, snapshot: nat): Option<Version> {
    if c == [] then None else if c[0].number <= snapshot then Some(c[0]) else Visible(c[1..], snapshot)
  }

  function Lookup(c: Chain, snapshot: nat): Option<Value> {
    var v := Visible(c, snapshot);
    if v.Some? then v.value.value else None
  }

  function Latest(c: Chain): nat { if c == [] then 0 else c[0].number }

  function AtLeast(c: Chain, min: nat): Chain {
    if c == [] then [] else (if c[0].number >= min then [c[0]] else []) + AtLeast(c[1..], min)
  }

  /** Garbage collection keeps the newest version and those that are not older than `min`. */
  function Collected(c: Chain, min: nat): Chain {
    if |c| < 2 then c else [c[0]] + AtLeast(c[1..], min)
  }

  lemma {:induction false} AtLeastVisible(c: Chain, min: nat, snapshot: nat)
    requires Descending(c) && min <= snapshot
    ensures Visible(AtLeast(c, min), snapshot) ==
      var v := Visible(c, snapshot); if v.Some? && v.value.number >= min then v else None
    ensures forall i :: 0 <= i < |AtLeast(c, min)| ==> AtLeast(c, min)[i] in c && AtLeast(c, min)[i].number >= min
  {
    if c != [] {
      AtLeastVisible(c[1..], min, snapshot);
      if c[0].number < min {
        NoneAtLeast(c, min);
      }
    }
  }

  lemma {:induction false} NoneAtLeast(c: Chain, min: nat)
    requires Descending(c) && (c != [] ==> c[0].number < min)
    ensures AtLeast(c, min) == []
  {
    if c != [] {
      assert |c| > 1 ==> c[1].number < c[0].number;
      NoneAtLeast(c[1..], min);
    }
  }

  /** What garbage collection may take from a snapshot: its version has been superseded, is
      older than the limit and is not a deletion. */
  ghost predicate Takes(c: Chain, min: nat, snapshot: nat) {
    var v := Visible(c, snapshot);
    v.Some? && v.value.value.Some? && v.value.number < min && v.value.number != Latest(c)
  }

  /** Collecting leaves a reader's answer alone exactly if it does not take it. */
  lemma CollectKeepsLookup(c: Chain, min: nat, snapshot: nat)
    requires Descending(c) && min <= snapshot
    ensures Lookup(Collected(c, min), snapshot) == Lookup(c, snapshot) <==> !Takes(c, min, snapshot)
    ensures Takes(c, min, snapshot) ==> Lookup(c, snapshot).Some? && Lookup(Collected(c, min), snapshot) == None
  {
    if |c| >= 2 {
      AtLeastVisible(c[1..], min, snapshot);
      var d := Collected(c, min);
      assert d[0] == c[0] && d[1..] == AtLeast(c[1..], min);
      if c[0].number > snapshot {
        VisibleIn(c[1..], snapshot);
        assert forall x :: x in c[1..] ==> x.number < c[0].number;
      }
    } else if |c| == 1 {
      assert Visible(c[1..], snapshot) == None;
      assert Visible(c, snapshot) == if c[0].number <= snapshot then Some(c[0]) else None;
    } else {
      assert Visible(c, snapshot) == None;
    }
  }

  lemma {:induction false} AtLeastMembers(c: Chain, min: nat, v: Version)
    ensures v in AtLeast(c, min) <==> v in c && v.number >= min
  {
    if c != [] {
      AtLeastMembers(c[1..], min, v);
      assert v in c <==> v == c[0] || v in c[1..];
    }
  }

  /** Collecting keeps the newest version and exactly those not older than the limit. */
  lemma CollectedExactly(c: Chain, min: nat, v: Version)
    ensures v in Collected(c, min) <==> v in c && (v == c[0] || v.number >= min)
  {
    if |c| >= 2 {
      AtLeastMembers(c[1..], min, v);
      assert v in c <==> v == c[0] || v in c[1..];
    }
  }

  lemma {:induction false} VisibleIn(c: Chain, snapshot: nat)
    ensures Visible(c, snapshot).Some? ==> Visible(c, snapshot).value in c && Visible(c, snapshot).value.number <= snapshot
  {
    if c != [] && c[0].number > snapshot {
      VisibleIn(c[1..], snapshot);
    }
  }

  /** A version newer than the snapshot does not change what it sees. */
  lemma NewerIsInvisible(c: Chain, v: Version, snapshot: nat)
    requires v.number > snapshot
    ensures Lookup([v] + c, snapshot) == Lookup(c, snapshot)
  {
    assert ([v] + c)[1..] == c;
  }

  // ---- transactions

  /** A read between its two lookups: the key, and whether the first found a value. */
  datatype Reading = Reading(k: Key, found: bool)

  datatype Txn = Txn(readVersion: nat, writes: map<Key, Option<Value>>, seen: map<Key, nat>, reading: Option<Reading>)

  /** A validated commit that still has keys to install. */
  datatype Installing = Installing(version: nat, base: nat, todo: map<Key, Option<Value>>)

  datatype State = State(
    nextTxn: nat,
    nextVersion: nat,
    active: map<nat, Txn>,
    store: map<Key, Chain>,
    installing: Option<Installing>)

  function ChainOf(s: State, k: Key): Chain { if k in s.store then s.store[k] else [] }

  datatype Step =
    | Begin | Abort(id: nat) | Collect
    | Put(id: nat, k: Key, v: Option<Value>)
    | Get(id: nat, k: Key) | Mark(id: nat)
    | Commit(id: nat) | Install(k: Key)

  /** What a read answers: the transaction's own write, else its snapshot. */
  function Answer(s: State, id: nat, k: Key): Option<Value>
    requires id in s.active
  {
    var t := s.active[id];
    if k in t.writes then t.writes[k] else Lookup(ChainOf(s, k), t.readVersion)
  }

  /** The version number a read leaves in the read set. */
  function ReadMark(s: State, t: Txn, r: Reading): nat {
    var latest := Latest(ChainOf(s, r.k));
    if !r.found then 0 else if latest <= t.readVersion then latest else t.readVersion
  }

  /** The conflict test of a commit, key by key. */
  predicate Conflicts(s: State, t: Txn, k: Key) {
    var latest := Latest(ChainOf(s, k));
    k in t.writes && if k in t.seen then latest > t.seen[k] && latest > t.readVersion else latest > t.readVersion
  }

  predicate CanCommit(s: State, t: Txn) { forall k :: k in t.writes ==> !Conflicts(s, t, k) }

  ghost predicate IsOldest(s: State, min: nat) {
    && min <= s.nextVersion
    && (forall id :: id in s.active ==> min <= s.active[id].readVersion)
    && (min == s.nextVersion || exists id :: id in s.active && s.active[id].readVersion == min)
  }

  function Begun(s: State): State {
    s.(nextTxn := s.nextTxn + 1, active := s.active[s.nextTxn + 1 := Txn(s.nextVersion, map[], map[], None)])
  }

  function Validated(s: State, id: nat): State
    requires id in s.active
  {
    var x := s.active[id];
    s.(nextVersion := s.nextVersion + 1, active := s.active - {id},
       installing := if x.writes == map[] then None else Some(Installing(s.nextVersion + 1, x.readVersion, x.writes)))
  }

  function Installed(s: State, k: Key): State
    requires s.installing.Some? && k in s.installing.value.todo
  {
    var i := s.installing.value;
    var rest := i.todo - {k};
    s.(store := s.store[k := [Version(i.version, i.todo[k], i.base)] + ChainOf(s, k)],
       installing := if rest == map[] then None else Some(i.(todo := rest)))
  }

  /** The transaction is active and in no read, so that its mutex is free. */
  predicate Free(s: State, id: nat) { id in s.active && s.active[id].reading.None? }

  /** The step leads from `s` to `t`. */
  ghost predicate Moves(s: State, step: Step, t: State) {
    match step
    case Begin => s.installing.None? && t == Begun(s)
    case Abort(id) => s.installing.None? && Free(s, id) && t == s.(active := s.active - {id})
    case Collect =>
      s.installing.None? && exists min :: IsOldest(s, min) && t == s.(store := map k | k in s.store :: Collected(s.store[k], min))
    case Put(id, k, v) =>
      Free(s, id) && t == s.(active := s.active[id := s.active[id].(writes := s.active[id].writes[k := v])])
    case Get(id, k) =>
      Free(s, id) && var x := s.active[id];
      t == if k in x.writes then s
           else s.(active := s.active[id := x.(reading := Some(Reading(k, Lookup(ChainOf(s, k), x.readVersion).Some?)))])
    case Mark(id) =>
      id in s.active && s.active[id].reading.Some? && var x := s.active[id];
      t == s.(active := s.active[id := x.(seen := x.seen[x.reading.value.k := ReadMark(s, x, x.reading.value)], reading := None)])
    case Commit(id) =>
      s.installing.None? && Free(s, id) && t == if CanCommit(s, s.active[id]) then Validated(s, id) else s
    case Install(k) => s.installing.Some? && k in s.installing.value.todo && t == Installed(s, k)
  }

  // ---- what every step keeps

  /** Newest first, and every version was written by a transaction that had seen all older
      ones: no update is lost. */
  ghost predicate Lineage(c: Chain) {
    Descending(c) && forall i, j :: 0 <= i < j < |c| ==> c[i].base >= c[j].number
  }

  ghost predicate StoreInv(s: State) {
    forall k :: k in s.store ==> Lineage(s.store[k]) && Latest(s.store[k]) <= s.nextVersion
  }

  ghost predicate TxnInv(s: State) {
    && (forall id :: id in s.active ==> id <= s.nextTxn && s.active[id].readVersion <= s.nextVersion)
    && (forall id, k :: id in s.active && k in s.active[id].seen ==> s.active[id].seen[k] <= s.active[id].readVersion)
  }

  /** A commit under way is newer than every snapshot, and its transaction has seen the newest
      version of each key still to install. */
  ghost predicate InstallInv(s: State) {
    s.installing.Some? ==>
      var i := s.installing.value;
      && i.version == s.nextVersion > i.base
      && (forall id :: id in s.active ==> s.active[id].readVersion < i.version)
      && (forall k :: k in i.todo ==> Latest(ChainOf(s, k)) <= i.base)
  }

  ghost predicate Inv(s: State) { StoreInv(s) && TxnInv(s) && InstallInv(s) }

  /** Dropping versions leaves a chain below `top` and seen by `base` so. */
  lemma {:induction false} AtLeastSub(c: Chain, min: nat, top: nat, base: nat)
    requires Lineage(c) && forall i :: 0 <= i < |c| ==> c[i].number < top && c[i].number <= base
    ensures var r := AtLeast(c, min); Lineage(r) && forall i :: 0 <= i < |r| ==> r[i].number < top && r[i].number <= base
  {
    if c != [] {
      AtLeastSub(c[1..], min, top, base);
      AtLeastSub(c[1..], min, c[0].number, c[0].base);
    }
  }

  lemma CollectedLineage(c: Chain, min: nat)
    requires Lineage(c)
    ensures Lineage(Collected(c, min)) && Latest(Collected(c, min)) == Latest(c)
  {
    if |c| >= 2 {
      AtLeastSub(c[1..], min, c[0].number, c[0].base);
    }
  }

  /** A version on top of a chain its transaction has seen. */
  lemma InstalledLineage(c: Chain, v: Version)
    requires Lineage(c) && Latest(c) <= v.base < v.number
    ensures Lineage([v] + c)
  {
    assert forall i :: 0 < i < |c| ==> c[i].number < c[0].number;
  }

  lemma NextInv(s: State, step: Step, t: State)
    requires Inv(s) && Moves(s, step, t)
    ensures Inv(t)
  {
    hide Lineage, Conflicts, Lookup, Latest, InstallInv;
    match step
    case Commit(id) => CommitInv(s, id, t);
    case Install(k) => InstallKeepsInv(s, k);
    case Collect => CollectInv(s, t);
    case _ => CallInv(s, step, t);
  }

  lemma CallInv(s: State, step: Step, t: State)
    requires Inv(s) && Moves(s, step, t) && !step.Commit? && !step.Install? && !step.Collect?
    ensures Inv(t)
  {
    hide Lineage, Conflicts, Lookup, Latest;
    assert t.store == s.store;
    assert forall k :: ChainOf(t, k) == ChainOf(s, k);
  }

  lemma CollectInv(s: State, t: State)
    requires Inv(s) && Moves(s, Collect, t)
    ensures Inv(t)
  {
    hide Lineage, Lookup, Latest;
    var min :| IsOldest(s, min) && t == s.(store := map k | k in s.store :: Collected(s.store[k], min));
    forall k | k in t.store ensures Lineage(t.store[k]) && Latest(t.store[k]) <= t.nextVersion {
      CollectedLineage(s.store[k], min);
    }
  }

  /** A commit passes only if its transaction has seen the newest version of all it writes. */
  lemma CommitInv(s: State, id: nat, t: State)
    requires Inv(s) && Moves(s, Commit(id), t)
    ensures Inv(t)
  {
    hide Lineage, Lookup;
    var x := s.active[id];
    if CanCommit(s, x) {
      forall k | k in x.writes ensures Latest(ChainOf(t, k)) <= x.readVersion {
        assert !Conflicts(s, x, k);
      }
    }
  }

  lemma InstallKeepsInv(s: State, k: Key)
    requires Inv(s) && s.installing.Some? && k in s.installing.value.todo
    ensures Inv(Installed(s, k))
  {
    hide Lineage, Lookup;
    var t, i := Installed(s, k), s.installing.value;
    var v := Version(i.version, i.todo[k], i.base);
    assert Lineage(ChainOf(s, k)) by { EmptyLineage(); }
    InstalledLineage(ChainOf(s, k), v);
    assert t.store[k] == [v] + ChainOf(s, k);
    assert forall x :: x != k ==> ChainOf(t, x) == ChainOf(s, x);
  }

  lemma EmptyLineage()
    ensures Lineage([])
  {
  }

  /** The conflict test comes down to: has anyone committed this key since I began? */
  lemma ConflictIff(s: State, id: nat, k: Key)
    requires Inv(s) && id in s.active
    ensures Conflicts(s, s.active[id], k) <==> k in s.active[id].writes && Latest(ChainOf(s, k)) > s.active[id].readVersion
  {
  }

  // ---- snapshots over runs

  ghost predicate IsRun(run: seq<State>, steps: seq<Step>) {
    && |run| == |steps| + 1 && Inv(run[0])
    && (forall i, j :: 0 <= i < |steps| && j == i + 1 ==> Moves(run[i], steps[i], run[j]))
  }

  lemma {:induction false} RunInv(run: seq<State>, steps: seq<Step>, i: nat)
    requires IsRun(run, steps) && i < |run|
    ensures Inv(run[i])
  {
    hide Inv, Moves;
    if i > 0 {
      var h := i - 1;
      assert i == h + 1;
      RunInv(run, steps, h);
      NextInv(run[h], steps[h], run[i]);
    }
  }

  /** No step but garbage collection changes what a snapshot shows. */
  lemma SnapshotStep(s: State, step: Step, t: State, id: nat, k: Key)
    requires Inv(s) && Moves(s, step, t) && id in s.active && id in t.active && step != Collect
    ensures t.active[id].readVersion == s.active[id].readVersion
    ensures Lookup(ChainOf(t, k), s.active[id].readVersion) == Lookup(ChainOf(s, k), s.active[id].readVersion)
  {
    hide Lineage, Lookup, Conflicts, Latest;
    if step.Install? && step.k == k {
      var i := s.installing.value;
      NewerIsInvisible(ChainOf(s, k), Version(i.version, i.todo[k], i.base), s.active[id].readVersion);
    }
  }

  /** Garbage collection changes an active transaction's reading of a key exactly if it takes
      the version that transaction sees, and then nothing is left to read. */
  lemma CollectStep(s: State, min: nat, t: State, id: nat, k: Key)
    requires Inv(s) && IsOldest(s, min) && t == s.(store := map k | k in s.store :: Collected(s.store[k], min)) && id in s.active
    ensures Lookup(ChainOf(t, k), s.active[id].readVersion) == Lookup(ChainOf(s, k), s.active[id].readVersion)
      <==> !Takes(ChainOf(s, k), min, s.active[id].readVersion)
    ensures Takes(ChainOf(s, k), min, s.active[id].readVersion) ==>
      Lookup(ChainOf(s, k), s.active[id].readVersion).Some? && Lookup(ChainOf(t, k), s.active[id].readVersion) == None
  {
    hide Lookup, Takes, Collected;
    CollectKeepsLookup(ChainOf(s, k), min, s.active[id].readVersion);
    assert Collected([], min) == [] by { CollectedEmpty(min); }
  }

  lemma CollectedEmpty(min: nat)
    ensures Collected([], min) == []
  {
  }

  /** Collecting in `s` takes the version of `k` that the transaction sees. */
  ghost predicate TakesFrom(s: State, step: Step, id: nat, k: Key) {
    step == Collect && id in s.active && exists min :: IsOldest(s, min) && Takes(ChainOf(s, k), min, s.active[id].readVersion)
  }

  lemma OldestUnique(s: State, a: nat, b: nat)
    requires Inv(s) && IsOldest(s, a) && IsOldest(s, b)
    ensures a == b
  {
  }

  /** The limit of a collection always exists. */
  lemma OldestExists(s: State)
    requires TxnInv(s)
    ensures exists min :: IsOldest(s, min)
  {
    var min := OldestOf(s, s.active.Keys);
    assert IsOldest(s, min);
  }

  lemma {:induction false} OldestOf(s: State, ids: set<nat>) returns (min: nat)
    requires TxnInv(s) && ids <= s.active.Keys
    ensures min <= s.nextVersion && forall id :: id in ids ==> min <= s.active[id].readVersion
    ensures min == s.nextVersion || exists id :: id in ids && s.active[id].readVersion == min
    decreases ids
  {
    if ids == {} {
      min := s.nextVersion;
    } else {
      var id :| id in ids;
      min := OldestOf(s, ids - {id});
      if s.active[id].readVersion < min {
        min := s.active[id].readVersion;
      }
    }
  }

  /** One step of any kind: the reading stays exactly unless a collection takes it. */
  lemma ReadingStep(s: State, step: Step, t: State, id: nat, k: Key)
    requires Inv(s) && Moves(s, step, t) && id in s.active && id in t.active
    ensures var r := s.active[id].readVersion;
      && t.active[id].readVersion == r
      && (Lookup(ChainOf(t, k), r) == Lookup(ChainOf(s, k), r) <==> !TakesFrom(s, step, id, k))
      && (TakesFrom(s, step, id, k) ==> Lookup(ChainOf(s, k), r).Some? && Lookup(ChainOf(t, k), r) == None)
  {
    hide Inv, Lookup, Takes, Collected, ChainOf;
    if step == Collect {
      var min :| IsOldest(s, min) && t == s.(store := map k | k in s.store :: Collected(s.store[k], min));
      CollectStep(s, min, t, id, k);
      if other :| IsOldest(s, other) && Takes(ChainOf(s, k), other, s.active[id].readVersion) {
        OldestUnique(s, min, other);
      }
    } else {
      SnapshotStep(s, step, t, id, k);
    }
  }

  ghost predicate Alive(run: seq<State>, id: nat) {
    forall i :: 0 <= i < |run| ==> id in run[i].active
  }

  ghost predicate NeverTaken(run: seq<State>, steps: seq<Step>, id: nat, k: Key, i: nat)
    requires i < |run| == |steps| + 1
  {
    forall h :: 0 <= h < i ==> !TakesFrom(run[h], steps[h], id, k)
  }

  /** In every run, whatever others commit and however often versions are collected, an active
      transaction sees the value of its snapshot exactly as long as no collection has taken the
      version it sees; from then on it sees none. */
  lemma {:induction false} SnapshotStable(run: seq<State>, steps: seq<Step>, id: nat, k: Key, i: nat)
    requires IsRun(run, steps) && Alive(run, id) && i < |run|
    ensures run[i].active[id].readVersion == run[0].active[id].readVersion
    ensures var r := run[0].active[id].readVersion;
      && (Lookup(ChainOf(run[i], k), r) == Lookup(ChainOf(run[0], k), r) <==> NeverTaken(run, steps, id, k, i))
      && (!NeverTaken(run, steps, id, k, i) ==> Lookup(ChainOf(run[0], k), r).Some? && Lookup(ChainOf(run[i], k), r) == None)
  {
    hide Inv, Moves, Lookup, ChainOf, TakesFrom;
    if i > 0 {
      var h := i - 1;
      assert i == h + 1;
      SnapshotStable(run, steps, id, k, h);
      RunInv(run, steps, h);
      ReadingStep(run[h], steps[h], run[i], id, k);
      assert NeverTaken(run, steps, id, k, i) <==> NeverTaken(run, steps, id, k, h) && !TakesFrom(run[h], steps[h], id, k);
    }
  }

  const START: State := State(1, 1, map[], map[], None)

  /** It does happen. A key is written, another transaction commits, a reader begins, the key
      is written again: collecting now takes the reader's only version. */
  lemma CollectTakesFromReader(k: Key, earlier: Value, later: Value) returns (run: seq<State>, steps: seq<Step>)
    ensures IsRun(run, steps) && run[0] == START && 4 in run[|steps|].active
    ensures Answer(run[|steps|], 4, k) == Some(earlier) && TakesFrom(run[|steps|], Collect, 4, k)
  {
    hide Takes, Lookup, Visible, IsOldest, Collected, Inv, Moves;
    var s1 := Begun(START);
    var s2, s3, s4 := WriteOne(s1, 2, k, Some(earlier));
    var s5 := Begun(s4);
    var s6 := CommitNothing(s5, 3);
    var s7, s8 := Begun(s6), Begun(Begun(s6));
    var s9, s10, s11 := WriteOne(s8, 5, k, Some(later));
    run := [START, s1, s2, s3, s4, s5, s6, s7, s8, s9, s10, s11];
    steps := [Begin, Put(2, k, Some(earlier)), Commit(2), Install(k), Begin, Commit(3), Begin, Begin, Put(5, k, Some(later)), Commit(5), Install(k)];
    StartsWell(START);
    StartsWell(s4);
    StartsWell(s6);
    StartsWell(s7);
    assert Inv(START) by { EmptyInv(); }
    assert s11.active == map[4 := Txn(3, map[], map[], None)];
    assert ChainOf(s11, k) == [Version(4, Some(later), 3), Version(2, Some(earlier), 1)];
    ReaderLoses(s11, k, earlier, later);
  }

  lemma EmptyInv()
    ensures Inv(START)
  {
  }

  lemma StartsWell(s: State)
    requires s.installing.None?
    ensures Moves(s, Begin, Begun(s))
  {
  }

  lemma CommitNothing(s: State, id: nat) returns (t: State)
    requires s.installing.None? && Free(s, id) && s.active[id].writes == map[]
    ensures Moves(s, Commit(id), t) && t == s.(nextVersion := s.nextVersion + 1, active := s.active - {id})
  {
    t := Validated(s, id);
  }

  /** A fresh transaction writes one key and commits. */
  lemma WriteOne(s: State, id: nat, k: Key, v: Option<Value>) returns (put: State, valid: State, done: State)
    requires s.installing.None? && id in s.active && Latest(ChainOf(s, k)) <= s.active[id].readVersion
    requires s.active[id] == Txn(s.active[id].readVersion, map[], map[], None)
    ensures Moves(s, Put(id, k, v), put) && Moves(put, Commit(id), valid) && Moves(valid, Install(k), done)
    ensures var version := Version(s.nextVersion + 1, v, s.active[id].readVersion);
      done == s.(nextVersion := s.nextVersion + 1, active := s.active - {id}, store := s.store[k := [version] + ChainOf(s, k)])
  {
    hide Latest;
    put := s.(active := s.active[id := s.active[id].(writes := map[k := v])]);
    assert !Conflicts(put, put.active[id], k);
    valid := Validated(put, id);
    done := Installed(valid, k);
    assert put.active - {id} == s.active - {id};
    assert map[k := v] - {k} == map[];
  }

  lemma ReaderLoses(s: State, k: Key, earlier: Value, later: Value)
    requires s.nextVersion == 4 && s.active == map[4 := Txn(3, map[], map[], None)]
    requires ChainOf(s, k) == [Version(4, Some(later), 3), Version(2, Some(earlier), 1)]
    ensures Answer(s, 4, k) == Some(earlier) && TakesFrom(s, Collect, 4, k)
  {
    assert s.active[4].readVersion == 3;
    var c := ChainOf(s, k);
    assert Visible(c[1..], 3) == Some(c[1]);
    assert IsOldest(s, 3) && Takes(c, 3, 3);
  }
}
