/** Transactional sessions of pkg/database/session.go as values: pending operations, the
    cache of documents read, and named savepoints. */
module SessionModel {
  import opened Options

  type Payload(==, !new, 00)

  /** A document; `id` is its `_id` printed as text. */
  datatype Doc = Doc(id: string, payload: Payload)

  datatype Op = Put(collection: string, docID: string, doc: Doc) | Delete(collection: string, docID: string)
  datatype Write = Wrote(doc: Doc) | Erased

  type Cache = map<string, map<string, Doc>>

  datatype Savepoint = Savepoint(count: nat, writeSet: map<string, Write>, readSet: map<string, nat>, cache: Cache)

  datatype State = State(
    active: bool,
    operations: seq<Op>,
    writeSet: map<string, Write>,
    readSet: map<string, nat>,
    cache: Cache,
    savepoints: map<string, Savepoint>)

  // ---- steps

  function Key(op: Op): string { op.collection + ":" + op.docID }

  function Record(s: State, op: Op): State {
    if !s.active then s
    else s.(operations := s.operations + [op],
            writeSet := s.writeSet[Key(op) := if op.Put? then Wrote(op.doc) else Erased])
  }

  function Remember(s: State, collection: string, doc: Doc): State {
    var known := if collection in s.cache then s.cache[collection] else map[];
    s.(cache := s.cache[collection := known[doc.id := doc]])
  }

  datatype Filter = Filter(id: Option<string>, test: Doc -> bool)

  predicate Hits(op: Op, collection: string, f: Filter) {
    op.collection == collection && if op.Put? then f.test(op.doc) else f.id == Some(op.docID)
  }

  /** The newest pending operation that answers the filter, if any. */
  function Pending(ops: seq<Op>, collection: string, f: Filter): Option<Op> {
    if ops == [] then None
    else if Hits(ops[|ops| - 1], collection, f) then Some(ops[|ops| - 1])
    else Pending(ops[..|ops| - 1], collection, f)
  }

  ghost predicate Cached(s: State, collection: string, id: string) {
    collection in s.cache && id in s.cache[collection]
  }

  ghost predicate CachedHit(s: State, collection: string, f: Filter, d: string) {
    Cached(s, collection, d) && f.test(s.cache[collection][d])
  }

  /** A find answers from the pending operations or the cache if it can; only an answer of the
      collection is cached. */
  ghost function AfterFind(s: State, collection: string, f: Filter, committed: Option<Doc>): State {
    if Pending(s.operations, collection, f).Some? || (exists d :: CachedHit(s, collection, f, d)) || committed.None? then s
    else Remember(s, collection, committed.value)
  }

  function Create(s: State, name: string): State {
    if !s.active || name in s.savepoints then s
    else s.(savepoints := s.savepoints[name := Savepoint(|s.operations|, s.writeSet, s.readSet, s.cache)])
  }

  /** Every savepoint with at least as many operations goes, whenever it was created. */
  function Below(savepoints: map<string, Savepoint>, count: nat): map<string, Savepoint> {
    map n | n in savepoints && savepoints[n].count < count :: savepoints[n]
  }

  function Rollback(s: State, name: string): State
    requires Inv(s)
  {
    if !s.active || name !in s.savepoints then s
    else
      var sp := s.savepoints[name];
      State(s.active, s.operations[..sp.count], sp.writeSet, sp.readSet, sp.cache, Below(s.savepoints, sp.count))
  }

  function Release(s: State, name: string): State {
    if !s.active then s else s.(savepoints := s.savepoints - {name})
  }

  datatype Step =
    | Recorded(op: Op)
    | Found(collection: string, filter: Filter, committed: Option<Doc>)
    | Created(name: string)
    | RolledBack(name: string)
    | Released(name: string)
    | Ended

  ghost function Next(s: State, step: Step): State
    requires Inv(s)
  {
    match step
    case Recorded(op) => Record(s, op)
    case Found(c, f, committed) => AfterFind(s, c, f, committed)
    case Created(n) => Create(s, n)
    case RolledBack(n) => Rollback(s, n)
    case Released(n) => Release(s, n)
    case Ended => s.(active := false)
  }

  // ---- what every step keeps

  ghost predicate CacheKeyed(c: Cache) {
    forall n, d :: n in c && d in c[n] ==> c[n][d].id == d
  }

  ghost predicate Inv(s: State) {
    && CacheKeyed(s.cache)
    && (forall n :: n in s.savepoints ==> s.savepoints[n].count <= |s.operations| && CacheKeyed(s.savepoints[n].cache))
  }

  /** Truncating to a savepoint is always in range, and cached documents stay under their id. */
  lemma NextInv(s: State, step: Step)
    requires Inv(s)
    ensures Inv(Next(s, step))
  {
  }

  // ---- runs

  /** `run` is a run of `steps`: state `i + 1` follows state `i`. */
  ghost predicate IsRun(run: seq<State>, steps: seq<Step>) {
    && |run| == |steps| + 1 && Inv(run[0])
    && (forall i :: 0 <= i < |steps| ==> Inv(run[i]) && run[i + 1] == Next(run[i], steps[i]))
  }

  ghost predicate AliveThroughout(run: seq<State>, name: string) {
    forall i :: 0 <= i < |run| ==> name in run[i].savepoints
  }

  lemma {:induction false} RunInv(run: seq<State>, steps: seq<Step>)
    requires IsRun(run, steps)
    ensures forall i :: 0 <= i < |run| ==> Inv(run[i])
  {
    if steps != [] {
      NextInv(run[|steps| - 1], steps[|steps| - 1]);
    }
  }

  /** What a live savepoint stands on: the operations it counted are still there, and every
      savepoint that was not there at its creation counts at least as many. */
  ghost predicate Standing(first: State, s: State, name: string)
    requires name in first.savepoints
  {
    var c := first.savepoints[name].count;
    && name in s.savepoints && s.savepoints[name] == first.savepoints[name]
    && c <= |first.operations| && c <= |s.operations| && s.operations[..c] == first.operations[..c]
    && (forall x :: x in s.savepoints && s.savepoints[x].count < c ==> x in first.savepoints && s.savepoints[x] == first.savepoints[x])
  }

  lemma StandingStep(first: State, s: State, step: Step, name: string)
    requires Inv(s) && name in first.savepoints && Standing(first, s, name)
    requires name in Next(s, step).savepoints
    ensures Standing(first, Next(s, step), name)
  {
    var c := first.savepoints[name].count;
    var t := Next(s, step);
    if step.RolledBack? && s.active && step.name in s.savepoints {
      var k := s.savepoints[step.name].count;
      assert c < k;
      assert s.operations[..k][..c] == s.operations[..c];
    } else if step.Recorded? && s.active {
      assert t.operations[..c] == s.operations[..c];
    }
  }

  lemma {:induction false} StandingRun(run: seq<State>, steps: seq<Step>, name: string, i: nat)
    requires IsRun(run, steps) && AliveThroughout(run, name) && i < |run|
    ensures Standing(run[0], run[i], name)
  {
    RunInv(run, steps);
    if i > 0 {
      StandingRun(run, steps, name, i - 1);
      assert run[i - 1 + 1] == Next(run[i - 1], steps[i - 1]);
      StandingStep(run[0], run[i - 1], steps[i - 1], name);
    }
  }

  /** Rolling back to a savepoint that has stayed alive restores the operations, the write
      and read sets and the cache of the moment it was created, whatever was recorded,
      read, created, released or rolled back in between. */
  lemma RollbackRestores(before: State, run: seq<State>, steps: seq<Step>, name: string)
    requires Inv(before) && before.active && name !in before.savepoints
    requires IsRun(run, steps) && run[0] == Create(before, name) && AliveThroughout(run, name) && run[|steps|].active
    ensures Inv(run[|steps|])
    ensures var back := Rollback(run[|steps|], name);
      && back.operations == before.operations && back.writeSet == before.writeSet
      && back.readSet == before.readSet && back.cache == before.cache
  {
    RunInv(run, steps);
    StandingRun(run, steps, name, |steps|);
    assert before.operations[..|before.operations|] == before.operations;
  }

  /** After that rollback no savepoint created since is left; one that was there before is
      left exactly if it is still alive and counted strictly fewer operations. */
  lemma RollbackSavepoints(before: State, run: seq<State>, steps: seq<Step>, name: string, x: string)
    requires Inv(before) && before.active && name !in before.savepoints
    requires IsRun(run, steps) && run[0] == Create(before, name) && AliveThroughout(run, name) && run[|steps|].active
    ensures Inv(run[|steps|])
    ensures var last, back := run[|steps|], Rollback(run[|steps|], name);
      x in back.savepoints <==>
        && x in before.savepoints && x in last.savepoints && last.savepoints[x] == before.savepoints[x]
        && before.savepoints[x].count < |before.operations|
    ensures var back := Rollback(run[|steps|], name);
      x in back.savepoints ==> back.savepoints[x] == before.savepoints[x]
  {
    RunInv(run, steps);
    StandingRun(run, steps, name, |steps|);
  }

  /** A rollback can remove a savepoint that was created before its target: one with the
      same number of operations. */
  lemma EarlierSavepointRemoved(s: State)
    requires Inv(s) && s.active && s.savepoints == map[]
    ensures "a" in Create(Create(s, "a"), "b").savepoints
    ensures Rollback(Create(Create(s, "a"), "b"), "b").savepoints == map[]
  {
    var t := Create(Create(s, "a"), "b");
    assert t.savepoints["a"].count == t.savepoints["b"].count == |s.operations|;
  }

  /** A released savepoint is gone, and cannot be rolled back to; nothing else changes. */
  lemma ReleasedIsGone(s: State, name: string)
    requires Inv(s) && s.active
    ensures var t := Release(s, name);
      && (forall n :: n in t.savepoints <==> n in s.savepoints && n != name)
      && (forall n :: n in t.savepoints ==> t.savepoints[n] == s.savepoints[n])
      && t.operations == s.operations && t.writeSet == s.writeSet && t.readSet == s.readSet && t.cache == s.cache
      && Inv(t) && Rollback(t, name) == t
  {
  }

  /** Once the transaction has ended no step brings it back, and none changes its operations, write
      set, read set or savepoints. */
  lemma {:induction false} EndedForGood(run: seq<State>, steps: seq<Step>, a: nat, i: nat)
    requires IsRun(run, steps) && a < i < |run| && steps[a] == Ended
    ensures !run[i].active && run[i].operations == run[a].operations && run[i].writeSet == run[a].writeSet
    ensures run[i].readSet == run[a].readSet && run[i].savepoints == run[a].savepoints
    decreases i
  {
    hide Pending, CachedHit, Inv;
    assert run[i - 1 + 1] == Next(run[i - 1], steps[i - 1]);
    if i - 1 > a {
      EndedForGood(run, steps, a, i - 1);
    }
  }

  // ---- the write set

  /** The last write per key, from the pending operations alone. */
  function WritesOf(ops: seq<Op>): map<string, Write> {
    if ops == [] then map[]
    else
      var op := ops[|ops| - 1];
      WritesOf(ops[..|ops| - 1])[Key(op) := if op.Put? then Wrote(op.doc) else Erased]
  }

  /** The transaction's write set is that of the pending operations, now and at every savepoint. */
  ghost predicate Coherent(s: State) {
    && s.writeSet == WritesOf(s.operations)
    && (forall n :: n in s.savepoints ==>
          s.savepoints[n].count <= |s.operations| && s.savepoints[n].writeSet == WritesOf(s.operations[..s.savepoints[n].count]))
  }

  /** The write set stays that of the pending operations through any nesting of savepoints and
      rollbacks. */
  lemma WriteSetMirrorsOperations(s: State, step: Step)
    requires Inv(s) && Coherent(s)
    ensures Coherent(Next(s, step))
  {
    hide CacheKeyed;
    var t := Next(s, step);
    assert s.operations[..|s.operations|] == s.operations;
    if step.Recorded? && s.active {
      assert t.operations[..|s.operations|] == s.operations;
      forall n | n in t.savepoints ensures t.savepoints[n].writeSet == WritesOf(t.operations[..t.savepoints[n].count]) {
        assert t.operations[..t.savepoints[n].count] == s.operations[..t.savepoints[n].count];
      }
    } else if step.RolledBack? && s.active && step.name in s.savepoints {
      var k := s.savepoints[step.name].count;
      forall n | n in t.savepoints ensures t.savepoints[n].writeSet == WritesOf(t.operations[..t.savepoints[n].count]) {
        assert s.operations[..k][..t.savepoints[n].count] == s.operations[..t.savepoints[n].count];
      }
    }
  }

  /** What a commit would write last per key: an update goes to the id of the changed document. */
  function AppliedBy(ops: seq<Op>): map<string, Write> {
    if ops == [] then map[]
    else
      var op := ops[|ops| - 1];
      AppliedBy(ops[..|ops| - 1])[op.collection + ":" + Affected(op) := if op.Put? then Wrote(op.doc) else Erased]
  }

  predicate KeepsId(op: Op) { op.Put? ==> op.doc.id == op.docID }

  lemma {:induction false} AppliedAsRegistered(ops: seq<Op>)
    requires forall i :: 0 <= i < |ops| ==> KeepsId(ops[i])
    ensures AppliedBy(ops) == WritesOf(ops)
  {
    if ops != [] {
      AppliedAsRegistered(ops[..|ops| - 1]);
      assert KeepsId(ops[|ops| - 1]);
    }
  }

  lemma OneRegistered(op: Op)
    ensures AppliedBy([op]) == WritesOf([op]) <==> KeepsId(op)
  {
    var applied, registered := op.collection + ":" + Affected(op), Key(op);
    var w := if op.Put? then Wrote(op.doc) else Erased;
    assert [op][..0] == [];
    assert AppliedBy([op]) == map[applied := w] && WritesOf([op]) == map[registered := w];
    assert applied == registered <==> Affected(op) == op.docID by {
      var n := |op.collection| + 1;
      assert applied[n..] == Affected(op) && registered[n..] == op.docID;
    }
    assert applied in AppliedBy([op]);
  }

  /** Conflict detection covers exactly what a commit would apply, for every stretch of pending
      operations, exactly if no update changes the id of its document. */
  lemma CommitCoveredIff(ops: seq<Op>)
    ensures (forall a, b :: 0 <= a <= b <= |ops| ==> AppliedBy(ops[a..b]) == WritesOf(ops[a..b]))
      <==> forall i :: 0 <= i < |ops| ==> KeepsId(ops[i])
  {
    hide AppliedBy, WritesOf, KeepsId;
    if forall i :: 0 <= i < |ops| ==> KeepsId(ops[i]) {
      forall a, b | 0 <= a <= b <= |ops| ensures AppliedBy(ops[a..b]) == WritesOf(ops[a..b]) {
        AppliedAsRegistered(ops[a..b]);
      }
    }
    if forall a, b :: 0 <= a <= b <= |ops| ==> AppliedBy(ops[a..b]) == WritesOf(ops[a..b]) {
      forall i | 0 <= i < |ops| ensures KeepsId(ops[i]) {
        assert ops[i..i + 1] == [ops[i]];
        OneRegistered(ops[i]);
      }
    }
  }

  /** An update that moves a document from one id to another registers only the old one. */
  lemma MovedIdNotRegistered(p: Payload)
    ensures var ops := [Put("c", "1", Doc("2", p))];
      "c:2" in AppliedBy(ops) && "c:2" !in WritesOf(ops)
  {
    var op := Put("c", "1", Doc("2", p));
    assert [op][..0] == [];
    assert "c" + ":" + "2" == "c:2" && "c" + ":" + "1" == "c:1";
    assert AppliedBy([op]) == map["c:2" := Wrote(op.doc)] && WritesOf([op]) == map["c:1" := Wrote(op.doc)];
  }

  // ---- reads by id

  /** The effects of the pending operations replayed in order: what each collection and id
      stands at, with nothing for a deleted document. */
  function Replay(m: map<(string, string), Option<Doc>>, ops: seq<Op>): map<(string, string), Option<Doc>>
    decreases |ops|
  {
    if ops == [] then m
    else
      var op := ops[0];
      Replay(m[(op.collection, Affected(op)) := if op.Put? then Some(op.doc) else None], ops[1..])
  }

  /** The id the operation changes the reading of. */
  function Affected(op: Op): string { if op.Put? then op.doc.id else op.docID }

  function ById(id: string): Filter { Filter(Some(id), (d: Doc) => d.id == id) }

  lemma {:induction false} ReplayAppend(m: map<(string, string), Option<Doc>>, ops: seq<Op>, op: Op)
    ensures Replay(m, ops + [op]) == Replay(m, ops)[(op.collection, Affected(op)) := if op.Put? then Some(op.doc) else None]
    decreases |ops|
  {
    if ops == [] {
      assert ops + [op] == [op];
    } else {
      assert (ops + [op])[1..] == ops[1..] + [op];
      ReplayAppend(m[(ops[0].collection, Affected(ops[0])) := if ops[0].Put? then Some(ops[0].doc) else None], ops[1..], op);
    }
  }

  /** Scanning the operations backwards for an id finds exactly what replaying them forwards
      leaves for it. */
  lemma {:induction false} PendingIsReplay(ops: seq<Op>, collection: string, id: string)
    ensures var p := Pending(ops, collection, ById(id));
      var m := Replay(map[], ops);
      && (p.Some? <==> (collection, id) in m)
      && (p.Some? ==> m[(collection, id)] == if p.value.Put? then Some(p.value.doc) else None)
  {
    if ops != [] {
      var n := |ops| - 1;
      PendingIsReplay(ops[..n], collection, id);
      ReplayAppend(map[], ops[..n], ops[n]);
      assert ops == ops[..n] + [ops[n]];
    }
  }

  /** A read by id: the pending effect, else the first-read snapshot, else what the
      collection holds now. */
  ghost function Read(s: State, collection: string, id: string, committed: Option<Doc>): Option<Doc> {
    var m := Replay(map[], s.operations);
    if (collection, id) in m then m[(collection, id)]
    else if Cached(s, collection, id) then Some(s.cache[collection][id])
    else committed
  }

  /** The state after that read. */
  ghost function AfterRead(s: State, collection: string, id: string, committed: Option<Doc>): State {
    if (collection, id) !in Replay(map[], s.operations) && !Cached(s, collection, id) && committed.Some?
    then Remember(s, collection, committed.value)
    else s
  }

  /** What a find with any filter may answer: the newest pending hit, else some cached hit, else
      the collection's own answer. */
  ghost predicate Finds(s: State, collection: string, f: Filter, committed: Option<Doc>, r: Option<Doc>, t: State) {
    var p := Pending(s.operations, collection, f);
    && t == AfterFind(s, collection, f, committed)
    && if p.Some? then r == if p.value.Put? then Some(p.value.doc) else None
       else if exists d :: CachedHit(s, collection, f, d) then
         exists d :: CachedHit(s, collection, f, d) && r == Some(s.cache[collection][d])
       else r == committed
  }

  /** With a filter on the id alone the answer is determined. */
  lemma FindsById(s: State, collection: string, id: string, committed: Option<Doc>, r: Option<Doc>, t: State)
    requires Inv(s) && Finds(s, collection, ById(id), committed, r, t)
    ensures r == Read(s, collection, id, committed) && t == AfterRead(s, collection, id, committed)
  {
    hide Replay, Pending;
    PendingIsReplay(s.operations, collection, id);
    if Cached(s, collection, id) {
      assert CachedHit(s, collection, ById(id), id);
    }
  }

  /** Operation `i` answers the filter: it writes a document that passes, or deletes the id the
      filter asks for. */
  ghost predicate AnswersAt(s: State, collection: string, f: Filter, i: nat)
    requires i < |s.operations|
  {
    match s.operations[i]
    case Put(c, _, doc) => c == collection && f.test(doc)
    case Delete(c, id) => c == collection && f.id == Some(id)
  }

  ghost predicate NewestAnswer(s: State, collection: string, f: Filter, i: nat)
    requires i < |s.operations|
  {
    AnswersAt(s, collection, f, i) && forall j :: i < j < |s.operations| ==> !AnswersAt(s, collection, f, j)
  }

  lemma {:induction false} PendingAt(ops: seq<Op>, collection: string, f: Filter, i: nat)
    requires i < |ops| && Hits(ops[i], collection, f)
    requires forall j :: i < j < |ops| ==> !Hits(ops[j], collection, f)
    ensures Pending(ops, collection, f) == Some(ops[i])
  {
    if i < |ops| - 1 {
      PendingAt(ops[..|ops| - 1], collection, f, i);
    }
  }

  lemma {:induction false} NonePending(ops: seq<Op>, collection: string, f: Filter)
    requires forall j :: 0 <= j < |ops| ==> !Hits(ops[j], collection, f)
    ensures Pending(ops, collection, f).None?
  {
    if ops != [] {
      NonePending(ops[..|ops| - 1], collection, f);
    }
  }

  /** What a find by any filter answers.  The newest own operation that answers the filter decides,
      a deletion meaning nothing found; without one a document read before that passes; only then
      the collection. */
  lemma FindMeans(s: State, collection: string, f: Filter, committed: Option<Doc>, r: Option<Doc>, t: State)
    requires Finds(s, collection, f, committed, r, t)
    ensures forall i :: 0 <= i < |s.operations| && NewestAnswer(s, collection, f, i) ==>
      r == (if s.operations[i].Put? then Some(s.operations[i].doc) else None) && t == s
    ensures (forall i :: 0 <= i < |s.operations| ==> !AnswersAt(s, collection, f, i)) ==>
      if exists d :: CachedHit(s, collection, f, d)
      then t == s && exists d :: CachedHit(s, collection, f, d) && r == Some(s.cache[collection][d])
      else r == committed && t == if committed.None? then s else Remember(s, collection, committed.value)
  {
    hide Pending, CachedHit, Remember;
    forall i | 0 <= i < |s.operations| && NewestAnswer(s, collection, f, i)
      ensures Pending(s.operations, collection, f) == Some(s.operations[i])
    {
      forall j | i < j < |s.operations| ensures !Hits(s.operations[j], collection, f) {
        assert !AnswersAt(s, collection, f, j);
      }
      PendingAt(s.operations, collection, f, i);
    }
    if forall i :: 0 <= i < |s.operations| ==> !AnswersAt(s, collection, f, i) {
      forall j | 0 <= j < |s.operations| ensures !Hits(s.operations[j], collection, f) {
        assert !AnswersAt(s, collection, f, j);
      }
      NonePending(s.operations, collection, f);
    }
  }

  // ---- repeatable reads

  /** All reads of the id agree in the two states, whatever the collection holds. */
  ghost predicate SameReads(s: State, t: State, collection: string, id: string) {
    forall now :: Read(s, collection, id, now) == Read(t, collection, id, now)
  }

  ghost predicate IsPending(s: State, collection: string, id: string) {
    (collection, id) in Replay(map[], s.operations)
  }

  /** A find leaves the snapshot of a cached document alone: it is answered before it reaches the
      collection, or the collection answers nothing, another document or the same version. */
  ghost predicate SparesSnapshot(s: State, c: string, f: Filter, committed: Option<Doc>, collection: string, id: string) {
    || c != collection || Pending(s.operations, c, f).Some? || (exists d :: CachedHit(s, c, f, d))
    || committed.None? || committed.value.id != id
    || (Cached(s, collection, id) && committed.value == s.cache[collection][id])
  }

  /** For every find, whatever its filter, every state and every document already read that the
      session has not written: its reads stay the same exactly if the find spares the snapshot. */
  lemma FindReplacesExactly(s: State, c: string, f: Filter, committed: Option<Doc>, r: Option<Doc>, t: State, collection: string, id: string)
    requires Inv(s) && Finds(s, c, f, committed, r, t) && Cached(s, collection, id) && !IsPending(s, collection, id)
    ensures Cached(t, collection, id) && !IsPending(t, collection, id)
    ensures SameReads(s, t, collection, id) <==> SparesSnapshot(s, c, f, committed, collection, id)
  {
    hide Replay, Pending, CachedHit;
    assert t.operations == s.operations;
    assert Read(s, collection, id, None) == Some(s.cache[collection][id]);
    assert Read(t, collection, id, None) == Some(t.cache[collection][id]);
  }

  /** For example: a document is read, another writer changes it, and a find by another field
      matches the new version only. */
  lemma OtherFilterReplacesSnapshot(s: State, collection: string, f: Filter, seen: Doc, newer: Doc, r: Option<Doc>, t: State, now: Option<Doc>)
    requires Inv(s) && s.operations == [] && s.cache == map[collection := map[seen.id := seen]]
    requires newer.id == seen.id && newer != seen && !f.test(seen) && f.test(newer)
    requires Finds(s, collection, f, Some(newer), r, t)
    ensures Read(s, collection, seen.id, now) == Some(seen) && Read(t, collection, seen.id, now) == Some(newer)
  {
    assert !exists d :: CachedHit(s, collection, f, d);
  }

  /** The session itself neither writes the document nor rolls back. */
  ghost predicate OwnQuiet(steps: seq<Step>, collection: string, id: string) {
    forall i :: 0 <= i < |steps| ==> QuietStep(steps[i], collection, id)
  }

  ghost predicate QuietStep(step: Step, collection: string, id: string) {
    !step.RolledBack? && (step.Recorded? ==> (step.op.collection, Affected(step.op)) != (collection, id))
  }

  ghost predicate Spares(s: State, step: Step, collection: string, id: string) {
    step.Found? ==> SparesSnapshot(s, step.collection, step.filter, step.committed, collection, id)
  }

  /** What is pending for the document does not change, and what is cached stays cached. */
  lemma QuietKeepsPending(s: State, step: Step, collection: string, id: string)
    requires Inv(s) && QuietStep(step, collection, id)
    ensures var t := Next(s, step);
      && (IsPending(t, collection, id) <==> IsPending(s, collection, id))
      && (IsPending(s, collection, id) ==> SameReads(s, t, collection, id))
      && (Cached(s, collection, id) ==> Cached(t, collection, id))
  {
    hide Pending, CachedHit;
    if step.Recorded? && s.active {
      ReplayAppend(map[], s.operations, step.op);
    }
  }

  /** One quiet step on a document that is cached and not pending. */
  lemma QuietStepReads(s: State, step: Step, collection: string, id: string)
    requires Inv(s) && QuietStep(step, collection, id) && Cached(s, collection, id) && !IsPending(s, collection, id)
    ensures SameReads(s, Next(s, step), collection, id) <==> Spares(s, step, collection, id)
  {
    hide Pending, CachedHit, Replay, SparesSnapshot;
    var t := Next(s, step);
    QuietKeepsPending(s, step, collection, id);
    if step.Found? {
      var r := AnswerOf(s, step.collection, step.filter, step.committed);
      FindReplacesExactly(s, step.collection, step.filter, step.committed, r, t, collection, id);
    } else {
      assert t.cache == s.cache;
    }
  }

  /** Every find has an answer. */
  lemma AnswerOf(s: State, c: string, f: Filter, committed: Option<Doc>) returns (r: Option<Doc>)
    ensures Finds(s, c, f, committed, r, AfterFind(s, c, f, committed))
  {
    hide Pending, CachedHit, AfterFind;
    var p := Pending(s.operations, c, f);
    if p.Some? {
      r := if p.value.Put? then Some(p.value.doc) else None;
    } else if d :| CachedHit(s, c, f, d) {
      assert Cached(s, c, d) by { HitIsCached(s, c, f, d); }
      r := Some(s.cache[c][d]);
    } else {
      r := committed;
    }
  }

  lemma HitIsCached(s: State, c: string, f: Filter, d: string)
    requires CachedHit(s, c, f, d)
    ensures Cached(s, c, d)
  {
  }

  ghost predicate AllSpare(run: seq<State>, steps: seq<Step>, collection: string, id: string, n: nat)
    requires n < |run| == |steps| + 1
  {
    forall h :: 0 <= h < n ==> Spares(run[h], steps[h], collection, id)
  }

  lemma {:induction false} PendingThroughout(run: seq<State>, steps: seq<Step>, collection: string, id: string, i: nat)
    requires IsRun(run, steps) && OwnQuiet(steps, collection, id) && i < |run|
    ensures IsPending(run[i], collection, id) <==> IsPending(run[0], collection, id)
    ensures IsPending(run[0], collection, id) ==> SameReads(run[0], run[i], collection, id)
    ensures Cached(run[0], collection, id) ==> Cached(run[i], collection, id)
  {
    hide IsPending, Cached, Read, Next, Inv;
    if i > 0 {
      PendingThroughout(run, steps, collection, id, i - 1);
      QuietKeepsPending(run[i - 1], steps[i - 1], collection, id);
      assert run[i - 1 + 1] == Next(run[i - 1], steps[i - 1]);
    }
  }

  /** A cached document of which nothing is pending reads the same at every moment up to `n`
      exactly if every find up to there spared its snapshot. */
  lemma {:induction false} ReadsThroughout(run: seq<State>, steps: seq<Step>, collection: string, id: string, n: nat)
    requires IsRun(run, steps) && OwnQuiet(steps, collection, id) && n < |run|
    requires Cached(run[0], collection, id) && !IsPending(run[0], collection, id)
    ensures (forall i :: 0 <= i <= n ==> SameReads(run[0], run[i], collection, id)) <==> AllSpare(run, steps, collection, id, n)
  {
    hide IsPending, Cached, Read, Next, Inv, Spares;
    if n > 0 {
      var h := n - 1;
      ReadsThroughout(run, steps, collection, id, h);
      PendingThroughout(run, steps, collection, id, h);
      QuietStepReads(run[h], steps[h], collection, id);
      assert run[h + 1] == Next(run[h], steps[h]);
      assert SameReads(run[0], run[h], collection, id) ==>
        (SameReads(run[0], run[n], collection, id) <==> SameReads(run[h], run[n], collection, id)) by {
        if SameReads(run[0], run[h], collection, id) {
          Chained(run[0], run[h], run[n], collection, id);
        }
      }
    }
  }

  lemma Chained(a: State, b: State, c: State, collection: string, id: string)
    requires SameReads(a, b, collection, id)
    ensures SameReads(a, c, collection, id) <==> SameReads(b, c, collection, id)
  {
    hide Read;
    if SameReads(b, c, collection, id) {
      forall now ensures Read(a, collection, id, now) == Read(c, collection, id, now) {
        assert Read(a, collection, id, now) == Read(b, collection, id, now);
      }
    }
    if SameReads(a, c, collection, id) {
      forall now ensures Read(b, collection, id, now) == Read(c, collection, id, now) {
        assert Read(a, collection, id, now) == Read(c, collection, id, now);
      }
    }
  }

  /** The reads of the id in `t` all give `r`, whatever the collection holds. */
  ghost predicate Always(t: State, collection: string, id: string, r: Option<Doc>) {
    forall now: Option<Doc> :: (now.Some? ==> now.value.id == id) ==> Read(t, collection, id, now) == r
  }

  /** After a read by id, through any run in which the session does not itself write the document
      or roll back, every later read gives the same answer, whatever others commit, exactly if the
      session has the id pending, or the read found a document and no find by any filter replaced
      its snapshot. */
  lemma RepeatableRead(s: State, run: seq<State>, steps: seq<Step>, collection: string, id: string, first: Option<Doc>)
    requires Inv(s) && (first.Some? ==> first.value.id == id)
    requires IsRun(run, steps) && run[0] == AfterRead(s, collection, id, first) && OwnQuiet(steps, collection, id)
    ensures var r := Read(s, collection, id, first);
      (forall i :: 0 <= i < |run| ==> Always(run[i], collection, id, r))
      <==> IsPending(s, collection, id) || (r.Some? && AllSpare(run, steps, collection, id, |steps|))
  {
    hide Replay, Spares, Inv, Next, OwnQuiet;
    var r := Read(s, collection, id, first);
    forall i | 0 <= i < |run| ensures IsPending(run[0], collection, id) ==> SameReads(run[0], run[i], collection, id) {
      PendingThroughout(run, steps, collection, id, i);
    }
    if IsPending(s, collection, id) {
      assert Always(run[0], collection, id, r);
    } else if r.None? {
      var p: Payload := *;
      assert Read(run[0], collection, id, Some(Doc(id, p))) == Some(Doc(id, p));
      assert !Always(run[0], collection, id, r);
    } else {
      ReadsThroughout(run, steps, collection, id, |steps|);
      forall i | 0 <= i < |run| ensures Always(run[i], collection, id, r) <==> SameReads(run[0], run[i], collection, id) {
        PendingThroughout(run, steps, collection, id, i);
        AlwaysCached(run[0], run[i], collection, id, r);
      }
    }
  }

  /** Where the document is cached, a read never depends on the collection. */
  lemma AlwaysCached(s: State, t: State, collection: string, id: string, r: Option<Doc>)
    requires Cached(s, collection, id) && !IsPending(s, collection, id) && Read(s, collection, id, None) == r
    requires Cached(t, collection, id) && !IsPending(t, collection, id)
    ensures Always(t, collection, id, r) <==> SameReads(s, t, collection, id)
  {
    hide Replay;
    assert Read(t, collection, id, None) == Some(t.cache[collection][id]);
  }

  /** Reads by id spare every snapshot. */
  lemma ReadByIdSpares(s: State, c: string, d: string, committed: Option<Doc>, collection: string, id: string)
    requires Inv(s) && (committed.Some? ==> committed.value.id == d)
    requires Cached(s, collection, id)
    ensures SparesSnapshot(s, c, ById(d), committed, collection, id)
  {
    hide Pending;
    if c == collection && d == id {
      assert CachedHit(s, c, ById(d), id);
    }
  }
}
