/** Snapshot isolation over whole runs of the transaction manager, in terms of what was called:
    which Puts a transaction made, and which transactions had committed when it began. */
module MvccHistory {
  import opened Options
  import opened Mvcc

  ghost predicate FromStart(run: seq<State>, steps: seq<Step>) {
    IsRun(run, steps) && run[0] == START
  }

  /** Step `h` is a commit that went through: its transaction is active no more. */
  ghost predicate Committed(run: seq<State>, steps: seq<Step>, h: nat)
    requires |run| == |steps| + 1 && h < |steps|
  {
    steps[h].Commit? && steps[h].id in run[h].active && steps[h].id !in run[h + 1].active
  }

  ghost predicate WritesAt(run: seq<State>, steps: seq<Step>, h: nat, k: Key)
    requires |run| == |steps| + 1 && h < |steps|
  {
    Committed(run, steps, h) && k in run[h].active[steps[h].id].writes
  }

  ghost function WrittenAt(run: seq<State>, steps: seq<Step>, h: nat, k: Key): Option<Value>
    requires |run| == |steps| + 1 && h < |steps| && WritesAt(run, steps, h, k)
  {
    run[h].active[steps[h].id].writes[k]
  }

  /** The last commit before step `n` that wrote the key, -1 if there is none. */
  ghost function LastWriter(run: seq<State>, steps: seq<Step>, n: nat, k: Key): (h: int)
    requires |run| == |steps| + 1 && n <= |steps|
    ensures -1 <= h < n && (h >= 0 ==> WritesAt(run, steps, h, k))
    ensures forall m :: h < m < n ==> !WritesAt(run, steps, m, k)
  {
    if n == 0 then -1 else if WritesAt(run, steps, n - 1, k) then n - 1 else LastWriter(run, steps, n - 1, k)
  }

  /** What the key stands at, and under which version, from the last commit that wrote it. */
  ghost predicate Current(s: State, k: Key, writer: Option<(nat, Option<Value>)>) {
    var c := ChainOf(s, k);
    if s.installing.Some? && k in s.installing.value.todo then
      writer == Some((s.installing.value.version, s.installing.value.todo[k]))
    else
      writer == if c == [] then None else Some((c[0].number, c[0].value))
  }

  ghost function Writer(run: seq<State>, steps: seq<Step>, n: nat, k: Key): Option<(nat, Option<Value>)>
    requires |run| == |steps| + 1 && n <= |steps|
  {
    var h := LastWriter(run, steps, n, k);
    if h < 0 then None else Some((run[h].nextVersion + 1, WrittenAt(run, steps, h, k)))
  }

  lemma QuietCurrent(s: State, step: Step, t: State, k: Key, w: Option<(nat, Option<Value>)>)
    requires Moves(s, step, t) && !step.Commit? && !step.Install? && !step.Collect? && Current(s, k, w)
    ensures Current(t, k, w)
  {
    assert ChainOf(t, k) == ChainOf(s, k) && t.installing == s.installing;
  }

  lemma CollectCurrent(s: State, t: State, k: Key, w: Option<(nat, Option<Value>)>)
    requires Moves(s, Collect, t) && Current(s, k, w)
    ensures Current(t, k, w)
  {
    hide IsOldest, AtLeast;
    var min :| IsOldest(s, min) && t == s.(store := map k | k in s.store :: Collected(s.store[k], min));
    var c := ChainOf(s, k);
    assert ChainOf(t, k) == if k in s.store then Collected(c, min) else [];
    assert Collected(c, min) == [] <==> c == [];
    assert c != [] ==> Collected(c, min)[0] == c[0];
  }

  lemma InstallCurrent(s: State, at: Key, t: State, k: Key, w: Option<(nat, Option<Value>)>)
    requires Moves(s, Install(at), t) && Current(s, k, w)
    ensures Current(t, k, w)
  {
    var i := s.installing.value;
    if at == k {
      assert ChainOf(t, k) == [Version(i.version, i.todo[k], i.base)] + ChainOf(s, k);
      assert t.installing.Some? ==> k !in t.installing.value.todo;
    } else {
      assert ChainOf(t, k) == ChainOf(s, k);
      assert k in i.todo ==> k in i.todo - {at};
    }
  }

  lemma CommitCurrent(s: State, id: nat, t: State, k: Key, w: Option<(nat, Option<Value>)>)
    requires Moves(s, Commit(id), t) && Current(s, k, w)
    ensures id in s.active
    ensures Current(t, k, if id !in t.active && k in s.active[id].writes then Some((s.nextVersion + 1, s.active[id].writes[k])) else w)
  {
    hide CanCommit;
    var x := s.active[id];
    assert ChainOf(t, k) == ChainOf(s, k);
    if CanCommit(s, x) {
      assert t == Validated(s, id) && id !in t.active;
    } else {
      assert t == s;
    }
  }

  /** At every moment of every run each key stands where the last commit that wrote it left it. */
  lemma {:induction false} AlwaysCurrent(run: seq<State>, steps: seq<Step>, n: nat, k: Key)
    requires FromStart(run, steps) && n < |run|
    ensures Current(run[n], k, Writer(run, steps, n, k))
  {
    hide Moves, Current, Inv;
    if n == 0 {
      StartCurrent(k);
    } else {
      var m := n - 1;
      assert n == m + 1;
      AlwaysCurrent(run, steps, m, k);
      var w := Writer(run, steps, m, k);
      match steps[m]
      case Commit(id) => CommitCurrent(run[m], id, run[n], k, w);
      case Install(at) => InstallCurrent(run[m], at, run[n], k, w);
      case Collect => CollectCurrent(run[m], run[n], k, w);
      case _ => QuietCurrent(run[m], steps[m], run[n], k, w);
    }
  }

  lemma StartCurrent(k: Key)
    ensures Current(START, k, None)
  {
  }

  // ---- one transaction

  /** The transaction begins at step `b` and is active up to state `i`. */
  ghost predicate Lives(run: seq<State>, steps: seq<Step>, id: nat, b: nat, i: nat)
    requires |run| == |steps| + 1
  {
    && b < i < |run| && steps[b] == Begin && id == run[b].nextTxn + 1
    && forall m :: b < m <= i ==> id in run[m].active
  }

  /** The last Put of the key that the transaction made in steps `a` to before `i`. */
  ghost function OwnPut(steps: seq<Step>, a: nat, i: nat, id: nat, k: Key): Option<Option<Value>>
    requires a <= i <= |steps|
    decreases i
  {
    if i == a then None
    else if steps[i - 1].Put? && steps[i - 1].id == id && steps[i - 1].k == k then Some(steps[i - 1].v)
    else OwnPut(steps, a, i - 1, id, k)
  }

  lemma WritesStep(s: State, step: Step, t: State, id: nat, k: Key)
    requires Inv(s) && Moves(s, step, t) && id in s.active && id in t.active
    ensures t.active[id].readVersion == s.active[id].readVersion
    ensures t.active[id].writes ==
      if step.Put? && step.id == id then s.active[id].writes[step.k := step.v] else s.active[id].writes
  {
    hide CanCommit, IsOldest, StoreInv, InstallInv;
  }

  lemma BeginStep(s: State, t: State)
    requires Moves(s, Begin, t)
    ensures s.installing.None? && t.active == s.active[s.nextTxn + 1 := Txn(s.nextVersion, map[], map[], None)] && t.store == s.store
    ensures t.installing.None? && t.nextVersion == s.nextVersion
  {
  }

  /** A transaction's write set holds its own last Put of every key. */
  lemma {:induction false} OwnWrites(run: seq<State>, steps: seq<Step>, id: nat, b: nat, i: nat, k: Key)
    requires FromStart(run, steps) && Lives(run, steps, id, b, i)
    ensures run[i].active[id].readVersion == run[b].nextVersion
    ensures var writes := run[i].active[id].writes;
      OwnPut(steps, b + 1, i, id, k) == if k in writes then Some(writes[k]) else None
    decreases i
  {
    hide Moves, Inv;
    var m := i - 1;
    assert i == m + 1;
    if m == b {
      BeginStep(run[b], run[i]);
    } else {
      OwnWrites(run, steps, id, b, m, k);
      RunInv(run, steps, m);
      WritesStep(run[m], steps[m], run[i], id, k);
    }
  }

  lemma VersionStep(s: State, step: Step, t: State)
    requires Moves(s, step, t)
    ensures s.nextVersion <= t.nextVersion
    ensures step.Commit? && step.id in s.active && step.id !in t.active ==> t.nextVersion == s.nextVersion + 1
  {
    hide CanCommit, IsOldest;
  }

  lemma {:induction false} VersionsGrow(run: seq<State>, steps: seq<Step>, a: nat, b: nat)
    requires IsRun(run, steps) && a <= b < |run|
    ensures run[a].nextVersion <= run[b].nextVersion
  {
    hide Moves, Inv;
    if a < b {
      var m := b - 1;
      assert b == m + 1;
      VersionsGrow(run, steps, a, m);
      VersionStep(run[m], steps[m], run[b]);
    }
  }

  /** The version of a commit is newer than a snapshot exactly if it did not happen before. */
  lemma CommitIsNewer(run: seq<State>, steps: seq<Step>, h: nat, b: nat)
    requires IsRun(run, steps) && h < |steps| && b < |run| && Committed(run, steps, h)
    ensures run[h].nextVersion + 1 > run[b].nextVersion <==> b <= h
  {
    hide Moves, Inv;
    var n := h + 1;
    VersionStep(run[h], steps[h], run[n]);
    if b <= h {
      VersionsGrow(run, steps, b, h);
    } else {
      VersionsGrow(run, steps, n, b);
    }
  }

  // ---- what a transaction reads

  /** The value the key had when step `b` began, committed before and nothing else. */
  ghost function SnapshotValue(run: seq<State>, steps: seq<Step>, b: nat, k: Key): Option<Value>
    requires |run| == |steps| + 1 && b <= |steps|
  {
    var h := LastWriter(run, steps, b, k);
    if h < 0 then None else WrittenAt(run, steps, h, k)
  }

  lemma BeginsWithSnapshot(run: seq<State>, steps: seq<Step>, id: nat, b: nat, k: Key)
    requires FromStart(run, steps) && Lives(run, steps, id, b, b + 1)
    ensures Lookup(ChainOf(run[b + 1], k), run[b].nextVersion) == SnapshotValue(run, steps, b, k)
  {
    hide Moves, Inv;
    var n := b + 1;
    BeginStep(run[b], run[n]);
    AlwaysCurrent(run, steps, b, k);
    var h := LastWriter(run, steps, b, k);
    if h >= 0 {
      CommitIsNewer(run, steps, h, b);
    }
    assert ChainOf(run[n], k) == ChainOf(run[b], k);
  }

  /** No garbage collection since it began has taken the version the transaction sees. */
  ghost predicate Undisturbed(run: seq<State>, steps: seq<Step>, id: nat, b: nat, i: nat, k: Key)
    requires |run| == |steps| + 1 && i < |run|
  {
    forall h :: b < h < i ==> !TakesFrom(run[h], steps[h], id, k)
  }

  lemma SnapshotLasts(run: seq<State>, steps: seq<Step>, id: nat, b: nat, i: nat, k: Key)
    requires FromStart(run, steps) && Lives(run, steps, id, b, i)
    ensures var was, now := Lookup(ChainOf(run[b + 1], k), run[b].nextVersion), Lookup(ChainOf(run[i], k), run[b].nextVersion);
      now == if Undisturbed(run, steps, id, b, i, k) then was else None
  {
    hide Moves, Inv, Lookup, ChainOf, TakesFrom;
    var n := b + 1;
    var part, moves := run[n..i + 1], steps[n..i];
    RunInv(run, steps, n);
    forall m, j | 0 <= m < |moves| && j == m + 1 ensures Moves(part[m], moves[m], part[j]) {
      var x, y := n + m, n + j;
      assert y == x + 1 && Moves(run[x], steps[x], run[y]);
    }
    OwnWrites(run, steps, id, b, n, k);
    SnapshotStable(part, moves, id, k, |moves|);
    assert part[|moves|] == run[i];
    if Undisturbed(run, steps, id, b, i, k) {
      assert NeverTaken(part, moves, id, k, |moves|);
    } else {
      var h :| b < h < i && TakesFrom(run[h], steps[h], id, k);
      assert TakesFrom(part[h - n], moves[h - n], id, k);
    }
  }

  /** Snapshot isolation: whatever else runs, a transaction reads its own last write of a key;
      otherwise the value of the last transaction that wrote the key and had committed when it
      began, and nothing of any transaction that had not; but nothing at all once a garbage
      collection has taken that version. */
  lemma SnapshotIsolation(run: seq<State>, steps: seq<Step>, id: nat, b: nat, i: nat, k: Key)
    requires FromStart(run, steps) && Lives(run, steps, id, b, i)
    ensures Answer(run[i], id, k) ==
      match OwnPut(steps, b + 1, i, id, k)
      case Some(v) => v
      case None => if Undisturbed(run, steps, id, b, i, k) then SnapshotValue(run, steps, b, k) else None
  {
    hide Moves, Inv, Lookup, ChainOf, TakesFrom, SnapshotValue, OwnPut;
    OwnWrites(run, steps, id, b, i, k);
    BeginsWithSnapshot(run, steps, id, b, k);
    SnapshotLasts(run, steps, id, b, i, k);
  }

  // ---- what a read leaves behind

  /** The read of which step `m` is the second half found the key at step `h`. */
  ghost predicate Reads(steps: seq<Step>, id: nat, h: nat, m: nat) {
    && h < m < |steps| && steps[h].Get? && steps[h].id == id && steps[m] == Mark(id)
    && forall j :: h < j < m ==> steps[j] != Mark(id) && !(steps[j].Get? && steps[j].id == id)
  }

  lemma GetStep(s: State, t: State, id: nat, k: Key)
    requires Moves(s, Get(id, k), t)
    ensures id in s.active && id in t.active && s.active[id].reading.None?
    ensures t.active[id].reading ==
      if k in s.active[id].writes then None else Some(Reading(k, Lookup(ChainOf(s, k), s.active[id].readVersion).Some?))
    ensures t.active[id].seen == s.active[id].seen && t.active[id].readVersion == s.active[id].readVersion
  {
    hide Lookup;
  }

  lemma MarkStep(s: State, t: State, id: nat)
    requires Moves(s, Mark(id), t)
    ensures id in s.active && id in t.active && s.active[id].reading.Some?
    ensures var x := s.active[id];
      t.active[id].seen == x.seen[x.reading.value.k := ReadMark(s, x, x.reading.value)] && t.active[id].reading.None?
  {
  }

  /** A transaction stays as it is between the two halves of its read. */
  lemma {:induction false} SameFrom(run: seq<State>, steps: seq<Step>, id: nat, a: nat, m: nat)
    requires IsRun(run, steps) && a <= m < |run|
    requires forall j :: a <= j <= m ==> id in run[j].active
    requires forall j :: a <= j < m ==> steps[j] != Mark(id) && !(steps[j].Get? && steps[j].id == id)
    ensures run[m].active[id].reading == run[a].active[id].reading
    ensures run[m].active[id].reading.Some? ==> run[m].active[id] == run[a].active[id]
    decreases m
  {
    hide Moves, Inv;
    if a < m {
      var n := m - 1;
      assert m == n + 1;
      SameFrom(run, steps, id, a, n);
      RunInv(run, steps, n);
      NoNewReading(run[n], steps[n], run[m], id);
    }
  }

  lemma NoNewReading(s: State, step: Step, t: State, id: nat)
    requires Inv(s) && Moves(s, step, t) && id in s.active && id in t.active
    requires step != Mark(id) && !(step.Get? && step.id == id)
    ensures t.active[id].reading == s.active[id].reading
    ensures s.active[id].reading.Some? ==> t.active[id] == s.active[id]
  {
    hide CanCommit, IsOldest, StoreInv, InstallInv;
  }

  /** What a read that went to the store leaves in the read set, however other transactions commit
      between its two lookups: nothing found counts as version 0; a value found as the newest
      version of the key if the transaction may see it, else as the transaction's own snapshot.
      Other entries stay, and a read of an own write never gets that far. */
  lemma ReadLeavesMark(run: seq<State>, steps: seq<Step>, id: nat, b: nat, h: nat, m: nat)
    requires FromStart(run, steps) && Lives(run, steps, id, b, m + 1) && b < h && Reads(steps, id, h, m)
    ensures var k, snapshot := steps[h].k, run[b].nextVersion;
      && OwnPut(steps, b + 1, h, id, k).None?
      && var newest := Latest(ChainOf(run[m], k));
         run[m + 1].active[id].seen == run[h].active[id].seen[k :=
           if Lookup(ChainOf(run[h], k), snapshot).None? then 0 else if newest > snapshot then snapshot else newest]
  {
    hide Moves, Inv, Lookup, Latest, ChainOf, OwnPut;
    var n, g := m + 1, h + 1;
    SameFrom(run, steps, id, g, m);
    GetStep(run[h], run[g], id, steps[h].k);
    MarkStep(run[m], run[n], id);
    OwnWrites(run, steps, id, b, h, steps[h].k);
    OwnWrites(run, steps, id, b, m, steps[h].k);
  }

  // ---- which transactions commit

  lemma CommitStep(s: State, id: nat, t: State)
    requires Moves(s, Commit(id), t)
    ensures s.installing.None? && id in s.active && (id !in t.active <==> CanCommit(s, s.active[id]))
  {
    hide CanCommit;
  }

  /** First committer wins: a commit goes through exactly if no transaction that committed since
      its own one began wrote any key that it writes. */
  lemma FirstCommitterWins(run: seq<State>, steps: seq<Step>, id: nat, b: nat, i: nat)
    requires FromStart(run, steps) && Lives(run, steps, id, b, i) && i < |steps| && steps[i] == Commit(id)
    ensures Committed(run, steps, i) <==>
      forall h, k :: b < h < i && WritesAt(run, steps, h, k) ==> k !in run[i].active[id].writes
  {
    hide Moves, Inv, Conflicts, WritesAt;
    var n := i + 1;
    RunInv(run, steps, i);
    CommitStep(run[i], id, run[n]);
    forall k | k in run[i].active[id].writes
      ensures Conflicts(run[i], run[i].active[id], k) <==> exists h :: b < h < i && WritesAt(run, steps, h, k)
    {
      ConflictMeans(run, steps, id, b, i, k);
    }
  }

  lemma ConflictMeans(run: seq<State>, steps: seq<Step>, id: nat, b: nat, i: nat, k: Key)
    requires FromStart(run, steps) && Lives(run, steps, id, b, i) && run[i].installing.None? && k in run[i].active[id].writes && i < |steps|
    ensures Conflicts(run[i], run[i].active[id], k) <==> exists h :: b < h < i && WritesAt(run, steps, h, k)
  {
    hide Moves, Inv, Conflicts;
    RunInv(run, steps, i);
    ConflictIff(run[i], id, k);
    OwnWrites(run, steps, id, b, i, k);
    AlwaysCurrent(run, steps, i, k);
    var h := LastWriter(run, steps, i, k);
    if h >= 0 {
      CommitIsNewer(run, steps, h, b);
    }
    assert h >= b ==> h > b && WritesAt(run, steps, h, k);
  }
}
