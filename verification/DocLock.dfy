/** Multi-document locking of pkg/database/doc_lock.go as a step machine. Every thread
    locks its list in sorted order through the striped lock table and then releases it. */
module DocLock {
  import opened Options
  import opened InsertionSort

  /** Ids are only compared, so an id stands for its place in the byte order of the texts. */
  type Id = int
  /** A lock object of the table. */
  type Ref = nat

  /** What each thread wants to lock, and the stripe of every id. */
  datatype Config = Config(given: seq<seq<Id>>, stripeOf: Id -> nat)

  predicate Greater(x: Id, y: Id) { x > y }

  function Plan(c: Config, t: nat): (r: seq<Id>)
    requires t < |c.given|
    ensures |r| == |c.given[t]|
  {
    Sorted(c.given[t], Greater)
  }

  /** Where a thread is: the index it is at, and the lock object it has looked up. */
  datatype Pc =
    | LockStart(at: nat) | LockLookup(at: nat) | LockLeave(at: nat, ref: Ref) | LockWait(at: nat, ref: Ref)
    | FreeStart(at: nat) | FreeLookup(at: nat) | FreeLeave(at: nat, found: Option<Ref>) | FreeUnlock(at: nat, ref: Ref)
    | Finished

  datatype State = State(
    pcs: seq<Pc>,
    stripes: map<nat, nat>,      // stripe mutexes that are held, and by which thread
    table: map<Id, Ref>,         // the lock tables of all stripes
    unused: Ref,                 // the next lock object
    held: map<Ref, nat>)         // document locks that are held, and by which thread

  function Start(c: Config): State {
    State(seq(|c.given|, i => LockStart(0)), map[], map[], 0, map[])
  }

  function Target(c: Config, t: nat, pc: Pc): Option<Id>
    requires t < |c.given|
  {
    if pc.Finished? || pc.at >= |c.given[t]| then None
    else if pc.LockStart? || pc.LockLookup? || pc.LockLeave? || pc.LockWait? then Some(Plan(c, t)[pc.at])
    else Some(c.given[t][pc.at])
  }

  predicate Enabled(c: Config, s: State, t: nat)
    requires |s.pcs| == |c.given| && t < |s.pcs|
  {
    var pc, id := s.pcs[t], Target(c, t, s.pcs[t]);
    match pc
    case LockStart(_) => id.None? || c.stripeOf(id.value) !in s.stripes
    case FreeStart(_) => id.None? || c.stripeOf(id.value) !in s.stripes
    case LockWait(_, ref) => ref !in s.held
    case Finished => false
    case _ => true
  }

  /** The step thread `t` takes next. */
  function Next(c: Config, s: State, t: nat): State
    requires |s.pcs| == |c.given| && t < |s.pcs| && Enabled(c, s, t)
  {
    var pc, id := s.pcs[t], Target(c, t, s.pcs[t]);
    if id.None? then
      s.(pcs := s.pcs[t := if pc.LockStart? then FreeStart(0) else Finished])
    else
      var x, k := id.value, c.stripeOf(id.value);
      match pc
      case LockStart(i) => s.(pcs := s.pcs[t := LockLookup(i)], stripes := s.stripes[k := t])
      case LockLookup(i) =>
        if x in s.table then s.(pcs := s.pcs[t := LockLeave(i, s.table[x])])
        else s.(pcs := s.pcs[t := LockLeave(i, s.unused)], table := s.table[x := s.unused], unused := s.unused + 1)
      case LockLeave(i, ref) => s.(pcs := s.pcs[t := LockWait(i, ref)], stripes := s.stripes - {k})
      case LockWait(i, ref) => s.(pcs := s.pcs[t := LockStart(i + 1)], held := s.held[ref := t])
      case FreeStart(i) => s.(pcs := s.pcs[t := FreeLookup(i)], stripes := s.stripes[k := t])
      case FreeLookup(i) =>
        s.(pcs := s.pcs[t := FreeLeave(i, if x in s.table then Some(s.table[x]) else None)])
      case FreeLeave(i, found) =>
        s.(pcs := s.pcs[t := if found.Some? then FreeUnlock(i, found.value) else FreeStart(i + 1)], stripes := s.stripes - {k})
      case FreeUnlock(i, ref) => s.(pcs := s.pcs[t := FreeStart(i + 1)], held := s.held - {ref})
  }

  // ---- invariant

  /** The documents thread `t` holds. */
  ghost function Holds(c: Config, t: nat, pc: Pc): seq<Id>
    requires t < |c.given|
  {
    var n := |c.given[t]|;
    match pc
    case LockStart(i) => if i <= n then Plan(c, t)[..i] else []
    case LockLookup(i) => if i <= n then Plan(c, t)[..i] else []
    case LockLeave(i, _) => if i <= n then Plan(c, t)[..i] else []
    case LockWait(i, _) => if i <= n then Plan(c, t)[..i] else []
    case FreeStart(i) => if i <= n then c.given[t][i..] else []
    case FreeLookup(i) => if i <= n then c.given[t][i..] else []
    case FreeLeave(i, _) => if i <= n then c.given[t][i..] else []
    case FreeUnlock(i, _) => if i <= n then c.given[t][i..] else []
    case Finished => []
  }

  predicate InStripe(pc: Pc) { pc.LockLookup? || pc.LockLeave? || pc.FreeLookup? || pc.FreeLeave? }

  predicate Freeing(pc: Pc) { pc.FreeStart? || pc.FreeLookup? || pc.FreeLeave? || pc.FreeUnlock? || pc.Finished? }

  ghost predicate ThreadInv(c: Config, s: State, t: nat)
    requires |s.pcs| == |c.given| && t < |s.pcs|
  {
    var pc, id := s.pcs[t], Target(c, t, s.pcs[t]);
    && (id.None? ==> pc.Finished? || (pc.at == |c.given[t]| && (pc.LockStart? || pc.FreeStart?)))
    && (id.Some? && InStripe(pc) ==> c.stripeOf(id.value) in s.stripes && s.stripes[c.stripeOf(id.value)] == t)
    && (pc.LockLeave? || pc.LockWait? || pc.FreeUnlock? ==> id.Some? && id.value in s.table && s.table[id.value] == pc.ref)
    && (pc.FreeLeave? ==> id.Some? && id.value in s.table && pc.found == Some(s.table[id.value]))
    && (if Freeing(pc) then Distinct(c.given[t]) else pc.at <= |c.given[t]| && Distinct(Plan(c, t)[..pc.at]))
  }

  ghost predicate Owns(s: State, t: nat, id: Id) {
    id in s.table && s.table[id] in s.held && s.held[s.table[id]] == t
  }

  ghost predicate TableInv(s: State) {
    && (forall x, y :: x in s.table && y in s.table && s.table[x] == s.table[y] ==> x == y)
    && (forall x :: x in s.table ==> s.table[x] < s.unused)
    && (forall r :: r in s.held ==> s.held[r] < |s.pcs| && exists x :: x in s.table && s.table[x] == r)
  }

  ghost predicate StripeInv(c: Config, s: State)
    requires |s.pcs| == |c.given|
  {
    forall k :: k in s.stripes ==>
      s.stripes[k] < |s.pcs| && InStripe(s.pcs[s.stripes[k]])
      && var id := Target(c, s.stripes[k], s.pcs[s.stripes[k]]); id.Some? && c.stripeOf(id.value) == k
  }

  ghost predicate Inv(c: Config, s: State) {
    && |s.pcs| == |c.given|
    && TableInv(s) && StripeInv(c, s)
    && (forall t :: 0 <= t < |s.pcs| ==> ThreadInv(c, s, t))
    && (forall t, id :: 0 <= t < |s.pcs| ==> (id in Holds(c, t, s.pcs[t]) <==> Owns(s, t, id)))
  }

  lemma StartInv(c: Config)
    ensures Inv(c, Start(c))
  {
  }

  // ---- every step keeps it

  ghost predicate Step(c: Config, s: State, t: nat) {
    Inv(c, s) && t < |s.pcs| && Enabled(c, s, t)
  }

  /** A thread that does not move keeps its facts if its stripes and table entries stay. */
  lemma ThreadFrame(c: Config, s: State, r: State, t: nat, u: nat)
    requires |s.pcs| == |r.pcs| == |c.given| && t < |s.pcs| && u < |s.pcs| && u != t && r.pcs[u] == s.pcs[u]
    requires ThreadInv(c, s, u)
    requires forall k :: k in s.stripes && s.stripes[k] == u ==> k in r.stripes && r.stripes[k] == u
    requires forall x :: x in s.table ==> x in r.table && r.table[x] == s.table[x]
    ensures ThreadInv(c, r, u)
  {
    var id := Target(c, u, s.pcs[u]);
    if id.Some? {
      var x, k := id.value, c.stripeOf(id.value);
      assert x in s.table ==> x in r.table && r.table[x] == s.table[x];
      assert InStripe(s.pcs[u]) ==> k in s.stripes && s.stripes[k] == u;
    }
  }

  /** The facts about the threads that do not move. */
  lemma OthersFrame(c: Config, s: State, t: nat)
    requires Step(c, s, t)
    ensures var r := Next(c, s, t); |r.pcs| == |c.given| && forall u :: 0 <= u < |r.pcs| && u != t ==> ThreadInv(c, r, u)
  {
    hide Plan, Distinct, Target, ThreadInv;
    var r := Next(c, s, t);
    assert ThreadInv(c, s, t);
    if InStripe(s.pcs[t]) {
      OwnStripe(c, s, t);
    }
    forall u | 0 <= u < |r.pcs| && u != t ensures ThreadInv(c, r, u) {
      assert ThreadInv(c, s, u);
      ThreadFrame(c, s, r, t, u);
    }
  }

  lemma OwnStripe(c: Config, s: State, t: nat)
    requires Step(c, s, t) && InStripe(s.pcs[t])
    ensures Target(c, t, s.pcs[t]).Some?
    ensures var k := c.stripeOf(Target(c, t, s.pcs[t]).value); k in s.stripes && s.stripes[k] == t
  {
    assert ThreadInv(c, s, t);
  }

  /** Taking a lock means the thread did not hold it yet. */
  lemma TakesNew(c: Config, s: State, t: nat)
    requires Step(c, s, t) && s.pcs[t].LockWait?
    ensures var i := s.pcs[t].at; i < |c.given[t]| && Distinct(Plan(c, t)[..i + 1])
  {
    hide Sorted;
    assert ThreadInv(c, s, t);
    var i, p := s.pcs[t].at, Plan(c, t);
    assert p[i] in p[..i] ==> p[i] in Holds(c, t, s.pcs[t]);
    assert !Owns(s, t, p[i]);
    var q := p[..i + 1];
    assert q == p[..i] + [p[i]];
    forall j, k | 0 <= j < k < |q| ensures q[j] != q[k] {
      assert p[j] in p[..i];
    }
  }

  /** Holding everything means the list had no duplicate. */
  lemma AllTaken(c: Config, s: State, t: nat)
    requires Inv(c, s) && t < |s.pcs| && s.pcs[t] == LockStart(|c.given[t]|)
    ensures Distinct(c.given[t])
  {
    assert ThreadInv(c, s, t);
    var p := Plan(c, t);
    assert p[..|p|] == p;
    SortedPermutes(c.given[t], Greater);
    DistinctPermuted(p, c.given[t]);
  }

  /** A thread finds the entry of what it is about to release. */
  lemma FindsOwn(c: Config, s: State, t: nat)
    requires Step(c, s, t) && s.pcs[t].FreeLookup? && s.pcs[t].at < |c.given[t]|
    ensures c.given[t][s.pcs[t].at] in s.table
  {
    var i := s.pcs[t].at;
    assert c.given[t][i] == c.given[t][i..][0];
    assert c.given[t][i] in Holds(c, t, s.pcs[t]);
  }

  /** The moving thread's own facts. */
  lemma OwnFacts(c: Config, s: State, t: nat)
    requires Step(c, s, t)
    ensures ThreadInv(c, Next(c, s, t), t)
  {
    hide Sorted, Distinct, Holds, TableInv, StripeInv;
    assert ThreadInv(c, s, t);
    var pc := s.pcs[t];
    if pc.LockWait? {
      TakesNew(c, s, t);
    } else if pc.LockStart? && pc.at == |c.given[t]| {
      AllTaken(c, s, t);
    } else if pc.FreeLookup? && pc.at < |c.given[t]| {
      FindsOwn(c, s, t);
    }
  }

  lemma StripesKept(c: Config, s: State, t: nat)
    requires Step(c, s, t)
    ensures var r := Next(c, s, t); |r.pcs| == |c.given| && StripeInv(c, r)
  {
    hide Plan, Distinct, TableInv, Holds, Owns;
    assert ThreadInv(c, s, t);
  }

  lemma TableKept(c: Config, s: State, t: nat)
    requires Step(c, s, t)
    ensures TableInv(Next(c, s, t))
  {
    hide Plan, Distinct, StripeInv, Holds;
    assert ThreadInv(c, s, t);
    var r, id := Next(c, s, t), Target(c, t, s.pcs[t]);
    forall f | f in r.held ensures r.held[f] < |r.pcs| && exists x :: x in r.table && r.table[x] == f {
      if f in s.held {
        var x :| x in s.table && s.table[x] == f;
        assert x in r.table;
      } else {
        var x := id.value;
        assert x in r.table && r.table[x] == f;
      }
    }
  }

  // ---- what is held

  lemma SameHeld(c: Config, s: State, t: nat, u: nat, id: Id)
    requires Step(c, s, t) && u < |s.pcs|
    requires !(s.pcs[t].LockWait? || s.pcs[t].FreeUnlock?)
    ensures Owns(Next(c, s, t), u, id) <==> Owns(s, u, id)
  {
    hide Plan, Distinct, StripeInv, Holds, ThreadInv;
    var r := Next(c, s, t);
    assert r.held == s.held;
    assert forall x :: x in s.table ==> x in r.table && r.table[x] == s.table[x];
    if id in r.table && id !in s.table {
      assert r.table[id] == s.unused;
    }
  }

  lemma SameHolds(c: Config, s: State, t: nat, id: Id)
    requires Step(c, s, t)
    requires !(s.pcs[t].LockWait? || s.pcs[t].FreeUnlock?)
    ensures id in Holds(c, t, Next(c, s, t).pcs[t]) <==> id in Holds(c, t, s.pcs[t])
  {
    hide Sorted, Distinct, StripeInv, TableInv;
    assert ThreadInv(c, s, t);
    var pc, n := s.pcs[t], |c.given[t]|;
    if pc.LockStart? && pc.at == n {
      SortedPermutes(c.given[t], Greater);
      SameElements(c.given[t], Plan(c, t), id);
      assert Plan(c, t)[..n] == Plan(c, t) && c.given[t][0..] == c.given[t];
    } else if pc.FreeStart? && pc.at == n {
      assert c.given[t][n..] == [];
    }
  }

  /** Acquiring adds exactly the document waited for. */
  lemma Acquires(c: Config, s: State, t: nat, u: nat, id: Id)
    requires Step(c, s, t) && u < |s.pcs| && s.pcs[t].LockWait?
    ensures var r := Next(c, s, t); id in Holds(c, u, r.pcs[u]) <==> Owns(r, u, id)
  {
    hide Sorted, Distinct, StripeInv;
    assert ThreadInv(c, s, t);
    var r, i, p := Next(c, s, t), s.pcs[t].at, Plan(c, t);
    assert p[..i + 1] == p[..i] + [p[i]];
    assert id in Holds(c, u, s.pcs[u]) <==> Owns(s, u, id);
    var x := p[i];
    assert x in s.table && s.table[x] == s.pcs[t].ref && r.held == s.held[s.pcs[t].ref := t] && r.table == s.table;
    assert id in s.table && s.table[id] == s.table[x] ==> id == x;
    assert u == t ==> (id in Holds(c, u, r.pcs[u]) <==> id in p[..i] || id == x);
  }

  /** Releasing removes exactly the document released. */
  lemma Releases(c: Config, s: State, t: nat, u: nat, id: Id)
    requires Step(c, s, t) && u < |s.pcs| && s.pcs[t].FreeUnlock?
    ensures var r := Next(c, s, t); id in Holds(c, u, r.pcs[u]) <==> Owns(r, u, id)
  {
    hide Sorted, StripeInv;
    assert ThreadInv(c, s, t);
    var r, i, g := Next(c, s, t), s.pcs[t].at, c.given[t];
    assert g[i..] == [g[i]] + g[i + 1..];
    assert g[i] !in g[i + 1..];
    assert id in Holds(c, u, s.pcs[u]) <==> Owns(s, u, id);
    assert g[i] in Holds(c, t, s.pcs[t]);
    assert Owns(s, t, g[i]) && s.table[g[i]] == s.pcs[t].ref;
  }

  /** Every step of every thread keeps the invariant. */
  lemma NextInv(c: Config, s: State, t: nat)
    requires Step(c, s, t)
    ensures Inv(c, Next(c, s, t))
  {
    hide Plan, Distinct, StripeInv, TableInv, ThreadInv, Holds, Owns, Enabled;
    OthersFrame(c, s, t);
    OwnFacts(c, s, t);
    StripesKept(c, s, t);
    TableKept(c, s, t);
    var r := Next(c, s, t);
    forall u, id | 0 <= u < |r.pcs| ensures id in Holds(c, u, r.pcs[u]) <==> Owns(r, u, id) {
      HoldsKept(c, s, t, u, id);
    }
  }

  lemma HoldsKept(c: Config, s: State, t: nat, u: nat, id: Id)
    requires Step(c, s, t) && u < |s.pcs|
    ensures var r := Next(c, s, t); |r.pcs| == |s.pcs| && (id in Holds(c, u, r.pcs[u]) <==> Owns(r, u, id))
  {
    hide Plan, Distinct, StripeInv, TableInv, ThreadInv, Holds, Owns;
    if s.pcs[t].LockWait? {
      Acquires(c, s, t, u, id);
    } else if s.pcs[t].FreeUnlock? {
      Releases(c, s, t, u, id);
    } else {
      SameHeld(c, s, t, u, id);
      SameHolds(c, s, t, id);
      assert id in Holds(c, u, s.pcs[u]) <==> Owns(s, u, id);
      assert u != t ==> Next(c, s, t).pcs[u] == s.pcs[u];
    }
  }

  /** No two threads ever hold the same document. */
  lemma MutualExclusion(c: Config, s: State, t: nat, u: nat, id: Id)
    requires Inv(c, s) && t < |s.pcs| && u < |s.pcs|
    requires id in Holds(c, t, s.pcs[t]) && id in Holds(c, u, s.pcs[u])
    ensures t == u
  {
    hide Plan, Distinct, StripeInv, TableInv, ThreadInv, Holds;
    assert Owns(s, t, id) && Owns(s, u, id);
  }

  /** When LockMultiple has returned the thread owns the lock of every document it named and of no
      other; when UnlockMultiple has, of none. */
  lemma HoldsAll(c: Config, s: State, t: nat)
    requires Inv(c, s) && t < |s.pcs|
    ensures s.pcs[t] == FreeStart(0) ==> forall id :: id in c.given[t] <==> Owns(s, t, id)
    ensures s.pcs[t] == Finished ==> forall id :: !Owns(s, t, id)
  {
    hide Plan, Distinct, StripeInv, TableInv, ThreadInv, Owns;
    if s.pcs[t] == FreeStart(0) {
      assert c.given[t][0..] == c.given[t];
      assert forall id :: id in Holds(c, t, s.pcs[t]) <==> Owns(s, t, id);
    } else if s.pcs[t] == Finished {
      assert forall id :: id in Holds(c, t, s.pcs[t]) <==> Owns(s, t, id);
    }
  }

  /** Locks are taken in ascending order: whatever a thread holds while it waits for a document is
      below it, or is that document. */
  lemma TakesInOrder(c: Config, s: State, t: nat, id: Id)
    requires Inv(c, s) && t < |s.pcs| && s.pcs[t].LockWait? && Owns(s, t, id)
    ensures s.pcs[t].at < |c.given[t]| && id <= Plan(c, t)[s.pcs[t].at]
  {
    hide Sorted, Distinct, StripeInv, TableInv;
    assert ThreadInv(c, s, t);
    assert id in Holds(c, t, s.pcs[t]);
    SortedInOrder(c.given[t], Greater);
  }

  // ---- runs

  predicate Stuck(c: Config, s: State)
    requires |s.pcs| == |c.given|
  {
    forall t :: 0 <= t < |s.pcs| ==> !Enabled(c, s, t)
  }

  predicate AllFinished(s: State) {
    forall t :: 0 <= t < |s.pcs| ==> s.pcs[t] == Finished
  }

  /** Some enabled thread moves. */
  ghost predicate Moves(c: Config, s: State, r: State) {
    |s.pcs| == |c.given| && exists t :: 0 <= t < |c.given| && Enabled(c, s, t) && r == Next(c, s, t)
  }

  /** `run` is a schedule from the start: at each step one enabled thread moves. */
  ghost predicate IsRun(c: Config, run: seq<State>) {
    && run != [] && run[0] == Start(c)
    && (forall i, j :: 0 <= i && j == i + 1 && j < |run| ==> Moves(c, run[i], run[j]))
  }

  lemma {:induction false} RunInv(c: Config, run: seq<State>, i: nat)
    requires IsRun(c, run) && i < |run|
    ensures Inv(c, run[i])
  {
    hide Inv, Next, Enabled;
    if i == 0 {
      StartInv(c);
    } else {
      var h := i - 1;
      RunInv(c, run, h);
      assert i == h + 1 && Moves(c, run[h], run[i]);
      var t :| 0 <= t < |c.given| && Enabled(c, run[h], t) && run[i] == Next(c, run[h], t);
      NextInv(c, run[h], t);
    }
  }

  lemma SizeOf(c: Config, s: State)
    requires Inv(c, s)
    ensures |s.pcs| == |c.given|
  {
  }

  // ---- progress

  /** The document a thread is blocked on. */
  ghost predicate Blocked(c: Config, s: State, t: nat)
    requires |s.pcs| == |c.given| && t < |s.pcs|
  {
    s.pcs[t].LockWait? && s.pcs[t].ref in s.held
  }

  /** No thread blocks while it holds a stripe mutex. */
  lemma StripeHolderMoves(c: Config, s: State, k: nat)
    requires Inv(c, s) && k in s.stripes
    ensures s.stripes[k] < |s.pcs| && Enabled(c, s, s.stripes[k])
  {
    hide Plan, Distinct, TableInv, ThreadInv, Holds, Owns;
  }

  lemma StuckIsBlocked(c: Config, s: State, t: nat)
    requires Inv(c, s) && Stuck(c, s) && t < |s.pcs| && s.pcs[t] != Finished
    ensures Blocked(c, s, t)
  {
    hide Plan, Distinct, TableInv, ThreadInv, Holds, Owns, StripeInv;
    assert !Enabled(c, s, t);
    if s.pcs[t].LockStart? || s.pcs[t].FreeStart? {
      StripeHolderMoves(c, s, c.stripeOf(Target(c, t, s.pcs[t]).value));
    }
  }

  ghost function Wanted(c: Config, s: State, t: nat): Id
    requires Inv(c, s) && t < |s.pcs| && Blocked(c, s, t)
  {
    assert ThreadInv(c, s, t);
    Plan(c, t)[s.pcs[t].at]
  }

  lemma Ascending(c: Config, t: nat, i: nat, j: nat)
    requires t < |c.given| && Distinct(c.given[t]) && i < j < |c.given[t]|
    ensures Plan(c, t)[i] < Plan(c, t)[j]
  {
    SortedPermutes(c.given[t], Greater);
    DistinctPermuted(c.given[t], Plan(c, t));
    SortedInOrder(c.given[t], Greater);
  }

  /** Whoever holds the document a thread is blocked on is blocked on a higher one. */
  lemma HolderWantsHigher(c: Config, s: State, t: nat) returns (u: nat)
    requires Inv(c, s) && Stuck(c, s) && t < |s.pcs| && Blocked(c, s, t)
    requires forall u :: 0 <= u < |c.given| ==> Distinct(c.given[u])
    ensures u < |s.pcs| && Blocked(c, s, u) && Wanted(c, s, u) > Wanted(c, s, t)
  {
    hide Sorted, Distinct, Enabled, StripeInv;
    assert ThreadInv(c, s, t);
    var x := Wanted(c, s, t);
    u := s.held[s.pcs[t].ref];
    assert Owns(s, u, x);
    assert x in Holds(c, u, s.pcs[u]);
    assert s.pcs[u] != Finished;
    StuckIsBlocked(c, s, u);
    assert ThreadInv(c, s, u);
    var p := Plan(c, u);
    var i :| 0 <= i < s.pcs[u].at && p[i] == x;
    Ascending(c, u, i, s.pcs[u].at);
  }

  lemma {:induction false} Highest(c: Config, s: State, k: nat) returns (m: nat)
    requires Inv(c, s) && k <= |s.pcs| && exists t :: 0 <= t < k && Blocked(c, s, t)
    ensures m < k && Blocked(c, s, m)
    ensures forall t :: 0 <= t < k && Blocked(c, s, t) ==> Wanted(c, s, t) <= Wanted(c, s, m)
  {
    hide Inv, Plan;
    SizeOf(c, s);
    if exists t :: 0 <= t < k - 1 && Blocked(c, s, t) {
      m := Highest(c, s, k - 1);
      if Blocked(c, s, k - 1) && Wanted(c, s, k - 1) > Wanted(c, s, m) {
        m := k - 1;
      }
    } else {
      m := k - 1;
    }
  }

  /** With duplicate-free lists nobody can be stuck before everybody has finished. */
  lemma DeadlockFree(c: Config, s: State)
    requires Inv(c, s) && Stuck(c, s) && forall t :: 0 <= t < |c.given| ==> Distinct(c.given[t])
    ensures AllFinished(s)
  {
    hide Inv, Distinct, Enabled, Wanted;
    SizeOf(c, s);
    if !AllFinished(s) {
      var t :| 0 <= t < |s.pcs| && s.pcs[t] != Finished;
      StuckIsBlocked(c, s, t);
      var m := Highest(c, s, |s.pcs|);
      var u := HolderWantsHigher(c, s, m);
      assert false;
    }
  }

  // ---- every schedule ends

  /** Steps a thread with `n` documents still has to take. */
  function Work(n: nat, pc: Pc): int {
    match pc
    case LockStart(i) => 4 * (n - i) + 4 * n + 2
    case LockLookup(i) => 4 * (n - i) + 4 * n + 1
    case LockLeave(i, _) => 4 * (n - i) + 4 * n
    case LockWait(i, _) => 4 * (n - i) + 4 * n - 1
    case FreeStart(i) => 4 * (n - i) + 1
    case FreeLookup(i) => 4 * (n - i)
    case FreeLeave(i, _) => 4 * (n - i) - 1
    case FreeUnlock(i, _) => 4 * (n - i) - 2
    case Finished => 0
  }

  function TotalWork(given: seq<seq<Id>>, pcs: seq<Pc>): int
    requires |given| == |pcs|
  {
    if pcs == [] then 0 else Work(|given[0]|, pcs[0]) + TotalWork(given[1..], pcs[1..])
  }

  lemma {:induction false} WorkUpdate(given: seq<seq<Id>>, pcs: seq<Pc>, t: nat, pc: Pc)
    requires |given| == |pcs| && t < |pcs|
    ensures TotalWork(given, pcs[t := pc]) == TotalWork(given, pcs) - Work(|given[t]|, pcs[t]) + Work(|given[t]|, pc)
  {
    if t == 0 {
      assert pcs[t := pc][1..] == pcs[1..];
    } else {
      assert pcs[t := pc][1..] == pcs[1..][t - 1 := pc];
      WorkUpdate(given[1..], pcs[1..], t - 1, pc);
    }
  }

  lemma {:induction false} WorkPositive(c: Config, s: State, k: nat)
    requires Inv(c, s) && k <= |s.pcs|
    ensures |c.given[k..]| == |s.pcs[k..]| && TotalWork(c.given[k..], s.pcs[k..]) >= 0
    decreases |s.pcs| - k
  {
    hide Plan, Distinct, TableInv, StripeInv, Holds, Owns;
    if k < |s.pcs| {
      WorkPositive(c, s, k + 1);
      assert ThreadInv(c, s, k);
      assert c.given[k..][1..] == c.given[k + 1..] && s.pcs[k..][1..] == s.pcs[k + 1..];
    }
  }

  lemma StepShrinksWork(c: Config, s: State, t: nat)
    requires Step(c, s, t)
    ensures var r := Next(c, s, t); |r.pcs| == |c.given| && TotalWork(c.given, r.pcs) < TotalWork(c.given, s.pcs)
  {
    hide Plan, Distinct, TableInv, StripeInv, Holds, Owns, TotalWork;
    assert ThreadInv(c, s, t);
    var r := Next(c, s, t);
    assert r.pcs == s.pcs[t := r.pcs[t]];
    WorkUpdate(c.given, s.pcs, t, r.pcs[t]);
  }

  /** No schedule is longer than the work there was at the start. */
  lemma {:induction false} RunIsShort(c: Config, run: seq<State>, i: nat)
    requires IsRun(c, run) && i < |run|
    ensures Inv(c, run[i]) && |run[i].pcs| == |c.given|
    ensures 0 <= TotalWork(c.given, run[i].pcs) <= TotalWork(c.given, Start(c).pcs) - i
  {
    hide Inv, Next, Enabled, TotalWork;
    RunInv(c, run, i);
    SizeOf(c, run[i]);
    WorkPositive(c, run[i], 0);
    assert c.given[0..] == c.given && run[i].pcs[0..] == run[i].pcs;
    if i > 0 {
      var h := i - 1;
      assert i == h + 1 && Moves(c, run[h], run[i]);
      RunIsShort(c, run, h);
      var t :| 0 <= t < |c.given| && Enabled(c, run[h], t) && run[i] == Next(c, run[h], t);
      StepShrinksWork(c, run[h], t);
    }
  }

  /** Any schedule can be carried on until nobody can move. */
  lemma {:induction false} Complete(c: Config, run: seq<State>) returns (full: seq<State>)
    requires IsRun(c, run)
    ensures IsRun(c, full) && run <= full && |full[|full| - 1].pcs| == |c.given| && Stuck(c, full[|full| - 1])
    decreases TotalWork(c.given, Start(c).pcs) - |run|
  {
    hide Inv, Next, Enabled, TotalWork;
    var n := |run| - 1;
    RunIsShort(c, run, n);
    if Stuck(c, run[n]) {
      return run;
    }
    var t :| 0 <= t < |run[n].pcs| && Enabled(c, run[n], t);
    var longer := run + [Next(c, run[n], t)];
    ExtendRun(c, run, t);
    RunIsShort(c, longer, n + 1);
    full := Complete(c, longer);
  }

  lemma ExtendRun(c: Config, run: seq<State>, t: nat)
    requires IsRun(c, run) && |run[|run| - 1].pcs| == |c.given| && t < |c.given| && Enabled(c, run[|run| - 1], t)
    ensures IsRun(c, run + [Next(c, run[|run| - 1], t)])
  {
    hide Next, Enabled;
    var longer := run + [Next(c, run[|run| - 1], t)];
    assert Moves(c, run[|run| - 1], longer[|run|]);
  }

  ghost predicate AlwaysFinishes(c: Config) {
    forall run: seq<State> :: IsRun(c, run) && |run[|run| - 1].pcs| == |c.given| && Stuck(c, run[|run| - 1]) ==> AllFinished(run[|run| - 1])
  }

  /** Every schedule that cannot go on has finished all threads exactly if no list names a
      document twice. */
  lemma FinishesIffDuplicateFree(c: Config)
    ensures AlwaysFinishes(c) <==> forall t :: 0 <= t < |c.given| ==> Distinct(c.given[t])
  {
    hide Next, Enabled, Distinct, Plan, Start;
    if forall t :: 0 <= t < |c.given| ==> Distinct(c.given[t]) {
      forall run: seq<State> | IsRun(c, run) && |run[|run| - 1].pcs| == |c.given| && Stuck(c, run[|run| - 1]) ensures AllFinished(run[|run| - 1]) {
        RunInv(c, run, |run| - 1);
        DeadlockFree(c, run[|run| - 1]);
      }
    } else {
      var t :| 0 <= t < |c.given| && !Distinct(c.given[t]);
      var run := Complete(c, [Start(c)]);
      RunInv(c, run, |run| - 1);
      assert ThreadInv(c, run[|run| - 1], t);
    }
  }

  /** When all threads have finished, no lock and no stripe mutex is held any more. */
  lemma AllReleased(c: Config, s: State)
    requires Inv(c, s) && AllFinished(s)
    ensures s.held == map[] && s.stripes == map[]
  {
    hide Plan, Distinct, ThreadInv, Holds, Owns;
    if r :| r in s.held {
      var x :| x in s.table && s.table[x] == r;
      HoldsAll(c, s, s.held[r]);
      OwnsIt(s, x);
      assert false;
    }
    if k :| k in s.stripes {
      assert false;
    }
  }

  lemma OwnsIt(s: State, x: Id)
    requires x in s.table && s.table[x] in s.held
    ensures Owns(s, s.held[s.table[x]], x)
  {
  }

  /** A single thread that names a document twice never finishes. */
  lemma WaitsForItself(stripeOf: Id -> nat)
    ensures !AlwaysFinishes(Config([[7, 7]], stripeOf))
  {
    hide AlwaysFinishes;
    var c := Config([[7, 7]], stripeOf);
    FinishesIffDuplicateFree(c);
    assert c.given[0][0] == c.given[0][1];
    assert !Distinct(c.given[0]);
  }
}
