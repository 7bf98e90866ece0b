/** Whole runs of Insert, Delete and Search from NewBTree: every reply is the one
    a finite map would give, and every reachable tree is valid. */
module BTreeRuns {
  import opened Options
  import opened OrderedEntries
  import opened BTreeModel
  import opened BTreeOrder
  import opened BTreeInsert

  datatype State = State(root: Tree, order: nat, size: nat, height: nat)

  datatype Op = Insert(key: Key, val: Value) | Remove(key: Key) | Lookup(key: Key)

  datatype Reply = Done | DuplicateKey | KeyNotFound | Found(val: Value) | Missing

  /** The invariant of every reachable tree. */
  ghost predicate Good(st: State) {
    && st.order >= 3
    && Valid(st.root, None, None, st.height, st.order)
    && Shaped(st.root)
    && st.size == |Entries(st.root)|
  }

  ghost function Contents(st: State): map<Key, Value>
    requires Shaped(st.root)
  {
    ToMap(Entries(st.root))
  }

  function NewTree(order: int): (st: State)
    ensures Good(st) && Contents(st) == map[] && st.order == if order < 3 then 3 else order
  {
    State(Leaf([], []), if order < 3 then 3 else order, 0, 1)
  }

  /** The tree after an insertion: a split root gets a new root above it. */
  function InsertRoot(st: State, k: Key, v: Value): State
    requires Shaped(st.root)
  {
    match InsertInto(st.root, k, v, st.order)
    case Whole(t) => st.(root := t, size := st.size + 1)
    case Split(left, sep, right) =>
      st.(root := Node([sep], [left, right]), size := st.size + 1, height := st.height + 1)
  }

  function Apply(st: State, op: Op): (State, Reply)
    requires Shaped(st.root)
  {
    match op
    case Insert(k, v) =>
      if Search(st.root, k).Some? then (st, DuplicateKey) else (InsertRoot(st, k, v), Done)
    case Remove(k) =>
      if Search(st.root, k).None? then (st, KeyNotFound)
      else (st.(root := Delete(st.root, k), size := if st.size == 0 then 0 else st.size - 1), Done)
    case Lookup(k) =>
      (match Search(st.root, k)
       case None => (st, Missing)
       case Some(v) => (st, Found(v)))
  }

  /** What the same call does to a finite map. */
  function MapApply(m: map<Key, Value>, op: Op): (map<Key, Value>, Reply) {
    match op
    case Insert(k, v) => if k in m then (m, DuplicateKey) else (m[k := v], Done)
    case Remove(k) => if k in m then (m - {k}, Done) else (m, KeyNotFound)
    case Lookup(k) => if k in m then (m, Found(m[k])) else (m, Missing)
  }

  lemma InsertRootGood(st: State, k: Key, v: Value)
    requires Good(st) && !HasKey(Entries(st.root), k)
    ensures Good(InsertRoot(st, k, v))
    ensures Entries(InsertRoot(st, k, v).root) == Put(Entries(st.root), k, v)
  {
    InsertCorrect(st.root, k, v, None, None, st.height, st.order);
    assert |Put(Entries(st.root), k, v)| == st.size + 1 by {
      EntriesSorted(st.root, None, None, st.height, st.order);
      PutSorted(Entries(st.root), k, v);
    }
    match InsertInto(st.root, k, v, st.order)
    case Whole(_) =>
    case Split(left, sep, right) => NewRoot(left, sep, right, st.height, st.order);
  }

  /** Two halves under a fresh root form a tree one level higher. */
  lemma NewRoot(left: Tree, sep: Key, right: Tree, h: nat, order: nat)
    requires order >= 3 && h >= 1 && Shaped(left) && Shaped(right)
    requires Valid(left, None, Some(sep), h, order) && Valid(right, Some(sep), None, h, order)
    ensures var t := Node([sep], [left, right]);
      Valid(t, None, None, h + 1, order) && Shaped(t) && Entries(t) == Entries(left) + Entries(right)
  {
    assert [left, right][1..] == [right] && [right][1..] == [];
    assert Forest([right]) == Entries(right) + Forest([]);
  }

  lemma {:induction false} LookupInMap(s: seq<Entry>, k: Key, v: Value)
    requires Sorted(s) && Entry(k, v) in s
    ensures k in ToMap(s) && ToMap(s)[k] == v
  {
    if s[0] != Entry(k, v) {
      assert Entry(k, v) in s[1..];
      LookupInMap(s[1..], k, v);
    }
  }

  lemma SearchIsMapLookup(st: State, k: Key)
    requires Good(st)
    ensures Search(st.root, k) == if k in Contents(st) then Some(Contents(st)[k]) else None
  {
    SearchCorrect(st.root, k, None, None, st.height, st.order);
    EntriesSorted(st.root, None, None, st.height, st.order);
    ToMapKeys(Entries(st.root));
    var found := Search(st.root, k);
    if found.Some? { LookupInMap(Entries(st.root), k, found.value); }
  }

  /** One call: the invariant survives and contents and reply are the map's. */
  lemma ApplyRefinesMap(st: State, op: Op)
    requires Good(st)
    ensures Good(Apply(st, op).0) && Apply(st, op).0.order == st.order
    ensures (Contents(Apply(st, op).0), Apply(st, op).1) == MapApply(Contents(st), op)
  {
    SearchIsMapLookup(st, op.key);
    match op
    case Lookup(_) =>
    case Insert(k, v) =>
      if Search(st.root, k).None? {
        ToMapKeys(Entries(st.root));
        InsertRootGood(st, k, v);
        ToMapPut(Entries(st.root), k, v);
      }
    case Remove(k) =>
      if Search(st.root, k).Some? {
        ToMapKeys(Entries(st.root));
        EntriesSorted(st.root, None, None, st.height, st.order);
        DeleteCorrect(st.root, k, None, None, st.height, st.order);
        ToMapWithout(Entries(st.root), k);
        WithoutSorted(Entries(st.root), k);
      }
  }

  // ---- runs

  ghost function Run(st: State, ops: seq<Op>): (State, seq<Reply>)
    requires Good(st)
    decreases |ops|
  {
    if ops == [] then (st, [])
    else
      ApplyRefinesMap(st, ops[0]);
      var (st', reply) := Apply(st, ops[0]);
      var (end, replies) := Run(st', ops[1..]);
      (end, [reply] + replies)
  }

  ghost function MapRun(m: map<Key, Value>, ops: seq<Op>): (map<Key, Value>, seq<Reply>)
    decreases |ops|
  {
    if ops == [] then (m, [])
    else
      var (m', reply) := MapApply(m, ops[0]);
      var (end, replies) := MapRun(m', ops[1..]);
      (end, [reply] + replies)
  }

  /** Every run from any reachable tree behaves exactly as the map it holds,
      replies included, and ends in a valid tree whose size is the map's. */
  lemma {:induction false} RunRefinesMap(st: State, ops: seq<Op>)
    requires Good(st)
    ensures Good(Run(st, ops).0)
    ensures Contents(Run(st, ops).0) == MapRun(Contents(st), ops).0
    ensures Run(st, ops).1 == MapRun(Contents(st), ops).1
    ensures Run(st, ops).0.size == |MapRun(Contents(st), ops).0|
    decreases |ops|
  {
    if ops == [] {
      EntriesSorted(st.root, None, None, st.height, st.order);
      ToMapSize(Entries(st.root));
    } else {
      ApplyRefinesMap(st, ops[0]);
      RunRefinesMap(Apply(st, ops[0]).0, ops[1..]);
    }
  }
}
