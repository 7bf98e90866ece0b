/** The lock-free stack of pkg/concurrent as a step machine: any number of threads,
    each between the atomic loads, stores and compare-and-swaps of its operation. */
module TreiberStack {
  import opened Options

  type Value(==, !new)
  type Ref = nat
  type Tid = nat

  datatype Cell = Cell(val: Value, next: Option<Ref>)

  /** Where a thread stands inside its current operation. */
  datatype Local =
    | Idle
    | PushTop(node: Ref)                          // about to load head
    | PushLoaded(node: Ref, seen: Option<Ref>)     // about to store node.next
    | PushLinked(node: Ref, seen: Option<Ref>)     // about to compare-and-swap
    | PopTop                                      // about to load head
    | PopLoaded(top: Ref)                         // about to load top.next
    | PopReady(top: Ref, next: Option<Ref>)       // about to compare-and-swap
    | PeekTop
    | PeekLoaded(top: Ref)                        // about to read top.value
    | SizeTop
    | SizeWalk(cur: Option<Ref>, count: nat)
    | ClearTop

  /** `rank` is auxiliary: it numbers the nodes in the order they were published. */
  datatype State = State(heap: map<Ref, Cell>, head: Option<Ref>, threads: map<Tid, Local>, rank: map<Ref, nat>, clock: nat)

  datatype Op = DoPush(val: Value) | DoPop | DoPeek | DoSize | DoClear

  datatype Event =
    | Call(op: Op)               // an operation starts
    | Internal                   // a private or failed step
    | Retry                      // a compare-and-swap failed
    | Push(val: Value)
    | Pop(val: Value)
    | PopEmpty
    | Clear
    | Look                       // Peek or Size loads the head
    | PeekReturns(val: Value)
    | PeekEmpty
    | SizeReturns(n: nat)

  ghost predicate Init(s: State) {
    s.heap == map[] && s.head == None && s.rank == map[] && s.clock == 0
    && forall t :: t in s.threads ==> s.threads[t] == Idle
  }

  // ---- steps of one thread

  ghost predicate Becomes(s: State, t: Tid, l: Local, s': State) {
    s' == s.(threads := s.threads[t := l])
  }

  ghost predicate Allocates(s: State, t: Tid, n: Ref, v: Value, s': State) {
    s' == s.(heap := s.heap[n := Cell(v, None)], threads := s.threads[t := PushTop(n)])
  }

  ghost predicate CallStep(s: State, t: Tid, e: Event, s': State)
    requires t in s.threads
  {
    && s.threads[t] == Idle && e.Call?
    && match e.op
       case DoPush(v) => exists n :: n !in s.heap && Allocates(s, t, n, v, s')
       case DoPop => Becomes(s, t, PopTop, s')
       case DoPeek => Becomes(s, t, PeekTop, s')
       case DoSize => Becomes(s, t, SizeTop, s')
       case DoClear => Becomes(s, t, ClearTop, s')
  }

  ghost predicate PushStep(s: State, t: Tid, e: Event, s': State)
    requires t in s.threads
  {
    match s.threads[t]
    case PushTop(n) => e == Internal && Becomes(s, t, PushLoaded(n, s.head), s')
    case PushLoaded(n, seen) =>
      && e == Internal && n in s.heap
      && s' == s.(heap := s.heap[n := Cell(s.heap[n].val, seen)], threads := s.threads[t := PushLinked(n, seen)])
    case PushLinked(n, seen) =>
      if s.head == seen then
        && n in s.heap && e == Push(s.heap[n].val)
        && s' == s.(head := Some(n), threads := s.threads[t := Idle], rank := s.rank[n := s.clock], clock := s.clock + 1)
      else
        e == Retry && Becomes(s, t, PushTop(n), s')
    case _ => false
  }

  ghost predicate PopStep(s: State, t: Tid, e: Event, s': State)
    requires t in s.threads
  {
    match s.threads[t]
    case PopTop =>
      if s.head.None? then e == PopEmpty && Becomes(s, t, Idle, s')
      else e == Internal && Becomes(s, t, PopLoaded(s.head.value), s')
    case PopLoaded(top) =>
      e == Internal && top in s.heap && Becomes(s, t, PopReady(top, s.heap[top].next), s')
    case PopReady(top, next) =>
      if s.head == Some(top) then
        top in s.heap && e == Pop(s.heap[top].val) && s' == s.(head := next, threads := s.threads[t := Idle])
      else
        e == Retry && Becomes(s, t, PopTop, s')
    case ClearTop => e == Clear && s' == s.(head := None, threads := s.threads[t := Idle])
    case _ => false
  }

  ghost predicate ReadStep(s: State, t: Tid, e: Event, s': State)
    requires t in s.threads
  {
    match s.threads[t]
    case PeekTop =>
      if s.head.None? then e == PeekEmpty && Becomes(s, t, Idle, s')
      else e == Look && Becomes(s, t, PeekLoaded(s.head.value), s')
    case PeekLoaded(top) => top in s.heap && e == PeekReturns(s.heap[top].val) && Becomes(s, t, Idle, s')
    case SizeTop => e == Look && Becomes(s, t, SizeWalk(s.head, 0), s')
    case SizeWalk(cur, count) =>
      if cur.None? then e == SizeReturns(count) && Becomes(s, t, Idle, s')
      else e == Internal && cur.value in s.heap && Becomes(s, t, SizeWalk(s.heap[cur.value].next, count + 1), s')
    case _ => false
  }

  ghost predicate Step(s: State, t: Tid, e: Event, s': State) {
    && t in s.threads
    && (CallStep(s, t, e, s') || PushStep(s, t, e, s') || PopStep(s, t, e, s') || ReadStep(s, t, e, s'))
  }

  // ---- the invariant

  ghost predicate Published(s: State, r: Option<Ref>) { r.Some? ==> r.value in s.rank }

  ghost function Owned(l: Local): Option<Ref> {
    match l
    case PushTop(n) => Some(n)
    case PushLoaded(n, _) => Some(n)
    case PushLinked(n, _) => Some(n)
    case _ => None
  }

  /** What a thread may rely on about the refs it holds. */
  ghost predicate LocalOk(s: State, l: Local) {
    && (Owned(l).Some? ==> Owned(l).value in s.heap && Owned(l).value !in s.rank)
    && match l
       case PushLoaded(n, seen) => Published(s, seen)
       case PushLinked(n, seen) => Published(s, seen) && s.heap[n].next == seen
       case PopLoaded(top) => top in s.rank
       case PopReady(top, next) => top in s.rank && top in s.heap && s.heap[top].next == next
       case PeekLoaded(top) => top in s.rank
       case SizeWalk(cur, _) => Published(s, cur)
       case _ => true
  }

  /** Published nodes lead only to earlier published nodes, so every chain ends. */
  ghost predicate Linked(s: State) {
    && (forall r :: r in s.rank ==> r in s.heap && s.rank[r] < s.clock)
    && (forall r :: r in s.rank && s.heap[r].next.Some? ==>
          s.heap[r].next.value in s.rank && s.rank[s.heap[r].next.value] < s.rank[r])
    && Published(s, s.head)
  }

  ghost predicate Inv(s: State) {
    && Linked(s)
    && (forall t :: t in s.threads ==> LocalOk(s, s.threads[t]))
    && (forall t, u :: t in s.threads && u in s.threads && t != u && Owned(s.threads[t]).Some? ==>
          Owned(s.threads[t]) != Owned(s.threads[u]))
  }

  /** Nodes once published keep their value and their link. */
  ghost predicate Frozen(s: State, s': State) {
    forall r :: r in s.rank && r in s.heap ==> r in s'.rank && r in s'.heap && s'.heap[r] == s.heap[r] && s'.rank[r] == s.rank[r]
  }

  lemma InitInv(s: State)
    requires Init(s)
    ensures Inv(s)
  {
  }

  /** A step that only moves a thread on, and perhaps the head. */
  lemma MoveInv(s: State, t: Tid, l: Local, head: Option<Ref>, s': State)
    requires Inv(s) && t in s.threads && LocalOk(s, l) && Published(s, head)
    requires Owned(l) == None || Owned(l) == Owned(s.threads[t])
    requires s' == s.(head := head, threads := s.threads[t := l])
    ensures Inv(s') && Frozen(s, s')
  {
    forall u | u in s'.threads ensures LocalOk(s', s'.threads[u]) {
      assert u != t ==> s'.threads[u] == s.threads[u];
    }
  }

  lemma AllocInv(s: State, t: Tid, n: Ref, v: Value, s': State)
    requires Inv(s) && t in s.threads && n !in s.heap
    requires Allocates(s, t, n, v, s')
    ensures Inv(s') && Frozen(s, s')
  {
    forall u | u in s'.threads ensures LocalOk(s', s'.threads[u]) {
      assert u != t ==> s'.threads[u] == s.threads[u] && LocalOk(s, s.threads[u]);
    }
  }

  lemma LinkInv(s: State, t: Tid, n: Ref, seen: Option<Ref>, s': State)
    requires Inv(s) && t in s.threads && s.threads[t] == PushLoaded(n, seen) && n in s.heap
    requires s' == s.(heap := s.heap[n := Cell(s.heap[n].val, seen)], threads := s.threads[t := PushLinked(n, seen)])
    ensures Inv(s') && Frozen(s, s')
  {
    assert LocalOk(s, s.threads[t]);
    forall u | u in s'.threads ensures LocalOk(s', s'.threads[u]) {
      assert u != t ==> s'.threads[u] == s.threads[u] && LocalOk(s, s.threads[u]);
      assert u != t ==> Owned(s.threads[t]) != Owned(s.threads[u]);
    }
  }

  lemma PublishInv(s: State, t: Tid, n: Ref, s': State)
    requires Inv(s) && t in s.threads && s.threads[t] == PushLinked(n, s.head) && n in s.heap
    requires s' == s.(head := Some(n), threads := s.threads[t := Idle], rank := s.rank[n := s.clock], clock := s.clock + 1)
    ensures Inv(s') && Frozen(s, s')
  {
    assert LocalOk(s, s.threads[t]);
    assert Linked(s');
    forall u | u in s'.threads ensures LocalOk(s', s'.threads[u]) {
      assert u != t ==> s'.threads[u] == s.threads[u] && LocalOk(s, s.threads[u]);
      assert u != t ==> Owned(s.threads[t]) != Owned(s.threads[u]);
    }
  }

  lemma CallStepInv(s: State, t: Tid, e: Event, s': State)
    requires Inv(s) && t in s.threads && CallStep(s, t, e, s')
    ensures Inv(s') && Frozen(s, s')
  {
    if e.op.DoPush? {
      var n :| n !in s.heap && Allocates(s, t, n, e.op.val, s');
      AllocInv(s, t, n, e.op.val, s');
    } else {
      MoveInv(s, t, s'.threads[t], s.head, s');
    }
  }

  lemma PushStepInv(s: State, t: Tid, e: Event, s': State)
    requires Inv(s) && t in s.threads && PushStep(s, t, e, s')
    ensures Inv(s') && Frozen(s, s')
  {
    assert LocalOk(s, s.threads[t]);
    match s.threads[t]
    case PushTop(n) => MoveInv(s, t, PushLoaded(n, s.head), s.head, s');
    case PushLoaded(n, seen) => LinkInv(s, t, n, seen, s');
    case PushLinked(n, seen) =>
      if s.head == seen { PublishInv(s, t, n, s'); } else { MoveInv(s, t, PushTop(n), s.head, s'); }
  }

  /** Every step of every thread keeps the invariant and freezes published nodes. */
  lemma StepInv(s: State, t: Tid, e: Event, s': State)
    requires Inv(s) && Step(s, t, e, s')
    ensures Inv(s') && Frozen(s, s')
  {
    hide CallStep, PushStep, PopStep, ReadStep, Inv, Frozen;
    if CallStep(s, t, e, s') {
      CallStepInv(s, t, e, s');
    } else if PushStep(s, t, e, s') {
      PushStepInv(s, t, e, s');
    } else {
      OtherStepInv(s, t, e, s');
    }
  }

  lemma OtherStepInv(s: State, t: Tid, e: Event, s': State)
    requires Inv(s) && t in s.threads && (PopStep(s, t, e, s') || ReadStep(s, t, e, s'))
    ensures Inv(s') && Frozen(s, s')
  {
    assert LocalOk(s, s.threads[t]);
    MoveInv(s, t, s'.threads[t], s'.head, s');
  }

  // ---- the abstract stack

  /** The values from a published node down to the bottom. */
  ghost function ChainFrom(s: State, r: Option<Ref>): seq<Value>
    requires Linked(s) && Published(s, r)
    decreases if r.None? then 0 else 1 + s.rank[r.value]
  {
    if r.None? then [] else [s.heap[r.value].val] + ChainFrom(s, s.heap[r.value].next)
  }

  /** The sequence the stack stands for, top first. */
  ghost function Contents(s: State): seq<Value>
    requires Linked(s)
  {
    ChainFrom(s, s.head)
  }

  /** The atomic effect of an event on the abstract sequence. */
  ghost predicate Effect(q: seq<Value>, e: Event, q': seq<Value>) {
    match e
    case Push(v) => q' == [v] + q
    case Pop(v) => q == [v] + q'
    case PopEmpty => q == [] && q' == []
    case PeekEmpty => q == [] && q' == []
    case Clear => q' == []
    case _ => q' == q
  }

  /** Frozen links keep every chain that starts at a published node. */
  lemma {:induction false} ChainFrozen(s: State, s': State, r: Option<Ref>)
    requires Linked(s) && Linked(s') && Frozen(s, s') && Published(s, r)
    ensures Published(s', r) && ChainFrom(s', r) == ChainFrom(s, r)
    decreases if r.None? then 0 else 1 + s.rank[r.value]
  {
    if r.Some? {
      ChainFrozen(s, s', s.heap[r.value].next);
    }
  }

  /** Only these events move the head. */
  ghost predicate MovesHead(e: Event) { e.Push? || e.Pop? || e.Clear? }

  lemma PushEffect(s: State, t: Tid, e: Event, s': State)
    requires Inv(s) && t in s.threads && PushStep(s, t, e, s') && e.Push?
    ensures Inv(s') && Contents(s') == [e.val] + Contents(s)
  {
    PushStepInv(s, t, e, s');
    assert LocalOk(s, s.threads[t]);
    ChainFrozen(s, s', s.head);
  }

  lemma PopEffect(s: State, t: Tid, e: Event, s': State)
    requires Inv(s) && Inv(s') && Frozen(s, s') && t in s.threads && PopStep(s, t, e, s') && e.Pop?
    ensures Contents(s) == [e.val] + Contents(s')
  {
    assert LocalOk(s, s.threads[t]);
    ChainFrozen(s, s', s'.head);
  }

  lemma StepHead(s: State, t: Tid, e: Event, s': State)
    requires Step(s, t, e, s')
    ensures e.Push? ==> PushStep(s, t, e, s')
    ensures e.Pop? ==> PopStep(s, t, e, s')
    ensures e.Clear? ==> s'.head == None
    ensures !MovesHead(e) ==> s'.head == s.head
    ensures e.PopEmpty? || e.PeekEmpty? ==> s.head == None
  {
  }

  /** Each operation takes effect atomically at one step on the abstract sequence. */
  lemma StepEffect(s: State, t: Tid, e: Event, s': State)
    requires Inv(s) && Step(s, t, e, s')
    ensures Inv(s') && Effect(Contents(s), e, Contents(s'))
  {
    hide CallStep, PushStep, PopStep, ReadStep, LocalOk;
    StepInv(s, t, e, s');
    StepHead(s, t, e, s');
    if e.Push? {
      PushEffect(s, t, e, s');
    } else if e.Pop? {
      PopEffect(s, t, e, s');
    } else if !e.Clear? {
      ChainFrozen(s, s', s.head);
    }
  }

  // ---- whole runs

  datatype Label = Label(tid: Tid, event: Event)

  ghost predicate IsRun(run: seq<State>, labels: seq<Label>) {
    && |run| == |labels| + 1 && Init(run[0])
    && forall k :: 0 <= k < |labels| ==> Step(run[k], labels[k].tid, labels[k].event, run[k + 1])
  }

  /** The invariant holds throughout every run. */
  lemma {:induction false} RunInv(run: seq<State>, labels: seq<Label>, k: nat)
    requires IsRun(run, labels) && k < |run|
    ensures Inv(run[k])
  {
    if k == 0 {
      InitInv(run[0]);
    } else {
      RunInv(run, labels, k - 1);
      StepInv(run[k - 1], labels[k - 1].tid, labels[k - 1].event, run[k]);
    }
  }

  /** From any moment of a run on, nodes already published never change again. */
  lemma {:induction false} RunFrozen(run: seq<State>, labels: seq<Label>, i: nat, j: nat)
    requires IsRun(run, labels) && i <= j < |run|
    ensures Frozen(run[i], run[j])
  {
    hide Step, Inv, Init;
    if i < j {
      RunFrozen(run, labels, i, j - 1);
      RunInv(run, labels, j - 1);
      StepInv(run[j - 1], labels[j - 1].tid, labels[j - 1].event, run[j]);
    }
  }

  // ---- conservation of values

  ghost function PushedBy(e: Event): multiset<Value> { if e.Push? then multiset{e.val} else multiset{} }
  ghost function PoppedBy(e: Event): multiset<Value> { if e.Pop? then multiset{e.val} else multiset{} }
  ghost function ClearedBy(e: Event, q: seq<Value>): multiset<Value> { if e.Clear? then multiset(q) else multiset{} }

  ghost function Pushed(labels: seq<Label>): multiset<Value> {
    if labels == [] then multiset{} else Pushed(labels[..|labels| - 1]) + PushedBy(labels[|labels| - 1].event)
  }

  ghost function Popped(labels: seq<Label>): multiset<Value> {
    if labels == [] then multiset{} else Popped(labels[..|labels| - 1]) + PoppedBy(labels[|labels| - 1].event)
  }

  /** What the Clear steps of a run threw away. */
  ghost function Cleared(run: seq<State>, labels: seq<Label>): multiset<Value>
    requires IsRun(run, labels)
    decreases |labels|
  {
    if labels == [] then multiset{}
    else
      var n := |labels| - 1;
      RunInv(run, labels, n);
      Cleared(run[..n + 1], labels[..n]) + ClearedBy(labels[n].event, Contents(run[n]))
  }

  lemma EffectConserves(q: seq<Value>, e: Event, q': seq<Value>)
    requires Effect(q, e, q')
    ensures multiset(q) + PushedBy(e) == multiset(q') + PoppedBy(e) + ClearedBy(e, q)
  {
  }

  lemma Balance(a: multiset<Value>, b: multiset<Value>, c: multiset<Value>, m: multiset<Value>, m': multiset<Value>,
                p: multiset<Value>, o: multiset<Value>, l: multiset<Value>)
    requires a == b + c + m && m + p == m' + o + l
    ensures a + p == (b + o) + (c + l) + m'
  {
    forall x: Value ensures (a + p)[x] == ((b + o) + (c + l) + m')[x] {
      assert (m + p)[x] == (m' + o + l)[x];
    }
  }

  /** Pushed values are exactly those popped, cleared or still present. */
  lemma {:induction false} Conservation(run: seq<State>, labels: seq<Label>)
    requires IsRun(run, labels)
    ensures Inv(run[|labels|])
    ensures Pushed(labels) == Popped(labels) + Cleared(run, labels) + multiset(Contents(run[|labels|]))
    decreases |labels|
  {
    hide Step, LocalOk, Effect, PushedBy, PoppedBy, ClearedBy;
    RunInv(run, labels, |labels|);
    if labels != [] {
      var n := |labels| - 1;
      RunInv(run, labels, n);
      Conservation(run[..n + 1], labels[..n]);
      StepEffect(run[n], labels[n].tid, labels[n].event, run[n + 1]);
      EffectConserves(Contents(run[n]), labels[n].event, Contents(run[n + 1]));
      var e, q, q' := labels[n].event, Contents(run[n]), Contents(run[n + 1]);
      Balance(Pushed(labels[..n]), Popped(labels[..n]), Cleared(run[..n + 1], labels[..n]), multiset(q), multiset(q'),
              PushedBy(e), PoppedBy(e), ClearedBy(e, q));
    }
  }

  // ---- answers given later than their load

  lemma OthersKeepLocal(s: State, u: Tid, e: Event, s': State, t: Tid)
    requires Step(s, u, e, s') && t != u && t in s.threads
    ensures t in s'.threads && s'.threads[t] == s.threads[t]
  {
    hide CallStep, PushStep, PopStep, ReadStep;
    if CallStep(s, u, e, s') {
      CallMovesOne(s, u, e, s');
    } else if PushStep(s, u, e, s') {
      PushMovesOne(s, u, e, s');
    } else {
      OtherMovesOne(s, u, e, s');
    }
  }

  lemma CallMovesOne(s: State, u: Tid, e: Event, s': State)
    requires u in s.threads && CallStep(s, u, e, s')
    ensures u in s'.threads && s'.threads == s.threads[u := s'.threads[u]]
  {
  }

  lemma PushMovesOne(s: State, u: Tid, e: Event, s': State)
    requires u in s.threads && PushStep(s, u, e, s')
    ensures u in s'.threads && s'.threads == s.threads[u := s'.threads[u]]
  {
  }

  lemma OtherMovesOne(s: State, u: Tid, e: Event, s': State)
    requires u in s.threads && (PopStep(s, u, e, s') || ReadStep(s, u, e, s'))
    ensures u in s'.threads && s'.threads == s.threads[u := s'.threads[u]]
  {
  }

  /** A Size in progress: what it has counted and what it has yet to walk add up
      to the length of the stack when it loaded the head. */
  ghost predicate Walking(s: State, t: Tid, length: nat) {
    && Inv(s) && t in s.threads && s.threads[t].SizeWalk?
    && s.threads[t].count + |ChainFrom(s, s.threads[t].cur)| == length
  }

  lemma WalkStep(s: State, u: Tid, e: Event, s': State, t: Tid, length: nat)
    requires Walking(s, t, length) && Step(s, u, e, s') && (u == t ==> !e.SizeReturns?)
    ensures Walking(s', t, length)
  {
    var cur := s.threads[t].cur;
    assert LocalOk(s, s.threads[t]);
    StepInv(s, u, e, s');
    ChainFrozen(s, s', cur);
    if u == t {
      ChainFrozen(s, s', s.heap[cur.value].next);
    } else {
      OthersKeepLocal(s, u, e, s', t);
    }
  }

  /** The Size call of thread `t` that loads the head at step `i` is still walking at `k`. */
  ghost predicate InSize(run: seq<State>, labels: seq<Label>, t: Tid, i: nat, k: nat)
    requires IsRun(run, labels)
  {
    && i < k < |run| && labels[i] == Label(t, Look) && t in run[i].threads && run[i].threads[t] == SizeTop
    && forall m :: i < m < k ==> labels[m].tid == t ==> !labels[m].event.SizeReturns?
  }

  lemma {:induction false} StillWalking(run: seq<State>, labels: seq<Label>, t: Tid, i: nat, k: nat)
    requires IsRun(run, labels) && InSize(run, labels, t, i, k)
    ensures Inv(run[i]) && Walking(run[k], t, |Contents(run[i])|)
    decreases k
  {
    RunInv(run, labels, i);
    if k == i + 1 {
      StepInv(run[i], t, Look, run[k]);
      ChainFrozen(run[i], run[k], run[i].head);
    } else {
      StillWalking(run, labels, t, i, k - 1);
      WalkStep(run[k - 1], labels[k - 1].tid, labels[k - 1].event, run[k], t, |Contents(run[i])|);
    }
  }

  /** Size returns the exact length the stack had at the moment it loaded the head. */
  lemma SizeIsExact(run: seq<State>, labels: seq<Label>, t: Tid, i: nat, j: nat, n: nat)
    requires IsRun(run, labels) && j < |labels| && InSize(run, labels, t, i, j)
    requires labels[j] == Label(t, SizeReturns(n))
    ensures Inv(run[i]) && n == |Contents(run[i])|
  {
    StillWalking(run, labels, t, i, j);
    assert Step(run[j], labels[j].tid, labels[j].event, run[j + 1]);
  }

  /** The Peek call of thread `t` that loads the head at step `i` has yet to return at `k`. */
  ghost predicate InPeek(run: seq<State>, labels: seq<Label>, t: Tid, i: nat, k: nat)
    requires IsRun(run, labels)
  {
    && i < k < |run| && labels[i] == Label(t, Look) && t in run[i].threads && run[i].threads[t] == PeekTop
    && forall m :: i < m < k ==> labels[m].tid != t
  }

  lemma {:induction false} StillPeeking(run: seq<State>, labels: seq<Label>, t: Tid, i: nat, k: nat)
    requires IsRun(run, labels) && InPeek(run, labels, t, i, k)
    ensures run[i].head.Some? && t in run[k].threads && run[k].threads[t] == PeekLoaded(run[i].head.value)
    decreases k
  {
    assert Step(run[i], labels[i].tid, labels[i].event, run[i + 1]);
    if k > i + 1 {
      StillPeeking(run, labels, t, i, k - 1);
      OthersKeepLocal(run[k - 1], labels[k - 1].tid, labels[k - 1].event, run[k], t);
    }
  }

  /** Peek returns the value that was on top when it loaded the head. */
  lemma PeekIsExact(run: seq<State>, labels: seq<Label>, t: Tid, i: nat, j: nat, v: Value)
    requires IsRun(run, labels) && j < |labels| && InPeek(run, labels, t, i, j)
    requires labels[j] == Label(t, PeekReturns(v))
    ensures Inv(run[i]) && Contents(run[i]) != [] && Contents(run[i])[0] == v
  {
    StillPeeking(run, labels, t, i, j);
    RunInv(run, labels, i);
    RunFrozen(run, labels, i, j);
    assert Step(run[j], labels[j].tid, labels[j].event, run[j + 1]);
  }

  // ---- lock freedom

  /** The head a thread will compare against, once it has loaded one. */
  ghost function Seen(l: Local): Option<Option<Ref>> {
    match l
    case PushLoaded(_, seen) => Some(seen)
    case PushLinked(_, seen) => Some(seen)
    case PopLoaded(top) => Some(Some(top))
    case PopReady(top, _) => Some(Some(top))
    case _ => None
  }

  /** Thread `t` loads the head at step `i` for a compare-and-swap it has not reached at `k`. */
  ghost predicate InAttempt(run: seq<State>, labels: seq<Label>, t: Tid, i: nat, k: nat)
    requires IsRun(run, labels)
  {
    && i < k < |run| && labels[i] == Label(t, Internal) && t in run[i].threads
    && (run[i].threads[t].PushTop? || run[i].threads[t].PopTop?)
    && forall m :: i < m < k ==> labels[m].tid == t ==> labels[m].event == Internal
  }

  lemma KeepsSeen(s: State, u: Tid, e: Event, s': State, t: Tid)
    requires Step(s, u, e, s') && t in s.threads && Seen(s.threads[t]).Some? && (u == t ==> e == Internal)
    ensures t in s'.threads && Seen(s'.threads[t]) == Seen(s.threads[t])
  {
    if u != t {
      OthersKeepLocal(s, u, e, s', t);
    }
  }

  lemma {:induction false} AttemptKeepsSeen(run: seq<State>, labels: seq<Label>, t: Tid, i: nat, k: nat)
    requires IsRun(run, labels) && InAttempt(run, labels, t, i, k)
    requires forall m :: i < m < k ==> !MovesHead(labels[m].event)
    ensures t in run[k].threads && Seen(run[k].threads[t]) == Some(run[i].head) && run[k].head == run[i].head
    decreases k
  {
    StepHead(run[k - 1], labels[k - 1].tid, labels[k - 1].event, run[k]);
    if k > i + 1 {
      AttemptKeepsSeen(run, labels, t, i, k - 1);
      KeepsSeen(run[k - 1], labels[k - 1].tid, labels[k - 1].event, run[k], t);
    }
  }

  /** A compare-and-swap fails only because another thread moved the head in between:
      some operation always makes progress. */
  lemma FailureMeansProgress(run: seq<State>, labels: seq<Label>, t: Tid, i: nat, j: nat)
    requires IsRun(run, labels) && j < |labels| && InAttempt(run, labels, t, i, j) && labels[j] == Label(t, Retry)
    ensures exists m :: i < m < j && labels[m].tid != t && MovesHead(labels[m].event)
  {
    assert Step(run[j], labels[j].tid, labels[j].event, run[j + 1]);
    if forall m :: i < m < j ==> !MovesHead(labels[m].event) {
      AttemptKeepsSeen(run, labels, t, i, j);
      assert false;
    }
  }

  // ---- every call has its effect, once

  /** Events in the middle of an operation. */
  ghost predicate Silent(e: Event) { e == Internal || e == Retry || e == Look }

  /** Thread `t` is in the middle of `op`; a Push owns a node with its argument. */
  ghost predicate Working(s: State, t: Tid, op: Op) {
    && t in s.threads
    && var l := s.threads[t];
       match op
       case DoPush(v) => Owned(l).Some? && Owned(l).value in s.heap && s.heap[Owned(l).value].val == v
       case DoPop => l.PopTop? || l.PopLoaded? || l.PopReady?
       case DoPeek => l.PeekTop? || l.PeekLoaded?
       case DoSize => l.SizeTop? || l.SizeWalk?
       case DoClear => l.ClearTop?
  }

  /** The answers an operation may give. */
  ghost predicate Answers(op: Op, e: Event) {
    match op
    case DoPush(v) => e == Push(v)
    case DoPop => e.Pop? || e.PopEmpty?
    case DoPeek => e.PeekReturns? || e.PeekEmpty?
    case DoSize => e.SizeReturns?
    case DoClear => e.Clear?
  }

  lemma CallStarts(s: State, t: Tid, op: Op, s': State)
    requires Step(s, t, Call(op), s')
    ensures Working(s', t, op)
  {
  }

  lemma PushWorks(s: State, t: Tid, e: Event, s': State, v: Value)
    requires Inv(s) && Working(s, t, DoPush(v)) && PushStep(s, t, e, s')
    ensures if s'.threads[t] == Idle then e == Push(v) else Silent(e) && Working(s', t, DoPush(v))
  {
  }

  lemma OtherWorks(s: State, t: Tid, e: Event, s': State, op: Op)
    requires Working(s, t, op) && (PopStep(s, t, e, s') || ReadStep(s, t, e, s'))
    ensures if s'.threads[t] == Idle then Answers(op, e) else Silent(e) && Working(s', t, op)
  {
  }

  lemma NotPush(s: State, t: Tid, e: Event, s': State, op: Op)
    requires Working(s, t, op) && Step(s, t, e, s')
    ensures if op.DoPush? then PushStep(s, t, e, s') else PopStep(s, t, e, s') || ReadStep(s, t, e, s')
  {
  }

  /** A step of the thread goes on with its operation or answers it. */
  lemma OwnStepWorks(s: State, t: Tid, e: Event, s': State, op: Op)
    requires Inv(s) && Working(s, t, op) && Step(s, t, e, s')
    ensures t in s'.threads
    ensures if s'.threads[t] == Idle then Answers(op, e) else Silent(e) && Working(s', t, op)
  {
    hide CallStep, PushStep, PopStep, ReadStep, Inv, Working;
    NotPush(s, t, e, s', op);
    if op.DoPush? {
      PushMovesOne(s, t, e, s');
      PushWorks(s, t, e, s', op.val);
    } else {
      OtherMovesOne(s, t, e, s');
      OtherWorks(s, t, e, s', op);
    }
  }

  /** A step changes no cell but a new one or one its thread owns. */
  lemma TouchesOwn(s: State, u: Tid, e: Event, s': State, n: Ref)
    requires Step(s, u, e, s') && n in s.heap && Owned(s.threads[u]) != Some(n)
    ensures n in s'.heap && s'.heap[n] == s.heap[n]
  {
    hide CallStep, PushStep, PopStep, ReadStep, Owned;
    if CallStep(s, u, e, s') {
      CallTouches(s, u, e, s', n);
    } else if PushStep(s, u, e, s') {
      PushTouches(s, u, e, s', n);
    } else {
      OtherTouches(s, u, e, s');
    }
  }

  lemma CallTouches(s: State, u: Tid, e: Event, s': State, n: Ref)
    requires u in s.threads && CallStep(s, u, e, s') && n in s.heap
    ensures n in s'.heap && s'.heap[n] == s.heap[n]
  {
  }

  lemma PushTouches(s: State, u: Tid, e: Event, s': State, n: Ref)
    requires u in s.threads && PushStep(s, u, e, s') && n in s.heap && Owned(s.threads[u]) != Some(n)
    ensures n in s'.heap && s'.heap[n] == s.heap[n]
  {
  }

  lemma OtherTouches(s: State, u: Tid, e: Event, s': State)
    requires u in s.threads && (PopStep(s, u, e, s') || ReadStep(s, u, e, s'))
    ensures s'.heap == s.heap
  {
  }

  lemma OtherStepWorks(s: State, u: Tid, e: Event, s': State, t: Tid, op: Op)
    requires Inv(s) && Working(s, t, op) && Step(s, u, e, s') && u != t
    ensures Working(s', t, op)
  {
    hide CallStep, PushStep, PopStep, ReadStep, Linked, LocalOk, Owned;
    OthersKeepLocal(s, u, e, s', t);
    if op.DoPush? {
      TouchesOwn(s, u, e, s', Owned(s.threads[t]).value);
    }
  }

  /** Thread `t` calls `op` at step `i` and has not finished it before `k`. */
  ghost predicate InCall(run: seq<State>, labels: seq<Label>, t: Tid, op: Op, i: nat, k: nat)
    requires IsRun(run, labels)
  {
    && i < k < |run| && labels[i] == Label(t, Call(op))
    && forall m :: i < m < k ==> t in run[m].threads && run[m].threads[t] != Idle
  }

  lemma {:induction false} CallGoesOn(run: seq<State>, labels: seq<Label>, t: Tid, op: Op, i: nat, k: nat)
    requires IsRun(run, labels) && InCall(run, labels, t, op, i, k) && t in run[k].threads && run[k].threads[t] != Idle
    ensures Working(run[k], t, op)
    ensures forall m :: i < m < k && labels[m].tid == t ==> Silent(labels[m].event)
    decreases k
  {
    hide Step, Working, Inv, Silent, Init;
    if k == i + 1 {
      CallStarts(run[i], t, op, run[k]);
    } else {
      CallGoesOn(run, labels, t, op, i, k - 1);
      RunInv(run, labels, k - 1);
      var u, e := labels[k - 1].tid, labels[k - 1].event;
      if u == t {
        OwnStepWorks(run[k - 1], t, e, run[k], op);
      } else {
        OtherStepWorks(run[k - 1], u, e, run[k], t, op);
      }
    }
  }

  /** What the caller of `op` may conclude from its answer: at one moment the stack was `q`,
      gave that answer and became `q'`. */
  ghost predicate Explains(op: Op, q: seq<Value>, e: Event, q': seq<Value>) {
    match op
    case DoPush(v) => e == Push(v) && q' == [v] + q
    case DoPop => if q == [] then e == PopEmpty && q' == [] else e == Pop(q[0]) && q' == q[1..]
    case DoPeek => q' == q && e == if q == [] then PeekEmpty else PeekReturns(q[0])
    case DoSize => q' == q && e == SizeReturns(|q|)
    case DoClear => e == Clear && q' == []
  }

  /** A Peek or Size that holds what it read of the stack loaded the head during this call. */
  ghost predicate Loaded(run: seq<State>, labels: seq<Label>, t: Tid, i: nat, k: nat)
    requires IsRun(run, labels)
  {
    exists p :: i < p && (InPeek(run, labels, t, p, k) || InSize(run, labels, t, p, k))
  }

  lemma {:induction false} LoadedInCall(run: seq<State>, labels: seq<Label>, t: Tid, op: Op, i: nat, k: nat)
    requires IsRun(run, labels) && InCall(run, labels, t, op, i, k) && t in run[k].threads
    requires run[k].threads[t].PeekLoaded? || run[k].threads[t].SizeWalk?
    ensures Loaded(run, labels, t, i, k)
    decreases k
  {
    hide Step, Inv, Init, Working, InPeek, InSize, Loaded;
    var u, e := labels[k - 1].tid, labels[k - 1].event;
    if k == i + 1 {
      NotLoadedYet(run[i], t, op, run[k]);
      assert false;
    } else if u == t {
      CallGoesOn(run, labels, t, op, i, k - 1);
      LoadStep(run[k - 1], t, e, run[k], op);
      if run[k - 1].threads[t].SizeWalk? {
        LoadedInCall(run, labels, t, op, i, k - 1);
      }
      LoadedOwn(run, labels, t, i, k);
    } else {
      OthersKeepLocal(run[k - 1], u, e, run[k], t);
      LoadedInCall(run, labels, t, op, i, k - 1);
      LoadedOther(run, labels, t, i, k);
    }
  }

  lemma LoadedOwn(run: seq<State>, labels: seq<Label>, t: Tid, i: nat, k: nat)
    requires IsRun(run, labels) && i < k - 1 && k < |run| && labels[k - 1].tid == t && t in run[k - 1].threads
    requires if run[k - 1].threads[t].SizeWalk? then Loaded(run, labels, t, i, k - 1) && labels[k - 1].event == Internal
             else (run[k - 1].threads[t] == PeekTop || run[k - 1].threads[t] == SizeTop) && labels[k - 1].event == Look
    ensures Loaded(run, labels, t, i, k)
  {
    hide IsRun;
    if run[k - 1].threads[t].SizeWalk? {
      var p :| i < p && (InPeek(run, labels, t, p, k - 1) || InSize(run, labels, t, p, k - 1));
      StillSame(run, labels, t, p, k - 1);
      assert InSize(run, labels, t, p, k);
    } else {
      assert InPeek(run, labels, t, k - 1, k) || InSize(run, labels, t, k - 1, k);
    }
  }

  lemma LoadedOther(run: seq<State>, labels: seq<Label>, t: Tid, i: nat, k: nat)
    requires IsRun(run, labels) && 0 < k < |run| && labels[k - 1].tid != t && Loaded(run, labels, t, i, k - 1)
    ensures Loaded(run, labels, t, i, k)
  {
    var p :| i < p && (InPeek(run, labels, t, p, k - 1) || InSize(run, labels, t, p, k - 1));
    assert InPeek(run, labels, t, p, k) || InSize(run, labels, t, p, k);
  }

  lemma NotLoadedYet(s: State, t: Tid, op: Op, s': State)
    requires Step(s, t, Call(op), s')
    ensures t in s'.threads && !s'.threads[t].PeekLoaded? && !s'.threads[t].SizeWalk?
  {
  }

  lemma LoadStep(s: State, t: Tid, e: Event, s': State, op: Op)
    requires Working(s, t, op) && Step(s, t, e, s') && t in s'.threads && (s'.threads[t].PeekLoaded? || s'.threads[t].SizeWalk?)
    ensures s.threads[t] == PeekTop || s.threads[t] == SizeTop || s.threads[t].SizeWalk?
    ensures e == if s.threads[t].SizeWalk? then Internal else Look
  {
  }

  lemma StillSame(run: seq<State>, labels: seq<Label>, t: Tid, p: nat, k: nat)
    requires IsRun(run, labels) && (InPeek(run, labels, t, p, k) || InSize(run, labels, t, p, k))
    requires t in run[k].threads && run[k].threads[t].SizeWalk?
    ensures InSize(run, labels, t, p, k)
  {
    hide InSize;
    if InPeek(run, labels, t, p, k) {
      StillPeeking(run, labels, t, p, k);
    }
  }

  ghost predicate Reachable(run: seq<State>) { forall m :: 0 <= m < |run| ==> Inv(run[m]) }

  /** None of the thread's steps from `i` to before `j`, except `p`, changes the stack. */
  ghost predicate OnlyAt(run: seq<State>, labels: seq<Label>, t: Tid, i: nat, j: nat, p: nat)
    requires IsRun(run, labels) && Reachable(run) && j < |run|
  {
    forall m :: i <= m < j && m != p && labels[m].tid == t ==> Contents(run[m + 1]) == Contents(run[m])
  }

  /** Step `p` of the call that thread `t` makes at `i` and finishes at `j` is the one moment at
      which the stack gives the answer; no other step of the call changes the stack. */
  ghost predicate TakesEffectAt(run: seq<State>, labels: seq<Label>, t: Tid, op: Op, i: nat, j: nat, p: nat)
    requires IsRun(run, labels) && i < j < |run|
  {
    && i < p < j && labels[p].tid == t && labels[j - 1].tid == t && Reachable(run)
    && Explains(op, Contents(run[p]), labels[j - 1].event, Contents(run[p + 1]))
    && OnlyAt(run, labels, t, i, j, p)
  }

  lemma AllReachable(run: seq<State>, labels: seq<Label>)
    requires IsRun(run, labels)
    ensures Reachable(run)
  {
    forall m | 0 <= m < |run| ensures Inv(run[m]) {
      RunInv(run, labels, m);
    }
  }

  /** The last step of a call answers it; all its steps before are silent. */
  lemma LastAnswers(run: seq<State>, labels: seq<Label>, t: Tid, op: Op, i: nat, j: nat)
    requires IsRun(run, labels) && InCall(run, labels, t, op, i, j) && t in run[j].threads && run[j].threads[t] == Idle
    ensures i < j - 1 && labels[j - 1].tid == t && Answers(op, labels[j - 1].event)
    ensures t in run[j - 1].threads && run[j - 1].threads[t] != Idle && Working(run[j - 1], t, op)
    ensures forall m :: i < m < j - 1 && labels[m].tid == t ==> Silent(labels[m].event)
  {
    hide Step, Working, Inv, Silent, Init, Answers;
    var u, e := labels[j - 1].tid, labels[j - 1].event;
    if j == i + 1 {
      CallStarts(run[i], t, op, run[j]);
      IdleIsNotWorking(run[j], t, op);
      assert false;
    } else {
      CallGoesOn(run, labels, t, op, i, j - 1);
      RunInv(run, labels, j - 1);
      if u == t {
        OwnStepWorks(run[j - 1], t, e, run[j], op);
      } else {
        OthersKeepLocal(run[j - 1], u, e, run[j], t);
      }
    }
  }

  lemma IdleIsNotWorking(s: State, t: Tid, op: Op)
    requires t in s.threads && s.threads[t] == Idle
    ensures !Working(s, t, op)
  {
  }

  /** Silent steps and the start of a call leave the stack as it is. */
  lemma SilentKeeps(s: State, t: Tid, e: Event, s': State)
    requires Inv(s) && Step(s, t, e, s') && (Silent(e) || e.Call? || e.PeekReturns? || e.SizeReturns?)
    ensures Inv(s') && Contents(s') == Contents(s)
  {
    StepEffect(s, t, e, s');
  }

  lemma QuietBefore(run: seq<State>, labels: seq<Label>, t: Tid, i: nat, j: nat, op: Op)
    requires IsRun(run, labels) && Reachable(run) && i < j - 1 && j < |run| && labels[i] == Label(t, Call(op))
    requires forall m :: i < m < j - 1 && labels[m].tid == t ==> Silent(labels[m].event)
    ensures OnlyAt(run, labels, t, i, j, j - 1)
  {
    hide Step, Linked, LocalOk, Init;
    forall m | i <= m < j && m != j - 1 && labels[m].tid == t ensures Contents(run[m + 1]) == Contents(run[m]) {
      SilentKeeps(run[m], t, labels[m].event, run[m + 1]);
    }
  }

  lemma QuietAlways(run: seq<State>, labels: seq<Label>, t: Tid, i: nat, j: nat, p: nat)
    requires IsRun(run, labels) && Reachable(run) && i < j < |run| && OnlyAt(run, labels, t, i, j, j - 1)
    requires Contents(run[j]) == Contents(run[j - 1])
    ensures OnlyAt(run, labels, t, i, j, p)
  {
    hide IsRun, Contents;
  }

  /** Linearisability: whatever other threads do, a call of any operation that has come back
      took effect at exactly one of its own steps, with exactly the answer it gave: a Push with
      the value it was called with, a Pop, Peek or Size with what the stack held at that step. */
  lemma CompletedCall(run: seq<State>, labels: seq<Label>, t: Tid, op: Op, i: nat, j: nat)
    requires IsRun(run, labels) && InCall(run, labels, t, op, i, j) && t in run[j].threads && run[j].threads[t] == Idle
    ensures exists p :: TakesEffectAt(run, labels, t, op, i, j, p)
  {
    hide Step, Working, Linked, LocalOk, Init, Contents, OnlyAt;
    AllReachable(run, labels);
    LastAnswers(run, labels, t, op, i, j);
    QuietBefore(run, labels, t, i, j, op);
    var e := labels[j - 1].event;
    if e.PeekReturns? || e.SizeReturns? {
      CompletedRead(run, labels, t, op, i, j);
    } else {
      StepEffect(run[j - 1], t, e, run[j]);
      EffectExplains(op, Contents(run[j - 1]), e, Contents(run[j]));
      assert TakesEffectAt(run, labels, t, op, i, j, j - 1);
    }
  }

  lemma CompletedRead(run: seq<State>, labels: seq<Label>, t: Tid, op: Op, i: nat, j: nat)
    requires IsRun(run, labels) && Reachable(run) && InCall(run, labels, t, op, i, j) && i < j - 1
    requires labels[j - 1].tid == t && Answers(op, labels[j - 1].event) && OnlyAt(run, labels, t, i, j, j - 1)
    requires labels[j - 1].event.PeekReturns? || labels[j - 1].event.SizeReturns?
    ensures exists p :: TakesEffectAt(run, labels, t, op, i, j, p)
  {
    hide Step, Working, Linked, LocalOk, Init, Contents, OnlyAt, InPeek, InSize, Explains, Answers;
    var e := labels[j - 1].event;
    SilentKeeps(run[j - 1], t, e, run[j]);
    ReaderHasLoaded(run[j - 1], t, e, run[j]);
    LoadedInCall(run, labels, t, op, i, j - 1);
    var p :| i < p && (InPeek(run, labels, t, p, j - 1) || InSize(run, labels, t, p, j - 1));
    ReadExplained(run, labels, t, op, p, j - 1);
    QuietAlways(run, labels, t, i, j, p);
    assert TakesEffectAt(run, labels, t, op, i, j, p);
  }

  lemma ReaderHasLoaded(s: State, t: Tid, e: Event, s': State)
    requires Step(s, t, e, s') && (e.PeekReturns? || e.SizeReturns?)
    ensures t in s.threads && if e.PeekReturns? then s.threads[t].PeekLoaded? else s.threads[t].SizeWalk?
  {
  }

  lemma EffectExplains(op: Op, q: seq<Value>, e: Event, q': seq<Value>)
    requires Answers(op, e) && Effect(q, e, q') && !e.PeekReturns? && !e.SizeReturns?
    ensures Explains(op, q, e, q')
  {
  }

  lemma ReadExplained(run: seq<State>, labels: seq<Label>, t: Tid, op: Op, p: nat, r: nat)
    requires IsRun(run, labels) && r < |labels| && labels[r].tid == t && Answers(op, labels[r].event)
    requires labels[r].event.PeekReturns? || labels[r].event.SizeReturns?
    requires InPeek(run, labels, t, p, r) || InSize(run, labels, t, p, r)
    ensures p < r && labels[p].tid == t && Inv(run[p]) && Inv(run[p + 1])
    ensures Explains(op, Contents(run[p]), labels[r].event, Contents(run[p + 1]))
  {
    hide Step, Working, Inv, Init;
    var e := labels[r].event;
    RunInv(run, labels, p);
    SilentKeeps(run[p], t, Look, run[p + 1]);
    ReaderHasLoaded(run[r], t, e, run[r + 1]);
    if e.PeekReturns? {
      if InSize(run, labels, t, p, r) {
        StillWalking(run, labels, t, p, r);
      }
      PeekIsExact(run, labels, t, p, r, e.val);
    } else {
      StillSame(run, labels, t, p, r);
      SizeIsExact(run, labels, t, p, r, e.n);
    }
  }

  /** Threads act only within calls: whoever is not idle has called an operation and not
      finished it. */
  lemma {:induction false} BusyMeansCalled(run: seq<State>, labels: seq<Label>, t: Tid, k: nat) returns (op: Op, i: nat)
    requires IsRun(run, labels) && k < |run| && t in run[k].threads && run[k].threads[t] != Idle
    ensures InCall(run, labels, t, op, i, k)
    decreases k
  {
    hide PushStep, PopStep, ReadStep, Inv;
    assert k > 0;
    var u, e := labels[k - 1].tid, labels[k - 1].event;
    assert Step(run[k - 1], u, e, run[k]);
    if u == t {
      if run[k - 1].threads[t] == Idle {
        IdleCalls(run[k - 1], t, e, run[k]);
        op, i := e.op, k - 1;
      } else {
        op, i := BusyMeansCalled(run, labels, t, k - 1);
      }
    } else {
      StepKeepsThreads(run[k - 1], u, e, run[k]);
      OthersKeepLocal(run[k - 1], u, e, run[k], t);
      op, i := BusyMeansCalled(run, labels, t, k - 1);
    }
  }

  lemma IdleCalls(s: State, t: Tid, e: Event, s': State)
    requires Step(s, t, e, s') && s.threads[t] == Idle
    ensures e.Call?
  {
  }

  lemma StepKeepsThreads(s: State, u: Tid, e: Event, s': State)
    requires Step(s, u, e, s')
    ensures s'.threads.Keys == s.threads.Keys
  {
    hide CallStep, PushStep, PopStep, ReadStep;
    if CallStep(s, u, e, s') {
      CallMovesOne(s, u, e, s');
    } else if PushStep(s, u, e, s') {
      PushMovesOne(s, u, e, s');
    } else {
      OtherMovesOne(s, u, e, s');
    }
  }

  /** Every change of the stack is the doing of a call in progress that asked for it. */
  lemma EffectsAreCalled(run: seq<State>, labels: seq<Label>, k: nat)
    requires IsRun(run, labels) && k < |labels| && !labels[k].event.Call? && !Silent(labels[k].event)
    ensures exists op, i :: InCall(run, labels, labels[k].tid, op, i, k) && Answers(op, labels[k].event)
  {
    hide Step, Working, Inv, Init;
    var t, e := labels[k].tid, labels[k].event;
    NotIdle(run[k], t, e, run[k + 1]);
    var op, i := BusyMeansCalled(run, labels, t, k);
    CallGoesOn(run, labels, t, op, i, k);
    RunInv(run, labels, k);
    OwnStepWorks(run[k], t, e, run[k + 1], op);
    assert InCall(run, labels, t, op, i, k) && Answers(op, e);
  }

  lemma NotIdle(s: State, t: Tid, e: Event, s': State)
    requires Step(s, t, e, s') && !e.Call?
    ensures t in s.threads && s.threads[t] != Idle
  {
  }

  // ---- a thread can always go on, and a call ends

  /** No thread ever waits: in every reachable state each thread has a step to take. */
  lemma NeverBlocked(s: State, t: Tid)
    requires Inv(s) && t in s.threads
    ensures exists e, s' :: Step(s, t, e, s')
  {
    assert LocalOk(s, s.threads[t]);
    match s.threads[t]
    case Idle => CanStep(s, t, Call(DoPop), s.(threads := s.threads[t := PopTop]));
    case PushTop(n) => CanStep(s, t, Internal, s.(threads := s.threads[t := PushLoaded(n, s.head)]));
    case PushLoaded(n, seen) =>
      CanStep(s, t, Internal, s.(heap := s.heap[n := Cell(s.heap[n].val, seen)], threads := s.threads[t := PushLinked(n, seen)]));
    case PushLinked(n, seen) =>
      if s.head == seen {
        CanStep(s, t, Push(s.heap[n].val),
                s.(head := Some(n), threads := s.threads[t := Idle], rank := s.rank[n := s.clock], clock := s.clock + 1));
      } else {
        CanStep(s, t, Retry, s.(threads := s.threads[t := PushTop(n)]));
      }
    case PopTop =>
      if s.head.None? {
        CanStep(s, t, PopEmpty, s.(threads := s.threads[t := Idle]));
      } else {
        CanStep(s, t, Internal, s.(threads := s.threads[t := PopLoaded(s.head.value)]));
      }
    case PopLoaded(top) => CanStep(s, t, Internal, s.(threads := s.threads[t := PopReady(top, s.heap[top].next)]));
    case PopReady(top, next) =>
      if s.head == Some(top) {
        CanStep(s, t, Pop(s.heap[top].val), s.(head := next, threads := s.threads[t := Idle]));
      } else {
        CanStep(s, t, Retry, s.(threads := s.threads[t := PopTop]));
      }
    case PeekTop =>
      if s.head.None? {
        CanStep(s, t, PeekEmpty, s.(threads := s.threads[t := Idle]));
      } else {
        CanStep(s, t, Look, s.(threads := s.threads[t := PeekLoaded(s.head.value)]));
      }
    case PeekLoaded(top) => CanStep(s, t, PeekReturns(s.heap[top].val), s.(threads := s.threads[t := Idle]));
    case SizeTop => CanStep(s, t, Look, s.(threads := s.threads[t := SizeWalk(s.head, 0)]));
    case SizeWalk(cur, count) =>
      if cur.None? {
        CanStep(s, t, SizeReturns(count), s.(threads := s.threads[t := Idle]));
      } else {
        CanStep(s, t, Internal, s.(threads := s.threads[t := SizeWalk(s.heap[cur.value].next, count + 1)]));
      }
    case ClearTop => CanStep(s, t, Clear, s.(head := None, threads := s.threads[t := Idle]));
  }

  lemma CanStep(s: State, t: Tid, e: Event, s': State)
    requires Step(s, t, e, s')
    ensures exists e, s' :: Step(s, t, e, s')
  {
  }

  /** How many steps thread `t` takes from step `i` to before `k`, and how many of them failed. */
  ghost function OwnSteps(labels: seq<Label>, t: Tid, i: nat, k: nat): nat
    requires i <= k <= |labels|
    decreases k
  {
    if k == i then 0 else OwnSteps(labels, t, i, k - 1) + if labels[k - 1].tid == t then 1 else 0
  }

  ghost function Retries(labels: seq<Label>, t: Tid, i: nat, k: nat): nat
    requires i <= k <= |labels|
    decreases k
  {
    if k == i then 0 else Retries(labels, t, i, k - 1) + if labels[k - 1] == Label(t, Retry) then 1 else 0
  }

  /** The steps left to the end of an operation, or to its next failed compare-and-swap. */
  ghost function Left(l: Local): nat {
    match l
    case PushTop(_) => 3
    case PushLoaded(_, _) => 2
    case PushLinked(_, _) => 1
    case PopTop => 3
    case PopLoaded(_) => 2
    case PopReady(_, _) => 1
    case PeekTop => 2
    case PeekLoaded(_) => 1
    case ClearTop => 1
    case _ => 0
  }

  lemma LeftStep(s: State, t: Tid, e: Event, s': State, op: Op)
    requires Working(s, t, op) && op != DoSize && Step(s, t, e, s')
    ensures t in s'.threads && Left(s'.threads[t]) < Left(s.threads[t]) + if e == Retry then 3 else 0
  {
    hide CallStep, PushStep, PopStep, ReadStep, Working, Left;
    NotPush(s, t, e, s', op);
    if op.DoPush? {
      PushLeft(s, t, e, s');
    } else {
      OtherLeft(s, t, e, s', op);
    }
  }

  lemma PushLeft(s: State, t: Tid, e: Event, s': State)
    requires t in s.threads && PushStep(s, t, e, s')
    ensures t in s'.threads && Left(s'.threads[t]) < Left(s.threads[t]) + if e == Retry then 3 else 0
  {
  }

  lemma OtherLeft(s: State, t: Tid, e: Event, s': State, op: Op)
    requires Working(s, t, op) && op != DoSize && (PopStep(s, t, e, s') || ReadStep(s, t, e, s'))
    ensures t in s'.threads && Left(s'.threads[t]) < Left(s.threads[t]) + if e == Retry then 3 else 0
  {
  }

  lemma CallLeft(s: State, t: Tid, op: Op, s': State)
    requires Step(s, t, Call(op), s')
    ensures t in s'.threads && Left(s'.threads[t]) <= 3
  {
  }

  /** Lock freedom: a Push, Pop, Peek or Clear takes at most three steps and three more for each
      failed compare-and-swap, each of which means that another operation succeeded. */
  lemma {:induction false} CallIsShort(run: seq<State>, labels: seq<Label>, t: Tid, op: Op, i: nat, k: nat)
    requires IsRun(run, labels) && op != DoSize && InCall(run, labels, t, op, i, k)
    ensures t in run[k].threads
    ensures OwnSteps(labels, t, i + 1, k) + Left(run[k].threads[t]) <= 3 + 3 * Retries(labels, t, i + 1, k)
    decreases k
  {
    hide Step, Working, Inv, Init, Left;
    if k == i + 1 {
      CallLeft(run[i], t, op, run[k]);
    } else {
      var u, e := labels[k - 1].tid, labels[k - 1].event;
      CallIsShort(run, labels, t, op, i, k - 1);
      if u == t {
        CallGoesOn(run, labels, t, op, i, k - 1);
        LeftStep(run[k - 1], t, e, run[k], op);
      } else {
        OthersKeepLocal(run[k - 1], u, e, run[k], t);
      }
    }
  }
}
