/** Change streams of pkg/changestream/change_stream.go as a step machine: writers append
    to the log, one watcher polls it into a bounded buffer, and a consumer reads. */
module ChangeStream {
  import opened Oplog

  /** What a stream watches; an empty name watches everything. */
  datatype Watch = Watch(database: string, collection: string, filter: Entry -> bool, pipeline: Entry -> bool)

  predicate Passes(w: Watch, e: Entry) {
    && (w.database == "" || e.database == w.database)
    && (w.collection == "" || e.collection == w.collection)
    && e.op != Noop && w.filter(e) && w.pipeline(e)
  }

  type Positive = n: nat | n > 0 witness 1

  /** `start` is the token the stream begins after, `capacity` the size of its buffer and
      `window` how many entries the log keeps in memory. */
  datatype Config = Config(watch: Watch, start: nat, capacity: nat, window: Positive)

  /** The watcher has fetched the log up to `upto` and is at `next`. `lost` collects the ids of
      matching events that will never be delivered. */
  datatype State = State(
    disk: seq<Entry>,
    token: nat,
    next: nat,
    upto: nat,
    waiting: bool,
    buffer: seq<Entry>,
    delivered: seq<Entry>,
    lost: set<nat>)

  function Evicted(c: Config, disk: seq<Entry>): (n: nat)
    ensures n <= |disk|
  {
    if |disk| <= c.window then 0 else |disk| - c.window
  }

  /** Where the entries the log returns for a token begin. */
  function FetchFrom(c: Config, disk: seq<Entry>, token: nat): (f: nat)
    ensures f <= |disk|
  {
    var w := Evicted(c, disk);
    w + UpTo(disk[w..], token)
  }

  predicate Wanted(c: Config, e: Entry) { e.opID > c.start && Passes(c.watch, e) }

  function Missed(c: Config, disk: seq<Entry>, from: nat, to: nat): set<nat>
    requires to <= |disk|
  {
    set k | from <= k < to && Wanted(c, disk[k]) :: disk[k].opID
  }

  /** `ready`: a receiver is waiting at the empty buffer and takes the event at once. */
  datatype Step = Append(e: Entry) | Poll | Handle(ready: bool) | Retry(ready: bool) | GiveUp | Consume

  predicate Enabled(c: Config, s: State, step: Step) {
    match step
    case Append(e) => forall k :: 0 <= k < |s.disk| ==> s.disk[k].opID < e.opID
    case Poll => s.next == s.upto && !s.waiting
    case Handle(ready) => s.next < s.upto <= |s.disk| && !s.waiting && (ready ==> s.buffer == [])
    case Retry(ready) => s.next < |s.disk| && s.waiting && if ready then s.buffer == [] else |s.buffer| < c.capacity
    case GiveUp => s.next < |s.disk| && s.waiting
    case Consume => s.buffer != []
  }

  function Send(s: State, e: Entry, ready: bool): State {
    var t := s.(next := s.next + 1, waiting := false);
    if ready then t.(delivered := t.delivered + [e]) else t.(buffer := t.buffer + [e])
  }

  function Next(c: Config, s: State, step: Step): State
    requires Enabled(c, s, step)
  {
    match step
    case Append(e) => s.(disk := s.disk + [e])
    case Poll =>
      var f := FetchFrom(c, s.disk, s.token);
      s.(next := f, upto := |s.disk|, lost := s.lost + Missed(c, s.disk, s.next, f))
    case Handle(ready) =>
      var e := s.disk[s.next];
      if !Passes(c.watch, e) then s.(next := s.next + 1)
      else
        var t := s.(token := e.opID);
        if ready || |t.buffer| < c.capacity then Send(t, e, ready) else t.(waiting := true)
    case Retry(ready) => Send(s, s.disk[s.next], ready)
    case GiveUp => s.(next := s.next + 1, waiting := false, lost := s.lost + {s.disk[s.next].opID})
    case Consume => s.(buffer := s.buffer[1..], delivered := s.delivered + [s.buffer[0]])
  }

  function Init(c: Config, log: seq<Entry>): State {
    State(log, c.start, 0, 0, false, [], [], {})
  }

  // ---- what has been emitted

  function Emitted(s: State): seq<Entry> { s.delivered + s.buffer }

  /** The wanted entries of a log, in order, without the lost ones. */
  function Kept(c: Config, log: seq<Entry>, lost: set<nat>): seq<Entry> {
    if log == [] then []
    else
      var e := log[|log| - 1];
      Kept(c, log[..|log| - 1], lost) + if Wanted(c, e) && e.opID !in lost then [e] else []
  }

  /** Entries that are not due add nothing. */
  lemma {:induction false} KeptSkip(c: Config, log: seq<Entry>, lost: set<nat>, a: nat, b: nat)
    requires a <= b <= |log|
    requires forall k :: a <= k < b ==> !Wanted(c, log[k]) || log[k].opID in lost
    ensures Kept(c, log[..b], lost) == Kept(c, log[..a], lost)
  {
    if a < b {
      KeptSkip(c, log, lost, a, b - 1);
      assert log[..b][..b - 1] == log[..b - 1];
    }
  }

  lemma {:induction false} KeptOtherLost(c: Config, log: seq<Entry>, lost: set<nat>, more: set<nat>)
    requires forall k :: 0 <= k < |log| ==> log[k].opID !in more
    ensures Kept(c, log, lost + more) == Kept(c, log, lost)
  {
    if log != [] {
      KeptOtherLost(c, log[..|log| - 1], lost, more);
    }
  }

  lemma KeptNext(c: Config, log: seq<Entry>, lost: set<nat>, n: nat)
    requires n < |log|
    ensures Kept(c, log[..n + 1], lost) == Kept(c, log[..n], lost) + if Wanted(c, log[n]) && log[n].opID !in lost then [log[n]] else []
  {
    assert log[..n + 1][..n] == log[..n];
  }

  // ---- invariant

  /** A poll with this token would start beyond entry `k`. */
  ghost predicate Behind(c: Config, s: State, k: nat)
    requires k < |s.disk|
  {
    k < Evicted(c, s.disk) || s.disk[k].opID <= s.token
  }

  ghost predicate LostAt(c: Config, s: State, k: nat)
    requires k < |s.disk|
  {
    Behind(c, s, k) && Wanted(c, s.disk[k])
  }

  ghost predicate Shape(c: Config, s: State) {
    && Increasing(s.disk) && s.next <= s.upto <= |s.disk| && c.start <= s.token
    && (s.token == c.start || exists k :: 0 <= k < |s.disk| && s.disk[k].opID == s.token)
    && (s.waiting ==> s.next < s.upto && Passes(c.watch, s.disk[s.next]) && s.token == s.disk[s.next].opID)
    && (forall k :: s.next <= k < s.upto ==> s.disk[k].opID > c.start)
    && (forall k :: s.next <= k < |s.disk| && (s.waiting ==> k > s.next) && s.disk[k].opID > c.start ==> s.disk[k].opID > s.token)
  }

  ghost predicate Progress(c: Config, s: State)
    requires s.next <= |s.disk|
  {
    && (forall k :: 0 <= k < s.next && Wanted(c, s.disk[k]) ==> Behind(c, s, k))
    && (forall x :: x in s.lost ==> exists k :: 0 <= k < s.next && s.disk[k].opID == x && LostAt(c, s, k))
    && Emitted(s) == Kept(c, s.disk[..s.next], s.lost)
  }

  ghost predicate Inv(c: Config, s: State) { Shape(c, s) && Progress(c, s) }

  lemma InitInv(c: Config, log: seq<Entry>)
    requires Increasing(log)
    ensures Inv(c, Init(c, log))
  {
  }

  lemma FetchSplits(c: Config, disk: seq<Entry>, token: nat, k: nat)
    requires Increasing(disk) && k < |disk|
    ensures k < FetchFrom(c, disk, token) <==> k < Evicted(c, disk) || disk[k].opID <= token
  {
    hide UpTo;
    var w := Evicted(c, disk);
    var t := disk[w..];
    IncreasingTail(disk, w);
    UpToSplits(t, token);
    if w <= k {
      assert disk[k] == t[k - w];
    }
  }

  /** What the log returns to a poll: the tail from there. */
  lemma FetchIsTail(c: Config, disk: seq<Entry>, token: nat)
    requires Increasing(disk)
    ensures After(disk[Evicted(c, disk)..], token) == disk[FetchFrom(c, disk, token)..]
  {
    hide UpTo, After, Increasing;
    var w := Evicted(c, disk);
    IncreasingTail(disk, w);
    AfterIsTail(disk[w..], token);
  }

  // ---- every step keeps it

  lemma PollInv(c: Config, s: State)
    requires Inv(c, s) && Enabled(c, s, Poll)
    ensures Inv(c, Next(c, s, Poll))
  {
    hide FetchFrom, Kept, Evicted, Passes;
    var f, t := FetchFrom(c, s.disk, s.token), Next(c, s, Poll);
    var missed := Missed(c, s.disk, s.next, f);
    forall k | 0 <= k < |s.disk| ensures k < f <==> Behind(c, s, k) {
      FetchSplits(c, s.disk, s.token, k);
    }
    forall x | x in t.lost ensures exists k :: 0 <= k < f && s.disk[k].opID == x && LostAt(c, t, k) {
      if x in s.lost {
        var k :| 0 <= k < s.next && s.disk[k].opID == x && LostAt(c, s, k);
        assert Behind(c, s, k) && LostAt(c, t, k);
      } else {
        var k :| s.next <= k < f && s.disk[k].opID == x && Wanted(c, s.disk[k]);
        assert Behind(c, s, k) && LostAt(c, t, k);
      }
    }
    PollEmits(c, s);
    forall k | 0 <= k < |s.disk| ensures Behind(c, t, k) <==> Behind(c, s, k) {
    }
    forall k | f <= k < |s.disk| ensures s.disk[k].opID > s.token {
      assert !Behind(c, s, k);
    }
    assert t.disk == s.disk && t.token == s.token && t.next == f && t.upto == |s.disk| && !t.waiting;
    assert Shape(c, t);
    assert Emitted(t) == Kept(c, t.disk[..t.next], t.lost);
  }

  lemma PollEmits(c: Config, s: State)
    requires Inv(c, s) && Enabled(c, s, Poll)
    ensures var f := FetchFrom(c, s.disk, s.token);
      Kept(c, s.disk[..f], s.lost + Missed(c, s.disk, s.next, f)) == Kept(c, s.disk[..s.next], s.lost)
  {
    hide FetchFrom, Kept, Evicted;
    var f := FetchFrom(c, s.disk, s.token);
    var missed := Missed(c, s.disk, s.next, f);
    forall k | 0 <= k < |s.disk| ensures k < f <==> Behind(c, s, k) {
      FetchSplits(c, s.disk, s.token, k);
    }
    KeptOtherLost(c, s.disk[..s.next], s.lost, missed);
    if f <= s.next {
      assert missed == {};
      assert s.lost + missed == s.lost;
      KeptSkip(c, s.disk, s.lost, f, s.next);
    } else {
      forall k | s.next <= k < f ensures !Wanted(c, s.disk[k]) || s.disk[k].opID in missed {
      }
      KeptSkip(c, s.disk, s.lost + missed, s.next, f);
    }
  }

  /** More entries and a later token leave nothing that was behind ahead. */
  lemma BehindStays(c: Config, s: State, t: State, k: nat)
    requires k < |s.disk| <= |t.disk| && t.disk[k] == s.disk[k] && s.token <= t.token && Behind(c, s, k)
    ensures Behind(c, t, k)
  {
  }

  /** The part of the log already passed stays passed. */
  lemma PassedStays(c: Config, s: State, t: State)
    requires Inv(c, s) && s.disk <= t.disk && s.token <= t.token && s.next <= t.next <= |t.disk|
    ensures forall k :: 0 <= k < s.next && Wanted(c, s.disk[k]) ==> Behind(c, t, k)
    ensures forall x :: x in s.lost ==> exists k :: 0 <= k < t.next && t.disk[k].opID == x && LostAt(c, t, k)
  {
    hide Evicted, Kept;
    forall k | 0 <= k < s.next && Behind(c, s, k) ensures Behind(c, t, k) {
      BehindStays(c, s, t, k);
    }
    forall x | x in s.lost ensures exists k :: 0 <= k < t.next && t.disk[k].opID == x && LostAt(c, t, k) {
      var k :| 0 <= k < s.next && s.disk[k].opID == x && LostAt(c, s, k);
      assert t.disk[k] == s.disk[k] && LostAt(c, t, k);
    }
  }

  lemma AppendInv(c: Config, s: State, e: Entry)
    requires Inv(c, s) && Enabled(c, s, Append(e))
    ensures Inv(c, Next(c, s, Append(e)))
  {
    hide Evicted, Kept, Passes, Behind;
    var t := Next(c, s, Append(e));
    PassedStays(c, s, t);
    assert t.disk[..t.next] == s.disk[..s.next];
    AppendShape(c, s, e);
  }

  lemma AppendShape(c: Config, s: State, e: Entry)
    requires Shape(c, s) && Enabled(c, s, Append(e))
    ensures Shape(c, Next(c, s, Append(e)))
  {
    hide Passes;
    var t := Next(c, s, Append(e));
    assert forall k :: 0 <= k < |s.disk| ==> t.disk[k] == s.disk[k];
    if s.token != c.start {
      var k :| 0 <= k < |s.disk| && s.disk[k].opID == s.token;
      assert t.disk[k].opID == t.token;
    }
  }

  /** The entry at hand has not been given up. */
  lemma NotLost(c: Config, s: State)
    requires Inv(c, s) && s.next < |s.disk|
    ensures s.disk[s.next].opID !in s.lost
  {
    hide Behind, Kept;
  }

  /** Moving past one entry: it is emitted, or given up, or not wanted. */
  lemma Advance(c: Config, s: State, t: State)
    requires Inv(c, s) && s.next < s.upto
    requires t.disk == s.disk && t.next == s.next + 1 && t.upto == s.upto && !t.waiting
    requires var e := s.disk[s.next];
      if Passes(c.watch, e) then
        && t.token == e.opID
        && ((t.lost == s.lost && Emitted(t) == Emitted(s) + [e]) || (t.lost == s.lost + {e.opID} && Emitted(t) == Emitted(s)))
      else !s.waiting && t.token == s.token && t.lost == s.lost && Emitted(t) == Emitted(s)
    ensures Inv(c, t)
  {
    hide Evicted, Kept, Passes;
    var e := s.disk[s.next];
    NotLost(c, s);
    KeptNext(c, s.disk, t.lost, s.next);
    if t.lost != s.lost {
      KeptOtherLost(c, s.disk[..s.next], s.lost, {e.opID});
    }
    PassedStays(c, s, t);
    assert Shape(c, t);
    assert t.disk[s.next].opID == e.opID;
    assert Passes(c.watch, e) ==> LostAt(c, t, s.next);
  }

  /** Every step keeps the invariant. */
  lemma NextInv(c: Config, s: State, step: Step)
    requires Inv(c, s) && Enabled(c, s, step)
    ensures Inv(c, Next(c, s, step))
  {
    hide Evicted, Kept, Passes, Behind, FetchFrom, Missed;
    var t := Next(c, s, step);
    match step
    case Append(e) => AppendInv(c, s, e);
    case Poll => PollInv(c, s);
    case Consume =>
      assert Emitted(t) == Emitted(s);
      PassedStays(c, s, t);
    case _ =>
      var e := s.disk[s.next];
      assert s.delivered + (s.buffer + [e]) == s.delivered + s.buffer + [e];
      if t.waiting {
        PassedStays(c, s, t);
      } else {
        assert s.buffer == [] ==> s.delivered + [e] + s.buffer == s.delivered + s.buffer + [e];
        Advance(c, s, t);
      }
  }

  // ---- runs

  ghost predicate Moves(c: Config, s: State, step: Step, t: State) {
    Enabled(c, s, step) && t == Next(c, s, step)
  }

  ghost predicate IsRun(c: Config, run: seq<State>, steps: seq<Step>) {
    && |run| == |steps| + 1 && Increasing(run[0].disk) && run[0] == Init(c, run[0].disk)
    && (forall i, j :: 0 <= i < |steps| && j == i + 1 ==> Moves(c, run[i], steps[i], run[j]))
  }

  lemma {:induction false} RunInv(c: Config, run: seq<State>, steps: seq<Step>, i: nat)
    requires IsRun(c, run, steps) && i < |run|
    ensures Inv(c, run[i])
  {
    hide Inv, Next, Enabled, Init;
    if i == 0 {
      InitInv(c, run[0].disk);
    } else {
      var h := i - 1;
      assert i == h + 1 && Moves(c, run[h], steps[h], run[i]);
      RunInv(c, run, steps, h);
      NextInv(c, run[h], steps[h]);
    }
  }

  lemma {:induction false} KeptMembers(c: Config, log: seq<Entry>, lost: set<nat>, e: Entry)
    ensures e in Kept(c, log, lost) <==> e in log && Wanted(c, e) && e.opID !in lost
  {
    if log != [] {
      var n := |log| - 1;
      KeptMembers(c, log[..n], lost, e);
      assert log == log[..n] + [log[n]];
    }
  }

  lemma {:induction false} KeptIncreasing(c: Config, log: seq<Entry>, lost: set<nat>)
    requires Increasing(log)
    ensures Increasing(Kept(c, log, lost))
  {
    if log != [] {
      var n := |log| - 1;
      var kept := Kept(c, log[..n], lost);
      KeptIncreasing(c, log[..n], lost);
      forall i | 0 <= i < |kept| ensures kept[i].opID < log[n].opID {
        KeptMembers(c, log[..n], lost, kept[i]);
      }
    }
  }

  /** Whatever the schedule, events reach the consumer in strictly increasing order, each one
      a matching entry of the log after the start token. */
  lemma DeliveredInOrder(c: Config, run: seq<State>, steps: seq<Step>, i: nat, e: Entry)
    requires IsRun(c, run, steps) && i < |run|
    ensures Increasing(run[i].delivered)
    ensures e in run[i].delivered ==> e in run[i].disk && Wanted(c, e)
  {
    hide Kept, Init, Moves, Passes;
    var s := run[i];
    RunInv(c, run, steps, i);
    var seen := s.disk[..s.next];
    KeptIncreasing(c, seen, s.lost);
    assert forall k :: 0 <= k < |s.delivered| ==> s.delivered[k] == Emitted(s)[k];
    KeptMembers(c, seen, s.lost, e);
    assert e in seen ==> e in s.disk;
  }

  // ---- losing and completeness

  /** The step gives an event up, or polls after a matching entry newer than the token has left
      the log's memory unseen. */
  ghost predicate Loses(c: Config, s: State, step: Step) {
    || step == GiveUp
    || (step == Poll && exists k :: s.next <= k < Evicted(c, s.disk) && Wanted(c, s.disk[k]) && s.disk[k].opID > s.token)
  }

  ghost predicate LosesNothing(c: Config, run: seq<State>, steps: seq<Step>, i: nat)
    requires i < |run| == |steps| + 1
  {
    forall h :: 0 <= h < i ==> !Loses(c, run[h], steps[h])
  }

  /** A poll loses matching entries exactly if one newer than the token has left memory unseen. */
  lemma PollLoses(c: Config, s: State)
    requires Inv(c, s) && Enabled(c, s, Poll)
    ensures Next(c, s, Poll).lost != s.lost <==> Loses(c, s, Poll)
  {
    hide FetchFrom, Kept, Passes;
    var f, t := FetchFrom(c, s.disk, s.token), Next(c, s, Poll);
    if k :| s.next <= k < Evicted(c, s.disk) && Wanted(c, s.disk[k]) && s.disk[k].opID > s.token {
      FetchSplits(c, s.disk, s.token, k);
      NotLostAhead(c, s, k);
      assert s.disk[k].opID in t.lost;
    } else {
      forall k | s.next <= k < f ensures !Wanted(c, s.disk[k]) {
        FetchSplits(c, s.disk, s.token, k);
      }
      assert Missed(c, s.disk, s.next, f) == {};
    }
  }

  lemma NotLostAhead(c: Config, s: State, k: nat)
    requires Inv(c, s) && s.next <= k < |s.disk|
    ensures s.disk[k].opID !in s.lost
  {
    hide Behind, Kept, Passes;
  }

  lemma StepLoses(c: Config, s: State, step: Step)
    requires Inv(c, s) && Enabled(c, s, step)
    ensures s.lost <= Next(c, s, step).lost
    ensures Next(c, s, step).lost == {} <==> s.lost == {} && !Loses(c, s, step)
  {
    hide Inv, FetchFrom, Missed, Passes, Evicted;
    var t := Next(c, s, step);
    match step
    case Poll => PollLoses(c, s);
    case GiveUp => assert s.disk[s.next].opID in t.lost;
    case _ =>
  }

  /** Nothing has been lost exactly if no step so far was a losing one. */
  lemma {:induction false} LostExactly(c: Config, run: seq<State>, steps: seq<Step>, i: nat)
    requires IsRun(c, run, steps) && i < |run|
    ensures run[i].lost == {} <==> LosesNothing(c, run, steps, i)
  {
    hide Inv, Next, Enabled, Loses;
    if i > 0 {
      var h := i - 1;
      assert i == h + 1 && Moves(c, run[h], steps[h], run[i]);
      LostExactly(c, run, steps, h);
      RunInv(c, run, steps, h);
      StepLoses(c, run[h], steps[h]);
    } else {
      assert run[0].lost == {};
    }
  }

  /** Without lost entries a log keeps everything wanted, and only then. */
  lemma KeptAllIff(c: Config, log: seq<Entry>, lost: set<nat>)
    requires forall x :: x in lost ==> exists k :: 0 <= k < |log| && log[k].opID == x && Wanted(c, log[k])
    ensures Kept(c, log, lost) == Kept(c, log, {}) <==> lost == {}
  {
    hide Kept, Passes;
    if x :| x in lost {
      var k :| 0 <= k < |log| && log[k].opID == x && Wanted(c, log[k]);
      KeptMembers(c, log, lost, log[k]);
      KeptMembers(c, log, {}, log[k]);
    }
  }

  /** A stream that has handled what it fetched has emitted every matching entry up to that
      fetch, in order and each once, exactly if no step of the run was a losing one. */
  lemma Complete(c: Config, run: seq<State>, steps: seq<Step>, i: nat)
    requires IsRun(c, run, steps) && i < |run| && run[i].next == run[i].upto
    ensures run[i].upto <= |run[i].disk|
    ensures Emitted(run[i]) == Kept(c, run[i].disk[..run[i].upto], {}) <==> LosesNothing(c, run, steps, i)
  {
    hide Kept, Moves, Init, Behind, LosesNothing, IsRun, Passes;
    RunInv(c, run, steps, i);
    LostExactly(c, run, steps, i);
    LostInPassed(c, run[i]);
    KeptAllIff(c, run[i].disk[..run[i].upto], run[i].lost);
  }

  /** Which entries those are: every entry of the log up to the fetch that comes after the start
      token, changes something, is of the database and collection watched, if any is named, and
      is accepted by filter and pipeline; and no other. */
  lemma CompleteMeans(c: Config, run: seq<State>, steps: seq<Step>, i: nat, e: Entry)
    requires IsRun(c, run, steps) && i < |run| && run[i].next == run[i].upto && LosesNothing(c, run, steps, i)
    ensures run[i].upto <= |run[i].disk|
    ensures e in Emitted(run[i]) <==>
      && e in run[i].disk[..run[i].upto] && e.opID > c.start && !e.op.Noop?
      && (|c.watch.database| > 0 ==> c.watch.database == e.database)
      && (|c.watch.collection| > 0 ==> c.watch.collection == e.collection)
      && c.watch.filter(e) && c.watch.pipeline(e)
  {
    hide Kept, Moves, Init, LosesNothing, IsRun;
    Complete(c, run, steps, i);
    KeptMembers(c, run[i].disk[..run[i].upto], {}, e);
  }

  lemma LostInPassed(c: Config, s: State)
    requires Inv(c, s)
    ensures forall x :: x in s.lost ==> exists k :: 0 <= k < s.next && s.disk[..s.next][k].opID == x && Wanted(c, s.disk[..s.next][k])
  {
    hide Kept, Passes, Behind;
    var seen := s.disk[..s.next];
    forall x | x in s.lost ensures exists k :: 0 <= k < |seen| && seen[k].opID == x && Wanted(c, seen[k]) {
      var k :| 0 <= k < s.next && s.disk[k].opID == x && LostAt(c, s, k);
      assert seen[k] == s.disk[k];
    }
  }

  /** It does happen: resuming from before the oldest entry in memory, the first poll loses it. */
  lemma FirstPollLoses(body: Body) returns (c: Config, run: seq<State>, steps: seq<Step>)
    ensures c.window == 10000 && IsRun(c, run, steps) && steps == [Poll]
    ensures |run[0].disk| == 10001 && Wanted(c, run[0].disk[0]) && run[1].lost == {run[0].disk[0].opID}
  {
    var log := seq(10001, (i: nat) => Entry(i + 1, Insert, "db", "docs", body));
    c := Config(Watch("db", "docs", (e: Entry) => true, (e: Entry) => true), 0, 100, 10000);
    var s := Init(c, log);
    InitInv(c, log);
    var t := Next(c, s, Poll);
    run, steps := [s, t], [Poll];
    assert log[0].opID == 1 && Wanted(c, log[0]) && Loses(c, s, Poll);
    FetchSplits(c, log, 0, 0);
    FetchSplits(c, log, 0, 1);
    assert FetchFrom(c, log, 0) == 1;
    assert Missed(c, log, 0, 1) == {1};
  }

  // ---- resuming

  /** Splitting a log at a token: what is due up to it, and what a stream started there is due. */
  lemma {:induction false} KeptSplit(c: Config, log: seq<Entry>, lost: set<nat>, id: nat)
    requires Increasing(log) && c.start <= id
    ensures Kept(c, log, lost) == Kept(c, log[..UpTo(log, id)], lost) + Kept(c.(start := id), log, lost)
  {
    hide Passes;
    if log != [] {
      var n := |log| - 1;
      var front := log[..n];
      if log[n].opID > id {
        KeptSplit(c, front, lost, id);
        assert log[..UpTo(log, id)] == front[..UpTo(front, id)];
        var due := if Wanted(c, log[n]) && log[n].opID !in lost then [log[n]] else [];
        Regroup(Kept(c, front[..UpTo(front, id)], lost), Kept(c.(start := id), front, lost), due);
      } else {
        NothingAfter(c, log, lost, id);
        assert log[..|log|] == log;
      }
    }
  }

  lemma Regroup(a: seq<Entry>, b: seq<Entry>, d: seq<Entry>)
    ensures a + (b + d) == a + b + d
  {
  }

  lemma {:induction false} NothingAfter(c: Config, log: seq<Entry>, lost: set<nat>, id: nat)
    requires forall k :: 0 <= k < |log| ==> log[k].opID <= id
    ensures Kept(c.(start := id), log, lost) == []
  {
    if log != [] {
      NothingAfter(c, log[..|log| - 1], lost, id);
    }
  }

  /** In an increasing log, what was emitted up to an event is what is due up to its id. */
  lemma EmittedUpTo(c: Config, log: seq<Entry>, lost: set<nat>, m: nat)
    requires Increasing(log) && m < |Kept(c, log, lost)|
    ensures var id := Kept(c, log, lost)[m].opID; Kept(c, log[..UpTo(log, id)], lost) == Kept(c, log, lost)[..m + 1]
  {
    hide Kept, UpTo, Passes;
    var all := Kept(c, log, lost);
    var id := all[m].opID;
    KeptMembers(c, log, lost, all[m]);
    KeptSplit(c, log, lost, id);
    KeptIncreasing(c, log, lost);
    var p := UpTo(log, id);
    UpToSplits(log, id);
    var before, after := Kept(c, log[..p], lost), Kept(c.(start := id), log, lost);
    if m >= |before| {
      assert all[m] == after[m - |before|];
      KeptMembers(c.(start := id), log, lost, all[m]);
      assert false;
    }
    if m + 1 < |before| {
      assert all[m + 1] == before[m + 1];
      KeptMembers(c, log[..p], lost, before[m + 1]);
      assert false;
    }
  }

  lemma UpToPrefix(log: seq<Entry>, more: seq<Entry>, k: nat)
    requires Increasing(more) && log <= more && k < |log|
    ensures log[..UpTo(log, log[k].opID)] == more[..UpTo(more, log[k].opID)]
  {
    hide UpTo;
    var id := log[k].opID;
    assert Increasing(log);
    UpToSplits(log, id);
    UpToSplits(more, id);
    assert more[k].opID == id;
    SplitPoint(log, UpTo(log, id), k);
    SplitPoint(more, UpTo(more, id), k);
  }

  lemma SplitPoint(log: seq<Entry>, p: nat, k: nat)
    requires Increasing(log) && k < |log| && p <= |log|
    requires forall i :: 0 <= i < |log| ==> (log[i].opID <= log[k].opID <==> i < p)
    ensures p == k + 1
  {
    assert k < p by { assert log[k].opID <= log[k].opID; }
    assert k + 1 < |log| ==> log[k + 1].opID > log[k].opID;
  }

  /** What a stream has delivered up to some event is what is due up to its id in any longer log. */
  lemma DeliveredUpTo(c: Config, s: State, m: nat, log: seq<Entry>)
    requires Inv(c, s) && m < |s.delivered| && Increasing(log) && s.disk <= log
    ensures var id := s.delivered[m].opID;
      s.delivered[..m + 1] == Kept(c, log[..UpTo(log, id)], s.lost) && c.start <= id
  {
    hide Kept, UpTo, Passes, Behind;
    var seen := s.disk[..s.next];
    assert Emitted(s)[m] == s.delivered[m] && Emitted(s)[..m + 1] == s.delivered[..m + 1];
    assert Increasing(seen);
    EmittedUpTo(c, seen, s.lost, m);
    KeptMembers(c, seen, s.lost, s.delivered[m]);
    var k :| 0 <= k < |seen| && seen[k] == s.delivered[m];
    UpToPrefix(seen, log, k);
  }

  /** Taking the events of one stream up to some delivered one, and then those of a stream
      resumed from its token, gives every matching entry since the first start, none twice and
      none missing, exactly if the first has lost none up to that event and the second none at all. */
  lemma ResumeExact(c: Config, run: seq<State>, steps: seq<Step>, i: nat, m: nat, run2: seq<State>, steps2: seq<Step>, j: nat)
    requires IsRun(c, run, steps) && i < |run| && m < |run[i].delivered|
    requires var resumed := c.(start := run[i].delivered[m].opID);
      IsRun(resumed, run2, steps2) && j < |run2| && run2[j].next == run2[j].upto
    requires run2[j].upto <= |run2[j].disk| && run[i].disk <= run2[j].disk[..run2[j].upto]
    ensures var id := run[i].delivered[m].opID;
      run[i].delivered[..m + 1] + Emitted(run2[j]) == Kept(c, run2[j].disk[..run2[j].upto], {})
      <==> (forall x :: x in run[i].lost ==> x > id) && LosesNothing(c.(start := id), run2, steps2, j)
  {
    hide Kept, UpTo, LosesNothing, IsRun, Progress, Passes;
    var s, id, last := run[i], run[i].delivered[m].opID, run2[j];
    var resumed, log := c.(start := id), last.disk[..last.upto];
    RunInv(c, run, steps, i);
    RunInv(resumed, run2, steps2, j);
    assert Increasing(log);
    DeliveredUpTo(c, s, m, log);
    Complete(resumed, run2, steps2, j);
    KeptSplit(c, log, {}, id);
    var head := Kept(c, log[..UpTo(log, id)], {});
    LostUpTo(c, s, log, id);
    assert |s.delivered[..m + 1]| <= |head| by { KeptShrinks(c, log[..UpTo(log, id)], s.lost); }
    assert |Emitted(last)| <= |Kept(resumed, log, {})| by {
      EmittedIsKept(resumed, last);
      KeptShrinks(resumed, log, last.lost);
    }
    Apart(s.delivered[..m + 1], Emitted(last), head, Kept(resumed, log, {}));
  }

  lemma EmittedIsKept(c: Config, s: State)
    requires Inv(c, s)
    ensures Emitted(s) == Kept(c, s.disk[..s.next], s.lost)
  {
  }

  lemma Apart<T>(a: seq<T>, b: seq<T>, c: seq<T>, d: seq<T>)
    requires |a| <= |c| && |b| <= |d|
    ensures a + b == c + d <==> a == c && b == d
  {
    if a + b == c + d {
      assert |a| == |c| && |b| == |d|;
      assert a == (a + b)[..|a|] && c == (c + d)[..|c|];
      assert b == (a + b)[|a|..] && d == (c + d)[|c|..];
    }
  }

  lemma {:induction false} KeptShrinks(c: Config, log: seq<Entry>, lost: set<nat>)
    ensures |Kept(c, log, lost)| <= |Kept(c, log, {})|
  {
    if log != [] {
      KeptShrinks(c, log[..|log| - 1], lost);
    }
  }

  /** Up to an id the stream has kept everything exactly if it has lost nothing up to there. */
  lemma LostUpTo(c: Config, s: State, log: seq<Entry>, id: nat)
    requires Inv(c, s) && Increasing(log) && s.disk <= log
    ensures Kept(c, log[..UpTo(log, id)], s.lost) == Kept(c, log[..UpTo(log, id)], {}) <==> forall x :: x in s.lost ==> x > id
  {
    hide Kept, UpTo, Passes, Behind;
    UpToSplits(log, id);
    var head := log[..UpTo(log, id)];
    if forall x :: x in s.lost ==> x > id {
      KeptOtherLost(c, head, {}, s.lost);
      assert {} + s.lost == s.lost;
    } else {
      var x :| x in s.lost && x <= id;
      var k :| 0 <= k < s.next && s.disk[k].opID == x && LostAt(c, s, k);
      assert log[k] == s.disk[k] && head[k] == log[k];
      KeptMembers(c, head, s.lost, log[k]);
      KeptMembers(c, head, {}, log[k]);
    }
  }
}
