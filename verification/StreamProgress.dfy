/** The watcher of a change stream makes progress and drops events only under pressure. */
module StreamProgress {
  import opened Oplog
  import opened ChangeStream

  predicate ByWatcher(step: Step) { step.Poll? || step.Handle? || step.Retry? || step.GiveUp? }

  /** Whatever the log and the consumer do, the watcher always has a step to take. */
  lemma NeverStuck(c: Config, run: seq<State>, steps: seq<Step>, i: nat)
    requires IsRun(c, run, steps) && i < |run|
    ensures exists step :: ByWatcher(step) && Enabled(c, run[i], step)
  {
    hide Kept, Passes, Behind, Moves, Init, Progress;
    RunInv(c, run, steps, i);
    var s := run[i];
    var step := if s.waiting then GiveUp else if s.next == s.upto then Poll else Handle(false);
    assert ByWatcher(step) && Enabled(c, s, step);
  }

  /** The buffer never holds more than its capacity. */
  lemma {:induction false} BufferBounded(c: Config, run: seq<State>, steps: seq<Step>, i: nat)
    requires IsRun(c, run, steps) && i < |run|
    ensures |run[i].buffer| <= c.capacity
  {
    hide FetchFrom, Missed, Passes;
    if i > 0 {
      var h := i - 1;
      assert i == h + 1 && Moves(c, run[h], steps[h], run[i]);
      BufferBounded(c, run, steps, h);
    }
  }

  /** The watcher found the buffer full when it came to the entry it is at. */
  ghost predicate CameToFull(c: Config, run: seq<State>, steps: seq<Step>, i: nat, h: nat)
    requires i < |run| == |steps| + 1
  {
    h < i && steps[h] == Handle(false) && run[h].next == run[i].next && |run[h].buffer| == c.capacity
  }

  lemma {:induction false} WaitsIfFull(c: Config, run: seq<State>, steps: seq<Step>, i: nat)
    requires IsRun(c, run, steps) && i < |run| && run[i].waiting
    ensures exists h :: CameToFull(c, run, steps, i, h)
  {
    hide FetchFrom, Missed, Passes;
    var h := i - 1;
    assert i == h + 1 && Moves(c, run[h], steps[h], run[i]);
    if run[h].waiting {
      WaitsIfFull(c, run, steps, h);
      var g :| CameToFull(c, run, steps, h, g);
      assert CameToFull(c, run, steps, i, g);
    } else {
      BufferBounded(c, run, steps, h);
      assert CameToFull(c, run, steps, i, h);
    }
  }

  /** An event is given up only if the buffer was full when its turn came. */
  lemma GivenUpIfFull(c: Config, run: seq<State>, steps: seq<Step>, i: nat)
    requires IsRun(c, run, steps) && i < |steps| && steps[i] == GiveUp
    ensures exists h :: CameToFull(c, run, steps, i, h)
  {
    hide Next;
    var j := i + 1;
    assert Moves(c, run[i], steps[i], run[j]);
    WaitsIfFull(c, run, steps, i);
  }

  /** How many entries the watcher takes up from step `a` to before `b`. */
  ghost function TakenUp(steps: seq<Step>, a: nat, b: nat): nat
    requires a <= b <= |steps|
    decreases b
  {
    if a == b then 0 else TakenUp(steps, a, b - 1) + if steps[b - 1].Handle? then 1 else 0
  }

  lemma {:induction false} TakesUpInTurn(c: Config, run: seq<State>, steps: seq<Step>, a: nat, b: nat)
    requires IsRun(c, run, steps) && a < b < |run| && steps[a] == Poll && forall m :: a < m < b ==> steps[m] != Poll
    ensures run[b].upto == run[a + 1].upto
    ensures At(run[b]) == run[a + 1].next + TakenUp(steps, a + 1, b)
    decreases b
  {
    hide FetchFrom, Missed, Passes, Next, Enabled;
    var h := b - 1;
    assert b == h + 1 && Moves(c, run[h], steps[h], run[b]);
    StepTakesUp(c, run[h], steps[h]);
    if h > a {
      TakesUpInTurn(c, run, steps, a, h);
    }
  }

  function At(s: State): nat { s.next + if s.waiting then 1 else 0 }

  lemma StepTakesUp(c: Config, s: State, step: Step)
    requires Enabled(c, s, step)
    ensures var t := Next(c, s, step);
      && (step == Poll ==> !t.waiting)
      && (step != Poll ==> t.upto == s.upto && At(t) == At(s) + if step.Handle? then 1 else 0)
  {
  }

  /** Between two polls the watcher takes up each entry it has fetched, exactly once. */
  lemma PollsAreHandled(c: Config, run: seq<State>, steps: seq<Step>, a: nat, b: nat)
    requires IsRun(c, run, steps) && a < b < |steps| && steps[a] == Poll && steps[b] == Poll
    requires forall m :: a < m < b ==> steps[m] != Poll
    ensures TakenUp(steps, a + 1, b) == run[a + 1].upto - run[a + 1].next
  {
    hide FetchFrom, Missed, Passes;
    var j := b + 1;
    assert Moves(c, run[b], steps[b], run[j]);
    TakesUpInTurn(c, run, steps, a, b);
  }
}
