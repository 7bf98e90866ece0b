/** One Execute started in Init, for every schedule of votes, errors and replies. */
module TwoPhaseExecute {
  import opened Options
  import opened TwoPhaseCommit

  ghost predicate Distinct(log: seq<Msg>) {
    forall i, j :: 0 <= i < j < |log| ==> log[i] != log[j]
  }

  /** No prepare is sent after the second phase has begun. */
  ghost predicate Phased(log: seq<Msg>) {
    forall i, j :: 0 <= i < j < |log| && log[j].kind == Prepare ==> log[i].kind == Prepare
  }

  ghost predicate OnlyKinds(log: seq<Msg>, a: Kind, b: Kind) {
    forall m :: m in log ==> m.kind == a || m.kind == b
  }

  /** Exactly the participants called so far in this phase have received its message. */
  ghost predicate SentTo(log: seq<Msg>, ph: Phase) {
    forall p :: Msg(ph.kind, p) in log <==> p in ph.status && !ph.status[p].Pending?
  }

  ghost predicate AllPrepared(log: seq<Msg>, ps: set<Pid>) {
    forall p :: Msg(Prepare, p) in log <==> p in ps
  }

  /** The record a participant has at each point of a phase it entered with `before`. */
  ghost predicate RecordFits(kind: Kind, pr: Progress, before: Record, rec: Record) {
    match pr
    case Pending => rec == before
    case Replied(_) => rec == before
    case Posted(r) => rec == Updated(kind, before, r)
    case Collected(r) => rec == Updated(kind, before, r)
  }

  ghost predicate Ready(s: State, ps: set<Pid>) {
    && s.coord == Init && s.phase == None && s.log == [] && s.records.Keys == ps
    && forall p :: p in ps ==> s.records[p] == Record(PInit, false)
  }

  function Adding(ps: seq<Pid>): seq<Action> {
    if ps == [] then [] else [AddParticipant(ps[0])] + Adding(ps[1..])
  }

  /** Adding participants one by one, repeated ones being refused, gathers exactly them. */
  lemma {:induction false} AddingGathers(s: State, have: set<Pid>, ps: seq<Pid>)
    requires Ready(s, have)
    ensures Legal(s, Adding(ps)) && Ready(Run(s, Adding(ps)), have + set p | p in ps)
    decreases |ps|
  {
    if ps == [] {
      assert have + (set p | p in ps) == have;
    } else {
      var s' := Next(s, AddParticipant(ps[0]));
      assert Ready(s', have + {ps[0]});
      AddingGathers(s', have + {ps[0]}, ps[1..]);
      assert Adding(ps)[1..] == Adding(ps[1..]);
      assert (set p | p in ps) == {ps[0]} + (set p | p in ps[1..]);
      assert have + {ps[0]} + (set p | p in ps[1..]) == have + set p | p in ps;
    }
  }

  /** A new coordinator is ready for Execute once its participants have been added. */
  lemma StartGathers(s: State, ps: seq<Pid>)
    requires Start(s)
    ensures Legal(s, Adding(ps)) && Inv(Run(s, Adding(ps))) && Ready(Run(s, Adding(ps)), set p | p in ps)
  {
    AddingGathers(s, {}, ps);
    StartInv(s);
    RunStaysCommitted(s, Adding(ps));
    assert {} + (set p | p in ps) == set p | p in ps;
  }

  ghost predicate InPhase(s: State, ps: set<Pid>, kind: Kind) {
    && s.phase.Some? && s.phase.value.kind == kind && s.phase.value.inExecute
    && s.phase.value.status.Keys == ps && s.records.Keys == ps
    && s.coord == CoordIn(kind)
    && Distinct(s.log) && Phased(s.log) && OnlyKinds(s.log, Prepare, kind) && SentTo(s.log, s.phase.value)
  }

  ghost predicate Voting(s: State, ps: set<Pid>) {
    && InPhase(s, ps, Prepare)
    && forall p :: p in ps ==> RecordFits(Prepare, s.phase.value.status[p], Record(PInit, false), s.records[p])
  }

  /** Commit is being sent: every participant voted yes without error. */
  ghost predicate CommitPhase(s: State, ps: set<Pid>) {
    && InPhase(s, ps, Commit) && AllPrepared(s.log, ps) && s.votes.Keys == ps && AllYes(s.votes)
    && forall p :: p in ps ==> RecordFits(Commit, s.phase.value.status[p], Record(PPrepared, true), s.records[p])
  }

  ghost predicate AbortPhase(s: State, ps: set<Pid>) {
    && InPhase(s, ps, Abort) && AllPrepared(s.log, ps) && s.votes.Keys == ps && !AllYes(s.votes)
    && forall p :: p in ps && Answered(s.phase.value, p) ==> s.records[p].state == PAborted
  }

  ghost predicate Over(s: State, ps: set<Pid>, kind: Kind) {
    && s.phase == None && s.records.Keys == ps
    && Distinct(s.log) && Phased(s.log) && OnlyKinds(s.log, Prepare, kind) && AllPrepared(s.log, ps)
    && (forall p :: Msg(kind, p) in s.log <==> p in ps)
    && s.votes.Keys == ps
  }

  /** Success: everyone voted yes, everyone was told to commit and did. */
  ghost predicate DoneCommitted(s: State, ps: set<Pid>) {
    && Over(s, ps, Commit) && s.result == Ok && s.coord == Committed && AllYes(s.votes)
    && s.acks.Keys == ps && NoErrors(s.acks)
    && forall p :: p in ps ==> s.records[p].state == PCommitted
  }

  /** Someone refused or failed to prepare: everyone was told to abort, no one to commit. */
  ghost predicate DoneAborted(s: State, ps: set<Pid>) {
    && Over(s, ps, Abort) && s.result == PrepareFailed && s.coord == Aborted && !AllYes(s.votes)
    && forall p :: p in ps ==> s.records[p].state == PAborted
  }

  /** A commit failed: exactly the participants that reported no error are committed,
      the others stay prepared, and no one is told to abort. */
  ghost predicate DoneMixed(s: State, ps: set<Pid>) {
    && Over(s, ps, Commit) && s.result == CommitFailed && s.coord == Aborted && AllYes(s.votes)
    && s.acks.Keys == ps && !NoErrors(s.acks)
    && forall p :: p in ps ==> s.records[p].state == if s.acks[p].err then PPrepared else PCommitted
  }

  ghost predicate ExecInv(s: State, ps: set<Pid>) {
    || Voting(s, ps) || CommitPhase(s, ps) || AbortPhase(s, ps)
    || DoneCommitted(s, ps) || DoneAborted(s, ps) || DoneMixed(s, ps)
  }

  predicate Internal(a: Action) { a.Send? || a.Update? || a.Collect? || a.Finish? }

  lemma SendKeepsPhase(s: State, ps: set<Pid>, kind: Kind, p: Pid, reply: Reply)
    requires InPhase(s, ps, kind) && Enabled(s, Send(p, reply))
    requires kind == Prepare || AllPrepared(s.log, ps)
    ensures InPhase(Next(s, Send(p, reply)), ps, kind)
    ensures kind == Prepare || AllPrepared(Next(s, Send(p, reply)).log, ps)
  {
    var s' := Next(s, Send(p, reply));
    assert Msg(kind, p) !in s.log;
    assert s'.log == s.log + [Msg(kind, p)];
    assert forall m :: m in s'.log <==> m in s.log || m == Msg(kind, p);
  }

  lemma KeepsPhase(s: State, ps: set<Pid>, kind: Kind, a: Action)
    requires InPhase(s, ps, kind) && Enabled(s, a) && Internal(a) && !a.Finish?
    requires kind == Prepare || AllPrepared(s.log, ps)
    ensures InPhase(Next(s, a), ps, kind) && Next(s, a).votes == s.votes
    ensures kind == Prepare || AllPrepared(Next(s, a).log, ps)
  {
    if a.Send? {
      SendKeepsPhase(s, ps, kind, a.p, a.reply);
    }
  }

  ghost predicate AllFit(s: State, kind: Kind, before: Record) {
    s.phase.Some? && forall p :: p in s.records && p in s.phase.value.status ==> RecordFits(kind, s.phase.value.status[p], before, s.records[p])
  }

  lemma KeepsFit(s: State, kind: Kind, before: Record, a: Action)
    requires s.phase.Some? && s.phase.value.kind == kind && Enabled(s, a) && Internal(a) && !a.Finish?
    requires AllFit(s, kind, before)
    ensures AllFit(Next(s, a), kind, before)
  {
  }

  ghost predicate AnsweredAborted(s: State) {
    s.phase.Some? && forall p :: p in s.records && Answered(s.phase.value, p) ==> s.records[p].state == PAborted
  }

  lemma KeepsAborted(s: State, a: Action)
    requires s.phase.Some? && s.phase.value.kind == Abort && Enabled(s, a) && Internal(a) && !a.Finish?
    requires AnsweredAborted(s)
    ensures AnsweredAborted(Next(s, a))
  {
  }

  /** Calls, record updates and collections stay within their phase. */
  lemma PhaseStep(s: State, ps: set<Pid>, a: Action)
    requires Voting(s, ps) || CommitPhase(s, ps) || AbortPhase(s, ps)
    requires Enabled(s, a) && Internal(a) && !a.Finish?
    ensures ExecInv(Next(s, a), ps)
  {
    hide InPhase;
    KeepsPhase(s, ps, if Voting(s, ps) then Prepare else if CommitPhase(s, ps) then Commit else Abort, a);
    if Voting(s, ps) {
      KeepsFit(s, Prepare, Record(PInit, false), a);
    } else if CommitPhase(s, ps) {
      KeepsFit(s, Commit, Record(PPrepared, true), a);
    } else {
      KeepsAborted(s, a);
    }
  }

  // ---- the end of a phase

  lemma VotesIn(s: State, ps: set<Pid>)
    requires Voting(s, ps) && Enabled(s, Finish)
    ensures ExecInv(Next(s, Finish), ps)
  {
    hide Voting, CommitPhase, AbortPhase, DoneCommitted, DoneAborted, DoneMixed, Next, AllYes;
    if AllYes(Replies(s.phase.value)) {
      EntersCommit(s, ps);
    } else {
      EntersAbort(s, ps);
    }
  }

  lemma EntersCommit(s: State, ps: set<Pid>)
    requires Voting(s, ps) && Enabled(s, Finish) && AllYes(Replies(s.phase.value))
    ensures CommitPhase(Next(s, Finish), ps)
  {
    hide Distinct, Phased;
    var ph := s.phase.value;
    var replies := Replies(ph);
    assert replies.Keys == ps;
    forall p | p in ps ensures s.records[p] == Record(PPrepared, true) {
      assert replies[p] == ph.status[p].reply;
    }
  }

  lemma EntersAbort(s: State, ps: set<Pid>)
    requires Voting(s, ps) && Enabled(s, Finish) && !AllYes(Replies(s.phase.value))
    ensures AbortPhase(Next(s, Finish), ps)
  {
    hide Distinct, Phased;
    assert Replies(s.phase.value).Keys == ps;
  }

  /** A finished phase has reached every participant. */
  lemma PhaseReachedAll(s: State, ps: set<Pid>, kind: Kind, s': State)
    requires InPhase(s, ps, kind) && kind != Prepare && AllPrepared(s.log, ps) && s.votes.Keys == ps
    requires AllCollected(s.phase.value)
    requires s'.phase == None && s'.records == s.records && s'.log == s.log && s'.votes == s.votes
    ensures Over(s', ps, kind)
  {
  }

  lemma CommitsIn(s: State, ps: set<Pid>)
    requires CommitPhase(s, ps) && Enabled(s, Finish)
    ensures ExecInv(Next(s, Finish), ps)
  {
    hide Over, Distinct, Phased, OnlyKinds, SentTo, AllPrepared, Voting, AbortPhase, DoneAborted, RecordFits;
    var s' := Next(s, Finish);
    var acks := Replies(s.phase.value);
    PhaseReachedAll(s, ps, Commit, s');
    forall p | p in ps ensures s.records[p].state == if acks[p].err then PPrepared else PCommitted {
      AckFits(s, ps, p);
    }
    assert if NoErrors(acks) then DoneCommitted(s', ps) else DoneMixed(s', ps);
  }

  lemma AckFits(s: State, ps: set<Pid>, p: Pid)
    requires CommitPhase(s, ps) && Enabled(s, Finish) && p in ps
    ensures p in Replies(s.phase.value) && p in s.records
    ensures s.records[p].state == if Replies(s.phase.value)[p].err then PPrepared else PCommitted
  {
    hide Distinct, Phased, OnlyKinds, SentTo, AllPrepared;
    assert Replies(s.phase.value)[p] == s.phase.value.status[p].reply;
  }

  lemma AbortsIn(s: State, ps: set<Pid>)
    requires AbortPhase(s, ps) && Enabled(s, Finish)
    ensures ExecInv(Next(s, Finish), ps)
  {
    PhaseReachedAll(s, ps, Abort, Next(s, Finish));
    assert forall p :: p in ps ==> Answered(s.phase.value, p);
  }

  lemma ExecStep(s: State, ps: set<Pid>, a: Action)
    requires ExecInv(s, ps) && Enabled(s, a) && Internal(a)
    ensures ExecInv(Next(s, a), ps)
  {
    if !a.Finish? {
      PhaseStep(s, ps, a);
    } else if Voting(s, ps) {
      VotesIn(s, ps);
    } else if CommitPhase(s, ps) {
      CommitsIn(s, ps);
    } else {
      AbortsIn(s, ps);
    }
  }

  /** One Execute: the call itself, then any schedule of the goroutines and the collector. */
  ghost predicate ExecSchedule(actions: seq<Action>) {
    |actions| > 0 && actions[0] == CallExecute && forall i :: 0 < i < |actions| ==> Internal(actions[i])
  }

  lemma {:induction false} ScheduleKeepsInv(s: State, ps: set<Pid>, actions: seq<Action>)
    requires ExecInv(s, ps) && Legal(s, actions)
    requires forall i :: 0 <= i < |actions| ==> Internal(actions[i])
    ensures ExecInv(Run(s, actions), ps)
    decreases |actions|
  {
    if actions != [] {
      ExecStep(s, ps, actions[0]);
      ScheduleKeepsInv(Next(s, actions[0]), ps, actions[1..]);
    }
  }

  /** At every moment of every schedule Execute is in one of six situations; in particular
      phases never overlap, each participant gets at most one message per phase, Commit is
      sent only after every participant voted yes without error, and Commit and Abort are
      never both sent.  Once it returns, the outcome is one of the three `Done` cases. */
  lemma ExecuteOutcome(s: State, ps: set<Pid>, actions: seq<Action>)
    requires Ready(s, ps) && Legal(s, actions) && ExecSchedule(actions)
    ensures ExecInv(Run(s, actions), ps)
    ensures Run(s, actions).phase.None? ==>
      DoneCommitted(Run(s, actions), ps) || DoneAborted(Run(s, actions), ps) || DoneMixed(Run(s, actions), ps)
  {
    var s1 := Next(s, CallExecute);
    assert Voting(s1, ps);
    ScheduleKeepsInv(s1, ps, actions[1..]);
  }

  /** The messages of a run in any of those situations never mix Commit with Abort, and
      contain a Commit only if everyone voted yes. */
  lemma NeverBoth(s: State, ps: set<Pid>, p: Pid, q: Pid)
    requires ExecInv(s, ps)
    ensures !(Msg(Commit, p) in s.log && Msg(Abort, q) in s.log)
    ensures Msg(Commit, p) in s.log ==> s.votes.Keys == ps && AllYes(s.votes) && AllPrepared(s.log, ps)
    ensures s.result == Ok && s.phase.None? ==> s.coord == Committed && AllCommitted(s)
  {
  }

  // ---- every schedule ends

  function Steps(pr: Progress): nat {
    match pr case Pending => 3 case Replied(_) => 2 case Posted(_) => 1 case Collected(_) => 0
  }

  /** The steps the goroutines and the collector have left in a phase. */
  ghost function Work(status: map<Pid, Progress>, ps: set<Pid>): nat
    requires ps <= status.Keys
  {
    if ps == {} then 0 else var p :| p in ps; Steps(status[p]) + Work(status, ps - {p})
  }

  lemma {:induction false} WorkOf(status: map<Pid, Progress>, ps: set<Pid>, p: Pid)
    requires ps <= status.Keys && p in ps
    ensures Work(status, ps) == Steps(status[p]) + Work(status, ps - {p})
    decreases ps
  {
    var q :| q in ps && Work(status, ps) == Steps(status[q]) + Work(status, ps - {q});
    if q != p {
      WorkOf(status, ps - {q}, p);
      WorkOf(status, ps - {p}, q);
      assert ps - {q} - {p} == ps - {p} - {q};
    }
  }

  lemma {:induction false} WorkElsewhere(status: map<Pid, Progress>, ps: set<Pid>, p: Pid, to: Progress)
    requires ps <= status.Keys && p !in ps
    ensures Work(status[p := to], ps) == Work(status, ps)
    decreases ps
  {
    if ps != {} {
      var q :| q in ps;
      WorkOf(status, ps, q);
      WorkOf(status[p := to], ps, q);
      WorkElsewhere(status, ps - {q}, p, to);
    }
  }

  lemma {:induction false} WorkBounds(status: map<Pid, Progress>, ps: set<Pid>)
    requires ps <= status.Keys
    ensures Work(status, ps) == 0 <==> forall p :: p in ps ==> status[p].Collected?
    ensures (forall p :: p in ps ==> status[p].Pending?) ==> Work(status, ps) == 3 * |ps|
    decreases ps
  {
    if ps != {} {
      var q :| q in ps;
      WorkOf(status, ps, q);
      WorkBounds(status, ps - {q});
    }
  }

  /** How many steps an Execute over `n` participants has left. */
  ghost function Remaining(s: State, n: nat): nat {
    match s.phase
    case None => 0
    case Some(ph) => Work(ph.status, ph.status.Keys) + 1 + if ph.kind == Prepare then 3 * n + 1 else 0
  }

  lemma MoveRemaining(s: State, n: nat, p: Pid, to: Progress)
    requires Has(s, p) && Steps(s.phase.value.status[p]) == Steps(to) + 1
    ensures Remaining(s, n) == 1 + Remaining(Advance(s, p, to), n)
  {
    var status := s.phase.value.status;
    assert status[p := to].Keys == status.Keys;
    WorkOf(status, status.Keys, p);
    WorkOf(status[p := to], status.Keys, p);
    WorkElsewhere(status, status.Keys - {p}, p, to);
  }

  lemma StepRemaining(s: State, ps: set<Pid>, a: Action)
    requires ExecInv(s, ps) && Enabled(s, a) && Internal(a)
    ensures Remaining(s, |ps|) == 1 + Remaining(Next(s, a), |ps|)
  {
    hide Voting, CommitPhase, AbortPhase, DoneCommitted, DoneAborted, DoneMixed, Work;
    match a
    case Send(p, reply) => MoveRemaining(s, |ps|, p, Replied(reply));
    case Update(p) => MoveRemaining(s, |ps|, p, Posted(s.phase.value.status[p].reply));
    case Collect(p) => MoveRemaining(s, |ps|, p, Collected(s.phase.value.status[p].reply));
    case Finish =>
      KeysFixed(s, ps);
      var ph := s.phase.value;
      WorkBounds(ph.status, ps);
      if ph.kind == Prepare {
        var status := Next(s, a).phase.value.status;
        assert status.Keys == ps;
        WorkBounds(status, ps);
      }
  }

  lemma KeysFixed(s: State, ps: set<Pid>)
    requires ExecInv(s, ps) && s.phase.Some?
    ensures s.phase.value.status.Keys == ps == s.records.Keys && s.phase.value.inExecute
  {
  }

  /** As long as it has not returned, Execute can go on. */
  lemma CanGoOn(s: State, ps: set<Pid>)
    requires ExecInv(s, ps) && s.phase.Some?
    ensures exists a :: Internal(a) && Enabled(s, a)
  {
    KeysFixed(s, ps);
    var ph := s.phase.value;
    if AllCollected(ph) {
      assert Internal(Finish) && Enabled(s, Finish);
    } else {
      var p :| p in ph.status && !ph.status[p].Collected?;
      var a := match ph.status[p] case Pending => Send(p, Reply(true, false)) case Replied(_) => Update(p) case _ => Collect(p);
      assert Internal(a) && Enabled(s, a);
    }
  }

  lemma {:induction false} ScheduleRemaining(s: State, ps: set<Pid>, actions: seq<Action>)
    requires ExecInv(s, ps) && Legal(s, actions)
    requires forall i :: 0 <= i < |actions| ==> Internal(actions[i])
    ensures Remaining(s, |ps|) == |actions| + Remaining(Run(s, actions), |ps|)
    decreases |actions|
  {
    hide ExecInv, Next;
    if actions != [] {
      ExecStep(s, ps, actions[0]);
      StepRemaining(s, ps, actions[0]);
      ScheduleRemaining(Next(s, actions[0]), ps, actions[1..]);
    }
  }

  /** Every schedule of an Execute over n participants can go on until it has taken exactly
      6n + 3 steps, and then Execute has returned. */
  lemma ExecuteEnds(s: State, ps: set<Pid>, actions: seq<Action>)
    requires Ready(s, ps) && Legal(s, actions) && ExecSchedule(actions)
    ensures |actions| <= 6 * |ps| + 3
    ensures Run(s, actions).phase.None? <==> |actions| == 6 * |ps| + 3
    ensures Run(s, actions).phase.Some? <==> exists a :: Internal(a) && Enabled(Run(s, actions), a)
  {
    hide ExecInv, Next, Ready, Remaining;
    StartsRemaining(s, ps);
    var s1 := Next(s, CallExecute);
    var t := Run(s1, actions[1..]);
    ScheduleRemaining(s1, ps, actions[1..]);
    ScheduleKeepsInv(s1, ps, actions[1..]);
    RemainingOver(t, |ps|);
    if t.phase.Some? {
      CanGoOn(t, ps);
    }
  }

  lemma StartsRemaining(s: State, ps: set<Pid>)
    requires Ready(s, ps)
    ensures ExecInv(Next(s, CallExecute), ps) && Remaining(Next(s, CallExecute), |ps|) == 6 * |ps| + 2
  {
    var s1 := Next(s, CallExecute);
    assert Voting(s1, ps);
    WorkBounds(s1.phase.value.status, ps);
  }

  lemma RemainingOver(s: State, n: nat)
    ensures s.phase.None? <==> Remaining(s, n) == 0
  {
  }

  // ---- the outcome in terms of the replies

  /** What `p` replied to the calls it received, in order. */
  ghost function RepliesOf(actions: seq<Action>, p: Pid): seq<Reply> {
    if actions == [] then []
    else
      var n := |actions| - 1;
      RepliesOf(actions[..n], p) + if actions[n].Send? && actions[n].p == p then [actions[n].reply] else []
  }

  lemma RepliesGrow(past: seq<Action>, a: Action, p: Pid)
    ensures RepliesOf(past + [a], p) == if a.Send? && a.p == p then RepliesOf(past, p) + [a.reply] else RepliesOf(past, p)
  {
    assert (past + [a])[..|past|] == past;
  }

  ghost predicate HeardFrom(ph: Phase, votes: map<Pid, Reply>, p: Pid, replies: seq<Reply>)
    requires p in ph.status
  {
    if ph.kind == Prepare then replies == if ph.status[p].Pending? then [] else [ph.status[p].reply]
    else p in votes && replies == if ph.status[p].Pending? then [votes[p]] else [votes[p], ph.status[p].reply]
  }

  /** The coordinator's view holds exactly the replies received so far. */
  ghost predicate Heard(s: State, ps: set<Pid>, past: seq<Action>) {
    match s.phase
    case Some(ph) => forall p :: p in ps && p in ph.status ==> HeardFrom(ph, s.votes, p, RepliesOf(past, p))
    case None =>
      forall p :: p in ps ==>
        && p in s.votes && |RepliesOf(past, p)| == 2 && RepliesOf(past, p)[0] == s.votes[p]
        && (s.result != PrepareFailed ==> p in s.acks && s.acks[p] == RepliesOf(past, p)[1])
  }

  lemma HeardSend(s: State, ps: set<Pid>, past: seq<Action>, a: Action)
    requires s.phase.Some? && s.phase.value.status.Keys == ps && Heard(s, ps, past) && Enabled(s, a) && Internal(a) && !a.Finish?
    ensures Heard(Next(s, a), ps, past + [a])
  {
    hide RepliesOf;
    var ph, t := s.phase.value, Next(s, a);
    forall p | p in ps ensures HeardFrom(t.phase.value, t.votes, p, RepliesOf(past + [a], p)) {
      RepliesGrow(past, a, p);
      assert HeardFrom(ph, s.votes, p, RepliesOf(past, p));
    }
  }

  lemma HeardFinish(s: State, ps: set<Pid>, past: seq<Action>)
    requires s.phase.Some? && s.phase.value.status.Keys == ps == s.records.Keys && s.phase.value.inExecute
    requires Heard(s, ps, past) && Enabled(s, Finish)
    ensures Heard(Next(s, Finish), ps, past + [Finish])
  {
    hide RepliesOf;
    var ph := s.phase.value;
    forall p | p in ps
      ensures RepliesOf(past + [Finish], p) == RepliesOf(past, p) && HeardFrom(ph, s.votes, p, RepliesOf(past, p))
      ensures Replies(ph)[p] == ph.status[p].reply
    {
      RepliesGrow(past, Finish, p);
    }
  }

  lemma {:induction false} HeardKept(s: State, ps: set<Pid>, past: seq<Action>, actions: seq<Action>)
    requires ExecInv(s, ps) && Heard(s, ps, past) && Legal(s, actions)
    requires forall i :: 0 <= i < |actions| ==> Internal(actions[i])
    ensures Heard(Run(s, actions), ps, past + actions)
    decreases |actions|
  {
    hide ExecInv, Heard, Next;
    if actions == [] {
      assert past + actions == past;
    } else {
      var a := actions[0];
      InsidePhase(s, ps, a);
      KeysFixed(s, ps);
      ExecStep(s, ps, a);
      if a.Finish? {
        HeardFinish(s, ps, past);
      } else {
        HeardSend(s, ps, past, a);
      }
      HeardKept(Next(s, a), ps, past + [a], actions[1..]);
      assert past + [a] + actions[1..] == past + actions;
    }
  }

  lemma InsidePhase(s: State, ps: set<Pid>, a: Action)
    requires Enabled(s, a) && Internal(a)
    ensures s.phase.Some?
  {
  }

  /** What an Execute that has returned comes to, from the replies alone, for participants of any
      kind: each is called twice; success means that everyone voted yes without error and then
      committed without error; without unanimous votes everyone ends up aborted, and with them
      exactly those are committed that reported no error. */
  lemma RepliesDecide(s: State, ps: set<Pid>, actions: seq<Action>)
    requires Ready(s, ps) && Legal(s, actions) && ExecSchedule(actions) && Run(s, actions).phase.None?
    ensures forall p :: p in ps ==> |RepliesOf(actions, p)| == 2
    ensures var t := Run(s, actions);
      var unanimous := forall p :: p in ps ==> RepliesOf(actions, p)[0] == Reply(true, false);
      && t.records.Keys == ps
      && (t.result == PrepareFailed <==> !unanimous)
      && (t.result == Ok <==> unanimous && forall p :: p in ps ==> !RepliesOf(actions, p)[1].err)
      && (t.coord == Committed <==> t.result == Ok)
      && forall p :: p in ps ==>
           t.records[p].state ==
             if !unanimous then PAborted else if RepliesOf(actions, p)[1].err then PPrepared else PCommitted
  {
    hide RepliesOf, ExecInv, Next, DoneCommitted, DoneAborted, DoneMixed, Heard;
    var s1, t := Next(s, CallExecute), Run(s, actions);
    ExecuteOutcome(s, ps, actions);
    StartsRemaining(s, ps);
    HeardStarts(s, ps);
    HeardKept(s1, ps, [CallExecute], actions[1..]);
    assert [CallExecute] + actions[1..] == actions;
    HeardEnds(t, ps, actions);
  }

  lemma HeardStarts(s: State, ps: set<Pid>)
    requires Ready(s, ps)
    ensures Heard(Next(s, CallExecute), ps, [CallExecute])
  {
    assert [CallExecute][..0] == [];
  }

  lemma HeardEnds(t: State, ps: set<Pid>, actions: seq<Action>)
    requires (DoneCommitted(t, ps) || DoneAborted(t, ps) || DoneMixed(t, ps)) && Heard(t, ps, actions)
    ensures forall p :: p in ps ==> |RepliesOf(actions, p)| == 2
    ensures var unanimous := forall p :: p in ps ==> RepliesOf(actions, p)[0] == Reply(true, false);
      && t.records.Keys == ps
      && (t.result == PrepareFailed <==> !unanimous)
      && (t.result == Ok <==> unanimous && forall p :: p in ps ==> !RepliesOf(actions, p)[1].err)
      && (t.coord == Committed <==> t.result == Ok)
      && forall p :: p in ps ==>
           t.records[p].state ==
             if !unanimous then PAborted else if RepliesOf(actions, p)[1].err then PPrepared else PCommitted
  {
    hide RepliesOf, Distinct, Phased, OnlyKinds, AllPrepared;
  }
}
