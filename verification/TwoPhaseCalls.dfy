/** Prepare, Commit and Abort called on their own: what each comes to, from the replies alone. */
module TwoPhaseCalls {
  import opened Options
  import opened TwoPhaseCommit
  import opened TwoPhaseExecute

  function CallOf(kind: Kind): Action {
    match kind case Prepare => CallPrepare case Commit => CallCommit case Abort => CallAbort
  }

  /** The coordinator takes the call. */
  predicate Accepts(s: State, kind: Kind) {
    match kind case Prepare => s.coord == Init case Commit => s.coord == Preparing case Abort => s.coord != Committed
  }

  /** Within the phase of the call: each participant has been called at most once, its progress
      holds its reply, and its record is as before or updated by it. */
  ghost predicate Calling(s0: State, s: State, kind: Kind, ex: bool, past: seq<Action>) {
    && s.phase.Some? && s.phase.value.kind == kind && s.phase.value.inExecute == ex && (ex ==> kind == Abort) && s.coord == CoordIn(kind)
    && s.phase.value.status.Keys == s.records.Keys == s0.records.Keys
    && forall p :: p in s.records ==> CalledOnce(s.phase.value.status[p], kind, s0.records[p], s.records[p], RepliesOf(past, p))
  }

  ghost predicate CalledOnce(pr: Progress, kind: Kind, before: Record, rec: Record, replies: seq<Reply>) {
    && replies == (if pr.Pending? then [] else [pr.reply])
    && RecordFits(kind, pr, before, rec)
  }

  /** What a participant's record becomes by its reply. */
  ghost predicate RecordAfter(kind: Kind, before: Record, reply: Reply, rec: Record) {
    match kind
    case Prepare => rec == if reply.err then before else if reply.vote then Record(PPrepared, true) else Record(before.state, false)
    case Commit => rec == if reply.err then before else Record(PCommitted, before.vote)
    case Abort => rec == Record(PAborted, before.vote)
  }

  /** The call has returned. */
  ghost predicate Returned(s0: State, s: State, kind: Kind, ex: bool, past: seq<Action>) {
    && s.phase.None? && s.records.Keys == s0.records.Keys
    && (forall p :: p in s.records ==>
          |RepliesOf(past, p)| == 1 && RecordAfter(kind, s0.records[p], RepliesOf(past, p)[0], s.records[p]))
    && var clean := forall p :: p in s.records ==> !RepliesOf(past, p)[0].err;
       match kind
       case Prepare =>
         && s.coord == Preparing
         && s.result == if forall p :: p in s.records ==> RepliesOf(past, p)[0] == Reply(true, false) then Ok else PrepareFailed
       case Commit => s.coord == (if clean then Committed else Aborted) && s.result == if clean then Ok else CommitFailed
       case Abort => s.coord == Aborted && s.result == if ex then PrepareFailed else if clean then Ok else AbortFailed
  }

  lemma CallingStep(s0: State, s: State, kind: Kind, ex: bool, past: seq<Action>, a: Action)
    requires Calling(s0, s, kind, ex, past) && Enabled(s, a) && Internal(a) && !a.Finish?
    ensures Calling(s0, Next(s, a), kind, ex, past + [a])
  {
    hide RepliesOf, CalledOnce, Updated;
    var t := Next(s, a);
    forall p | p in t.records
      ensures CalledOnce(t.phase.value.status[p], kind, s0.records[p], t.records[p], RepliesOf(past + [a], p))
    {
      OneStep(s, kind, s0.records[p], past, a, p);
    }
  }

  lemma OneStep(s: State, kind: Kind, before: Record, past: seq<Action>, a: Action, p: Pid)
    requires Has(s, p) && s.phase.value.kind == kind && Enabled(s, a) && Internal(a) && !a.Finish?
    requires CalledOnce(s.phase.value.status[p], kind, before, s.records[p], RepliesOf(past, p))
    ensures var t := Next(s, a);
      Has(t, p) && CalledOnce(t.phase.value.status[p], kind, before, t.records[p], RepliesOf(past + [a], p))
  {
    hide RepliesOf, Updated;
    RepliesGrow(past, a, p);
  }

  lemma CallingEnds(s0: State, s: State, kind: Kind, ex: bool, past: seq<Action>)
    requires Calling(s0, s, kind, ex, past) && Enabled(s, Finish)
    ensures Returned(s0, Next(s, Finish), kind, ex, past + [Finish])
  {
    hide RepliesOf, CalledOnce, RecordAfter, Updated;
    var ph := s.phase.value;
    forall p | p in s.records
      ensures RepliesOf(past + [Finish], p) == [ph.status[p].reply] && Replies(ph)[p] == ph.status[p].reply
      ensures RecordAfter(kind, s0.records[p], ph.status[p].reply, s.records[p])
    {
      RepliesGrow(past, Finish, p);
      OneEnd(ph.status[p], kind, s0.records[p], s.records[p], RepliesOf(past, p));
    }
    assert Replies(ph).Keys == s.records.Keys;
  }

  lemma OneEnd(pr: Progress, kind: Kind, before: Record, rec: Record, replies: seq<Reply>)
    requires CalledOnce(pr, kind, before, rec, replies) && pr.Collected?
    ensures replies == [pr.reply] && RecordAfter(kind, before, pr.reply, rec)
  {
  }

  lemma {:induction false} CallGoesOn(s0: State, s: State, kind: Kind, ex: bool, past: seq<Action>, actions: seq<Action>)
    requires Calling(s0, s, kind, ex, past) && Legal(s, actions) && forall i :: 0 <= i < |actions| ==> Internal(actions[i])
    ensures Calling(s0, Run(s, actions), kind, ex, past + actions) || Returned(s0, Run(s, actions), kind, ex, past + actions)
    decreases |actions|
  {
    hide Calling, Returned, Next;
    if actions == [] {
      assert past + actions == past;
    } else {
      var a := actions[0];
      assert past + [a] + actions[1..] == past + actions;
      if a.Finish? {
        CallingEnds(s0, s, kind, ex, past);
        NothingLeft(s0, Next(s, a), kind, ex, past + [a], actions[1..]);
      } else {
        CallingStep(s0, s, kind, ex, past, a);
        CallGoesOn(s0, Next(s, a), kind, ex, past + [a], actions[1..]);
      }
    }
  }

  lemma NothingLeft(s0: State, s: State, kind: Kind, ex: bool, past: seq<Action>, actions: seq<Action>)
    requires Returned(s0, s, kind, ex, past) && Legal(s, actions) && forall i :: 0 <= i < |actions| ==> Internal(actions[i])
    ensures actions == [] && Run(s, actions) == s && past + actions == past
  {
  }

  lemma CallStarts(s: State, kind: Kind, ex: bool, a: Action)
    requires s.phase.None? && (if ex then a == CallExecute && kind == Abort && s.coord != Init && s.coord != Committed
                               else a == CallOf(kind) && Accepts(s, kind))
    ensures Calling(s, Next(s, a), kind, ex, [a])
  {
    assert [a][..0] == [];
  }

  lemma CallRuns(s: State, kind: Kind, ex: bool, actions: seq<Action>)
    requires Legal(s, actions) && actions != [] && Calling(s, Next(s, actions[0]), kind, ex, [actions[0]])
    requires (forall i :: 1 <= i < |actions| ==> Internal(actions[i])) && Run(s, actions).phase.None?
    ensures Returned(s, Run(s, actions), kind, ex, actions)
  {
    hide Calling, Returned, Next;
    CallGoesOn(s, Next(s, actions[0]), kind, ex, [actions[0]], actions[1..]);
    assert [actions[0]] + actions[1..] == actions;
    NotCalling(s, Run(s, actions), kind, ex, actions);
  }

  lemma NotCalling(s0: State, s: State, kind: Kind, ex: bool, past: seq<Action>)
    requires s.phase.None?
    ensures !Calling(s0, s, kind, ex, past)
  {
  }

  /** One call on its own that the coordinator takes and that has returned, for every schedule of
      its goroutines: each participant was called once, and the replies alone decide the result,
      the coordinator's state and every record.  Prepare succeeds exactly if all voted yes without
      error, Commit and Abort exactly if none reported an error. */
  lemma CallDecides(s: State, kind: Kind, actions: seq<Action>)
    requires s.phase.None? && Accepts(s, kind) && Legal(s, actions) && actions != [] && actions[0] == CallOf(kind)
    requires (forall i :: 1 <= i < |actions| ==> Internal(actions[i])) && Run(s, actions).phase.None?
    ensures Returned(s, Run(s, actions), kind, false, actions)
  {
    hide Calling, Returned, Next;
    CallStarts(s, kind, false, actions[0]);
    CallRuns(s, kind, false, actions);
  }

  /** A call that the coordinator does not take is refused and changes nothing else. */
  lemma CallRefused(s: State, kind: Kind)
    requires s.phase.None? && !Accepts(s, kind)
    ensures Next(s, CallOf(kind)) == s.(result := Refused)
  {
  }

  /** A participant is added exactly if the protocol has not started and it is not there yet. */
  lemma AddDecides(s: State, p: Pid)
    requires s.phase.None?
    ensures var t := Next(s, AddParticipant(p));
      && (t.result == Ok <==> s.coord == Init && p !in s.records) && (t.result == Refused <==> t.result != Ok)
      && t.records == (if t.result == Ok then s.records[p := Record(PInit, false)] else s.records)
      && t.coord == s.coord && t.phase.None? && t.log == s.log
  {
  }

  /** An Execute that comes too late fails; unless the coordinator has committed it still aborts
      every participant. */
  lemma LateExecute(s: State, actions: seq<Action>)
    requires s.phase.None? && s.coord != Init && Legal(s, actions) && actions != [] && actions[0] == CallExecute
    requires (forall i :: 1 <= i < |actions| ==> Internal(actions[i])) && Run(s, actions).phase.None?
    ensures var t := Run(s, actions);
      if s.coord == Committed then t == s.(result := Refused)
      else Returned(s, t, Abort, true, actions) && t.result == PrepareFailed && forall p :: p in t.records ==> t.records[p].state == PAborted
  {
    if s.coord != Committed {
      CallStarts(s, Abort, true, CallExecute);
      CallRuns(s, Abort, true, actions);
    } else {
      NoPhase(Next(s, CallExecute), actions[1..]);
    }
  }

  lemma NoPhase(s: State, actions: seq<Action>)
    requires s.phase.None? && Legal(s, actions) && forall i :: 0 <= i < |actions| ==> Internal(actions[i])
    ensures actions == []
  {
  }
}
