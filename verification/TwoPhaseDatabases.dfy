/** Execute over DatabaseParticipants: what each call does to the participant's session
    map and to the session's transaction, on every path including cancelled contexts. */
module TwoPhaseDatabases {
  import opened Options
  import opened TwoPhaseCommit
  import opened TwoPhaseExecute

  datatype TxnState = Active | TxnCommitted | TxnAborted

  /** One participant's view of the coordinator's transaction: whether its session is in the
      map, the state of that session's transaction, and how often the session was finished. */
  datatype Db = Db(session: bool, txn: TxnState, finishes: nat)

  /** What the surroundings decide in one call: a cancelled context, a write conflict. */
  datatype Env = Env(cancelled: bool, conflict: bool)

  const YES := Reply(true, false)
  const ERROR := Reply(false, true)

  function Handle(kind: Kind, db: Db, env: Env): (Reply, Db) {
    if !db.session then (ERROR, db)
    else match kind
      case Prepare => if env.cancelled || db.txn != Active then (ERROR, db) else (YES, db)
      case Commit =>
        var gone := db.(session := false);
        if env.cancelled then (ERROR, gone)
        else if db.txn != Active || env.conflict then (ERROR, gone.(finishes := db.finishes + 1))
        else (YES, gone.(txn := TxnCommitted, finishes := db.finishes + 1))
      case Abort =>
        var gone := db.(session := false);
        if env.cancelled then (ERROR, gone)
        else if db.txn != Active then (ERROR, gone.(finishes := db.finishes + 1))
        else (YES, gone.(txn := TxnAborted, finishes := db.finishes + 1))
  }

  datatype Event = Event(action: Action, env: Env)

  ghost predicate EventOk(s: State, dbs: map<Pid, Db>, e: Event) {
    && Enabled(s, e.action)
    && (e.action.Send? ==> e.action.p in dbs && e.action.reply == Handle(s.phase.value.kind, dbs[e.action.p], e.env).0)
  }

  ghost function DbsAfter(s: State, dbs: map<Pid, Db>, e: Event): map<Pid, Db>
    requires EventOk(s, dbs, e)
  {
    if e.action.Send? then dbs[e.action.p := Handle(s.phase.value.kind, dbs[e.action.p], e.env).1] else dbs
  }

  /** No session of the transaction has been finished or committed yet. */
  ghost predicate Untouched(db: Db) { db.finishes == 0 && db.txn != TxnCommitted }

  /** After its second-phase call a participant has no session left, finished it at most
      once, and its database is committed exactly when it reported a successful commit. */
  ghost predicate Settled(kind: Kind, db: Db, committed: bool) {
    !db.session && db.finishes <= 1 && (db.txn == TxnCommitted <==> kind == Commit && committed)
  }

  ghost predicate DbInv(s: State, ps: set<Pid>, dbs: map<Pid, Db>) {
    && dbs.Keys == ps
    && match s.phase
       case Some(ph) =>
         forall p :: p in ps && p in ph.status ==>
           if ph.kind == Prepare || ph.status[p].Pending? then Untouched(dbs[p])
           else Settled(ph.kind, dbs[p], !ph.status[p].reply.err)
       case None =>
         forall p :: p in ps && p in s.records ==> Settled(Commit, dbs[p], s.records[p].state == PCommitted)
  }

  lemma SendSettles(s: State, ps: set<Pid>, dbs: map<Pid, Db>, e: Event)
    requires ExecInv(s, ps) && DbInv(s, ps, dbs) && EventOk(s, dbs, e) && e.action.Send?
    ensures DbInv(Next(s, e.action), ps, DbsAfter(s, dbs, e))
  {
    hide InPhase;
    var p, ph := e.action.p, s.phase.value;
    var ph' := Next(s, e.action).phase.value;
    assert forall q :: q in ph.status && q != p ==> ph'.status[q] == ph.status[q];
  }

  lemma FinishSettles(s: State, ps: set<Pid>, dbs: map<Pid, Db>)
    requires ExecInv(s, ps) && DbInv(s, ps, dbs) && Enabled(s, Finish)
    ensures DbInv(Next(s, Finish), ps, dbs)
  {
    hide Voting, CommitPhase, AbortPhase, DoneCommitted, DoneAborted, DoneMixed, Next, DbInv, Enabled;
    if Voting(s, ps) {
      VotingSettles(s, ps, dbs);
    } else if CommitPhase(s, ps) {
      CommitSettles(s, ps, dbs);
    } else if AbortPhase(s, ps) {
      AbortSettles(s, ps, dbs);
    } else {
      DoneIsOver(s, ps);
      assert false;
    }
  }

  lemma VotingSettles(s: State, ps: set<Pid>, dbs: map<Pid, Db>)
    requires Voting(s, ps) && DbInv(s, ps, dbs) && Enabled(s, Finish)
    ensures DbInv(Next(s, Finish), ps, dbs)
  {
  }

  lemma CommitSettles(s: State, ps: set<Pid>, dbs: map<Pid, Db>)
    requires CommitPhase(s, ps) && DbInv(s, ps, dbs) && Enabled(s, Finish)
    ensures DbInv(Next(s, Finish), ps, dbs)
  {
    hide Distinct, Phased, OnlyKinds, SentTo, AllPrepared;
    var ph := s.phase.value;
    forall p | p in ps
      ensures p in ph.status && !ph.status[p].Pending? && (s.records[p].state == PCommitted <==> !ph.status[p].reply.err)
    {
      CommittedRecord(s, ps, p);
    }
  }

  lemma CommittedRecord(s: State, ps: set<Pid>, p: Pid)
    requires CommitPhase(s, ps) && Enabled(s, Finish) && p in ps
    ensures p in s.phase.value.status && !s.phase.value.status[p].Pending? && p in s.records
    ensures s.records[p].state == PCommitted <==> !s.phase.value.status[p].reply.err
  {
    assert RecordFits(Commit, s.phase.value.status[p], Record(PPrepared, true), s.records[p]);
  }

  lemma AbortSettles(s: State, ps: set<Pid>, dbs: map<Pid, Db>)
    requires AbortPhase(s, ps) && DbInv(s, ps, dbs) && Enabled(s, Finish)
    ensures DbInv(Next(s, Finish), ps, dbs)
  {
    assert forall p :: p in ps ==> Answered(s.phase.value, p);
  }

  lemma DoneIsOver(s: State, ps: set<Pid>)
    requires DoneCommitted(s, ps) || DoneAborted(s, ps) || DoneMixed(s, ps)
    ensures !Enabled(s, Finish)
  {
  }

  lemma OtherSettles(s: State, ps: set<Pid>, dbs: map<Pid, Db>, a: Action)
    requires DbInv(s, ps, dbs) && Enabled(s, a) && (a.Update? || a.Collect?)
    ensures DbInv(Next(s, a), ps, dbs)
  {
  }

  lemma DbStep(s: State, ps: set<Pid>, dbs: map<Pid, Db>, e: Event)
    requires ExecInv(s, ps) && DbInv(s, ps, dbs) && EventOk(s, dbs, e) && Internal(e.action)
    ensures ExecInv(Next(s, e.action), ps) && DbInv(Next(s, e.action), ps, DbsAfter(s, dbs, e))
  {
    hide ExecInv, DbInv, Next;
    ExecStep(s, ps, e.action);
    match e.action
    case Send(_, _) => SendSettles(s, ps, dbs, e);
    case Finish => FinishSettles(s, ps, dbs);
    case _ => OtherSettles(s, ps, dbs, e.action);
  }

  // ---- whole runs

  ghost predicate LegalEvents(s: State, dbs: map<Pid, Db>, events: seq<Event>)
    decreases |events|
  {
    events != [] ==>
      && EventOk(s, dbs, events[0])
      && LegalEvents(Next(s, events[0].action), DbsAfter(s, dbs, events[0]), events[1..])
  }

  ghost function RunEvents(s: State, dbs: map<Pid, Db>, events: seq<Event>): (State, map<Pid, Db>)
    requires LegalEvents(s, dbs, events)
    decreases |events|
  {
    if events == [] then (s, dbs)
    else RunEvents(Next(s, events[0].action), DbsAfter(s, dbs, events[0]), events[1..])
  }

  lemma {:induction false} EventsKeepInv(s: State, ps: set<Pid>, dbs: map<Pid, Db>, events: seq<Event>)
    requires ExecInv(s, ps) && DbInv(s, ps, dbs) && LegalEvents(s, dbs, events)
    requires forall i :: 0 <= i < |events| ==> Internal(events[i].action)
    ensures var (s', dbs') := RunEvents(s, dbs, events); ExecInv(s', ps) && DbInv(s', ps, dbs')
    decreases |events|
  {
    hide ExecInv, DbInv, Next;
    if events != [] {
      DbStep(s, ps, dbs, events[0]);
      EventsKeepInv(Next(s, events[0].action), ps, DbsAfter(s, dbs, events[0]), events[1..]);
    }
  }

  /** When Execute returns, whatever was cancelled or conflicted on the way: no session of
      the transaction is left in any map, each was finished at most once, and a database is
      committed exactly when the coordinator's record of it says so.  After a nil result
      every database is committed; after a failed prepare none is. */
  lemma ExecuteOverDatabases(s: State, ps: set<Pid>, dbs: map<Pid, Db>, events: seq<Event>)
    requires Ready(s, ps) && dbs.Keys == ps && forall p :: p in ps ==> Untouched(dbs[p])
    requires |events| > 0 && events[0].action == CallExecute && LegalEvents(s, dbs, events)
    requires forall i :: 0 < i < |events| ==> Internal(events[i].action)
    ensures var (s', dbs') := RunEvents(s, dbs, events);
      && dbs'.Keys == ps && s'.records.Keys == ps
      && (s'.phase.None? ==> forall p :: p in ps ==>
            && !dbs'[p].session && dbs'[p].finishes <= 1
            && (dbs'[p].txn == TxnCommitted <==> s'.records[p].state == PCommitted))
      && (s'.phase.None? && s'.result == Ok ==> forall p :: p in ps ==> dbs'[p].txn == TxnCommitted)
      && (s'.phase.None? && s'.result == PrepareFailed ==> forall p :: p in ps ==> dbs'[p].txn != TxnCommitted)
  {
    hide ExecInv, DbInv, Untouched;
    FirstStep(s, ps, dbs);
    EventsKeepInv(Next(s, CallExecute), ps, dbs, events[1..]);
    var (s', dbs') := RunEvents(s, dbs, events);
    LastState(s', ps, dbs');
  }

  /** Whether the context of the participant's first second-phase call was cancelled, if it
      got such a call. */
  ghost function SecondCall(s: State, dbs: map<Pid, Db>, events: seq<Event>, p: Pid): Option<bool>
    requires LegalEvents(s, dbs, events)
    decreases |events|
  {
    if events == [] then None
    else
      var e := events[0];
      if e.action.Send? && e.action.p == p && s.phase.value.kind != Prepare then Some(e.env.cancelled)
      else SecondCall(Next(s, e.action), DbsAfter(s, dbs, e), events[1..], p)
  }

  /** Only that call touches a session: it takes the session out of the map, and finishes it
      unless the context is cancelled. */
  lemma {:induction false} SessionFate(s: State, dbs: map<Pid, Db>, events: seq<Event>, p: Pid)
    requires LegalEvents(s, dbs, events) && p in dbs
    ensures var (s', dbs') := RunEvents(s, dbs, events);
      var call := SecondCall(s, dbs, events, p);
      && p in dbs'
      && (!dbs[p].session || call.None? ==> dbs'[p] == dbs[p])
      && (dbs[p].session && call.Some? ==> !dbs'[p].session && dbs'[p].finishes == dbs[p].finishes + if call.value then 0 else 1)
      && (dbs[p].session && call == Some(true) ==> dbs'[p].txn == dbs[p].txn)
    decreases |events|
  {
    hide Next, Enabled;
    if events != [] {
      var e := events[0];
      SessionFate(Next(s, e.action), DbsAfter(s, dbs, e), events[1..], p);
    }
  }

  /** When Execute has returned, a session was left unfinished, its transaction as it was, exactly
      if there was none to begin with or its second-phase call came with a cancelled context. */
  lemma UnfinishedIff(s: State, ps: set<Pid>, dbs: map<Pid, Db>, events: seq<Event>, p: Pid)
    requires Ready(s, ps) && dbs.Keys == ps && p in ps && forall q :: q in ps ==> Untouched(dbs[q])
    requires |events| > 0 && events[0].action == CallExecute && LegalEvents(s, dbs, events)
    requires forall i :: 0 < i < |events| ==> Internal(events[i].action)
    requires RunEvents(s, dbs, events).0.phase.None?
    ensures var (s', dbs') := RunEvents(s, dbs, events);
      && p in dbs'
      && (dbs'[p].finishes == 0 <==> !dbs[p].session || SecondCall(s, dbs, events, p) == Some(true))
      && (dbs'[p].finishes == 0 ==> dbs'[p].txn == dbs[p].txn)
  {
    hide RunEvents, SecondCall;
    ExecuteOverDatabases(s, ps, dbs, events);
    SessionFate(s, dbs, events, p);
  }

  lemma FirstStep(s: State, ps: set<Pid>, dbs: map<Pid, Db>)
    requires Ready(s, ps) && dbs.Keys == ps && forall p :: p in ps ==> Untouched(dbs[p])
    ensures ExecInv(Next(s, CallExecute), ps) && DbInv(Next(s, CallExecute), ps, dbs)
  {
    assert Voting(Next(s, CallExecute), ps);
  }

  lemma LastState(s: State, ps: set<Pid>, dbs: map<Pid, Db>)
    requires ExecInv(s, ps) && DbInv(s, ps, dbs)
    ensures dbs.Keys == ps && s.records.Keys == ps
    ensures s.phase.None? ==> forall p :: p in ps ==>
      !dbs[p].session && dbs[p].finishes <= 1 && (dbs[p].txn == TxnCommitted <==> s.records[p].state == PCommitted)
    ensures s.phase.None? && s.result == Ok ==> forall p :: p in ps ==> dbs[p].txn == TxnCommitted
    ensures s.phase.None? && s.result == PrepareFailed ==> forall p :: p in ps ==> dbs[p].txn != TxnCommitted
  {
  }

  // ---- the outcome in terms of the sessions and contexts

  /** What surrounded the calls that `p` received, in order. */
  ghost function CallsTo(events: seq<Event>, p: Pid): seq<Env> {
    if events == [] then []
    else
      var n := |events| - 1;
      CallsTo(events[..n], p) + if events[n].action.Send? && events[n].action.p == p then [events[n].env] else []
  }

  /** The participant has an active session and is asked to prepare before its context ends. */
  ghost predicate Willing(db: Db, calls: seq<Env>) {
    db.session && db.txn == Active && calls != [] && !calls[0].cancelled
  }

  ghost predicate AllWilling(ps: set<Pid>, dbs: map<Pid, Db>, past: seq<Event>) {
    forall p :: p in ps && p in dbs ==> Willing(dbs[p], CallsTo(past, p))
  }

  /** Its second call came in time and met no conflict. */
  ghost predicate Clean(calls: seq<Env>) {
    |calls| == 2 && !calls[1].cancelled && !calls[1].conflict
  }

  /** The state of the participant's transaction in the end. */
  ghost function FinalTxn(allWilling: bool, db: Db, calls: seq<Env>): TxnState
    requires |calls| == 2
  {
    if allWilling then
      if calls[1].cancelled || calls[1].conflict then db.txn else TxnCommitted
    else
      if !db.session || db.txn != Active || calls[1].cancelled then db.txn else TxnAborted
  }

  /** During a phase: who has been called how often, what they replied and where their
      transaction stands, from the sessions at the start and the calls so far. */
  ghost predicate Progressed(kind: Kind, all: bool, pr: Progress, before: Db, db: Db, calls: seq<Env>) {
    match kind
    case Prepare =>
      && db == before
      && if pr.Pending? then calls == [] else |calls| == 1 && pr.reply == if Willing(before, calls) then YES else ERROR
    case _ =>
      if pr.Pending? then |calls| == 1 && db == before
      else
        && |calls| == 2 && db.txn == FinalTxn(all, before, calls)
        && (kind == Commit ==> pr.reply == if Clean(calls) then YES else ERROR)
  }

  ghost predicate History(s: State, ps: set<Pid>, before: map<Pid, Db>, dbs: map<Pid, Db>, past: seq<Event>) {
    && before.Keys == ps && dbs.Keys == ps
    && var all := AllWilling(ps, before, past);
       match s.phase
       case Some(ph) =>
         && (ph.kind == Commit ==> all) && (ph.kind == Abort ==> !all)
         && forall p :: p in ps && p in ph.status ==> Progressed(ph.kind, all, ph.status[p], before[p], dbs[p], CallsTo(past, p))
       case None =>
         && (forall p :: p in ps ==> |CallsTo(past, p)| == 2 && dbs[p].txn == FinalTxn(all, before[p], CallsTo(past, p)))
         && (s.result == PrepareFailed <==> !all)
         && (s.result == Ok <==> all && forall p :: p in ps ==> Clean(CallsTo(past, p)))
  }

  lemma CallsGrow(past: seq<Event>, e: Event, p: Pid)
    ensures CallsTo(past + [e], p) == if e.action.Send? && e.action.p == p then CallsTo(past, p) + [e.env] else CallsTo(past, p)
  {
    assert (past + [e])[..|past|] == past;
  }

  /** Later calls do not change who was willing, once everybody has been asked. */
  lemma WillingStays(ps: set<Pid>, before: map<Pid, Db>, past: seq<Event>, e: Event)
    requires forall p :: p in ps ==> CallsTo(past, p) != []
    ensures AllWilling(ps, before, past + [e]) <==> AllWilling(ps, before, past)
    ensures forall p :: p in ps && p in before ==> (Willing(before[p], CallsTo(past + [e], p)) <==> Willing(before[p], CallsTo(past, p)))
  {
    forall p | p in ps && p in before
      ensures Willing(before[p], CallsTo(past + [e], p)) <==> Willing(before[p], CallsTo(past, p))
    {
      CallsGrow(past, e, p);
    }
  }

  lemma CallProgresses(kind: Kind, all: bool, before: Db, db: Db, calls: seq<Env>, env: Env)
    requires Progressed(kind, all, Pending, before, db, calls)
    requires kind == Commit ==> all && Willing(before, calls)
    requires kind == Abort ==> !all
    ensures var (reply, db') := Handle(kind, db, env); Progressed(kind, all, Replied(reply), before, db', calls + [env])
  {
  }

  lemma AskedAll(s: State, ps: set<Pid>, before: map<Pid, Db>, dbs: map<Pid, Db>, past: seq<Event>)
    requires s.phase.Some? && s.phase.value.kind != Prepare && s.phase.value.status.Keys == ps && History(s, ps, before, dbs, past)
    ensures forall p :: p in ps ==> CallsTo(past, p) != []
  {
    forall p | p in ps ensures CallsTo(past, p) != [] {
      assert Progressed(s.phase.value.kind, AllWilling(ps, before, past), s.phase.value.status[p], before[p], dbs[p], CallsTo(past, p));
    }
  }

  lemma HistorySend(s: State, ps: set<Pid>, before: map<Pid, Db>, dbs: map<Pid, Db>, past: seq<Event>, e: Event)
    requires s.phase.Some? && s.phase.value.status.Keys == ps && History(s, ps, before, dbs, past)
    requires EventOk(s, dbs, e) && e.action.Send?
    ensures History(Next(s, e.action), ps, before, DbsAfter(s, dbs, e), past + [e])
  {
    hide Progressed, Willing, Handle, CallsTo, AllWilling;
    var ph, all := s.phase.value, AllWilling(ps, before, past);
    var all' := AllWilling(ps, before, past + [e]);
    if ph.kind != Prepare {
      AskedAll(s, ps, before, dbs, past);
      WillingStays(ps, before, past, e);
    }
    var t, dbs' := Next(s, e.action), DbsAfter(s, dbs, e);
    forall p | p in ps
      ensures Progressed(ph.kind, all', t.phase.value.status[p], before[p], dbs'[p], CallsTo(past + [e], p))
    {
      CallsGrow(past, e, p);
      AnyAllInPrepare(ph.kind, all, all', ph.status[p], before[p], dbs[p], CallsTo(past, p));
      if p == e.action.p {
        if ph.kind == Commit {
          WillingOne(ps, before, past, p);
        }
        CallProgresses(ph.kind, all', before[p], dbs[p], CallsTo(past, p), e.env);
      }
    }
  }

  lemma WillingOne(ps: set<Pid>, before: map<Pid, Db>, past: seq<Event>, p: Pid)
    requires p in ps && p in before && AllWilling(ps, before, past)
    ensures Willing(before[p], CallsTo(past, p))
  {
  }

  lemma AnyAllInPrepare(kind: Kind, all: bool, all': bool, pr: Progress, before: Db, db: Db, calls: seq<Env>)
    requires Progressed(kind, all, pr, before, db, calls) && (kind == Prepare || all == all')
    ensures Progressed(kind, all', pr, before, db, calls)
  {
  }

  lemma HistoryOther(s: State, ps: set<Pid>, before: map<Pid, Db>, dbs: map<Pid, Db>, past: seq<Event>, e: Event)
    requires s.phase.Some? && s.phase.value.status.Keys == ps && History(s, ps, before, dbs, past)
    requires EventOk(s, dbs, e) && (e.action.Update? || e.action.Collect?)
    ensures History(Next(s, e.action), ps, before, dbs, past + [e])
  {
    hide CallsTo, Willing;
    SameCalls(ps, before, past, e);
    var ph, t := s.phase.value, Next(s, e.action);
    forall p | p in ps
      ensures Progressed(ph.kind, AllWilling(ps, before, past), t.phase.value.status[p], before[p], dbs[p], CallsTo(past, p))
    {
    }
  }

  lemma SameCalls(ps: set<Pid>, before: map<Pid, Db>, past: seq<Event>, e: Event)
    requires !e.action.Send?
    ensures forall p :: CallsTo(past + [e], p) == CallsTo(past, p)
    ensures AllWilling(ps, before, past + [e]) <==> AllWilling(ps, before, past)
  {
    forall p ensures CallsTo(past + [e], p) == CallsTo(past, p) {
      CallsGrow(past, e, p);
    }
  }

  /** All votes are in: everybody said yes exactly if everybody was willing. */
  lemma VotesTell(s: State, ps: set<Pid>, before: map<Pid, Db>, dbs: map<Pid, Db>, past: seq<Event>)
    requires s.phase.Some? && s.phase.value.status.Keys == ps && History(s, ps, before, dbs, past)
    requires s.phase.value.kind == Prepare && AllCollected(s.phase.value)
    ensures AllYes(Replies(s.phase.value)) <==> AllWilling(ps, before, past)
    ensures forall p :: p in ps ==> |CallsTo(past, p)| == 1 && dbs[p] == before[p]
  {
    hide CallsTo, Willing;
    var ph := s.phase.value;
    forall p | p in ps
      ensures |CallsTo(past, p)| == 1 && dbs[p] == before[p]
      ensures Replies(ph)[p] == if Willing(before[p], CallsTo(past, p)) then YES else ERROR
    {
      assert Progressed(Prepare, AllWilling(ps, before, past), ph.status[p], before[p], dbs[p], CallsTo(past, p));
    }
    assert Replies(ph).Keys == ps;
  }

  lemma AcksTell(s: State, ps: set<Pid>, before: map<Pid, Db>, dbs: map<Pid, Db>, past: seq<Event>)
    requires s.phase.Some? && s.phase.value.status.Keys == ps && History(s, ps, before, dbs, past)
    requires s.phase.value.kind != Prepare && AllCollected(s.phase.value)
    ensures s.phase.value.kind == Commit ==>
      (NoErrors(Replies(s.phase.value)) <==> forall p :: p in ps ==> Clean(CallsTo(past, p)))
    ensures forall p :: p in ps ==>
      && |CallsTo(past, p)| == 2
      && dbs[p].txn == FinalTxn(AllWilling(ps, before, past), before[p], CallsTo(past, p))
  {
    hide CallsTo, Willing, AllWilling, FinalTxn, Clean;
    var ph := s.phase.value;
    forall p | p in ps
      ensures |CallsTo(past, p)| == 2 && dbs[p].txn == FinalTxn(AllWilling(ps, before, past), before[p], CallsTo(past, p))
      ensures ph.kind == Commit ==> Replies(ph)[p] == if Clean(CallsTo(past, p)) then YES else ERROR
    {
      assert Progressed(ph.kind, AllWilling(ps, before, past), ph.status[p], before[p], dbs[p], CallsTo(past, p));
    }
    assert Replies(ph).Keys == ps;
  }

  lemma HistoryFinish(s: State, ps: set<Pid>, before: map<Pid, Db>, dbs: map<Pid, Db>, past: seq<Event>, e: Event)
    requires s.phase.Some? && s.phase.value.status.Keys == ps && s.records.Keys == ps && s.phase.value.inExecute
    requires History(s, ps, before, dbs, past) && EventOk(s, dbs, e) && e.action == Finish
    ensures History(Next(s, Finish), ps, before, dbs, past + [e])
  {
    hide CallsTo, Willing, AllWilling, FinalTxn, Clean, AllYes, NoErrors;
    SameCalls(ps, before, past, e);
    var ph := s.phase.value;
    if ph.kind == Prepare {
      VotesTell(s, ps, before, dbs, past);
    } else {
      AcksTell(s, ps, before, dbs, past);
    }
  }

  lemma HistoryStep(s: State, ps: set<Pid>, before: map<Pid, Db>, dbs: map<Pid, Db>, past: seq<Event>, e: Event)
    requires ExecInv(s, ps) && History(s, ps, before, dbs, past) && EventOk(s, dbs, e) && Internal(e.action)
    ensures History(Next(s, e.action), ps, before, DbsAfter(s, dbs, e), past + [e])
  {
    hide History, Next, Voting, CommitPhase, AbortPhase, DoneCommitted, DoneAborted, DoneMixed;
    WithinPhase(s, ps, e.action);
    match e.action
    case Send(_, _) => HistorySend(s, ps, before, dbs, past, e);
    case Finish => HistoryFinish(s, ps, before, dbs, past, e);
    case _ => HistoryOther(s, ps, before, dbs, past, e);
  }

  lemma WithinPhase(s: State, ps: set<Pid>, a: Action)
    requires ExecInv(s, ps) && Enabled(s, a) && Internal(a)
    ensures s.phase.Some? && s.phase.value.status.Keys == ps && s.records.Keys == ps && s.phase.value.inExecute
  {
  }

  lemma {:induction false} HistoryKept(s: State, ps: set<Pid>, before: map<Pid, Db>, dbs: map<Pid, Db>, past: seq<Event>, events: seq<Event>)
    requires ExecInv(s, ps) && History(s, ps, before, dbs, past) && LegalEvents(s, dbs, events)
    requires forall i :: 0 <= i < |events| ==> Internal(events[i].action)
    ensures var (s', dbs') := RunEvents(s, dbs, events); History(s', ps, before, dbs', past + events)
    decreases |events|
  {
    hide ExecInv, History, Next;
    if events == [] {
      assert past + events == past;
    } else {
      var e := events[0];
      ExecStep(s, ps, e.action);
      HistoryStep(s, ps, before, dbs, past, e);
      HistoryKept(Next(s, e.action), ps, before, DbsAfter(s, dbs, e), past + [e], events[1..]);
      assert past + [e] + events[1..] == past + events;
    }
  }

  lemma NotCalledYet(e: Event, p: Pid)
    requires !e.action.Send?
    ensures CallsTo([e], p) == []
  {
    assert [e][..0] == [];
  }

  lemma HistoryStarts(s: State, ps: set<Pid>, dbs: map<Pid, Db>, e: Event)
    requires Ready(s, ps) && dbs.Keys == ps && e.action == CallExecute
    ensures History(Next(s, CallExecute), ps, dbs, dbs, [e])
  {
    hide AllWilling, FinalTxn, Willing, CallsTo;
    forall p ensures CallsTo([e], p) == [] {
      NotCalledYet(e, p);
    }
  }

  /** What an Execute over databases comes to, for every schedule, from the sessions at the start
      and from what surrounded the calls alone.  Every participant is called twice.  Execute
      succeeds exactly if each had an active session and was asked in time to prepare and to
      commit, and no commit met a conflict; it fails in the first phase exactly if someone's
      session was missing, not active or asked too late.  A transaction is committed exactly if
      all were willing and its own commit came in time without conflict, aborted exactly if it
      was before, or was active in its session, someone was not willing and its own abort came
      in time; otherwise it is as it was. */
  lemma ExecuteDecides(s: State, ps: set<Pid>, dbs: map<Pid, Db>, events: seq<Event>)
    requires Ready(s, ps) && dbs.Keys == ps && forall p :: p in ps ==> Untouched(dbs[p])
    requires |events| > 0 && events[0].action == CallExecute && LegalEvents(s, dbs, events)
    requires forall i :: 0 < i < |events| ==> Internal(events[i].action)
    requires RunEvents(s, dbs, events).0.phase.None?
    ensures var (s', dbs') := RunEvents(s, dbs, events);
      && dbs'.Keys == ps
      && (forall p :: p in ps ==> |CallsTo(events, p)| == 2)
      && (s'.result == PrepareFailed <==>
            exists p :: p in ps && (!dbs[p].session || dbs[p].txn != Active || CallsTo(events, p)[0].cancelled))
      && (s'.result == Ok <==>
            forall p :: p in ps ==>
              && dbs[p].session && dbs[p].txn == Active && !CallsTo(events, p)[0].cancelled
              && !CallsTo(events, p)[1].cancelled && !CallsTo(events, p)[1].conflict)
      && forall p :: p in ps ==>
           var second := CallsTo(events, p)[1];
           && (dbs'[p].txn == TxnCommitted <==> s'.result != PrepareFailed && !second.cancelled && !second.conflict)
           && (dbs'[p].txn == TxnAborted <==>
                 || dbs[p].txn == TxnAborted
                 || (s'.result == PrepareFailed && dbs[p].session && dbs[p].txn == Active && !second.cancelled))
           && (dbs'[p].txn == Active <==>
                 && dbs[p].txn == Active
                 && (second.cancelled || if s'.result == PrepareFailed then !dbs[p].session else second.conflict))
  {
    hide ExecInv, History, Next, CallsTo;
    FirstStep(s, ps, dbs);
    HistoryStarts(s, ps, dbs, events[0]);
    HistoryKept(Next(s, CallExecute), ps, dbs, dbs, [events[0]], events[1..]);
    assert [events[0]] + events[1..] == events;
    var (s', dbs') := RunEvents(s, dbs, events);
    HistoryEnds(s', ps, dbs, dbs', events);
  }

  lemma HistoryEnds(s: State, ps: set<Pid>, before: map<Pid, Db>, dbs: map<Pid, Db>, past: seq<Event>)
    requires History(s, ps, before, dbs, past) && s.phase.None? && forall p :: p in ps ==> Untouched(before[p])
    ensures dbs.Keys == ps && forall p :: p in ps ==> |CallsTo(past, p)| == 2
    ensures s.result == PrepareFailed <==>
      exists p :: p in ps && (!before[p].session || before[p].txn != Active || CallsTo(past, p)[0].cancelled)
    ensures s.result == Ok <==>
      forall p :: p in ps ==>
        && before[p].session && before[p].txn == Active && !CallsTo(past, p)[0].cancelled
        && !CallsTo(past, p)[1].cancelled && !CallsTo(past, p)[1].conflict
    ensures forall p :: p in ps ==>
      var second := CallsTo(past, p)[1];
      && (dbs[p].txn == TxnCommitted <==> s.result != PrepareFailed && !second.cancelled && !second.conflict)
      && (dbs[p].txn == TxnAborted <==>
            || before[p].txn == TxnAborted
            || (s.result == PrepareFailed && before[p].session && before[p].txn == Active && !second.cancelled))
      && (dbs[p].txn == Active <==>
            && before[p].txn == Active
            && (second.cancelled || if s.result == PrepareFailed then !before[p].session else second.conflict))
  {
    hide CallsTo;
  }
}
