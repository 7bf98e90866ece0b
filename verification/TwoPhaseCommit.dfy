/** The coordinator of pkg/distributed and its participants as a step machine: public
    calls run one at a time, the participant calls of a phase run in any order. */
module TwoPhaseCommit {
  import opened Options

  type Pid = nat

  datatype CoordState = Init | Preparing | Committing | Aborting | Committed | Aborted
  datatype PartState = PInit | PPrepared | PCommitted | PAborted
  datatype Record = Record(state: PartState, vote: bool)

  datatype Kind = Prepare | Commit | Abort
  datatype Msg = Msg(kind: Kind, to: Pid)
  datatype Reply = Reply(vote: bool, err: bool)

  /** How far the goroutine of one participant has come in the current phase. */
  datatype Progress =
    | Pending                     // the participant has not been called
    | Replied(reply: Reply)       // it has answered, its record is not updated yet
    | Posted(reply: Reply)        // the record is updated, the result waits in the channel
    | Collected(reply: Reply)     // the coordinator has read the result

  datatype Phase = Phase(kind: Kind, inExecute: bool, status: map<Pid, Progress>)

  datatype Result = NoResult | Ok | PrepareFailed | CommitFailed | AbortFailed | Refused

  /** `log` lists the messages sent; `votes` and `acks` keep the replies to the last
      prepare and commit phase. */
  datatype State = State(coord: CoordState, records: map<Pid, Record>, phase: Option<Phase>, log: seq<Msg>,
                         votes: map<Pid, Reply>, acks: map<Pid, Reply>, result: Result)

  datatype Action =
    | AddParticipant(p: Pid)
    | CallPrepare | CallCommit | CallAbort | CallExecute
    | Send(p: Pid, reply: Reply)    // a goroutine calls its participant
    | Update(p: Pid)                // it updates the record and posts the result
    | Collect(p: Pid)               // the coordinator reads a result
    | Finish                        // all results are in

  function CoordIn(kind: Kind): CoordState {
    match kind case Prepare => Preparing case Commit => Committing case Abort => Aborting
  }

  predicate AllCollected(ph: Phase) {
    forall p :: p in ph.status ==> ph.status[p].Collected?
  }

  function Replies(ph: Phase): map<Pid, Reply>
    requires AllCollected(ph)
  {
    map p | p in ph.status :: ph.status[p].reply
  }

  predicate AllYes(m: map<Pid, Reply>) {
    forall p :: p in m ==> m[p].vote && !m[p].err
  }

  predicate NoErrors(m: map<Pid, Reply>) {
    forall p :: p in m ==> !m[p].err
  }

  /** What a reply does to the participant's record. */
  function Updated(kind: Kind, rec: Record, reply: Reply): Record {
    match kind
    case Prepare =>
      if reply.err then rec else Record(if reply.vote then PPrepared else rec.state, reply.vote)
    case Commit => if reply.err then rec else rec.(state := PCommitted)
    case Abort => rec.(state := PAborted)
  }

  function Enter(s: State, kind: Kind, inExecute: bool): State {
    s.(coord := CoordIn(kind), phase := Some(Phase(kind, inExecute, map p | p in s.records :: Pending)))
  }

  /** What happens once every result of a phase has been collected. */
  function Finished(s: State, ph: Phase): State
    requires AllCollected(ph)
  {
    var replies := Replies(ph);
    match ph.kind
    case Prepare =>
      if !ph.inExecute then
        s.(votes := replies, phase := None, result := if AllYes(replies) then Ok else PrepareFailed)
      else
        Enter(s.(votes := replies), if AllYes(replies) then Commit else Abort, true)
    case Commit =>
      s.(acks := replies, phase := None,
         coord := if NoErrors(replies) then Committed else Aborted,
         result := if NoErrors(replies) then Ok else CommitFailed)
    case Abort =>
      s.(phase := None, coord := Aborted,
         result := if ph.inExecute then PrepareFailed else if NoErrors(replies) then Ok else AbortFailed)
  }

  predicate Has(s: State, p: Pid) { s.phase.Some? && p in s.phase.value.status && p in s.records }

  predicate Enabled(s: State, a: Action) {
    match a
    case Send(p, _) => Has(s, p) && s.phase.value.status[p].Pending?
    case Update(p) => Has(s, p) && s.phase.value.status[p].Replied?
    case Collect(p) => Has(s, p) && s.phase.value.status[p].Posted?
    case Finish => s.phase.Some? && AllCollected(s.phase.value)
    case _ => s.phase.None?
  }

  function Advance(s: State, p: Pid, to: Progress): State
    requires s.phase.Some?
  {
    s.(phase := Some(s.phase.value.(status := s.phase.value.status[p := to])))
  }

  function Next(s: State, a: Action): State
    requires Enabled(s, a)
  {
    match a
    case AddParticipant(p) =>
      if s.coord != Init || p in s.records then s.(result := Refused)
      else s.(records := s.records[p := Record(PInit, false)], result := Ok)
    case CallPrepare => if s.coord != Init then s.(result := Refused) else Enter(s, Prepare, false)
    case CallCommit => if s.coord != Preparing then s.(result := Refused) else Enter(s, Commit, false)
    case CallAbort => if s.coord == Committed then s.(result := Refused) else Enter(s, Abort, false)
    case CallExecute =>
      // a refused Prepare makes Execute call Abort, which Committed refuses in turn
      if s.coord == Init then Enter(s, Prepare, true)
      else if s.coord == Committed then s.(result := Refused)
      else Enter(s, Abort, true)
    case Send(p, reply) => Advance(s, p, Replied(reply)).(log := s.log + [Msg(s.phase.value.kind, p)])
    case Update(p) =>
      var reply := s.phase.value.status[p].reply;
      Advance(s, p, Posted(reply)).(records := s.records[p := Updated(s.phase.value.kind, s.records[p], reply)])
    case Collect(p) => Advance(s, p, Collected(s.phase.value.status[p].reply))
    case Finish => Finished(s, s.phase.value)
  }

  // ---- every sequential run of public calls

  ghost predicate Start(s: State) {
    s.coord == Init && s.records == map[] && s.phase == None && s.log == []
  }

  /** The record of `p` reflects its reply in the current phase. */
  ghost predicate Answered(ph: Phase, p: Pid) {
    p in ph.status && (ph.status[p].Posted? || ph.status[p].Collected?)
  }

  ghost predicate AllCommitted(s: State) {
    forall p :: p in s.records ==> s.records[p].state == PCommitted
  }

  ghost predicate Inv(s: State) {
    && (s.phase.Some? ==> s.phase.value.status.Keys == s.records.Keys && s.coord == CoordIn(s.phase.value.kind))
    && (s.phase.None? ==> s.coord != Committing && s.coord != Aborting)
    && (s.phase.Some? && s.phase.value.kind == Commit ==>
          forall p :: p in s.records && Answered(s.phase.value, p) && !s.phase.value.status[p].reply.err ==> s.records[p].state == PCommitted)
    && (s.coord == Committed ==> AllCommitted(s))
  }

  lemma StartInv(s: State)
    requires Start(s)
    ensures Inv(s)
  {
  }

  lemma FinishInv(s: State)
    requires Inv(s) && Enabled(s, Finish)
    ensures Inv(Next(s, Finish))
  {
    var ph := s.phase.value;
    if ph.kind == Commit && NoErrors(Replies(ph)) {
      forall p | p in s.records ensures s.records[p].state == PCommitted {
        assert Replies(ph)[p] == ph.status[p].reply;
      }
    }
  }

  lemma NextInv(s: State, a: Action)
    requires Inv(s) && Enabled(s, a)
    ensures Inv(Next(s, a))
  {
    hide Next, Inv, Enabled;
    match a
    case Finish => FinishInv(s);
    case Send(p, _) => GoroutineInv(s, a, p);
    case Update(p) => GoroutineInv(s, a, p);
    case Collect(p) => GoroutineInv(s, a, p);
    case _ => CallInv(s, a);
  }

  lemma GoroutineInv(s: State, a: Action, p: Pid)
    requires Inv(s) && Enabled(s, a) && ((a.Send? && a.p == p) || a == Update(p) || a == Collect(p))
    ensures Inv(Next(s, a))
  {
    var t := Next(s, a);
    assert t.phase.value.status.Keys == s.phase.value.status.Keys;
    assert t.coord == s.coord != Committed;
  }

  lemma CallInv(s: State, a: Action)
    requires Inv(s) && Enabled(s, a) && (a.AddParticipant? || a.CallPrepare? || a.CallCommit? || a.CallAbort? || a.CallExecute?)
    ensures Inv(Next(s, a))
  {
  }

  ghost predicate Legal(s: State, actions: seq<Action>)
    decreases |actions|
  {
    actions != [] ==> Enabled(s, actions[0]) && Legal(Next(s, actions[0]), actions[1..])
  }

  ghost function Run(s: State, actions: seq<Action>): State
    requires Legal(s, actions)
    decreases |actions|
  {
    if actions == [] then s else Run(Next(s, actions[0]), actions[1..])
  }

  /** Once committed, no call changes the coordinator, a record or the participants again;
      and the participants are fixed as soon as the first phase has started. */
  lemma CommittedIsAbsorbing(s: State, a: Action)
    requires Inv(s) && Enabled(s, a)
    ensures s.coord == Committed ==> Next(s, a).coord == Committed && Next(s, a).records == s.records && Next(s, a).log == s.log
    ensures s.coord != Init ==> Next(s, a).coord != Init && Next(s, a).records.Keys == s.records.Keys
  {
  }

  /** Over every run of public calls, however their phases interleave: a committed
      coordinator has only committed records and stays committed with the same records. */
  lemma {:induction false} RunStaysCommitted(s: State, actions: seq<Action>)
    requires Inv(s) && Legal(s, actions)
    ensures Inv(Run(s, actions))
    ensures s.coord == Committed ==> Run(s, actions).coord == Committed && Run(s, actions).records == s.records && AllCommitted(s)
    ensures s.coord != Init ==> Run(s, actions).records.Keys == s.records.Keys
    decreases |actions|
  {
    if actions != [] {
      NextInv(s, actions[0]);
      CommittedIsAbsorbing(s, actions[0]);
      RunStaysCommitted(Next(s, actions[0]), actions[1..]);
    }
  }
}
