/** How the runner drives agent runs (cmd/codefortd/agent_runner.go): goroutines that claim runs,
    turns and handoffs, interleaved with the server's calls on the same tables. */
module AgentTurns {
  import opened Options
  import opened Runs
  import opened Statuses

  /** What a goroutine works on: the first turn, a follow-up turn, its park or failure after that
      turn was finished, or the handoff. */
  datatype Phase = First | Dispatch(turn: int) | Settle | Handoff

  datatype Worker = Worker(run: int, phase: Phase)

  /** `dispatched` lists the follow-up turns in the order in which they were claimed. */
  datatype State = State(db: Db, workers: map<int, Worker>, dispatched: seq<int>)

  datatype Action =
    | Request(op: Op)
    | BeginRun(worker: int, kind: Kind, lease: int)
    | BeginTurn(worker: int, lease: int)
    | BeginHandoff(worker: int)
    | EndTurn(worker: int, outcome: TurnVerdict)
    | Park(worker: int)
    | Leave(worker: int)

  /** Calls that any goroutine may make at any moment: the server's enqueue, accept and cancel, and
      the terminal writes and job updates of workers, the reaper and cancellation. */
  predicate IsRequest(op: Op) {
    op.EnqueueRun? || op.EnqueueTurn? || op.MarkFinishing? || op.CancelAgent? || op.CancelCI? ||
    op.FinishRun? || op.CreateJob? || op.StartJob? || op.FinishJob?
  }

  predicate HasWorker(s: State, run: int) {
    exists w | w in s.workers :: s.workers[w].run == run
  }

  predicate Dispatching(s: State, turn: int) {
    exists w | w in s.workers :: s.workers[w].phase == Dispatch(turn)
  }

  /** What the code allows each goroutine to do next. A claim is refused only when it would take
      a run or a turn away from a live worker: leases outlive live dispatches. */
  predicate Enabled(s: State, a: Action, now: int) {
    match a
    case Request(op) => IsRequest(op)
    case BeginRun(w, kind, lease) => w !in s.workers && !HasWorker(s, NextRun(s.db, kind, lease, now))
    case BeginTurn(w, lease) => w !in s.workers && !Dispatching(s, NextTurn(s.db, lease, now))
    case BeginHandoff(w) => w !in s.workers
    case EndTurn(w, _) => w in s.workers && s.workers[w].phase.Dispatch?
    case Park(w) => w in s.workers && (s.workers[w].phase == First || s.workers[w].phase == Settle)
    case Leave(w) => w in s.workers && !s.workers[w].phase.Dispatch?
  }

  function Next(s: State, a: Action, now: int): State
    requires Enabled(s, a, now)
  {
    match a
    case Request(op) => s.(db := After(s.db, op, now).0)
    case BeginRun(w, kind, lease) =>
      var (db, r) := After(s.db, ClaimRun(kind, lease), now);
      if r.Row? then s.(db := db, workers := s.workers[w := Worker(r.id, First)]) else s
    case BeginTurn(w, lease) =>
      var (db, r) := After(s.db, ClaimTurn(lease), now);
      if r.Row?
      then State(db, s.workers[w := Worker(db.turns[r.id].runId, Dispatch(r.id))], s.dispatched + [r.id])
      else s
    case BeginHandoff(w) =>
      var (db, r) := After(s.db, ClaimFinishing, now);
      if r.Row? then s.(db := db, workers := s.workers[w := Worker(r.id, Handoff)]) else s
    case EndTurn(w, outcome) =>
      var me := s.workers[w];
      s.(db := After(s.db, FinishTurn(me.phase.turn, outcome), now).0, workers := s.workers[w := me.(phase := Settle)])
    case Park(w) =>
      var (db, r) := After(s.db, MarkAwaitingInput(s.workers[w].run), now);
      if r == Ok then s.(db := db, workers := s.workers - {w}) else s
    case Leave(w) => s.(workers := s.workers - {w})
  }

  // ---------------------------------------------------------------- what every step keeps

  /** A worker's run is running, or has been made terminal under it. */
  ghost predicate WorkersOk(s: State) {
    forall w | w in s.workers ::
      var me := s.workers[w];
      && s.db.HasRun(me.run) && (s.db.runs[me.run].status == RunRunning || s.db.runs[me.run].status.Terminal())
      && (me.phase.Dispatch? ==> s.db.HasTurn(me.phase.turn) && s.db.turns[me.phase.turn].runId == me.run
                                 && s.db.turns[me.phase.turn].status == TurnRunning)
  }

  ghost predicate OneWorkerPerRun(s: State) {
    forall v, w | v in s.workers && w in s.workers && s.workers[v].run == s.workers[w].run :: v == w
  }

  ghost predicate RunningIsDispatched(s: State) {
    forall t | 0 <= t < |s.db.turns| && s.db.turns[t].status == TurnRunning :: Dispatching(s, t)
  }

  /** Numbers grow with the keys of a run's turns, and its pending turns are the last ones. */
  ghost predicate TurnsInOrder(db: Db) {
    forall t, u | 0 <= t < u < |db.turns| && db.turns[t].runId == db.turns[u].runId ::
      db.turns[t].number < db.turns[u].number && (db.turns[t].status == TurnPending ==> db.turns[u].status == TurnPending)
  }

  predicate SameRun(db: Db, t: int, u: int) {
    db.HasTurn(t) && db.HasTurn(u) && db.turns[t].runId == db.turns[u].runId
  }

  /** Every turn that is no longer pending was dispatched, each once and those of a run in order. */
  ghost predicate DispatchedOk(s: State) {
    && (forall t :: t in s.dispatched <==> s.db.HasTurn(t) && s.db.turns[t].status != TurnPending)
    && (forall a, b | 0 <= a < b < |s.dispatched| && SameRun(s.db, s.dispatched[a], s.dispatched[b]) ::
          s.dispatched[a] < s.dispatched[b])
  }

  ghost predicate Inv(s: State) {
    WorkersOk(s) && OneWorkerPerRun(s) && RunningIsDispatched(s) && TurnsInOrder(s.db) && DispatchedOk(s)
  }

  /** Dispatches that are left alone account for the turns left alone. */
  lemma StillDispatched(s: State, s': State, except: int)
    requires RunningIsDispatched(s)
    requires forall w | w in s.workers && s.workers[w].phase.Dispatch? && s.workers[w].phase.turn != except ::
               w in s'.workers && s'.workers[w].phase == s.workers[w].phase
    requires forall t | 0 <= t < |s'.db.turns| && s'.db.turns[t].status == TurnRunning && t != except ::
               t < |s.db.turns| && s.db.turns[t].status == TurnRunning
    requires 0 <= except < |s'.db.turns| && s'.db.turns[except].status == TurnRunning ==> Dispatching(s', except)
    ensures RunningIsDispatched(s')
  {
    forall t | 0 <= t < |s'.db.turns| && s'.db.turns[t].status == TurnRunning && t != except
      ensures Dispatching(s', t)
    {
      var w :| w in s.workers && s.workers[w].phase == Dispatch(t);
      assert w in s'.workers && s'.workers[w].phase == Dispatch(t);
    }
  }

  /** A change of runs that leaves the running ones running or makes them terminal. */
  lemma RunChangeKeepsInv(s: State, db: Db)
    requires Inv(s) && db.turns == s.db.turns && |db.runs| >= |s.db.runs|
    requires forall i | 0 <= i < |s.db.runs| && (s.db.runs[i].status == RunRunning || s.db.runs[i].status.Terminal()) ::
               db.runs[i].status == RunRunning || db.runs[i].status.Terminal()
    ensures Inv(s.(db := db))
  {
    hide Dispatching, RunStatus.Terminal;
    StillDispatched(s, s.(db := db), -1);
  }

  lemma EnqueueTurnKeepsInv(s: State, run: int, now: int)
    requires Inv(s)
    ensures Inv(Next(s, Request(EnqueueTurn(run)), now))
  {
    hide RunStatus.Terminal, RunningIsDispatched;
    StillDispatched(s, Next(s, Request(EnqueueTurn(run)), now), -1);
  }

  lemma RequestKeepsInv(s: State, op: Op, now: int)
    requires Inv(s) && IsRequest(op)
    ensures Inv(Next(s, Request(op), now))
  {
    hide FirstIndex, JobNamed, Mapped, Inv, MaxNumber;
    if op.EnqueueTurn? {
      EnqueueTurnKeepsInv(s, op.run, now);
    } else {
      RunChangeKeepsInv(s, After(s.db, op, now).0);
    }
  }

  lemma BeginRunKeepsInv(s: State, w: int, kind: Kind, lease: int, now: int)
    requires Inv(s) && Enabled(s, BeginRun(w, kind, lease), now)
    ensures Inv(Next(s, BeginRun(w, kind, lease), now))
  {
    hide FirstIndex, RunningIsDispatched;
    var s' := Next(s, BeginRun(w, kind, lease), now);
    StillDispatched(s, s', -1);
  }

  /** The claimed turn is pending, the first pending one of its run. */
  lemma ClaimsFirstPending(s: State, w: int, lease: int, now: int)
    requires Inv(s) && Enabled(s, BeginTurn(w, lease), now)
    ensures NextTurn(s.db, lease, now) <= |s.db.turns|
    ensures var t := NextTurn(s.db, lease, now);
            t < |s.db.turns| ==>
              var run := s.db.turns[t].runId;
              && s.db.HasRun(run) && s.db.turns[t].status == TurnPending && s.db.runs[run].status == RunAwaitingInput
              && (forall u | 0 <= u < |s.db.turns| && s.db.turns[u].runId == run ::
                    u < t <==> s.db.turns[u].status != TurnPending)
  {
  }

  lemma BeginTurnKeepsInv(s: State, w: int, lease: int, now: int)
    requires Inv(s) && Enabled(s, BeginTurn(w, lease), now)
    ensures Inv(Next(s, BeginTurn(w, lease), now))
  {
    hide FirstIndex, NextTurn, RunningIsDispatched;
    ClaimsFirstPending(s, w, lease, now);
    var s' := Next(s, BeginTurn(w, lease), now);
    var t := NextTurn(s.db, lease, now);
    if t == |s.db.turns| {
      assert s' == s;
    } else {
      var run := s.db.turns[t].runId;
      assert s'.db.turns == s.db.turns[t := s.db.turns[t].(status := TurnRunning, claimedAt := Some(now))];
      assert s'.db.runs == s.db.runs[run := s.db.runs[run].(status := RunRunning)];
      assert s'.workers == s.workers[w := Worker(run, Dispatch(t))] && s'.dispatched == s.dispatched + [t];
      assert s'.workers[w].phase == Dispatch(t);
      StillDispatched(s, s', t);
    }
  }

  lemma BeginHandoffKeepsInv(s: State, w: int, now: int)
    requires Inv(s) && Enabled(s, BeginHandoff(w), now)
    ensures Inv(Next(s, BeginHandoff(w), now))
  {
    hide FirstIndex, RunningIsDispatched;
    StillDispatched(s, Next(s, BeginHandoff(w), now), -1);
  }

  lemma WorkerKeepsInv(s: State, a: Action, now: int)
    requires Inv(s) && Enabled(s, a, now) && (a.EndTurn? || a.Park? || a.Leave?)
    ensures Inv(Next(s, a, now))
  {
    hide RunningIsDispatched;
    StillDispatched(s, Next(s, a, now), if a.EndTurn? then s.workers[a.worker].phase.turn else -1);
  }

  lemma StepKeepsInv(s: State, a: Action, now: int)
    requires Inv(s) && Enabled(s, a, now)
    ensures Inv(Next(s, a, now))
  {
    hide Inv, Next;
    match a
    case Request(op) => RequestKeepsInv(s, op, now);
    case BeginRun(w, kind, lease) => BeginRunKeepsInv(s, w, kind, lease, now);
    case BeginTurn(w, lease) => BeginTurnKeepsInv(s, w, lease, now);
    case BeginHandoff(w) => BeginHandoffKeepsInv(s, w, now);
    case _ => WorkerKeepsInv(s, a, now);
  }

  // ---------------------------------------------------------------- whole runs

  datatype Event = Event(action: Action, now: int)

  ghost predicate Possible(s: State, run: seq<Event>)
    decreases |run|
  {
    run == [] || (Enabled(s, run[0].action, run[0].now) && Possible(Next(s, run[0].action, run[0].now), run[1..]))
  }

  function Final(s: State, run: seq<Event>): State
    requires Possible(s, run)
    decreases |run|
  {
    if run == [] then s else Final(Next(s, run[0].action, run[0].now), run[1..])
  }

  const EMPTY := State(Db([], [], []), map[], [])

  /** A run has at most one worker and one running turn, none while it is parked, queued or
      waiting for its handoff; its turns are dispatched once each, without gaps, in strictly
      increasing order of their numbers. */
  ghost predicate Orderly(s: State) {
    && OneWorkerPerRun(s)
    && (forall t, u | 0 <= t < |s.db.turns| && 0 <= u < |s.db.turns| && s.db.turns[t].runId == s.db.turns[u].runId
          && s.db.turns[t].status == TurnRunning && s.db.turns[u].status == TurnRunning :: t == u)
    && (forall t | 0 <= t < |s.db.turns| && s.db.turns[t].status == TurnRunning ::
          s.db.HasRun(s.db.turns[t].runId) &&
          s.db.runs[s.db.turns[t].runId].status !in {RunQueued, RunAwaitingInput, RunFinishing})
    && (forall t :: t in s.dispatched <==> s.db.HasTurn(t) && s.db.turns[t].status != TurnPending)
    && (forall a, b | 0 <= a < b < |s.dispatched| && SameRun(s.db, s.dispatched[a], s.dispatched[b]) ::
            s.db.turns[s.dispatched[a]].number < s.db.turns[s.dispatched[b]].number)
  }

  lemma InvIsOrderly(s: State)
    requires Inv(s)
    ensures Orderly(s)
  {
  }

  lemma {:induction false} RunKeepsInv(s: State, run: seq<Event>)
    requires Inv(s) && Possible(s, run)
    ensures Inv(Final(s, run))
    decreases |run|
  {
    hide Inv, Enabled, Next;
    if run != [] {
      StepKeepsInv(s, run[0].action, run[0].now);
      RunKeepsInv(Next(s, run[0].action, run[0].now), run[1..]);
    }
  }

  /** Whatever the mix of enqueues, claims, finishes, parks, accepts and cancellations. */
  lemma TurnsStayOrderly(run: seq<Event>)
    requires Possible(EMPTY, run)
    ensures Orderly(Final(EMPTY, run))
  {
    RunKeepsInv(EMPTY, run);
    InvIsOrderly(Final(EMPTY, run));
  }
}
