/** Force-stopping an agent run while goroutines work on it (cmd/codefortd/agent_runner.go): the
    machine of `AgentTurns` with turn handles, their canceled flags, the cancellation in its three
    steps, the reaper, and the unguarded writes that end a goroutine's work. */
module AgentCancel {
  import opened Options
  import opened Runs
  import opened Statuses
  import AT = AgentTurns

  /** How far a goroutine has come: before its turn, in the turn with a registered handle, after
      the turn with its flag still to be read, past a flag that was not set, stopped by a flag
      that was, or past a park that failed. */
  datatype Stage = Starting | InTurn(handle: nat) | Ended(handle: nat) | Passed | Stopped | Failing

  /** A cancellation between its steps: the run is marked, and its handle has been looked up. */
  datatype Cancel = Marked(run: int) | Loaded(run: int, handle: nat)

  /** `handles` lists the run of each handle created so far, `registered` the handle stored for a
      run, `expired` the runs that the reaper has listed. */
  datatype State = State(core: AT.State, stages: map<int, Stage>, handles: seq<int>, registered: map<int, nat>,
                         flagged: set<nat>, cancels: map<int, Cancel>, expired: set<int>)

  datatype Action =
    | Core(action: AT.Action)
    | Register(worker: int)
    | Unregister(worker: int)
    | ReadFlag(worker: int)
    | Finish(worker: int, status: RunStatus)
    | MarkCanceled(canceler: int, run: int)
    | LoadHandle(canceler: int)
    | SetFlag(canceler: int)
    | ListExpired(runs: set<int>)
    | Reap(run: int)

  /** The verdicts with which a goroutine may end its run: errors and failures of its own, the
      handoff's success, the result of a verification and of CI jobs. */
  predicate MayWrite(kind: Kind, phase: AT.Phase, stage: Stage, status: RunStatus) {
    match kind
    case CI => stage == Starting && status in {RunSuccess, RunFailed, RunCanceled, RunError}
    case Agent =>
      (stage in {Starting, Passed, Failing} && status == RunError) ||
      (phase == AT.Handoff && stage == Starting && status == RunSuccess)
    case SpecVerify =>
      (stage in {Starting, Passed} && status == RunError) || (stage == Passed && status in {RunSuccess, RunFailed})
  }

  /** The server's calls; terminal writes and cancellations are steps of their own. */
  predicate IsRequest(op: Op) { AT.IsRequest(op) && !op.FinishRun? && !op.CancelAgent? }

  predicate WorksOn(s: State, w: int, kinds: set<Kind>) {
    w in s.core.workers && s.core.db.HasRun(s.core.workers[w].run) && s.core.db.runs[s.core.workers[w].run].kind in kinds
  }

  /** What may happen next. A goroutine may leave without a terminal write too, as it does when its
      event log cannot be opened. */
  predicate Enabled(s: State, a: Action, now: int) {
    match a
    case Core(c) =>
      AT.Enabled(s.core, c, now) &&
      (match c
       case Request(op) => IsRequest(op)
       case BeginRun(w, _, _) => w !in s.stages
       case BeginTurn(w, _) => w !in s.stages
       case BeginHandoff(w) => w !in s.stages
       case EndTurn(w, _) => w in s.stages && !s.stages[w].InTurn? && !s.stages[w].Ended?
       case Park(w) => w in s.stages && s.stages[w] == Passed && WorksOn(s, w, {Agent})
       case Leave(w) => w in s.stages && !s.stages[w].InTurn? && !s.stages[w].Ended?)
    case Register(w) =>
      WorksOn(s, w, {Agent, SpecVerify}) && w in s.stages && s.stages[w] == Starting &&
      (s.core.workers[w].phase == AT.First || s.core.workers[w].phase.Dispatch?)
    case Unregister(w) => w in s.core.workers && w in s.stages && s.stages[w].InTurn?
    case ReadFlag(w) => w in s.core.workers && w in s.stages && s.stages[w].Ended?
    case Finish(w, status) =>
      w in s.core.workers && w in s.stages && !s.core.workers[w].phase.Dispatch? &&
      var me := s.core.workers[w];
      s.core.db.HasRun(me.run) && MayWrite(s.core.db.runs[me.run].kind, me.phase, s.stages[w], status)
    case MarkCanceled(c, _) => c !in s.cancels
    case LoadHandle(c) => c in s.cancels && s.cancels[c].Marked?
    case SetFlag(c) => c in s.cancels && s.cancels[c].Loaded?
    case ListExpired(runs) =>
      forall i | i in runs ::
        s.core.db.HasRun(i) && s.core.db.runs[i].kind == Agent && s.core.db.runs[i].status == RunAwaitingInput
    case Reap(i) => i in s.expired
  }

  /** The stages after a step of the core: a claimed row starts a goroutine, a park that succeeds
      ends one, a park that finds its run no longer running leads to the failure path. */
  function StagesAfter(s: State, c: AT.Action, core: AT.State): map<int, Stage>
    requires c.Park? ==> c.worker in s.stages
  {
    match c
    case Park(w) => if w in core.workers then s.stages[w := Failing] else s.stages - {w}
    case Leave(w) => s.stages - {w}
    case BeginRun(w, _, _) => if w in core.workers then s.stages[w := Starting] else s.stages
    case BeginTurn(w, _) => if w in core.workers then s.stages[w := Starting] else s.stages
    case BeginHandoff(w) => if w in core.workers then s.stages[w := Starting] else s.stages
    case _ => s.stages
  }

  function WithDb(s: State, op: Op, now: int): State { s.(core := s.core.(db := After(s.core.db, op, now).0)) }

  function Next(s: State, a: Action, now: int): State
    requires Enabled(s, a, now)
  {
    match a
    case Core(c) =>
      var core := AT.Next(s.core, c, now);
      s.(core := core, stages := StagesAfter(s, c, core))
    case Register(w) =>
      var run := s.core.workers[w].run;
      s.(stages := s.stages[w := InTurn(|s.handles|)], handles := s.handles + [run],
         registered := s.registered[run := |s.handles|])
    case Unregister(w) =>
      s.(stages := s.stages[w := Ended(s.stages[w].handle)], registered := s.registered - {s.core.workers[w].run})
    case ReadFlag(w) =>
      s.(stages := s.stages[w := if s.stages[w].handle in s.flagged then Stopped else Passed])
    case Finish(w, status) =>
      var s' := WithDb(s, FinishRun(s.core.workers[w].run, status), now);
      s'.(core := s'.core.(workers := s.core.workers - {w}), stages := s.stages - {w})
    case MarkCanceled(c, run) =>
      var s' := WithDb(s, CancelAgent(run), now);
      if After(s.core.db, CancelAgent(run), now).1 == Ok then s'.(cancels := s.cancels[c := Marked(run)]) else s'
    case LoadHandle(c) =>
      var run := s.cancels[c].run;
      s.(cancels := if run in s.registered then s.cancels[c := Loaded(run, s.registered[run])] else s.cancels - {c})
    case SetFlag(c) => s.(flagged := s.flagged + {s.cancels[c].handle}, cancels := s.cancels - {c})
    case ListExpired(runs) => s.(expired := runs)
    case Reap(i) => WithDb(s, FinishRun(i, RunCanceled), now)
  }

  datatype Event = Event(action: Action, now: int)

  ghost predicate Possible(s: State, run: seq<Event>)
    decreases |run|
  {
    run == [] || (Enabled(s, run[0].action, run[0].now) && Possible(Next(s, run[0].action, run[0].now), run[1..]))
  }

  function Final(s: State, run: seq<Event>): State
    requires Possible(s, run)
    decreases |run|
  {
    if run == [] then s else Final(Next(s, run[0].action, run[0].now), run[1..])
  }

  // ---------------------------------------------------------------- the steps as steps of the core

  /** Every step is one of the core, or two, or leaves the core alone. */
  function CoreSteps(s: State, a: Action, now: int): (r: seq<AT.Event>)
    requires Enabled(s, a, now)
  {
    match a
    case Core(c) => [AT.Event(c, now)]
    case Finish(w, status) =>
      [AT.Event(AT.Request(FinishRun(s.core.workers[w].run, status)), now), AT.Event(AT.Leave(w), now)]
    case MarkCanceled(_, run) => [AT.Event(AT.Request(CancelAgent(run)), now)]
    case Reap(run) => [AT.Event(AT.Request(FinishRun(run, RunCanceled)), now)]
    case _ => []
  }

  lemma StepRefinesCore(s: State, a: Action, now: int)
    requires Enabled(s, a, now)
    ensures AT.Possible(s.core, CoreSteps(s, a, now))
    ensures AT.Final(s.core, CoreSteps(s, a, now)) == Next(s, a, now).core
  {
    hide After;
    var run := CoreSteps(s, a, now);
    if |run| == 1 {
      assert AT.Final(s.core, run) == AT.Next(s.core, run[0].action, now);
    } else if |run| == 2 {
      var core := AT.Next(s.core, run[0].action, now);
      assert run[1..] == [run[1]];
      assert AT.Possible(core, run[1..]);
      assert AT.Final(core, run[1..]) == AT.Next(core, run[1].action, now);
    }
  }

  // ---------------------------------------------------------------- what every step keeps

  /** Every goroutine has a stage, a registered handle is found under its run, a handle is looked
      up, flagged or obeyed only after its run was cancelled, and a goroutine that has outlived a
      cancellation under way has not overwritten it. */
  ghost predicate Inv(s: State) {
    && AT.Inv(s.core)
    && s.stages.Keys == s.core.workers.Keys
    && (forall w | w in s.stages :: StageOk(s, w))
    && (forall r | r in s.registered :: s.registered[r] < |s.handles| && s.handles[s.registered[r]] == r)
    && (forall h | h in s.flagged :: h < |s.handles| && IsTerminal(s.core.db, s.handles[h]))
    && (forall c | c in s.cancels :: CancelOk(s, s.cancels[c]))
  }

  ghost predicate StageOk(s: State, w: int)
    requires w in s.stages && w in s.core.workers
  {
    var run := s.core.workers[w].run;
    match s.stages[w]
    case InTurn(h) => run in s.registered && s.registered[run] == h && h < |s.handles| && s.handles[h] == run
    case Ended(h) => h < |s.handles| && s.handles[h] == run
    case Stopped => IsTerminal(s.core.db, run)
    case _ => true
  }

  ghost predicate CancelOk(s: State, c: Cancel) {
    && IsTerminal(s.core.db, c.run)
    && (AT.HasWorker(s.core, c.run) ==> IsCanceled(s.core.db, c.run))
    && (c.Loaded? ==> c.handle < |s.handles| && s.handles[c.handle] == c.run)
  }

  lemma CoreKeepsInv(s: State, a: Action, now: int)
    requires AT.Inv(s.core) && Enabled(s, a, now)
    ensures AT.Inv(Next(s, a, now).core)
  {
    hide AT.Inv;
    StepRefinesCore(s, a, now);
    AT.RunKeepsInv(s.core, CoreSteps(s, a, now));
  }

  /** The storage call a step makes, if any. */
  function CallOf(s: State, a: Action, now: int): (op: Option<Op>)
    requires Enabled(s, a, now)
  {
    match a
    case Core(Request(op)) => Some(op)
    case Core(BeginRun(_, kind, lease)) => Some(ClaimRun(kind, lease))
    case Core(BeginTurn(_, lease)) => Some(ClaimTurn(lease))
    case Core(BeginHandoff(_)) => Some(ClaimFinishing)
    case Core(EndTurn(w, outcome)) => Some(FinishTurn(s.core.workers[w].phase.turn, outcome))
    case Core(Park(w)) => Some(MarkAwaitingInput(s.core.workers[w].run))
    case Finish(w, status) => Some(FinishRun(s.core.workers[w].run, status))
    case MarkCanceled(_, run) => Some(CancelAgent(run))
    case Reap(run) => Some(FinishRun(run, RunCanceled))
    case _ => None
  }

  lemma StepMakesCall(s: State, a: Action, now: int)
    requires Enabled(s, a, now)
    ensures Next(s, a, now).core.db ==
            match CallOf(s, a, now) case None => s.core.db case Some(op) => After(s.core.db, op, now).0
  {
    hide FirstIndex, RunClaimable, TurnClaimable, JobNamed, MaxNumber, Mapped;
  }

  /** Leases outlive live goroutines, so nothing is stolen. */
  lemma NothingStolen(s: State, a: Action, now: int, i: int)
    requires AT.Inv(s.core) && Enabled(s, a, now) && CallOf(s, a, now).Some?
    ensures !Steals(s.core.db, CallOf(s, a, now).value, now, i)
  {
    hide FirstIndex, RunClaimable, TurnClaimable;
    if a.Core? && a.action.BeginTurn? {
      AT.ClaimsFirstPending(s.core, a.action.worker, a.action.lease, now);
    }
  }

  lemma TerminalStays(s: State, a: Action, now: int, i: int)
    requires AT.Inv(s.core) && Enabled(s, a, now) && IsTerminal(s.core.db, i)
    ensures IsTerminal(Next(s, a, now).core.db, i)
  {
    hide Enabled, Next, CallOf, After, AT.Inv, Steals;
    StepMakesCall(s, a, now);
    var call := CallOf(s, a, now);
    if call.Some? {
      NothingStolen(s, a, now, i);
      TerminalStepExact(s.core.db, call.value, now, i);
    }
  }

  lemma NewTurnIsOfOpenRun(s: State, w: int, lease: int, now: int, i: int)
    requires AT.Inv(s.core) && Enabled(s, Core(AT.BeginTurn(w, lease)), now) && IsTerminal(s.core.db, i)
    ensures var s' := Next(s, Core(AT.BeginTurn(w, lease)), now);
            forall v | v in s'.core.workers && s'.core.workers[v].run == i :: v in s.core.workers && s.core.workers[v].run == i
  {
    AT.ClaimsFirstPending(s.core, w, lease, now);
    hide FirstIndex, NextTurn, AT.Inv;
  }

  /** The goroutines of a terminal run are what is left of those it had. */
  lemma NoNewWorker(s: State, a: Action, now: int, i: int)
    requires AT.Inv(s.core) && Enabled(s, a, now) && IsTerminal(s.core.db, i)
    ensures forall w | w in Next(s, a, now).core.workers && Next(s, a, now).core.workers[w].run == i ::
              w in s.core.workers && s.core.workers[w].run == i && !(a.Finish? && a.worker == w)
  {
    if a.Core? && a.action.BeginTurn? {
      NewTurnIsOfOpenRun(s, a.action.worker, a.action.lease, now, i);
      hide Next, AT.Inv;
    } else {
      hide FirstIndex, JobNamed, MaxNumber, Mapped, AT.Inv, TurnClaimable;
    }
  }

  /** A cancelled run stays cancelled unless one of its goroutines finishes it otherwise. */
  lemma CanceledUnlessFinished(s: State, a: Action, now: int, i: int)
    requires AT.Inv(s.core) && Enabled(s, a, now) && IsCanceled(s.core.db, i)
    requires a.Finish? ==> s.core.workers[a.worker].run != i
    ensures IsCanceled(Next(s, a, now).core.db, i)
  {
    hide Next, After, AT.Inv, Steals, NextTurn;
    StepMakesCall(s, a, now);
    var call := CallOf(s, a, now);
    if call.Some? {
      NothingStolen(s, a, now, i);
      CanceledStepExact(s.core.db, call.value, now, i);
    }
  }

  lemma CancelStaysOk(s: State, a: Action, now: int, i: int)
    requires Inv(s) && Enabled(s, a, now) && IsTerminal(s.core.db, i)
    requires AT.HasWorker(s.core, i) ==> IsCanceled(s.core.db, i)
    ensures var core := Next(s, a, now).core;
            IsTerminal(core.db, i) && (AT.HasWorker(core, i) ==> IsCanceled(core.db, i))
  {
    hide Next, After, IsTerminal, IsCanceled;
    TerminalStays(s, a, now, i);
    NoNewWorker(s, a, now, i);
    var core := Next(s, a, now).core;
    if AT.HasWorker(core, i) {
      var w :| w in core.workers && core.workers[w].run == i;
      assert w in s.core.workers && s.core.workers[w].run == i;
      CanceledUnlessFinished(s, a, now, i);
    }
  }

  lemma TerminalRunsStayOk(s: State, a: Action, now: int)
    requires Inv(s) && Enabled(s, a, now)
    ensures var core := Next(s, a, now).core;
            forall i | IsTerminal(s.core.db, i) ::
              IsTerminal(core.db, i) &&
              ((AT.HasWorker(s.core, i) ==> IsCanceled(s.core.db, i)) ==> (AT.HasWorker(core, i) ==> IsCanceled(core.db, i)))
  {
    assert AT.Inv(s.core);
    hide Inv, Enabled, Next, IsTerminal, IsCanceled, AT.HasWorker;
    forall i | IsTerminal(s.core.db, i)
      ensures var core := Next(s, a, now).core;
              IsTerminal(core.db, i) &&
              ((AT.HasWorker(s.core, i) ==> IsCanceled(s.core.db, i)) ==> (AT.HasWorker(core, i) ==> IsCanceled(core.db, i)))
    {
      TerminalStays(s, a, now, i);
      if AT.HasWorker(s.core, i) ==> IsCanceled(s.core.db, i) { CancelStaysOk(s, a, now, i); }
    }
  }

  lemma CoreActionKeepsInv(s: State, c: AT.Action, now: int)
    requires Inv(s) && Enabled(s, Core(c), now)
    ensures Inv(Next(s, Core(c), now))
  {
    hide After, AT.Inv, IsTerminal, IsCanceled, AT.HasWorker;
    CoreKeepsInv(s, Core(c), now);
    TerminalRunsStayOk(s, Core(c), now);
  }

  lemma WorkerKeepsInv(s: State, a: Action, now: int)
    requires Inv(s) && Enabled(s, a, now) && (a.Register? || a.Unregister? || a.ReadFlag? || a.Finish?)
    ensures Inv(Next(s, a, now))
  {
    hide After, IsTerminal, IsCanceled, AT.HasWorker;
    CoreKeepsInv(s, a, now);
    TerminalRunsStayOk(s, a, now);
    assert AT.OneWorkerPerRun(s.core);
    hide AT.Inv;
  }

  lemma OutsideKeepsInv(s: State, a: Action, now: int)
    requires Inv(s) && Enabled(s, a, now)
    requires a.MarkCanceled? || a.LoadHandle? || a.SetFlag? || a.ListExpired? || a.Reap?
    ensures Inv(Next(s, a, now))
  {
    hide After, AT.Inv, IsTerminal, IsCanceled, AT.HasWorker;
    CoreKeepsInv(s, a, now);
    TerminalRunsStayOk(s, a, now);
    if a.MarkCanceled? && After(s.core.db, CancelAgent(a.run), now).1 == Ok {
      CancelEnds(s.core.db, a.run, now);
    }
  }

  lemma CancelEnds(db: Db, run: int, now: int)
    requires After(db, CancelAgent(run), now).1 == Ok
    ensures IsCanceled(After(db, CancelAgent(run), now).0, run) && IsTerminal(After(db, CancelAgent(run), now).0, run)
  {
  }

  lemma StepKeepsInv(s: State, a: Action, now: int)
    requires Inv(s) && Enabled(s, a, now)
    ensures Inv(Next(s, a, now))
  {
    hide Inv, Enabled, Next;
    match a
    case Core(c) => CoreActionKeepsInv(s, c, now);
    case Register(_) => WorkerKeepsInv(s, a, now);
    case Unregister(_) => WorkerKeepsInv(s, a, now);
    case ReadFlag(_) => WorkerKeepsInv(s, a, now);
    case Finish(_, _) => WorkerKeepsInv(s, a, now);
    case _ => OutsideKeepsInv(s, a, now);
  }

  lemma {:induction false} RunKeepsInv(s: State, run: seq<Event>)
    requires Inv(s) && Possible(s, run)
    ensures Inv(Final(s, run))
    decreases |run|
  {
    hide Inv, Enabled, Next;
    if run != [] {
      StepKeepsInv(s, run[0].action, run[0].now);
      RunKeepsInv(Next(s, run[0].action, run[0].now), run[1..]);
    }
  }

  const EMPTY := State(AT.EMPTY, map[], [], map[], {}, map[], {})

  // ---------------------------------------------------------------- which cancellations stand

  /** The goroutine will stop at its flag, or has. */
  predicate Held(s: State, w: int)
    requires w in s.stages
  {
    s.stages[w] == Stopped || ((s.stages[w].InTurn? || s.stages[w].Ended?) && s.stages[w].handle in s.flagged)
  }

  /** Some goroutine of the run has not been told in time that it was cancelled. */
  ghost predicate Loose(s: State, i: int) {
    exists w | w in s.core.workers && w in s.stages :: s.core.workers[w].run == i && !Held(s, w)
  }

  predicate CanceledAgentRun(s: State, i: int) { IsCanceled(s.core.db, i) && s.core.db.runs[i].kind == Agent }

  /** Whatever the goroutines, the server and the reaper do next, the run stays cancelled. */
  ghost predicate StaysCanceled(s: State, i: int) {
    forall run: seq<Event> | Possible(s, run) :: IsCanceled(Final(s, run).core.db, i)
  }

  lemma HeldStep(s: State, a: Action, now: int, i: int)
    requires Inv(s) && Enabled(s, a, now) && IsCanceled(s.core.db, i) && !Loose(s, i)
    ensures IsCanceled(Next(s, a, now).core.db, i) && !Loose(Next(s, a, now), i)
  {
    NoNewWorker(s, a, now, i);
    hide After, AT.Inv, StageOk, CancelOk;
    if a.Finish? { assert Held(s, a.worker) || s.core.workers[a.worker].run != i; }
    CanceledUnlessFinished(s, a, now, i);
    hide IsCanceled;
  }

  lemma {:induction false} HeldRunStays(s: State, run: seq<Event>, i: int)
    requires Inv(s) && Possible(s, run) && IsCanceled(s.core.db, i) && !Loose(s, i)
    ensures IsCanceled(Final(s, run).core.db, i)
    decreases |run|
  {
    hide Inv, Enabled, Next, Loose, IsCanceled;
    if run != [] {
      StepKeepsInv(s, run[0].action, run[0].now);
      HeldStep(s, run[0].action, run[0].now, i);
      HeldRunStays(Next(s, run[0].action, run[0].now), run[1..], i);
    }
  }

  function Left(s: State, w: int): nat
    requires w in s.stages && w in s.core.workers
  {
    (match s.stages[w] case InTurn(_) => 2 case Ended(_) => 1 case _ => 0) +
    if s.core.workers[w].phase.Dispatch? then 1 else 0
  }

  function NextToFinish(s: State, w: int): Action
    requires w in s.stages && w in s.core.workers
  {
    match s.stages[w]
    case InTurn(_) => Unregister(w)
    case Ended(_) => ReadFlag(w)
    case _ => if s.core.workers[w].phase.Dispatch? then Core(AT.EndTurn(w, TurnError)) else Finish(w, RunError)
  }

  /** A goroutine that is not held gives up its run with an error. */
  lemma {:induction false} Overwrite(s: State, w: int) returns (run: seq<Event>)
    requires w in s.stages && w in s.core.workers && !Held(s, w) && CanceledAgentRun(s, s.core.workers[w].run)
    ensures Possible(s, run) && !IsCanceled(Final(s, run).core.db, s.core.workers[w].run)
    decreases Left(s, w)
  {
    var a := NextToFinish(s, w);
    var s' := Next(s, a, 0);
    if a.Finish? {
      run := [];
    } else {
      run := Overwrite(s', w);
    }
    run := [Event(a, 0)] + run;
  }

  /** From every reachable state a cancelled agent run stays cancelled, whatever comes next, exactly
      when none of its goroutines is loose: each has stopped at its flag, or will. */
  lemma StaysCanceledExactly(s: State, i: int)
    requires Inv(s) && CanceledAgentRun(s, i)
    ensures StaysCanceled(s, i) <==> !Loose(s, i)
  {
    hide Inv;
    if Loose(s, i) {
      var w :| w in s.core.workers && w in s.stages && s.core.workers[w].run == i && !Held(s, w);
      var run := Overwrite(s, w);
    } else {
      forall run: seq<Event> | Possible(s, run) ensures IsCanceled(Final(s, run).core.db, i) {
        HeldRunStays(s, run, i);
      }
    }
  }

  /** At the moment an open agent run is marked it has no held goroutine, so the mark alone stands
      exactly if nobody works on the run. */
  lemma MarkStandsExactly(s: State, c: int, i: int, now: int)
    requires Inv(s) && OpenAgentRun(s.core.db, i) && c !in s.cancels
    ensures var s' := Next(s, MarkCanceled(c, i), now);
            CanceledAgentRun(s', i) && c in s'.cancels && s'.cancels[c] == Marked(i) &&
            (StaysCanceled(s', i) <==> !AT.HasWorker(s.core, i))
  {
    var s' := Next(s, MarkCanceled(c, i), now);
    OpenOrTerminal(s.core.db.runs[i].status);
    assert s'.core.db == s.core.db.WithRun(i, RunCanceled);
    OutsideKeepsInv(s, MarkCanceled(c, i), now);
    StaysCanceledExactly(s', i);
    forall w | w in s.core.workers && s.core.workers[w].run == i ensures !Held(s, w) {
      assert StageOk(s, w);
    }
    hide AT.Inv, StaysCanceled, After;
  }

  /** The lookup finds the handle of a goroutine that is still in its turn. */
  lemma LookupFindsTurn(s: State, c: int, w: int, now: int)
    requires Inv(s) && Enabled(s, LoadHandle(c), now) && w in s.core.workers && s.stages[w].InTurn?
    requires s.core.workers[w].run == s.cancels[c].run
    ensures var s' := Next(s, LoadHandle(c), now);
            c in s'.cancels && s'.cancels[c] == Loaded(s.cancels[c].run, s.stages[w].handle)
  {
    assert StageOk(s, w);
  }

  /** Once the flag is set the cancellation stands exactly if it reached the goroutine in time:
      the run's goroutine holds the handle that was looked up and has not read its flag, or had
      been told before. */
  lemma FlagStandsExactly(s: State, c: int, w: int, now: int)
    requires Inv(s) && Enabled(s, SetFlag(c), now) && w in s.core.workers
    requires s.core.workers[w].run == s.cancels[c].run && s.core.db.runs[s.cancels[c].run].kind == Agent
    ensures var run, h := s.cancels[c].run, s.cancels[c].handle;
            CanceledAgentRun(s, run) &&
            (StaysCanceled(Next(s, SetFlag(c), now), run) <==>
               Held(s, w) || s.stages[w] == InTurn(h) || s.stages[w] == Ended(h))
  {
    var run := s.cancels[c].run;
    var s' := Next(s, SetFlag(c), now);
    assert CancelOk(s, s.cancels[c]);
    assert AT.HasWorker(s.core, run);
    OutsideKeepsInv(s, SetFlag(c), now);
    StaysCanceledExactly(s', run);
    assert forall v | v in s.core.workers && s.core.workers[v].run == run :: v == w;
    hide AT.Inv, StaysCanceled;
    assert Loose(s', run) <==> !Held(s', w);
  }

  /** A cancellation whose three steps meet a goroutine in its turn stands. */
  lemma PromptCancelStands(s: State, c: int, w: int, now: int)
    requires Inv(s) && c !in s.cancels && w in s.core.workers && s.stages[w].InTurn?
    requires OpenAgentRun(s.core.db, s.core.workers[w].run)
    ensures Enabled(s, MarkCanceled(c, s.core.workers[w].run), now) &&
            var marked := Next(s, MarkCanceled(c, s.core.workers[w].run), now);
            Enabled(marked, LoadHandle(c), now) &&
            var loaded := Next(marked, LoadHandle(c), now);
            Enabled(loaded, SetFlag(c), now) &&
            StaysCanceled(Next(loaded, SetFlag(c), now), s.core.workers[w].run)
  {
    hide StaysCanceled, Inv, After;
    var i := s.core.workers[w].run;
    MarkStandsExactly(s, c, i, now);
    var marked := Next(s, MarkCanceled(c, i), now);
    OutsideKeepsInv(s, MarkCanceled(c, i), now);
    LookupFindsTurn(marked, c, w, now);
    var loaded := Next(marked, LoadHandle(c), now);
    OutsideKeepsInv(marked, LoadHandle(c), now);
    FlagStandsExactly(loaded, c, w, now);
  }

  /** So over everything that can happen from empty tables. */
  lemma CancelRace(run: seq<Event>, i: int)
    requires Possible(EMPTY, run) && CanceledAgentRun(Final(EMPTY, run), i)
    ensures StaysCanceled(Final(EMPTY, run), i) <==> !Loose(Final(EMPTY, run), i)
  {
    RunKeepsInv(EMPTY, run);
    StaysCanceledExactly(Final(EMPTY, run), i);
  }

  // ---------------------------------------------------------------- cancellations that are lost

  ghost predicate Reaches(s: State, run: seq<Event>, t: State) { Possible(s, run) && Final(s, run) == t }

  lemma OneStep(s: State, a: Action)
    requires Enabled(s, a, 0)
    ensures Reaches(s, [Event(a, 0)], Next(s, a, 0))
  {
    assert [Event(a, 0)][1..] == [];
  }

  lemma {:induction false} Then(s: State, run: seq<Event>, t: State, rest: seq<Event>, u: State)
    requires Reaches(s, run, t) && Reaches(t, rest, u)
    ensures Reaches(s, run + rest, u)
    decreases |run|
  {
    hide Enabled, Next;
    if run == [] {
      assert run + rest == rest;
    } else {
      Then(Next(s, run[0].action, run[0].now), run[1..], t, rest, u);
      assert (run + rest)[1..] == run[1..] + rest;
    }
  }

  function OneRun(kind: Kind, status: RunStatus, claimedAt: Option<int>): Db { Db([Run(kind, status, claimedAt)], [], []) }

  /** One run, and one goroutine at a stage. */
  predicate Working(s: State, kind: Kind, status: RunStatus, phase: AT.Phase, stage: Stage) {
    s.core == AT.State(OneRun(kind, status, Some(0)), map[0 := AT.Worker(0, phase)], []) &&
    s.stages == map[0 := stage] && s.registered == map[] && s.cancels == map[]
  }

  lemma FirstTurn(kind: Kind) returns (run: seq<Event>, s: State)
    ensures Reaches(EMPTY, run, s) && Working(s, kind, RunRunning, AT.First, Starting) && s.flagged == {}
  {
    hide AT.Inv;
    var enqueue, begin := Core(AT.Request(EnqueueRun(kind))), Core(AT.BeginRun(0, kind, 0));
    var queued := EMPTY.(core := AT.EMPTY.(db := OneRun(kind, RunQueued, None)));
    assert Next(EMPTY, enqueue, 0) == queued;
    assert RunClaimable(queued.core.db.runs[0], kind, 0, 0);
    assert NextRun(queued.core.db, kind, 0, 0) == 0;
    s := Next(queued, begin, 0);
    OneStep(EMPTY, enqueue);
    OneStep(queued, begin);
    run := [Event(enqueue, 0)] + [Event(begin, 0)];
    Then(EMPTY, [Event(enqueue, 0)], queued, [Event(begin, 0)], s);
  }

  lemma TurnPasses(s: State, kind: Kind) returns (run: seq<Event>, t: State)
    requires kind != CI && Working(s, kind, RunRunning, AT.First, Starting) && s.flagged == {}
    ensures Reaches(s, run, t) && Working(t, kind, RunRunning, AT.First, Passed)
  {
    var inTurn := Next(s, Register(0), 0);
    var ended := Next(inTurn, Unregister(0), 0);
    t := Next(ended, ReadFlag(0), 0);
    OneStep(s, Register(0));
    OneStep(inTurn, Unregister(0));
    OneStep(ended, ReadFlag(0));
    hide Enabled, Next;
    Then(s, [Event(Register(0), 0)], inTurn, [Event(Unregister(0), 0)], ended);
    run := [Event(Register(0), 0)] + [Event(Unregister(0), 0)];
    Then(s, run, ended, [Event(ReadFlag(0), 0)], t);
    run := run + [Event(ReadFlag(0), 0)];
  }

  /** A cancellation that succeeds and finds no handle. */
  lemma CancelUnseen(s: State, phase: AT.Phase, stage: Stage) returns (t: State)
    requires Working(s, Agent, RunRunning, phase, stage)
    ensures Reaches(s, [Event(MarkCanceled(0, 0), 0), Event(LoadHandle(0), 0)], t)
    ensures Working(t, Agent, RunCanceled, phase, stage)
  {
    var marked := Next(s, MarkCanceled(0, 0), 0);
    assert marked.core.db == OneRun(Agent, RunCanceled, Some(0));
    t := Next(marked, LoadHandle(0), 0);
    OneStep(s, MarkCanceled(0, 0));
    OneStep(marked, LoadHandle(0));
    hide Enabled, Next;
    Then(s, [Event(MarkCanceled(0, 0), 0)], marked, [Event(LoadHandle(0), 0)], t);
    assert [Event(MarkCanceled(0, 0), 0)] + [Event(LoadHandle(0), 0)] == [Event(MarkCanceled(0, 0), 0), Event(LoadHandle(0), 0)];
  }

  lemma FinishWrites(s: State, phase: AT.Phase, stage: Stage, status: RunStatus) returns (t: State)
    requires Working(s, Agent, RunCanceled, phase, stage) && !phase.Dispatch? && MayWrite(Agent, phase, stage, status)
    ensures Reaches(s, [Event(Finish(0, status), 0)], t) && t.core.db == OneRun(Agent, status, Some(0))
  {
    t := Next(s, Finish(0, status), 0);
    assert t.core.db == OneRun(Agent, status, Some(0));
    OneStep(s, Finish(0, status));
  }

  /** The run is cancelled between the goroutine's look at its flag and its park: the cancellation
      succeeds, the park fails, and the failure path ends the run with an error. */
  lemma LostToFailedPark(s: State) returns (run: seq<Event>, t: State)
    requires Working(s, Agent, RunRunning, AT.First, Passed)
    ensures run == [Event(MarkCanceled(0, 0), 0), Event(LoadHandle(0), 0), Event(Core(AT.Park(0)), 0), Event(Finish(0, RunError), 0)]
    ensures Reaches(s, run, t) && t.core.db == OneRun(Agent, RunError, Some(0))
  {
    var canceled := CancelUnseen(s, AT.First, Passed);
    var refused := Next(canceled, Core(AT.Park(0)), 0);
    assert refused.core == canceled.core && refused.stages == map[0 := Failing];
    OneStep(canceled, Core(AT.Park(0)));
    t := FinishWrites(refused, AT.First, Failing, RunError);
    hide Enabled, Next, Working;
    run := [Event(MarkCanceled(0, 0), 0), Event(LoadHandle(0), 0)];
    Then(s, run, canceled, [Event(Core(AT.Park(0)), 0)], refused);
    run := run + [Event(Core(AT.Park(0)), 0)];
    Then(s, run, refused, [Event(Finish(0, RunError), 0)], t);
    run := run + [Event(Finish(0, RunError), 0)];
  }

  predicate Unattended(s: State, status: RunStatus) {
    s.core == AT.State(OneRun(Agent, status, Some(0)), map[], []) && s.stages == map[] && s.registered == map[] && s.cancels == map[]
  }

  lemma ParkStep(s: State) returns (t: State)
    requires Working(s, Agent, RunRunning, AT.First, Passed)
    ensures Reaches(s, [Event(Core(AT.Park(0)), 0)], t) && Unattended(t, RunAwaitingInput)
  {
    t := Next(s, Core(AT.Park(0)), 0);
    assert t.core.db == OneRun(Agent, RunAwaitingInput, Some(0));
    OneStep(s, Core(AT.Park(0)));
  }

  lemma AcceptStep(s: State) returns (t: State)
    requires Unattended(s, RunAwaitingInput)
    ensures Reaches(s, [Event(Core(AT.Request(MarkFinishing(0))), 0)], t) && Unattended(t, RunFinishing) && t.expired == s.expired
  {
    t := Next(s, Core(AT.Request(MarkFinishing(0))), 0);
    assert t.core.db == OneRun(Agent, RunFinishing, Some(0));
    OneStep(s, Core(AT.Request(MarkFinishing(0))));
  }

  lemma HandoffStep(s: State) returns (t: State)
    requires Unattended(s, RunFinishing)
    ensures Reaches(s, [Event(Core(AT.BeginHandoff(0)), 0)], t) && Working(t, Agent, RunRunning, AT.Handoff, Starting)
    ensures t.expired == s.expired
  {
    assert NextFinishing(s.core.db) == 0;
    t := Next(s, Core(AT.BeginHandoff(0)), 0);
    assert t.core.db == OneRun(Agent, RunRunning, Some(0));
    OneStep(s, Core(AT.BeginHandoff(0)));
  }

  lemma ToHandoff(s: State) returns (run: seq<Event>, t: State)
    requires Working(s, Agent, RunRunning, AT.First, Passed)
    ensures Reaches(s, run, t) && Working(t, Agent, RunRunning, AT.Handoff, Starting)
  {
    hide Enabled, Next, Working, Unattended;
    var park, accept, begin := Core(AT.Park(0)), Core(AT.Request(MarkFinishing(0))), Core(AT.BeginHandoff(0));
    var parked := ParkStep(s);
    var accepted := AcceptStep(parked);
    t := HandoffStep(accepted);
    Then(s, [Event(park, 0)], parked, [Event(accept, 0)], accepted);
    run := [Event(park, 0)] + [Event(accept, 0)];
    Then(s, run, accepted, [Event(begin, 0)], t);
    run := run + [Event(begin, 0)];
  }

  /** The run is parked, accepted, and cancelled during its handoff: the cancellation succeeds and
      the handoff ends the run as a success. */
  lemma LostToHandoff(s: State) returns (run: seq<Event>, t: State)
    requires Working(s, Agent, RunRunning, AT.Handoff, Starting)
    ensures run == [Event(MarkCanceled(0, 0), 0), Event(LoadHandle(0), 0), Event(Finish(0, RunSuccess), 0)]
    ensures Reaches(s, run, t) && t.core.db == OneRun(Agent, RunSuccess, Some(0))
  {
    var canceled := CancelUnseen(s, AT.Handoff, Starting);
    t := FinishWrites(canceled, AT.Handoff, Starting, RunSuccess);
    hide Enabled, Next, Working;
    run := [Event(MarkCanceled(0, 0), 0), Event(LoadHandle(0), 0)];
    Then(s, run, canceled, [Event(Finish(0, RunSuccess), 0)], t);
    run := run + [Event(Finish(0, RunSuccess), 0)];
  }

  /** Both states in which a cancellation comes too late can be reached from empty tables. */
  lemma LateCancelsAreReal() returns (a: seq<Event>, passed: State, b: seq<Event>, handoff: State)
    ensures Reaches(EMPTY, a, passed) && Working(passed, Agent, RunRunning, AT.First, Passed)
    ensures Reaches(EMPTY, b, handoff) && Working(handoff, Agent, RunRunning, AT.Handoff, Starting)
  {
    var first, s := FirstTurn(Agent);
    var turn;
    turn, passed := TurnPasses(s, Agent);
    var rest;
    rest, handoff := ToHandoff(passed);
    hide Working, Enabled, Next;
    Then(EMPTY, first, s, turn, passed);
    a := first + turn;
    Then(EMPTY, a, passed, rest, handoff);
    b := a + rest;
  }

  /** The verdicts a run can get from its goroutine, cancelled or not. */
  predicate Verdict(kind: Kind, status: RunStatus) {
    match kind
    case CI => status in {RunSuccess, RunFailed, RunCanceled, RunError}
    case Agent => status == RunError
    case SpecVerify => status in {RunSuccess, RunFailed, RunError}
  }

  /** Each of them is reached from empty tables. */
  lemma VerdictsAreReal(kind: Kind, status: RunStatus) returns (run: seq<Event>, t: State)
    requires Verdict(kind, status)
    ensures Reaches(EMPTY, run, t) && t.core.db == OneRun(kind, status, Some(0)) && t.core.workers == map[]
  {
    var s, stage;
    run, s := FirstTurn(kind);
    stage := Starting;
    if kind != CI {
      var turn, passed := TurnPasses(s, kind);
      Then(EMPTY, run, s, turn, passed) by { hide Working, Enabled, Next; }
      run, s, stage := run + turn, passed, Passed;
    }
    t := VerdictWritten(s, kind, stage, status);
    hide Working, Enabled, Next;
    Then(EMPTY, run, s, [Event(Finish(0, status), 0)], t);
    run := run + [Event(Finish(0, status), 0)];
  }

  lemma VerdictWritten(s: State, kind: Kind, stage: Stage, status: RunStatus) returns (t: State)
    requires Working(s, kind, RunRunning, AT.First, stage) && Verdict(kind, status)
    requires stage == if kind == CI then Starting else Passed
    ensures Reaches(s, [Event(Finish(0, status), 0)], t) && t.core.db == OneRun(kind, status, Some(0)) && t.core.workers == map[]
  {
    t := Next(s, Finish(0, status), 0);
    assert t.core.db == OneRun(kind, status, Some(0));
    OneStep(s, Finish(0, status));
  }

  lemma ListStep(s: State) returns (t: State)
    requires Unattended(s, RunAwaitingInput)
    ensures Reaches(s, [Event(ListExpired({0}), 0)], t) && Unattended(t, RunAwaitingInput) && t.expired == {0}
  {
    t := Next(s, ListExpired({0}), 0);
    OneStep(s, ListExpired({0}));
  }

  lemma ReapStep(s: State) returns (t: State)
    requires Working(s, Agent, RunRunning, AT.Handoff, Starting) && 0 in s.expired
    ensures Reaches(s, [Event(Reap(0), 0)], t) && Working(t, Agent, RunCanceled, AT.Handoff, Starting)
  {
    t := Next(s, Reap(0), 0);
    assert t.core.db == OneRun(Agent, RunCanceled, Some(0));
    OneStep(s, Reap(0));
  }

  /** The reaper cancels a run it has listed as parked, also when by then a goroutine works on it
      again. */
  lemma ReapedWhileWorking(s: State) returns (run: seq<Event>, t: State)
    requires Unattended(s, RunAwaitingInput)
    ensures run == [Event(ListExpired({0}), 0), Event(Core(AT.Request(MarkFinishing(0))), 0),
                    Event(Core(AT.BeginHandoff(0)), 0), Event(Reap(0), 0)]
    ensures Reaches(s, run, t) && Working(t, Agent, RunCanceled, AT.Handoff, Starting)
  {
    hide Enabled, Next, Working, Unattended;
    var list, accept, begin, reap := ListExpired({0}), Core(AT.Request(MarkFinishing(0))), Core(AT.BeginHandoff(0)), Reap(0);
    var listed := ListStep(s);
    var accepted := AcceptStep(listed);
    var working := HandoffStep(accepted);
    t := ReapStep(working);
    Then(s, [Event(list, 0)], listed, [Event(accept, 0)], accepted);
    run := [Event(list, 0)] + [Event(accept, 0)];
    Then(s, run, accepted, [Event(begin, 0)], working);
    run := run + [Event(begin, 0)];
    Then(s, run, working, [Event(reap, 0)], t);
    run := run + [Event(reap, 0)];
  }
}
