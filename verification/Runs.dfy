/** The tables of runs, jobs and turns (internal/storage/ci.go, internal/storage/agent_turns.go). */
module Runs {
  import opened Leases
  import opened Options
  import opened Statuses

  datatype Kind = CI | Agent | SpecVerify

  datatype TurnStatus = TurnPending | TurnRunning | TurnDone | TurnError

  /** The statuses `FinishTurn` is called with. */
  type TurnVerdict = s: TurnStatus | s == TurnDone || s == TurnError witness TurnDone

  datatype Run = Run(kind: Kind, status: RunStatus, claimedAt: Option<int>)

  datatype Job = Job(runId: int, name: string, status: JobStatus)

  datatype Turn = Turn(runId: int, number: int, status: TurnStatus, claimedAt: Option<int>)

  /** The three tables. The key of a row is its position: keys are handed out in increasing order
      and never reused. */
  datatype Db = Db(runs: seq<Run>, jobs: seq<Job>, turns: seq<Turn>)
  {
    predicate HasRun(i: int) { 0 <= i < |runs| }
    predicate HasJob(i: int) { 0 <= i < |jobs| }
    predicate HasTurn(i: int) { 0 <= i < |turns| }

    function WithRun(i: int, status: RunStatus): Db
      requires HasRun(i)
    {
      this.(runs := runs[i := runs[i].(status := status)])
    }

    function WithTurn(i: int, status: TurnStatus): Db
      requires HasTurn(i)
    {
      this.(turns := turns[i := turns[i].(status := status)])
    }
  }

  datatype Op =
    | EnqueueRun(kind: Kind)
    | ClaimRun(kind: Kind, lease: int)
    | FinishRun(run: int, status: RunStatus)
    | Reconcile
    | CreateJob(run: int, name: string)
    | StartJob(job: int)
    | FinishJob(job: int, verdict: JobStatus)
    | EnqueueTurn(run: int)
    | ClaimTurn(lease: int)
    | FinishTurn(turn: int, outcome: TurnVerdict)
    | MarkAwaitingInput(run: int)
    | MarkFinishing(run: int)
    | CancelAgent(run: int)
    | CancelCI(run: int)
    | ClaimFinishing

  datatype Result = Ok | Row(id: int) | Idle | NotFound | NotTerminal | BadReference

  // ---------------------------------------------------------------- queries

  /** The first row a query selects, or the table's length: `ORDER BY id ASC LIMIT 1`. */
  function FirstIndex<T>(s: seq<T>, p: T -> bool): (k: nat)
    ensures k <= |s| && (k < |s| ==> p(s[k])) && forall i | 0 <= i < k :: !p(s[i])
  {
    if s == [] || p(s[0]) then 0 else 1 + FirstIndex(s[1..], p)
  }

  predicate RunClaimable(r: Run, kind: Kind, lease: int, now: int) {
    r.kind == kind && (r.status == RunQueued || (r.status == RunRunning && Expired(r.claimedAt, lease, now)))
  }

  predicate TurnClaimable(runs: seq<Run>, t: Turn, lease: int, now: int) {
    && 0 <= t.runId < |runs| && runs[t.runId].kind == Agent
    && ((t.status == TurnPending && runs[t.runId].status == RunAwaitingInput)
        || (t.status == TurnRunning && Expired(t.claimedAt, lease, now)))
  }

  predicate AwaitsHandoff(r: Run) { r.kind == Agent && r.status == RunFinishing }

  function NextRun(db: Db, kind: Kind, lease: int, now: int): nat {
    FirstIndex(db.runs, (r: Run) => RunClaimable(r, kind, lease, now))
  }

  function NextTurn(db: Db, lease: int, now: int): nat {
    FirstIndex(db.turns, (t: Turn) => TurnClaimable(db.runs, t, lease, now))
  }

  function NextFinishing(db: Db): nat { FirstIndex(db.runs, AwaitsHandoff) }

  function JobNamed(db: Db, run: int, name: string): nat {
    FirstIndex(db.jobs, (j: Job) => j.runId == run && j.name == name)
  }

  /** `COALESCE(MAX(seq), 0)` over a run's turns. */
  function MaxNumber(turns: seq<Turn>, run: int): (m: int)
    ensures m >= 0 && forall i | 0 <= i < |turns| && turns[i].runId == run :: turns[i].number <= m
  {
    if turns == [] then 0
    else
      var last := turns[|turns| - 1];
      var m := MaxNumber(turns[..|turns| - 1], run);
      if last.runId == run && last.number > m then last.number else m
  }

  /** Numbers are positive; n is the least that exceeds those of the run's turns. */
  ghost predicate FollowsTurns(turns: seq<Turn>, run: int, n: int) {
    && n >= 1 && (forall t | 0 <= t < |turns| && turns[t].runId == run :: turns[t].number < n)
    && (n == 1 || exists t | 0 <= t < |turns| :: turns[t].runId == run && turns[t].number == n - 1)
  }

  lemma {:induction false} MaxFollows(turns: seq<Turn>, run: int)
    ensures FollowsTurns(turns, run, MaxNumber(turns, run) + 1)
  {
    if turns != [] {
      var n := |turns| - 1;
      MaxFollows(turns[..n], run);
      var m := MaxNumber(turns[..n], run);
      if m > 0 {
        var t :| 0 <= t < n && turns[..n][t].runId == run && turns[..n][t].number == m;
        assert turns[t].number == m;
      }
      assert turns[n].runId == run && turns[n].number > m ==> turns[n].number == MaxNumber(turns, run);
    }
  }

  predicate Orphaned(s: RunStatus) { s == RunRunning || s == RunAwaitingInput || s == RunFinishing }

  predicate OrphanedRun(runs: seq<Run>, i: int) { 0 <= i < |runs| && Orphaned(runs[i].status) }

  function ReconciledJob(runs: seq<Run>, j: Job): Job {
    if (j.status == JobRunning || j.status == JobQueued) && OrphanedRun(runs, j.runId)
    then j.(status := JobInterrupted) else j
  }

  function ReconciledTurn(runs: seq<Run>, t: Turn): Turn {
    if (t.status == TurnPending || t.status == TurnRunning) && OrphanedRun(runs, t.runId)
    then t.(status := TurnError) else t
  }

  function ReconciledRun(r: Run): Run {
    if Orphaned(r.status) then r.(status := RunInterrupted) else r
  }

  function Mapped<A, B>(s: seq<A>, f: A -> B): (r: seq<B>)
    ensures |r| == |s| && forall i | 0 <= i < |s| :: r[i] == f(s[i])
  {
    seq(|s|, i requires 0 <= i < |s| => f(s[i]))
  }

  lemma MappedIs<A, B>(r: seq<B>, s: seq<A>, f: A -> B)
    requires |r| == |s| && forall i | 0 <= i < |s| :: r[i] == f(s[i])
    ensures r == Mapped(s, f)
  {
  }

  function OrphanCount(runs: seq<Run>): nat {
    if runs == [] then 0
    else OrphanCount(runs[..|runs| - 1]) + if Orphaned(runs[|runs| - 1].status) then 1 else 0
  }

  /** Run i was under way, and not merely queued, when the runner stopped. */
  ghost predicate LeftOpen(runs: seq<Run>, i: int) {
    0 <= i < |runs| && runs[i].status in {RunRunning, RunAwaitingInput, RunFinishing}
  }

  lemma {:induction false} OrphansCounted(runs: seq<Run>)
    ensures OrphanCount(runs) == |set i | 0 <= i < |runs| && LeftOpen(runs, i)|
  {
    var open := set i | 0 <= i < |runs| && LeftOpen(runs, i);
    if runs != [] {
      var n := |runs| - 1;
      OrphansCounted(runs[..n]);
      var before := set i | 0 <= i < |runs[..n]| && LeftOpen(runs[..n], i);
      assert forall i | 0 <= i < n :: LeftOpen(runs[..n], i) <==> LeftOpen(runs, i);
      assert LeftOpen(runs, n) <==> Orphaned(runs[n].status);
      hide LeftOpen, Orphaned;
      assert open == if LeftOpen(runs, n) then before + {n} else before;
    }
  }

  // ---------------------------------------------------------------- the operations as functions

  function AfterClaimRun(db: Db, kind: Kind, lease: int, now: int): (Db, Result) {
    var i := NextRun(db, kind, lease, now);
    if i == |db.runs| then (db, Idle)
    else (db.(runs := db.runs[i := db.runs[i].(status := RunRunning, claimedAt := Some(now))]), Row(i))
  }

  /** The claim of a turn also marks its run running, whatever the run's status was. */
  function AfterClaimTurn(db: Db, lease: int, now: int): (Db, Result) {
    var t := NextTurn(db, lease, now);
    if t == |db.turns| then (db, Idle)
    else
      var turn := db.turns[t].(status := TurnRunning, claimedAt := Some(now));
      (db.(turns := db.turns[t := turn]).WithRun(turn.runId, RunRunning), Row(t))
  }

  function AfterReconcile(db: Db): (r: Db)
    ensures |r.runs| == |db.runs| && |r.turns| == |db.turns| && |r.jobs| == |db.jobs|
  {
    Db(Mapped(db.runs, ReconciledRun),
       Mapped(db.jobs, (j: Job) => ReconciledJob(db.runs, j)),
       Mapped(db.turns, (t: Turn) => ReconciledTurn(db.runs, t)))
  }

  function AfterCreateJob(db: Db, run: int, name: string): (Db, Result) {
    var k := JobNamed(db, run, name);
    if k < |db.jobs| then (db.(jobs := db.jobs[k := db.jobs[k].(status := JobQueued)]), Row(k))
    else if !db.HasRun(run) then (db, BadReference)
    else (db.(jobs := db.jobs + [Job(run, name, JobQueued)]), Row(|db.jobs|))
  }

  /** A guarded update of a run's status. */
  function AfterMove(db: Db, run: int, from: set<RunStatus>, to: RunStatus): (Db, Result) {
    if db.HasRun(run) && db.runs[run].status in from then (db.WithRun(run, to), Ok) else (db, NotFound)
  }

  /** One storage call at time `now` (whole seconds), as a transaction on the tables. */
  function After(db: Db, op: Op, now: int): (Db, Result) {
    match op
    case EnqueueRun(kind) => (db.(runs := db.runs + [Run(kind, RunQueued, None)]), Row(|db.runs|))
    case ClaimRun(kind, lease) => AfterClaimRun(db, kind, lease, now)
    case FinishRun(run, status) =>
      if !status.Terminal() then (db, NotTerminal)
      else if db.HasRun(run) then (db.WithRun(run, status), Ok)
      else (db, NotFound)
    case Reconcile => (AfterReconcile(db), Ok)
    case CreateJob(run, name) => AfterCreateJob(db, run, name)
    case StartJob(job) =>
      if db.HasJob(job) then (db.(jobs := db.jobs[job := db.jobs[job].(status := JobRunning)]), Ok) else (db, NotFound)
    case FinishJob(job, verdict) =>
      if db.HasJob(job) then (db.(jobs := db.jobs[job := db.jobs[job].(status := verdict)]), Ok) else (db, NotFound)
    case EnqueueTurn(run) =>
      if db.HasRun(run)
      then (db.(turns := db.turns + [Turn(run, MaxNumber(db.turns, run) + 1, TurnPending, None)]), Row(|db.turns|))
      else (db, BadReference)
    case ClaimTurn(lease) => AfterClaimTurn(db, lease, now)
    case FinishTurn(turn, outcome) =>
      if db.HasTurn(turn) then (db.WithTurn(turn, outcome), Ok) else (db, NotFound)
    case MarkAwaitingInput(run) => AfterMove(db, run, {RunRunning}, RunAwaitingInput)
    case MarkFinishing(run) => AfterMove(db, run, {RunAwaitingInput}, RunFinishing)
    case CancelAgent(run) =>
      if db.HasRun(run) && db.runs[run].kind != Agent then (db, NotFound)
      else AfterMove(db, run, {RunQueued, RunRunning, RunAwaitingInput, RunFinishing}, RunCanceled)
    case CancelCI(run) =>
      if db.HasRun(run) && db.runs[run].kind != CI then (db, NotFound)
      else AfterMove(db, run, {RunQueued}, RunCanceled)
    case ClaimFinishing =>
      var i := NextFinishing(db);
      if i == |db.runs| then (db, Idle) else (db.WithRun(i, RunRunning), Row(i))
  }

  method FindFirst<T>(s: seq<T>, p: T -> bool) returns (k: nat)
    ensures k == FirstIndex(s, p)
  {
    k := 0;
    while k < |s| && !p(s[k])
      invariant k <= |s| && FirstIndex(s, p) == k + FirstIndex(s[k..], p)
    {
      k := k + 1;
    }
  }

  // ---------------------------------------------------------------- the operations

  // ---------------------------------------------------------------- what the claims look for

  /** `seconds` of the lease, given in nanoseconds, have passed since the claim; leases that are not
      positive never run out. */
  ghost predicate PastLease(claimedAt: Option<int>, lease: int, now: int) {
    lease > 0 && claimedAt.Some? && now - claimedAt.value >= lease / 1_000_000_000
  }

  /** A run that nobody works on: queued, or running past its lease. */
  ghost predicate FreeRun(r: Run, lease: int, now: int) {
    r.status == RunQueued || (r.status == RunRunning && PastLease(r.claimedAt, lease, now))
  }

  /** A turn of an agent run that nobody works on: pending while its run is parked, or running past
      its lease whatever its run's status. */
  ghost predicate FreeTurn(runs: seq<Run>, t: Turn, lease: int, now: int) {
    && 0 <= t.runId < |runs| && runs[t.runId].kind == Agent
    && (t.status == TurnPending ==> runs[t.runId].status == RunAwaitingInput)
    && (t.status == TurnPending || (t.status == TurnRunning && PastLease(t.claimedAt, lease, now)))
  }

  class RunStore {
    var runs: seq<Run>
    var jobs: seq<Job>
    var turns: seq<Turn>

    constructor ()
      ensures View() == Db([], [], [])
    {
      runs, jobs, turns := [], [], [];
    }

    ghost function View(): Db
      reads this
    {
      Db(runs, jobs, turns)
    }

    method EnqueueRun(kind: Kind, now: int) returns (r: Result)
      modifies this
      ensures (View(), r) == After(old(View()), Op.EnqueueRun(kind), now)
    {
      r := Row(|runs|);
      runs := runs + [Run(kind, RunQueued, None)];
    }

    /** Takes the lowest run of the kind that is free, marks it running from now on and leaves every
        other row alone; idle exactly if there is none. */
    method ClaimNextRunOfKind(kind: Kind, lease: int, now: int) returns (r: Result)
      modifies this
      ensures (View(), r) == After(old(View()), ClaimRun(kind, lease), now)
      ensures r.Row? || r == Idle
      ensures r == Idle <==> forall i | 0 <= i < |old(runs)| :: old(runs)[i].kind != kind || !FreeRun(old(runs)[i], lease, now)
      ensures r == Idle ==> runs == old(runs)
      ensures r.Row? ==>
                && 0 <= r.id < |old(runs)| && old(runs)[r.id].kind == kind && FreeRun(old(runs)[r.id], lease, now)
                && (forall i | 0 <= i < r.id :: old(runs)[i].kind != kind || !FreeRun(old(runs)[i], lease, now))
                && runs == old(runs)[r.id := Run(kind, RunRunning, Some(now))]
      ensures jobs == old(jobs) && turns == old(turns)
    {
      var i := FindFirst(runs, (r: Run) => RunClaimable(r, kind, lease, now));
      assert i == NextRun(View(), kind, lease, now);
      if i == |runs| { return Idle; }
      runs := runs[i := runs[i].(status := RunRunning, claimedAt := Some(now))];
      r := Row(i);
    }

    method FinishRun(run: int, status: RunStatus, now: int) returns (r: Result)
      modifies this
      ensures (View(), r) == After(old(View()), Op.FinishRun(run, status), now)
    {
      if !status.Terminal() { return NotTerminal; }
      if !(0 <= run < |runs|) { return NotFound; }
      runs := runs[run := runs[run].(status := status)];
      r := Ok;
    }

    /** Three updates, row by row; jobs and turns are updated while the runs still show which of
        them are orphans. The contract says what changes and what does not. */
    method ReconcileOrphanRuns(now: int) returns (count: nat)
      modifies this
      ensures View() == After(old(View()), Reconcile, now).0
      ensures |jobs| == |old(jobs)| && |turns| == |old(turns)| && |runs| == |old(runs)|
      ensures forall j | 0 <= j < |jobs| ::
                jobs[j] == if LeftOpen(old(runs), jobs[j].runId) && old(jobs)[j].status in {JobQueued, JobRunning}
                           then old(jobs)[j].(status := JobInterrupted) else old(jobs)[j]
      ensures forall t | 0 <= t < |turns| ::
                turns[t] == if LeftOpen(old(runs), turns[t].runId) && old(turns)[t].status in {TurnPending, TurnRunning}
                            then old(turns)[t].(status := TurnError) else old(turns)[t]
      ensures forall i | 0 <= i < |runs| ::
                runs[i] == if LeftOpen(old(runs), i) then old(runs)[i].(status := RunInterrupted) else old(runs)[i]
      ensures count == |set i | 0 <= i < |runs| && LeftOpen(old(runs), i)|
    {
      InterruptJobs();
      FailTurns();
      count := InterruptRuns();
      OrphansCounted(old(runs));
      MappedIs(jobs, old(jobs), (j: Job) => ReconciledJob(old(runs), j));
      MappedIs(turns, old(turns), (t: Turn) => ReconciledTurn(old(runs), t));
      MappedIs(runs, old(runs), ReconciledRun);
    }

    method InterruptJobs()
      modifies this`jobs
      ensures |jobs| == |old(jobs)|
      ensures forall j | 0 <= j < |jobs| :: jobs[j] == ReconciledJob(runs, old(jobs)[j])
    {
      for i := 0 to |jobs|
        invariant |jobs| == |old(jobs)|
        invariant forall j | 0 <= j < |jobs| :: jobs[j] == if j < i then ReconciledJob(runs, old(jobs)[j]) else old(jobs)[j]
      {
        if (jobs[i].status == JobRunning || jobs[i].status == JobQueued) && OrphanedRun(runs, jobs[i].runId) {
          jobs := jobs[i := jobs[i].(status := JobInterrupted)];
        }
      }
    }

    method FailTurns()
      modifies this`turns
      ensures |turns| == |old(turns)|
      ensures forall t | 0 <= t < |turns| :: turns[t] == ReconciledTurn(runs, old(turns)[t])
    {
      for i := 0 to |turns|
        invariant |turns| == |old(turns)|
        invariant forall t | 0 <= t < |turns| :: turns[t] == if t < i then ReconciledTurn(runs, old(turns)[t]) else old(turns)[t]
      {
        if (turns[i].status == TurnPending || turns[i].status == TurnRunning) && OrphanedRun(runs, turns[i].runId) {
          turns := turns[i := turns[i].(status := TurnError)];
        }
      }
    }

    method InterruptRuns() returns (count: nat)
      modifies this`runs
      ensures |runs| == |old(runs)| && count == OrphanCount(old(runs))
      ensures forall i | 0 <= i < |runs| :: runs[i] == ReconciledRun(old(runs)[i])
    {
      count := 0;
      for i := 0 to |runs|
        invariant |runs| == |old(runs)| && count == OrphanCount(old(runs)[..i])
        invariant forall k | 0 <= k < |runs| :: runs[k] == if k < i then ReconciledRun(old(runs)[k]) else old(runs)[k]
      {
        assert old(runs)[..i + 1][..i] == old(runs)[..i];
        if Orphaned(runs[i].status) {
          runs := runs[i := runs[i].(status := RunInterrupted)];
          count := count + 1;
        }
      }
      assert old(runs)[..|runs|] == old(runs);
    }

    /** Resets the run's job of that name, if it has one, and otherwise adds a queued one. */
    method CreateJob(run: int, name: string, now: int) returns (r: Result)
      modifies this
      ensures (View(), r) == After(old(View()), Op.CreateJob(run, name), now)
      ensures (exists k | 0 <= k < |old(jobs)| :: old(jobs)[k].runId == run && old(jobs)[k].name == name) ==>
                && r.Row? && 0 <= r.id < |old(jobs)|
                && old(jobs)[r.id].runId == run && old(jobs)[r.id].name == name
                && jobs == old(jobs)[r.id := Job(run, name, JobQueued)]
      ensures (forall k | 0 <= k < |old(jobs)| :: old(jobs)[k].runId != run || old(jobs)[k].name != name) ==>
                if 0 <= run < |runs| then r == Row(|old(jobs)|) && jobs == old(jobs) + [Job(run, name, JobQueued)]
                else r == BadReference && jobs == old(jobs)
      ensures runs == old(runs) && turns == old(turns)
    {
      var k := FindFirst(jobs, (j: Job) => j.runId == run && j.name == name);
      assert k == JobNamed(View(), run, name);
      if k < |jobs| {
        jobs := jobs[k := jobs[k].(status := JobQueued)];
        return Row(k);
      }
      if !(0 <= run < |runs|) { return BadReference; }
      r := Row(|jobs|);
      jobs := jobs + [Job(run, name, JobQueued)];
    }

    method StartJob(job: int, now: int) returns (r: Result)
      modifies this
      ensures (View(), r) == After(old(View()), Op.StartJob(job), now)
    {
      if !(0 <= job < |jobs|) { return NotFound; }
      jobs := jobs[job := jobs[job].(status := JobRunning)];
      r := Ok;
    }

    method FinishJob(job: int, verdict: JobStatus, now: int) returns (r: Result)
      modifies this
      ensures (View(), r) == After(old(View()), Op.FinishJob(job, verdict), now)
    {
      if !(0 <= job < |jobs|) { return NotFound; }
      jobs := jobs[job := jobs[job].(status := verdict)];
      r := Ok;
    }

    /** Adds a pending turn. A run's first turn has number one, and each later one comes right
        after the highest of those before it. */
    method EnqueueTurn(run: int, now: int) returns (r: Result)
      modifies this
      ensures (View(), r) == After(old(View()), Op.EnqueueTurn(run), now)
      ensures runs == old(runs) && jobs == old(jobs)
      ensures if 0 <= run < |runs| then r == Row(|old(turns)|) else r == BadReference && turns == old(turns)
      ensures r.Row? ==>
                exists n :: turns == old(turns) + [Turn(run, n, TurnPending, None)] && FollowsTurns(old(turns), run, n)
    {
      var max, i := 0, 0;
      while i < |turns|
        invariant 0 <= i <= |turns| && max == MaxNumber(turns[..i], run)
      {
        assert turns[..i + 1][..i] == turns[..i];
        if turns[i].runId == run && turns[i].number > max { max := turns[i].number; }
        i := i + 1;
      }
      assert turns[..i] == turns;
      if !(0 <= run < |runs|) { return BadReference; }
      r := Row(|turns|);
      MaxFollows(turns, run);
      turns := turns + [Turn(run, max + 1, TurnPending, None)];
    }

    /** Takes the lowest free turn and marks it and its run running; idle exactly if there is none. */
    method ClaimNextTurn(lease: int, now: int) returns (r: Result)
      modifies this
      ensures (View(), r) == After(old(View()), ClaimTurn(lease), now)
      ensures r.Row? || r == Idle
      ensures r == Idle <==> forall t | 0 <= t < |old(turns)| :: !FreeTurn(old(runs), old(turns)[t], lease, now)
      ensures r == Idle ==> turns == old(turns) && runs == old(runs)
      ensures r.Row? ==>
                && 0 <= r.id < |old(turns)| && FreeTurn(old(runs), old(turns)[r.id], lease, now)
                && (forall t | 0 <= t < r.id :: !FreeTurn(old(runs), old(turns)[t], lease, now))
                && var turn := old(turns)[r.id]; var run := old(runs)[turn.runId];
                   && turns == old(turns)[r.id := Turn(turn.runId, turn.number, TurnRunning, Some(now))]
                   && runs == old(runs)[turn.runId := Run(Agent, RunRunning, run.claimedAt)]
      ensures jobs == old(jobs)
    {
      var before := runs;
      var t := FindFirst(turns, (t: Turn) => TurnClaimable(before, t, lease, now));
      assert t == NextTurn(View(), lease, now);
      if t == |turns| { return Idle; }
      turns := turns[t := turns[t].(status := TurnRunning, claimedAt := Some(now))];
      runs := runs[turns[t].runId := runs[turns[t].runId].(status := RunRunning)];
      r := Row(t);
    }

    method FinishTurn(turn: int, outcome: TurnVerdict, now: int) returns (r: Result)
      modifies this
      ensures (View(), r) == After(old(View()), Op.FinishTurn(turn, outcome), now)
    {
      if !(0 <= turn < |turns|) { return NotFound; }
      turns := turns[turn := turns[turn].(status := outcome)];
      r := Ok;
    }

    /** `UPDATE ci_runs SET status = ? WHERE id = ? AND status IN (...)`. */
    method MoveRun(run: int, from: set<RunStatus>, to: RunStatus) returns (r: Result)
      modifies this
      ensures (View(), r) == AfterMove(old(View()), run, from, to)
    {
      if !(0 <= run < |runs| && runs[run].status in from) { return NotFound; }
      runs := runs[run := runs[run].(status := to)];
      r := Ok;
    }

    method MarkRunAwaitingInput(run: int, now: int) returns (r: Result)
      modifies this
      ensures (View(), r) == After(old(View()), MarkAwaitingInput(run), now)
    {
      r := MoveRun(run, {RunRunning}, RunAwaitingInput);
    }

    method MarkRunFinishing(run: int, now: int) returns (r: Result)
      modifies this
      ensures (View(), r) == After(old(View()), MarkFinishing(run), now)
    {
      r := MoveRun(run, {RunAwaitingInput}, RunFinishing);
    }

    method CancelAgentRun(run: int, now: int) returns (r: Result)
      modifies this
      ensures (View(), r) == After(old(View()), CancelAgent(run), now)
    {
      if 0 <= run < |runs| && runs[run].kind != Agent { return NotFound; }
      r := MoveRun(run, {RunQueued, RunRunning, RunAwaitingInput, RunFinishing}, RunCanceled);
    }

    method CancelCIRun(run: int, now: int) returns (r: Result)
      modifies this
      ensures (View(), r) == After(old(View()), CancelCI(run), now)
    {
      if 0 <= run < |runs| && runs[run].kind != CI { return NotFound; }
      r := MoveRun(run, {RunQueued}, RunCanceled);
    }

    /** Takes the lowest accepted agent run; idle exactly if there is none. */
    method ClaimNextFinishingRun(now: int) returns (r: Result)
      modifies this
      ensures (View(), r) == After(old(View()), ClaimFinishing, now)
      ensures r.Row? || r == Idle
      ensures r == Idle <==> forall i | 0 <= i < |old(runs)| :: old(runs)[i].kind != Agent || old(runs)[i].status != RunFinishing
      ensures r == Idle ==> runs == old(runs)
      ensures r.Row? ==>
                && 0 <= r.id < |old(runs)|
                && (forall i | 0 <= i < r.id :: old(runs)[i].kind != Agent || old(runs)[i].status != RunFinishing)
                && var run := old(runs)[r.id];
                   && run.kind == Agent && run.status == RunFinishing
                   && runs == old(runs)[r.id := Run(Agent, RunRunning, run.claimedAt)]
      ensures jobs == old(jobs) && turns == old(turns)
    {
      var i := FindFirst(runs, AwaitsHandoff);
      assert i == NextFinishing(View());
      if i == |runs| { return Idle; }
      runs := runs[i := runs[i].(status := RunRunning)];
      r := Row(i);
    }
  }

  // ---------------------------------------------------------------- kinds drain apart

  lemma {:induction false} FirstOfKind(runs: seq<Run>, runs': seq<Run>, kind: Kind, lease: int, now: int)
    requires |runs| == |runs'| && forall i | 0 <= i < |runs| && (runs[i].kind == kind || runs'[i].kind == kind) :: runs'[i] == runs[i]
    ensures FirstIndex(runs, (r: Run) => RunClaimable(r, kind, lease, now)) == FirstIndex(runs', (r: Run) => RunClaimable(r, kind, lease, now))
  {
    if runs != [] { FirstOfKind(runs[1..], runs'[1..], kind, lease, now); }
  }

  lemma ClaimKeepsOthers(db: Db, kind: Kind, lease: int, now: int)
    ensures var db' := After(db, ClaimRun(kind, lease), now).0;
            && |db'.runs| == |db.runs| && db'.jobs == db.jobs && db'.turns == db.turns
            && (forall i | 0 <= i < |db.runs| :: db'.runs[i].kind == db.runs[i].kind)
            && (forall i | 0 <= i < |db.runs| && db.runs[i].kind != kind :: db'.runs[i] == db.runs[i])
  {
    hide FirstIndex;
  }

  lemma ClaimLooksAtOwn(db: Db, db': Db, kind: Kind, lease: int, now: int)
    requires |db.runs| == |db'.runs|
    requires forall i | 0 <= i < |db.runs| && (db.runs[i].kind == kind || db'.runs[i].kind == kind) :: db'.runs[i] == db.runs[i]
    ensures After(db', ClaimRun(kind, lease), now).1 == After(db, ClaimRun(kind, lease), now).1
  {
    FirstOfKind(db.runs, db'.runs, kind, lease, now);
    hide FirstIndex;
  }

  /** Claims of one kind, however many, with whatever leases and at whatever times, change no run of
      another kind and nothing else, and every claim of another kind takes the run it would have
      taken without them. */
  lemma {:induction false} KindsDrainApart(db: Db, calls: seq<Call>, kind: Kind, other: Kind, lease: int, now: int)
    requires forall k | 0 <= k < |calls| :: calls[k].op.ClaimRun? && calls[k].op.kind == kind
    requires other != kind
    ensures var db' := AfterAll(db, calls);
            && |db'.runs| == |db.runs| && db'.jobs == db.jobs && db'.turns == db.turns
            && (forall i | 0 <= i < |db.runs| :: db'.runs[i].kind == db.runs[i].kind)
            && (forall i | 0 <= i < |db.runs| && db.runs[i].kind != kind :: db'.runs[i] == db.runs[i])
            && After(db', ClaimRun(other, lease), now).1 == After(db, ClaimRun(other, lease), now).1
    decreases |calls|
  {
    hide After;
    if calls != [] {
      assert calls[0].op.ClaimRun?;
      ClaimKeepsOthers(db, kind, calls[0].op.lease, calls[0].now);
      var db1 := After(db, calls[0].op, calls[0].now).0;
      assert forall k | 0 <= k < |calls| - 1 :: calls[1..][k] == calls[k + 1];
      KindsDrainApart(db1, calls[1..], kind, other, lease, now);
      ClaimLooksAtOwn(db, db1, other, lease, now);
    }
  }

  // ---------------------------------------------------------------- terminal is final

  /** The call takes over a running turn of run i past its lease. */
  predicate Steals(db: Db, op: Op, now: int, i: int) {
    op.ClaimTurn? &&
    var t := NextTurn(db, op.lease, now);
    t < |db.turns| && db.turns[t].runId == i && db.turns[t].status == TurnRunning
  }

  predicate IsTerminal(db: Db, i: int) { db.HasRun(i) && db.runs[i].status.Terminal() }

  /** A terminal run is left in a single way, and that way always leaves it. */
  lemma TerminalStepExact(db: Db, op: Op, now: int, i: int)
    requires IsTerminal(db, i)
    ensures IsTerminal(After(db, op, now).0, i) <==> !Steals(db, op, now, i)
  {
    hide FirstIndex, JobNamed, MaxNumber, Mapped;
  }

  datatype Call = Call(op: Op, now: int)

  predicate AlwaysTerminal(db: Db, calls: seq<Call>, i: int)
    decreases |calls|
  {
    IsTerminal(db, i) && (calls == [] || AlwaysTerminal(After(db, calls[0].op, calls[0].now).0, calls[1..], i))
  }

  predicate NeverStolen(db: Db, calls: seq<Call>, i: int)
    decreases |calls|
  {
    calls == [] || (!Steals(db, calls[0].op, calls[0].now, i) &&
                    NeverStolen(After(db, calls[0].op, calls[0].now).0, calls[1..], i))
  }

  /** Over every sequence of storage calls at any times, a terminal run stays terminal exactly
      when no call steals one of its turns. */
  lemma {:induction false} TerminalIsFinal(db: Db, calls: seq<Call>, i: int)
    requires IsTerminal(db, i)
    ensures AlwaysTerminal(db, calls, i) <==> NeverStolen(db, calls, i)
    decreases |calls|
  {
    hide After, Steals;
    if calls != [] {
      var db' := After(db, calls[0].op, calls[0].now).0;
      TerminalStepExact(db, calls[0].op, calls[0].now, i);
      if IsTerminal(db', i) { TerminalIsFinal(db', calls[1..], i); }
    }
  }

  /** Without a turn lease, terminal is final without exception. */
  lemma {:induction false} NoTurnLeaseNoExit(db: Db, calls: seq<Call>, i: int)
    requires IsTerminal(db, i)
    requires forall k | 0 <= k < |calls| && calls[k].op.ClaimTurn? :: calls[k].op.lease <= 0
    ensures AlwaysTerminal(db, calls, i)
    decreases |calls|
  {
    hide After;
    if calls != [] {
      assert calls[0].op.ClaimTurn? ==> calls[0].op.lease <= 0;
      TerminalStepExact(db, calls[0].op, calls[0].now, i);
      NoTurnLeaseNoExit(After(db, calls[0].op, calls[0].now).0, calls[1..], i);
    }
  }

  /** A terminal write: the unguarded one, or a cancellation. */
  predicate Ends(db: Db, op: Op, i: int) {
    db.HasRun(i) &&
    ((op.FinishRun? && op.run == i && op.status.Terminal()) || (op == CancelAgent(i) && db.runs[i].kind == Agent))
  }

  /** Finishing a run and cancelling an agent run end it from any state, for good unless a later
      call steals one of its turns; only cancelling reports whether it was still open. */
  lemma EndedForGood(db: Db, op: Op, now: int, i: int, calls: seq<Call>)
    requires Ends(db, op, i)
    ensures IsTerminal(After(db, op, now).0, i)
    ensures AlwaysTerminal(After(db, op, now).0, calls, i) <==> NeverStolen(After(db, op, now).0, calls, i)
    ensures op.FinishRun? ==> After(db, op, now).1 == Ok && After(db, op, now).0.runs[i].status == op.status
    ensures op.CancelAgent? ==>
              (After(db, op, now).1 == Ok <==> !IsTerminal(db, i)) &&
              (After(db, op, now).1 != Ok ==> After(db, op, now).0 == db)
  {
    OpenOrTerminal(db.runs[i].status);
    TerminalIsFinal(After(db, op, now).0, calls, i);
  }

  /** The guarded writes a runner may be making to an agent run while it is being cancelled. */
  predicate RunnerWrite(op: Op) {
    op.ClaimRun? || op.ClaimTurn? || op.ClaimFinishing? || op.MarkAwaitingInput? || op.MarkFinishing?
  }

  function AfterAll(db: Db, calls: seq<Call>): Db
    decreases |calls|
  {
    if calls == [] then db else AfterAll(After(db, calls[0].op, calls[0].now).0, calls[1..])
  }

  predicate OpenAgentRun(db: Db, i: int) { db.HasRun(i) && db.runs[i].kind == Agent && !IsTerminal(db, i) }

  lemma {:induction false} StillOpen(db: Db, calls: seq<Call>, i: int)
    requires OpenAgentRun(db, i)
    requires forall k | 0 <= k < |calls| :: RunnerWrite(calls[k].op)
    ensures OpenAgentRun(AfterAll(db, calls), i)
    decreases |calls|
  {
    hide FirstIndex, JobNamed, MaxNumber, Mapped;
    if calls != [] {
      assert RunnerWrite(calls[0].op);
      assert forall k | 0 <= k < |calls| - 1 :: calls[1..][k] == calls[k + 1];
      StillOpen(After(db, calls[0].op, calls[0].now).0, calls[1..], i);
    }
  }

  predicate IsCanceled(db: Db, i: int) { db.HasRun(i) && db.runs[i].status == RunCanceled }

  /** The unguarded terminal write with another verdict: a runner that gives up or hands off. */
  predicate Overwrites(op: Op, i: int) {
    op.FinishRun? && op.run == i && op.status.Terminal() && op.status != RunCanceled
  }

  lemma CanceledStepExact(db: Db, op: Op, now: int, i: int)
    requires IsCanceled(db, i)
    ensures IsCanceled(After(db, op, now).0, i) <==> !Steals(db, op, now, i) && !Overwrites(op, i)
  {
    hide FirstIndex, JobNamed, MaxNumber, Mapped;
  }

  predicate AlwaysCanceled(db: Db, calls: seq<Call>, i: int)
    decreases |calls|
  {
    IsCanceled(db, i) && (calls == [] || AlwaysCanceled(After(db, calls[0].op, calls[0].now).0, calls[1..], i))
  }

  predicate NeverUndone(db: Db, calls: seq<Call>, i: int)
    decreases |calls|
  {
    calls == [] || (!Steals(db, calls[0].op, calls[0].now, i) && !Overwrites(calls[0].op, i) &&
                    NeverUndone(After(db, calls[0].op, calls[0].now).0, calls[1..], i))
  }

  lemma {:induction false} CanceledStands(db: Db, calls: seq<Call>, i: int)
    requires IsCanceled(db, i)
    ensures AlwaysCanceled(db, calls, i) <==> NeverUndone(db, calls, i)
    decreases |calls|
  {
    hide After, Steals;
    if calls != [] {
      var db' := After(db, calls[0].op, calls[0].now).0;
      CanceledStepExact(db, calls[0].op, calls[0].now, i);
      if IsCanceled(db', i) { CanceledStands(db', calls[1..], i); }
    }
  }

  /** Cancelling an open agent run succeeds whichever claims and parks land before it. Over every
      sequence of later calls the run stays cancelled exactly when none of them steals one of its
      turns or writes another verdict over it. */
  lemma {:induction false} CancelStandsExactly(db: Db, before: seq<Call>, now: int, after: seq<Call>, i: int)
    requires OpenAgentRun(db, i) && forall k | 0 <= k < |before| :: RunnerWrite(before[k].op)
    ensures var (canceled, r) := After(AfterAll(db, before), CancelAgent(i), now);
            r == Ok && (AlwaysCanceled(canceled, after, i) <==> NeverUndone(canceled, after, i))
  {
    StillOpen(db, before, i);
    var open := AfterAll(db, before);
    OpenOrTerminal(open.runs[i].status);
    var canceled := After(open, CancelAgent(i), now).0;
    assert canceled == open.WithRun(i, RunCanceled);
    CanceledStands(canceled, after, i);
  }

  ghost predicate HasRunningTurn(db: Db, i: int) {
    exists t | 0 <= t < |db.turns| :: db.turns[t].runId == i && db.turns[t].status == TurnRunning
  }

  lemma QuietStep(db: Db, op: Op, now: int, i: int)
    requires IsTerminal(db, i) && !HasRunningTurn(db, i)
    ensures IsTerminal(After(db, op, now).0, i) && !HasRunningTurn(After(db, op, now).0, i)
  {
    hide FirstIndex, JobNamed, MaxNumber, Mapped;
  }

  /** A terminal run without a running turn stays so whatever the leases: only the crash of a
      dispatch, which leaves a turn running, opens the exit. */
  lemma {:induction false} QuietRunIsFinal(db: Db, calls: seq<Call>, i: int)
    requires IsTerminal(db, i) && !HasRunningTurn(db, i)
    ensures AlwaysTerminal(db, calls, i)
    decreases |calls|
  {
    hide After, HasRunningTurn;
    if calls != [] {
      QuietStep(db, calls[0].op, calls[0].now, i);
      QuietRunIsFinal(After(db, calls[0].op, calls[0].now).0, calls[1..], i);
    }
  }

  /** The exit is real: a run cancelled during a turn runs again once the turn's lease of ten
      seconds has passed, and until then it does not. */
  lemma TerminalCanBeLeft(now: int)
    ensures var turn := ClaimTurn(10_000_000_000);
            var parked := Db([Run(Agent, RunAwaitingInput, Some(0))], [], [Turn(0, 1, TurnPending, None)]);
            var canceled := After(After(parked, turn, 0).0, CancelAgent(0), 0).0;
            canceled.runs[0].status == RunCanceled &&
            After(canceled, turn, now).0.runs[0].status == if now >= 10 then RunRunning else RunCanceled
  {
    var turn := ClaimTurn(10_000_000_000);
    var parked := Db([Run(Agent, RunAwaitingInput, Some(0))], [], [Turn(0, 1, TurnPending, None)]);
    assert TurnClaimable(parked.runs, parked.turns[0], 10_000_000_000, 0);
    var busy := After(parked, turn, 0).0;
    assert NextTurn(parked, 10_000_000_000, 0) == 0;
    assert busy == Db([Run(Agent, RunRunning, Some(0))], [], [Turn(0, 1, TurnRunning, Some(0))]);
    var canceled := After(busy, CancelAgent(0), 0).0;
    assert canceled == Db([Run(Agent, RunCanceled, Some(0))], [], busy.turns);
    assert Expired(Some(0), 10_000_000_000, now) <==> now >= 10;
    assert NextTurn(canceled, 10_000_000_000, now) == if now >= 10 then 0 else 1;
  }

  // ---------------------------------------------------------------- reconciliation

  ghost predicate NothingOpen(db: Db, i: int) {
    && (forall j | 0 <= j < |db.jobs| && db.jobs[j].runId == i :: db.jobs[j].status !in {JobQueued, JobRunning})
    && (forall t | 0 <= t < |db.turns| && db.turns[t].runId == i :: db.turns[t].status !in {TurnPending, TurnRunning})
  }

  /** After reconciliation every run is queued or terminal, those it touched are interrupted with
      no open job or turn, and everything of other runs is as before. */
  lemma ReconcileClosesOrphans(db: Db)
    ensures var db' := AfterReconcile(db);
      && (forall i | 0 <= i < |db.runs| :: db'.runs[i].status == RunQueued || db'.runs[i].status.Terminal())
      && (forall i | LeftOpen(db.runs, i) ::
            db'.runs[i] == db.runs[i].(status := RunInterrupted) && NothingOpen(db', i))
      && (forall i | 0 <= i < |db.runs| && !LeftOpen(db.runs, i) :: db'.runs[i] == db.runs[i])
      && (forall j | 0 <= j < |db.jobs| && !LeftOpen(db.runs, db.jobs[j].runId) :: db'.jobs[j] == db.jobs[j])
      && (forall t | 0 <= t < |db.turns| && !LeftOpen(db.runs, db.turns[t].runId) :: db'.turns[t] == db.turns[t])
  {
  }

  /** A reconciled run is finished for good, whatever is called afterwards and with any lease. */
  lemma ReconciledIsFinal(db: Db, i: int, calls: seq<Call>)
    requires LeftOpen(db.runs, i)
    ensures AlwaysTerminal(AfterReconcile(db), calls, i)
  {
    QuietRunIsFinal(AfterReconcile(db), calls, i);
  }
}
