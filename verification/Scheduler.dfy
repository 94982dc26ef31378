/** The wave scheduler of a CI run (`executeRun` and `runWave` in cmd/codefortd/ci_runner.go). */
module Scheduler {
  import opened Graph
  import opened Pipeline
  import opened Statuses

  /** What `ctx.Err()` reports. */
  datatype CtxErr = Live | Canceled | DeadlineExceeded

  /** The terminal status a job has when it is executed. */
  type Outcome<!T> = T -> JobStatus

  ghost predicate TerminalOutcome<T(!new)>(outcome: Outcome<T>) {
    forall j :: outcome(j).Terminal()
  }

  /** Every job that `job` transitively needs succeeds when executed. */
  ghost predicate NeedsSucceed<T(!new)>(needs: Needs<T>, outcome: Outcome<T>, job: T) {
    forall d | ReachesInSteps(Edges(needs), job, d) :: outcome(d) == JobSuccess
  }

  /** One level of that definition: the direct needs succeed and so do all of theirs. */
  lemma NeedsSucceedUnfold<T(!new)>(needs: Needs<T>, outcome: Outcome<T>, job: T)
    ensures NeedsSucceed(needs, outcome, job) <==>
            forall d | d in NeedsOf(needs, job) :: outcome(d) == JobSuccess && NeedsSucceed(needs, outcome, d)
  {
    var e := Edges(needs);
    if NeedsSucceed(needs, outcome, job) {
      forall d | d in NeedsOf(needs, job) ensures outcome(d) == JobSuccess && NeedsSucceed(needs, outcome, d) {
        EdgeIsNeed(needs, job, d);
        ReachesSelf(e, d);
        forall x | ReachesInSteps(e, d, x) ensures outcome(x) == JobSuccess {
          ReachesUnfold(e, d, x);
        }
      }
    }
    if forall d | d in NeedsOf(needs, job) :: outcome(d) == JobSuccess && NeedsSucceed(needs, outcome, d) {
      forall x | ReachesInSteps(e, job, x) ensures outcome(x) == JobSuccess {
        var c :| (job, c) in e && Reaches(e, c, x);
        EdgeIsNeed(needs, job, c);
        ReachesUnfold(e, c, x);
      }
    }
  }

  // ---------------------------------------------------------------- classification

  ghost predicate ReadyJob<T>(list: seq<T>, status: map<T, JobStatus>) {
    forall d | d in list :: d in status && status[d] == JobSuccess
  }

  ghost predicate SkipJob<T>(list: seq<T>, status: map<T, JobStatus>) {
    exists d | d in list :: d in status && status[d] != JobSuccess
  }

  method ClassifyJob<T(==)>(list: seq<T>, status: map<T, JobStatus>) returns (ready: bool, skip: bool)
    ensures ready <==> ReadyJob(list, status)
    ensures skip <==> SkipJob(list, status)
  {
    var allResolvedSuccess := true;
    var i := 0;
    while i < |list|
      invariant 0 <= i <= |list|
      invariant allResolvedSuccess <==> ReadyJob(list[..i], status)
      invariant !SkipJob(list[..i], status)
    {
      assert list[..i + 1] == list[..i] + [list[i]];
      var dep := list[i];
      if dep !in status {
        allResolvedSuccess := false;
      } else if status[dep] != JobSuccess {
        return false, true;
      }
      i := i + 1;
    }
    assert list[..i] == list;
    return allResolvedSuccess, false;
  }

  // ---------------------------------------------------------------- when jobs start and finish

  /** A job starts or finishes. */
  datatype Event<T> = Event(job: T, starts: bool)

  /** The jobs that start, or those that finish, in their order. */
  function Jobs<T>(trace: seq<Event<T>>, starts: bool): seq<T> {
    if trace == [] then []
    else
      var last := trace[|trace| - 1];
      var before := Jobs(trace[..|trace| - 1], starts);
      if last.starts == starts then before + [last.job] else before
  }

  /** How many jobs run at the end. */
  function Running<T>(trace: seq<Event<T>>): int { |Jobs(trace, true)| - |Jobs(trace, false)| }

  /** No job starts or finishes twice or finishes before it has started, and at no time more than
      `limit` run. */
  ghost predicate WellTimed<T>(trace: seq<Event<T>>, limit: int) {
    && Distinct(Jobs(trace, true)) && Distinct(Jobs(trace, false))
    && (forall n | 0 <= n < |trace| && !trace[n].starts :: Event(trace[n].job, true) in trace[..n])
    && (forall n | 0 <= n <= |trace| :: Running(trace[..n]) <= limit)
  }

  /** A job starts when all its needs have finished. */
  ghost predicate NeedsFirst<T(!new)>(needs: Needs<T>, trace: seq<Event<T>>) {
    forall n | 0 <= n < |trace| && trace[n].starts ::
      forall d | d in NeedsOf(needs, trace[n].job) :: Event(d, false) in trace[..n]
  }

  lemma {:induction false} JobsConcat<T>(a: seq<Event<T>>, b: seq<Event<T>>, starts: bool)
    ensures Jobs(a + b, starts) == Jobs(a, starts) + Jobs(b, starts)
  {
    if b == [] {
      assert a + b == a;
    } else {
      JobsConcat(a, b[..|b| - 1], starts);
      assert (a + b)[..|a + b| - 1] == a + b[..|b| - 1];
    }
  }

  lemma JobsSnoc<T>(trace: seq<Event<T>>, e: Event<T>, starts: bool)
    ensures Jobs(trace + [e], starts) == if e.starts == starts then Jobs(trace, starts) + [e.job] else Jobs(trace, starts)
  {
    assert (trace + [e])[..|trace|] == trace;
  }

  lemma {:induction false} JobsAre<T>(trace: seq<Event<T>>, starts: bool, j: T)
    ensures j in Jobs(trace, starts) <==> Event(j, starts) in trace
  {
    if trace != [] {
      var n := |trace| - 1;
      JobsAre(trace[..n], starts, j);
      assert trace == trace[..n] + [trace[n]];
    }
  }

  lemma WellTimedSnoc<T>(trace: seq<Event<T>>, e: Event<T>, limit: int)
    requires WellTimed(trace, limit) && Running(trace + [e]) <= limit
    requires e !in trace && (!e.starts ==> Event(e.job, true) in trace)
    ensures WellTimed(trace + [e], limit)
  {
    hide Jobs, Running;
    var more := trace + [e];
    JobsAre(trace, e.starts, e.job);
    JobsSnoc(trace, e, true);
    JobsSnoc(trace, e, false);
    DistinctSnoc(Jobs(trace, e.starts), e.job);
    forall n | 0 <= n <= |more| ensures Running(more[..n]) <= limit {
      if n <= |trace| { assert more[..n] == trace[..n]; } else { assert more[..n] == more; }
    }
    forall n | 0 <= n < |more| && !more[n].starts ensures Event(more[n].job, true) in more[..n] {
      assert more[..n] == trace[..n];
      if n == |trace| { assert trace[..n] == trace; }
    }
  }

  /** A wave that starts when nothing runs any more. */
  lemma WellTimedConcat<T(!new)>(a: seq<Event<T>>, b: seq<Event<T>>, limit: int)
    requires WellTimed(a, limit) && WellTimed(b, limit) && Running(a) == 0
    requires forall j | j in Jobs(b, true) :: j !in Jobs(a, true)
    ensures WellTimed(a + b, limit) && Running(a + b) == Running(b)
  {
    hide Jobs;
    JobsConcat(a, b, true);
    JobsConcat(a, b, false);
    EndsAreStarts(a, limit);
    EndsAreStarts(b, limit);
    DistinctConcat(Jobs(a, true), Jobs(b, true));
    DistinctConcat(Jobs(a, false), Jobs(b, false));
    var c := a + b;
    forall n | 0 <= n <= |c| ensures Running(c[..n]) <= limit {
      if n <= |a| {
        assert c[..n] == a[..n];
      } else {
        assert c[..n] == a + b[..n - |a|];
        JobsConcat(a, b[..n - |a|], true);
        JobsConcat(a, b[..n - |a|], false);
      }
    }
    forall n | 0 <= n < |c| && !c[n].starts ensures Event(c[n].job, true) in c[..n] {
      if n < |a| { assert c[..n] == a[..n]; } else { assert c[..n] == a + b[..n - |a|]; }
    }
  }

  lemma EndsAreStarts<T(!new)>(trace: seq<Event<T>>, limit: int)
    requires WellTimed(trace, limit)
    ensures forall j | j in Jobs(trace, false) :: j in Jobs(trace, true)
  {
    hide Jobs, Running;
    forall j | j in Jobs(trace, false) ensures j in Jobs(trace, true) {
      JobsAre(trace, false, j);
      JobsAre(trace, true, j);
      var n :| 0 <= n < |trace| && trace[n] == Event(j, false);
    }
  }

  lemma NeedsFirstConcat<T(!new)>(needs: Needs<T>, a: seq<Event<T>>, b: seq<Event<T>>)
    requires NeedsFirst(needs, a)
    requires forall j | j in Jobs(b, true) :: forall d | d in NeedsOf(needs, j) :: d in Jobs(a, false)
    ensures NeedsFirst(needs, a + b)
  {
    hide Jobs;
    var c := a + b;
    forall n, d | 0 <= n < |c| && c[n].starts && d in NeedsOf(needs, c[n].job) ensures Event(d, false) in c[..n] {
      if n < |a| {
        assert c[..n] == a[..n];
      } else {
        assert c[..n] == a + b[..n - |a|];
        assert b[n - |a|] == Event(c[n].job, true);
        JobsAre(b, true, c[n].job);
        JobsAre(a, false, d);
      }
    }
  }

  // ---------------------------------------------------------------- one wave

  /** Runs the given jobs concurrently, at most `limit` at a time: any waiting job may start when
      a slot is free and any running job may finish next. `trace` is what happens: every job starts
      and finishes exactly once, and each one's status is its outcome. */
  method RunWave<T(==, !new)>(jobs: set<T>, limit: nat, outcome: Outcome<T>)
    returns (out: map<T, JobStatus>, trace: seq<Event<T>>)
    requires limit >= 1
    ensures out == map j | j in jobs :: outcome(j)
    ensures Listing(Jobs(trace, true), jobs) && Listing(Jobs(trace, false), jobs)
    ensures WellTimed(trace, limit) && Running(trace) == 0
  {
    hide WellTimed, Jobs;
    var waiting, running: set<T> := jobs, {};
    out, trace := map[], [];
    NothingHappened<T>(limit);
    while waiting != {} || running != {}
      invariant WellTimed(trace, limit) && Running(trace) == |running| <= limit
      invariant forall j | j in waiting :: j in jobs
      invariant forall j :: j in Jobs(trace, true) <==> j in jobs && j !in waiting
      invariant forall j :: j in Jobs(trace, false) <==> j in out
      invariant forall j :: j in running <==> j in jobs && j !in waiting && j !in out
      invariant forall j | j in out :: j in jobs && j !in waiting && out[j] == outcome(j)
      decreases waiting, running
    {
      var startNext: bool := *;
      var e: Event<T>;
      if waiting != {} && |running| < limit && (startNext || running == {}) {
        var j :| j in waiting;
        e := Event(j, true);
        waiting, running := waiting - {j}, running + {j};
      } else {
        var j :| j in running;
        e := Event(j, false);
        running, out := running - {j}, out[j := outcome(j)];
      }
      JobsAre(trace, e.starts, e.job);
      JobsAre(trace, true, e.job);
      JobsSnoc(trace, e, true);
      JobsSnoc(trace, e, false);
      WellTimedSnoc(trace, e, limit);
      trace := trace + [e];
    }
    ListedBoth(trace, jobs, limit);
  }

  lemma NothingHappened<T(!new)>(limit: nat)
    ensures WellTimed<T>([], limit) && Running<T>([]) == 0
    ensures Jobs<T>([], true) == [] && Jobs<T>([], false) == []
  {
  }

  lemma ListedBoth<T(!new)>(trace: seq<Event<T>>, jobs: set<T>, limit: nat)
    requires WellTimed(trace, limit)
    requires forall j :: j in Jobs(trace, true) <==> j in jobs
    requires forall j :: j in Jobs(trace, false) <==> j in jobs
    ensures Listing(Jobs(trace, true), jobs) && Listing(Jobs(trace, false), jobs)
  {
  }

  // ---------------------------------------------------------------- the scheduling loop

  /** The loop's variables: job rows in the database, `status`, `pending`, the jobs executed so
      far and `anyNotSuccess`. */
  datatype Loop<T(!new)> = Loop(rows: map<T, JobStatus>, status: map<T, JobStatus>, pending: set<T>,
                                executed: seq<T>, anyNotSuccess: bool)
  {
    ghost predicate Valid(needs: Needs<T>, outcome: Outcome<T>) {
      && rows.Keys == needs.Keys
      && (forall j | j in needs :: j in status || j in pending)
      && (forall j | j in pending :: j in needs && j !in status)
      && (forall j | j in status :: j in needs && rows[j] == status[j])
      && (anyNotSuccess <==> exists j | j in status :: status[j] != JobSuccess)
      && Distinct(executed)
      && (forall j | j in executed :: j in status && Executed(outcome, status[j], j) && NeedsSucceed(needs, outcome, j))
      && (forall j | j in status && j !in executed :: NotExecuted(status[j]) && !NeedsSucceed(needs, outcome, j))
    }

    /** Records statuses of pending jobs; `started` are those among them that were executed. */
    function Resolve(more: map<T, JobStatus>, started: seq<T>): Loop<T> {
      Loop(rows + more, status + more, pending - more.Keys, executed + started,
           anyNotSuccess || exists j | j in more :: more[j] != JobSuccess)
    }
  }

  ghost predicate Executed<T>(outcome: Outcome<T>, st: JobStatus, j: T) { st == outcome(j) }

  ghost predicate NotExecuted(st: JobStatus) { st == JobSkipped || st == JobError }

  lemma ResolveValid<T(!new)>(needs: Needs<T>, outcome: Outcome<T>, l: Loop<T>, more: map<T, JobStatus>, started: seq<T>)
    requires l.Valid(needs, outcome) && forall j | j in more :: j in l.pending
    requires Distinct(started) && forall j | j in started :: j in more
    requires forall j | j in started :: Executed(outcome, more[j], j) && NeedsSucceed(needs, outcome, j)
    requires forall j | j in more && j !in started :: NotExecuted(more[j]) && !NeedsSucceed(needs, outcome, j)
    ensures l.Resolve(more, started).Valid(needs, outcome)
  {
    hide NeedsSucceed;
    forall j | j in started ensures j !in l.executed { assert j in l.pending; }
    DistinctConcat(l.executed, started);
    AnyNotSuccess(l.status, more);
  }

  lemma DistinctConcat<T>(a: seq<T>, b: seq<T>)
    requires Distinct(a) && Distinct(b) && forall x | x in b :: x !in a
    ensures Distinct(a + b)
  {
    forall i, j | 0 <= i < j < |a + b| ensures (a + b)[i] != (a + b)[j] {
      if i < |a| <= j { assert a[i] in a && b[j - |a|] in b; }
    }
  }

  lemma AnyNotSuccess<T>(status: map<T, JobStatus>, more: map<T, JobStatus>)
    requires status.Keys !! more.Keys
    ensures (exists j | j in status + more :: (status + more)[j] != JobSuccess) <==>
            (exists j | j in status :: status[j] != JobSuccess) || (exists j | j in more :: more[j] != JobSuccess)
  {
    if j :| j in status && status[j] != JobSuccess { assert (status + more)[j] != JobSuccess; }
    if j :| j in more && more[j] != JobSuccess { assert (status + more)[j] != JobSuccess; }
  }

  lemma SkipMeansNeedFails<T(!new)>(needs: Needs<T>, outcome: Outcome<T>, l: Loop<T>, j: T)
    requires l.Valid(needs, outcome) && SkipJob(NeedsOf(needs, j), l.status)
    ensures !NeedsSucceed(needs, outcome, j)
  {
    NeedsSucceedUnfold(needs, outcome, j);
  }

  lemma ReadyMeansNeedsSucceed<T(!new)>(needs: Needs<T>, outcome: Outcome<T>, l: Loop<T>, j: T)
    requires l.Valid(needs, outcome) && ReadyJob(NeedsOf(needs, j), l.status)
    ensures NeedsSucceed(needs, outcome, j) && forall d | d in NeedsOf(needs, j) :: d in l.executed
  {
    NeedsSucceedUnfold(needs, outcome, j);
  }

  lemma BlockedMeansNeedPending<T(!new)>(needs: Needs<T>, outcome: Outcome<T>, l: Loop<T>, j: T)
    requires l.Valid(needs, outcome) && NeedsKnown(needs) && j in needs
    requires !SkipJob(NeedsOf(needs, j), l.status) && !ReadyJob(NeedsOf(needs, j), l.status)
    ensures Blocked(needs, l.pending, j)
  {
    var d :| d in NeedsOf(needs, j) && d !in l.status;
    assert d in l.pending;
  }

  /** If a whole pass finds no ready job, no job that was pending can ever run: otherwise the
      runnable pending job lowest in the graph would have had only resolved needs. */
  lemma NoReadyMeansNoneCanRun<T(!new)>(needs: Needs<T>, outcome: Outcome<T>, pending: set<T>, blocked: set<T>)
    requires Acyclic(Edges(needs))
    requires forall j | j in pending && NeedsSucceed(needs, outcome, j) :: j in blocked
    requires forall j | j in blocked :: Blocked(needs, pending, j)
    ensures forall j | j in pending :: !NeedsSucceed(needs, outcome, j)
  {
    var runnable := set j | j in pending && NeedsSucceed(needs, outcome, j);
    if runnable != {} {
      var t := SinkExists(Edges(needs), runnable);
      NeedsSucceedUnfold(needs, outcome, t);
      var d :| d in NeedsOf(needs, t) && d in pending;
      assert d in runnable;
      EdgeIsNeed(needs, t, d);
    } else {
      forall j | j in pending ensures !NeedsSucceed(needs, outcome, j) { assert j !in runnable; }
    }
  }

  /** A job that is neither skipped nor ready when the pass reaches it. */
  ghost predicate Blocked<T>(needs: Needs<T>, pending: set<T>, j: T) {
    exists d | d in NeedsOf(needs, j) :: d in pending
  }

  /** What the pass does when it reaches job j: the loop afterwards, and whether j is ready. */
  ghost function PassOne<T(!new)>(needs: Needs<T>, l: Loop<T>, j: T): (Loop<T>, bool) {
    if SkipJob(NeedsOf(needs, j), l.status) then (l.Resolve(map[j := JobSkipped], []), false)
    else (l, ReadyJob(NeedsOf(needs, j), l.status))
  }

  /** A pass in the given order: the loop afterwards and the jobs found ready. */
  ghost function Pass<T(!new)>(needs: Needs<T>, order: seq<T>, l: Loop<T>): (Loop<T>, set<T>) {
    if order == [] then (l, {})
    else
      var last := order[|order| - 1];
      var (before, ready) := Pass(needs, order[..|order| - 1], l);
      var (after, isReady) := PassOne(needs, before, last);
      (after, if isReady then ready + {last} else ready)
  }

  lemma PassSnoc<T(!new)>(needs: Needs<T>, order: seq<T>, l: Loop<T>, j: T)
    ensures var (before, ready) := Pass(needs, order, l);
            var (after, isReady) := PassOne(needs, before, j);
            Pass(needs, order + [j], l) == (after, if isReady then ready + {j} else ready)
  {
    assert (order + [j])[..|order|] == order;
  }

  method ClassifyOne<T(==, !new)>(needs: Needs<T>, ghost outcome: Outcome<T>, l: Loop<T>, j: T)
    returns (l': Loop<T>, isReady: bool)
    requires NeedsKnown(needs) && l.Valid(needs, outcome) && j in l.pending
    ensures (l', isReady) == PassOne(needs, l, j)
    ensures l'.Valid(needs, outcome) && l'.executed == l.executed
    ensures l'.pending == l.pending || (l'.pending == l.pending - {j} && !NeedsSucceed(needs, outcome, j))
    ensures isReady ==> l'.pending == l.pending && NeedsSucceed(needs, outcome, j)
    ensures isReady ==> forall d | d in NeedsOf(needs, j) :: d in l.executed
    ensures l'.pending == l.pending && !isReady ==> Blocked(needs, l.pending, j)
  {
    hide NeedsSucceed;
    var skip;
    isReady, skip := ClassifyJob(NeedsOf(needs, j), l.status);
    l' := l;
    if skip {
      SkipMeansNeedFails(needs, outcome, l, j);
      ResolveValid(needs, outcome, l, map[j := JobSkipped], []);
      l' := l.Resolve(map[j := JobSkipped], []);
      isReady := false;
    } else if isReady {
      ReadyMeansNeedsSucceed(needs, outcome, l, j);
    } else {
      BlockedMeansNeedPending(needs, outcome, l, j);
    }
  }

  /** One pass over the pending jobs in any order: jobs with a failed need are skipped at once,
      which the rest of the pass already sees. It finds nothing ready, and so takes the "stuck"
      branch, exactly when no pending job can run any more. */
  method ClassifyPass<T(==, !new)>(needs: Needs<T>, ghost outcome: Outcome<T>, l: Loop<T>)
    returns (l': Loop<T>, ready: set<T>, ghost order: seq<T>)
    requires NeedsKnown(needs) && Acyclic(Edges(needs)) && l.Valid(needs, outcome)
    ensures Listing(order, l.pending) && (l', ready) == Pass(needs, order, l)
    ensures l'.Valid(needs, outcome) && l'.pending <= l.pending && l'.executed == l.executed
    ensures forall j | j in ready :: j in l'.pending && NeedsSucceed(needs, outcome, j)
    ensures forall j | j in ready :: forall d | d in NeedsOf(needs, j) :: d in l.executed
    ensures ready == {} <==> forall j | j in l.pending :: !NeedsSucceed(needs, outcome, j)
  {
    hide Loop.Valid, NeedsSucceed, PassOne, NeedsOf;
    l', ready, order := l, {}, [];
    ghost var blocked: set<T> := {};
    var rest := l.pending;
    while rest != {}
      invariant l'.Valid(needs, outcome) && l'.executed == l.executed
      invariant rest <= l'.pending <= l.pending
      invariant (l', ready) == Pass(needs, order, l)
      invariant Distinct(order) && forall j :: j in order <==> j in l.pending && j !in rest
      invariant forall j | j in ready :: j in l'.pending && j !in rest && NeedsSucceed(needs, outcome, j)
      invariant forall j | j in ready :: forall d | d in NeedsOf(needs, j) :: d in l.executed
      invariant forall j | j in l.pending && NeedsSucceed(needs, outcome, j) :: j in rest || j in ready || j in blocked
      invariant forall j | j in blocked :: Blocked(needs, l.pending, j)
      decreases rest
    {
      var j :| j in rest;
      rest := rest - {j};
      ghost var before := l'.pending;
      PassSnoc(needs, order, l, j);
      DistinctSnoc(order, j);
      order := order + [j];
      var isReady;
      l', isReady := ClassifyOne(needs, outcome, l', j);
      if isReady { ready := ready + {j}; }
      if l'.pending == before && !isReady { blocked := blocked + {j}; }
    }
    if ready == {} {
      NoReadyMeansNoneCanRun(needs, outcome, l.pending, blocked);
    } else {
      assert exists j :: j in ready;
    }
  }

  /** A chain 2 -> 1 -> 0 of needs after job 0 has failed. */
  const CHAIN: Needs<nat> := map[0 := [], 1 := [0], 2 := [1]]

  const AFTER_FAILURE: Loop<nat> :=
    Loop(map[0 := JobFailed, 1 := JobQueued, 2 := JobQueued], map[0 := JobFailed], {1, 2}, [0], true)

  /** The stuck branch needs no malformed graph: a pass over this chain that comes to job 2 first
      skips job 1, finds nothing ready and leaves job 2 pending, to be marked as an error; one that
      comes to job 1 first skips both. */
  lemma StuckOnSoundGraph()
    ensures NeedsKnown(CHAIN) && Acyclic(Edges(CHAIN))
    ensures AFTER_FAILURE.Valid(CHAIN, (j: nat) => JobFailed)
    ensures var (l, ready) := Pass(CHAIN, [2, 1], AFTER_FAILURE);
            ready == {} && l.pending == {2} && l.status == map[0 := JobFailed, 1 := JobSkipped]
    ensures var (l, ready) := Pass(CHAIN, [1, 2], AFTER_FAILURE);
            ready == {} && l.pending == {} && l.status == map[0 := JobFailed, 1 := JobSkipped, 2 := JobSkipped]
  {
    hide Pass, PassOne, Loop.Valid, Loop.Resolve;
    ChainIsSound();
    ChainState();
    ChainSteps();
    PassTwo(CHAIN, AFTER_FAILURE, 2, 1);
    PassTwo(CHAIN, AFTER_FAILURE, 1, 2);
  }

  lemma PassTwo<T(!new)>(needs: Needs<T>, l: Loop<T>, i: T, j: T)
    ensures var (m, r) := PassOne(needs, l, i);
            var (n, s) := PassOne(needs, m, j);
            Pass(needs, [i, j], l) == (n, (if r then {i} else {}) + (if s then {j} else {}))
  {
    hide PassOne;
    PassSnoc(needs, [], l, i);
    PassSnoc(needs, [i], l, j);
    assert [] + [i] == [i] && [i] + [j] == [i, j];
    PassNothing(needs, l);
    var (m, r) := PassOne(needs, l, i);
    var first: set<T> := if r then {i} else {};
    assert {} + {i} == {i} && first + {} == first;
  }

  lemma ChainSteps()
    ensures var l := AFTER_FAILURE;
            var skipped := l.Resolve(map[1 := JobSkipped], []);
            var both := skipped.Resolve(map[2 := JobSkipped], []);
            && PassOne(CHAIN, l, 2) == (l, false)
            && PassOne(CHAIN, l, 1) == (skipped, false)
            && PassOne(CHAIN, skipped, 2) == (both, false)
            && skipped.pending == {2} && skipped.status == map[0 := JobFailed, 1 := JobSkipped]
            && both.pending == {} && both.status == map[0 := JobFailed, 1 := JobSkipped, 2 := JobSkipped]
  {
    var l := AFTER_FAILURE;
    assert NeedsOf(CHAIN, 2) == [1] && 1 in NeedsOf(CHAIN, 2) && NeedsOf(CHAIN, 1) == [0] && 0 in NeedsOf(CHAIN, 1);
    assert 1 !in l.status;
  }

  lemma PassNothing<T(!new)>(needs: Needs<T>, l: Loop<T>)
    ensures Pass(needs, [], l) == (l, {})
  {
  }

  lemma ChainIsSound()
    ensures NeedsKnown(CHAIN) && Acyclic(Edges(CHAIN))
  {
    var order := [0, 1, 2];
    assert order[..0] == [] && order[..1] == [0] && order[..2] == [0, 1];
    assert forall d | d in CHAIN[0] || d in CHAIN[1] || d in CHAIN[2] :: d == 0 || d == 1;
    PostorderIsAcyclic(CHAIN, order);
  }

  lemma ChainState()
    ensures AFTER_FAILURE.Valid(CHAIN, (j: nat) => JobFailed)
  {
    var outcome := (j: nat) => JobFailed;
    NeedsSucceedUnfold(CHAIN, outcome, 0);
    var l := AFTER_FAILURE;
    assert l.status[0] == JobFailed;
    hide NeedsSucceed;
  }

  /** One call of `ctx.Err()`: an error, once there, stays. */
  method PollCtx(mayCancel: bool, before: CtxErr) returns (now: CtxErr)
    ensures before != Live ==> now == before
    ensures !mayCancel ==> now == before
  {
    now := before;
    var fire: bool, timeout: bool := *, *;
    if mayCancel && fire && now == Live {
      now := if timeout then DeadlineExceeded else Canceled;
    }
  }

  /** One iteration: a classification pass, then either a wave or, with nothing ready, the end. */
  method Iterate<T(==, !new)>(needs: Needs<T>, outcome: Outcome<T>, limit: nat, l: Loop<T>)
    returns (l': Loop<T>, trace: seq<Event<T>>)
    requires NeedsKnown(needs) && Acyclic(Edges(needs)) && limit >= 1
    requires l.Valid(needs, outcome) && l.pending != {}
    ensures l'.Valid(needs, outcome) && l'.pending < l.pending
    ensures l'.executed == l.executed + Jobs(trace, true)
    ensures WellTimed(trace, limit) && Running(trace) == 0
    ensures forall j :: j in Jobs(trace, false) <==> j in Jobs(trace, true)
    ensures forall j | j in Jobs(trace, true) :: forall d | d in NeedsOf(needs, j) :: d in l.executed
  {
    hide NeedsSucceed, WellTimed, NeedsOf, Jobs, Running;
    var classified, ready, _ := ClassifyPass(needs, outcome, l);
    if ready == {} {
      var stuck := map j | j in classified.pending :: JobError;
      ResolveValid(needs, outcome, classified, stuck, []);
      NothingHappened<T>(limit);
      return classified.Resolve(stuck, []), [];
    }
    var out;
    out, trace := RunWave(ready, limit, outcome);
    ResolveValid(needs, outcome, classified, out, Jobs(trace, true));
    return classified.Resolve(out, Jobs(trace, true)), trace;
  }

  /** What holds of the job rows and the executed jobs whatever happens to the context: every row
      is terminal, no job executes twice, and only jobs whose needs all succeed execute. */
  ghost predicate AlwaysKept<T(!new)>(needs: Needs<T>, outcome: Outcome<T>, rows: map<T, JobStatus>, executed: seq<T>) {
    && rows.Keys == needs.Keys
    && (forall j | j in needs :: rows[j] !in {JobQueued, JobRunning})
    && Distinct(executed)
    && (forall j | j in executed :: j in needs && rows[j] == outcome(j) && NeedsSucceed(needs, outcome, j))
  }

  /** The rows of the jobs that never started. An uncancelled run leaves only jobs some transitive
      need of which did not succeed, skipped or in error. A timeout also leaves others, which it puts
      in error, and a shutdown others, which it interrupts. None is ever a success. */
  ghost predicate Unexecuted<T(!new)>(needs: Needs<T>, outcome: Outcome<T>, rows: map<T, JobStatus>, executed: seq<T>,
                                      ctxErr: CtxErr)
    requires rows.Keys == needs.Keys
  {
    forall j | j in needs && j !in executed ::
      match ctxErr
      case Live => rows[j] in {JobSkipped, JobError} && !NeedsSucceed(needs, outcome, j)
      case DeadlineExceeded => rows[j] in {JobSkipped, JobError} && (NeedsSucceed(needs, outcome, j) ==> rows[j] == JobError)
      case Canceled => rows[j] == JobInterrupted || (rows[j] in {JobSkipped, JobError} && !NeedsSucceed(needs, outcome, j))
  }

  /** The executed jobs start in this order, each once, when all their needs have finished; they all
      finish; and at no time more than `concurrency` run, or more than one if that is less. */
  ghost predicate Scheduled<T(!new)>(needs: Needs<T>, trace: seq<Event<T>>, executed: seq<T>, concurrency: int) {
    && executed == Jobs(trace, true)
    && (forall j :: j in Jobs(trace, false) <==> j in executed)
    && WellTimed(trace, if concurrency > 1 then concurrency else 1)
    && NeedsFirst(needs, trace)
  }

  lemma ScheduledConcat<T(!new)>(needs: Needs<T>, a: seq<Event<T>>, b: seq<Event<T>>, executed: seq<T>, concurrency: int)
    requires Scheduled(needs, a, executed, concurrency) && Running(a) == 0
    requires WellTimed(b, if concurrency > 1 then concurrency else 1) && Distinct(executed + Jobs(b, true))
    requires forall j :: j in Jobs(b, false) <==> j in Jobs(b, true)
    requires forall j | j in Jobs(b, true) :: forall d | d in NeedsOf(needs, j) :: d in executed
    ensures Scheduled(needs, a + b, executed + Jobs(b, true), concurrency) && Running(a + b) == Running(b)
  {
    hide Jobs, Running, WellTimed, NeedsFirst, NeedsOf;
    JobsConcat(a, b, true);
    JobsConcat(a, b, false);
    forall j | j in Jobs(b, true) ensures j !in Jobs(a, true) { DisjointParts(executed, Jobs(b, true), j); }
    WellTimedConcat(a, b, if concurrency > 1 then concurrency else 1);
    NeedsFirstConcat(needs, a, b);
  }

  lemma DisjointParts<T>(a: seq<T>, b: seq<T>, x: T)
    requires Distinct(a + b) && x in b
    ensures x !in a
  {
    var k :| 0 <= k < |b| && b[k] == x;
    assert (a + b)[|a| + k] == x;
    assert forall i | 0 <= i < |a| :: (a + b)[i] == a[i];
  }

  lemma NothingScheduled<T(!new)>(needs: Needs<T>, concurrency: int)
    ensures Scheduled(needs, [], [], concurrency) && Running<T>([]) == 0
  {
  }

  /** The verdict on a run that has scheduled its jobs. */
  ghost function RunVerdict(operatorStop: bool, ctxErr: CtxErr, allSucceed: bool): RunStatus {
    if operatorStop then RunCanceled
    else match ctxErr
         case Canceled => RunInterrupted
         case DeadlineExceeded => RunError
         case Live => if allSucceed then RunSuccess else RunFailed
  }

  /** The row of a job that has been executed, or resolved without. */
  ghost predicate Settled<T(!new)>(needs: Needs<T>, outcome: Outcome<T>, rows: map<T, JobStatus>, executed: seq<T>, j: T)
    requires j in rows
  {
    && rows[j] !in {JobQueued, JobRunning}
    && if j in executed then rows[j] == outcome(j) && NeedsSucceed(needs, outcome, j)
       else rows[j] in {JobSkipped, JobError} && !NeedsSucceed(needs, outcome, j)
  }

  lemma ResolvedIsSettled<T(!new)>(needs: Needs<T>, outcome: Outcome<T>, l: Loop<T>, j: T)
    requires l.Valid(needs, outcome) && TerminalOutcome(outcome) && j in l.status
    ensures j in l.rows && l.rows[j] == l.status[j] && Settled(needs, outcome, l.rows, l.executed, j)
  {
    hide NeedsSucceed;
    assert outcome(j).Terminal();
    if j in l.executed { assert Executed(outcome, l.status[j], j); } else { assert NotExecuted(l.status[j]); }
  }

  /** Rows of which all but the pending ones are settled. */
  lemma SettledRows<T(!new)>(needs: Needs<T>, outcome: Outcome<T>, rows: map<T, JobStatus>, executed: seq<T>,
                             pending: set<T>, ctxErr: CtxErr)
    requires rows.Keys == needs.Keys && Distinct(executed) && forall j | j in executed :: j in needs && j !in pending
    requires forall j | j in needs && j !in pending :: Settled(needs, outcome, rows, executed, j)
    requires ctxErr == Live ==> pending == {}
    requires forall j | j in needs && j in pending :: rows[j] == if ctxErr == Canceled then JobInterrupted else JobError
    ensures AlwaysKept(needs, outcome, rows, executed) && Unexecuted(needs, outcome, rows, executed, ctxErr)
  {
    hide NeedsSucceed, Distinct;
    forall j | j in executed ensures rows[j] == outcome(j) && NeedsSucceed(needs, outcome, j) {
      assert Settled(needs, outcome, rows, executed, j);
    }
    forall j | j in needs ensures rows[j] !in {JobQueued, JobRunning} {
      if j !in pending { assert Settled(needs, outcome, rows, executed, j); }
    }
  }

  lemma LoopEnd<T(!new)>(needs: Needs<T>, outcome: Outcome<T>, l: Loop<T>, ctxErr: CtxErr, rows: map<T, JobStatus>)
    requires l.Valid(needs, outcome) && TerminalOutcome(outcome) && (ctxErr == Live ==> l.pending == {})
    requires rows == if ctxErr == Live then l.rows
                     else l.rows + map j | j in l.pending :: if ctxErr == Canceled then JobInterrupted else JobError
    ensures AlwaysKept(needs, outcome, rows, l.executed) && Unexecuted(needs, outcome, rows, l.executed, ctxErr)
  {
    forall j | j in needs && j !in l.pending ensures Settled(needs, outcome, rows, l.executed, j) {
      ResolvedIsSettled(needs, outcome, l, j);
      assert rows[j] == l.rows[j];
    }
    hide NeedsSucceed, Settled, AlwaysKept, Unexecuted;
    SettledRows(needs, outcome, rows, l.executed, l.pending, ctxErr);
  }

  lemma AllResolved<T(!new)>(needs: Needs<T>, outcome: Outcome<T>, l: Loop<T>)
    requires l.Valid(needs, outcome) && NeedsKnown(needs) && l.pending == {} && TerminalOutcome(outcome)
    ensures !l.anyNotSuccess <==> forall j | j in needs :: outcome(j) == JobSuccess
  {
    AllSucceed(needs, outcome);
    hide NeedsSucceed;
    if !l.anyNotSuccess {
      forall j | j in needs ensures outcome(j) == JobSuccess { assert l.status[j] == JobSuccess; }
    }
  }

  /** The scheduling part of `executeRun`. `rows` are the job rows it leaves in the database,
      `executed` the jobs in the order they started, `trace` when they started and finished, and
      `ctxErr` the error its last check of the context saw. */
  method ExecuteJobs<T(==, !new)>(needs: Needs<T>, outcome: Outcome<T>, concurrency: int,
                                  mayCancel: bool, operatorStop: bool)
    returns (rows: map<T, JobStatus>, executed: seq<T>, trace: seq<Event<T>>, verdict: RunStatus, ctxErr: CtxErr)
    requires NeedsKnown(needs) && Acyclic(Edges(needs)) && TerminalOutcome(outcome)
    requires operatorStop ==> mayCancel
    ensures AlwaysKept(needs, outcome, rows, executed)
    ensures Unexecuted(needs, outcome, rows, executed, ctxErr)
    ensures Scheduled(needs, trace, executed, concurrency)
    ensures !mayCancel ==> ctxErr == Live
    ensures verdict == RunVerdict(operatorStop, ctxErr, forall j | j in needs :: outcome(j) == JobSuccess)
  {
    hide NeedsSucceed, Executed, NotExecuted, WellTimed, NeedsOf, Jobs, Running, Scheduled, AlwaysKept, Unexecuted;
    var limit := if concurrency > 1 then concurrency else 1;
    var l: Loop<T> := Loop(map j | j in needs :: JobQueued, map[], needs.Keys, [], false);
    trace := [];
    NothingScheduled(needs, concurrency);
    ctxErr := PollCtx(mayCancel, Live);
    while l.pending != {} && ctxErr == Live
      invariant l.Valid(needs, outcome)
      invariant Scheduled(needs, trace, l.executed, concurrency) && Running(trace) == 0
      invariant !mayCancel ==> ctxErr == Live
      decreases l.pending
    {
      var before, wave := l.executed, [];
      l, wave := Iterate(needs, outcome, limit, l);
      ScheduledConcat(needs, trace, wave, before, concurrency);
      trace := trace + wave;
      ctxErr := PollCtx(mayCancel, ctxErr);
    }
    ctxErr := PollCtx(mayCancel, ctxErr);
    rows, executed := l.rows, l.executed;
    if ctxErr != Live {
      var leftover := if ctxErr == Canceled then JobInterrupted else JobError;
      rows := rows + map j | j in l.pending :: leftover;
    } else {
      AllResolved(needs, outcome, l);
    }
    LoopEnd(needs, outcome, l, ctxErr, rows);
    verdict :=
      if operatorStop then RunCanceled
      else if ctxErr == Canceled then RunInterrupted
      else if ctxErr != Live then RunError
      else if l.anyNotSuccess then RunFailed
      else RunSuccess;
  }

  /** A run that is not cancelled is a success exactly when every job executed and succeeded. */
  lemma SuccessMeansAllExecuted<T(!new)>(needs: Needs<T>, outcome: Outcome<T>, rows: map<T, JobStatus>, executed: seq<T>)
    requires NeedsKnown(needs) && AlwaysKept(needs, outcome, rows, executed)
    requires Unexecuted(needs, outcome, rows, executed, Live)
    ensures (forall j | j in needs :: outcome(j) == JobSuccess) <==> forall j | j in needs :: rows[j] == JobSuccess
    ensures forall j | j in needs :: j in executed <==> NeedsSucceed(needs, outcome, j)
  {
    AllSucceed(needs, outcome);
    forall j | j in needs && rows[j] == JobSuccess ensures outcome(j) == JobSuccess { assert j in executed; }
    forall j | j in needs && outcome(j) == JobSuccess && NeedsSucceed(needs, outcome, j) ensures rows[j] == JobSuccess {
      assert j in executed;
    }
  }

  lemma AllSucceed<T(!new)>(needs: Needs<T>, outcome: Outcome<T>)
    requires NeedsKnown(needs)
    ensures (forall j | j in needs :: outcome(j) == JobSuccess) ==> forall j | j in needs :: NeedsSucceed(needs, outcome, j)
  {
    if forall j | j in needs :: outcome(j) == JobSuccess {
      forall j, d | j in needs && ReachesInSteps(Edges(needs), j, d) ensures outcome(d) == JobSuccess {
        var c :| (j, c) in Edges(needs) && Reaches(Edges(needs), c, d);
        var w :| WalkBetween(Edges(needs), w, c, d);
        if |w| > 1 { assert (w[|w| - 2], w[|w| - 1]) in Edges(needs); }
      }
    }
  }

  // ---------------------------------------------------------------- whole runs

  datatype Document = ReadFailed | Absent | Found(pipeline: Spec)

  /** What the runner meets before it can schedule jobs: whether the repository and its CI switch
      can be looked up, the document, workspace and checkout, and how many job rows it can insert. */
  datatype Setup = Setup(repoFound: bool, switchRead: bool, enabled: bool, document: Document,
                         workspace: bool, checkout: bool, insertable: nat)
  {
    /** The run ends before it has a job row, with this status. */
    ghost predicate EndsEarly(status: RunStatus) {
      if !repoFound || !switchRead || document == ReadFailed then status == RunError
      else if !enabled || document == Absent then status == RunCanceled
      else (!WellFormed(document.pipeline) || !workspace || !checkout) && status == RunError
    }

    ghost predicate Starts() { forall status :: !EndsEarly(status) }
  }

  /** A CI run from its claim to its verdict. It ends early exactly when the set-up fails or the gate
      or validation refuses; if a job row cannot be inserted it is an error that leaves the earlier
      rows queued. Otherwise its jobs are scheduled as `ExecuteJobs` promises, and if nothing cancels it
      exactly those whose needs all succeed execute and it succeeds exactly when every job does. */
  method ExecuteRun(setup: Setup, outcome: Outcome<string>, concurrency: int, mayCancel: bool, operatorStop: bool)
    returns (rows: map<string, JobStatus>, executed: seq<string>, trace: seq<Event<string>>, verdict: RunStatus, ctxErr: CtxErr)
    requires TerminalOutcome(outcome) && (operatorStop ==> mayCancel)
    ensures !setup.Starts() ==> rows == map[] && executed == [] && setup.EndsEarly(verdict)
    ensures setup.Starts() ==> setup.document.Found? && WellFormed(setup.document.pipeline)
    ensures setup.Starts() && setup.insertable < |setup.document.pipeline.jobs| ==>
              && verdict == RunError && executed == [] && |rows| == setup.insertable
              && forall j | j in rows :: j in setup.document.pipeline.jobs && rows[j] == JobQueued
    ensures setup.Starts() && setup.insertable >= |setup.document.pipeline.jobs| ==>
              var p := setup.document.pipeline;
              && AlwaysKept(p.Needs(), outcome, rows, executed)
              && Unexecuted(p.Needs(), outcome, rows, executed, ctxErr)
              && Scheduled(p.Needs(), trace, executed, concurrency)
              && verdict == RunVerdict(operatorStop, ctxErr, forall j | j in p.jobs :: outcome(j) == JobSuccess)
              && (!mayCancel ==> ctxErr == Live)
              && (ctxErr == Live ==> forall j | j in p.jobs :: j in executed <==> NeedsSucceed(p.Needs(), outcome, j))
  {
    rows, executed, trace, ctxErr := map[], [], [], Live;
    if !setup.repoFound || !setup.switchRead || setup.document == ReadFailed {
      assert setup.EndsEarly(RunError);
      return map[], [], [], RunError, Live;
    }
    if !setup.enabled || setup.document == Absent {
      assert setup.EndsEarly(RunCanceled);
      return map[], [], [], RunCanceled, Live;
    }
    var p := setup.document.pipeline;
    var v := Validate(p);
    if v.Rejected? || !setup.workspace || !setup.checkout {
      assert setup.EndsEarly(RunError);
      return map[], [], [], RunError, Live;
    }
    hide WellFormed, NeedsSucceed, Scheduled;
    AcceptedHasOrder(p);
    var order := TopoOrder(p.Needs());
    if order.CyclePreventsOrder? { assert false; }
    assert setup.Starts();
    var inserted := InsertRows(p, order.jobs, setup.insertable);
    if setup.insertable < |order.jobs| { return inserted, [], [], RunError, Live; }
    rows, executed, trace, verdict, ctxErr := ExecuteJobs(p.Needs(), outcome, concurrency, mayCancel, operatorStop);
    if ctxErr == Live { SuccessMeansAllExecuted(p.Needs(), outcome, rows, executed); }
  }

  /** Creates the job rows up front, in topological order, as far as the inserts succeed. */
  method InsertRows(p: Spec, order: seq<string>, insertable: nat) returns (rows: map<string, JobStatus>)
    requires multiset(order) == multiset(p.Needs().Keys)
    ensures |order| == |p.jobs|
    ensures |rows| == (if insertable < |order| then insertable else |order|)
    ensures forall j | j in rows :: j in p.jobs && rows[j] == JobQueued
  {
    assert p.Needs().Keys == p.jobs.Keys;
    assert |multiset(order)| == |multiset(p.jobs.Keys)|;
    rows := map[];
    var i := 0;
    while i < |order| && i < insertable
      invariant 0 <= i <= |order| && i <= insertable && |rows| == i
      invariant forall j | j in rows :: j in order[..i] && j in p.jobs && rows[j] == JobQueued
    {
      assert order[i] !in order[..i] by { OnlyOnce(order, p.jobs.Keys, i); }
      assert order[i] in multiset(order);
      rows := rows[order[i] := JobQueued];
      i := i + 1;
    }
  }

  lemma OnlyOnce<T>(order: seq<T>, s: set<T>, i: nat)
    requires multiset(order) == multiset(s) && i < |order|
    ensures order[i] !in order[..i]
  {
    assert order == order[..i] + [order[i]] + order[i + 1..];
    assert multiset(order)[order[i]] >= multiset(order[..i])[order[i]] + 1;
    assert multiset(s)[order[i]] <= 1;
  }
}
