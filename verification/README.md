# Verified model of codefort's core

codefort is a self-hosted forge: git hosting, issues with claims and dependencies, a CI runner, an
agent runner and an event feed. This project models the parts of it whose correctness spans several
functions or whole runs, and proves what its code and documentation promise of them. Git, SQLite,
docker and the clock appear as plain state changed by atomic steps; what a container, a model or a
merge driver decides is a parameter over which every theorem quantifies.

`dafny verify dfyconfig.toml` checks everything.

## How it is organised

| file | models | main results |
|---|---|---|
| `Graph.dfy` | walks, reachability, acyclicity | shared by the job, dependency and commit graphs |
| `Pipeline.dfy` | validation, cycle search, topological order | `FindCycle`, `TopoOrder`, `Validate` agree on acyclicity; `TiesByName` |
| `Scheduler.dfy` | the wave scheduler | `ExecuteJobs`, `ExecuteRun` |
| `GitRepo.dfy`, `GitProtocol.dfy`, `Handoff.dfy` | merges, rebases, spec writes, branch creation, handoffs, pushes | `HistoryPreserved`, `HandoffsNeverCollide` |
| `Issues.dfy`, `Leases.dfy` | dependencies and claims | `TablesStaySound`, `ClaimIsExclusive`, `OwnershipExact` |
| `Runs.dfy`, `AgentTurns.dfy`, `AgentCancel.dfy` | run, job and turn tables; the agent runner's goroutines and their cancellation | `TerminalIsFinal`, `ReconciledIsFinal`, `TurnsStayOrderly`, `StaysCanceledExactly` |
| `Budget.dfy` | the slot budget and the drain loops | `BudgetHolds`, `NoSlotLeaks` |
| `RateLimit.dfy` | token buckets with eviction | `EvictionUnobservableExactly`, `WindowBound` |
| `Diff.dfy`, `DiffRender.dfy` | the unified-diff parser | `RoundTrip`, `BudgetKeepsPrefix` |
| `Specs.dfy`, `Stamp.dfy`, `StampLaws.dfy` | frontmatter, outline, stamping | `Analyze` with `OutlineExact`, `StampKeepsBody`, `TopLevelExact`, `StampTwice` |
| `Search.dfy` | LIKE escaping and search terms | `PatternFindsTerm`, `MatchesFilter`, `CaseIsIgnored` |
| `EventStream.dfy`, `EventFeed.dfy`, `FeedSession.dfy` | the event feed from table to terminal | `ReaderUndoesWriter`, `ExactlyOnce`, `FeedDelivers` |
| `EventSource.dfy` | the same stream as a standard client reads it | `StandardReader`, `ResumesBehindLast` |
| `EventLog.dfy`, `EventJson.dfy` | a job's event file; an encoding with the properties asked of JSON | `TailEqualsReplay`, `ReopenAfterCrash` |
| `Text.dfy`, `Options.dfy`, `Statuses.dfy` | `strings` and `strconv` helpers, optional values, run and job statuses | |

Code that changes state step by step is a class or a method with loops; each such method is proved
against a function or predicate, and the theorems are about those. Concurrent parts are state
machines whose steps are the atomic operations of the code (one channel operation, one transaction,
one compare-and-swap), and their theorems hold for every interleaving.

## Where the code and its documentation disagree

The model follows the code. In each case lemmas show the failing input and state exactly when the
promise holds.

- `RunStatus.Terminal` promises no further transitions (`internal/storage/ci.go:48`), but claiming a
  lease-expired running turn sets its run back to running (`internal/storage/agent_turns.go:148`).
  `Runs.TerminalIsFinal` shows that this is the only exit, `Runs.TerminalCanBeLeft` that it is real.
- A cancelled agent run is said not to be finalized over, and a goroutine that races to park to no-op
  (`cmd/codefortd/agent_runner.go:488-502`, `internal/storage/agent_turns.go:224-226`). But a park that
  finds the run cancelled takes the failure path, whose write of the verdict has no guard, and so have a
  handoff's and an early failure's. `AgentCancel.StaysCanceledExactly` says which cancellations stand:
  those all of whose goroutines the flag has reached in time. `AgentCancel.LostToFailedPark` and
  `AgentCancel.LostToHandoff` are runs in which it has not.
- The reaper is said to finalize parked agent runs (`cmd/codefortd/agent_runner.go:427-429`), but its write
  has no guard: a run that has been resumed since it was listed is cancelled under its goroutine
  (`AgentCancel.ReapedWhileWorking`).
- The assignee of a finished issue is said to survive indefinitely (`internal/storage/issues.go:305-306`).
  The reaper keeps it, but a competing claim past the lease replaces it, as `Claim` does not look at
  the state. `Issues.OwnershipExact` lists all the ways an assignee can lose an issue, and
  `Issues.FinishedCanBeTaken` shows this one.
- A failed merge is reported as a conflict to retry (`internal/server/merge.go:319-326`), also when its
  fast-forward has already moved the branch and only the second look at the ref fails.
  The contract of `GitRepo.Repo.DoMerge` says exactly when a failure has moved the branch,
  `GitRepo.FailedMergeCanMove` gives both failing interleavings.
- A path that contains ` b/` is said to be covered by other header lines
  (`internal/server/commits.go:441-445`); mode changes, binary files and created or deleted files have
  none for one or both paths. `DiffRender.RoundTrip` gives the exact condition,
  `DiffRender.AmbiguousPathExample` an input.
- `Stamp` promises to keep the body verbatim (`internal/specs/verify.go:79-85`). A carriage return that
  survives the normalisation of line ends is dropped by the next one: `StampLaws.StampKeepsBody` and
  `StampLaws.StampTwice` give the conditions, `StampLaws.UnsettledExample` and
  `StampLaws.StampTwiceExample` an input.
- It also speaks of top-level keys (`internal/specs/verify.go:125-127`) but matches them at any
  indentation: `Stamp.TopLevelExact` and `Stamp.NestedFieldExample`.
- Reopening an event file after a crash keeps the numbering (`internal/ci/events.go:92-94`), but the next
  event is appended to the broken line and cannot be read: `EventLog.ReopenAfterCrash` and
  `EventJson.CrashExample`.
- The scheduler's comment says its stuck branch needs a malformed graph
  (`cmd/codefortd/ci_runner.go:563-567`). The branch is taken exactly when no pending job can run any
  more (`Scheduler.ClassifyPass`), which a pass over a sound graph can find after it has skipped a job
  (`Scheduler.StuckOnSoundGraph`).
- Ties in the job order are said to be broken by name (`internal/ci/ci.go:163-166`). The order is by the
  number of the pass a job has to wait for and then by name, so two jobs come by name exactly if the
  smaller name does not have to wait longer (`Pipeline.TopoOrder`, `Pipeline.TiesByName`);
  `Pipeline.TieExample` is a case where it does.

## Model

| member | source | states |
|---|---|---|
| Graph.AddEdge | internal/storage/dependencies.go:39-50 | the check made before an insert is exact: an added edge keeps the graph acyclic iff its target did not reach its source |
| Graph.SinkExists | internal/storage/issues.go:571-576 | in an acyclic graph any nonempty set of nodes has one with no edge into the set |
| Pipeline.CycleFinder.Visit | internal/ci/ci.go:210-234 | the recursive closure either blackens a white name, all its needs before it, and restores the stack, or returns a closed walk of needs edges |
| Pipeline.CycleFinder.BackEdge | internal/ci/ci.go:215-222 | a gray need closes a walk that starts and ends with the same name |
| Pipeline.FindCycle | internal/ci/ci.go:202-243 | nil iff the needs graph is acyclic; any other result is a closed walk of needs edges |
| Pipeline.FinishedIsAcyclic | internal/ci/ci.go:202-243 | a full exploration in postorder proves the absence of cycles |
| Pipeline.JobNames | internal/ci/ci.go:154-161 | every job name once, in lexicographic order |
| Pipeline.SortedListingUnique | internal/ci/ci.go:152-161 | that listing is unique, so everything iterating over it is deterministic |
| Pipeline.OutstandingEmit | internal/ci/ci.go:186-190 | emitting a job lowers each dependent's in-degree by the multiplicity of the need |
| Pipeline.EmitKeepsIndegrees | internal/ci/ci.go:180-192 | in-degrees always equal the needs not yet emitted, counted with multiplicity, and the order stays a postorder |
| Pipeline.EmitPass | internal/ci/ci.go:177-194 | a pass either emits a job or proves that no job is ready |
| Pipeline.StuckIsCyclic | internal/ci/ci.go:193-196 | without progress some need is unknown or the rest contains a cycle |
| Pipeline.TopoOrder | internal/ci/ci.go:163-198 | succeeds iff every need is known and the graph is acyclic; the order is a permutation of the names with every need before its dependent, the one that passes over the sorted names give, and strictly increasing in pass number and name |
| Pipeline.PassNumbersExist | internal/ci/ci.go:177-194 | the pass numbers, each the least that lets every need come in an earlier pass or before its dependent in the same one, can be given along any listing of jobs after their needs |
| Pipeline.PassNumbersUnique | internal/ci/ci.go:177-194 | and in one way only |
| Pipeline.OrderIsByPass | internal/ci/ci.go:177-194 | the k-th pass emits exactly the jobs numbered k, by name, so passes over a sorted listing yield the jobs by pass number and name |
| Pipeline.TiesByName | internal/ci/ci.go:163-194 | one job precedes another iff its pass number is smaller, or equal and its name smaller; so of two jobs the smaller name comes first iff its pass number is not larger |
| Pipeline.TieExample | internal/ci/ci.go:163-194 | with a and c both needing b the order is b, c, a |
| Pipeline.ValidateJob | internal/ci/ci.go:126-143 | accepts a job iff its steps exist and are well-formed and its needs are other known jobs; a rejection names a true defect |
| Pipeline.Validate | internal/ci/ci.go:115-150 | accepts iff the document is well-formed and acyclic; a rejection names a true defect |
| Scheduler.ClassifyJob | cmd/codefortd/ci_runner.go:838-855 | ready iff all needs are resolved as success, skipped iff some need is resolved otherwise |
| Scheduler.NeedsSucceedUnfold | cmd/codefortd/ci_runner.go:539-543 | all transitive needs succeed iff the direct needs succeed and theirs do |
| Scheduler.RunWave | cmd/codefortd/ci_runner.go:805-836 | under any interleaving each job of a wave starts and finishes exactly once, yields its outcome, and at no time more than `limit` run |
| Scheduler.NoReadyMeansNoneCanRun | cmd/codefortd/ci_runner.go:562-577 | a pass without a ready job proves that no pending job can ever run, even if the same pass skipped jobs |
| Scheduler.ClassifyPass | cmd/codefortd/ci_runner.go:549-577 | in any iteration order a pass skips only jobs with a failed transitive need and finds only runnable ones ready; it takes the stuck branch iff no pending job can run any more |
| Scheduler.StuckOnSoundGraph | cmd/codefortd/ci_runner.go:549-577 | a pass over an acyclic chain that takes the stuck branch after skipping a job, and one in another order that does not leave the last job pending |
| Scheduler.Iterate | cmd/codefortd/ci_runner.go:549-585 | every iteration resolves at least one job, keeps the bookkeeping true, and starts only jobs all of whose needs were executed before |
| Scheduler.ExecuteJobs | cmd/codefortd/ci_runner.go:539-616 | terminates with every job terminal; no job executes twice, with a failed transitive need, or before its needs have finished, and at no time do more run than configured; the row of a job that never started, for each end of the context: skipped or error with a failed transitive need, else error after a timeout and interrupted after a shutdown, never a success; the verdict for each end |
| Scheduler.WellTimedConcat | cmd/codefortd/ci_runner.go:549-585 | waves that start when nothing runs any more together respect the limit, and no job starts or finishes twice |
| Scheduler.ScheduledConcat | cmd/codefortd/ci_runner.go:535-538 | and jobs start after their needs have finished over the whole run if each wave's needs were executed before it |
| Scheduler.SuccessMeansAllExecuted | cmd/codefortd/ci_runner.go:539-616 | uncancelled, a job executes iff all its transitive needs succeed, and all outcomes succeed iff all rows do |
| Scheduler.ExecuteRun | cmd/codefortd/ci_runner.go:446-616 | end to end: when a run ends before it has jobs and with which verdict; a failed insert leaves the earlier rows queued; otherwise an accepted document always has an order, its jobs are scheduled within the limit and after their needs, the rows of those that never started are as above for each end of the context, and uncancelled the executed set and the verdict depend on nothing but the outcomes |
| GitRepo.ChainDescends | internal/server/merge.go:377-413 | a chain of replayed commits descends from its base |
| GitRepo.Repo.AncestorCheck | internal/server/merge.go:579-585 | the ancestor test decides reachability in the commit graph, equality included, and answers no if git fails |
| GitRepo.Repo.RebaseOnto | internal/server/merge.go:363-443 | replays commits up to the first that does not apply cleanly on top of its predecessor and reports that one's conflict or error; merges iff the commits could be listed, there are some, all apply cleanly, the tip is unmoved and git works, and then each commit that head adds, merges aside, stands once and in the listed order on top of the base tip; only a merge moves a ref, from that tip; nothing to rebase iff head adds none |
| GitRepo.Repo.DoMerge | internal/server/merge.go:300-361 | for each method exactly when it merges, is refused, conflicts or fails: a merge commit is written and fired iff the trees merge cleanly, the tip is unmoved and git works, and conflicts are reported iff there are some; a rebase as above; a fast-forward iff an ancestor test says so. Its own update fires only from the tip read before and to a descendant of it with the parents the method promises; it changes the refs iff it fired; only a fast-forward can have fired and be reported as failed, and exactly when |
| GitRepo.FailedMergeCanMove | internal/server/merge.go:319-326 | both failing interleavings: another writer advances the branch, or the request ends, between the update and the second look |
| GitRepo.Repo.WriteSpec | internal/server/specs.go:383-396 | the write creates the branch or extends the very tip that was read, or changes nothing |
| GitRepo.Repo.CreateBranch | internal/server/branches.go:46-55 | creates a branch only when it does not exist and never moves one |
| GitRepo.Repo.PreReceive | internal/server/ci_hook.go:88-143 | accepts a push iff every command on a protected branch creates or fast-forwards it and git fails at none it is asked about |
| GitProtocol.IssuedIsSafe | internal/server/merge.go:304-413 | whatever the writers' guards let them issue only creates or advances, except pushes to unprotected branches |
| GitProtocol.StepKeepsBranch | internal/server/ci_hook.go:88-143 | no step deletes a protected branch or moves it off its history, nor an unprotected one unless a push does |
| GitProtocol.HistoryPreserved | internal/server/merge.go:304-413 | over every interleaving of all writers, every commit once reachable from a protected branch, or one no push fires on, stays reachable |
| GitProtocol.FastForwardIsRun | internal/server/merge.go:311-318 | the update of a fast-forward is a run of that protocol, whether it takes place or not |
| GitProtocol.RebaseIsRun | internal/server/merge.go:377-413 | so is a successful rebase: its objects one by one, its update, and the firing |
| GitProtocol.MergeIsRun | internal/server/merge.go:337-360 | so is a merge commit |
| GitProtocol.WriteSpecIsRun | internal/server/specs.go:383-396 | and a spec write |
| GitProtocol.CreateIsRun | internal/server/branches.go:46-55 | and a new branch or the ref of a handoff |
| GitProtocol.PushIsRun | internal/server/ci_hook.go:88-143 | and an accepted push with any of its commands |
| GitProtocol.UnprotectedPushCanRewrite | internal/server/ci_hook.go:120-142 | without protection an accepted push can discard history |
| Handoff.CandidateInjective | cmd/codefortd/agent_handoff.go:177-181 | the names of a series are pairwise distinct |
| Handoff.AllocateHandoffRef | cmd/codefortd/agent_handoff.go:161-194 | takes the first free name of the series and changes nothing else; "no free ref" iff all 100 names exist; a fault only if git fails at the first free name |
| Handoff.StepTakesFreshRef | cmd/codefortd/agent_handoff.go:171-187 | a step of a handoff changes no existing ref, and a ref it takes was absent and now has its commit |
| Handoff.HandoffsNeverCollide | cmd/codefortd/agent_handoff.go:161-194 | any number of handoffs, started together, among writers that create, move and delete refs: a ref nobody deletes is taken at most once and was free before; a ref no other writer touches keeps its tip or points at its taker's commit; giving up only after seeing all 100 names |
| Issues.IssueStore.DependsOnReaches | internal/storage/dependencies.go:67-109 | terminates and decides reachability exactly |
| Issues.IssueStore.AddDependency | internal/storage/dependencies.go:24-65 | which of the four error and success cases applies, and that only success inserts the edge |
| Issues.IssueStore.Claim | internal/storage/issues.go:195-257 | succeeds iff the issue is free, the claimant's own or claimed past the lease, and then sets assignee, claim time and the state asked for, if any; nothing else changes |
| Issues.IssueStore.Unclaim | internal/storage/issues.go:259-296 | succeeds iff the issue is the caller's or free, clears both columns of a claim and nothing else |
| Issues.DeletedStaysGone | internal/storage/issues.go:83-119 | until its number is handed out again nothing depends on a deleted issue or is blocked by it and every call on it fails, over every sequence of calls; a reused number starts clean |
| Issues.OwnershipExact | internal/storage/issues.go:195-322 | over every sequence of calls an assignee keeps an issue iff nobody deletes it, they do not unclaim it, no competitor claims it past the lease and the reaper does not run past the lease while it is unfinished |
| Issues.UnclaimUndoesClaims | internal/storage/issues.go:202-296 | any claims and unclaims of one issue touch nothing else, its state becomes the one last asked for by a successful claim, and once the last holder unclaims, an issue that was free is free again |
| Issues.IssueStore.ExpireClaims | internal/storage/issues.go:298-322 | exactly the expired claims of unfinished issues are released and counted; every state, every other row and all dependencies stay |
| Issues.StepKeepsInv | internal/storage/dependencies.go:24-119 | every storage call keeps the dependency graph acyclic, without dangling endpoints, and claim time set iff assignee set |
| Issues.RunKeepsInv | internal/storage/dependencies.go:24-119 | so does every sequence of calls, after each of them |
| Issues.TablesStaySound | internal/storage/issues.go:566-576 | so from empty tables on the dependency graph is always acyclic and without self-edges or dangling endpoints, and as long as any issue is unfinished some unfinished one is not blocked |
| Issues.SomeIssueUnblocked | internal/storage/issues.go:566-576 | while any issue is unfinished, some unfinished issue has no unmet dependency |
| Issues.ClaimIsExclusive | internal/storage/issues.go:195-257 | from a successful claim on, with heartbeats less than a lease apart, nobody else becomes assignee, every heartbeat succeeds and every competing claim is refused |
| Issues.FinishedCanBeTaken | internal/storage/issues.go:305-306 | a finished issue keeps its assignee through the reaper but not through a competing claim ten seconds past a ten-second lease |
| Runs.RunStore.ClaimNextRunOfKind | internal/storage/ci.go:407-462 | takes run i iff it has the kind asked for, is queued or running past its lease, and no lower row is so; idle iff there is none; the row becomes running with the claim time now, and every other row stays |
| Runs.KindsDrainApart | internal/storage/ci.go:407-415 | any number of claims of one kind change no run of another kind, and every claim of another kind takes the run it would have taken without them |
| Runs.EndedForGood | internal/storage/ci.go:464-474 | finishing a run, or cancelling an agent run, ends it from any state, for good iff no later call steals one of its turns; only cancelling tells whether it was still open |
| Runs.RunStore.ReconcileOrphanRuns | internal/storage/ci.go:476-526 | row by row: open jobs and turns of orphaned runs and the orphans themselves change as promised, everything else stays, and the orphans are counted |
| Runs.RunStore.CreateJob | internal/storage/ci.go:606-625 | inserts a queued job or resets the row of that name |
| Runs.RunStore.EnqueueTurn | internal/storage/agent_turns.go:39-67 | appends a pending turn whose number is the least positive one above those of the run's turns |
| Runs.RunStore.ClaimNextTurn | internal/storage/agent_turns.go:87-159 | takes the lowest turn of an agent run that is pending while its run is parked or running past its lease, marks it and its run running whatever the run's status, and leaves every other row; idle iff there is none |
| Runs.CancelStandsExactly | internal/storage/agent_turns.go:218-234 | cancelling an open agent run succeeds whichever claims and parks land before it, and over every sequence of later calls the run stays cancelled iff none steals one of its turns or writes another verdict |
| Runs.RunStore.ClaimNextFinishingRun | internal/storage/agent_turns.go:251-284 | takes the lowest accepted agent run |
| Runs.TerminalStepExact | internal/storage/agent_turns.go:92-159 | a call leaves a terminal run non-terminal iff it steals a lease-expired running turn of that run |
| Runs.TerminalIsFinal | internal/storage/ci.go:48-57 | over every sequence of calls a terminal run stays terminal iff no call steals one of its turns |
| Runs.NoTurnLeaseNoExit | internal/storage/agent_turns.go:87-104 | with non-positive turn leases terminal is final without exception |
| Runs.QuietRunIsFinal | internal/storage/agent_turns.go:92-159 | a terminal run without a running turn is final whatever the leases |
| Runs.TerminalCanBeLeft | internal/storage/agent_turns.go:148-150 | a run cancelled during a turn with a ten-second lease runs again at the first claim from second ten on, and not before |
| Runs.ReconcileClosesOrphans | internal/storage/ci.go:476-526 | afterwards every run is queued or terminal, reconciled runs have no open job or turn, and other runs' rows are unchanged |
| Runs.ReconciledIsFinal | internal/storage/ci.go:476-526 | a reconciled run stays terminal under every later sequence of calls |
| AgentTurns.ClaimsFirstPending | internal/storage/agent_turns.go:92-159 | while leases outlive live dispatches, the claimed turn is the first pending one of a parked run |
| AgentTurns.StepKeepsInv | cmd/codefortd/agent_runner.go:266-368 | every step of every goroutine keeps one worker per run and running turns exactly those being dispatched |
| AgentTurns.InvIsOrderly | cmd/codefortd/agent_runner.go:331-366 | the invariant bounds running turns by one, by none while parked, and orders dispatches |
| AgentTurns.TurnsStayOrderly | cmd/codefortd/agent_runner.go:27-368 | over every mix of enqueue, claim, finish, park, accept and cancel: one worker and at most one running turn per run, none while parked, queued or finishing, each turn dispatched once, without gaps and in strictly increasing order |
| AgentCancel.StepRefinesCore | cmd/codefortd/agent_runner.go:203-368 | the machine with handles, flags and terminal writes makes only steps of the one above |
| AgentCancel.StepKeepsInv | cmd/codefortd/agent_runner.go:470-514 | every step keeps: a registered handle is found under its run; a handle is looked up, flagged or obeyed only after its run was cancelled; a cancellation under way is not yet overwritten while the run has a goroutine |
| AgentCancel.StaysCanceledExactly | cmd/codefortd/agent_runner.go:488-514 | a cancelled agent run stays cancelled under everything that can happen next iff every goroutine of it has stopped at its flag, or is in its turn or about to read the flag with the flag set |
| AgentCancel.CancelRace | cmd/codefortd/agent_runner.go:488-514 | so in every state reached from empty tables |
| AgentCancel.MarkStandsExactly | cmd/codefortd/agent_runner.go:496-500 | the update of the status alone stands iff no goroutine works on the run |
| AgentCancel.LookupFindsTurn | cmd/codefortd/agent_runner.go:503-507 | the lookup finds the handle of a goroutine that is in its turn |
| AgentCancel.FlagStandsExactly | cmd/codefortd/agent_runner.go:503-507 | setting the flag makes the cancellation stand iff the run's goroutine holds the handle looked up and has not read its flag yet, or was held before; until then it is not overwritten while that goroutine lives |
| AgentCancel.PromptCancelStands | cmd/codefortd/agent_runner.go:495-507 | a cancellation whose steps all meet the goroutine in its turn stands |
| AgentCancel.LostToFailedPark | cmd/codefortd/agent_runner.go:251-256 | a cancellation between the goroutine's look at its flag and its park succeeds, and the run ends with an error |
| AgentCancel.LostToHandoff | cmd/codefortd/agent_handoff.go:94-99 | a cancellation during a handoff succeeds, and the run ends as a success |
| AgentCancel.LateCancelsAreReal | cmd/codefortd/agent_runner.go:27-368 | both starting points can be reached from empty tables |
| AgentCancel.VerdictsAreReal | cmd/codefortd/agent_runner.go:27-368 | every verdict a goroutine may write, for each kind of run, is reached from empty tables |
| AgentCancel.ReapedWhileWorking | cmd/codefortd/agent_runner.go:427-456 | a run listed as parked, then accepted and claimed for its handoff, is cancelled by the reaper under its goroutine |
| Budget.WorkBudget.TryAcquireCI | cmd/codefortd/budget.go:37-53 | succeeds iff both channels have room and otherwise leaves both as they were |
| Budget.WorkBudget.TryAcquireAgent | cmd/codefortd/budget.go:60-70 | fails only when agents hold at least the reserved slots |
| Budget.WorkBudget.DrainCI | cmd/codefortd/ci_runner.go:364-397 | while goroutines finish at any moment: slots held afterwards are those before and those dispatched less those finished; it stops only when cancelled, out of work or refused; how many it dispatches if none finishes |
| Budget.WorkBudget.DrainAgent | cmd/codefortd/ci_runner.go:307-397 | the same for the agent loops, where a refusal means that agents hold the reserve |
| Budget.StepKeepsInv | cmd/codefortd/budget.go:40-74 | no release ever blocks, and each channel holds one element per worker that sent and has not received |
| Budget.BudgetHolds | cmd/codefortd/budget.go:21-74 | in every interleaving of single channel operations, claims and releases: slots taken are those of live goroutines and those in a drain loop's hand, within total; CI within total less reserved; agents refused only when they hold the reserve; no receive blocks |
| Budget.NoSlotLeaks | cmd/codefortd/ci_runner.go:311-397 | with one drain loop the slots taken are always those of live goroutines and at most one in its hand |
| RateLimit.TokenBucket.Allow | internal/server/ratelimit.go:30-42 | refills by rate times elapsed time up to the burst, and charges one token iff one is there |
| RateLimit.IpLimiter.EvictIdle | internal/server/ratelimit.go:102-120 | in any iteration order removes exactly the idle buckets except the requester's |
| RateLimit.IpLimiter.Allow | internal/server/ratelimit.go:86-100 | the answer and all buckets afterwards, with a clock reading each for a new bucket, a sweep and the charge |
| RateLimit.EvictionUnobservableExactly | internal/server/ratelimit.go:51-120 | some sequence of calls is answered otherwise than by a limiter that never evicts iff a bucket holds a token and takes longer than an hour to refill |
| RateLimit.EvictionUnobservable | internal/server/ratelimit.go:51-120 | on every sequence of calls the answers are those of a limiter that never evicts |
| RateLimit.ServerConfigRefills | internal/server/server.go:65-67 | the server's burst of three seconds meets that condition for every positive rate |
| RateLimit.WindowBound | internal/server/ratelimit.go:21-42 | in any window of length T at most burst + rate * T requests of one IP are allowed, whatever came before |
| Diff.ParseUnifiedDiff | internal/server/commits.go:342-427 | the loop computes the parse that the theorems are about |
| Diff.BudgetKeepsPrefix | internal/server/commits.go:337-427 | a budget of b keeps exactly the first b lines of the unlimited parse, the same files and hunk headers, counts of the kept lines, and reports truncation iff there are more |
| DiffRender.HunkHeaderRoundTrip | internal/server/commits.go:429-439 | a hunk header's start lines and section are read back, with or without counts |
| DiffRender.HeaderParsed | internal/server/commits.go:145-148 | every line that matches the header's pattern gives its two start lines, however written, and what follows |
| DiffRender.OtherHeaderParsed | internal/server/commits.go:429-435 | and any other line starts a hunk at line one without a section |
| DiffRender.NoSeparatorNoPaths | internal/server/commits.go:446-451 | a git line without " b/" gives no paths |
| DiffRender.MarkerLineStep | internal/server/commits.go:378-407 | a hunk line is never taken for a header, whatever its text |
| DiffRender.RenderParses | internal/server/commits.go:342-427 | every rendered list of files, with ignored header lines wherever git puts them, is read back with the same hunks, lines and line numbers |
| DiffRender.NewScriptExample | internal/server/commits.go:408-424 | a new executable file as git writes it is among the rendered ones |
| DiffRender.RenderParsesWithin | internal/server/commits.go:342-427 | and under any budget with its first lines |
| DiffRender.GitLinePaths | internal/server/commits.go:441-452 | the header line gives both paths if " b/" first occurs between them and otherwise neither |
| DiffRender.RoundTrip | internal/server/commits.go:342-452 | the parse equals the rendered structure, paths included, iff each file's paths have lines of their own or can be told apart |
| DiffRender.AmbiguousPathExample | internal/server/commits.go:441-452 | a mode change of a path holding " b/" is read back wrongly |
| Specs.SplitFrontmatter | internal/specs/specs.go:146-189 | frontmatter lines, body and first body line in all three cases; an error iff there is a block that is not blank and does not decode |
| Specs.ClosesExact | internal/specs/specs.go:166-173 | a closing fence is three dashes or three dots with nothing but spaces and tabs behind them |
| Specs.ParseHeading | internal/specs/specs.go:243-263 | recognises exactly the lines of at most three spaces, one to six hashes and a space, with their level and text |
| Specs.HeadingTextExact | internal/specs/specs.go:258-262 | that text is what is left without white space around it, then without closing hashes, then again without white space |
| Specs.ItemExact | internal/specs/specs.go:265-289 | a task-list line is blanks, a bullet, spaces, a box with a space, x or X in it and a rest, at least five characters without the blanks; its text is the trimmed rest, and it is checked iff the mark is x or X |
| Specs.FenceExact | internal/specs/specs.go:214-220 | a fence is three backticks or tildes behind white space |
| Specs.FenceParity | internal/specs/specs.go:214-223 | a line is inside fenced code iff an odd number of fences precedes it |
| Specs.CloseTo | internal/specs/specs.go:206-212 | pops exactly the open sections as deep as the heading and gives each its final body |
| Specs.Analyze | internal/specs/specs.go:194-241 | the single stack pass computes the outline: the first unfenced top heading with a text is the title; one section for each unfenced heading, with its level and text, whose body is what stands up to the first later unfenced heading of the same or a shallower level, without newlines around it; one item for each unfenced task-list line, with its text and mark; all in the order of their lines |
| Specs.OutlineExact | internal/specs/specs.go:191-241 | the outline that the pass is proved equal to is the one described there |
| Specs.TitleExact | internal/specs/specs.go:228-230 | its title is the first text of an unfenced heading of level one, or empty |
| Specs.SectionExact | internal/specs/specs.go:226-239 | each of its sections has the heading, extent and body described |
| Specs.ItemsExact | internal/specs/specs.go:235-237 | its items are those of the unfenced task-list lines, all of them and no others |
| Specs.ExtentIsFirst | internal/specs/specs.go:60-63 | a section ends at the first later heading of the same or a shallower level, or at the end of the body |
| Specs.PopOk | internal/specs/specs.go:206-212 | a section is closed once: its body is still empty when it is popped |
| Specs.ExtentsNest | internal/specs/specs.go:60-63 | two sections' extents are nested or disjoint |
| Specs.SectionForEachHeading | internal/specs/specs.go:226-231 | a line has a section iff it is an unfenced heading |
| Specs.SectionLinesIncrease | internal/specs/specs.go:64-69 | section lines strictly increase |
| Specs.ChecklistInOrder | internal/specs/specs.go:235-237 | so do checklist lines, within the body |
| Specs.LinesAreFileAbsolute | internal/specs/specs.go:185-188 | line numbers counted from the body's first line are lines of the file |
| Stamp.Append | internal/specs/verify.go:108-112 | appending to a slice at its capacity leaves its array alone |
| Stamp.UpsertYAML | internal/specs/verify.go:125-138 | replaces the first line with the key or adds one, and writes nothing outside the slice |
| Stamp.StampFile | internal/specs/verify.go:86-123 | the in-place code computes the stamped text the theorems are about |
| Stamp.AlignmentExact | internal/specs/verify.go:140-150 | the score written is the clamped score to the nearest hundredth, halves up, with two decimals |
| Stamp.KeyLineExact | internal/specs/verify.go:129-135 | a line holds a key iff it is white space, the key, a colon, and then only white space or a space first |
| Stamp.OtherLinesSurvive | internal/specs/verify.go:79-85 | every frontmatter line survives in its place except the first line with each key |
| Stamp.UpsertTwice | internal/specs/verify.go:125-138 | upserting the same values again changes nothing |
| Stamp.TopLevelExact | internal/specs/verify.go:125-138 | stamping changes no line but top-level lines with the keys iff for each key the first line that holds it is absent or not indented |
| Stamp.NestedFieldExample | internal/specs/verify.go:125-138 | a field of a nested block that stamping replaces |
| StampLaws.StampKeepsBody | internal/specs/verify.go:79-123 | for every text and score the body read after stamping is the body read before iff the text's line ends are settled |
| StampLaws.PlainTextKeepsBody | internal/specs/verify.go:79-123 | without carriage returns it always is, and the frontmatter read is the old one with the keys upserted |
| StampLaws.UnsettledExample | internal/specs/verify.go:86-89 | a text whose body stamping changes |
| StampLaws.StampTwice | internal/specs/verify.go:86-123 | for every text stamping twice is stamping once iff no line of it, read once, ends in a carriage return, apart from the last and those that are replaced |
| StampLaws.StampTwiceExample | internal/specs/verify.go:86-89 | a text on which it is not |
| StampLaws.PlainTextStampsOnce | internal/specs/verify.go:86-123 | without carriage returns stamping is idempotent |
| Search.PatternFindsTerm | internal/storage/issues.go:352-357 | for every text and term the escaped pattern matches iff the term occurs literally, where each character may differ from the text's only in the case of an ASCII letter |
| Search.FoldExact | internal/storage/issues.go:549-550 | two characters are taken for the same iff they are, or are the two cases of one ASCII letter |
| Search.EscapingMatters | internal/storage/issues.go:352-357 | without escaping it would not |
| Search.FieldsAreWords | internal/storage/issues.go:366-377 | the terms are the maximal runs without white space, each as often as it stands there and in its order |
| Search.MatchesFilter | internal/storage/issues.go:548-557 | a query matches iff each of its first eight words occurs in title or body |
| Search.CaseIsIgnored | internal/storage/issues.go:548-557 | changing the case of ASCII letters anywhere in query, title or body never changes the answer |
| EventStream.StreamEvents | cmd/cf/events.go:116-147 | the scanning loop computes the reader the theorems are about |
| EventStream.ChunkBytes | internal/server/events.go:148-158 | the bytes of a frame and of a heartbeat |
| EventStream.DataAddsUp | cmd/cf/events.go:137-143 | the data of a frame with several data lines adds up |
| EventStream.ReturnsDropped | cmd/cf/events.go:134-143 | lines that end with a carriage return and a newline are read like those that end with a newline |
| EventStream.CutFrame | internal/server/events.go:148-158 | a frame cut off at any byte is read iff its data line is complete |
| EventStream.ReaderUndoesWriter | cmd/cf/events.go:113-147 | of any stream of frames and heartbeats cut at any byte exactly the complete events are delivered, in order |
| EventStream.ReceivedIsPrefix | cmd/cf/events.go:113-147 | these are a prefix of the events sent, all of them if nothing was cut |
| EventSource.StandardReader | internal/server/events.go:148-158 | a client that follows section 9.2.6 of the WHATWG HTML Standard dispatches, of a stream cut at any byte, exactly the events whose frames are complete, each with its type, data and id |
| EventSource.ResumesBehindLast | internal/server/events.go:148-150 | and the last event id it reconnects with is that of the last of them, or the one it had |
| Text.DecimalPositional | internal/server/events.go:156 | a written number has its digits at the powers of ten, most significant first and without leading zeros |
| Text.ParsePositional | internal/server/commits.go:429-438 | and a string of digits is read by the same rule, leading zeros included |
| EventFeed.EventTable.ListEventsSince | internal/storage/events.go:47-88 | the first rows of the repository, or of all, above the position, ascending, up to the limit or 500 |
| EventFeed.EventTable.PruneEvents | internal/storage/events.go:90-107 | removes exactly the rows up to the highest id less `keep`, leaves at most `keep`, and the table is always its log less what was pruned |
| EventFeed.LogsGrow | internal/storage/events.go:47-107 | over any sequence of appends, prunes and reads of a table the log stays ascending and only grows |
| EventFeed.ReadsArePartOfLog | internal/storage/events.go:47-88 | so whatever is read from a new table on is part of its log, as the delivery theorems ask |
| EventFeed.HandleEvents | internal/server/events.go:71-111 | the replay and tail loop writes the chunks the theorems are about |
| EventFeed.ServeSends | internal/server/events.go:71-111 | a connection sends the next wanted events of the log, each once and in order, and all of them if its last read drained the log |
| EventFeed.ServeExact | internal/server/events.go:71-111 | under any pruning a connection sends, ascending, exactly the wanted events up to its position less those pruned before the read that passed them |
| FeedSession.RunEvents | cmd/cf/events.go:56-75 | the reconnect loop, with unreachable servers and refusals, computes the session the theorems are about |
| FeedSession.ConnectPrints | cmd/cf/events.go:88-148 | one connection prints the next wanted events and resumes right behind them |
| FeedSession.ExactlyOnce | cmd/cf/events.go:19-76 | across any drops, if nothing is pruned before it is read, the client prints wanted events above its start, each once, ascending and without a gap, and all of them once a connection drains the log |
| FeedSession.PrintedExactly | cmd/cf/events.go:19-76 | across any drops and under any pruning it prints, each once and ascending, exactly the wanted events up to the id it has reached less those pruned before the read that passed them |
| FeedSession.FeedDelivers | cmd/cf/events.go:19-76 | so for every sequence of appends, prunes and reads of a new table and all connections served by these reads |
| EventLog.ReadEvents | internal/ci/events.go:142-181 | the loop decodes the complete lines from an offset and stops before a corrupt one; behind the end there is nothing |
| EventLog.TailEqualsReplay | internal/ci/events.go:142-181 | polling a growing file from the returned offset yields what one read of the grown file yields |
| EventLog.LogReadsBack | internal/ci/events.go:117-208 | a log is read in full, an unfinished line is left unread, and the count is that of the complete events |
| EventLog.AppendKeepsLog | internal/ci/events.go:117-133 | appending keeps the numbering 1, 2, 3 and so on, also after reopening |
| EventLog.ReopenAfterCrash | internal/ci/events.go:90-133 | after a crash that leaves n bytes of an entry behind numbering continues, and the log reads on iff n is zero |
| EventJson.CrashExample | internal/ci/events.go:117-181 | a crash two bytes into the first entry makes the file unreadable from its start |

## Left out

- HTTP handlers, authentication, SSH transport, the web UI, token, user, settings and pull-request storage, docker and the execution of git, provision and claude: foreign effects, present only as parameters.
- YAML, JSON, regular expressions, `path.Match`, cron and hashing: library code. JSON appears as an encoding and a decoding of which only the stated properties are used; the hook's glob patterns appear as the set of branches they match.
- `autoCloseMergedPRs` (internal/server/ci_hook.go): one independent test for each pull request; the ancestor test it relies on is modelled.
- Exact skipped or error labels of jobs that never run: the iteration order decides them, so only that they are one of the two is stated.
- Parsing of query parameters (the `repo` and `types` filters, `last_event_id`) and of command-line flags: the filter and the start are parameters.
- Event emission, logging, workspaces and containers in the runners; retention (`PruneRuns`), list filters and result ordering.
- Issue parents, labels, epics and several repositories in one database; other repositories' claims are released by the same reaper.
- GitRepo.Repo.AncestorCheck: searches as git's own test does, as `FreshOid` stands for git's object names; file contents and merge drivers are a parameter.
- AgentTurns.TurnsStayOrderly: assumes that a lease never runs out under a live goroutine and that storage writes succeed, as the leases are configured to ensure; restarts are covered by the reconciliation theorems instead.
- AgentCancel.StaysCanceledExactly: makes the same assumption; what a stolen turn does to a cancelled run is in `Runs.CancelStandsExactly`. Teardown, and the cancellation of CI runs through their own handles, are not modelled.
- GitRepo.Repo.RebaseOnto: takes the order in which `git rev-list` lists the commits as a parameter; which commits it lists is modelled.
- Runs.RunStore.FinishTurn: takes the two statuses its callers pass.
- RateLimit.IpLimiter.Allow: one atomic step, although the code takes its two locks one after the other; tokens are real numbers, so float rounding is not modelled.
- DiffRender.RoundTrip: paths that git quotes, and the tab git appends to names with spaces, are not rendered; numbers in hunk headers are unbounded, so overflow in `Atoi` is not modelled.
- Search.PatternFindsTerm: SQLite's limit on the length of a pattern, and text with NUL characters, are not modelled.
- FeedSession.ExactlyOnce: frames longer than the client's scanner buffer and rows deleted with their repository are not modelled.
