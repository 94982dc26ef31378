/** The issue tables of one repository: dependency edges (internal/storage/dependencies.go) and
    claims (internal/storage/issues.go). */
module Issues {
  import opened Graph
  import opened Leases
  import opened Options

  type Agent = string

  datatype IssueState = Todo | InProgress | Done | Closed {
    predicate Open() { this == Todo || this == InProgress }
  }

  /** `assignee` and `claimedAt` are the nullable columns of the claim. Times are whole seconds. */
  datatype Issue = Issue(state: IssueState, assignee: Option<Agent>, claimedAt: Option<int>)

  datatype Result = Ok | NotFound | InvalidInput | SelfDependency | DependencyCycle | AlreadyClaimed | NotOwner

  /** The two tables; (a, b) in `deps` says that issue a is blocked until b is finished. */
  datatype Db = Db(issues: map<int, Issue>, deps: set<(int, int)>)

  // ---------------------------------------------------------------- the operations as functions

  predicate Claimable(i: Issue, who: Agent, lease: int, now: int) {
    i.assignee == None || i.assignee == Some(who) || Expired(i.claimedAt, lease, now)
  }

  function Claimed(i: Issue, who: Agent, state: Option<IssueState>, now: int): Issue {
    i.(assignee := Some(who), claimedAt := Some(now), state := if state.Some? then state.value else i.state)
  }

  function Released(i: Issue): Issue {
    i.(assignee := None, claimedAt := None)
  }

  predicate Reapable(i: Issue, lease: int, now: int) {
    i.assignee.Some? && i.state.Open() && Expired(i.claimedAt, lease, now)
  }

  /** One more than the largest number in use, or 1. */
  ghost predicate NextNumber(numbers: set<int>, next: int) {
    && (forall k | k in numbers :: k < next)
    && (next == 1 || next - 1 in numbers)
  }

  datatype Op =
    | Create
    | SetState(number: int, state: IssueState)
    | AddDependency(number: int, dependsOn: int)
    | RemoveDependency(number: int, dependsOn: int)
    | Delete(number: int)
    | Claim(number: int, who: Agent, newState: Option<IssueState>, lease: int)
    | Unclaim(number: int, who: Agent)
    | ExpireClaims(lease: int)

  /** One storage call at time `now`, as a transaction on the two tables. */
  ghost predicate Step(db: Db, op: Op, now: int, db': Db, r: Result) {
    match op
    case Create =>
      r == Ok && exists next | NextNumber(db.issues.Keys, next) ::
        db' == db.(issues := db.issues[next := Issue(Todo, None, None)])
    case SetState(n, s) =>
      if n in db.issues then r == Ok && db' == db.(issues := db.issues[n := db.issues[n].(state := s)])
      else r == NotFound && db' == db
    case AddDependency(a, b) =>
      if a == b then r == SelfDependency && db' == db
      else if a !in db.issues || b !in db.issues then r == InvalidInput && db' == db
      else if Reaches(db.deps, b, a) then r == DependencyCycle && db' == db
      else r == Ok && db' == db.(deps := db.deps + {(a, b)})
    case RemoveDependency(a, b) =>
      r == Ok && db' == db.(deps := db.deps - {(a, b)})
    case Delete(n) =>
      if n in db.issues then
        r == Ok && db' == Db(db.issues - {n}, set e | e in db.deps && e.0 != n && e.1 != n)
      else r == NotFound && db' == db
    case Claim(n, who, s, lease) =>
      if n !in db.issues then r == NotFound && db' == db
      else if Claimable(db.issues[n], who, lease, now) then
        r == Ok && db' == db.(issues := db.issues[n := Claimed(db.issues[n], who, s, now)])
      else r == AlreadyClaimed && db' == db
    case Unclaim(n, who) =>
      if n !in db.issues then r == NotFound && db' == db
      else if db.issues[n].assignee == None then r == Ok && db' == db
      else if db.issues[n].assignee != Some(who) then r == NotOwner && db' == db
      else r == Ok && db' == db.(issues := db.issues[n := Released(db.issues[n])])
    case ExpireClaims(lease) =>
      r == Ok && db' == db.(issues := Reaped(db.issues, lease, now))
  }

  function Reaped(issues: map<int, Issue>, lease: int, now: int): map<int, Issue> {
    map n | n in issues :: if Reapable(issues[n], lease, now) then Released(issues[n]) else issues[n]
  }

  lemma DoneIsDue(issues: map<int, Issue>, done: set<int>, lease: int, now: int)
    requires forall n :: n in done <==> n in issues && Reapable(issues[n], lease, now)
    ensures done == set n | n in issues && Due(issues[n], lease, now)
  {
    var due := set n | n in issues && Due(issues[n], lease, now);
    assert forall n :: n in due <==> n in issues && Reapable(issues[n], lease, now);
    assert forall n :: n in done <==> n in due;
    assert done == due;
  }

  lemma ReapedRows(before: map<int, Issue>, after: map<int, Issue>, lease: int, now: int)
    requires after.Keys == before.Keys
    requires forall n | n in after ::
               after[n] == if Reapable(before[n], lease, now) then Released(before[n]) else before[n]
    ensures after == Reaped(before, lease, now)
  {
    hide Reapable, Released;
    var reaped := Reaped(before, lease, now);
    assert after.Keys == reaped.Keys;
    assert forall n | n in after :: after[n] == reaped[n];
  }

  /** `seconds` of the lease, given in nanoseconds, have passed since the claim; leases that are not
      positive never run out. */
  ghost predicate PastLease(i: Issue, lease: int, now: int) {
    lease > 0 && i.claimedAt.Some? && now - i.claimedAt.value >= lease / 1_000_000_000
  }

  /** What the reaper is for: claims past the lease on unfinished issues. */
  ghost predicate Due(i: Issue, lease: int, now: int) {
    i.assignee.Some? && i.state in {Todo, InProgress} && PastLease(i, lease, now)
  }

  // ---------------------------------------------------------------- the storage layer

  /** Any row of a nonempty result set. */
  method Pick<T>(rows: set<T>) returns (row: T)
    requires rows != {}
    ensures row in rows
  {
    row :| row in rows;
  }

  method MaxOrZero(numbers: set<int>) returns (max: int)
    ensures max >= 0 && (forall k | k in numbers :: k <= max) && (max == 0 || max in numbers)
  {
    max := 0;
    var rest := numbers;
    while rest != {}
      invariant rest <= numbers
      invariant max >= 0 && (forall k | k in numbers :: k in rest || k <= max) && (max == 0 || max in numbers)
    {
      var k := Pick(rest);
      if k > max { max := k; }
      rest := rest - {k};
    }
  }

  class IssueStore {
    var issues: map<int, Issue>
    var deps: set<(int, int)>

    constructor ()
      ensures View() == Db(map[], {})
    {
      issues, deps := map[], {};
    }

    ghost function View(): Db
      reads this
    {
      Db(issues, deps)
    }

    method CreateIssue(now: int) returns (number: int)
      modifies this
      ensures Step(old(View()), Create, now, View(), Ok)
      ensures number !in old(issues) && number in issues
      ensures (forall k | k in old(issues) :: k < number) && (number == 1 || number - 1 in old(issues))
    {
      var max := MaxOrZero(issues.Keys);
      number := max + 1;
      assert NextNumber(issues.Keys, number);
      issues := issues[number := Issue(Todo, None, None)];
    }

    method UpdateState(number: int, state: IssueState, now: int) returns (r: Result)
      modifies this
      ensures Step(old(View()), SetState(number, state), now, View(), r)
    {
      if number !in issues { return NotFound; }
      issues := issues[number := issues[number].(state := state)];
      r := Ok;
    }

    /** The rows `SELECT depends_on_number ... WHERE issue_number = cur` yields, in any order. */
    method DependsOn(cur: int) returns (next: seq<int>)
      ensures forall n :: n in next <==> (cur, n) in deps
    {
      next := [];
      var rest := set e | e in deps && e.0 == cur;
      while rest != {}
        invariant forall e | e in rest :: e in deps && e.0 == cur
        invariant forall n :: (n in next || (cur, n) in rest) <==> (cur, n) in deps
      {
        var e :| e in rest;
        next := next + [e.1];
        rest := rest - {e};
      }
    }

    /** The iterative depth-first search of `dependsOnReaches` decides reachability. */
    method DependsOnReaches(from: int, target: int) returns (reaches: bool)
      ensures reaches <==> Reaches(deps, from, target)
    {
      var visited: set<int> := {};
      var stack := [from];
      ghost var nodes := {from} + set e | e in deps :: e.1;
      ReachesSelf(deps, from);
      while |stack| > 0
        invariant forall x | x in stack :: Reaches(deps, from, x) && x in nodes
        invariant forall x | x in visited :: Reaches(deps, from, x) && x in nodes
        invariant target !in visited
        invariant from in visited || from in stack
        invariant forall x, y | x in visited && (x, y) in deps :: y in visited || y in stack
        decreases nodes - visited, |stack|
      {
        var cur := stack[|stack| - 1];
        ghost var before := stack;
        stack := stack[..|stack| - 1];
        assert before == stack + [cur];
        if cur == target { return true; }
        if cur !in visited {
          visited := visited + {cur};
          var next := DependsOn(cur);
          forall y | y in next ensures Reaches(deps, from, y) {
            ReachesSelf(deps, y);
            ReachesStep(deps, cur, y, y);
            ReachesTransitive(deps, from, cur, y);
          }
          stack := stack + next;
        }
      }
      assert stack == [] && from in visited;
      assert forall x, y | x in visited && (x, y) in deps :: y in visited;
      StaysInside(deps, visited, from, target);
      reaches := false;
    }

    method AddDependency(number: int, dependsOn: int, now: int) returns (r: Result)
      modifies this
      ensures Step(old(View()), Op.AddDependency(number, dependsOn), now, View(), r)
    {
      if number == dependsOn { return SelfDependency; }
      if number !in issues || dependsOn !in issues { return InvalidInput; }
      var reaches := DependsOnReaches(dependsOn, number);
      if reaches { return DependencyCycle; }
      deps := deps + {(number, dependsOn)};
      r := Ok;
    }

    method RemoveDependency(number: int, dependsOn: int, now: int) returns (r: Result)
      modifies this
      ensures Step(old(View()), Op.RemoveDependency(number, dependsOn), now, View(), r)
    {
      deps := deps - {(number, dependsOn)};
      r := Ok;
    }

    method DeleteIssue(number: int, now: int) returns (r: Result)
      modifies this
      ensures Step(old(View()), Delete(number), now, View(), r)
    {
      if number !in issues { return NotFound; }
      deps := set e | e in deps && e.0 != number && e.1 != number;
      issues := issues - {number};
      r := Ok;
    }

    /** Succeeds exactly for an issue that is free, the claimant's own, or claimed past the lease, and
        then sets assignee, claim time and the state asked for, if any. */
    method Claim(number: int, who: Agent, state: Option<IssueState>, lease: int, now: int) returns (r: Result)
      modifies this
      ensures Step(old(View()), Op.Claim(number, who, state, lease), now, View(), r)
      ensures r == NotFound <==> number !in old(issues)
      ensures r == Ok <==> number in old(issues) && var issue := old(issues)[number];
                issue.assignee == None || issue.assignee == Some(who) || PastLease(issue, lease, now)
      ensures r == Ok || r == NotFound || r == AlreadyClaimed
      ensures r == Ok ==>
                var newState := if state.Some? then state.value else old(issues)[number].state;
                issues == old(issues)[number := Issue(newState, Some(who), Some(now))]
      ensures (r != Ok ==> issues == old(issues)) && deps == old(deps)
    {
      if number in issues && Claimable(issues[number], who, lease, now) {
        issues := issues[number := Claimed(issues[number], who, state, now)];
        return Ok;
      }
      r := if number !in issues then NotFound else AlreadyClaimed;
    }

    /** Only the assignee can give an issue up; giving up a free one changes nothing. */
    method Unclaim(number: int, caller: Agent, now: int) returns (r: Result)
      modifies this
      ensures Step(old(View()), Op.Unclaim(number, caller), now, View(), r)
      ensures r == Ok <==> number in old(issues) && old(issues)[number].assignee in {None, Some(caller)}
      ensures r == Ok && old(issues)[number].assignee == Some(caller) ==>
                issues == old(issues)[number := Issue(old(issues)[number].state, None, None)]
      ensures r == Ok && old(issues)[number].assignee == None ==> issues == old(issues)
      ensures (r != Ok ==> issues == old(issues)) && deps == old(deps)
    {
      if number !in issues { return NotFound; }
      if issues[number].assignee == None { return Ok; }
      if issues[number].assignee != Some(caller) { return NotOwner; }
      issues := issues[number := Released(issues[number])];
      r := Ok;
    }

    /** Goes over the rows in any order: exactly the due ones are released, keep their state and are
        counted. */
    method ExpireClaims(lease: int, now: int) returns (released: nat)
      modifies this
      ensures Step(old(View()), Op.ExpireClaims(lease), now, View(), Ok)
      ensures issues.Keys == old(issues).Keys && deps == old(deps)
      ensures forall n | n in issues && Due(old(issues)[n], lease, now) ::
                issues[n] == Issue(old(issues)[n].state, None, None)
      ensures forall n | n in issues && !Due(old(issues)[n], lease, now) :: issues[n] == old(issues)[n]
      ensures released == |set n | n in old(issues) && Due(old(issues)[n], lease, now)|
    {
      released := 0;
      ghost var done: set<int> := {};
      if lease > 0 {
        var rest := issues.Keys;
        while rest != {}
          invariant rest <= old(issues).Keys == issues.Keys && deps == old(deps)
          invariant forall n | n in rest :: issues[n] == old(issues)[n]
          invariant forall n | n in issues && n !in rest ::
                      issues[n] == if Reapable(old(issues)[n], lease, now) then Released(old(issues)[n]) else old(issues)[n]
          invariant forall n :: n in done <==> n in old(issues) && n !in rest && Reapable(old(issues)[n], lease, now)
          invariant released == |done|
        {
          hide Reapable, Released;
          var n := Pick(rest);
          if Reapable(issues[n], lease, now) {
            issues := issues[n := Released(issues[n])];
            released, done := released + 1, done + {n};
          }
          rest := rest - {n};
        }
      }
      ReapedRows(old(issues), issues, lease, now);
      DoneIsDue(old(issues), done, lease, now);
      assert forall n | n in issues :: Reapable(old(issues)[n], lease, now) <==> Due(old(issues)[n], lease, now);
    }
  }

  // ---------------------------------------------------------------- what every run keeps

  /** The dependency graph has no cycle (hence no self-edge) and no dangling endpoint, and a
      claim time is set exactly for claimed issues. */
  ghost predicate Inv(db: Db) {
    && Acyclic(db.deps)
    && (forall e | e in db.deps :: e.0 in db.issues && e.1 in db.issues)
    && (forall n | n in db.issues :: db.issues[n].assignee.Some? <==> db.issues[n].claimedAt.Some?)
  }

  lemma StepKeepsInv(db: Db, op: Op, now: int, db': Db, r: Result)
    requires Inv(db) && Step(db, op, now, db', r)
    ensures Inv(db')
  {
    match op
    case AddDependency(a, b) => if r == Ok { AddEdge(db.deps, a, b); }
    case RemoveDependency(_, _) => AcyclicSubgraph(db'.deps, db.deps);
    case Delete(_) => AcyclicSubgraph(db'.deps, db.deps);
    case _ =>
  }

  /** A run: each entry is a call, its time, and the state and result after it. */
  datatype Event = Event(op: Op, now: int, after: Db, result: Result)

  ghost predicate IsRun(db: Db, run: seq<Event>)
    decreases |run|
  {
    run == [] || (Step(db, run[0].op, run[0].now, run[0].after, run[0].result) && IsRun(run[0].after, run[1..]))
  }

  ghost function Last(db: Db, run: seq<Event>): Db {
    if run == [] then db else run[|run| - 1].after
  }

  lemma {:induction false} RunKeepsInv(db: Db, run: seq<Event>)
    requires Inv(db) && IsRun(db, run)
    ensures forall i | 0 <= i < |run| :: Inv(run[i].after)
    decreases |run|
  {
    hide Inv, Step;
    if run != [] {
      StepKeepsInv(db, run[0].op, run[0].now, run[0].after, run[0].result);
      RunKeepsInv(run[0].after, run[1..]);
      forall i | 0 <= i < |run| ensures Inv(run[i].after) {
        if i > 0 { assert run[i] == run[1..][i - 1]; }
      }
    }
  }

  lemma NoSelfEdge(db: Db)
    requires Inv(db)
    ensures forall e | e in db.deps :: e.0 != e.1
  {
    forall e | e in db.deps ensures e.0 != e.1 {
      assert !IsClosedWalk(db.deps, [e.0, e.1]);
    }
  }

  const EMPTY: Db := Db(map[], {})

  lemma EmptyTablesOk()
    ensures Inv(EMPTY)
  {
    OrderedIsAcyclic(EMPTY.deps, []);
  }

  /** After any storage calls from empty tables the dependency graph is acyclic, without self-edges
      or dangling endpoints, a claim time is set exactly for claimed issues, and as long as work
      remains some unfinished issue is not blocked. */
  lemma TablesStaySound(run: seq<Event>, i: nat)
    requires IsRun(EMPTY, run) && i < |run|
    ensures Inv(run[i].after)
    ensures forall e | e in run[i].after.deps :: e.0 != e.1
    ensures (exists n | n in run[i].after.issues :: run[i].after.issues[n].state.Open()) ==>
              exists n | n in run[i].after.issues :: run[i].after.issues[n].state.Open() && !HasUnmetDependency(run[i].after, n)
  {
    hide Inv, IsRun;
    EmptyTablesOk();
    RunKeepsInv(EMPTY, run);
    NoSelfEdge(run[i].after);
    if exists n | n in run[i].after.issues :: run[i].after.issues[n].state.Open() { SomeIssueUnblocked(run[i].after); }
  }

  /** Whether an event hands out the number n. */
  predicate Reuses(ev: Event, n: int) { ev.op.Create? && n in ev.after.issues }

  /** What an event looks like to the issue n while there is none. */
  ghost predicate AbsentAt(ev: Event, n: int) {
    && n !in ev.after.issues
    && (forall e | e in ev.after.deps :: e.0 != n && e.1 != n)
    && (ev.op.AddDependency? && (ev.op.number == n || ev.op.dependsOn == n) ==> ev.result != Ok)
    && ((ev.op.Claim? || ev.op.Unclaim? || ev.op.SetState? || ev.op.Delete?) && ev.op.number == n ==> ev.result == NotFound)
  }

  /** A deleted issue leaves no trace: until its number is handed out again, nothing can depend on
      it or block it, and every call on it fails; and a number that is handed out starts clean. */
  lemma {:induction false} DeletedStaysGone(db: Db, run: seq<Event>, n: int)
    requires Inv(db) && IsRun(db, run) && n !in db.issues
    requires forall i | 0 <= i < |run| - 1 :: !Reuses(run[i], n)
    ensures forall i | 0 <= i < |run| && !Reuses(run[i], n) :: AbsentAt(run[i], n)
    ensures run != [] && Reuses(run[|run| - 1], n) ==>
              var db' := run[|run| - 1].after;
              db'.issues[n] == Issue(Todo, None, None) && forall e | e in db'.deps :: e.0 != n && e.1 != n
    decreases |run|
  {
    if run != [] {
      var ev := run[0];
      StepKeepsInv(db, ev.op, ev.now, ev.after, ev.result);
      AbsentStep(db, ev, n);
      if !Reuses(ev, n) {
        assert forall i | 0 <= i < |run| - 1 :: run[1..][i] == run[i + 1];
        DeletedStaysGone(ev.after, run[1..], n);
        forall i | 0 <= i < |run| && !Reuses(run[i], n) ensures AbsentAt(run[i], n) {
          if i > 0 { assert run[i] == run[1..][i - 1]; }
        }
      }
    }
  }

  lemma AbsentStep(db: Db, ev: Event, n: int)
    requires Inv(db) && Step(db, ev.op, ev.now, ev.after, ev.result) && n !in db.issues
    ensures !Reuses(ev, n) ==> AbsentAt(ev, n)
    ensures Reuses(ev, n) ==> ev.after.issues[n] == Issue(Todo, None, None) && ev.after.deps == db.deps
  {
    if ev.op.Create? {
      var next :| NextNumber(db.issues.Keys, next) &&
                  ev.after == db.(issues := db.issues[next := Issue(Todo, None, None)]);
    }
  }

  ghost predicate HasUnmetDependency(db: Db, n: int) {
    exists d | (n, d) in db.deps :: d in db.issues && db.issues[d].state.Open()
  }

  /** Whenever work remains, some unfinished issue is not blocked. */
  lemma SomeIssueUnblocked(db: Db)
    requires Inv(db) && exists n | n in db.issues :: db.issues[n].state.Open()
    ensures exists n | n in db.issues :: db.issues[n].state.Open() && !HasUnmetDependency(db, n)
  {
    var open := set n | n in db.issues && db.issues[n].state.Open();
    var o :| o in db.issues && db.issues[o].state.Open();
    assert o in open;
    var n := SinkExists(db.deps, open);
    assert forall d | d in db.issues && db.issues[d].state.Open() :: d in open;
  }

  // ---------------------------------------------------------------- claims

  /** Every lease used is either disabled or at least `seconds` long. */
  predicate LeaseAtLeast(op: Op, seconds: int) {
    match op
    case Claim(_, _, _, lease) => lease <= 0 || LeaseSeconds(lease) >= seconds
    case ExpireClaims(lease) => lease <= 0 || LeaseSeconds(lease) >= seconds
    case _ => true
  }

  predicate GivesUp(op: Op, n: int, who: Agent) {
    op == Unclaim(n, who) || op == Delete(n)
  }

  predicate IsHeartbeat(op: Op, n: int, who: Agent) {
    op.Claim? && op.number == n && op.who == who
  }

  /** The calls come in time order, each less than `seconds` after the last claim or heartbeat of
      `who` on issue n (at time `stamp`), and `who` neither unclaims nor does anyone delete it. */
  ghost predicate HeldTrace(run: seq<Event>, n: int, who: Agent, seconds: int, stamp: int) {
    run == [] || (
      && stamp <= run[0].now < stamp + seconds
      && LeaseAtLeast(run[0].op, seconds)
      && !GivesUp(run[0].op, n, who)
      && HeldTrace(run[1..], n, who, seconds, if IsHeartbeat(run[0].op, n, who) then run[0].now else stamp))
  }

  ghost predicate HeldBy(db: Db, n: int, who: Agent, stamp: int) {
    n in db.issues && db.issues[n].assignee == Some(who) && db.issues[n].claimedAt == Some(stamp)
  }

  lemma StepKeepsClaim(db: Db, op: Op, now: int, db': Db, r: Result, n: int, who: Agent, seconds: int, stamp: int)
    requires Step(db, op, now, db', r) && HeldBy(db, n, who, stamp)
    requires now < stamp + seconds && LeaseAtLeast(op, seconds) && !GivesUp(op, n, who)
    ensures HeldBy(db', n, who, if IsHeartbeat(op, n, who) then now else stamp)
    ensures IsHeartbeat(op, n, who) ==> r == Ok
    ensures op.Claim? && op.number == n && op.who != who ==> r == AlreadyClaimed
  {
    if op.Create? {
      var next :| NextNumber(db.issues.Keys, next) && db' == db.(issues := db.issues[next := Issue(Todo, None, None)]);
    }
  }

  /** The assignee has the issue after the event, a heartbeat of theirs succeeded and a competing
      claim was refused. */
  ghost predicate HeldThrough(ev: Event, n: int, who: Agent) {
    && n in ev.after.issues && ev.after.issues[n].assignee == Some(who)
    && (IsHeartbeat(ev.op, n, who) ==> ev.result == Ok)
    && (ev.op.Claim? && ev.op.number == n && ev.op.who != who ==> ev.result == AlreadyClaimed)
  }

  lemma {:induction false} HeldStaysHeld(db: Db, run: seq<Event>, n: int, who: Agent, seconds: int, stamp: int)
    requires IsRun(db, run) && HeldBy(db, n, who, stamp) && HeldTrace(run, n, who, seconds, stamp)
    ensures forall i | 0 <= i < |run| :: HeldThrough(run[i], n, who)
    decreases |run|
  {
    if run != [] {
      var ev := run[0];
      StepKeepsClaim(db, ev.op, ev.now, ev.after, ev.result, n, who, seconds, stamp);
      HeldStaysHeld(ev.after, run[1..], n, who, seconds, if IsHeartbeat(ev.op, n, who) then ev.now else stamp);
      forall i | 0 <= i < |run| ensures HeldThrough(run[i], n, who) {
        if i > 0 { assert run[i] == run[1..][i - 1]; }
      }
    }
  }

  /** From a successful claim on, as long as heartbeats come less than a lease apart, nobody else
      is ever the assignee, every heartbeat succeeds and every competing claim is refused. */
  lemma ClaimIsExclusive(db: Db, claim: Event, run: seq<Event>, n: int, who: Agent, seconds: int)
    requires IsRun(db, [claim] + run) && IsHeartbeat(claim.op, n, who) && claim.result == Ok
    requires HeldTrace(run, n, who, seconds, claim.now)
    ensures forall i | 0 <= i < |run| :: HeldThrough(run[i], n, who)
  {
    assert ([claim] + run)[1..] == run;
    HeldStaysHeld(claim.after, run, n, who, seconds, claim.now);
  }

  ghost predicate Owns(db: Db, n: int, who: Agent) {
    n in db.issues && db.issues[n].assignee == Some(who)
  }

  /** The calls that take an issue away from its assignee: their own unclaim, its deletion, a
      competing claim past the lease, and the reaper past the lease while it is unfinished. */
  predicate Takes(db: Db, op: Op, now: int, n: int, who: Agent)
    requires n in db.issues
  {
    match op
    case Delete(k) => k == n
    case Unclaim(k, caller) => k == n && caller == who
    case Claim(k, caller, _, lease) => k == n && caller != who && Expired(db.issues[n].claimedAt, lease, now)
    case ExpireClaims(lease) => db.issues[n].state.Open() && Expired(db.issues[n].claimedAt, lease, now)
    case _ => false
  }

  lemma OwnershipStep(db: Db, ev: Event, n: int, who: Agent)
    requires Step(db, ev.op, ev.now, ev.after, ev.result) && Owns(db, n, who)
    ensures Owns(ev.after, n, who) <==> !Takes(db, ev.op, ev.now, n, who)
  {
    if ev.op.Create? {
      var next :| NextNumber(db.issues.Keys, next) &&
                  ev.after == db.(issues := db.issues[next := Issue(Todo, None, None)]);
    }
  }

  ghost predicate NeverTaken(db: Db, run: seq<Event>, n: int, who: Agent)
    decreases |run|
  {
    run == [] || (n in db.issues && !Takes(db, run[0].op, run[0].now, n, who) && NeverTaken(run[0].after, run[1..], n, who))
  }

  /** Over every sequence of calls at any times an assignee keeps the issue throughout exactly
      when no call takes it. So the attribution of a finished issue survives the reaper, but not a
      competing claim made after the lease. */
  lemma {:induction false} OwnershipExact(db: Db, run: seq<Event>, n: int, who: Agent)
    requires IsRun(db, run) && Owns(db, n, who)
    ensures (forall i | 0 <= i < |run| :: Owns(run[i].after, n, who)) <==> NeverTaken(db, run, n, who)
    decreases |run|
  {
    if run != [] {
      OwnershipStep(db, run[0], n, who);
      if Owns(run[0].after, n, who) {
        OwnershipExact(run[0].after, run[1..], n, who);
        assert forall i | 0 <= i < |run| - 1 :: run[1..][i] == run[i + 1];
        assert forall i | 1 <= i < |run| :: run[i] == run[1..][i - 1];
      }
    }
  }

  predicate ClaimsOf(op: Op, n: int) { (op.Claim? || op.Unclaim?) && op.number == n }

  /** The state that the last successful claim asking for one has asked for. */
  function Requested(run: seq<Event>, state: IssueState): IssueState
    decreases |run|
  {
    if run == [] then state
    else
      var op := run[0].op;
      Requested(run[1..], if op.Claim? && run[0].result == Ok && op.newState.Some? then op.newState.value else state)
  }

  /** Claims and unclaims of one issue, in any number and by anyone, touch nothing but its assignee,
      claim time and state, which becomes the one last asked for; so once the last holder unclaims, an issue that was free is
      free again and everything else is as before. */
  lemma {:induction false} UnclaimUndoesClaims(db: Db, run: seq<Event>, n: int)
    requires IsRun(db, run) && n in db.issues && forall i | 0 <= i < |run| :: ClaimsOf(run[i].op, n)
    ensures n in Last(db, run).issues
    ensures Last(db, run) == db.(issues := db.issues[n := Last(db, run).issues[n]])
    ensures Last(db, run).issues[n].state == Requested(run, db.issues[n].state)
    ensures db.issues[n].claimedAt == None && db.issues[n].assignee == None &&
            run != [] && run[|run| - 1].op.Unclaim? && run[|run| - 1].result == Ok ==>
              Last(db, run).issues[n] == db.issues[n].(state := Last(db, run).issues[n].state)
    decreases |run|
  {
    if run == [] {
      assert db.issues[n := db.issues[n]] == db.issues;
    } else {
      assert ClaimsOf(run[0].op, n);
      assert forall i | 0 <= i < |run| - 1 :: run[1..][i] == run[i + 1];
      FreeTogether(db, run, n);
      UnclaimUndoesClaims(run[0].after, run[1..], n);
    }
  }

  /** After such calls the issue is free in both columns or in neither, if it was so before. */
  lemma {:induction false} FreeTogether(db: Db, run: seq<Event>, n: int)
    requires IsRun(db, run) && run != [] && n in db.issues && forall i | 0 <= i < |run| :: ClaimsOf(run[i].op, n)
    ensures n in Last(db, run).issues
    ensures (db.issues[n].claimedAt == None <==> db.issues[n].assignee == None) ==>
              (Last(db, run).issues[n].claimedAt == None <==> Last(db, run).issues[n].assignee == None)
    ensures run[|run| - 1].op.Unclaim? && run[|run| - 1].result == Ok ==> Last(db, run).issues[n].assignee == None
    decreases |run|
  {
    assert ClaimsOf(run[0].op, n);
    if |run| > 1 {
      assert forall i | 0 <= i < |run| - 1 :: run[1..][i] == run[i + 1];
      FreeTogether(run[0].after, run[1..], n);
    }
  }

  /** The reaper spares the assignee of a finished issue, but a competing claim past the lease does
      not: here ten seconds after a claim with a lease of ten seconds. */
  lemma FinishedCanBeTaken(who: Agent, other: Agent)
    requires who != other
    ensures var db := Db(map[1 := Issue(Done, Some(who), Some(0))], {});
            var taken := db.(issues := db.issues[1 := Issue(Done, Some(other), Some(10))]);
            Step(db, Op.ExpireClaims(10_000_000_000), 10, db, Ok) &&
            Step(db, Op.Claim(1, other, None, 10_000_000_000), 10, taken, Ok)
  {
    var db := Db(map[1 := Issue(Done, Some(who), Some(0))], {});
    assert LeaseSeconds(10_000_000_000) == 10;
    ReapedRows(db.issues, db.issues, 10_000_000_000, 10);
  }
}
