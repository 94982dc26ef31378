/** The writers of one bare repository: pull-request merges (internal/server/merge.go), spec writes
    (specs.go), branch creation (branches.go), agent handoffs (cmd/codefortd/agent_handoff.go) and
    pushes checked by the pre-receive hook (ci_hook.go). */
module GitRepo {
  import opened Graph
  import opened Options
  import opened Text

  /** Object names, abstracted to numbers. */
  type Oid = nat
  type Ref = string

  /** A commit: its parents and, for a replayed commit, the commit whose author and message it
      carries. File contents are abstracted away. */
  datatype Commit = Commit(parents: seq<Oid>, replays: Option<Oid>)

  type Commits = map<Oid, Commit>

  ghost function ParentEdges(commits: Commits): set<(Oid, Oid)> {
    set c, k | c in commits && 0 <= k < |commits[c].parents| :: (c, commits[c].parents[k])
  }

  /** `git merge-base --is-ancestor a b`: true for equal commits too. */
  ghost predicate IsAncestor(commits: Commits, a: Oid, b: Oid) {
    a in commits && b in commits && Reaches(ParentEdges(commits), b, a)
  }

  /** Objects are immutable and are only ever added. */
  ghost predicate Extends(commits: Commits, commits': Commits) {
    forall c | c in commits :: c in commits' && commits'[c] == commits[c]
  }

  lemma AncestorExtends(commits: Commits, commits': Commits, a: Oid, b: Oid)
    requires Extends(commits, commits') && IsAncestor(commits, a, b)
    ensures IsAncestor(commits', a, b)
  {
    ReachesMonotone(ParentEdges(commits), ParentEdges(commits'), b, a);
  }

  lemma AncestorTransitive(commits: Commits, a: Oid, b: Oid, c: Oid)
    requires IsAncestor(commits, a, b) && IsAncestor(commits, b, c)
    ensures IsAncestor(commits, a, c)
  {
    ReachesTransitive(ParentEdges(commits), c, b, a);
  }

  lemma AncestorSelf(commits: Commits, a: Oid)
    requires a in commits
    ensures IsAncestor(commits, a, a)
  {
    ReachesSelf(ParentEdges(commits), a);
  }

  lemma ParentIsAncestor(commits: Commits, a: Oid, b: Oid)
    requires a in commits && b in commits && a in commits[b].parents
    ensures IsAncestor(commits, a, b)
  {
    var k :| 0 <= k < |commits[b].parents| && commits[b].parents[k] == a;
    assert (b, a) in ParentEdges(commits);
    ReachesSelf(ParentEdges(commits), a);
    ReachesStep(ParentEdges(commits), b, a, a);
  }

  // ---------------------------------------------------------------- ref updates

  /** One guarded ref write: `newTip` is None for a deletion, `oldTip` is None for "must not exist". */
  datatype Update = Update(ref: Ref, newTip: Option<Oid>, oldTip: Option<Oid>)

  function Tip(refs: map<Ref, Oid>, ref: Ref): Option<Oid> {
    if ref in refs then Some(refs[ref]) else None
  }

  /** The compare-and-swap of `git update-ref` and of receive-pack. */
  function Cas(refs: map<Ref, Oid>, u: Update): map<Ref, Oid> {
    if Tip(refs, u.ref) != u.oldTip then refs
    else if u.newTip == None then refs - {u.ref}
    else refs[u.ref := u.newTip.value]
  }

  /** The update creates a ref or moves it to a descendant of the tip it replaces. */
  ghost predicate Forward(commits: Commits, u: Update) {
    && u.newTip.Some? && u.newTip.value in commits
    && (u.oldTip.Some? ==> IsAncestor(commits, u.oldTip.value, u.newTip.value))
  }

  lemma ForwardExtends(commits: Commits, commits': Commits, u: Update)
    requires Extends(commits, commits') && Forward(commits, u)
    ensures Forward(commits', u)
  {
    if u.oldTip.Some? { AncestorExtends(commits, commits', u.oldTip.value, u.newTip.value); }
  }

  /** A line of the pre-receive hook's input. */
  type PushCommand = Update

  /** What the hook demands of a command on a protected branch. */
  ghost predicate HookAllows(commits: Commits, protected: set<Ref>, c: PushCommand) {
    c.ref in protected ==> c.newTip.Some? && (c.oldTip.Some? ==> IsAncestor(commits, c.oldTip.value, c.newTip.value))
  }

  datatype MergeMethod = FFOnly | Merge | Rebase

  /** What becomes of one merge or cherry-pick: a tree that can be committed, conflicting paths, or
      an error of git. */
  datatype TreeResult = Clean | Conflict | TreeError

  datatype MergeResult =
    | Merged(tip: Oid, ff: bool)
    | NotFastForward
    | NothingToRebase
    | BaseMoved
    | Conflicts
    | MergeError

  /** The chain of replayed commits: one for each commit of `todo`, in order, the first on top of
      `base` and each on top of the previous one. */
  ghost predicate ReplayChain(commits: Commits, base: Oid, todo: seq<Oid>, tip: Oid) {
    if todo == [] then tip == base
    else
      && tip in commits
      && commits[tip].replays == Some(todo[|todo| - 1])
      && |commits[tip].parents| == 1
      && ReplayChain(commits, base, todo[..|todo| - 1], commits[tip].parents[0])
  }

  lemma {:induction false} ChainExtends(commits: Commits, commits': Commits, base: Oid, todo: seq<Oid>, tip: Oid)
    requires Extends(commits, commits') && ReplayChain(commits, base, todo, tip)
    ensures ReplayChain(commits', base, todo, tip)
  {
    if todo != [] { ChainExtends(commits, commits', base, todo[..|todo| - 1], commits[tip].parents[0]); }
  }

  lemma {:induction false} ChainDescends(commits: Commits, base: Oid, todo: seq<Oid>, tip: Oid)
    requires base in commits && ReplayChain(commits, base, todo, tip)
    ensures IsAncestor(commits, base, tip)
  {
    if todo == [] {
      AncestorSelf(commits, base);
    } else {
      var p := commits[tip].parents[0];
      ChainDescends(commits, base, todo[..|todo| - 1], p);
      ParentIsAncestor(commits, p, tip);
      AncestorTransitive(commits, base, p, tip);
    }
  }

  /** What `git rev-list --no-merges base..head` lists: each commit that head has and base lacks and
      that is no merge, once. */
  ghost predicate RebaseListing(commits: Commits, base: Oid, head: Oid, todo: seq<Oid>) {
    && (forall i, j | 0 <= i < j < |todo| :: todo[i] != todo[j])
    && (forall c :: c in todo <==> Adds(commits, base, head, c))
  }

  ghost predicate Adds(commits: Commits, base: Oid, head: Oid, c: Oid) {
    IsAncestor(commits, c, head) && !IsAncestor(commits, c, base) && |commits[c].parents| <= 1
  }

  /** The objects that replaying the commits of `todo` one after another adds as `picks`. */
  function Replayed(commits: Commits, base: Oid, todo: seq<Oid>, picks: seq<Oid>): Commits
    requires |picks| <= |todo|
  {
    if picks == [] then commits
    else
      var n := |picks| - 1;
      Replayed(commits, base, todo, picks[..n])[picks[n] := Commit([if n == 0 then base else picks[n - 1]], Some(todo[n]))]
  }

  /** Each new object has a name of its own. */
  ghost predicate FreshPicks(commits: Commits, base: Oid, todo: seq<Oid>, picks: seq<Oid>)
    requires |picks| <= |todo|
  {
    forall n | 0 <= n < |picks| :: picks[n] !in Replayed(commits, base, todo, picks[..n])
  }

  lemma StartReplay(commits: Commits, base: Oid, todo: seq<Oid>)
    ensures Replayed(commits, base, todo, []) == commits && FreshPicks(commits, base, todo, [])
    ensures ReplayChain(commits, base, todo[..0], base)
  {
  }

  lemma ReplayedSnoc(commits: Commits, base: Oid, todo: seq<Oid>, picks: seq<Oid>, p: Oid)
    requires |picks| < |todo|
    ensures Replayed(commits, base, todo, picks + [p]) ==
              Replayed(commits, base, todo, picks)[
                p := Commit([if picks == [] then base else picks[|picks| - 1]], Some(todo[|picks|]))]
  {
    assert (picks + [p])[..|picks|] == picks;
  }

  lemma FreshSnoc(commits: Commits, base: Oid, todo: seq<Oid>, picks: seq<Oid>, p: Oid)
    requires |picks| < |todo| && FreshPicks(commits, base, todo, picks)
    requires p !in Replayed(commits, base, todo, picks)
    ensures FreshPicks(commits, base, todo, picks + [p])
  {
    hide Replayed;
    var more := picks + [p];
    forall n | 0 <= n < |more| ensures more[n] !in Replayed(commits, base, todo, more[..n]) {
      assert more[..n] == picks[..n];
      if n == |picks| { assert picks[..n] == picks; }
    }
  }

  /** How the next commit applies on top of what has been replayed so far. */
  function NextPick(base: Oid, todo: seq<Oid>, picks: seq<Oid>, cherryPick: (Oid, Oid) -> TreeResult): TreeResult
    requires |picks| < |todo|
  {
    cherryPick(if picks == [] then base else picks[|picks| - 1], todo[|picks|])
  }

  /** Every replayed commit applied cleanly on top of its predecessor. */
  ghost predicate PicksClean(base: Oid, todo: seq<Oid>, picks: seq<Oid>, cherryPick: (Oid, Oid) -> TreeResult)
    requires |picks| <= |todo|
  {
    forall n | 0 <= n < |picks| :: NextPick(base, todo, picks[..n], cherryPick) == Clean
  }

  /** When a rebase ends how. It replays commits up to the first that does not apply cleanly and
      reports that one's trouble; with all of them replayed it merges exactly if the base branch is
      `free`, that is unmoved and git can write it. */
  ghost predicate RebaseVerdict(r: MergeResult, listFails: bool, base: Oid, todo: seq<Oid>, picks: seq<Oid>,
                                cherryPick: (Oid, Oid) -> TreeResult, free: bool)
  {
    && |picks| <= |todo| && PicksClean(base, todo, picks, cherryPick) && (listFails ==> picks == [])
    && match r
       case MergeError => listFails || (|picks| < |todo| && NextPick(base, todo, picks, cherryPick) == TreeError)
       case NothingToRebase => !listFails && todo == []
       case Conflicts => !listFails && |picks| < |todo| && NextPick(base, todo, picks, cherryPick) == Conflict
       case Merged(tip, ff) => !listFails && |picks| == |todo| > 0 && free && tip == picks[|picks| - 1] && ff
       case BaseMoved => !listFails && |picks| == |todo| > 0 && !free
       case NotFastForward => false
  }

  lemma StartClean(base: Oid, todo: seq<Oid>, cherryPick: (Oid, Oid) -> TreeResult)
    ensures PicksClean(base, todo, [], cherryPick)
  {
  }

  lemma PicksCleanSnoc(base: Oid, todo: seq<Oid>, picks: seq<Oid>, cherryPick: (Oid, Oid) -> TreeResult, p: Oid)
    requires |picks| < |todo| && PicksClean(base, todo, picks, cherryPick)
    requires NextPick(base, todo, picks, cherryPick) == Clean
    ensures PicksClean(base, todo, picks + [p], cherryPick)
  {
    hide NextPick;
    var more := picks + [p];
    forall n | 0 <= n < |more| ensures NextPick(base, todo, more[..n], cherryPick) == Clean {
      assert more[..n] == picks[..n];
      if n == |picks| { assert picks[..n] == picks; }
    }
  }

  /** One more commit on top of a chain. */
  lemma ChainSnoc(commits: Commits, commits': Commits, base: Oid, todo: seq<Oid>, i: nat, onto: Oid, picked: Oid)
    requires i < |todo| && ReplayChain(commits, base, todo[..i], onto) && picked !in commits
    requires commits' == commits[picked := Commit([onto], Some(todo[i]))]
    ensures Extends(commits, commits') && ReplayChain(commits', base, todo[..i + 1], picked)
  {
    ChainExtends(commits, commits', base, todo[..i], onto);
    assert todo[..i + 1][..i] == todo[..i];
  }

  // ---------------------------------------------------------------- fast-forwards

  /** Updates by other writers, one after another. */
  function CasAll(refs: map<Ref, Oid>, us: seq<Update>): map<Ref, Oid>
    decreases |us|
  {
    if us == [] then refs else CasAll(Cas(refs, us[0]), us[1..])
  }

  /** What a fast-forward does between its check and its answer: it moves the ref unless the tip has
      changed or git fails, other writers may follow, and then it reads the ref again. */
  datatype Race = Race(gitFails: bool, others: seq<Update>, rereadFails: bool)

  /** The refs afterwards, whether the merge is reported, and whether its own update took place. */
  function FastForwarded(refs: map<Ref, Oid>, u: Update, race: Race): (map<Ref, Oid>, bool, bool) {
    if Tip(refs, u.ref) != u.oldTip || race.gitFails then (refs, false, false)
    else
      var after := CasAll(Cas(refs, u), race.others);
      (after, !race.rereadFails && Tip(after, u.ref) == u.newTip, true)
  }

  /** A fast-forward that took place can be reported as failed: another writer advances the branch, or the request ends, between
      the update and the second look. */
  lemma FailedMergeCanMove(refs: map<Ref, Oid>, u: Update, next: Oid)
    requires u.oldTip.Some? && u.newTip.Some? && Tip(refs, u.ref) == u.oldTip
    requires u.newTip != u.oldTip && Some(next) != u.newTip
    ensures var raced := FastForwarded(refs, u, Race(false, [Update(u.ref, Some(next), u.newTip)], false));
            !raced.1 && raced.0 == refs[u.ref := next]
    ensures var ended := FastForwarded(refs, u, Race(false, [], true));
            !ended.1 && ended.0 == refs[u.ref := u.newTip.value] && ended.0 != refs
  {
    var others := [Update(u.ref, Some(next), u.newTip)];
    assert others[1..] == [];
    var once := Cas(refs, u);
    assert CasAll(once, others) == CasAll(Cas(once, others[0]), []);
    assert once[u.ref := next] == refs[u.ref := next];
  }

  /** Which of git's answers fail in a merge: the ancestor test, its repetition when a rebase turns
      out to be a fast-forward, and the listing of the commits to replay. */
  datatype Checks = Checks(firstFails: bool, secondFails: bool, listFails: bool)

  /** The head is found to be on top of base. */
  ghost predicate FoundAhead(commits: Commits, baseTip: Oid, headTip: Oid, checks: Checks) {
    IsAncestor(commits, baseTip, headTip) && !checks.firstFails
  }

  /** The merge is a fast-forward: asked for as one, or a rebase of a head already on top of base. */
  ghost predicate IsFastForward(m: MergeMethod, commits: Commits, baseTip: Oid, headTip: Oid, checks: Checks) {
    m != Merge && FoundAhead(commits, baseTip, headTip, checks) && (m == Rebase ==> !checks.secondFails)
  }

  /** The hook asks git about the command. */
  predicate Asked(protected: set<Ref>, c: PushCommand) {
    c.ref in protected && c.newTip.Some? && c.oldTip.Some?
  }

  class Repo {
    var commits: Commits
    var refs: map<Ref, Oid>

    ghost predicate Valid()
      reads this
    {
      && (forall r | r in refs :: refs[r] in commits)
      && (forall c, p | c in commits && p in commits[c].parents :: p in commits)
    }

    /** `git commit-tree`: a new object, referred to by nothing yet. */
    method CommitTree(parents: seq<Oid>, replays: Option<Oid>) returns (oid: Oid)
      requires Valid() && forall p | p in parents :: p in commits
      modifies this`commits
      ensures Valid() && oid !in old(commits) && commits == old(commits)[oid := Commit(parents, replays)]
    {
      oid := FreshOid(commits.Keys);
      commits := commits[oid := Commit(parents, replays)];
    }

    /** `git update-ref` with an old value; it may also fail for a reason of git's own. */
    method UpdateRef(u: Update, gitFails: bool) returns (ok: bool)
      requires Valid() && (u.newTip.Some? ==> u.newTip.value in commits)
      modifies this`refs
      ensures Valid() && refs == if ok then Cas(old(refs), u) else old(refs)
      ensures ok <==> Tip(old(refs), u.ref) == u.oldTip && !gitFails
    {
      ok := Tip(refs, u.ref) == u.oldTip && !gitFails;
      if ok {
        refs := if u.newTip == None then refs - {u.ref} else refs[u.ref := u.newTip.value];
      }
    }

    /** Other writers act. */
    method OthersWrite(us: seq<Update>)
      requires Valid() && forall u | u in us :: u.newTip.Some? ==> u.newTip.value in commits
      modifies this`refs
      ensures Valid() && refs == CasAll(old(refs), us)
    {
      var i := 0;
      while i < |us|
        invariant 0 <= i <= |us| && Valid()
        invariant CasAll(refs, us[i..]) == CasAll(old(refs), us)
      {
        var _ := UpdateRef(us[i], false);
        i := i + 1;
      }
    }

    /** `isAncestor`: a search through the parents. If git fails for a reason of its own the answer
        is no. */
    method AncestorCheck(a: Oid, b: Oid, gitFails: bool) returns (r: bool)
      requires Valid() && a in commits && b in commits
      ensures r <==> IsAncestor(commits, a, b) && !gitFails
    {
      if gitFails { return false; }
      var seen: set<Oid> := {};
      var todo := {b};
      ReachesSelf(ParentEdges(commits), b);
      while todo != {}
        invariant todo <= commits.Keys && seen <= commits.Keys && todo !! seen
        invariant forall c | c in todo || c in seen :: Reaches(ParentEdges(commits), b, c)
        invariant a !in seen && (b in seen || b in todo)
        invariant forall c, p | c in seen && p in commits[c].parents :: p in seen || p in todo
        decreases commits.Keys - seen
      {
        var c :| c in todo;
        if c == a { return true; }
        ghost var before := todo;
        seen, todo := seen + {c}, (todo + (set p | p in commits[c].parents)) - seen - {c};
        forall p | p in commits[c].parents ensures Reaches(ParentEdges(commits), b, p) {
          ParentIsAncestor(commits, p, c);
          ReachesTransitive(ParentEdges(commits), b, c, p);
        }
      }
      StaysInside(ParentEdges(commits), seen, b, a);
      r := false;
    }

    /** `rebaseOnto`: replays the listed commits one at a time and then moves the base branch,
        provided it still points at `baseTip`. */
    method RebaseOnto(baseRef: Ref, baseTip: Oid, headTip: Oid, listFails: bool, todo: seq<Oid>,
                      cherryPick: (Oid, Oid) -> TreeResult, gitFails: bool)
      returns (r: MergeResult, picks: seq<Oid>)
      requires Valid() && baseTip in commits && RebaseListing(commits, baseTip, headTip, todo)
      modifies this
      ensures Valid() && Extends(old(commits), commits)
      ensures RebaseVerdict(r, listFails, baseTip, todo, picks, cherryPick, Tip(old(refs), baseRef) == Some(baseTip) && !gitFails)
      ensures FreshPicks(old(commits), baseTip, todo, picks) && commits == Replayed(old(commits), baseTip, todo, picks)
      ensures r.Merged? ==>
                && ReplayChain(commits, baseTip, todo, r.tip)
                && Forward(commits, Update(baseRef, Some(r.tip), Some(baseTip)))
      ensures refs == if r.Merged? then old(refs)[baseRef := r.tip] else old(refs)
      ensures r.NothingToRebase? <==> !listFails && forall c :: !Adds(old(commits), baseTip, headTip, c)
    {
      hide Replayed, FreshPicks, ReplayChain, IsAncestor, PicksClean;
      picks := [];
      StartReplay(commits, baseTip, todo);
      assert PicksClean(baseTip, todo, [], cherryPick) by { StartClean(baseTip, todo, cherryPick); }
      assert todo != [] ==> todo[0] in todo;
      if listFails { return MergeError, []; }
      if todo == [] { return NothingToRebase, []; }
      var onto := baseTip;
      var i := 0;
      while i < |todo|
        invariant 0 <= i <= |todo| && |picks| == i
        invariant Valid() && Extends(old(commits), commits) && refs == old(refs)
        invariant onto in commits && onto == (if i == 0 then baseTip else picks[i - 1])
        invariant ReplayChain(commits, baseTip, todo[..i], onto)
        invariant FreshPicks(old(commits), baseTip, todo, picks) && PicksClean(baseTip, todo, picks, cherryPick)
        invariant commits == Replayed(old(commits), baseTip, todo, picks)
      {
        var tree := cherryPick(onto, todo[i]);
        if tree == TreeError { return MergeError, picks; }
        if tree == Conflict { return Conflicts, picks; }
        ghost var before := commits;
        var picked := CommitTree([onto], Some(todo[i]));
        ChainSnoc(before, commits, baseTip, todo, i, onto, picked);
        ReplayedSnoc(old(commits), baseTip, todo, picks, picked);
        FreshSnoc(old(commits), baseTip, todo, picks, picked);
        PicksCleanSnoc(baseTip, todo, picks, cherryPick, picked);
        picks := picks + [picked];
        onto := picked;
        i := i + 1;
      }
      assert todo[..i] == todo;
      ChainDescends(commits, baseTip, todo, onto);
      var ok := UpdateRef(Update(baseRef, Some(onto), Some(baseTip)), gitFails);
      r := if ok then Merged(onto, true) else BaseMoved;
    }

    /** The fast-forward of `doMerge`: the update, and then a second look at the ref, between which
        other writers may act. */
    method FastForward(baseRef: Ref, baseTip: Oid, headTip: Oid, race: Race) returns (r: MergeResult, fired: bool)
      requires Valid() && baseTip in commits && headTip in commits
      requires forall u | u in race.others :: u.newTip.Some? ==> u.newTip.value in commits
      modifies this`refs
      ensures Valid()
      ensures (refs, r.Merged?, fired) == FastForwarded(old(refs), Update(baseRef, Some(headTip), Some(baseTip)), race)
      ensures r == if r.Merged? then Merged(headTip, true) else BaseMoved
    {
      fired := UpdateRef(Update(baseRef, Some(headTip), Some(baseTip)), race.gitFails);
      if !fired { return BaseMoved, false; }
      OthersWrite(race.others);
      if race.rereadFails || Tip(refs, baseRef) != Some(headTip) { return BaseMoved, true; }
      r := Merged(headTip, true);
    }

    /** `doMerge`. The tips were read earlier; by now the branches may have moved. `fired` tells
        whether the merge's own update took place and `tip` what it wrote: always a descendant of
        `baseTip`, and exactly then the merge changed a ref. Only a fast-forward can have fired and
        still be reported as failed. `picks` are the commits a rebase has replayed. */
    method DoMerge(baseRef: Ref, m: MergeMethod, baseTip: Oid, headTip: Oid, checks: Checks, todo: seq<Oid>,
                   mergeTree: TreeResult, cherryPick: (Oid, Oid) -> TreeResult, race: Race)
      returns (r: MergeResult, fired: bool, tip: Oid, picks: seq<Oid>)
      requires Valid() && baseTip in commits && headTip in commits
      requires m == Rebase && !FoundAhead(commits, baseTip, headTip, checks) ==> RebaseListing(commits, baseTip, headTip, todo)
      requires forall u | u in race.others :: u.newTip.Some? ==> u.newTip.value in commits
      modifies this
      ensures Valid() && Extends(old(commits), commits)
      // whatever the method
      ensures fired ==>
                && Tip(old(refs), baseRef) == Some(baseTip) && !race.gitFails
                && Forward(commits, Update(baseRef, Some(tip), Some(baseTip)))
                && refs == if IsFastForward(m, old(commits), baseTip, headTip, checks)
                           then CasAll(old(refs)[baseRef := tip], race.others) else old(refs)[baseRef := tip]
      ensures !fired ==> refs == old(refs) && !r.Merged?
      ensures r.Merged? ==> r.tip == tip
      ensures fired && !r.Merged? <==>
                && IsFastForward(m, old(commits), baseTip, headTip, checks)
                && Tip(old(refs), baseRef) == Some(baseTip) && !race.gitFails
                && (race.rereadFails || Tip(CasAll(old(refs)[baseRef := headTip], race.others), baseRef) != Some(headTip))
      ensures r.NotFastForward? <==>
                || (m == FFOnly && !FoundAhead(old(commits), baseTip, headTip, checks))
                || (m == Rebase && FoundAhead(old(commits), baseTip, headTip, checks) && checks.secondFails)
      // a fast-forward
      ensures IsFastForward(m, old(commits), baseTip, headTip, checks) ==>
                && (fired <==> Tip(old(refs), baseRef) == Some(baseTip) && !race.gitFails)
                && tip == headTip && commits == old(commits) && (r == Merged(tip, true) || r == BaseMoved)
      // a merge commit
      ensures m == Merge ==>
                && (r.Conflicts? <==> mergeTree == Conflict)
                && (r.MergeError? <==> mergeTree == TreeError)
                && (fired <==> mergeTree == Clean && Tip(old(refs), baseRef) == Some(baseTip) && !race.gitFails)
                && (mergeTree == Clean ==> r == if fired then Merged(tip, false) else BaseMoved)
                && (fired ==> tip !in old(commits) && commits == old(commits)[tip := Commit([baseTip, headTip], None)])
      // a rebase
      ensures m == Rebase && !FoundAhead(old(commits), baseTip, headTip, checks) ==>
                && RebaseVerdict(r, checks.listFails, baseTip, todo, picks, cherryPick,
                                 Tip(old(refs), baseRef) == Some(baseTip) && !race.gitFails)
                && (r.NothingToRebase? <==> !checks.listFails && forall c :: !Adds(old(commits), baseTip, headTip, c))
                && FreshPicks(old(commits), baseTip, todo, picks) && commits == Replayed(old(commits), baseTip, todo, picks)
                && (fired <==> r.Merged?) && (fired ==> ReplayChain(commits, baseTip, todo, tip))
      ensures fired && m != Rebase ==> IsAncestor(commits, headTip, tip)
    {
      tip, picks := headTip, [];
      var baseAncestorOfHead := AncestorCheck(baseTip, headTip, checks.firstFails);
      if m == FFOnly && !baseAncestorOfHead { return NotFastForward, false, tip, picks; }
      if m == Rebase && baseAncestorOfHead {
        var again := AncestorCheck(baseTip, headTip, checks.secondFails);
        if !again { return NotFastForward, false, tip, picks; }
      }
      if m != Merge && baseAncestorOfHead {
        AncestorSelf(commits, headTip);
        r, fired := FastForward(baseRef, baseTip, headTip, race);
        return;
      }
      if m == Rebase {
        r, picks := RebaseOnto(baseRef, baseTip, headTip, checks.listFails, todo, cherryPick, race.gitFails);
        return r, r.Merged?, if r.Merged? then r.tip else tip, picks;
      }
      if mergeTree == TreeError { return MergeError, false, tip, picks; }
      if mergeTree == Conflict { return Conflicts, false, tip, picks; }
      tip := CommitTree([baseTip, headTip], None);
      ParentIsAncestor(commits, baseTip, tip);
      ParentIsAncestor(commits, headTip, tip);
      fired := UpdateRef(Update(baseRef, Some(tip), Some(baseTip)), race.gitFails);
      r := if fired then Merged(tip, false) else BaseMoved;
    }

    /** The ref part of `handleWriteSpec`: a commit on the tip of the target branch when it exists,
        else on the base branch; the branch tips were read before, so the write can lose a race. */
    method WriteSpec(ref: Ref, created: bool, parent: Oid, gitFails: bool) returns (ok: bool, commit: Oid)
      requires Valid() && parent in commits
      modifies this
      ensures Valid() && commit !in old(commits) && commits == old(commits)[commit := Commit([parent], None)]
      ensures Forward(commits, Update(ref, Some(commit), if created then None else Some(parent)))
      ensures ok <==> Tip(old(refs), ref) == (if created then None else Some(parent)) && !gitFails
      ensures refs == if ok then old(refs)[ref := commit] else old(refs)
    {
      commit := CommitTree([parent], None);
      ParentIsAncestor(commits, parent, commit);
      ok := UpdateRef(Update(ref, Some(commit), if created then None else Some(parent)), gitFails);
    }

    /** `handleCreateBranch`: only ever creates. */
    method CreateBranch(ref: Ref, sha: Oid, gitFails: bool) returns (ok: bool)
      requires Valid() && sha in commits
      modifies this`refs
      ensures Valid() && refs == if ok then old(refs)[ref := sha] else old(refs)
      ensures ok <==> ref !in old(refs) && !gitFails
    {
      ok := UpdateRef(Update(ref, Some(sha), None), gitFails);
    }

    /** The loop of the pre-receive hook: the push is accepted as a whole exactly when every command
        on a protected branch creates it or fast-forwards it, and git fails at none it is asked about. */
    method PreReceive(protected: set<Ref>, commands: seq<PushCommand>, gitFails: nat -> bool) returns (accept: bool)
      requires Valid()
      requires forall c | c in commands :: (c.newTip.Some? ==> c.newTip.value in commits)
                                        && (c.oldTip.Some? ==> c.oldTip.value in commits)
      ensures accept <==> forall k | 0 <= k < |commands| ::
                HookAllows(commits, protected, commands[k]) && (Asked(protected, commands[k]) ==> !gitFails(k))
    {
      var rc := 0;
      var i: nat := 0;
      while i < |commands|
        invariant 0 <= i <= |commands|
        invariant rc == 0 <==> forall k | 0 <= k < i ::
                    HookAllows(commits, protected, commands[k]) && (Asked(protected, commands[k]) ==> !gitFails(k))
      {
        var c := commands[i];
        if c.ref in protected {
          if c.newTip == None {
            rc := 1;
          } else if c.oldTip.Some? {
            var ff := AncestorCheck(c.oldTip.value, c.newTip.value, gitFails(i));
            if !ff { rc := 1; }
          }
        }
        i := i + 1;
      }
      accept := rc == 0;
    }
  }

  method FreshOid(taken: set<Oid>) returns (oid: Oid)
    ensures oid !in taken
  {
    oid := 0;
    var rest: set<Oid> := taken;
    while oid in rest
      invariant rest <= taken && forall k | k in taken && k !in rest :: k < oid
      decreases rest
    {
      rest, oid := rest - {oid}, oid + 1;
    }
  }
}
