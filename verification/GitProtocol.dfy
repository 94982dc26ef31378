/** All writers of one repository at once. Each reads what it needs, writes objects, and then
    issues one guarded ref update; between any two of these steps every other writer may act.
    An update that has been issued may fire at any later time, or never. */
module GitProtocol {
  import opened GitRepo
  import opened Graph
  import opened Options

  /** An issued update, and whether a push issued it. */
  datatype Issued = Issued(update: Update, push: bool)

  datatype State = State(commits: Commits, refs: map<Ref, Oid>, issued: set<Issued>)

  datatype Action =
    | WriteObject(oid: Oid, content: Commit)
    | FastForward(baseRef: Ref, baseTip: Oid, headTip: Oid)
    | MergeCommit(baseRef: Ref, baseTip: Oid, headTip: Oid, commit: Oid)
    | RebaseMerge(baseRef: Ref, baseTip: Oid, todo: seq<Oid>, tip: Oid)
    | SpecWrite(ref: Ref, created: bool, parent: Oid, commit: Oid)
    | BranchCreate(ref: Ref, sha: Oid)
    | Handoff(ref: Ref, commit: Oid)
    | Push(commands: set<PushCommand>)
    | Fire(what: Issued)

  ghost predicate HasParents(commits: Commits, c: Oid, parents: seq<Oid>) {
    c in commits && commits[c].parents == parents && forall p | p in parents :: p in commits
  }

  /** The guard of each writer, as its code checks it, at the moment it issues its update. */
  ghost predicate Enabled(s: State, a: Action, protected: set<Ref>) {
    match a
    case WriteObject(oid, content) => oid !in s.commits && forall p | p in content.parents :: p in s.commits
    case FastForward(_, baseTip, headTip) => IsAncestor(s.commits, baseTip, headTip)
    case MergeCommit(_, baseTip, headTip, c) => HasParents(s.commits, c, [baseTip, headTip])
    case RebaseMerge(_, baseTip, todo, tip) =>
      todo != [] && baseTip in s.commits && ReplayChain(s.commits, baseTip, todo, tip)
    case SpecWrite(_, _, parent, c) => HasParents(s.commits, c, [parent])
    case BranchCreate(_, sha) => sha in s.commits
    case Handoff(_, c) => c in s.commits
    case Push(commands) =>
      forall c | c in commands ::
        && (c.newTip.Some? ==> c.newTip.value in s.commits)
        && HookAllows(s.commits, protected, c)
    case Fire(what) => what in s.issued
  }

  /** The updates an action issues. */
  ghost function Issues(a: Action): set<Issued> {
    match a
    case FastForward(b, baseTip, headTip) => {Issued(Update(b, Some(headTip), Some(baseTip)), false)}
    case MergeCommit(b, baseTip, _, c) => {Issued(Update(b, Some(c), Some(baseTip)), false)}
    case RebaseMerge(b, baseTip, _, tip) => {Issued(Update(b, Some(tip), Some(baseTip)), false)}
    case SpecWrite(r, created, parent, c) => {Issued(Update(r, Some(c), if created then None else Some(parent)), false)}
    case BranchCreate(r, sha) => {Issued(Update(r, Some(sha), None), false)}
    case Handoff(r, c) => {Issued(Update(r, Some(c), None), false)}
    case Push(commands) => set c | c in commands :: Issued(c, true)
    case _ => {}
  }

  ghost function After(s: State, a: Action): State {
    State(
      if a.WriteObject? then s.commits[a.oid := a.content] else s.commits,
      if a.Fire? then Cas(s.refs, a.what.update) else s.refs,
      s.issued + Issues(a))
  }

  /** A push may do as it likes with an unprotected branch; every other update only creates or
      advances. */
  ghost predicate Safe(commits: Commits, protected: set<Ref>, i: Issued) {
    && (i.update.newTip.Some? ==> i.update.newTip.value in commits)
    && (!i.push || i.update.ref in protected ==> Forward(commits, i.update))
  }

  ghost predicate Inv(s: State, protected: set<Ref>) {
    && (forall r | r in s.refs :: s.refs[r] in s.commits)
    && (forall i | i in s.issued :: Safe(s.commits, protected, i))
  }

  /** Whatever the writers' guards let them issue is safe. */
  lemma IssuedIsSafe(s: State, a: Action, protected: set<Ref>, i: Issued)
    requires Enabled(s, a, protected) && i in Issues(a)
    ensures Safe(s.commits, protected, i)
  {
    match a
    case MergeCommit(_, baseTip, headTip, c) =>
      assert baseTip in [baseTip, headTip];
      ParentIsAncestor(s.commits, baseTip, c);
    case RebaseMerge(_, baseTip, todo, tip) => ChainDescends(s.commits, baseTip, todo, tip);
    case SpecWrite(_, _, parent, c) =>
      assert parent in [parent];
      ParentIsAncestor(s.commits, parent, c);
    case _ =>
  }

  lemma StepKeepsInv(s: State, a: Action, protected: set<Ref>)
    requires Inv(s, protected) && Enabled(s, a, protected)
    ensures Inv(After(s, a), protected) && Extends(s.commits, After(s, a).commits)
  {
    var s' := After(s, a);
    forall i | i in s'.issued ensures Safe(s'.commits, protected, i) {
      if i in Issues(a) { IssuedIsSafe(s, a, protected, i); }
      if !i.push || i.update.ref in protected { ForwardExtends(s.commits, s'.commits, i.update); }
    }
  }

  /** The branch is not a push's to rewrite. */
  predicate Keeps(a: Action, b: Ref, protected: set<Ref>) {
    b in protected || !(a.Fire? && a.what.push && a.what.update.ref == b)
  }

  /** One step neither deletes such a branch nor moves it off its history. */
  lemma StepKeepsBranch(s: State, a: Action, protected: set<Ref>, b: Ref)
    requires Inv(s, protected) && Enabled(s, a, protected) && Keeps(a, b, protected) && b in s.refs
    ensures b in After(s, a).refs && IsAncestor(After(s, a).commits, s.refs[b], After(s, a).refs[b])
  {
    var s' := After(s, a);
    StepKeepsInv(s, a, protected);
    AncestorSelf(s'.commits, s.refs[b]);
    if a.Fire? && a.what.update.ref == b {
      assert Safe(s.commits, protected, a.what);
    }
  }

  ghost predicate IsRun(s: State, run: seq<Action>, protected: set<Ref>)
    decreases |run|
  {
    run == [] || (Enabled(s, run[0], protected) && IsRun(After(s, run[0]), run[1..], protected))
  }

  ghost function Final(s: State, run: seq<Action>): State
    decreases |run|
  {
    if run == [] then s else Final(After(s, run[0]), run[1..])
  }

  /** Over every interleaving, a branch that is protected, or on which no push fires, still exists,
      its tip descends from where it was, and every commit that was reachable from it still is. */
  lemma {:induction false} HistoryPreserved(s: State, run: seq<Action>, protected: set<Ref>, b: Ref)
    requires Inv(s, protected) && IsRun(s, run, protected) && b in s.refs
    requires forall i | 0 <= i < |run| :: Keeps(run[i], b, protected)
    ensures b in Final(s, run).refs && IsAncestor(Final(s, run).commits, s.refs[b], Final(s, run).refs[b])
    ensures forall c | IsAncestor(s.commits, c, s.refs[b]) ::
              IsAncestor(Final(s, run).commits, c, Final(s, run).refs[b])
    decreases |run|
  {
    if run == [] {
      AncestorSelf(s.commits, s.refs[b]);
    } else {
      var s' := After(s, run[0]);
      assert Keeps(run[0], b, protected);
      StepKeepsInv(s, run[0], protected);
      StepKeepsBranch(s, run[0], protected, b);
      HistoryPreserved(s', run[1..], protected, b);
      forall c | IsAncestor(s.commits, c, s.refs[b])
        ensures IsAncestor(Final(s, run).commits, c, Final(s, run).refs[b])
      {
        AncestorExtends(s.commits, s'.commits, c, s.refs[b]);
        AncestorTransitive(s'.commits, c, s.refs[b], s'.refs[b]);
      }
      var t := Final(s, run);
      assert IsAncestor(s'.commits, s.refs[b], s'.refs[b]);
    }
  }

  /** Protection is what makes the difference: an accepted push can discard history of an
      unprotected branch. */
  lemma UnprotectedPushCanRewrite() returns (s: State, run: seq<Action>, b: Ref)
    ensures Inv(s, {}) && IsRun(s, run, {}) && b in s.refs
    ensures b in Final(s, run).refs && !IsAncestor(Final(s, run).commits, s.refs[b], Final(s, run).refs[b])
  {
    b := "topic";
    var root := Commit([], None);
    s := State(map[0 := root, 1 := root], map[b := 0], {});
    var rewrite := Update(b, Some(1), Some(0));
    run := [Push({rewrite}), Fire(Issued(rewrite, true))];
    var s1 := After(s, run[0]);
    var s2 := After(s1, run[1]);
    assert run[1..] == [run[1]] && run[1..][1..] == [];
    assert Issued(rewrite, true) in s1.issued;
    assert Final(s1, run[1..]) == s2;
    assert ParentEdges(s2.commits) == {};
    ReachesUnfold(ParentEdges(s2.commits), 1, 0);
  }

  // ---------------------------------------------------------------- the code's methods as runs

  lemma {:induction false} RunConcat(s: State, a: seq<Action>, b: seq<Action>, protected: set<Ref>)
    requires IsRun(s, a, protected) && IsRun(Final(s, a), b, protected)
    ensures IsRun(s, a + b, protected) && Final(s, a + b) == Final(Final(s, a), b)
    decreases |a|
  {
    hide Enabled, After;
    if a == [] {
      assert a + b == b;
    } else {
      assert (a + b)[0] == a[0] && (a + b)[1..] == a[1..] + b;
      RunConcat(After(s, a[0]), a[1..], b, protected);
    }
  }

  lemma OneStepRun(s: State, a: Action, protected: set<Ref>)
    requires Enabled(s, a, protected)
    ensures IsRun(s, [a], protected) && Final(s, [a]) == After(s, a)
  {
    hide Enabled, After;
    assert [a][1..] == [];
  }

  /** A writer that issues one update and sees it take place. */
  lemma WriterIsRun(s: State, a: Action, i: Issued, protected: set<Ref>)
    requires Enabled(s, a, protected) && Issues(a) == {i} && !a.WriteObject? && !a.Fire?
    ensures IsRun(s, [a, Fire(i)], protected)
    ensures Final(s, [a, Fire(i)]) == State(s.commits, Cas(s.refs, i.update), s.issued + {i})
  {
    var t := After(s, a);
    OneStepRun(s, a, protected);
    OneStepRun(t, Fire(i), protected);
    RunConcat(s, [a], [Fire(i)], protected);
    assert [a] + [Fire(i)] == [a, Fire(i)];
    assert t.issued + {} == t.issued;
  }

  /** The fast-forward of `Repo.DoMerge`, before its second look. */
  lemma FastForwardIsRun(s: State, baseRef: Ref, baseTip: Oid, headTip: Oid, protected: set<Ref>)
    requires IsAncestor(s.commits, baseTip, headTip)
    ensures var u := Update(baseRef, Some(headTip), Some(baseTip));
            var run := [FastForward(baseRef, baseTip, headTip), Fire(Issued(u, false))];
            IsRun(s, run, protected) && Final(s, run) == State(s.commits, Cas(s.refs, u), s.issued + {Issued(u, false)})
  {
    WriterIsRun(s, FastForward(baseRef, baseTip, headTip),
                Issued(Update(baseRef, Some(headTip), Some(baseTip)), false), protected);
  }

  /** A new commit, then an update to it: the merge commit of `Repo.DoMerge` and `Repo.WriteSpec`. */
  lemma CommitIsRun(s: State, c: Oid, content: Commit, a: Action, i: Issued, protected: set<Ref>)
    requires c !in s.commits && (forall p | p in content.parents :: p in s.commits)
    requires Issues(a) == {i} && (a.MergeCommit? || a.SpecWrite?)
    requires Enabled(After(s, WriteObject(c, content)), a, protected)
    ensures var run := [WriteObject(c, content), a, Fire(i)];
            IsRun(s, run, protected) &&
            Final(s, run) == State(s.commits[c := content], Cas(s.refs, i.update), s.issued + {i})
  {
    var w := WriteObject(c, content);
    OneStepRun(s, w, protected);
    WriterIsRun(After(s, w), a, i, protected);
    RunConcat(s, [w], [a, Fire(i)], protected);
    assert [w] + [a, Fire(i)] == [w, a, Fire(i)];
    assert s.issued + {} == s.issued;
  }

  lemma MergeIsRun(s: State, baseRef: Ref, baseTip: Oid, headTip: Oid, c: Oid, protected: set<Ref>) returns (run: seq<Action>)
    requires c !in s.commits && baseTip in s.commits && headTip in s.commits
    ensures IsRun(s, run, protected)
    ensures Final(s, run).commits == s.commits[c := Commit([baseTip, headTip], None)]
    ensures Final(s, run).refs == Cas(s.refs, Update(baseRef, Some(c), Some(baseTip)))
  {
    var content, i := Commit([baseTip, headTip], None), Issued(Update(baseRef, Some(c), Some(baseTip)), false);
    var a := MergeCommit(baseRef, baseTip, headTip, c);
    CommitIsRun(s, c, content, a, i, protected);
    run := [WriteObject(c, content), a, Fire(i)];
  }

  lemma WriteSpecIsRun(s: State, ref: Ref, created: bool, parent: Oid, c: Oid, protected: set<Ref>) returns (run: seq<Action>)
    requires c !in s.commits && parent in s.commits
    ensures IsRun(s, run, protected)
    ensures Final(s, run).commits == s.commits[c := Commit([parent], None)]
    ensures Final(s, run).refs == Cas(s.refs, Update(ref, Some(c), if created then None else Some(parent)))
  {
    var content := Commit([parent], None);
    var i := Issued(Update(ref, Some(c), if created then None else Some(parent)), false);
    var a := SpecWrite(ref, created, parent, c);
    CommitIsRun(s, c, content, a, i, protected);
    run := [WriteObject(c, content), a, Fire(i)];
  }

  /** `Repo.CreateBranch` and the allocation of a handoff's ref. */
  lemma CreateIsRun(s: State, ref: Ref, c: Oid, handoff: bool, protected: set<Ref>)
    requires c in s.commits
    ensures var u := Update(ref, Some(c), None);
            var run := [if handoff then Handoff(ref, c) else BranchCreate(ref, c), Fire(Issued(u, false))];
            IsRun(s, run, protected) && Final(s, run) == State(s.commits, Cas(s.refs, u), s.issued + {Issued(u, false)})
  {
    WriterIsRun(s, if handoff then Handoff(ref, c) else BranchCreate(ref, c), Issued(Update(ref, Some(c), None), false), protected);
  }

  /** A push that the hook accepts, and the update of one of its commands. */
  lemma PushIsRun(s: State, commands: set<PushCommand>, c: PushCommand, protected: set<Ref>)
    requires c in commands && forall d | d in commands ::
               (d.newTip.Some? ==> d.newTip.value in s.commits) && HookAllows(s.commits, protected, d)
    ensures var run := [Push(commands), Fire(Issued(c, true))];
            IsRun(s, run, protected) && Final(s, run).commits == s.commits && Final(s, run).refs == Cas(s.refs, c)
  {
    var t := After(s, Push(commands));
    assert Issued(c, true) in t.issued;
    OneStepRun(s, Push(commands), protected);
    OneStepRun(t, Fire(Issued(c, true)), protected);
    RunConcat(s, [Push(commands)], [Fire(Issued(c, true))], protected);
    assert [Push(commands)] + [Fire(Issued(c, true))] == [Push(commands), Fire(Issued(c, true))];
  }

  lemma AppendWrite(s: State, before: seq<Action>, c: Oid, content: Commit, protected: set<Ref>)
    requires IsRun(s, before, protected)
    requires c !in Final(s, before).commits && forall p | p in content.parents :: p in Final(s, before).commits
    ensures var run, t := before + [WriteObject(c, content)], Final(s, before);
            IsRun(s, run, protected) && Final(s, run) == t.(commits := t.commits[c := content])
  {
    var w, t := WriteObject(c, content), Final(s, before);
    assert Enabled(t, w, protected) && After(t, w) == t.(commits := t.commits[c := content]) by {
      assert t.issued + {} == t.issued;
    }
    hide IsRun, Final, Enabled, After;
    OneStepRun(t, w, protected);
    RunConcat(s, before, [w], protected);
  }

  lemma FreshPrefix(commits: Commits, base: Oid, todo: seq<Oid>, picks: seq<Oid>, n: nat)
    requires n <= |picks| <= |todo| && FreshPicks(commits, base, todo, picks)
    ensures FreshPicks(commits, base, todo, picks[..n])
  {
    hide Replayed;
    assert forall k | 0 <= k < n :: picks[..n][..k] == picks[..k];
  }

  /** Replaying commits writes one object after another. */
  lemma {:induction false} ReplayIsRun(s: State, base: Oid, todo: seq<Oid>, picks: seq<Oid>, protected: set<Ref>)
    returns (run: seq<Action>)
    requires base in s.commits && |picks| <= |todo| && FreshPicks(s.commits, base, todo, picks)
    ensures IsRun(s, run, protected)
    ensures Final(s, run) == s.(commits := Replayed(s.commits, base, todo, picks))
    ensures base in Final(s, run).commits && (picks != [] ==> picks[|picks| - 1] in Final(s, run).commits)
    decreases |picks|
  {
    if picks == [] {
      run := [];
    } else {
      hide Replayed, FreshPicks, IsRun, Final;
      var n := |picks| - 1;
      FreshPrefix(s.commits, base, todo, picks, n);
      PickIsFresh(s.commits, base, todo, picks, n);
      var before := ReplayIsRun(s, base, todo, picks[..n], protected);
      var content := Commit([if n == 0 then base else picks[n - 1]], Some(todo[n]));
      assert n > 0 ==> picks[..n][n - 1] == picks[n - 1];
      AppendWrite(s, before, picks[n], content, protected);
      run := before + [WriteObject(picks[n], content)];
      ReplayedLast(s.commits, base, todo, picks);
    }
  }

  lemma PickIsFresh(commits: Commits, base: Oid, todo: seq<Oid>, picks: seq<Oid>, n: nat)
    requires n < |picks| <= |todo| && FreshPicks(commits, base, todo, picks)
    ensures picks[n] !in Replayed(commits, base, todo, picks[..n])
  {
  }

  lemma ReplayedLast(commits: Commits, base: Oid, todo: seq<Oid>, picks: seq<Oid>)
    requires 0 < |picks| <= |todo|
    ensures var n := |picks| - 1;
            Replayed(commits, base, todo, picks) == Replayed(commits, base, todo, picks[..n])[
              picks[n] := Commit([if n == 0 then base else picks[n - 1]], Some(todo[n]))]
  {
  }

  /** `Repo.RebaseOnto` when it succeeds. */
  lemma RebaseIsRun(s: State, baseRef: Ref, baseTip: Oid, todo: seq<Oid>, picks: seq<Oid>, tip: Oid, protected: set<Ref>)
    returns (run: seq<Action>)
    requires baseTip in s.commits && |picks| == |todo| > 0 && FreshPicks(s.commits, baseTip, todo, picks)
    requires ReplayChain(Replayed(s.commits, baseTip, todo, picks), baseTip, todo, tip)
    ensures IsRun(s, run, protected)
    ensures Final(s, run).commits == Replayed(s.commits, baseTip, todo, picks)
    ensures Final(s, run).refs == Cas(s.refs, Update(baseRef, Some(tip), Some(baseTip)))
  {
    hide Replayed, FreshPicks, ReplayChain;
    var writes := ReplayIsRun(s, baseTip, todo, picks, protected);
    var i := Issued(Update(baseRef, Some(tip), Some(baseTip)), false);
    var a := RebaseMerge(baseRef, baseTip, todo, tip);
    WriterIsRun(Final(s, writes), a, i, protected);
    RunConcat(s, writes, [a, Fire(i)], protected);
    run := writes + [a, Fire(i)];
  }
}
