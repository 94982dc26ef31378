/** Agent handoffs (cmd/codefortd/agent_handoff.go): each takes the first free ref of a series. */
module Handoff {
  import opened GitRepo
  import opened Options
  import opened Text

  const MAX_HANDOFF_REF_ATTEMPTS := 100

  /** The k-th name of a series, for k >= 1. */
  function Candidate(refBase: Ref, k: nat): Ref {
    if k <= 1 then refBase else refBase + "-" + Decimal(k)
  }

  lemma CandidateInjective(refBase: Ref, j: nat, k: nat)
    requires 1 <= j < k
    ensures Candidate(refBase, j) != Candidate(refBase, k)
  {
    var prefix := refBase + "-";
    assert Candidate(refBase, k)[|prefix|..] == Decimal(k);
    if j > 1 {
      assert Candidate(refBase, j)[|prefix|..] == Decimal(j);
      if Decimal(j) == Decimal(k) { DecimalInjective(j, k); }
    } else {
      assert |Candidate(refBase, k)| > |refBase|;
    }
  }

  datatype Allocation = Took(ref: Ref) | NoFreeRef | RefFault

  /** The loop of `allocateHandoffRef` run without interference, where git's own attempt k may fail:
      the first free name of the series is taken and nothing else changes, unless git fails there;
      "no free ref" means all 100 names are taken. */
  method AllocateHandoffRef(repo: Repo, refBase: Ref, commit: Oid, gitFails: nat -> bool) returns (r: Allocation)
    requires repo.Valid() && commit in repo.commits
    modifies repo`refs
    ensures repo.Valid()
    ensures r.Took? ==>
              && r.ref !in old(repo.refs) && repo.refs == old(repo.refs)[r.ref := commit]
              && exists k | 1 <= k <= 100 :: r.ref == Candidate(refBase, k) && !gitFails(k) &&
                   forall j | 1 <= j < k :: Candidate(refBase, j) in old(repo.refs)
    ensures !r.Took? ==> repo.refs == old(repo.refs)
    ensures r.NoFreeRef? <==> forall k | 1 <= k <= 100 :: Candidate(refBase, k) in old(repo.refs)
    ensures r.RefFault? ==>
              exists k | 1 <= k <= 100 :: gitFails(k) && Candidate(refBase, k) !in old(repo.refs) &&
                forall j | 1 <= j < k :: Candidate(refBase, j) in old(repo.refs)
  {
    var attempt := 1;
    while attempt <= MAX_HANDOFF_REF_ATTEMPTS
      invariant 1 <= attempt <= MAX_HANDOFF_REF_ATTEMPTS + 1
      invariant repo.Valid() && repo.refs == old(repo.refs)
      invariant forall j | 1 <= j < attempt :: Candidate(refBase, j) in old(repo.refs)
    {
      var ref := Candidate(refBase, attempt);
      var ok := repo.UpdateRef(Update(ref, Some(commit), None), gitFails(attempt));
      if ok { return Took(ref); }
      if ref !in repo.refs { return RefFault; }
      attempt := attempt + 1;
    }
    r := NoFreeRef;
  }

  // ---------------------------------------------------------------- concurrent handoffs

  /** A handoff under way: which name it tries next, whether it has just failed to create it and is
      about to look whether it exists, and the names it has found to exist. */
  datatype Phase = Trying | Probing | Ended(result: Allocation)

  datatype Proc = Proc(refBase: Ref, commit: Oid, attempt: nat, phase: Phase, seen: set<Ref>) {
    function Name(): Ref { Candidate(refBase, attempt) }
  }

  datatype State = State(refs: map<Ref, Oid>, procs: map<nat, Proc>)

  /** One atomic step: process `p` tries to create its name (which may also fail for a reason of
      git's own), or looks for it; or another writer creates, moves or deletes a ref. */
  datatype Step =
    | TryCreate(p: nat, gitFails: bool)
    | Probe(p: nat)
    | OtherWriter(ref: Ref, tip: Option<Oid>)

  ghost predicate Enabled(s: State, st: Step) {
    match st
    case TryCreate(p, _) => p in s.procs && s.procs[p].phase == Trying
    case Probe(p) => p in s.procs && s.procs[p].phase == Probing
    case OtherWriter(_, _) => true
  }

  function After(s: State, st: Step): State
    requires Enabled(s, st)
  {
    match st
    case TryCreate(p, gitFails) =>
      var proc := s.procs[p];
      if proc.Name() !in s.refs && !gitFails then
        State(s.refs[proc.Name() := proc.commit], s.procs[p := proc.(phase := Ended(Took(proc.Name())))])
      else s.(procs := s.procs[p := proc.(phase := Probing)])
    case Probe(p) =>
      var proc := s.procs[p];
      if proc.Name() !in s.refs then s.(procs := s.procs[p := proc.(phase := Ended(RefFault))])
      else
        var seen := proc.seen + {proc.Name()};
        if proc.attempt < MAX_HANDOFF_REF_ATTEMPTS then
          s.(procs := s.procs[p := proc.(attempt := proc.attempt + 1, phase := Trying, seen := seen)])
        else s.(procs := s.procs[p := proc.(phase := Ended(NoFreeRef), seen := seen)])
    case OtherWriter(ref, tip) => s.(refs := if tip == None then s.refs - {ref} else s.refs[ref := tip.value])
  }

  ghost predicate Starting(s: State) {
    forall p | p in s.procs :: s.procs[p].attempt == 1 && s.procs[p].phase == Trying && s.procs[p].seen == {}
  }

  ghost predicate SawUpTo(proc: Proc, n: nat) {
    forall k | 1 <= k <= n :: Candidate(proc.refBase, k) in proc.seen
  }

  /** `gone` holds the refs that other writers may delete. */
  ghost predicate ProcInv(refs: map<Ref, Oid>, proc: Proc, gone: set<Ref>) {
    && 1 <= proc.attempt <= MAX_HANDOFF_REF_ATTEMPTS
    && (forall r | r in proc.seen :: r in refs || r in gone)
    && SawUpTo(proc, if proc.phase == Ended(NoFreeRef) then MAX_HANDOFF_REF_ATTEMPTS else proc.attempt - 1)
    && (proc.phase.Ended? && proc.phase.result.Took? ==>
          proc.phase.result.ref == proc.Name() && (proc.Name() in refs || proc.Name() in gone))
  }

  ghost predicate HasTaken(s: State, p: nat, ref: Ref) {
    p in s.procs && s.procs[p].phase == Ended(Took(ref))
  }

  ghost predicate Inv(s: State, gone: set<Ref>) {
    && (forall p | p in s.procs :: ProcInv(s.refs, s.procs[p], gone))
    && (forall p, q, r | HasTaken(s, p, r) && HasTaken(s, q, r) && r !in gone :: p == q)
  }

  /** Every ref taken points at its taker's commit, unless another writer may have moved it. */
  ghost predicate OwnCommits(s: State, touched: set<Ref>) {
    forall p, r | HasTaken(s, p, r) && r !in touched :: r in s.refs && s.refs[r] == s.procs[p].commit
  }

  /** Other writers write only refs of `touched` and delete only refs of `gone`. */
  ghost predicate Within(st: Step, touched: set<Ref>, gone: set<Ref>) {
    st.OtherWriter? ==> st.ref in touched && (st.tip == None ==> st.ref in gone)
  }

  lemma StepKeepsProcs(s: State, st: Step, touched: set<Ref>, gone: set<Ref>)
    requires Inv(s, gone) && Enabled(s, st) && Within(st, touched, gone)
    ensures forall p | p in After(s, st).procs :: ProcInv(After(s, st).refs, After(s, st).procs[p], gone)
  {
    var s' := After(s, st);
    forall p | p in s'.procs ensures ProcInv(s'.refs, s'.procs[p], gone) {
      assert ProcInv(s.refs, s.procs[p], gone);
    }
  }

  /** A step of a handoff changes no existing ref, and one that takes a ref creates it; any other
      step changes only the ref it writes. */
  lemma StepTakesFreshRef(s: State, st: Step, touched: set<Ref>, gone: set<Ref>)
    requires Enabled(s, st) && Within(st, touched, gone)
    ensures forall r | r in s.refs && r !in gone :: r in After(s, st).refs
    ensures forall r | r in s.refs && r !in touched && r !in gone :: r in After(s, st).refs && After(s, st).refs[r] == s.refs[r]
    ensures !st.OtherWriter? ==> forall r | r in s.refs :: r in After(s, st).refs && After(s, st).refs[r] == s.refs[r]
    ensures forall p, r | HasTaken(After(s, st), p, r) && !HasTaken(s, p, r) ::
              r !in s.refs && After(s, st).refs == s.refs[r := s.procs[p].commit]
    ensures st.TryCreate? && st.gitFails ==> After(s, st).refs == s.refs
    ensures gone <= touched && OwnCommits(s, touched) ==> OwnCommits(After(s, st), touched)
  {
  }

  lemma StepKeepsInv(s: State, st: Step, touched: set<Ref>, gone: set<Ref>)
    requires Inv(s, gone) && Enabled(s, st) && Within(st, touched, gone)
    ensures Inv(After(s, st), gone)
  {
    var s' := After(s, st);
    StepKeepsProcs(s, st, touched, gone);
    StepTakesFreshRef(s, st, touched, gone);
    forall p, q, r | HasTaken(s', p, r) && HasTaken(s', q, r) && r !in gone ensures p == q {
      if HasTaken(s, p, r) { assert ProcInv(s.refs, s.procs[p], gone); }
      if HasTaken(s, q, r) { assert ProcInv(s.refs, s.procs[q], gone); }
    }
  }

  ghost predicate IsRun(s: State, run: seq<Step>)
    decreases |run|
  {
    run == [] || (Enabled(s, run[0]) && IsRun(After(s, run[0]), run[1..]))
  }

  ghost function Final(s: State, run: seq<Step>): State
    requires IsRun(s, run)
    decreases |run|
  {
    if run == [] then s else Final(After(s, run[0]), run[1..])
  }

  lemma {:induction false} RunKeepsRefs(s: State, run: seq<Step>, touched: set<Ref>, gone: set<Ref>)
    requires Inv(s, gone) && IsRun(s, run) && gone <= touched && OwnCommits(s, touched)
    requires forall i | 0 <= i < |run| :: Within(run[i], touched, gone)
    ensures Inv(Final(s, run), gone) && OwnCommits(Final(s, run), touched)
    ensures forall r | r in s.refs && r !in gone :: r in Final(s, run).refs
    ensures forall r | r in s.refs && r !in touched :: r in Final(s, run).refs && Final(s, run).refs[r] == s.refs[r]
    ensures forall p, r | HasTaken(Final(s, run), p, r) && !HasTaken(s, p, r) && r !in gone :: r !in s.refs
    decreases |run|
  {
    if run != [] {
      StepKeepsInv(s, run[0], touched, gone);
      StepTakesFreshRef(s, run[0], touched, gone);
      assert forall i | 0 <= i < |run| - 1 :: run[1..][i] == run[i + 1];
      RunKeepsRefs(After(s, run[0]), run[1..], touched, gone);
    }
  }

  /** Any number of handoffs, in any interleaving with each other and with writers that create, move
      or delete refs. A ref that nobody deletes is taken at most once, and then was free at the
      start; a ref that no other writer touches keeps its tip, or points at its taker's commit if it
      was taken; and a handoff that finds no free ref has seen all 100 names. */
  lemma HandoffsNeverCollide(s: State, run: seq<Step>, touched: set<Ref>, gone: set<Ref>)
    requires Starting(s) && IsRun(s, run) && gone <= touched
    requires forall i | 0 <= i < |run| :: Within(run[i], touched, gone)
    ensures var t := Final(s, run);
            && (forall p, q, r | HasTaken(t, p, r) && HasTaken(t, q, r) && r !in gone :: p == q)
            && (forall p, r | HasTaken(t, p, r) && r !in gone :: r !in s.refs)
            && (forall r | r in s.refs && r !in gone :: r in t.refs)
            && (forall r | r in s.refs && r !in touched :: r in t.refs && t.refs[r] == s.refs[r])
            && (forall p, r | HasTaken(t, p, r) && r !in touched :: r in t.refs && t.refs[r] == t.procs[p].commit)
            && (forall p | p in t.procs && t.procs[p].phase == Ended(NoFreeRef) ::
                  forall k | 1 <= k <= 100 :: Candidate(t.procs[p].refBase, k) in t.procs[p].seen)
  {
    assert Inv(s, gone) && OwnCommits(s, touched);
    hide Starting, IsRun;
    RunKeepsRefs(s, run, touched, gone);
    var t := Final(s, run);
    forall p | p in t.procs && t.procs[p].phase == Ended(NoFreeRef) ensures SawUpTo(t.procs[p], MAX_HANDOFF_REF_ATTEMPTS) {
      assert ProcInv(t.refs, t.procs[p], gone);
    }
  }
}
