/** The shared run budget (cmd/codefortd/budget.go) and the drain loops that spend it
    (cmd/codefortd/ci_runner.go). A buffered channel is the number of elements it holds. */
module Budget {

  function Clamp(x: int, lo: int, hi: int): int
    requires lo <= hi
  {
    if x < lo then lo else if x > hi then hi else x
  }

  function Min(a: nat, b: nat): nat { if a < b then a else b }

  /** Why a drain loop ends. */
  datatype Stop = Cancelled | Exhausted | Full

  class WorkBudget {
    const total: nat
    const reserved: nat
    var shared: nat
    var ciAllow: nat

    ghost predicate Valid()
      reads this
    {
      1 <= total && reserved <= total && shared <= total && ciAllow <= total - reserved && ciAllow <= shared
    }

    constructor (total: int, reserved: int)
      ensures Valid() && shared == 0 && ciAllow == 0
      ensures this.total == (if total < 1 then 1 else total) && this.reserved == Clamp(reserved, 0, this.total)
    {
      var t := if total < 1 then 1 else total;
      this.total := t;
      this.reserved := if reserved < 0 then 0 else if reserved > t then t else reserved;
      shared, ciAllow := 0, 0;
    }

    method TryAcquireCI() returns (ok: bool)
      requires Valid()
      modifies this
      ensures Valid()
      ensures ok <==> old(ciAllow) < total - reserved && old(shared) < total
      ensures ok ==> shared == old(shared) + 1 && ciAllow == old(ciAllow) + 1
      ensures !ok ==> shared == old(shared) && ciAllow == old(ciAllow)
    {
      if ciAllow == total - reserved { return false; }
      ciAllow := ciAllow + 1;
      if shared < total {
        shared := shared + 1;
        return true;
      }
      ciAllow := ciAllow - 1;
      ok := false;
    }

    method ReleaseCI()
      requires Valid() && ciAllow > 0
      modifies this
      ensures Valid() && shared == old(shared) - 1 && ciAllow == old(ciAllow) - 1
    {
      shared := shared - 1;
      ciAllow := ciAllow - 1;
    }

    method TryAcquireAgent() returns (ok: bool)
      requires Valid()
      modifies this
      ensures Valid() && ciAllow == old(ciAllow)
      ensures ok <==> old(shared) < total
      ensures shared == if ok then old(shared) + 1 else old(shared)
      ensures !ok ==> shared - ciAllow >= reserved
    {
      ok := shared < total;
      if ok { shared := shared + 1; }
    }

    method ReleaseAgent()
      requires Valid() && shared > ciAllow
      modifies this
      ensures Valid() && shared == old(shared) - 1 && ciAllow == old(ciAllow)
    {
      shared := shared - 1;
    }

    /** Goroutines dispatched earlier finish, any number of them; `hand` slots of each kind are in
        the drainer's hand and not theirs to release. */
    method WorkersFinish(handCI: nat, handAgents: nat) returns (ci: nat, agents: nat)
      requires Valid() && handCI <= ciAllow && handAgents <= shared - ciAllow
      modifies this
      ensures Valid() && handCI <= ciAllow && handAgents <= shared - ciAllow
      ensures ciAllow == old(ciAllow) - ci && shared == old(shared) - ci - agents
    {
      ci, agents := 0, 0;
      var more: bool := *;
      while more
        invariant Valid() && handCI <= ciAllow && handAgents <= shared - ciAllow
        invariant ciAllow == old(ciAllow) - ci && shared == old(shared) - ci - agents
        decreases shared, more
      {
        var isCI: bool := *;
        if isCI && ciAllow > handCI {
          ReleaseCI();
          ci := ci + 1;
          more := *;
        } else if !isCI && shared - ciAllow > handAgents {
          ReleaseAgent();
          agents := agents + 1;
          more := *;
        } else {
          more := false;
        }
      }
    }

    /** `drainKind` for CI runs, with `queued` claimable runs and the context cancelled after
        `stopAfter` dispatches, while goroutines finish at any moment. Slots held afterwards are
        those held before and those of the dispatched runs, less those released by finished
        goroutines; the loop stops only when cancelled, out of work, or refused by the budget. */
    method DrainCI(queued: nat, stopAfter: nat)
      returns (dispatched: nat, finishedCI: nat, finishedAgents: nat, stop: Stop)
      requires Valid()
      modifies this
      ensures Valid()
      ensures ciAllow == old(ciAllow) + dispatched - finishedCI
      ensures shared == old(shared) + dispatched - finishedCI - finishedAgents
      ensures dispatched <= queued && dispatched <= stopAfter
      ensures match stop
              case Cancelled => dispatched == stopAfter
              case Exhausted => dispatched == queued
              case Full => ciAllow == total - reserved || shared == total
      ensures finishedCI == finishedAgents == 0 ==>
                dispatched == Min(Min(queued, stopAfter), Min(total - old(shared), total - reserved - old(ciAllow)))
    {
      dispatched, finishedCI, finishedAgents := 0, 0, 0;
      while true
        invariant Valid()
        invariant dispatched <= queued && dispatched <= stopAfter
        invariant ciAllow == old(ciAllow) + dispatched - finishedCI
        invariant shared == old(shared) + dispatched - finishedCI - finishedAgents
        decreases stopAfter - dispatched
      {
        var ci, agents := WorkersFinish(0, 0);
        finishedCI, finishedAgents := finishedCI + ci, finishedAgents + agents;
        if dispatched == stopAfter { return dispatched, finishedCI, finishedAgents, Cancelled; }
        var acquired := TryAcquireCI();
        if !acquired { return dispatched, finishedCI, finishedAgents, Full; }
        ci, agents := WorkersFinish(1, 0);
        finishedCI, finishedAgents := finishedCI + ci, finishedAgents + agents;
        if dispatched == queued {
          ReleaseCI();
          return dispatched, finishedCI, finishedAgents, Exhausted;
        }
        dispatched := dispatched + 1;
      }
    }

    /** `drainKind` for the agent family, and equally `drainTurns` and `drainFinishing`. */
    method DrainAgent(queued: nat, stopAfter: nat)
      returns (dispatched: nat, finishedCI: nat, finishedAgents: nat, stop: Stop)
      requires Valid()
      modifies this
      ensures Valid()
      ensures ciAllow == old(ciAllow) - finishedCI
      ensures shared == old(shared) + dispatched - finishedCI - finishedAgents
      ensures dispatched <= queued && dispatched <= stopAfter
      ensures match stop
              case Cancelled => dispatched == stopAfter
              case Exhausted => dispatched == queued
              case Full => shared == total && shared - ciAllow >= reserved
      ensures finishedCI == finishedAgents == 0 ==> dispatched == Min(Min(queued, stopAfter), total - old(shared))
    {
      dispatched, finishedCI, finishedAgents := 0, 0, 0;
      while true
        invariant Valid()
        invariant dispatched <= queued && dispatched <= stopAfter
        invariant ciAllow == old(ciAllow) - finishedCI
        invariant shared == old(shared) + dispatched - finishedCI - finishedAgents
        decreases stopAfter - dispatched
      {
        var ci, agents := WorkersFinish(0, 0);
        finishedCI, finishedAgents := finishedCI + ci, finishedAgents + agents;
        if dispatched == stopAfter { return dispatched, finishedCI, finishedAgents, Cancelled; }
        var acquired := TryAcquireAgent();
        if !acquired { return dispatched, finishedCI, finishedAgents, Full; }
        ci, agents := WorkersFinish(0, 1);
        finishedCI, finishedAgents := finishedCI + ci, finishedAgents + agents;
        if dispatched == queued {
          ReleaseAgent();
          return dispatched, finishedCI, finishedAgents, Exhausted;
        }
        dispatched := dispatched + 1;
      }
    }
  }

  // ---------------------------------------------------------------- interleaved channel operations

  /** Where the holder of a slot stands between its channel operations: first the drain loop that
      takes the slot, then, once a run or turn was claimed, the goroutine it was handed to. */
  datatype Phase =
    | CIEntered      // sent to ciAllow, about to try shared
    | CIBackingOut   // found shared full, about to receive from ciAllow
    | CIInHand       // acquired, about to claim
    | CIReturning    // nothing claimed, about to receive from shared
    | CIGivingBack   // and then from ciAllow
    | CIRunning      // handed to a goroutine
    | CILeaving      // the goroutine received from shared, about to receive from ciAllow
    | AgentInHand
    | AgentReturning
    | AgentRunning

  const SHARERS: set<Phase> := {CIInHand, CIReturning, CIRunning, AgentInHand, AgentReturning, AgentRunning}
  const ALLOWED: set<Phase> := {CIEntered, CIBackingOut, CIInHand, CIReturning, CIGivingBack, CIRunning, CILeaving}
  const CI_SHARERS: set<Phase> := {CIInHand, CIReturning, CIRunning}
  const AGENTS: set<Phase> := {AgentInHand, AgentReturning, AgentRunning}

  /** Goroutines at work, and slots in the hand of a drain loop. */
  const LIVE: set<Phase> := {CIRunning, AgentRunning}
  const IN_HAND: set<Phase> := {CIInHand, CIReturning, AgentInHand, AgentReturning}

  /** A drain loop is busy with the slot. */
  const DRAINING: set<Phase> :=
    {CIEntered, CIBackingOut, CIInHand, CIReturning, CIGivingBack, AgentInHand, AgentReturning}

  datatype State = State(shared: nat, ciAllow: nat, slots: map<nat, Phase>)

  /** A single channel operation for slot `w`, or the claim between acquiring and handing over. */
  datatype Step =
    | SendCIAllow(w: nat)
    | SendShared(w: nat)
    | BackOut(w: nat)
    | ClaimCI(w: nat, found: bool)
    | ReceiveShared(w: nat)
    | ReceiveCIAllow(w: nat)
    | AgentSend(w: nat)
    | ClaimAgent(w: nat, found: bool)
    | AgentReceive(w: nat)

  predicate In1(s: State, w: nat, phases: set<Phase>) { w in s.slots && s.slots[w] in phases }

  /** The program is at this operation. */
  predicate AtStep(s: State, st: Step) {
    match st
    case SendCIAllow(w) => w !in s.slots
    case SendShared(w) => In1(s, w, {CIEntered})
    case BackOut(w) => In1(s, w, {CIBackingOut})
    case ClaimCI(w, _) => In1(s, w, {CIInHand})
    case ReceiveShared(w) => In1(s, w, {CIReturning, CIRunning})
    case ReceiveCIAllow(w) => In1(s, w, {CIGivingBack, CILeaving})
    case AgentSend(w) => w !in s.slots
    case ClaimAgent(w, _) => In1(s, w, {AgentInHand})
    case AgentReceive(w) => In1(s, w, {AgentReturning, AgentRunning})
  }

  /** The operation is a receive from an empty channel. */
  predicate Blocks(s: State, st: Step) {
    match st
    case BackOut(_) => s.ciAllow == 0
    case ReceiveShared(_) => s.shared == 0
    case ReceiveCIAllow(_) => s.ciAllow == 0
    case AgentReceive(_) => s.shared == 0
    case _ => false
  }

  function After(s: State, st: Step, total: nat, reserved: nat): State
    requires AtStep(s, st) && !Blocks(s, st) && reserved <= total
  {
    match st
    case SendCIAllow(w) =>
      if s.ciAllow < total - reserved then s.(ciAllow := s.ciAllow + 1, slots := s.slots[w := CIEntered]) else s
    case SendShared(w) =>
      if s.shared < total then s.(shared := s.shared + 1, slots := s.slots[w := CIInHand])
      else s.(slots := s.slots[w := CIBackingOut])
    case BackOut(w) => s.(ciAllow := s.ciAllow - 1, slots := s.slots - {w})
    case ClaimCI(w, found) => s.(slots := s.slots[w := if found then CIRunning else CIReturning])
    case ReceiveShared(w) =>
      s.(shared := s.shared - 1, slots := s.slots[w := if s.slots[w] == CIRunning then CILeaving else CIGivingBack])
    case ReceiveCIAllow(w) => s.(ciAllow := s.ciAllow - 1, slots := s.slots - {w})
    case AgentSend(w) =>
      if s.shared < total then s.(shared := s.shared + 1, slots := s.slots[w := AgentInHand]) else s
    case ClaimAgent(w, found) => s.(slots := s.slots[w := if found then AgentRunning else AgentReturning])
    case AgentReceive(w) => s.(shared := s.shared - 1, slots := s.slots - {w})
  }

  ghost function In(slots: map<nat, Phase>, phases: set<Phase>): set<nat> {
    set w | w in slots && slots[w] in phases
  }

  ghost function Count(s: State, phases: set<Phase>): nat { |In(s.slots, phases)| }

  /** Each channel holds one element for every slot that was sent for and not yet received. */
  ghost predicate Inv(s: State, total: nat, reserved: nat) {
    && s.shared == Count(s, SHARERS) && s.ciAllow == Count(s, ALLOWED)
    && s.shared <= total && reserved <= total && s.ciAllow <= total - reserved
  }

  lemma MoveCount(slots: map<nat, Phase>, w: nat, p: Phase, phases: set<Phase>)
    ensures |In(slots[w := p], phases)| ==
            |In(slots, phases)| + (if p in phases then 1 else 0) - (if w in In(slots, phases) then 1 else 0)
  {
    var before, after := In(slots, phases), In(slots[w := p], phases);
    assert after == if p in phases then before + {w} else before - {w};
  }

  lemma LeaveCount(slots: map<nat, Phase>, w: nat, phases: set<Phase>)
    ensures |In(slots - {w}, phases)| == |In(slots, phases)| - (if w in In(slots, phases) then 1 else 0)
  {
    assert In(slots - {w}, phases) == In(slots, phases) - {w};
  }

  /** The phase a step leaves its slot in, unless the slot is gone afterwards. */
  function NextPhase(s: State, st: Step, total: nat): Phase {
    match st
    case SendCIAllow(_) => CIEntered
    case SendShared(_) => if s.shared < total then CIInHand else CIBackingOut
    case ClaimCI(_, found) => if found then CIRunning else CIReturning
    case ReceiveShared(w) => if In1(s, w, {CIRunning}) then CILeaving else CIGivingBack
    case ClaimAgent(_, found) => if found then AgentRunning else AgentReturning
    case _ => AgentInHand
  }

  /** No receive ever blocks, and every operation keeps the invariant. */
  lemma StepKeepsInv(s: State, st: Step, total: nat, reserved: nat)
    requires Inv(s, total, reserved) && AtStep(s, st)
    ensures !Blocks(s, st)
    ensures Inv(After(s, st, total, reserved), total, reserved)
  {
    LeaveCount(s.slots, st.w, SHARERS);
    LeaveCount(s.slots, st.w, ALLOWED);
    var p := NextPhase(s, st, total);
    MoveCount(s.slots, st.w, p, SHARERS);
    MoveCount(s.slots, st.w, p, ALLOWED);
  }

  ghost predicate IsRun(s: State, run: seq<Step>, total: nat, reserved: nat)
    requires reserved <= total
    decreases |run|
  {
    run == [] || (AtStep(s, run[0]) && !Blocks(s, run[0]) && IsRun(After(s, run[0], total, reserved), run[1..], total, reserved))
  }

  ghost function Final(s: State, run: seq<Step>, total: nat, reserved: nat): State
    requires reserved <= total && IsRun(s, run, total, reserved)
    decreases |run|
  {
    if run == [] then s else Final(After(s, run[0], total, reserved), run[1..], total, reserved)
  }

  const IDLE := State(0, 0, map[])

  lemma {:induction false} RunKeepsInv(s: State, run: seq<Step>, total: nat, reserved: nat)
    requires Inv(s, total, reserved) && IsRun(s, run, total, reserved)
    ensures Inv(Final(s, run, total, reserved), total, reserved)
    decreases |run|
  {
    hide Inv, AtStep, Blocks, After;
    if run != [] {
      StepKeepsInv(s, run[0], total, reserved);
      RunKeepsInv(After(s, run[0], total, reserved), run[1..], total, reserved);
    }
  }

  lemma CountSplit(s: State, a: set<Phase>, b: set<Phase>)
    requires a !! b
    ensures Count(s, a + b) == Count(s, a) + Count(s, b)
  {
    var x, y := In(s.slots, a), In(s.slots, b);
    assert In(s.slots, a + b) == x + y && x !! y;
  }

  lemma CountWithin(s: State, a: set<Phase>, b: set<Phase>)
    requires a <= b
    ensures Count(s, a) <= Count(s, b)
  {
    CountSplit(s, a, b - a);
    assert a + (b - a) == b;
  }

  /** In every reachable state: the slots taken are those of live goroutines and those in the hand
      of a drain loop, at most `total`; at most `total - reserved` belong to CI; an agent is refused
      only when agents hold at least the reserved slots; no receive can block; and when nothing is
      left both channels are empty. */
  lemma BudgetHolds(run: seq<Step>, total: nat, reserved: nat)
    requires reserved <= total && IsRun(IDLE, run, total, reserved)
    ensures var s := Final(IDLE, run, total, reserved);
            && s.shared == Count(s, LIVE) + Count(s, IN_HAND) <= total
            && Count(s, CI_SHARERS) <= total - reserved
            && (s.shared == total ==> Count(s, AGENTS) >= reserved)
            && (s.slots == map[] ==> s.shared == 0 && s.ciAllow == 0)
            && (forall st | AtStep(s, st) :: !Blocks(s, st))
  {
    var s := Final(IDLE, run, total, reserved);
    NothingCounted();
    RunKeepsInv(IDLE, run, total, reserved);
    forall st | AtStep(s, st) ensures !Blocks(s, st) { StepKeepsInv(s, st, total, reserved); }
    hide Final, Count;
    CountSplit(s, LIVE, IN_HAND);
    CountSplit(s, CI_SHARERS, AGENTS);
    CountWithin(s, CI_SHARERS, ALLOWED);
    assert LIVE + IN_HAND == SHARERS && CI_SHARERS + AGENTS == SHARERS;
    if s.slots == map[] { assert s.slots == IDLE.slots; NoSlots(s); }
  }

  lemma NothingCounted()
    ensures forall phases: set<Phase> :: Count(IDLE, phases) == 0
  {
  }

  lemma NoSlots(s: State)
    requires s.slots == map[]
    ensures Count(s, SHARERS) == 0 && Count(s, ALLOWED) == 0
  {
  }

  /** A run in which one loop drains, which takes a new slot only when it is done with the last. */
  ghost predicate OneDrainer(s: State, run: seq<Step>, total: nat, reserved: nat)
    requires reserved <= total && IsRun(s, run, total, reserved)
    decreases |run|
  {
    run == [] || (
      && (run[0].SendCIAllow? || run[0].AgentSend? ==> Count(s, DRAINING) == 0)
      && OneDrainer(After(s, run[0], total, reserved), run[1..], total, reserved))
  }

  lemma DrainingStep(s: State, st: Step, total: nat, reserved: nat)
    requires AtStep(s, st) && !Blocks(s, st) && reserved <= total && Count(s, DRAINING) <= 1
    requires st.SendCIAllow? || st.AgentSend? ==> Count(s, DRAINING) == 0
    ensures Count(After(s, st, total, reserved), DRAINING) <= 1
  {
    LeaveCount(s.slots, st.w, DRAINING);
    MoveCount(s.slots, st.w, NextPhase(s, st, total), DRAINING);
  }

  lemma {:induction false} OneDrainerKeeps(s: State, run: seq<Step>, total: nat, reserved: nat)
    requires reserved <= total && IsRun(s, run, total, reserved) && OneDrainer(s, run, total, reserved)
    requires Count(s, DRAINING) <= 1
    ensures Count(Final(s, run, total, reserved), DRAINING) <= 1
    decreases |run|
  {
    hide AtStep, Blocks, After, Count;
    if run != [] {
      DrainingStep(s, run[0], total, reserved);
      OneDrainerKeeps(After(s, run[0], total, reserved), run[1..], total, reserved);
    }
  }

  /** With the runner's single drain loop, and goroutines releasing at any moment, the slots taken
      are always those of the live goroutines and at most one in the loop's hand: none leaks. */
  lemma NoSlotLeaks(run: seq<Step>, total: nat, reserved: nat)
    requires reserved <= total && IsRun(IDLE, run, total, reserved) && OneDrainer(IDLE, run, total, reserved)
    ensures var s := Final(IDLE, run, total, reserved);
            && Count(s, LIVE) <= s.shared <= Count(s, LIVE) + 1
            && (Count(s, DRAINING) == 0 ==> s.shared == Count(s, LIVE))
  {
    BudgetHolds(run, total, reserved);
    NothingCounted();
    OneDrainerKeeps(IDLE, run, total, reserved);
    CountWithin(Final(IDLE, run, total, reserved), IN_HAND, DRAINING);
  }
}
