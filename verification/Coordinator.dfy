/**
 The reconciler's cycle: read, plan, snapshot, execute, commit or roll back. Providers, store, executor and
 rollback are the outside world; each call meets an arbitrary `World`. Visible states and outside calls are
 returned in the order in which they happen.
 */
module Coordinator {
  import opened Wire
  import opened Diff

  datatype Phase =
    Idle | ReadDesired | ReadActual | BuildPlan | ExecutePlan | CommitSnapshot | Done | Rollback | Failed

  datatype Event =
    | ReconciliationRequested | DesiredReadFinished | ActualReadFinished | PlanningFinished | ExecutionStarted
    | StepCompleted | StepFailed | CommitCompleted | Reconciled | RollbackCompleted

  function Transition(p: Phase, e: Event): Option<Phase>
  {
    match (p, e)
    case (Idle, ReconciliationRequested) => Some(ReadDesired)
    case (ReadDesired, DesiredReadFinished) => Some(ReadActual)
    case (ReadActual, ActualReadFinished) => Some(BuildPlan)
    case (BuildPlan, PlanningFinished) => Some(ExecutePlan)
    case (ExecutePlan, ExecutionStarted) => Some(ExecutePlan)
    case (ExecutePlan, StepCompleted) => Some(ExecutePlan)
    case (ExecutePlan, StepFailed) => Some(Rollback)
    case (ExecutePlan, CommitCompleted) => Some(CommitSnapshot)
    case (CommitSnapshot, Reconciled) => Some(Done)
    case (Rollback, RollbackCompleted) => Some(Failed)
    case _ => None
  }

  /** What one call meets: a cycle already running, and the answers of the collaborators. */
  datatype World = World(
    busy: bool, desired: Option<seq<DesiredRule>>, actual: Option<seq<ActualRule>>,
    saves: bool, execution: Execution, rollsBack: bool)

  datatype Execution = Errored | Reported(success: bool)

  datatype Snapshot = Snapshot(desired: seq<DesiredRule>, actual: seq<ActualRule>, generation: nat)

  /** Calls to the collaborators that can change something outside. */
  datatype Call = Save(snapshot: Snapshot) | Run(plan: Plan) | RollBack(snapshot: Snapshot)

  datatype Result = Completed(ok: bool) | InProgress

  // ---- What a cycle amounts to ----

  predicate Planned(w: World)
  {
    !w.busy && w.desired.Some? && w.actual.Some?
  }

  function PlanOf(w: World, generation: nat): Plan
    requires Planned(w)
  {
    PlanFor(w.desired.value, w.actual.value, generation)
  }

  function SnapshotOf(w: World, generation: nat): Snapshot
    requires Planned(w)
  {
    Snapshot(w.desired.value, w.actual.value, generation)
  }

  /** Something had to change, and the executor was reached. */
  predicate Executes(w: World, generation: nat)
  {
    Planned(w) && !PlanOf(w, generation).IsEmpty() && w.saves
  }

  predicate Commits(w: World, generation: nat)
  {
    Executes(w, generation) && w.execution == Reported(true)
  }

  predicate Succeeds(w: World, generation: nat)
  {
    Commits(w, generation) || (Planned(w) && PlanOf(w, generation).IsEmpty())
  }

  function CallsOf(w: World, generation: nat): seq<Call>
  {
    if !Planned(w) || PlanOf(w, generation).IsEmpty() then []
    else
      var saved := [Save(SnapshotOf(w, generation))];
      if !w.saves then saved
      else
        var ran := saved + [Run(PlanOf(w, generation))];
        if Commits(w, generation) then ran else ran + [RollBack(SnapshotOf(w, generation))]
  }

  function NextGeneration(w: World, generation: nat): nat
  {
    if Commits(w, generation) then generation + 1 else generation
  }

  function NextPhase(p: Phase, w: World, generation: nat): Phase
  {
    if w.busy then p else if Succeeds(w, generation) then Done else Failed
  }

  predicate Settled(p: Phase)
  {
    p == Done || p == Failed
  }

  /** No event moves a settled machine. */
  lemma SettledIsStuck(p: Phase, e: Event)
    requires Settled(p)
    ensures Transition(p, e) == None
  {
  }

  class Coordinator {
    var state: Phase
    var progress: Phase
    var generation: nat

    ghost predicate Valid()
      reads this
    {
      progress == state
    }

    constructor ()
      ensures Valid() && state == Idle && generation == 1
    {
      state, progress, generation := Idle, Idle, 1;
    }

    method Enter(p: Phase, shown: seq<Phase>) returns (shown': seq<Phase>)
      modifies this`state, this`progress
      ensures state == p && progress == p && shown' == shown + [p]
    {
      progress := p;
      state := p;
      shown' := shown + [p];
    }

    /** Illegal ticks are ignored. */
    method Advance(e: Event, shown: seq<Phase>) returns (shown': seq<Phase>)
      requires Valid()
      modifies this`state, this`progress
      ensures Valid()
      ensures
        match Transition(old(state), e)
        case None => state == old(state) && shown' == shown
        case Some(p) => state == p && shown' == shown + [p]
      ensures Settled(old(state)) ==> state == old(state) && shown' == shown
    {
      match Transition(state, e)
      case None => shown' := shown;
      case Some(p) => shown' := Enter(p, shown);
    }

    /**
     One cycle. `calls` are the outside calls in order; `shown` are the states an observer can see while it
     runs, also in order.
     */
    method Reconcile(w: World) returns (r: Result, calls: seq<Call>, shown: seq<Phase>)
      requires Valid()
      modifies this
      ensures Valid() && state == NextPhase(old(state), w, old(generation))
      ensures generation == NextGeneration(w, old(generation)) && calls == CallsOf(w, old(generation))
      ensures r == if w.busy then InProgress else Completed(Succeeds(w, old(generation)))
      ensures Settled(old(state)) || w.busy ==> forall p <- shown :: p == state
      ensures !w.busy ==> |shown| > 0 && shown[|shown| - 1] == state
    {
      hide Transition, PlanFor;
      calls, shown := [], [];
      if w.busy {
        return InProgress, [], [];
      }
      shown := Advance(ReconciliationRequested, shown);
      if w.desired.None? {
        r, shown := Fail(shown);
        return;
      }
      shown := Advance(DesiredReadFinished, shown);
      if w.actual.None? {
        r, shown := Fail(shown);
        return;
      }
      shown := Advance(ActualReadFinished, shown);
      var plan := Build(w.desired.value, w.actual.value, generation);
      EmptyPlanIsConverged(w.desired.value, w.actual.value, generation);
      shown := Advance(PlanningFinished, shown);
      if plan.IsEmpty() {
        shown := Advance(CommitCompleted, shown);
        shown := Advance(Reconciled, shown);
        shown := Enter(Done, shown);
        return Completed(true), calls, shown;
      }
      var snapshot := Snapshot(w.desired.value, w.actual.value, plan.before);
      calls := calls + [Save(snapshot)];
      if !w.saves {
        r, shown := Fail(shown);
        return;
      }
      shown := Advance(ExecutionStarted, shown);
      calls := calls + [Run(plan)];
      if w.execution == Errored || !w.execution.success {
        r, calls, shown := RollBackAndFail(snapshot, w.rollsBack, calls, shown);
        return;
      }
      shown := Advance(CommitCompleted, shown);
      generation := plan.after;
      shown := Advance(Reconciled, shown);
      shown := Enter(Done, shown);
      r := Completed(true);
    }

    method Fail(shown: seq<Phase>) returns (r: Result, shown': seq<Phase>)
      modifies this`state, this`progress
      ensures Valid() && state == Failed && r == Completed(false) && shown' == shown + [Failed]
    {
      shown' := Enter(Failed, shown);
      r := Completed(false);
    }

    method RollBackAndFail(snapshot: Snapshot, rollsBack: bool, calls: seq<Call>, shown: seq<Phase>)
      returns (r: Result, calls': seq<Call>, shown': seq<Phase>)
      requires Valid()
      modifies this`state, this`progress
      ensures Valid() && state == Failed && r == Completed(false) && calls' == calls + [RollBack(snapshot)]
      ensures |shown'| > 0 && shown'[|shown'| - 1] == Failed
      ensures Settled(old(state)) ==> shown' == shown + [Failed]
    {
      shown' := Advance(StepFailed, shown);
      calls' := calls + [RollBack(snapshot)];
      if !rollsBack {
        r, shown' := Fail(shown');
        return;
      }
      shown' := Advance(RollbackCompleted, shown');
      r, shown' := Fail(shown');
    }
  }

  // ---- Every sequence of calls ----

  datatype Machine = Machine(phase: Phase, generation: nat)

  function After(ws: seq<World>): Machine
  {
    if |ws| == 0 then Machine(Idle, 1)
    else
      var m, w := After(ws[..|ws| - 1]), ws[|ws| - 1];
      Machine(NextPhase(m.phase, w, m.generation), NextGeneration(w, m.generation))
  }

  /** All outside calls of a run, in order. */
  function Trace(ws: seq<World>): seq<Call>
  {
    if |ws| == 0 then []
    else Trace(ws[..|ws| - 1]) + CallsOf(ws[|ws| - 1], After(ws[..|ws| - 1]).generation)
  }

  /** Position `i` of a run commits. */
  predicate CommitsAt(ws: seq<World>, i: nat)
    requires i < |ws|
  {
    Commits(ws[i], After(ws[..i]).generation)
  }

  /** Committed cycles among the first `n`. */
  function Commitments(ws: seq<World>, n: nat): nat
    requires n <= |ws|
  {
    if n == 0 then 0 else Commitments(ws, n - 1) + if CommitsAt(ws, n - 1) then 1 else 0
  }

  /** The generation counts the committed cycles: it never falls and rises by one exactly with each of them. */
  lemma {:induction false} GenerationCountsCommits(ws: seq<World>, n: nat)
    requires n <= |ws|
    ensures After(ws[..n]).generation == 1 + Commitments(ws, n)
  {
    hide Commits;
    if n > 0 {
      GenerationCountsCommits(ws, n - 1);
      assert ws[..n][..n - 1] == ws[..n - 1];
    }
  }

  /** Until some call completes nothing is visible; from then on the machine rests in Done or Failed. */
  lemma {:induction false} RunSettles(ws: seq<World>)
    ensures if exists w <- ws :: !w.busy then Settled(After(ws).phase) else After(ws) == Machine(Idle, 1)
  {
    hide NextPhase, NextGeneration, Settled;
    if |ws| > 0 {
      var n := |ws| - 1;
      RunSettles(ws[..n]);
      var m := After(ws[..n]);
      CallSettles(m.phase, ws[n], m.generation);
      assert forall w <- ws[..n] :: w in ws;
      assert forall w <- ws :: w in ws[..n] || w == ws[n];
    }
  }

  lemma CallSettles(p: Phase, w: World, generation: nat)
    ensures w.busy ==> NextPhase(p, w, generation) == p && NextGeneration(w, generation) == generation
    ensures !w.busy ==> Settled(NextPhase(p, w, generation))
  {
  }

  /** An execution directly follows the save of the state it was planned from, under the generation before it. */
  predicate SavedFirst(calls: seq<Call>, i: nat)
    requires i < |calls|
  {
    calls[i].Run? ==>
      && i > 0 && calls[i - 1].Save?
      && var s := calls[i - 1].snapshot;
         s.generation == calls[i].plan.before && calls[i].plan == PlanFor(s.desired, s.actual, s.generation)
  }

  /** A rollback directly follows an execution, and restores what was saved before that. */
  predicate RestoresSaved(calls: seq<Call>, i: nat)
    requires i < |calls|
  {
    calls[i].RollBack? ==> i > 1 && calls[i - 1].Run? && calls[i - 2] == Save(calls[i].snapshot)
  }

  ghost predicate Disciplined(calls: seq<Call>)
  {
    forall i | 0 <= i < |calls| :: SavedFirst(calls, i) && RestoresSaved(calls, i)
  }

  lemma CycleIsDisciplined(w: World, generation: nat)
    ensures Disciplined(CallsOf(w, generation))
  {
    hide PlanFor;
    if Planned(w) {
      EmptyPlanIsConverged(w.desired.value, w.actual.value, generation);
    }
  }

  lemma JoinDisciplined(a: seq<Call>, b: seq<Call>)
    requires Disciplined(a) && Disciplined(b)
    ensures Disciplined(a + b)
  {
    var c := a + b;
    forall i | 0 <= i < |c|
      ensures SavedFirst(c, i) && RestoresSaved(c, i)
    {
      if i < |a| {
        assert SavedFirst(a, i) && RestoresSaved(a, i);
      } else {
        assert SavedFirst(b, i - |a|) && RestoresSaved(b, i - |a|);
      }
    }
  }

  /** Over every run: nothing executes unsaved, and rollback only ever restores the snapshot of its own cycle. */
  lemma {:induction false} RunIsDisciplined(ws: seq<World>)
    ensures Disciplined(Trace(ws))
  {
    hide CallsOf, Disciplined;
    if |ws| == 0 {
      NothingIsDisciplined();
    } else {
      var n := |ws| - 1;
      RunIsDisciplined(ws[..n]);
      CycleIsDisciplined(ws[n], After(ws[..n]).generation);
      JoinDisciplined(Trace(ws[..n]), CallsOf(ws[n], After(ws[..n]).generation));
    }
  }

  lemma NothingIsDisciplined()
    ensures Disciplined([])
  {
  }

  /** Rollback runs in exactly the cycles whose execution did not succeed. */
  lemma RollbackExactly(w: World, generation: nat)
    ensures (exists c <- CallsOf(w, generation) :: c.RollBack?) <==> Executes(w, generation) && !Commits(w, generation)
    ensures (exists c <- CallsOf(w, generation) :: c.Run?) <==> Executes(w, generation)
  {
    hide PlanOf, SnapshotOf;
    var calls := CallsOf(w, generation);
    if Executes(w, generation) {
      assert calls[1].Run? && calls[1] in calls;
      if !Commits(w, generation) {
        assert calls[2] in calls;
      }
    }
  }

  /**
   After a committed cycle, the next cycle for the same rules calls nobody and leaves the generation alone
   exactly if the rules do not contradict each other and the executor took what the plan needed.
   */
  lemma CommittedCycleQuiesces(w: World, next: World, generation: nat, answers: seq<Answer>)
    requires Commits(w, generation) && |answers| == |Steps(w.desired.value, w.actual.value)|
    requires !next.busy && next.desired == w.desired
    requires next.actual == Some(ExecuteAll(Steps(w.desired.value, w.actual.value), answers, w.actual.value))
    ensures
      var g := NextGeneration(w, generation);
      CallsOf(next, g) == [] && Succeeds(next, g) && NextGeneration(next, g) == g <==>
        Consistent(w.desired.value) && Carried(w.desired.value, w.actual.value, answers)
  {
    hide PlanFor, ExecuteAll, Consistent, Carried, Steps;
    Converges(w.desired.value, w.actual.value, generation + 1, answers);
  }

  /** A cycle in which one rule is missing and the executor reports success. */
  predicate SeesMissingRule(w: World, r: DesiredRule)
  {
    !w.busy && w.desired == Some([r]) && w.actual == Some([]) && w.saves && w.execution == Reported(true)
  }

  /**
   A mechanism that keeps saying a missing rule is there already: its report is a success and the recorded
   state stays as it was, so every cycle plans the rule, executes, commits and raises the generation again.
   */
  lemma {:induction false} StaleAnswersNeverQuiesce(ws: seq<World>, r: DesiredRule)
    requires forall w <- ws :: SeesMissingRule(w, r)
    ensures Steps([r], []) == [UpdatePolicy(r)] && Reports([UpdatePolicy(r)], [AlreadyApplied])
    ensures ExecuteAll([UpdatePolicy(r)], [AlreadyApplied], []) == []
    ensures After(ws).generation == 1 + |ws| && |Trace(ws)| == 2 * |ws|
  {
    hide ExecuteAll, Steps, NextPhase;
    StaleAnswerChangesNothing(r);
    if |ws| > 0 {
      var n := |ws| - 1;
      assert ws[n] in ws;
      StaleAnswersNeverQuiesce(ws[..n], r);
      MissingRuleCommits(ws[n], r, After(ws[..n]).generation);
    }
  }

  lemma MissingRuleCommits(w: World, r: DesiredRule, generation: nat)
    requires SeesMissingRule(w, r)
    ensures Commits(w, generation) && |CallsOf(w, generation)| == 2
  {
    hide ExecuteAll;
    StaleAnswerChangesNothing(r);
    assert PlanOf(w, generation).operations == [UpdatePolicy(r)];
    assert UpdatePolicy(r) in PlanOf(w, generation).operations;
  }
}
