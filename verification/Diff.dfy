/**
 The reconciliation planner: desired rules against actual rules. `Converges` says when executing the
 plan brings the actual state to the desired one, given what the mechanism answers to each operation, and
 that a second plan is then empty.
 */
module Diff {
  import opened Wire

  datatype DriverId = WireGuard | AmneziaWG | Xray | Hysteria | B4 | DnsForwarder | Custom(number: U32)

  datatype Action =
    | Route(table: U32) | Mark(fwmark: U32) | Forward(driver: DriverId)
    | Block | Reject | Allow | Shape(shapeClass: U32) | Log | Queue(num: U16)

  datatype FlowCriteria = FlowCriteria(
    srcIp: Option<Bytes>, dstIp: Option<Bytes>, srcPort: Option<U16>, dstPort: Option<U16>,
    protocol: Option<Byte>, dstDomain: Option<string>)

  datatype DesiredRule = DesiredRule(id: U32, action: Action, priority: U32, flow: Option<FlowCriteria>)
  datatype ActualRule = ActualRule(id: U32, action: Action, ruleId: Option<U32>, flow: Option<FlowCriteria>)

  datatype Operation =
    | CreateDriver(driver: DriverId) | RemoveDriver(driver: DriverId) | RestartDriver(driver: DriverId)
    | UpdatePolicy(rule: DesiredRule) | RemovePolicy(id: U32) | NoOp

  datatype Plan = Plan(before: nat, after: nat, operations: seq<Operation>)
  {
    predicate IsEmpty()
    {
      forall op <- operations :: op == NoOp
    }
  }

  function NewPlan(before: nat, operations: seq<Operation>): Plan
  {
    Plan(before, if exists op <- operations :: op != NoOp then before + 1 else before, operations)
  }

  // ---- The plan ----

  /** The first actual rule with an id: the one the planner looks at. */
  function First(actual: seq<ActualRule>, id: U32): (r: Option<ActualRule>)
    ensures r.Some? ==> r.value.id == id
  {
    if |actual| == 0 then None
    else if actual[0].id == id then Some(actual[0])
    else First(actual[1..], id)
  }

  predicate Satisfied(r: DesiredRule, actual: seq<ActualRule>)
  {
    match First(actual, r.id)
    case None => false
    case Some(a) => a.action == r.action && a.flow == r.flow
  }

  predicate Wanted(id: U32, desired: seq<DesiredRule>)
  {
    exists r <- desired :: r.id == id
  }

  /** One update per desired rule that is not satisfied, in desired order. */
  function Updates(desired: seq<DesiredRule>, actual: seq<ActualRule>): (ops: seq<Operation>)
    ensures forall op <- ops :: op.UpdatePolicy? && op.rule in desired && !Satisfied(op.rule, actual)
    ensures forall r <- desired :: !Satisfied(r, actual) ==> UpdatePolicy(r) in ops
  {
    if |desired| == 0 then []
    else
      var n := |desired| - 1;
      var ops := Updates(desired[..n], actual);
      assert desired == desired[..n] + [desired[n]];
      if Satisfied(desired[n], actual) then ops else ops + [UpdatePolicy(desired[n])]
  }

  /** One removal per actual rule whose id nothing wants, in actual order. */
  function Removals(actual: seq<ActualRule>, desired: seq<DesiredRule>): (ops: seq<Operation>)
    ensures forall op <- ops :: op.RemovePolicy? && !Wanted(op.id, desired)
    ensures forall a <- actual :: !Wanted(a.id, desired) ==> RemovePolicy(a.id) in ops
    ensures forall op <- ops :: exists a <- actual :: op.id == a.id
  {
    if |actual| == 0 then []
    else
      var n := |actual| - 1;
      var ops := Removals(actual[..n], desired);
      assert actual == actual[..n] + [actual[n]];
      if Wanted(actual[n].id, desired) then ops else ops + [RemovePolicy(actual[n].id)]
  }

  function Steps(desired: seq<DesiredRule>, actual: seq<ActualRule>): seq<Operation>
  {
    Updates(desired, actual) + Removals(actual, desired)
  }

  function PlanFor(desired: seq<DesiredRule>, actual: seq<ActualRule>, generation: nat): Plan
  {
    var ops := Steps(desired, actual);
    NewPlan(generation, if |ops| == 0 then [NoOp] else ops)
  }

  method Build(desired: seq<DesiredRule>, actual: seq<ActualRule>, generation: nat) returns (plan: Plan)
    ensures plan == PlanFor(desired, actual, generation)
  {
    hide First, Satisfied, Wanted;
    var operations: seq<Operation> := [];
    for i := 0 to |desired|
      invariant operations == Updates(desired[..i], actual)
    {
      assert desired[..i + 1][..i] == desired[..i];
      var rule := desired[i];
      var found := Find(actual, rule.id);
      var same := found.Some? && found.value.action == rule.action && found.value.flow == rule.flow;
      SatisfiedIs(rule, actual);
      if !same {
        operations := operations + [UpdatePolicy(rule)];
      }
    }
    assert desired[..|desired|] == desired;
    ghost var updates := operations;
    for j := 0 to |actual|
      invariant operations == updates + Removals(actual[..j], desired)
    {
      assert actual[..j + 1][..j] == actual[..j];
      var wanted := IsWanted(actual[j].id, desired);
      if !wanted {
        operations := operations + [RemovePolicy(actual[j].id)];
      }
    }
    assert actual[..|actual|] == actual;
    if |operations| == 0 {
      operations := [NoOp];
    }
    plan := NewPlan(generation, operations);
  }

  lemma SatisfiedIs(r: DesiredRule, actual: seq<ActualRule>)
    ensures
      var found := First(actual, r.id);
      Satisfied(r, actual) == (found.Some? && found.value.action == r.action && found.value.flow == r.flow)
  {
  }

  method Find(actual: seq<ActualRule>, id: U32) returns (r: Option<ActualRule>)
    ensures r == First(actual, id)
  {
    var i := 0;
    assert actual[0..] == actual;
    while i < |actual|
      invariant 0 <= i <= |actual| && First(actual[i..], id) == First(actual, id)
    {
      if actual[i].id == id {
        return Some(actual[i]);
      }
      assert actual[i..][1..] == actual[i + 1..];
      i := i + 1;
    }
    r := None;
  }

  method IsWanted(id: U32, desired: seq<DesiredRule>) returns (b: bool)
    ensures b == Wanted(id, desired)
  {
    for i := 0 to |desired|
      invariant forall k | 0 <= k < i :: desired[k].id != id
    {
      if desired[i].id == id {
        return true;
      }
    }
    return false;
  }

  // ---- Executing the plan ----

  function Without(actual: seq<ActualRule>, id: U32): seq<ActualRule>
  {
    if |actual| == 0 then []
    else if actual[0].id == id then Without(actual[1..], id)
    else [actual[0]] + Without(actual[1..], id)
  }

  /** What the mechanism says to one operation; `handle` is what it calls the rule it installed. */
  datatype Answer = Applied(handle: Option<U32>) | AlreadyApplied | Refused

  /**
   What the adapter makes of an answer. A rule that was applied replaces every rule of its id; one that is
   said to be there already counts as done, but the recorded state does not change. A removal takes both.
   */
  function Execute(op: Operation, answer: Answer, actual: seq<ActualRule>): seq<ActualRule>
  {
    match op
    case UpdatePolicy(r) =>
      if answer.Applied? then Without(actual, r.id) + [ActualRule(r.id, r.action, answer.handle, r.flow)] else actual
    case RemovePolicy(id) => if answer.Refused? then actual else Without(actual, id)
    case _ => actual
  }

  function ExecuteAll(ops: seq<Operation>, answers: seq<Answer>, actual: seq<ActualRule>): seq<ActualRule>
    requires |answers| == |ops|
  {
    if |ops| == 0 then actual
    else
      var n := |ops| - 1;
      Execute(ops[n], answers[n], ExecuteAll(ops[..n], answers[..n], actual))
  }

  /** The report's success: no operation on a rule was refused. */
  predicate Reports(ops: seq<Operation>, answers: seq<Answer>)
    requires |answers| == |ops|
  {
    forall i | 0 <= i < |ops| && (ops[i].UpdatePolicy? || ops[i].RemovePolicy?) :: !answers[i].Refused?
  }

  /** The daemon's side of the executor: it asks the mechanism and mirrors what was done. */
  class ExecutorAdapter {
    var activeRules: seq<ActualRule>

    constructor (actual: seq<ActualRule>)
      ensures activeRules == actual
    {
      activeRules := actual;
    }

    /** `answers` is what the mechanism will say, operation by operation. */
    method ExecutePlan(ops: seq<Operation>, answers: seq<Answer>) returns (success: bool)
      requires |answers| == |ops|
      modifies this
      ensures activeRules == ExecuteAll(ops, answers, old(activeRules)) && success == Reports(ops, answers)
    {
      hide Without;
      var failed := 0;
      for i := 0 to |ops|
        invariant activeRules == ExecuteAll(ops[..i], answers[..i], old(activeRules))
        invariant failed >= 0 && (failed == 0 <==> Reports(ops[..i], answers[..i]))
      {
        ReportsOneMore(ops, answers, i);
        assert ops[..i + 1][..i] == ops[..i] && answers[..i + 1][..i] == answers[..i];
        match ops[i]
        case UpdatePolicy(rule) =>
          match answers[i] {
            case Applied(handle) =>
              activeRules := Without(activeRules, rule.id);
              activeRules := activeRules + [ActualRule(rule.id, rule.action, handle, rule.flow)];
            case AlreadyApplied =>
            case Refused => failed := failed + 1;
          }
        case RemovePolicy(id) =>
          if answers[i].Refused? {
            failed := failed + 1;
          } else {
            activeRules := Without(activeRules, id);
          }
        case _ =>
      }
      assert ops[..|ops|] == ops && answers[..|ops|] == answers;
      success := failed == 0;
    }
  }

  lemma ReportsOneMore(ops: seq<Operation>, answers: seq<Answer>, i: nat)
    requires |answers| == |ops| && i < |ops|
    ensures Reports(ops[..i + 1], answers[..i + 1]) <==>
      && Reports(ops[..i], answers[..i])
      && (ops[i].UpdatePolicy? || ops[i].RemovePolicy? ==> !answers[i].Refused?)
  {
    var more, said := ops[..i + 1], answers[..i + 1];
    assert forall k | 0 <= k < i :: more[k] == ops[..i][k] && said[k] == answers[..i][k];
    assert more[i] == ops[i] && said[i] == answers[i];
  }

  /** Every desired rule is in force, and nothing else is. */
  ghost predicate Converged(desired: seq<DesiredRule>, actual: seq<ActualRule>)
  {
    && (forall r <- desired :: Satisfied(r, actual))
    && (forall id: U32 :: First(actual, id).Some? ==> Wanted(id, desired))
  }

  /** Rules that share an id ask for the same thing. */
  predicate Consistent(desired: seq<DesiredRule>)
  {
    forall r, s | r in desired && s in desired && r.id == s.id :: r.action == s.action && r.flow == s.flow
  }

  lemma {:induction false} FirstMember(actual: seq<ActualRule>, id: U32)
    ensures First(actual, id).Some? <==> exists a <- actual :: a.id == id
  {
    if |actual| > 0 {
      FirstMember(actual[1..], id);
      assert actual == [actual[0]] + actual[1..];
    }
  }

  /** An empty plan means exactly that the states agree; it is then that the generation stands still. */
  lemma EmptyPlanIsConverged(desired: seq<DesiredRule>, actual: seq<ActualRule>, generation: nat)
    ensures
      var plan := PlanFor(desired, actual, generation);
      && (plan.IsEmpty() <==> Converged(desired, actual))
      && plan.before == generation && plan.after == (if plan.IsEmpty() then generation else generation + 1)
  {
    hide First, Satisfied, Wanted, Updates, Removals;
    var ops := Steps(desired, actual);
    forall id: U32
      ensures First(actual, id).Some? <==> exists a <- actual :: a.id == id
    {
      FirstMember(actual, id);
    }
    if |ops| > 0 {
      assert ops[0] in PlanFor(desired, actual, generation).operations;
      if ops[0] in Updates(desired, actual) {
      } else {
        assert ops[0] in Removals(actual, desired);
      }
    } else {
      assert Updates(desired, actual) == [] && Removals(actual, desired) == [];
    }
  }

  lemma {:induction false} FirstWithout(actual: seq<ActualRule>, gone: U32, id: U32)
    ensures First(Without(actual, gone), id) == if id == gone then None else First(actual, id)
  {
    if |actual| > 0 {
      FirstWithout(actual[1..], gone, id);
      if actual[0].id != gone {
        assert ([actual[0]] + Without(actual[1..], gone))[1..] == Without(actual[1..], gone);
      }
    }
  }

  lemma {:induction false} FirstAppend(actual: seq<ActualRule>, a: ActualRule, id: U32)
    ensures First(actual + [a], id) ==
            if First(actual, id).Some? then First(actual, id) else if a.id == id then Some(a) else None
  {
    if |actual| == 0 {
      assert actual + [a] == [a];
    } else {
      FirstAppend(actual[1..], a, id);
      assert (actual + [a])[1..] == actual[1..] + [a];
    }
  }

  /** What a list of operations does to an id: the last word that was taken. */
  datatype Effect = Untouched | Set(rule: DesiredRule, handle: Option<U32>) | Gone

  function EffectOf(ops: seq<Operation>, answers: seq<Answer>, id: U32): Effect
    requires |answers| == |ops|
  {
    if |ops| == 0 then Untouched
    else
      var n := |ops| - 1;
      if Renews(ops[n], answers[n], id) then Set(ops[n].rule, answers[n].handle)
      else if Drops(ops[n], answers[n], id) then Gone
      else EffectOf(ops[..n], answers[..n], id)
  }

  /** The operation put a rule of this id in force. */
  predicate Renews(op: Operation, answer: Answer, id: U32)
  {
    op.UpdatePolicy? && op.rule.id == id && answer.Applied?
  }

  /** The operation took the rules of this id away. */
  predicate Drops(op: Operation, answer: Answer, id: U32)
  {
    op == RemovePolicy(id) && !answer.Refused?
  }

  lemma {:induction false} FirstAfter(ops: seq<Operation>, answers: seq<Answer>, actual: seq<ActualRule>, id: U32)
    requires |answers| == |ops|
    ensures First(ExecuteAll(ops, answers, actual), id) ==
            match EffectOf(ops, answers, id)
            case Untouched => First(actual, id)
            case Gone => None
            case Set(r, handle) => Some(ActualRule(id, r.action, handle, r.flow))
  {
    hide First, Without;
    if |ops| > 0 {
      var n := |ops| - 1;
      FirstAfter(ops[..n], answers[..n], actual, id);
      var mid := ExecuteAll(ops[..n], answers[..n], actual);
      match ops[n]
      case UpdatePolicy(r) =>
        if answers[n].Applied? {
          FirstWithout(mid, r.id, id);
          FirstAppend(Without(mid, r.id), ActualRule(r.id, r.action, answers[n].handle, r.flow), id);
        }
      case RemovePolicy(x) => FirstWithout(mid, x, id);
      case _ =>
    }
  }

  ghost predicate SomeRenews(ops: seq<Operation>, answers: seq<Answer>, id: U32)
    requires |answers| == |ops|
  {
    exists i | 0 <= i < |ops| :: Renews(ops[i], answers[i], id)
  }

  ghost predicate SomeDrops(ops: seq<Operation>, answers: seq<Answer>, id: U32)
    requires |answers| == |ops|
  {
    exists i | 0 <= i < |ops| :: Drops(ops[i], answers[i], id)
  }

  /** The effect comes from some operation on the id that was taken, and there is none only if none was. */
  lemma {:induction false} EffectSource(ops: seq<Operation>, answers: seq<Answer>, id: U32)
    requires |answers| == |ops|
    ensures
      match EffectOf(ops, answers, id)
      case Set(r, _) => UpdatePolicy(r) in ops && r.id == id && SomeRenews(ops, answers, id)
      case Gone => RemovePolicy(id) in ops && SomeDrops(ops, answers, id)
      case Untouched => !SomeRenews(ops, answers, id) && !SomeDrops(ops, answers, id)
  {
    if |ops| > 0 {
      var n := |ops| - 1;
      EffectSource(ops[..n], answers[..n], id);
      assert forall i | 0 <= i < n :: ops[..n][i] == ops[i] && answers[..n][i] == answers[i];
    }
  }

  /** What the plan needed was taken: a rule for every id with an unmet wish, and every removal. */
  ghost predicate Carried(desired: seq<DesiredRule>, actual: seq<ActualRule>, answers: seq<Answer>)
    requires |answers| == |Steps(desired, actual)|
  {
    var ops := Steps(desired, actual);
    && (forall r <- desired :: !Satisfied(r, actual) ==> SomeRenews(ops, answers, r.id))
    && (forall a <- actual :: !Wanted(a.id, desired) ==> SomeDrops(ops, answers, a.id))
  }

  /**
   After the plan: an unwanted id is gone exactly if it was not there or its removal was taken; a wanted one
   holds what some unmet wish for it asked, if an update for it was applied, and is as before otherwise.
   */
  lemma PlannedEffect(desired: seq<DesiredRule>, actual: seq<ActualRule>, answers: seq<Answer>, id: U32)
    requires |answers| == |Steps(desired, actual)|
    ensures
      var ops := Steps(desired, actual);
      var out := First(ExecuteAll(ops, answers, actual), id);
      if !Wanted(id, desired) then out == if SomeDrops(ops, answers, id) then None else First(actual, id)
      else if SomeRenews(ops, answers, id) then
        out.Some? && exists r <- desired :: r.id == id && out.value.action == r.action && out.value.flow == r.flow
      else out == First(actual, id)
  {
    hide First, Satisfied, Updates, Removals, ExecuteAll, EffectOf;
    var ops := Steps(desired, actual);
    FirstAfter(ops, answers, actual, id);
    EffectSource(ops, answers, id);
    assert forall op <- ops :: op in Updates(desired, actual) || op in Removals(actual, desired);
    if SomeDrops(ops, answers, id) {
      var i :| 0 <= i < |ops| && Drops(ops[i], answers[i], id);
      assert ops[i] in ops;
    }
    if SomeRenews(ops, answers, id) {
      var i :| 0 <= i < |ops| && Renews(ops[i], answers[i], id);
      assert ops[i] in ops;
    }
  }

  /**
   Executing the plan reaches the desired state exactly when the desired rules do not contradict each other
   and the mechanism took what the plan needed. Nothing is assumed of the actual rules or of the answers.
   */
  lemma ConvergesExactly(desired: seq<DesiredRule>, actual: seq<ActualRule>, answers: seq<Answer>)
    requires |answers| == |Steps(desired, actual)|
    ensures Converged(desired, ExecuteAll(Steps(desired, actual), answers, actual)) <==>
            Consistent(desired) && Carried(desired, actual, answers)
  {
    hide First, Steps, ExecuteAll, Satisfied, SomeRenews, SomeDrops, Wanted;
    var ops := Steps(desired, actual);
    var out := ExecuteAll(ops, answers, actual);
    forall id: U32
      ensures Wanted(id, desired) || (First(out, id).None? <==> First(actual, id).None? || SomeDrops(ops, answers, id))
    {
      PlannedEffect(desired, actual, answers, id);
    }
    forall id: U32
      ensures First(actual, id).Some? <==> exists a <- actual :: a.id == id
    {
      FirstMember(actual, id);
    }
    forall r | r in desired
      ensures Satisfied(r, out) && !Satisfied(r, actual) ==> SomeRenews(ops, answers, r.id)
      ensures Consistent(desired) && (Satisfied(r, actual) || SomeRenews(ops, answers, r.id)) ==> Satisfied(r, out)
    {
      WishAfter(desired, actual, answers, r);
    }
    if Converged(desired, out) {
      AgreeingIsConsistent(desired, out);
    }
  }

  lemma WishAfter(desired: seq<DesiredRule>, actual: seq<ActualRule>, answers: seq<Answer>, r: DesiredRule)
    requires |answers| == |Steps(desired, actual)| && r in desired
    ensures
      var ops := Steps(desired, actual);
      var out := ExecuteAll(ops, answers, actual);
      && (Satisfied(r, out) && !Satisfied(r, actual) ==> SomeRenews(ops, answers, r.id))
      && (Consistent(desired) && (Satisfied(r, actual) || SomeRenews(ops, answers, r.id)) ==> Satisfied(r, out))
  {
    hide First, Steps, ExecuteAll, SomeRenews, SomeDrops;
    PlannedEffect(desired, actual, answers, r.id);
  }

  lemma AgreeingIsConsistent(desired: seq<DesiredRule>, actual: seq<ActualRule>)
    requires forall r <- desired :: Satisfied(r, actual)
    ensures Consistent(desired)
  {
  }

  /** The next plan is empty exactly in that case. */
  lemma Converges(desired: seq<DesiredRule>, actual: seq<ActualRule>, generation: nat, answers: seq<Answer>)
    requires |answers| == |Steps(desired, actual)|
    ensures
      var out := ExecuteAll(Steps(desired, actual), answers, actual);
      && (Converged(desired, out) <==> Consistent(desired) && Carried(desired, actual, answers))
      && (PlanFor(desired, out, generation).IsEmpty() <==> Consistent(desired) && Carried(desired, actual, answers))
  {
    hide Steps, ExecuteAll, Converged, Consistent, Carried, PlanFor;
    ConvergesExactly(desired, actual, answers);
    EmptyPlanIsConverged(desired, ExecuteAll(Steps(desired, actual), answers, actual), generation);
  }

  /** If everything is applied, only a contradiction among the wishes is in the way. */
  lemma AppliedConverges(desired: seq<DesiredRule>, actual: seq<ActualRule>, generation: nat, answers: seq<Answer>)
    requires |answers| == |Steps(desired, actual)| && forall a <- answers :: a.Applied?
    ensures
      var out := ExecuteAll(Steps(desired, actual), answers, actual);
      PlanFor(desired, out, generation).IsEmpty() <==> Consistent(desired)
  {
    hide ExecuteAll, PlanFor, Consistent, Satisfied, Wanted, Updates, Removals;
    Converges(desired, actual, generation, answers);
    var ops := Steps(desired, actual);
    forall r | r in desired && !Satisfied(r, actual)
      ensures SomeRenews(ops, answers, r.id)
    {
      assert UpdatePolicy(r) in ops;
      var i :| 0 <= i < |ops| && ops[i] == UpdatePolicy(r);
      assert answers[i] in answers && Renews(ops[i], answers[i], r.id);
    }
    forall a | a in actual && !Wanted(a.id, desired)
      ensures SomeDrops(ops, answers, a.id)
    {
      assert RemovePolicy(a.id) in ops;
      var i :| 0 <= i < |ops| && ops[i] == RemovePolicy(a.id);
      assert answers[i] in answers && Drops(ops[i], answers[i], a.id);
    }
  }

  /** Two wishes for one id: the second overwrites the first, and the next plan is not empty. */
  lemma ConflictNeverConverges(answers: seq<Answer>)
    requires |answers| == |Steps([DesiredRule(1, Block, 0, None), DesiredRule(1, Allow, 0, None)], [])|
    ensures
      var wishes := [DesiredRule(1, Block, 0, None), DesiredRule(1, Allow, 0, None)];
      !PlanFor(wishes, ExecuteAll(Steps(wishes, []), answers, []), 0).IsEmpty()
  {
    hide Steps, ExecuteAll, PlanFor, Carried;
    var a, b := DesiredRule(1, Block, 0, None), DesiredRule(1, Allow, 0, None);
    assert a in [a, b] && b in [a, b];
    Converges([a, b], [], 0, answers);
  }

  /** A mechanism that says a missing rule is there already: a report of success that changes nothing. */
  lemma StaleAnswerChangesNothing(r: DesiredRule)
    ensures
      && Steps([r], []) == [UpdatePolicy(r)] && Reports([UpdatePolicy(r)], [AlreadyApplied])
      && ExecuteAll(Steps([r], []), [AlreadyApplied], []) == []
  {
    assert [r][..0] == [];
    assert Updates([r], []) == Updates([], []) + [UpdatePolicy(r)];
    var ops := [UpdatePolicy(r)];
    assert ops[..0] == [];
  }
}
