/** What a mediated call's execution, its answer and its decision record rest on: what the
    policy answered, at the one step of the run that asked it. */
module DecideAnswers {
  import opened Wrappers
  import opened Decide
  import opened RemoteWrite

  // ----- the step that asked the policy -----

  /** Step `k` of the run takes call `i` past its policy evaluation. */
  ghost predicate AsksAt(w: World, acts: seq<Act>, k: int, i: nat, choice: Choice) {
    && 0 <= k < |acts| && acts[k] == Step(i, choice) && !choice.Crash?
    && i < |Run(w, acts[..k]).calls| && Run(w, acts[..k]).calls[i].stage.AskPolicy?
  }

  /** The policy service answered this, when it was asked. */
  ghost predicate PolicySays(w: World, acts: seq<Act>, i: nat, answer: PolicyAnswer) {
    exists k :: AsksAt(w, acts, k, i, Policy(answer))
  }

  /** It was asked and could not be reached. */
  ghost predicate PolicySilent(w: World, acts: seq<Act>, i: nat) {
    exists k, choice :: AsksAt(w, acts, k, i, choice) && (!choice.Policy? || choice.answer.NoAnswer?)
  }

  /** Step `k` is the tool of call `i` coming back with `text`. */
  ghost predicate ReturnsAt(w: World, acts: seq<Act>, k: int, i: nat, text: string) {
    && 0 <= k < |acts| && acts[k] == Step(i, Result(text))
    && i < |Run(w, acts[..k]).calls| && Run(w, acts[..k]).calls[i].stage.Running?
  }

  ghost predicate ToolReturned(w: World, acts: seq<Act>, i: nat, text: string) { exists k :: ReturnsAt(w, acts, k, i, text) }

  predicate FailsTool(c: Call, choice: Choice) { c.stage.Running? && !choice.Result? && !choice.Crash? }

  /** Step `k` is the tool of call `i` raising. */
  ghost predicate FailsAt(w: World, acts: seq<Act>, k: int, i: nat) {
    && 0 <= k < |acts| && acts[k].Step? && acts[k].i == i
    && i < |Run(w, acts[..k]).calls| && FailsTool(Run(w, acts[..k]).calls[i], acts[k].choice)
  }

  ghost predicate ToolFailed(w: World, acts: seq<Act>, i: nat) { exists k :: FailsAt(w, acts, k, i) }

  // ----- what the call carries of it -----

  /** What the decision record should say: the verdict, unless an allowed call was refused or its tool raised. */
  function Final(c: Call, v: Outcome, toolFailed: bool): Outcome {
    if c.refused then Fault(IntentWriteFailed) else if toolFailed then Fault(ToolExecutionFailed) else v
  }

  /** What a call past its evaluation carries of the verdict `v` on it. */
  predicate Carries(c: Call, v: Outcome, toolFailed: bool) {
    && !Place(c).AskPolicy? && (Place(c).StoreContent? ==> c.content.None?)
    && (Place(c).StoreContent? || Mediating(Place(c)) ==> c.outcome == v && !toolFailed && !c.refused)
    && (Deciding(Place(c)) ==> c.outcome == Final(c, v, toolFailed))
    && (!c.decision.NotSent? ==> c.recorded == Final(c, v, toolFailed))
    && (Place(c).StoreContent? || Mediating(Place(c)) || Place(c).WriteDecision? ==> c.decision.NotSent?)
    && (c.executed || c.refused || toolFailed || Mediating(Place(c)) ==> v.PolicyAllow?)
  }

  lemma {:induction false} MediatedCarries(c: Call, choice: Choice, v: Outcome, toolFailed: bool)
    requires Carries(c, v, toolFailed)
    ensures c.stage.WriteIntent? ==> Carries(IntentStep(c, choice, false), v, toolFailed)
    ensures c.stage.IntentSent? ==> Carries(IntentStep(c, choice, true), v, toolFailed)
    ensures c.stage.Running? ==> Carries(ToolStep(c, choice), v, toolFailed || !choice.Result?)
  {
  }

  lemma {:induction false} StoreCarries(c: Call, choice: Choice, v: Outcome, toolFailed: bool)
    requires Carries(c, v, toolFailed) && c.stage.StoreContent?
    ensures Carries(StoreStep(c, choice), v, toolFailed)
  {
  }

  lemma {:induction false} DecisionCarries(c: Call, choice: Choice, v: Outcome, toolFailed: bool)
    requires Carries(c, v, toolFailed) && Deciding(c.stage)
    ensures Carries(DecisionStep(c, choice, c.stage.DecisionSent?), v, toolFailed)
  {
  }

  lemma {:induction false} LocalCarries(c: Call, v: Outcome, toolFailed: bool)
    requires Carries(c, v, toolFailed)
    ensures !c.stage.Crashed? ==> Carries(c.(stage := Crashed(c.stage)), v, toolFailed)
    ensures c.stage.Execute? ==> Carries(c.(stage := Running, executed := true), v, toolFailed)
  {
  }

  lemma {:induction false} AdvanceCarries(c: Call, choice: Choice, v: Outcome, toolFailed: bool)
    requires Carries(c, v, toolFailed)
    ensures Carries(Advance(c, choice), v, toolFailed || FailsTool(c, choice))
  {
    LocalCarries(c, v, toolFailed);
    MediatedCarries(c, choice, v, toolFailed);
    if c.stage.StoreContent? { StoreCarries(c, choice, v, toolFailed); }
    if Deciding(c.stage) { DecisionCarries(c, choice, v, toolFailed); }
  }

  lemma {:induction false} AskCarries(c: Call, choice: Choice)
    requires StageOk(c) && c.stage.AskPolicy? && c.content.None? && !choice.Crash?
    ensures Carries(Advance(c, choice), Evaluate(c.dict, c.valid, choice), false)
  {
  }

  /** The facts about a call of a run that its fields hold of the steps behind it. */
  ghost predicate Told(w: World, acts: seq<Act>, i: nat, c: Call) {
    && (Place(c).AskPolicy? ==> !c.executed && c.result.None? && c.content.None? && c.decision.NotSent? && !c.refused && !ToolFailed(w, acts, i)
                                && forall k, choice :: !AsksAt(w, acts, k, i, choice))
    && (!Place(c).AskPolicy? ==>
          exists k, choice :: AsksAt(w, acts, k, i, choice) && Carries(c, Evaluate(c.dict, c.valid, choice), ToolFailed(w, acts, i)))
    && (c.result.Some? ==> ToolReturned(w, acts, i, c.result.value))
  }

  lemma {:induction false} AsksOnward(w: World, init: seq<Act>, act: Act, k: int, i: nat, choice: Choice)
    ensures var u := Run(w, init);
            AsksAt(w, init + [act], k, i, choice) <==>
              || AsksAt(w, init, k, i, choice)
              || (k == |init| && act == Step(i, choice) && !choice.Crash? && i < |u.calls| && u.calls[i].stage.AskPolicy?)
  {
    var acts := init + [act];
    assert 0 <= k <= |init| ==> acts[..k] == init[..k];
    assert init[..|init|] == init;
  }

  lemma {:induction false} FailsOnward(w: World, init: seq<Act>, act: Act, i: nat)
    ensures var u := Run(w, init);
            ToolFailed(w, init + [act], i) <==>
              ToolFailed(w, init, i) || (act.Step? && act.i == i && i < |u.calls| && FailsTool(u.calls[i], act.choice))
  {
    var acts := init + [act];
    forall k ensures FailsAt(w, acts, k, i) <==>
              || FailsAt(w, init, k, i)
              || (k == |init| && act.Step? && act.i == i && i < |Run(w, init).calls| && FailsTool(Run(w, init).calls[i], act.choice))
    {
      assert 0 <= k <= |init| ==> acts[..k] == init[..k];
      assert init[..|init|] == init;
    }
    if act.Step? && act.i == i && i < |Run(w, init).calls| && FailsTool(Run(w, init).calls[i], act.choice) {
      assert FailsAt(w, acts, |init|, i);
    }
    if k :| FailsAt(w, init, k, i) { assert FailsAt(w, acts, k, i); }
  }

  lemma {:induction false} ReturnsOnward(w: World, init: seq<Act>, act: Act, i: nat, text: string)
    ensures ToolReturned(w, init, i, text) ==> ToolReturned(w, init + [act], i, text)
    ensures var u := Run(w, init);
            act == Step(i, Result(text)) && i < |u.calls| && u.calls[i].stage.Running? ==> ToolReturned(w, init + [act], i, text)
  {
    var acts := init + [act];
    if k :| ReturnsAt(w, init, k, i, text) {
      assert acts[..k] == init[..k];
      assert ReturnsAt(w, acts, k, i, text);
    }
    var u := Run(w, init);
    if act == Step(i, Result(text)) && i < |u.calls| && u.calls[i].stage.Running? {
      assert acts[..|init|] == init;
      assert ReturnsAt(w, acts, |init|, i, text);
    }
  }

  /** A step of someone else leaves a call's own account as it was. */
  predicate OnlyWires(c: Call, c': Call) {
    && c' == c.(intent := c'.intent, decision := c'.decision)
    && (c.intent.NotSent? <==> c'.intent.NotSent?) && (c.decision.NotSent? <==> c'.decision.NotSent?)
  }

  lemma {:induction false} OthersTouchWires(w: World, act: Act, i: nat)
    requires i < |w.calls| && !(act.Step? && act.i == i)
    ensures i < |Apply(w, act).calls| && OnlyWires(w.calls[i], Apply(w, act).calls[i])
  {
    match act
    case ArriveIntent(k) =>
    case ArriveDecision(k) =>
    case _ =>
  }

  lemma {:induction false} OthersKeepTold(w: World, init: seq<Act>, act: Act, i: nat)
    requires i < |Run(w, init).calls| && Told(w, init, i, Run(w, init).calls[i]) && !(act.Step? && act.i == i)
    ensures i < |Apply(Run(w, init), act).calls| && Told(w, init + [act], i, Apply(Run(w, init), act).calls[i])
  {
    var u := Run(w, init);
    var c, c' := u.calls[i], Apply(u, act).calls[i];
    OthersTouchWires(u, act, i);
    FailsOnward(w, init, act, i);
    forall k, choice ensures AsksAt(w, init + [act], k, i, choice) <==> AsksAt(w, init, k, i, choice) {
      AsksOnward(w, init, act, k, i, choice);
    }
    if c.result.Some? { ReturnsOnward(w, init, act, i, c.result.value); }
    if !Place(c).AskPolicy? {
      var k, choice :| AsksAt(w, init, k, i, choice) && Carries(c, Evaluate(c.dict, c.valid, choice), ToolFailed(w, init, i));
      WiresCarry(c, c', Evaluate(c.dict, c.valid, choice), ToolFailed(w, init, i));
      assert AsksAt(w, init + [act], k, i, choice);
    }
  }

  lemma {:induction false} WiresCarry(c: Call, c': Call, v: Outcome, toolFailed: bool)
    requires OnlyWires(c, c') && Carries(c, v, toolFailed)
    ensures Carries(c', v, toolFailed)
  {
  }

  lemma {:induction false} AskingTold(w: World, init: seq<Act>, i: nat, choice: Choice)
    requires i < |Run(w, init).calls| && StageOk(Run(w, init).calls[i]) && Told(w, init, i, Run(w, init).calls[i])
    requires Place(Run(w, init).calls[i]).AskPolicy?
    ensures Told(w, init + [Step(i, choice)], i, Advance(Run(w, init).calls[i], choice))
  {
    var c, act := Run(w, init).calls[i], Step(i, choice);
    AdvanceMoves(c, choice);
    FailsOnward(w, init, act, i);
    forall k, ch { AsksOnward(w, init, act, k, i, ch); }
    if c.stage.AskPolicy? && !choice.Crash? {
      AskCarries(c, choice);
      AsksOnward(w, init, act, |init|, i, choice);
      assert AsksAt(w, init + [act], |init|, i, choice);
    }
  }

  lemma {:induction false} AdvancingTold(w: World, init: seq<Act>, i: nat, choice: Choice)
    requires i < |Run(w, init).calls| && StageOk(Run(w, init).calls[i]) && Told(w, init, i, Run(w, init).calls[i])
    requires !Place(Run(w, init).calls[i]).AskPolicy?
    ensures Told(w, init + [Step(i, choice)], i, Advance(Run(w, init).calls[i], choice))
  {
    var c, act := Run(w, init).calls[i], Step(i, choice);
    var c' := Advance(c, choice);
    AdvanceMoves(c, choice);
    FailsOnward(w, init, act, i);
    var k, asked :| AsksAt(w, init, k, i, asked) && Carries(c, Evaluate(c.dict, c.valid, asked), ToolFailed(w, init, i));
    AsksOnward(w, init, act, k, i, asked);
    AdvanceCarries(c, choice, Evaluate(c.dict, c.valid, asked), ToolFailed(w, init, i));
    if c'.result.Some? { ReturnsOnward(w, init, act, i, c'.result.value); }
  }

  lemma {:induction false} NewIsTold(w: World, init: seq<Act>, act: Act, i: nat)
    requires i >= |Run(w, init).calls| && i < |Apply(Run(w, init), act).calls|
    ensures Told(w, init + [act], i, Apply(Run(w, init), act).calls[i])
  {
    FailsOnward(w, init, act, i);
    NothingBefore(w, init, i);
    forall k, choice ensures !AsksAt(w, init + [act], k, i, choice) { AsksOnward(w, init, act, k, i, choice); }
  }

  lemma {:induction false} NothingBefore(w: World, acts: seq<Act>, i: nat)
    requires i >= |Run(w, acts).calls|
    ensures !ToolFailed(w, acts, i) && forall k, choice :: !AsksAt(w, acts, k, i, choice)
  {
    forall k | 0 <= k < |acts| ensures i >= |Run(w, acts[..k]).calls| {
      RunSplit(w, acts[..k], acts[k..]);
      assert acts[..k] + acts[k..] == acts;
      CallsGrow(Run(w, acts[..k]), acts[k..]);
    }
  }

  lemma {:induction false} RunTells(w: World, acts: seq<Act>, i: nat)
    requires Idle(w) && i < |Run(w, acts).calls|
    ensures Told(w, acts, i, Run(w, acts).calls[i])
    decreases |acts|
  {
    if acts != [] {
      var init, act := acts[..|acts| - 1], acts[|acts| - 1];
      assert acts == init + [act];
      RunSnoc(w, init, act);
      RunKeeps(w, init);
      var u := Run(w, init);
      if i >= |u.calls| {
        NewIsTold(w, init, act, i);
      } else {
        RunTells(w, init, i);
        if act.Step? && act.i == i {
          if Place(u.calls[i]).AskPolicy? { AskingTold(w, init, i, act.choice); } else { AdvancingTold(w, init, i, act.choice); }
        } else {
          OthersKeepTold(w, init, act, i);
        }
      }
    }
  }

  // ----- main results -----

  lemma {:induction false} OneAsk(w: World, acts: seq<Act>, j: int, k: int, i: nat, a: Choice, b: Choice)
    requires Idle(w) && AsksAt(w, acts, j, i, a) && AsksAt(w, acts, k, i, b)
    ensures j == k && a == b
  {
    if j < k { AskedBefore(w, acts, j, k, i, a); }
    if k < j { AskedBefore(w, acts, k, j, i, b); }
  }

  lemma {:induction false} AskedBefore(w: World, acts: seq<Act>, j: int, k: int, i: nat, a: Choice)
    requires Idle(w) && AsksAt(w, acts, j, i, a) && j < k < |acts| && i < |Run(w, acts[..k]).calls|
    ensures !Run(w, acts[..k]).calls[i].stage.AskPolicy?
  {
    assert acts[..k][..j] == acts[..j] && acts[..k][j] == acts[j];
    assert AsksAt(w, acts[..k], j, i, a);
    RunTells(w, acts[..k], i);
  }

  /** A tool is started, and an agent told APPROVED or handed a result, only when the policy itself allowed the
      call: at the one step that asked it, with object arguments that satisfy the tool's schema. A result handed
      over is the one the tool returned. */
  lemma {:induction false} OnlyThePolicyAllows(w: World, acts: seq<Act>, i: nat)
    requires Idle(w) && i < |Run(w, acts).calls|
    ensures var c := Run(w, acts).calls[i];
            && (c.executed || (c.stage.Answered? && (c.stage.response.approved || c.stage.response.result.Some?)) ==>
                  c.dict && c.valid && PolicySays(w, acts, i, Allows(true)))
            && (c.stage.Answered? && c.stage.response.result.Some? ==> ToolReturned(w, acts, i, c.stage.response.result.value))
  {
    RunTells(w, acts, i);
    RunKeeps(w, acts);
    var c := Run(w, acts).calls[i];
    AnsweredResult(w, acts, i);
    if !Place(c).AskPolicy? {
      var k, choice :| AsksAt(w, acts, k, i, choice) && Carries(c, Evaluate(c.dict, c.valid, choice), ToolFailed(w, acts, i));
      if c.executed || (c.stage.Answered? && (c.stage.response.approved || c.stage.response.result.Some?)) {
        AllowedMeans(w, acts, k, i, choice, c);
      }
    }
  }

  /** What an answer hands over is what the call holds. */
  lemma {:induction false} AnsweredResult(w: World, acts: seq<Act>, i: nat)
    requires Idle(w) && i < |Run(w, acts).calls|
    ensures HandsOver(Run(w, acts).calls[i])
    decreases |acts|
  {
    if acts != [] {
      var init, act := acts[..|acts| - 1], acts[|acts| - 1];
      assert acts == init + [act];
      RunSnoc(w, init, act);
      RunKeeps(w, init);
      var u := Run(w, init);
      if i < |u.calls| {
        AnsweredResult(w, init, i);
        if act.Step? && act.i == i { AdvanceMoves(u.calls[i], act.choice); } else { OthersTouchWires(u, act, i); }
      }
    }
  }

  lemma {:induction false} AllowedMeans(w: World, acts: seq<Act>, k: int, i: nat, choice: Choice, c: Call)
    requires AsksAt(w, acts, k, i, choice) && StageOk(c)
    requires Carries(c, Evaluate(c.dict, c.valid, choice), ToolFailed(w, acts, i))
    requires c.executed || (c.stage.Answered? && (c.stage.response.approved || c.stage.response.result.Some?))
    ensures c.dict && c.valid && PolicySays(w, acts, i, Allows(true))
  {
    assert Evaluate(c.dict, c.valid, choice).PolicyAllow?;
    assert choice == Policy(Allows(true));
  }

  /** What the decision record of a call says, exactly: a schema denial for arguments that are no object or do not
      satisfy the schema; otherwise the policy's own denial, or the fault of the way it failed to answer; and of an
      allowed call, that its intent write raised, that its tool raised, or policy_allow. */
  lemma {:induction false} RecordCarriesVerdict(w: World, acts: seq<Act>, i: nat, t: int)
    requires Idle(w) && DecisionAt(Run(w, acts).log, i, t)
    ensures i < |Run(w, acts).calls|
    ensures var c := Run(w, acts).calls[i];
            var o := Run(w, acts).log[t - 1].outcome;
            var asked := c.dict && c.valid;
            && (o == SchemaDeny <==> !asked)
            && (o == PolicyDeny <==> asked && PolicySays(w, acts, i, Allows(false)))
            && (o == Fault(OpaUnreachable) <==> asked && PolicySilent(w, acts, i))
            && (o == Fault(RevisionUnavailable) <==> asked && PolicySays(w, acts, i, Undefined))
            && (o == Fault(MalformedPolicyResponse) <==> asked && PolicySays(w, acts, i, Malformed))
            && (o == Fault(IntentWriteFailed) <==> IntentRaised(w, acts, i))
            && (o == Fault(ToolExecutionFailed) <==> !IntentRaised(w, acts, i) && ToolFailed(w, acts, i))
            && (o == PolicyAllow <==> asked && PolicySays(w, acts, i, Allows(true))
                                      && !IntentRaised(w, acts, i) && !ToolFailed(w, acts, i))
  {
    var k, choice := RecordIsFinal(w, acts, i, t);
    var c := Run(w, acts).calls[i];
    RefusedMeansRaised(w, acts, i);
    VerdictIs(w, acts, k, i, choice);
    FinalSays(c, choice, ToolFailed(w, acts, i));
  }

  /** What became of an asked call, by what the policy was told to say and whether its intent write or its tool raised. */
  lemma {:induction false} FinalSays(c: Call, choice: Choice, toolFailed: bool)
    requires c.refused || toolFailed ==> Evaluate(c.dict, c.valid, choice).PolicyAllow?
    ensures var o := Final(c, Evaluate(c.dict, c.valid, choice), toolFailed);
            var asked := c.dict && c.valid;
            && (o == SchemaDeny <==> !asked)
            && (o == PolicyDeny <==> asked && choice == Policy(Allows(false)))
            && (o == Fault(OpaUnreachable) <==> asked && (!choice.Policy? || choice.answer.NoAnswer?))
            && (o == Fault(RevisionUnavailable) <==> asked && choice == Policy(Undefined))
            && (o == Fault(MalformedPolicyResponse) <==> asked && choice == Policy(Malformed))
            && (o == Fault(IntentWriteFailed) <==> c.refused)
            && (o == Fault(ToolExecutionFailed) <==> !c.refused && toolFailed)
            && (o == PolicyAllow <==> asked && choice == Policy(Allows(true)) && !c.refused && !toolFailed)
  {
  }

  lemma {:induction false} RecordIsFinal(w: World, acts: seq<Act>, i: nat, t: int) returns (k: int, choice: Choice)
    requires Idle(w) && DecisionAt(Run(w, acts).log, i, t)
    ensures i < |Run(w, acts).calls| && AsksAt(w, acts, k, i, choice)
    ensures var c := Run(w, acts).calls[i];
            && Run(w, acts).log[t - 1].outcome == Final(c, Evaluate(c.dict, c.valid, choice), ToolFailed(w, acts, i))
            && (c.refused || ToolFailed(w, acts, i) ==> Evaluate(c.dict, c.valid, choice).PolicyAllow?)
  {
    RunKeeps(w, acts);
    var end := Run(w, acts);
    assert end.log[t - 1].callId == i && i < |end.calls|;
    var c := end.calls[i];
    assert WiresOk(end.log, i, c) && StageOk(c);
    RunTells(w, acts, i);
    assert c.decision == Landed(t as nat);
    k, choice :| AsksAt(w, acts, k, i, choice) && Carries(c, Evaluate(c.dict, c.valid, choice), ToolFailed(w, acts, i));
  }

  /** The step that asked is the only one, so what the policy said is what that step was told. */
  lemma {:induction false} VerdictIs(w: World, acts: seq<Act>, k: int, i: nat, choice: Choice)
    requires Idle(w) && AsksAt(w, acts, k, i, choice)
    ensures forall answer :: PolicySays(w, acts, i, answer) <==> choice == Policy(answer)
    ensures PolicySilent(w, acts, i) <==> !choice.Policy? || choice.answer.NoAnswer?
  {
    forall answer ensures PolicySays(w, acts, i, answer) <==> choice == Policy(answer) {
      if j :| AsksAt(w, acts, j, i, Policy(answer)) { OneAsk(w, acts, j, k, i, Policy(answer), choice); }
    }
    if j, other :| AsksAt(w, acts, j, i, other) && (!other.Policy? || other.answer.NoAnswer?) {
      OneAsk(w, acts, j, k, i, other, choice);
    }
  }

  // ----- the arguments' copy in the content store -----

  /** Past its content step a call holds what became of the copy: kept for arguments that are an object, not
      attempted for others, and nothing where the store failed, which ends the call. */
  predicate ContentOk(c: Call) {
    && (c.content == Some(ContentPresent) ==> c.dict) && (c.content == Some(ContentUnavailable) ==> !c.dict)
    && (Mediating(Place(c)) || Deciding(Place(c)) || !c.intent.NotSent? || !c.decision.NotSent? ==> c.content.Some?)
    && (c.stage.Answered? && c.content.None? ==> !c.stage.response.approved && c.stage.response.ledgerTx.None?)
  }

  lemma {:induction false} StoreContentOk(c: Call, choice: Choice)
    requires ContentOk(c) && c.stage.StoreContent? && c.intent.NotSent? && c.decision.NotSent?
    ensures ContentOk(StoreStep(c, choice))
  {
  }

  lemma {:induction false} OtherContentOk(c: Call, choice: Choice)
    requires ContentOk(c)
    ensures Mediating(c.stage) ==> forall sent :: ContentOk(IntentStep(c, choice, sent))
    ensures c.stage.Running? ==> ContentOk(ToolStep(c, choice))
    ensures Deciding(c.stage) ==> forall sent :: ContentOk(DecisionStep(c, choice, sent))
    ensures !c.stage.Crashed? && !c.stage.Answered? ==> ContentOk(c.(stage := Crashed(c.stage)))
    ensures c.stage.AskPolicy? ==> forall o :: ContentOk(c.(stage := StoreContent, outcome := o))
    ensures c.stage.Execute? ==> ContentOk(c.(stage := Running, executed := true))
  {
  }

  lemma {:induction false} AdvanceContentOk(c: Call, choice: Choice)
    requires ContentOk(c) && StageOk(c)
    ensures ContentOk(Advance(c, choice))
  {
    OtherContentOk(c, choice);
    if c.stage.StoreContent? { StoreContentOk(c, choice); }
  }

  /** In every run. */
  lemma {:induction false} ContentIsExact(w: World, acts: seq<Act>, i: nat)
    requires Idle(w) && i < |Run(w, acts).calls|
    ensures ContentOk(Run(w, acts).calls[i])
    decreases |acts|
  {
    if acts != [] {
      var init, act := acts[..|acts| - 1], acts[|acts| - 1];
      assert acts == init + [act];
      RunSnoc(w, init, act);
      RunKeeps(w, init);
      var u := Run(w, init);
      if i < |u.calls| {
        ContentIsExact(w, init, i);
        if act.Step? && act.i == i { AdvanceContentOk(u.calls[i], act.choice); } else { OthersTouchWires(u, act, i); }
      }
    }
  }
}
