/** `POST /decide` in its own form: local variables reassigned step by step around
    side-effecting calls, run while everything else moves between its steps. Each
    step it takes is a step of the system in module Decide. */
module GatewayRoute {
  import opened Wrappers
  import opened Decide
  import opened RemoteWrite
  import opened DecideAnswers

  predicate Elsewhere(act: Act, i: nat) { act.Step? ==> act.i != i }

  /** The call after others moved: only its ledger writes may have been settled. */
  predicate OnlySettled(c: Call, c': Call) {
    && c' == c.(intent := c'.intent, decision := c'.decision)
    && (c.intent.NotSent? ==> c'.intent.NotSent?)
    && (c.decision.NotSent? ==> c'.decision.NotSent?)
  }

  lemma {:induction false} OthersOnlySettle(w: World, act: Act, i: nat)
    requires i < |w.calls| && Elsewhere(act, i)
    ensures i < |Apply(w, act).calls| && OnlySettled(w.calls[i], Apply(w, act).calls[i])
  {
    match act
    case ArriveIntent(k) =>
    case ArriveDecision(k) =>
    case _ =>
  }

  lemma {:induction false} DecisionKnown(start: World, trace: seq<Act>, i: nat)
    requires Idle(start) && i < |Run(start, trace).calls| && Run(start, trace).calls[i].decision.Landed?
    ensures DecisionAt(Run(start, trace).log, i, Run(start, trace).calls[i].decision.tx)
  {
    RunKeeps(start, trace);
  }

  /** Everything an answer rests on. */
  lemma {:induction false} AnswerRests(start: World, trace: seq<Act>, i: nat)
    requires Idle(start) && i < |Run(start, trace).calls| && Run(start, trace).calls[i].stage.Answered?
    ensures var end := Run(start, trace);
            var c, r := end.calls[i], end.calls[i].stage.response;
            && (r.approved || r.result.Some? ==>
                  r.approved && r.ledgerTx.Some? && DecisionAt(end.log, i, r.ledgerTx.value)
                  && end.log[r.ledgerTx.value - 1].outcome == PolicyAllow)
            && (r.ledgerTx.Some? ==> DecisionAt(end.log, i, r.ledgerTx.value))
            && (c.executed ==> exists t :: IntentAt(end.log, i, t))
            && (c.executed || r.approved || r.result.Some? ==> c.dict && c.valid && PolicySays(start, trace, i, Allows(true)))
            && (r.result.Some? ==> ToolReturned(start, trace, i, r.result.value))
  {
    RunKeeps(start, trace);
    ApprovedMeansRecorded(start, trace, i);
    OnlyThePolicyAllows(start, trace, i);
    var end := Run(start, trace);
    if end.calls[i].executed { assert IntentAt(end.log, i, end.calls[i].intent.tx); }
  }

  class Gateway {
    var w: World
    ghost const start: World
    ghost var trace: seq<Act>

    ghost predicate Valid()
      reads this
    {
      w == Run(start, trace)
    }

    constructor (world: World)
      ensures Valid() && w == world && start == world && trace == []
    {
      w := world;
      start := world;
      trace := [];
    }

    ghost predicate At(i: nat, stage: Stage)
      reads this
    {
      Valid() && i < |w.calls| && w.calls[i].stage == stage
    }

    method Others(i: nat)
      requires Valid() && i < |w.calls|
      modifies this
      ensures Valid() && old(trace) <= trace
      ensures i < |w.calls| && OnlySettled(old(w.calls[i]), w.calls[i])
    {
      var acts: seq<Act> := *;
      for k := 0 to |acts|
        invariant Valid() && old(trace) <= trace
        invariant i < |w.calls| && OnlySettled(old(w.calls[i]), w.calls[i])
      {
        var act := acts[k];
        if !act.Step? || act.i != i {
          OthersOnlySettle(w, act, i);
          RunSnoc(start, trace, act);
          w := Apply(w, act);
          trace := trace + [act];
        }
      }
    }

    /** One step of this call: what it leaves behind must be what the step system says. */
    method Take(i: nat, c: Call, ghost choice: Choice)
      requires Valid() && i < |w.calls| && c == Advance(w.calls[i], choice)
      modifies this
      ensures Valid() && old(trace) <= trace
      ensures |w.calls| == |old(w.calls)| && w.calls[i] == c
    {
      RunSnoc(start, trace, Step(i, choice));
      w := Put(w, i, c);
      trace := trace + [Step(i, choice)];
    }

    /** `log_tool_intent`: raises (`ok` false) unless the write came back verified. */
    method LogIntent(i: nat) returns (ok: bool)
      requires At(i, WriteIntent) && !w.calls[i].refused
      modifies this
      ensures Valid() && old(trace) <= trace && i < |w.calls|
      ensures var was := old(w.calls[i]);
              w.calls[i] == (if ok then was else Failed(was, IntentWriteFailed))
                              .(stage := if ok then Execute else WriteDecision, refused := !ok,
                                intent := w.calls[i].intent, decision := w.calls[i].decision)
      ensures Idle(start) && ok ==> exists t :: IntentAt(w.log, i, t)
    {
      var built: bool := *;
      if !built {
        Take(i, Failed(w.calls[i], IntentWriteFailed).(stage := WriteDecision, refused := true), Fail);
        return false;
      }
      Take(i, w.calls[i].(stage := IntentSent, intent := InFlight), Proceed);
      Others(i);
      var raised: bool := *;
      ok := !raised && w.calls[i].intent.Landed?;
      if ok {
        Take(i, w.calls[i].(stage := Execute), Proceed);
        if Idle(start) {
          RunKeeps(start, trace);
          assert IntentAt(w.log, i, w.calls[i].intent.tx);
        }
      } else {
        Take(i, Failed(w.calls[i], IntentWriteFailed).(stage := WriteDecision, refused := true), Fail);
      }
    }

    /** The mediated tool: its text, or nothing when it raised. */
    method ExecuteTool(i: nat) returns (text: Option<string>)
      requires At(i, Execute)
      modifies this
      ensures Valid() && old(trace) <= trace && i < |w.calls|
      ensures var was := old(w.calls[i]);
              w.calls[i] == (if text.Some? then was.(result := text) else Failed(was, ToolExecutionFailed))
                              .(stage := WriteDecision, executed := true,
                                intent := w.calls[i].intent, decision := w.calls[i].decision)
    {
      Take(i, w.calls[i].(stage := Running, executed := true), Proceed);
      Others(i);
      text := *;
      if text.Some? {
        Take(i, w.calls[i].(stage := WriteDecision, result := text), Result(text.value));
      } else {
        Take(i, Failed(w.calls[i], ToolExecutionFailed).(stage := WriteDecision), Fail);
      }
    }

    /** `log_tool_call`: the transaction, or nothing when it raised. */
    method LogDecision(i: nat) returns (tx: Option<nat>)
      requires At(i, WriteDecision)
      modifies this
      ensures Valid() && old(trace) <= trace && i < |w.calls| && SameAsked(old(w.calls[i]), w.calls[i])
      ensures var was := old(w.calls[i]);
              w.calls[i].stage == Answered(if tx.Some? then Response(was.outcome.PolicyAllow?, was.result, tx)
                                           else Response(false, None, None))
      ensures Idle(start) && tx.Some? ==> DecisionAt(w.log, i, tx.value)
    {
      var built: bool := *;
      if !built {
        Take(i, Respond(Failed(w.calls[i], VerifierUnreachable), None), Fail);
        return None;
      }
      Take(i, w.calls[i].(stage := DecisionSent, decision := InFlight, recorded := w.calls[i].outcome), Proceed);
      tx := AwaitDecision(i);
    }

    /** The reply to the decision write, or its loss. */
    method AwaitDecision(i: nat) returns (tx: Option<nat>)
      requires At(i, DecisionSent)
      modifies this
      ensures Valid() && old(trace) <= trace && i < |w.calls| && SameAsked(old(w.calls[i]), w.calls[i])
      ensures var was := old(w.calls[i]);
              w.calls[i].stage == Answered(if tx.Some? then Response(was.outcome.PolicyAllow?, was.result, tx)
                                           else Response(false, None, None))
      ensures Idle(start) && tx.Some? ==> DecisionAt(w.log, i, tx.value)
    {
      Others(i);
      var raised: bool := *;
      if raised || !w.calls[i].decision.Landed? {
        Take(i, Respond(Failed(w.calls[i], VerifierUnreachable), None), Fail);
        return None;
      }
      tx := Some(w.calls[i].decision.tx);
      Take(i, Respond(w.calls[i], tx), Proceed);
      if Idle(start) { DecisionKnown(start, trace, i); }
    }

    /** `query_opa_policy`: the arguments' shape and schema, then the policy service, whose answer is taken only
        when it is one. */
    method QueryPolicy(dict: bool, valid: bool, answer: PolicyAnswer) returns (outcome: Outcome)
      ensures outcome == Evaluate(dict, valid, Policy(answer))
      ensures outcome.PolicyAllow? <==> dict && valid && answer == Allows(true)
    {
      if !dict { return SchemaDeny; }
      if !valid { return SchemaDeny; }
      match answer
      case NoAnswer => outcome := Fault(OpaUnreachable);
      case Undefined => outcome := Fault(RevisionUnavailable);
      case Malformed => outcome := Fault(MalformedPolicyResponse);
      case Allows(allow) => outcome := if allow then PolicyAllow else PolicyDeny;
    }

    /** The request up to the branch on its content: policy, then the content store. */
    method Prepare(vault: bool, dict: bool, valid: bool) returns (i: nat, outcome: Outcome, content: Option<Content>)
      requires Valid()
      modifies this
      ensures Valid() && old(trace) <= trace && i < |w.calls|
      ensures w.calls[i] == AfterContent(NewCall(vault, dict, valid).(stage := StoreContent, outcome := outcome, content := content))
      ensures content.None? ==> !outcome.PolicyAllow?
    {
      i := |w.calls|;
      RunSnoc(start, trace, Start(vault, dict, valid));
      w := Apply(w, Start(vault, dict, valid));
      trace := trace + [Start(vault, dict, valid)];
      var answer: PolicyAnswer := *;
      outcome := QueryPolicy(dict, valid, answer);
      Take(i, w.calls[i].(stage := StoreContent, outcome := outcome), Policy(answer));
      Others(i);
      if dict {
        var stored: bool := *;
        if stored {
          content := Some(ContentPresent);
        } else {
          outcome := Fault(ContentStoreUnreachable);
          content := None;
        }
      } else {
        content := Some(ContentUnavailable);
      }
      Take(i, AfterContent(w.calls[i].(outcome := outcome, content := content)), if content.None? then Fail else Proceed);
    }

    /** `POST /decide`. Whichever steps fail and whatever else runs meanwhile: APPROVED
        and any result come only with a decision record that says policy_allow, at the
        transaction named; a mediated tool ran only if its intent is in the ledger. */
    method Decide(vault: bool, dict: bool, valid: bool) returns (i: nat, response: Response)
      requires Valid() && Idle(start)
      modifies this
      ensures Valid() && old(trace) <= trace
      ensures i < |w.calls| && w.calls[i].stage == Answered(response)
      ensures response.approved || response.result.Some? ==>
                response.approved && response.ledgerTx.Some? && DecisionAt(w.log, i, response.ledgerTx.value)
                && w.log[response.ledgerTx.value - 1].outcome == PolicyAllow
      ensures response.ledgerTx.Some? ==> DecisionAt(w.log, i, response.ledgerTx.value)
      ensures w.calls[i].executed ==> exists t :: IntentAt(w.log, i, t)
      // The tool ran, and the agent was told so, only on the policy's own word; a result is what the tool returned.
      ensures w.calls[i].executed || response.approved || response.result.Some? ==>
                dict && valid && PolicySays(start, trace, i, Allows(true))
      ensures response.result.Some? ==> ToolReturned(start, trace, i, response.result.value)
    {
      var outcome, content;
      i, outcome, content := Prepare(vault, dict, valid);
      var result, ledgerTx: Option<nat> := None, None;
      if outcome.PolicyAllow? && vault && content.Some? {
        var ok := LogIntent(i);
        if !ok {
          outcome := Fault(IntentWriteFailed);
        } else {
          result := ExecuteTool(i);
          if result.None? {
            outcome := Fault(ToolExecutionFailed);
          }
        }
      }
      if content.Some? {
        ledgerTx := LogDecision(i);
        if ledgerTx.None? {
          outcome := Fault(VerifierUnreachable);
          result := None;
        }
      }
      response := Response(outcome.PolicyAllow?, result, ledgerTx);
      AnswerRests(start, trace, i);
    }
  }
}
