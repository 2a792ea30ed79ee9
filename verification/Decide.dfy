/** The mediated call: policy, content store, write-ahead intent, execution,
    decision record. Each is a remote step that may fail, and the gateway may die
    between any two; any number of calls interleave over one ordered ledger,
    whose views list the records that landed, in commit order. */
module Decide {
  import opened Wrappers
  import opened RemoteWrite
  import AuditPage

  datatype FaultClass =
    | OpaUnreachable | RevisionUnavailable | MalformedPolicyResponse
    | ContentStoreUnreachable | IntentWriteFailed | ToolExecutionFailed | VerifierUnreachable

  /** What the policy service answers: nothing, no result, a result that is not one, or its verdict. */
  datatype PolicyAnswer = NoAnswer | Undefined | Malformed | Allows(allow: bool)

  datatype Outcome = PolicyAllow | PolicyDeny | SchemaDeny | Fault(reason: FaultClass)

  datatype Record = Intent(callId: nat) | Decision(callId: nat, outcome: Outcome) | Other

  /** What the agent gets back; `approved` is the status APPROVED. */
  datatype Response = Response(approved: bool, result: Option<string>, ledgerTx: Option<nat>)

  datatype Stage =
    | AskPolicy
    | StoreContent
    | WriteIntent
    | IntentSent
    | Execute
    | Running
    | WriteDecision
    | DecisionSent
    | Answered(response: Response)
    | Crashed(at: Stage)

  datatype Content = ContentPresent | ContentUnavailable

  /** One call. `vault`: the tool this gateway runs itself; `dict`: the arguments
      are an object; `valid`: they satisfy the tool's registered schema; `recorded`: the outcome its decision record carries; `refused`: its intent
      write raised, so execution was refused. */
  datatype Call = Call(vault: bool, dict: bool, valid: bool, stage: Stage, outcome: Outcome, content: Option<Content>,
                       result: Option<string>, recorded: Outcome, intent: Wire, decision: Wire, executed: bool, refused: bool)

  /** Call ids are minted fresh, so a call's id is its index. */
  datatype World = World(log: seq<Record>, calls: seq<Call>)

  datatype Choice = Policy(answer: PolicyAnswer) | Proceed | Fail | Result(text: string) | Crash

  datatype Act =
    | Start(vault: bool, dict: bool, valid: bool)
    | Step(i: nat, choice: Choice)
    | ArriveIntent(i: nat)
    | ArriveDecision(i: nat)
    | DropIntent(i: nat)
    | DropDecision(i: nat)
    | Unrelated

  /** A step changes where a call is, never what it was asked with. */
  predicate SameAsked(c: Call, c': Call) { c'.vault == c.vault && c'.dict == c.dict && c'.valid == c.valid }

  function Respond(c: Call, tx: Option<nat>): (c': Call)
    ensures SameAsked(c, c')
  {
    c.(stage := Answered(Response(c.outcome.PolicyAllow?, c.result, tx)))
  }

  /** Every failure on the way to the agent overwrites the outcome and drops what it would have returned. */
  function Failed(c: Call, reason: FaultClass): (c': Call)
    ensures SameAsked(c, c')
  {
    c.(outcome := Fault(reason), result := None)
  }

  function AfterContent(c: Call): (c': Call)
    ensures SameAsked(c, c')
  {
    if c.content.None? then Respond(c, None)
    else if c.outcome.PolicyAllow? && c.vault then c.(stage := WriteIntent)
    else c.(stage := WriteDecision)
  }

  /** Schema validation first, then what the policy service made of the call. */
  function Evaluate(dict: bool, valid: bool, choice: Choice): Outcome {
    if !dict || !valid then SchemaDeny
    else match choice
    case Policy(Allows(allow)) => if allow then PolicyAllow else PolicyDeny
    case Policy(Undefined) => Fault(RevisionUnavailable)
    case Policy(Malformed) => Fault(MalformedPolicyResponse)
    case _ => Fault(OpaUnreachable)
  }

  function StoreStep(c: Call, choice: Choice): (c': Call)
    ensures SameAsked(c, c')
  {
    AfterContent(if !c.dict then c.(content := Some(ContentUnavailable))
                 else if choice.Fail? then Failed(c, ContentStoreUnreachable)
                 else c.(content := Some(ContentPresent)))
  }

  /** The intent write, from its building to its reply; `sent` when it is on the wire. */
  function IntentStep(c: Call, choice: Choice, sent: bool): (c': Call)
    ensures SameAsked(c, c')
  {
    if choice.Fail? then Failed(c, IntentWriteFailed).(stage := WriteDecision, refused := true)
    else if !sent then c.(stage := IntentSent, intent := InFlight)
    else if c.intent.Landed? then c.(stage := Execute)
    else c
  }

  function ToolStep(c: Call, choice: Choice): (c': Call)
    ensures SameAsked(c, c')
  {
    if choice.Result? then c.(stage := WriteDecision, result := Some(choice.text))
    else Failed(c, ToolExecutionFailed).(stage := WriteDecision)
  }

  function DecisionStep(c: Call, choice: Choice, sent: bool): (c': Call)
    ensures SameAsked(c, c')
  {
    if choice.Fail? then Respond(Failed(c, VerifierUnreachable), None)
    else if !sent then c.(stage := DecisionSent, decision := InFlight, recorded := c.outcome)
    else if c.decision.Landed? then Respond(c, Some(c.decision.tx))
    else c
  }

  function Advance(c: Call, choice: Choice): (c': Call)
    ensures SameAsked(c, c')
  {
    if choice.Crash? && !c.stage.Answered? && !c.stage.Crashed? then c.(stage := Crashed(c.stage))
    else match c.stage
    case AskPolicy => c.(stage := StoreContent, outcome := Evaluate(c.dict, c.valid, choice))
    case StoreContent => StoreStep(c, choice)
    case WriteIntent => IntentStep(c, choice, false)
    case IntentSent => IntentStep(c, choice, true)
    case Execute => c.(stage := Running, executed := true)
    case Running => ToolStep(c, choice)
    case WriteDecision => DecisionStep(c, choice, false)
    case DecisionSent => DecisionStep(c, choice, true)
    case _ => c
  }

  function NewCall(vault: bool, dict: bool, valid: bool): Call {
    Call(vault, dict, valid, AskPolicy, SchemaDeny, None, None, SchemaDeny, NotSent, NotSent, false, false)
  }

  function Put(w: World, i: nat, c: Call): World
    requires i < |w.calls|
  {
    w.(calls := w.calls[i := c])
  }

  predicate IntentInFlight(w: World, i: nat) { i < |w.calls| && w.calls[i].intent.InFlight? }

  predicate DecisionInFlight(w: World, i: nat) { i < |w.calls| && w.calls[i].decision.InFlight? }

  /** One step of the whole system; a step that does not apply changes nothing. */
  function Apply(w: World, act: Act): World {
    match act
    case Start(vault, dict, valid) => w.(calls := w.calls + [NewCall(vault, dict, valid)])
    case Step(i, choice) => if i < |w.calls| then Put(w, i, Advance(w.calls[i], choice)) else w
    case ArriveIntent(i) =>
      if IntentInFlight(w, i) then
        Put(w, i, w.calls[i].(intent := Landed(|w.log| + 1))).(log := w.log + [Intent(i)])
      else w
    case ArriveDecision(i) =>
      if DecisionInFlight(w, i) then
        Put(w, i, w.calls[i].(decision := Landed(|w.log| + 1))).(log := w.log + [Decision(i, w.calls[i].recorded)])
      else w
    case DropIntent(i) => if IntentInFlight(w, i) then Put(w, i, w.calls[i].(intent := Dropped)) else w
    case DropDecision(i) => if DecisionInFlight(w, i) then Put(w, i, w.calls[i].(decision := Dropped)) else w
    case Unrelated => w.(log := w.log + [Other])
  }

  function Run(w: World, acts: seq<Act>): World
    decreases |acts|
  {
    if acts == [] then w else Run(Apply(w, acts[0]), acts[1..])
  }

  predicate Idle(w: World) { w.calls == [] && forall t :: 0 <= t < |w.log| ==> w.log[t].Other? }

  // ----- what every step keeps -----

  predicate IntentAt(log: seq<Record>, i: nat, t: int) { 1 <= t <= |log| && log[t - 1] == Intent(i) }

  predicate DecisionAt(log: seq<Record>, i: nat, t: int) {
    1 <= t <= |log| && log[t - 1].Decision? && log[t - 1].callId == i
  }

  ghost predicate WiresOk(log: seq<Record>, i: nat, c: Call) {
    && (forall t: nat :: IntentAt(log, i, t) <==> c.intent == Landed(t))
    && (forall t: nat :: DecisionAt(log, i, t) <==> c.decision == Landed(t))
    && (forall t :: DecisionAt(log, i, t) ==> log[t - 1].outcome == c.recorded)
  }

  /** Where the call stands, or stood when its gateway died. */
  function Place(c: Call): Stage { if c.stage.Crashed? then c.stage.at else c.stage }

  /** Before the intent is on the wire; on the way to the tool and back; on the way to the decision record. */
  predicate Early(s: Stage) { s.AskPolicy? || s.StoreContent? || s.WriteIntent? }

  predicate Mediating(s: Stage) { s.WriteIntent? || s.IntentSent? || s.Execute? || s.Running? }

  predicate Deciding(s: Stage) { s.WriteDecision? || s.DecisionSent? }

  predicate NotYetRun(s: Stage) { Early(s) || s.IntentSent? || s.Execute? }

  predicate BeforeExecution(c: Call) { NotYetRun(Place(c)) }

  predicate StageOk(c: Call) {
    && !(c.stage.Crashed? && (c.stage.at.Crashed? || c.stage.at.Answered?))
    && (BeforeExecution(c) ==> !c.refused && !c.executed)
    && (Early(Place(c)) ==> c.intent.NotSent?)
    && (!BeforeExecution(c) && !c.intent.NotSent? ==> (c.executed <==> !c.refused))
    && (NotYetRun(c.stage) || c.stage.Running? || c.stage.WriteDecision? ==> c.decision.NotSent?)
    && (NotYetRun(c.stage) ==> c.result.None?)
    && (c.stage.Execute? || c.stage.Running? || c.executed ==> c.intent.Landed?)
    && (Mediating(c.stage) || c.result.Some? ==> c.outcome.PolicyAllow?)
    && (c.stage.Running? || c.result.Some? ==> c.executed)
    && (c.vault && c.outcome.PolicyAllow? && Deciding(c.stage) ==> c.result.Some?)
    && (c.stage.DecisionSent? ==> c.recorded == c.outcome)
    && (c.stage.Answered? ==> ResponseOk(c, c.stage.response))
  }

  predicate ResponseOk(c: Call, r: Response) {
    && (r.approved || r.result.Some? ==> r.approved && r.ledgerTx.Some? && c.recorded.PolicyAllow?)
    && (r.ledgerTx.Some? ==> c.decision == Landed(r.ledgerTx.value) && (r.approved <==> c.recorded.PolicyAllow?))
    && (r.approved && c.vault ==> r.result.Some?)
    && (r.result.Some? ==> c.executed)
  }

  ghost predicate Inv(w: World) {
    && (forall i :: 0 <= i < |w.calls| ==> WiresOk(w.log, i, w.calls[i]) && StageOk(w.calls[i]))
    && (forall t :: 0 <= t < |w.log| ==> w.log[t].Other? || w.log[t].callId < |w.calls|)
  }

  lemma {:induction false} AppendKeepsWires(log: seq<Record>, i: nat, c: Call, r: Record)
    requires WiresOk(log, i, c) && (r.Other? || r.callId != i)
    ensures WiresOk(log + [r], i, c)
  {
    forall t: nat ensures IntentAt(log + [r], i, t) <==> IntentAt(log, i, t) {}
    forall t: nat ensures DecisionAt(log + [r], i, t) <==> DecisionAt(log, i, t) {}
  }

  lemma {:induction false} LandKeepsWires(log: seq<Record>, i: nat, c: Call)
    requires WiresOk(log, i, c)
    ensures c.intent.InFlight? ==> WiresOk(log + [Intent(i)], i, c.(intent := Landed(|log| + 1)))
    ensures c.decision.InFlight? ==> WiresOk(log + [Decision(i, c.recorded)], i, c.(decision := Landed(|log| + 1)))
  {
    forall r: Record, t: nat ensures IntentAt(log + [r], i, t) <==> IntentAt(log, i, t) || (t == |log| + 1 && r == Intent(i)) {}
    forall r: Record, t: nat
      ensures DecisionAt(log + [r], i, t) <==> DecisionAt(log, i, t) || (t == |log| + 1 && r.Decision? && r.callId == i) {}
  }

  lemma {:induction false} StoreKeepsStage(c: Call, choice: Choice)
    requires StageOk(c) && c.stage.StoreContent?
    ensures StageOk(StoreStep(c, choice))
  {
  }

  lemma {:induction false} IntentKeepsStage(c: Call, choice: Choice)
    requires StageOk(c) && WritesIntent(c.stage)
    ensures StageOk(IntentStep(c, choice, c.stage.IntentSent?))
  {
  }

  lemma {:induction false} ToolKeepsStage(c: Call, choice: Choice)
    requires StageOk(c) && c.stage.Running?
    ensures StageOk(ToolStep(c, choice))
  {
  }

  lemma {:induction false} DecisionKeepsStage(c: Call, choice: Choice)
    requires StageOk(c) && Deciding(c.stage)
    ensures StageOk(DecisionStep(c, choice, c.stage.DecisionSent?))
  {
  }

  lemma {:induction false} LocalKeepsStage(c: Call)
    requires StageOk(c)
    ensures !c.stage.Answered? && !c.stage.Crashed? ==> StageOk(c.(stage := Crashed(c.stage)))
    ensures c.stage.AskPolicy? ==> forall o :: StageOk(c.(stage := StoreContent, outcome := o))
    ensures c.stage.Execute? ==> StageOk(c.(stage := Running, executed := true))
  {
  }

  lemma {:induction false} AdvanceKeepsStage(c: Call, choice: Choice)
    requires StageOk(c)
    ensures StageOk(Advance(c, choice))
  {
    LocalKeepsStage(c);
    match c.stage
    case StoreContent => StoreKeepsStage(c, choice);
    case WriteIntent => IntentKeepsStage(c, choice);
    case IntentSent => IntentKeepsStage(c, choice);
    case Running => ToolKeepsStage(c, choice);
    case WriteDecision => DecisionKeepsStage(c, choice);
    case DecisionSent => DecisionKeepsStage(c, choice);
    case _ =>
  }

  /** A write goes on the wire once, and what the decision says is fixed then. */
  predicate WiresAdvance(c: Call, c': Call) {
    && (c'.intent == c.intent || (c.intent.NotSent? && c'.intent.InFlight?))
    && (c'.decision == c.decision || (c.decision.NotSent? && c'.decision.InFlight?))
    && (c'.recorded == c.recorded || c.decision.NotSent?)
  }

  /** What is handed over is what the call holds. */
  predicate HandsOver(c: Call) { c.stage.Answered? ==> c.stage.response.result == c.result }

  /** A result comes from the tool and from nowhere else, and the policy is asked once. */
  predicate Moves(c: Call, choice: Choice, c': Call) {
    && WiresAdvance(c, c')
    && (c'.result == c.result || c'.result.None? || (c.stage.Running? && choice == Result(c'.result.value)))
    && (HandsOver(c) ==> HandsOver(c'))
    && (Place(c').AskPolicy? ==> Place(c).AskPolicy?)
  }

  lemma {:induction false} StoreMoves(c: Call, choice: Choice)
    requires c.stage.StoreContent?
    ensures Moves(c, choice, StoreStep(c, choice))
  {
  }

  lemma {:induction false} IntentMoves(c: Call, choice: Choice)
    requires StageOk(c) && WritesIntent(c.stage)
    ensures Moves(c, choice, IntentStep(c, choice, c.stage.IntentSent?))
  {
  }

  lemma {:induction false} ToolMoves(c: Call, choice: Choice)
    requires c.stage.Running?
    ensures Moves(c, choice, ToolStep(c, choice))
  {
  }

  lemma {:induction false} DecisionMoves(c: Call, choice: Choice)
    requires StageOk(c) && Deciding(c.stage)
    ensures Moves(c, choice, DecisionStep(c, choice, c.stage.DecisionSent?))
  {
  }

  lemma {:induction false} LocalMoves(c: Call, choice: Choice)
    ensures Moves(c, choice, c)
    ensures !c.stage.Answered? && !c.stage.Crashed? ==> Moves(c, choice, c.(stage := Crashed(c.stage)))
    ensures c.stage.AskPolicy? ==> forall o :: Moves(c, choice, c.(stage := StoreContent, outcome := o))
    ensures c.stage.Execute? ==> Moves(c, choice, c.(stage := Running, executed := true))
  {
  }

  lemma {:induction false} AdvanceMoves(c: Call, choice: Choice)
    requires StageOk(c)
    ensures Moves(c, choice, Advance(c, choice))
  {
    LocalMoves(c, choice);
    match c.stage
    case StoreContent => StoreMoves(c, choice);
    case WriteIntent => IntentMoves(c, choice);
    case IntentSent => IntentMoves(c, choice);
    case Running => ToolMoves(c, choice);
    case WriteDecision => DecisionMoves(c, choice);
    case DecisionSent => DecisionMoves(c, choice);
    case _ =>
  }

  lemma {:induction false} AdvanceKeepsWires(log: seq<Record>, i: nat, c: Call, choice: Choice)
    requires WiresOk(log, i, c) && StageOk(c)
    ensures WiresOk(log, i, Advance(c, choice))
  {
    AdvanceMoves(c, choice);
  }

  lemma {:induction false} ApplyKeeps(w: World, act: Act)
    requires Inv(w)
    ensures Inv(Apply(w, act)) && w.log <= Apply(w, act).log
  {
    match act
    case Start(vault, dict, valid) =>
      forall t ensures !IntentAt(w.log, |w.calls|, t) && !DecisionAt(w.log, |w.calls|, t) {}
    case Unrelated =>
      forall i | 0 <= i < |w.calls| ensures WiresOk(w.log + [Other], i, w.calls[i]) {
        AppendKeepsWires(w.log, i, w.calls[i], Other);
      }
    case Step(i, choice) =>
      if i < |w.calls| {
        AdvanceKeepsStage(w.calls[i], choice);
        AdvanceKeepsWires(w.log, i, w.calls[i], choice);
      }
    case ArriveIntent(i) => if IntentInFlight(w, i) { ArriveKeeps(w, i, Intent(i)); }
    case ArriveDecision(i) =>
      if DecisionInFlight(w, i) { ArriveKeeps(w, i, Decision(i, w.calls[i].recorded)); }
    case _ =>
  }

  lemma {:induction false} ArriveKeeps(w: World, i: nat, r: Record)
    requires Inv(w) && i < |w.calls|
    requires (r == Intent(i) && w.calls[i].intent.InFlight?)
             || (r == Decision(i, w.calls[i].recorded) && w.calls[i].decision.InFlight?)
    ensures Inv(Apply(w, if r.Intent? then ArriveIntent(i) else ArriveDecision(i)))
  {
    LandKeepsWires(w.log, i, w.calls[i]);
    forall k | 0 <= k < |w.calls| && k != i ensures WiresOk(w.log + [r], k, w.calls[k]) {
      AppendKeepsWires(w.log, k, w.calls[k], r);
    }
  }

  lemma {:induction false} RunKeeps(w: World, acts: seq<Act>)
    requires Inv(w)
    ensures Inv(Run(w, acts)) && w.log <= Run(w, acts).log
    decreases |acts|
  {
    if acts != [] {
      ApplyKeeps(w, acts[0]);
      RunKeeps(Apply(w, acts[0]), acts[1..]);
    }
  }

  // ----- main results about calls -----

  /** A mediated tool starts only once its intent record is in the ledger, in
      every run and whichever steps fail. */
  lemma {:induction false} ToolRunsOnlyAfterItsIntent(w: World, acts: seq<Act>, act: Act, i: nat)
    requires Idle(w) && i < |Run(w, acts).calls|
    requires !Run(w, acts).calls[i].executed && Apply(Run(w, acts), act).calls[i].executed
    ensures exists t :: IntentAt(Run(w, acts).log, i, t)
  {
    RunKeeps(w, acts);
    var now := Run(w, acts);
    assert IntentAt(now.log, i, now.calls[i].intent.tx);
  }

  /** APPROVED, and any returned result, is said only over a decision record that
      says policy_allow, at the transaction the response names; a mediated call is
      approved exactly when it returns what its tool, which ran, produced. */
  lemma {:induction false} ApprovedMeansRecorded(w: World, acts: seq<Act>, i: nat)
    requires Idle(w) && i < |Run(w, acts).calls| && Run(w, acts).calls[i].stage.Answered?
    ensures var end := Run(w, acts);
            var c := end.calls[i];
            var r := c.stage.response;
            && (r.approved || r.result.Some? ==>
                  r.approved && r.ledgerTx.Some? && DecisionAt(end.log, i, r.ledgerTx.value)
                  && end.log[r.ledgerTx.value - 1].outcome == PolicyAllow)
            && (r.ledgerTx.Some? ==>
                  && DecisionAt(end.log, i, r.ledgerTx.value)
                  && (r.approved <==> end.log[r.ledgerTx.value - 1].outcome == PolicyAllow))
            && (c.vault ==> (r.approved <==> r.result.Some?))
            && (r.result.Some? ==> c.executed)
  {
    RunKeeps(w, acts);
  }

  // ----- the audit's join -----

  datatype Row = Row(record: Record, tx: nat)

  datatype ExecutionState = Completed | NotApplicable | Unknown

  datatype AuditRow = AuditRow(callId: nat, state: ExecutionState)

  datatype Audit = Audit(rows: set<AuditRow>, hasMore: bool)

  predicate InView(decisions: bool, r: Record) { if decisions then r.Decision? else r.Intent? }

  /** A view's newest `limit` records, newest first. */
  function Newest(log: seq<Record>, decisions: bool, limit: nat): (rows: seq<Row>)
    ensures |rows| <= limit
    ensures forall k :: 0 <= k < |rows| ==>
              1 <= rows[k].tx <= |log| && rows[k].record == log[rows[k].tx - 1] && InView(decisions, rows[k].record)
  {
    if log == [] || limit == 0 then []
    else
      var last := |log| - 1;
      if InView(decisions, log[last]) then [Row(log[last], |log|)] + Newest(log[..last], decisions, limit - 1)
      else Newest(log[..last], decisions, limit)
  }

  function First(rows: seq<Row>, page: nat): seq<Row> { if |rows| > page then rows[..page] else rows }

  function CallIds(rows: seq<Row>): set<nat>
    requires forall k :: 0 <= k < |rows| ==> !rows[k].record.Other?
  {
    set k | 0 <= k < |rows| :: rows[k].record.callId
  }

  function Join(decided: set<nat>, intended: set<nat>): set<AuditRow> {
    (set i | i in decided :: AuditRow(i, if i in intended then Completed else NotApplicable))
    + (set i | i in intended && i !in decided :: AuditRow(i, Unknown))
  }

  /** One audit: the decision view is read first, then the intent view, each from
      some state of the ledger, and rows are joined by call id within the page. */
  function AuditOf(log: seq<Record>, limit: int, n: nat, m: nat): Audit
    requires n <= |log| && m <= |log|
  {
    var decisions := Newest(log[..n], true, AuditPage.ScanLimit(limit));
    var intents := Newest(log[..m], false, AuditPage.ScanLimit(limit));
    var page := AuditPage.PageLimit(limit);
    Audit(Join(CallIds(First(decisions, page)), CallIds(First(intents, page))),
          |decisions| > page || |intents| > page)
  }

  /** A scan that returned fewer rows than it asked for returned the whole view. */
  lemma {:induction false} ShortScanIsWhole(log: seq<Record>, decisions: bool, limit: nat, t: int)
    requires |Newest(log, decisions, limit)| < limit
    requires 1 <= t <= |log| && InView(decisions, log[t - 1])
    ensures Row(log[t - 1], t) in Newest(log, decisions, limit)
    decreases |log|
  {
    var last := |log| - 1;
    if t <= last {
      ShortScanIsWhole(log[..last], decisions, if InView(decisions, log[last]) then limit - 1 else limit, t);
    }
  }

  /** How many records a view holds. */
  function Count(log: seq<Record>, decisions: bool): nat {
    if log == [] then 0
    else Count(log[..|log| - 1], decisions) + (if InView(decisions, log[|log| - 1]) then 1 else 0)
  }

  lemma {:induction false} ScanLength(log: seq<Record>, decisions: bool, limit: nat)
    ensures |Newest(log, decisions, limit)| == if Count(log, decisions) < limit then Count(log, decisions) else limit
    decreases |log|
  {
    if log != [] && limit > 0 {
      var last := |log| - 1;
      ScanLength(log[..last], decisions, if InView(decisions, log[last]) then limit - 1 else limit);
    }
  }

  /** The flag is set exactly when either view, as scanned, holds more than the page shows. */
  lemma {:induction false} HasMoreIsExact(log: seq<Record>, limit: int, n: nat, m: nat)
    requires n <= |log| && m <= |log|
    ensures AuditOf(log, limit, n, m).hasMore <==>
              Count(log[..n], true) > AuditPage.PageLimit(limit) || Count(log[..m], false) > AuditPage.PageLimit(limit)
  {
    ScanLength(log[..n], true, AuditPage.ScanLimit(limit));
    ScanLength(log[..m], false, AuditPage.ScanLimit(limit));
  }

  predicate RecordedAt(log: seq<Record>, decisions: bool, i: nat, t: int) {
    if decisions then DecisionAt(log, i, t) else IntentAt(log, i, t)
  }

  lemma {:induction false} ShownIsRecorded(log: seq<Record>, decisions: bool, limit: nat, i: nat) returns (t: int)
    requires i in CallIds(Newest(log, decisions, limit))
    ensures RecordedAt(log, decisions, i, t) && Row(log[t - 1], t) in Newest(log, decisions, limit)
  {
    var rows := Newest(log, decisions, limit);
    var k :| 0 <= k < |rows| && rows[k].record.callId == i;
    t := rows[k].tx;
    assert rows[k] == Row(log[t - 1], t);
  }

  lemma {:induction false} RecordedIsShown(log: seq<Record>, decisions: bool, limit: nat, i: nat, t: int)
    requires |Newest(log, decisions, limit)| < limit && RecordedAt(log, decisions, i, t)
    ensures i in CallIds(Newest(log, decisions, limit))
  {
    var rows := Newest(log, decisions, limit);
    ShortScanIsWhole(log, decisions, limit, t);
    var k :| 0 <= k < |rows| && rows[k] == Row(log[t - 1], t);
  }

  lemma {:induction false} WholePage(log: seq<Record>, decisions: bool, limit: int, i: nat)
    requires |Newest(log, decisions, AuditPage.ScanLimit(limit))| <= AuditPage.PageLimit(limit)
    ensures i in CallIds(Newest(log, decisions, AuditPage.ScanLimit(limit))) <==> exists t :: RecordedAt(log, decisions, i, t)
  {
    var scan := AuditPage.ScanLimit(limit);
    if i in CallIds(Newest(log, decisions, scan)) { var t := ShownIsRecorded(log, decisions, scan, i); }
    if t :| RecordedAt(log, decisions, i, t) { RecordedIsShown(log, decisions, scan, i, t); }
  }

  lemma {:induction false} JoinShows(decided: set<nat>, intended: set<nat>, i: nat)
    ensures AuditRow(i, Completed) in Join(decided, intended) <==> i in decided && i in intended
    ensures AuditRow(i, Unknown) in Join(decided, intended) <==> i in intended && i !in decided
    ensures AuditRow(i, NotApplicable) in Join(decided, intended) <==> i in decided && i !in intended
  {
  }

  /** On an audit with `has_more` false, how each call shows is exactly what the
      two scans covered of its two records. */
  lemma {:induction false} UntruncatedAuditIsExact(log: seq<Record>, limit: int, n: nat, m: nat, i: nat)
    requires n <= |log| && m <= |log|
    ensures !AuditOf(log, limit, n, m).hasMore ==>
              var rows := AuditOf(log, limit, n, m).rows;
              var decided := exists t :: RecordedAt(log[..n], true, i, t);
              var intended := exists t :: RecordedAt(log[..m], false, i, t);
              && (AuditRow(i, Completed) in rows <==> decided && intended)
              && (AuditRow(i, Unknown) in rows <==> intended && !decided)
              && (AuditRow(i, NotApplicable) in rows <==> decided && !intended)
  {
    if AuditOf(log, limit, n, m).hasMore { return; }
    WholePage(log[..n], true, limit, i);
    WholePage(log[..m], false, limit, i);
    JoinShows(CallIds(Newest(log[..n], true, AuditPage.ScanLimit(limit))),
              CallIds(Newest(log[..m], false, AuditPage.ScanLimit(limit))), i);
  }

  /** A call whose intent the second scan covers shows as completed or unknown, by what the first covers. */
  lemma {:induction false} IntendedCallShows(log: seq<Record>, i: nat, c: Call, limit: int, n: nat, m: nat)
    requires WiresOk(log, i, c) && c.intent.Landed? && c.intent.tx <= m <= |log| && n <= |log|
    requires !AuditOf(log, limit, n, m).hasMore
    ensures var rows := AuditOf(log, limit, n, m).rows;
            && (AuditRow(i, Completed) in rows <==> c.decision.Landed? && c.decision.tx <= n)
            && (AuditRow(i, Unknown) in rows <==> !(c.decision.Landed? && c.decision.tx <= n))
            && AuditRow(i, NotApplicable) !in rows
  {
    UntruncatedAuditIsExact(log, limit, n, m, i);
    assert IntentAt(log, i, c.intent.tx) && RecordedAt(log[..m], false, i, c.intent.tx);
    forall t ensures RecordedAt(log[..n], true, i, t) <==> DecisionAt(log, i, t) && t <= n {}
    assert c.decision.Landed? ==> DecisionAt(log, i, c.decision.tx);
  }

  /** `t` is among a view's newest `page` records: fewer than `page` of them come after it. */
  predicate Among(log: seq<Record>, decisions: bool, page: nat, i: nat, t: int) {
    RecordedAt(log, decisions, i, t) && Count(log[t..], decisions) < page
  }

  lemma {:induction false} NewestIsAmong(log: seq<Record>, decisions: bool, page: nat, i: nat, t: int)
    requires RecordedAt(log, decisions, i, t)
    ensures Row(log[t - 1], t) in Newest(log, decisions, page) <==> Among(log, decisions, page, i, t)
    decreases |log|
  {
    var last := |log| - 1;
    if t == |log| {
      assert log[t..] == [];
    } else {
      assert log[t..][..|log[t..]| - 1] == log[..last][t..] && log[t..][|log[t..]| - 1] == log[last];
      if page > 0 {
        var rest := if InView(decisions, log[last]) then page - 1 else page;
        NewestIsAmong(log[..last], decisions, rest, i, t);
      }
    }
  }

  lemma {:induction false} FirstCons(row: Row, rest: seq<Row>, page: nat)
    requires page > 0
    ensures First([row] + rest, page) == [row] + First(rest, page - 1)
  {
  }

  /** The first rows of a longer scan are the shorter scan. */
  lemma {:induction false} PageOfScan(log: seq<Record>, decisions: bool, page: nat, scan: nat)
    requires page <= scan
    ensures First(Newest(log, decisions, scan), page) == Newest(log, decisions, page)
    decreases |log|
  {
    if log != [] && page > 0 {
      var last := |log| - 1;
      if InView(decisions, log[last]) {
        PageOfScan(log[..last], decisions, page - 1, scan - 1);
        FirstCons(Row(log[last], |log|), Newest(log[..last], decisions, scan - 1), page);
      } else {
        PageOfScan(log[..last], decisions, page, scan);
      }
    }
  }

  lemma {:induction false} OnPage(log: seq<Record>, decisions: bool, page: nat, i: nat)
    ensures i in CallIds(Newest(log, decisions, page)) <==> exists t :: Among(log, decisions, page, i, t)
  {
    if i in CallIds(Newest(log, decisions, page)) {
      var t := ShownIsRecorded(log, decisions, page, i);
      NewestIsAmong(log, decisions, page, i, t);
    }
    if t :| Among(log, decisions, page, i, t) {
      NewestIsAmong(log, decisions, page, i, t);
      RowGivesId(Newest(log, decisions, page), Row(log[t - 1], t));
    }
  }

  lemma {:induction false} RowGivesId(rows: seq<Row>, row: Row)
    requires row in rows && forall k :: 0 <= k < |rows| ==> !rows[k].record.Other?
    ensures row.record.callId in CallIds(rows)
  {
    var k :| 0 <= k < |rows| && rows[k] == row;
  }

  /** On any audit, truncated or not, how each call shows is exactly which of its records are on the page. */
  lemma {:induction false} AuditIsExact(log: seq<Record>, limit: int, n: nat, m: nat, i: nat)
    requires n <= |log| && m <= |log|
    ensures var rows, page := AuditOf(log, limit, n, m).rows, AuditPage.PageLimit(limit);
            var decided := exists t :: Among(log[..n], true, page, i, t);
            var intended := exists t :: Among(log[..m], false, page, i, t);
            && (AuditRow(i, Completed) in rows <==> decided && intended)
            && (AuditRow(i, Unknown) in rows <==> intended && !decided)
            && (AuditRow(i, NotApplicable) in rows <==> decided && !intended)
  {
    var page, scan := AuditPage.PageLimit(limit), AuditPage.ScanLimit(limit);
    PageOfScan(log[..n], true, page, scan);
    PageOfScan(log[..m], false, page, scan);
    OnPage(log[..n], true, page, i);
    OnPage(log[..m], false, page, i);
    JoinShows(CallIds(Newest(log[..n], true, page)), CallIds(Newest(log[..m], false, page)), i);
  }

  /** Every executed call shows, as completed or as unknown, on every untruncated
      audit whose intent scan reaches its intent; "unknown" then means no decision
      record in what the decision scan covered, and over a decision scan of the
      whole ledger, none at all. */
  lemma {:induction false} ExecutedCallsShow(w: World, acts: seq<Act>, limit: int, n: nat, m: nat, i: nat)
    requires Idle(w) && i < |Run(w, acts).calls| && Run(w, acts).calls[i].executed
    requires n <= |Run(w, acts).log| && m <= |Run(w, acts).log|
    ensures var end := Run(w, acts);
            var c := end.calls[i];
            c.intent.Landed? && (c.intent.tx <= m && !AuditOf(end.log, limit, n, m).hasMore ==>
              var rows := AuditOf(end.log, limit, n, m).rows;
              && (AuditRow(i, Completed) in rows <==> c.decision.Landed? && c.decision.tx <= n)
              && (AuditRow(i, Unknown) in rows <==> !(c.decision.Landed? && c.decision.tx <= n))
              && AuditRow(i, NotApplicable) !in rows
              && (n == |end.log| && AuditRow(i, Unknown) in rows ==> forall t :: !DecisionAt(end.log, i, t)))
  {
    RunKeeps(w, acts);
    var end := Run(w, acts);
    var c := end.calls[i];
    assert WiresOk(end.log, i, c);
    if c.intent.tx <= m && !AuditOf(end.log, limit, n, m).hasMore {
      IntendedCallShows(end.log, i, c, limit, n, m);
    }
  }

  /** No call its agent was told is APPROVED, or was handed a result for, shows as
      unknown on an untruncated audit whose decision scan reaches its record. */
  lemma {:induction false} ApprovedIsNeverUnknown(w: World, acts: seq<Act>, limit: int, n: nat, m: nat, i: nat)
    requires Idle(w) && i < |Run(w, acts).calls| && Run(w, acts).calls[i].stage.Answered?
    requires n <= |Run(w, acts).log| && m <= |Run(w, acts).log|
    ensures var end := Run(w, acts);
            var r := end.calls[i].stage.response;
            r.approved || r.result.Some? ==>
              && r.ledgerTx.Some?
              && (r.ledgerTx.value <= n && !AuditOf(end.log, limit, n, m).hasMore ==>
                    AuditRow(i, Unknown) !in AuditOf(end.log, limit, n, m).rows)
  {
    ApprovedMeansRecorded(w, acts, i);
    var end := Run(w, acts);
    UntruncatedAuditIsExact(end.log, limit, n, m, i);
    var tx := end.calls[i].stage.response.ledgerTx;
    assert tx.Some? && tx.value <= n ==> RecordedAt(end.log[..n], true, i, tx.value);
  }

  predicate WritesIntent(s: Stage) { s.WriteIntent? || s.IntentSent? }

  /** The intent write of call `i` raised at step `k` of the run: before it was sent, or on its reply. */
  ghost predicate RaisedAt(w: World, acts: seq<Act>, k: int, i: nat) {
    && 0 <= k < |acts| && acts[k] == Step(i, Fail) && i < |Run(w, acts[..k]).calls|
    && WritesIntent(Run(w, acts[..k]).calls[i].stage)
  }

  ghost predicate IntentRaised(w: World, acts: seq<Act>, i: nat) { exists k :: RaisedAt(w, acts, k, i) }

  /** A call was refused exactly when its intent write raised at some step of the run. */
  lemma {:induction false} RefusedMeansRaised(w: World, acts: seq<Act>, i: nat)
    requires w.calls == [] && i < |Run(w, acts).calls|
    ensures Run(w, acts).calls[i].refused <==> IntentRaised(w, acts, i)
    decreases |acts|
  {
    if acts != [] {
      var init, act := acts[..|acts| - 1], acts[|acts| - 1];
      assert acts == init + [act];
      RunSnoc(w, init, act);
      forall k ensures RaisedAt(w, acts, k, i) <==> RaisedAt(w, init, k, i) || (k == |init| && LastRaises(w, init, act, i)) {
        assert 0 <= k <= |init| ==> acts[..k] == init[..k];
        assert init[..|init|] == init;
      }
      assert LastRaises(w, init, act, i) ==> RaisedAt(w, acts, |init|, i);
      RefusedStep(Run(w, init), act, i);
      if i < |Run(w, init).calls| { RefusedMeansRaised(w, init, i); } else { NoneBeforeStart(w, init, i); }
    }
  }

  ghost predicate LastRaises(w: World, init: seq<Act>, act: Act, i: nat) {
    Raises(Run(w, init), act, i)
  }

  predicate Raises(w: World, act: Act, i: nat) {
    act == Step(i, Fail) && i < |w.calls| && WritesIntent(w.calls[i].stage)
  }

  lemma {:induction false} RefusedStep(w: World, act: Act, i: nat)
    ensures i < |w.calls| ==> (Apply(w, act).calls[i].refused <==> w.calls[i].refused || Raises(w, act, i))
    ensures i >= |w.calls| && i < |Apply(w, act).calls| ==> !Apply(w, act).calls[i].refused
  {
  }

  lemma {:induction false} CallsGrow(w: World, acts: seq<Act>)
    ensures |w.calls| <= |Run(w, acts).calls|
    decreases |acts|
  {
    if acts != [] { CallsGrow(Apply(w, acts[0]), acts[1..]); }
  }

  lemma {:induction false} NoneBeforeStart(w: World, acts: seq<Act>, i: nat)
    requires i >= |Run(w, acts).calls|
    ensures !IntentRaised(w, acts, i)
  {
    forall k | 0 <= k < |acts| ensures i >= |Run(w, acts[..k]).calls| {
      RunSplit(w, acts[..k], acts[k..]);
      assert acts[..k] + acts[k..] == acts;
      CallsGrow(Run(w, acts[..k]), acts[k..]);
    }
  }

  lemma {:induction false} RunSplit(w: World, a: seq<Act>, b: seq<Act>)
    ensures Run(w, a + b) == Run(Run(w, a), b)
    decreases |a|
  {
    if a == [] {
      assert a + b == b;
    } else {
      assert (a + b)[1..] == a[1..] + b;
      RunSplit(Apply(w, a[0]), a[1..], b);
    }
  }

  /** Of any call of any run whose intent landed, the tool was not started if and only if the intent write
      raised, or the call still stands, or died, before execution. */
  lemma {:induction false} NotExecutedExactlyWhen(w: World, acts: seq<Act>, i: nat)
    requires Idle(w) && i < |Run(w, acts).calls|
    ensures var end := Run(w, acts);
            (exists t :: IntentAt(end.log, i, t)) ==>
              (!end.calls[i].executed <==> IntentRaised(w, acts, i) || BeforeExecution(end.calls[i]))
  {
    RunKeeps(w, acts);
    RefusedMeansRaised(w, acts, i);
    assert WiresOk(Run(w, acts).log, i, Run(w, acts).calls[i]);
    if t :| IntentAt(Run(w, acts).log, i, t) { assert Run(w, acts).calls[i].intent == Landed(t as nat); }
  }

  /** What an `unknown` row says of execution, exactly, on any audit, truncated or not: there is such a call, its
      intent is in the ledger, and its tool was started unless the write raised or the call got no further. */
  lemma {:induction false} UnknownMeans(w: World, acts: seq<Act>, limit: int, n: nat, m: nat, i: nat)
    requires Idle(w) && n <= |Run(w, acts).log| && m <= |Run(w, acts).log|
    requires AuditRow(i, Unknown) in AuditOf(Run(w, acts).log, limit, n, m).rows
    ensures var end := Run(w, acts);
            && i < |end.calls| && (exists t :: IntentAt(end.log, i, t) && t <= m)
            && (end.calls[i].executed <==> !IntentRaised(w, acts, i) && !BeforeExecution(end.calls[i]))
  {
    var end := Run(w, acts);
    RunKeeps(w, acts);
    AuditIsExact(end.log, limit, n, m, i);
    var t :| Among(end.log[..m], false, AuditPage.PageLimit(limit), i, t);
    assert IntentAt(end.log, i, t);
    assert end.log[t - 1].callId < |end.calls|;
    NotExecutedExactlyWhen(w, acts, i);
  }

  // ----- where "unknown" says less than it seems, by example -----

  ghost predicate Reachable(w: World) { exists acts :: Run(World([], []), acts) == w }

  lemma {:induction false} RunSnoc(w: World, acts: seq<Act>, act: Act)
    ensures Run(w, acts + [act]) == Apply(Run(w, acts), act)
    decreases |acts|
  {
    if acts == [] {
      assert (acts + [act])[1..] == [];
    } else {
      assert (acts + [act])[1..] == acts[1..] + [act];
      RunSnoc(Apply(w, acts[0]), acts[1..], act);
    }
  }

  /** One more step of an example run with a single call. */
  lemma {:induction false} Next(v: World, act: Act, log: seq<Record>, c: Call)
    requires Reachable(v)
    requires var next := Apply(v, act);
             next.log == log && next.calls == [c]
    ensures Reachable(World(log, [c]))
  {
    var acts :| Run(World([], []), acts) == v;
    RunSnoc(World([], []), acts, act);
    assert Run(World([], []), acts + [act]) == World(log, [c]);
  }

  /** A mediated call whose policy said allow and whose arguments are stored, its intent on the wire. */
  const PENDING: Call :=
    Call(true, true, true, IntentSent, PolicyAllow, Some(ContentPresent), None, SchemaDeny, InFlight, NotSent, false, false)

  lemma {:induction false} PendingIsReachable()
    ensures Reachable(World([], [PENDING]))
  {
    assert Run(World([], []), []) == World([], []);
    var c0 := NewCall(true, true, true);
    Next(World([], []), Start(true, true, true), [], c0);
    var c1 := c0.(stage := StoreContent, outcome := PolicyAllow);
    Next(World([], [c0]), Step(0, Policy(Allows(true))), [], c1);
    var c2 := c1.(stage := WriteIntent, content := Some(ContentPresent));
    Next(World([], [c1]), Step(0, Proceed), [], c2);
    Next(World([], [c2]), Step(0, Proceed), [], PENDING);
  }

  lemma {:induction false} LoneIntentJoins()
    ensures Join(CallIds([]), CallIds([Row(Intent(0), 1)])) == {AuditRow(0, Unknown)}
  {
    var intended := CallIds([Row(Intent(0), 1)]);
    assert [Row(Intent(0), 1)][0].record.callId in intended;
    assert CallIds([]) == {} && intended == {0};
    forall r ensures r in Join({}, intended) <==> r == AuditRow(0, Unknown) { JoinShows({}, intended, r.callId); }
  }

  /** The two scans are two reads: a call whose records land between them shows
      as unknown although its decision record is in the ledger. */
  lemma {:induction false} UnknownBetweenScans()
    ensures AuditOf([Intent(0), Decision(0, PolicyAllow)], 100, 0, 2) == Audit({AuditRow(0, Unknown)}, false)
  {
    var log := [Intent(0), Decision(0, PolicyAllow)];
    assert log[..0] == [] && log[..2] == log && log[..1] == [Intent(0)];
    assert Newest(log, false, 101) == Newest([Intent(0)], false, 101) == [Row(Intent(0), 1)];
    LoneIntentJoins();
  }

  lemma {:induction false} LoneIntentShows()
    ensures AuditOf([Intent(0)], 100, 1, 1) == Audit({AuditRow(0, Unknown)}, false)
  {
    assert [Intent(0)][..1] == [Intent(0)];
    assert Newest([Intent(0)], false, 101) == [Row(Intent(0), 1)] && Newest([Intent(0)], true, 101) == [];
    LoneIntentJoins();
  }

  /** The same call after its intent write raised, landed all the same, and its decision write failed too. */
  const DENIED: Call :=
    PENDING.(stage := Answered(Response(false, None, None)), outcome := Fault(VerifierUnreachable), intent := Landed(1),
             refused := true)

  lemma {:induction false} DeniedIsReachable()
    ensures Reachable(World([Intent(0)], [DENIED]))
  {
    PendingIsReachable();
    var c1 := PENDING.(stage := WriteDecision, outcome := Fault(IntentWriteFailed), refused := true);
    Next(World([], [PENDING]), Step(0, Fail), [], c1);
    var c2 := c1.(intent := Landed(1));
    Next(World([], [c1]), ArriveIntent(0), [Intent(0)], c2);
    Next(World([Intent(0)], [c2]), Step(0, Fail), [Intent(0)], DENIED);
  }

  /** So a call can show as unknown although its tool was never started. */
  lemma {:induction false} UnknownWithoutExecution()
    ensures Reachable(World([Intent(0)], [DENIED])) && !DENIED.executed && DENIED.refused
    ensures AuditOf([Intent(0)], 100, 1, 1) == Audit({AuditRow(0, Unknown)}, false)
  {
    LoneIntentShows();
    DeniedIsReachable();
  }

  /** The same call after its gateway died waiting for the reply to an intent that landed. */
  const DEAD: Call := PENDING.(stage := Crashed(IntentSent), intent := Landed(1))

  /** No write of it raised, its tool was never started, and it shows as unknown for good. */
  lemma {:induction false} UnknownAfterDeath()
    ensures Reachable(World([Intent(0)], [DEAD])) && !DEAD.executed && !DEAD.refused
    ensures AuditOf([Intent(0)], 100, 1, 1) == Audit({AuditRow(0, Unknown)}, false)
    ensures forall choice :: Advance(DEAD, choice) == DEAD
  {
    LoneIntentShows();
    PendingIsReachable();
    var c1 := PENDING.(intent := Landed(1));
    Next(World([], [PENDING]), ArriveIntent(0), [Intent(0)], c1);
    Next(World([Intent(0)], [c1]), Step(0, Crash), [Intent(0)], DEAD);
  }

  /** The join uses page rows only: on a truncated page a finished call whose
      decision row fell off shows as unknown beside a later call's decision. */
  lemma {:induction false} UnknownOnATruncatedPage()
    ensures var log := [Intent(0), Decision(0, PolicyAllow), Decision(1, PolicyDeny)];
            && AuditOf(log, 1, 3, 3).hasMore
            && AuditRow(0, Unknown) in AuditOf(log, 1, 3, 3).rows
            && DecisionAt(log, 0, 2)
  {
    var log := [Intent(0), Decision(0, PolicyAllow), Decision(1, PolicyDeny)];
    assert log[..3] == log && log[..2] == [Intent(0), Decision(0, PolicyAllow)] && log[..2][..1] == [Intent(0)];
    var decisions := Newest(log, true, 2);
    assert decisions == [Row(log[2], 3)] + Newest(log[..2], true, 1);
    assert Newest(log[..2], true, 1) == [Row(log[1], 2)];
    var intents := Newest(log, false, 2);
    assert intents == Newest(log[..2], false, 2) == Newest(log[..2][..1], false, 2) == [Row(Intent(0), 1)];
    assert decisions[..1] == [Row(log[2], 3)];
    JoinShows(CallIds([Row(log[2], 3)]), CallIds(intents), 0);
    assert [Row(Intent(0), 1)][0].record.callId in CallIds(intents);
  }
}
