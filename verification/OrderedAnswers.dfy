/** What an answer of the ordered write rests on: the one step of the run that finished the
    call, and what that step was told. */
module OrderedAnswers {
  import opened Wrappers
  import opened Ledger
  import opened OrderedCommit
  import opened WriterInvariant
  import opened OrderedTheorems

  // ----- the step that finished a call -----

  /** Step `k` of the run is a step of call `c`, standing at `pc`, resolved by `choice`. */
  ghost predicate TakesAt(w: World, acts: seq<Act>, k: int, c: nat, pc: Pc, choice: Choice) {
    && 0 <= k < |acts| && acts[k] == Step(c, choice)
    && var u := Run(w, acts[..k]); c < |u.calls| && u.calls[c].proc < |u.procs| && u.calls[c].pc == pc
  }

  /** Step `k` is the one at which call `c` is answered. */
  ghost predicate FinishesAt(w: World, acts: seq<Act>, k: int, c: nat) {
    && 0 <= k < |acts| && acts[k].Step? && acts[k].call == c
    && var u := Run(w, acts[..k]);
       && c < |u.calls| && u.calls[c].proc < |u.procs| && !u.calls[c].pc.Done?
       && Local(u.log, u.procs[u.calls[c].proc], u.calls[c], acts[k].choice).1.pc.Done?
  }

  lemma {:induction false} OnlyStepsFinish(w: World, act: Act, c: nat)
    requires c < |Apply(w, act).calls| && Apply(w, act).calls[c].pc.Done?
    ensures c < |w.calls|
    ensures !w.calls[c].pc.Done? ==>
              && act.Step? && act.call == c && w.calls[c].proc < |w.procs|
              && Apply(w, act).calls[c] == Local(w.log, w.procs[w.calls[c].proc], w.calls[c], act.choice).1
  {
  }

  lemma {:induction false} RunSplit(w: World, a: seq<Act>, b: seq<Act>)
    ensures Run(w, a + b) == Run(Run(w, a), b)
    decreases |a|
  {
    if a == [] {
      assert a + b == b;
    } else {
      assert (a + b)[1..] == a[1..] + b;
      RunSplit(Apply(w, a[0]), a[1..], b);
    }
  }

  /** What a finishing step answers is the answer from then on. */
  lemma {:induction false} FinishedStays(w: World, acts: seq<Act>, k: int, c: nat)
    requires FinishesAt(w, acts, k, c)
    ensures var u := Run(w, acts[..k]);
            var end := Run(w, acts);
            && c < |end.calls|
            && end.calls[c].pc == Local(u.log, u.procs[u.calls[c].proc], u.calls[c], acts[k].choice).1.pc
            && end.calls[c].key == u.calls[c].key && end.calls[c].value == u.calls[c].value
            && end.calls[c].view == u.calls[c].view && |end.calls[c].sent| == |u.calls[c].sent|
  {
    var u := Run(w, acts[..k]);
    RunAround(w, acts, k);
    FinishKeepsSent(u.log, u.procs[u.calls[c].proc], u.calls[c], acts[k].choice);
    DoneStays(Apply(u, acts[k]), acts[k + 1..], c);
  }

  lemma {:induction false} RunAround(w: World, acts: seq<Act>, k: nat)
    requires k < |acts|
    ensures Run(w, acts) == Run(Apply(Run(w, acts[..k]), acts[k]), acts[k + 1..])
  {
    assert acts[..k] + [acts[k]] == acts[..k + 1];
    RunSnoc(w, acts[..k], acts[k]);
    RunSplit(w, acts[..k + 1], acts[k + 1..]);
    assert acts[..k + 1] + acts[k + 1..] == acts;
  }

  lemma {:induction false} FinishKeepsSent(log: Log, proc: Proc, call: Call, choice: Choice)
    requires Local(log, proc, call, choice).1.pc.Done?
    ensures Local(log, proc, call, choice).1.sent == call.sent
  {
  }

  /** A call finishes at one step. */
  lemma {:induction false} FinishesOnce(w: World, acts: seq<Act>, j: int, k: int, c: nat)
    requires FinishesAt(w, acts, j, c) && FinishesAt(w, acts, k, c)
    ensures j == k
  {
    if j < k { NotBefore(w, acts, j, k, c); }
    if k < j { NotBefore(w, acts, k, j, c); }
  }

  lemma {:induction false} NotBefore(w: World, acts: seq<Act>, j: int, k: int, c: nat)
    requires FinishesAt(w, acts, j, c) && j < k <= |acts|
    ensures !FinishesAt(w, acts, k, c)
  {
    var prefix := acts[..k];
    assert prefix[..j] == acts[..j] && prefix[j] == acts[j];
    FinishedStays(w, prefix, j, c);
  }

  /** A finished call was finished by some step of the run. */
  lemma {:induction false} FinishedBy(w: World, acts: seq<Act>, c: nat) returns (k: nat)
    requires w.calls == [] && c < |Run(w, acts).calls| && Run(w, acts).calls[c].pc.Done?
    ensures FinishesAt(w, acts, k, c)
    decreases |acts|
  {
    var init, act := acts[..|acts| - 1], acts[|acts| - 1];
    assert acts == init + [act];
    RunSnoc(w, init, act);
    OnlyStepsFinish(Run(w, init), act, c);
    if Run(w, init).calls[c].pc.Done? {
      k := FinishedBy(w, init, c);
      assert init[..k] == acts[..k] && init[k] == acts[k];
    } else {
      k := |init|;
      assert acts[..k] == init;
    }
  }

  // ----- what the answer was told -----

  /** The proof read of the call's own commit was answered, at some step of the run. */
  ghost predicate ProofAnswered(w: World, acts: seq<Act>, c: nat) { exists k, tx :: TakesAt(w, acts, k, c, Verify(tx), Proceed) }

  /** The call's own commit was known to it, whatever became of the proof. */
  ghost predicate CommitKnown(w: World, acts: seq<Act>, c: nat) {
    exists k, tx, choice :: TakesAt(w, acts, k, c, Verify(tx), choice)
  }

  /** The read back of an uncertain outcome failed, or found nothing where a commit may still be on its way. */
  predicate Unsettled(log: Log, key: Key, cause: Cause, choice: Choice) {
    !choice.Read? || (Get(Snapshot(log, choice.n), key).None? && cause == OtherCause)
  }

  /** It found other bytes under the key, or nothing after the ledger had refused every attempt. */
  predicate SettledAgainst(log: Log, key: Key, value: Value, cause: Cause, choice: Choice) {
    && choice.Read?
    && match Get(Snapshot(log, choice.n), key)
       case None => cause == BudgetExhausted
       case Some(e) => e.value != value
  }

  ghost predicate UnsettledAt(w: World, acts: seq<Act>, k: int, c: nat) {
    exists cause, choice :: TakesAt(w, acts, k, c, Confirm(cause), choice)
      && Unsettled(Run(w, acts[..k]).log, Run(w, acts[..k]).calls[c].key, cause, choice)
  }

  ghost predicate SettledAgainstAt(w: World, acts: seq<Act>, k: int, c: nat) {
    exists cause, choice :: TakesAt(w, acts, k, c, Confirm(cause), choice)
      && SettledAgainst(Run(w, acts[..k]).log, Run(w, acts[..k]).calls[c].key, Run(w, acts[..k]).calls[c].value, cause, choice)
  }

  /** After a refusal the record was read and was there. */
  ghost predicate PresentAt(w: World, acts: seq<Act>, k: int, c: nat) {
    exists n :: TakesAt(w, acts, k, c, AskPresent, Read(n))
      && Get(Snapshot(Run(w, acts[..k]).log, n), Run(w, acts[..k]).calls[c].key).Some?
  }

  lemma {:induction false} ProofFinishes(w: World, acts: seq<Act>, k: int, c: nat, tx: nat, choice: Choice)
    requires TakesAt(w, acts, k, c, Verify(tx), choice)
    ensures FinishesAt(w, acts, k, c)
    ensures c < |Run(w, acts).calls|
    ensures Run(w, acts).calls[c].pc == Done(Committed(tx, Some(Run(w, acts[..k]).calls[c].next), choice == Proceed))
  {
    FinishedStays(w, acts, k, c);
  }

  /** An answer is `verified` if and only if the proof read of the call's own commit was answered; one whose
      commit was known without the ledger being asked back names its position. */
  lemma {:induction false} VerifiedMeansProved(w: World, acts: seq<Act>, c: nat)
    requires w.calls == [] && c < |Run(w, acts).calls| && Run(w, acts).calls[c].pc.Done?
    ensures var response := Run(w, acts).calls[c].pc.response;
            && (response.Committed? && response.verified <==> ProofAnswered(w, acts, c))
            && (CommitKnown(w, acts, c) ==> response.Committed? && response.position.Some?)
  {
    var k := FinishedBy(w, acts, c);
    FinishedStays(w, acts, k, c);
    var u := Run(w, acts[..k]);
    if j, tx, choice :| TakesAt(w, acts, j, c, Verify(tx), choice) { ProofFinishes(w, acts, j, c, tx, choice); }
    if j, tx :| TakesAt(w, acts, j, c, Verify(tx), Proceed) { ProofFinishes(w, acts, j, c, tx, Proceed); }
    VerifiedStep(u.log, u.procs[u.calls[c].proc], u.calls[c], acts[k].choice);
    if u.calls[c].pc.Verify? && acts[k].choice == Proceed { assert TakesAt(w, acts, k, c, Verify(u.calls[c].pc.tx), Proceed); }
  }

  lemma {:induction false} ConfirmNeverCommits(log: Log, call: Call, cause: Cause, choice: Choice)
    ensures var call' := ConfirmStep(log, call, cause, choice); call'.pc.Done? ==> !call'.pc.response.Committed?
  {
  }

  lemma {:induction false} VerifiedStep(log: Log, proc: Proc, call: Call, choice: Choice)
    requires !call.pc.Done? && Local(log, proc, call, choice).1.pc.Done?
    ensures var response := Local(log, proc, call, choice).1.pc.response;
            response.Committed? && response.verified ==> call.pc.Verify? && choice == Proceed
  {
    match call.pc {
      case Confirm(cause) => ConfirmNeverCommits(log, call, cause, choice);
      case FindPosition(tx) => assert PositionStep(log, call, tx, choice).pc.Done? ==> !PositionStep(log, call, tx, choice).pc.response.verified;
      case _ =>
    }
  }

  // ----- a position read back -----

  /** The first row that names the key holds the score asked for. */
  predicate NamedAt(rows: seq<ZAdd>, key: Key, asked: nat, i: int) {
    0 <= i < |rows| && rows[i].key == key && rows[i].score == asked && forall j :: 0 <= j < i ==> rows[j].key != key
  }

  lemma {:induction false} ReadBackExactly(rows: seq<ZAdd>, key: Key, asked: nat)
    ensures ConfirmedPosition(rows, key, asked) == if exists i :: NamedAt(rows, key, asked, i) then Some(asked) else None
    decreases |rows|
  {
    if rows != [] {
      if rows[0].key == key {
        assert rows[0].score == asked ==> NamedAt(rows, key, asked, 0);
      } else {
        ReadBackExactly(rows[1..], key, asked);
        if i :| NamedAt(rows, key, asked, i) {
          assert NamedAt(rows[1..], key, asked, i - 1) by {
            forall j | 0 <= j < i - 1 ensures rows[1..][j].key != key { assert rows[j + 1].key != key; }
          }
        }
        if i :| NamedAt(rows[1..], key, asked, i) {
          assert NamedAt(rows, key, asked, i + 1) by {
            forall j | 0 <= j < i + 1 ensures rows[j].key != key { assert j > 0 ==> rows[1..][j - 1].key != key; }
          }
        }
      }
    }
  }

  /** The view was read back and shows the key at the position this call asked for. */
  ghost predicate PositionReadAt(w: World, acts: seq<Act>, k: int, c: nat) {
    exists tx, n, rows, i :: TakesAt(w, acts, k, c, FindPosition(tx), Rows(n, rows))
      && NamedAt(rows, Run(w, acts[..k]).calls[c].key, Run(w, acts[..k]).calls[c].next, i)
      && RowsOf(Snapshot(Run(w, acts[..k]).log, n), Run(w, acts[..k]).calls[c].view, rows)
  }

  lemma {:induction false} PositionReadFinishes(w: World, acts: seq<Act>, k: int, c: nat)
    requires PositionReadAt(w, acts, k, c)
    ensures c < |Run(w, acts).calls| && Run(w, acts).calls[c].pc.Done?
    ensures var response := Run(w, acts).calls[c].pc.response; response.Committed? && response.position.Some?
  {
    var tx, n, rows, i :| TakesAt(w, acts, k, c, FindPosition(tx), Rows(n, rows))
      && NamedAt(rows, Run(w, acts[..k]).calls[c].key, Run(w, acts[..k]).calls[c].next, i)
      && RowsOf(Snapshot(Run(w, acts[..k]).log, n), Run(w, acts[..k]).calls[c].view, rows);
    ReadBackExactly(rows, Run(w, acts[..k]).calls[c].key, Run(w, acts[..k]).calls[c].next);
    assert FinishesAt(w, acts, k, c);
    FinishedStays(w, acts, k, c);
  }

  /** A committed answer names a position if and only if the call knew its own commit or the view read back
      showed the key at the position it had asked for. */
  lemma {:induction false} PositionIsExact(w: World, acts: seq<Act>, c: nat)
    requires w.calls == [] && c < |Run(w, acts).calls| && Run(w, acts).calls[c].pc.Done?
    requires Run(w, acts).calls[c].pc.response.Committed?
    ensures Run(w, acts).calls[c].pc.response.position.Some?
            <==> CommitKnown(w, acts, c) || exists k :: PositionReadAt(w, acts, k, c)
  {
    var k := FinishedBy(w, acts, c);
    FinishedStays(w, acts, k, c);
    VerifiedMeansProved(w, acts, c);
    var u := Run(w, acts[..k]);
    if j :| PositionReadAt(w, acts, j, c) { PositionReadFinishes(w, acts, j, c); }
    CommittedStep(u.log, u.procs[u.calls[c].proc], u.calls[c], acts[k].choice);
    assert TakesAt(w, acts, k, c, u.calls[c].pc, acts[k].choice);
    if u.calls[c].pc.FindPosition? && acts[k].choice.Rows? {
      ReadBackExactly(acts[k].choice.rows, u.calls[c].key, u.calls[c].next);
      if i :| NamedAt(acts[k].choice.rows, u.calls[c].key, u.calls[c].next, i) { assert PositionReadAt(w, acts, k, c); }
    }
    if u.calls[c].pc.Verify? { assert CommitKnown(w, acts, c); }
  }

  lemma {:induction false} CommittedStep(log: Log, proc: Proc, call: Call, choice: Choice)
    requires !call.pc.Done? && Local(log, proc, call, choice).1.pc.Done?
    requires Local(log, proc, call, choice).1.pc.response.Committed?
    ensures call.pc.Verify? || call.pc.FindPosition?
    ensures call.pc.FindPosition? && Local(log, proc, call, choice).1.pc.response.position.Some? ==>
              && choice.Rows? && RowsOf(Snapshot(log, choice.n), call.view, choice.rows)
              && ConfirmedPosition(choice.rows, call.key, call.next).Some?
  {
    match call.pc {
      case Confirm(cause) => ConfirmNeverCommits(log, call, cause, choice);
      case _ =>
    }
  }

  /** Not established is answered if and only if the read back settled nothing; committed false exactly when it
      settled against this call, or nothing was ever sent; and a conflict if and only if the record was read
      after a refusal. */
  lemma {:induction false} NegativesAreExact(w: World, acts: seq<Act>, c: nat)
    requires Starts(w) && c < |Run(w, acts).calls| && Run(w, acts).calls[c].pc.Done?
    ensures var call := Run(w, acts).calls[c];
            && (call.pc.response.NotEstablished? <==> exists k :: UnsettledAt(w, acts, k, c))
            && (call.pc.response.NotCommitted? <==> call.sent == [] || exists k :: SettledAgainstAt(w, acts, k, c))
            && (call.pc.response.Conflict? <==> exists k :: PresentAt(w, acts, k, c))
  {
    var k := FinishedBy(w, acts, c);
    FinishedStays(w, acts, k, c);
    var u := Run(w, acts[..k]);
    RunInvariant(w, acts[..k]);
    assert CallOk(u.log, u.procs, u.calls[c]);
    NegativeStep(u.log, u.procs[u.calls[c].proc], u.calls[c], acts[k].choice);
    assert TakesAt(w, acts, k, c, u.calls[c].pc, acts[k].choice);
    if j :| UnsettledAt(w, acts, j, c) { UnsettledFinishes(w, acts, j, c); }
    if j :| SettledAgainstAt(w, acts, j, c) { SettledFinishes(w, acts, j, c); }
    if j :| PresentAt(w, acts, j, c) { PresentFinishes(w, acts, j, c); }
    if u.calls[c].pc.Confirm? && Unsettled(u.log, u.calls[c].key, u.calls[c].pc.cause, acts[k].choice) {
      assert UnsettledAt(w, acts, k, c);
    }
    if u.calls[c].pc.Confirm? && SettledAgainst(u.log, u.calls[c].key, u.calls[c].value, u.calls[c].pc.cause, acts[k].choice) {
      assert SettledAgainstAt(w, acts, k, c);
    }
    if u.calls[c].pc.AskPresent? { assert PresentAt(w, acts, k, c); }
  }

  lemma {:induction false} NegativeStep(log: Log, proc: Proc, call: Call, choice: Choice)
    requires PcOk(log, proc, call) && !call.pc.Done? && Local(log, proc, call, choice).1.pc.Done?
    ensures var response := Local(log, proc, call, choice).1.pc.response;
            && (response.NotEstablished? ==> call.pc.Confirm? && Unsettled(log, call.key, call.pc.cause, choice))
            && (response.NotCommitted? ==>
                  call.sent == []
                  || (call.pc.Confirm? && SettledAgainst(log, call.key, call.value, call.pc.cause, choice)))
            && (call.sent == [] ==> response.NotCommitted?)
            && (response.Conflict? <==> call.pc.AskPresent?)
            && (call.pc.AskPresent? ==> choice.Read? && Get(Snapshot(log, choice.n), call.key).Some?)
  {
  }

  lemma {:induction false} UnsettledFinishes(w: World, acts: seq<Act>, k: int, c: nat)
    requires UnsettledAt(w, acts, k, c)
    ensures c < |Run(w, acts).calls| && Run(w, acts).calls[c].pc == Done(NotEstablished)
  {
    assert FinishesAt(w, acts, k, c);
    FinishedStays(w, acts, k, c);
  }

  lemma {:induction false} SettledFinishes(w: World, acts: seq<Act>, k: int, c: nat)
    requires SettledAgainstAt(w, acts, k, c)
    ensures c < |Run(w, acts).calls| && Run(w, acts).calls[c].pc == Done(NotCommitted)
  {
    assert FinishesAt(w, acts, k, c);
    FinishedStays(w, acts, k, c);
  }

  lemma {:induction false} PresentFinishes(w: World, acts: seq<Act>, k: int, c: nat)
    requires PresentAt(w, acts, k, c)
    ensures c < |Run(w, acts).calls| && Run(w, acts).calls[c].pc == Done(Conflict)
  {
    assert FinishesAt(w, acts, k, c);
    FinishedStays(w, acts, k, c);
  }

  // ----- when the attempts are used up -----

  predicate OutOfAttempts(w: World, act: Act, c: nat) {
    && act.Step? && act.call == c && c < |w.calls| && w.calls[c].proc < |w.procs|
    && w.calls[c].pc.LoopTop? && w.calls[c].attempts >= w.procs[w.calls[c].proc].maxAttempts
  }

  /** At step `k` the loop of call `c` found no attempt left. */
  ghost predicate SpentAt(w: World, acts: seq<Act>, k: int, c: nat) {
    0 <= k < |acts| && OutOfAttempts(Run(w, acts[..k]), acts[k], c)
  }

  ghost predicate Spent(w: World, acts: seq<Act>, c: nat) { exists k :: SpentAt(w, acts, k, c) }

  /** Where a call can be once its loop found no attempt left. */
  predicate PastTheLoop(pc: Pc) { pc == Confirm(BudgetExhausted) || pc.FindPosition? || pc.Done? || pc.Lost? }

  lemma {:induction false} SpentOnward(w: World, init: seq<Act>, act: Act, c: nat)
    ensures Spent(w, init + [act], c) <==> Spent(w, init, c) || OutOfAttempts(Run(w, init), act, c)
  {
    forall k | 0 <= k <= |init| ensures (init + [act])[..k] == init[..k] {}
    assert init[..|init|] == init;
    if k :| SpentAt(w, init, k, c) { assert SpentAt(w, init + [act], k, c); }
    if OutOfAttempts(Run(w, init), act, c) { assert SpentAt(w, init + [act], |init|, c); }
    if k :| SpentAt(w, init + [act], k, c) { assert k < |init| ==> SpentAt(w, init, k, c); }
  }

  lemma {:induction false} SpendStep(log: Log, proc: Proc, call: Call, choice: Choice)
    requires Local(log, proc, call, choice).1.pc == Confirm(BudgetExhausted)
    ensures call.pc == Confirm(BudgetExhausted) || (call.pc.LoopTop? && call.attempts >= proc.maxAttempts)
  {
  }

  lemma {:induction false} StaysPast(log: Log, proc: Proc, call: Call, choice: Choice)
    requires PastTheLoop(call.pc) || (call.pc.LoopTop? && call.attempts >= proc.maxAttempts)
    ensures PastTheLoop(Local(log, proc, call, choice).1.pc)
  {
  }

  lemma {:induction false} SpendApply(w: World, act: Act, c: nat)
    requires c < |Apply(w, act).calls|
    ensures var pc := Apply(w, act).calls[c].pc;
            && (pc == Confirm(BudgetExhausted) ==>
                  OutOfAttempts(w, act, c) || (c < |w.calls| && w.calls[c].pc == Confirm(BudgetExhausted)))
            && (OutOfAttempts(w, act, c) || (c < |w.calls| && PastTheLoop(w.calls[c].pc)) ==> PastTheLoop(pc))
  {
    if act.Step? && act.call == c && c < |w.calls| && w.calls[c].proc < |w.procs| {
      var proc, call := w.procs[w.calls[c].proc], w.calls[c];
      if Local(w.log, proc, call, act.choice).1.pc == Confirm(BudgetExhausted) { SpendStep(w.log, proc, call, act.choice); }
      if PastTheLoop(call.pc) || OutOfAttempts(w, act, c) { StaysPast(w.log, proc, call, act.choice); }
    }
  }

  lemma {:induction false} CallsGrow(w: World, acts: seq<Act>)
    ensures |w.calls| <= |Run(w, acts).calls|
    decreases |acts|
  {
    if acts != [] { CallsGrow(Apply(w, acts[0]), acts[1..]); }
  }

  lemma {:induction false} NotSpentBefore(w: World, acts: seq<Act>, c: nat)
    requires c >= |Run(w, acts).calls|
    ensures !Spent(w, acts, c)
  {
    forall k | 0 <= k < |acts| ensures !SpentAt(w, acts, k, c) {
      RunSplit(w, acts[..k], acts[k..]);
      assert acts[..k] + acts[k..] == acts;
      CallsGrow(Run(w, acts[..k]), acts[k..]);
    }
  }

  /** A call asks the ledger back because its attempts are used up if and only if its loop found none left: never
      because of a lost reply, a failed read or a reserve that disagrees. */
  lemma {:induction false} SpentIsExact(w: World, acts: seq<Act>, c: nat)
    requires w.calls == [] && c < |Run(w, acts).calls|
    ensures var pc := Run(w, acts).calls[c].pc;
            && (Spent(w, acts, c) ==> PastTheLoop(pc))
            && (pc == Confirm(BudgetExhausted) ==> Spent(w, acts, c))
            && (pc.Confirm? ==> (pc.cause == BudgetExhausted <==> Spent(w, acts, c)))
    decreases |acts|
  {
    if acts != [] {
      var init, act := acts[..|acts| - 1], acts[|acts| - 1];
      assert acts == init + [act];
      RunSnoc(w, init, act);
      SpentOnward(w, init, act, c);
      SpendApply(Run(w, init), act, c);
      if c < |Run(w, init).calls| { SpentIsExact(w, init, c); } else { NotSpentBefore(w, init, c); }
    }
  }

  // ----- answers, when given and later -----

  /** No answer is ever false, neither when it is given nor at any later moment, and no call's record commits
      twice; and it is called verified, then and later, exactly when the proof of its commit was answered. */
  lemma {:induction false} AnswersStayTrue(w: World, acts: seq<Act>, later: seq<Act>, c: nat)
    requires Starts(w)
    requires c < |Run(w, acts).calls| && Run(w, acts).calls[c].pc.Done?
    ensures c < |Run(Run(w, acts), later).calls|
    ensures var call := Run(Run(w, acts), later).calls[c];
            call.pc == Run(w, acts).calls[c].pc
            && AnswerIsTrue(Run(Run(w, acts), later), c)
            && forall i, j :: OrderedTheorems.Landed(call, i) && OrderedTheorems.Landed(call, j) ==> i == j
    ensures var response := Run(Run(w, acts), later).calls[c].pc.response;
            && (response.Committed? && response.verified <==> ProofAnswered(w, acts, c))
            && (ProofAnswered(w, acts, c) <==> ProofAnswered(w, acts + later, c))
  {
    RunInvariant(w, acts);
    RunKeeps(Run(w, acts), later);
    DoneStays(Run(w, acts), later, c);
    AnswerNow(Run(Run(w, acts), later), c);
    RunSplit(w, acts, later);
    VerifiedMeansProved(w, acts, c);
    VerifiedMeansProved(w, acts + later, c);
  }
}
