/** Why an attempt is refused: exactly what happened between its reads and its
    ExecAll, over whole runs. */
module OrderedRefusal {
  import opened Wrappers
  import opened Ledger
  import opened LedgerInvariant
  import opened OrderedCommit
  import opened WriterInvariant
  import opened OrderedTheorems

  // ----- one attempt, followed through a run -----

  /** How far into an attempt a call is. */
  function Rank(pc: Pc): nat {
    match pc
    case GetClient | ReadReserve | FetchReserve | LoadReserve => 0
    case ReadCache => 1
    case ReadCounter => 2
    case Issue => 3
    case Wait => 4
    case AskPresent => 5
    case DropSeqCache | SaveSeqCache(_) => 6
    case DropReserveCache | SaveReserveCache(_) => 7
    case LoopTop | Verify(_) => 8
    case Confirm(_) => 9
    case FindPosition(_) => 10
    case Done(_) => 11
    case Lost => 12
  }

  /** The ExecAlls a call has sent, up to what became of them. */
  predicate SameRequests(sent: seq<Sent>, sent': seq<Sent>) {
    |sent'| == |sent| && forall i :: 0 <= i < |sent| ==> sent'[i] == sent[i].(status := sent'[i].status)
  }

  /** What the attempt's ExecAll was built from. */
  predicate Issued(call: Call, call': Call) {
    var k := |call.sent|;
    && |call'.sent| == k + 1 && SameRequests(call.sent, call'.sent[..k])
    && call'.sent[k].observed == call'.observed && (call'.sent[k].bind <==> call'.bound.None?)
  }

  /** Later in the same attempt, or in a later one. Within one attempt what was read stays as it was read. */
  predicate Later(call: Call, call': Call) {
    && SameRequest(call, call')
    && (|| call'.attempts > call.attempts
        || (call'.attempts == call.attempts && Rank(call'.pc) >= Rank(call.pc) && InAttempt(call, call')))
  }

  predicate InAttempt(call: Call, call': Call) {
    && (Rank(call.pc) >= 1 ==> call'.bound == call.bound)
    && (Rank(call.pc) >= 3 ==> call'.observed == call.observed)
    && (Rank(call'.pc) <= 3 || Rank(call.pc) >= 4 ==> SameRequests(call.sent, call'.sent))
    && (SameRequests(call.sent, call'.sent) || Issued(call, call'))
  }

  lemma {:induction false} LaterTrans(a: Call, b: Call, c: Call)
    requires Later(a, b) && Later(b, c)
    ensures Later(a, c)
  {
  }

  lemma {:induction false} RaiseIsLater(call: Call, cause: Cause)
    requires Rank(call.pc) <= 8
    ensures Later(call, Raise(call, cause))
  {
  }

  lemma {:induction false} ReserveIsLater(log: Log, proc: Proc, call: Call, choice: Choice, bound: Option<nat>)
    requires call.pc.FetchReserve? || call.pc.LoadReserve?
    ensures Later(call, WithBound(proc, call, bound))
    ensures call.pc.FetchReserve? ==> Later(call, FetchStep(log, proc, call, choice).1)
  {
  }

  lemma {:induction false} CounterIsLater(log: Log, call: Call, choice: Choice)
    requires call.pc.ReadCounter?
    ensures Later(call, CounterStep(log, call, choice))
  {
    RaiseIsLater(call, OtherCause);
  }

  lemma {:induction false} IssueIsLater(proc: Proc, call: Call)
    requires call.pc.Issue?
    ensures Later(call, IssueStep(proc, call))
  {
  }

  lemma {:induction false} WaitIsLater(log: Log, call: Call, choice: Choice, tx: nat, cause: Cause)
    ensures call.pc.Wait? ==> Later(call, WaitStep(call, choice))
    ensures call.pc.AskPresent? ==> Later(call, AskStep(log, call, choice))
    ensures call.pc.Confirm? ==> Later(call, ConfirmStep(log, call, cause, choice))
    ensures call.pc.FindPosition? ==> Later(call, PositionStep(log, call, tx, choice))
  {
  }

  lemma {:induction false} LocalIsLater(log: Log, proc: Proc, call: Call, choice: Choice)
    ensures Later(call, Local(log, proc, call, choice).1)
  {
    match call.pc
    case LoopTop => RaiseIsLater(call, BudgetExhausted);
    case FetchReserve => ReserveIsLater(log, proc, call, choice, None);
    case LoadReserve => ReserveIsLater(log, proc, call, choice, proc.reserveCache);
    case ReadCounter => CounterIsLater(log, call, choice);
    case Issue => IssueIsLater(proc, call);
    case Confirm(cause) => WaitIsLater(log, call, choice, 0, cause);
    case FindPosition(tx) => WaitIsLater(log, call, choice, tx, OtherCause);
    case _ => WaitIsLater(log, call, choice, 0, OtherCause);
  }

  lemma {:induction false} ApplyIsLater(w: World, act: Act, c: nat)
    requires c < |w.calls|
    ensures c < |Apply(w, act).calls| && Later(w.calls[c], Apply(w, act).calls[c])
  {
    if act.Step? && act.call == c && w.calls[c].proc < |w.procs| {
      LocalIsLater(w.log, w.procs[w.calls[c].proc], w.calls[c], act.choice);
    }
  }

  lemma {:induction false} RunIsLater(w: World, acts: seq<Act>, c: nat)
    requires c < |w.calls|
    ensures c < |Run(w, acts).calls| && Later(w.calls[c], Run(w, acts).calls[c])
    decreases |acts|
  {
    if acts != [] {
      var w1 := Apply(w, acts[0]);
      ApplyIsLater(w, acts[0], c);
      RunIsLater(w1, acts[1..], c);
      LaterTrans(w.calls[c], w1.calls[c], Run(w1, acts[1..]).calls[c]);
    }
  }

  // ----- who moved the counter or bound the reserve -----

  ghost predicate LandedAs(w: World, d: nat, j: nat, t: nat) {
    d < |w.calls| && j < |w.calls[d].sent| && w.calls[d].sent[j].status == Landed(t)
  }

  predicate MovesAt(log: Log, t: int) {
    1 <= t <= |log| && (SequenceKey in log[t - 1].sets || ReserveKey in log[t - 1].sets)
  }

  /** Since the first `k` transactions, only ExecAlls of calls moved the counter or bound the reserve. */
  ghost predicate Authored(w: World, k: nat) {
    forall t: nat :: k < t && MovesAt(w.log, t) ==> exists d, j :: LandedAs(w, d, j, t)
  }

  lemma {:induction false} LandedStays(w: World, act: Act, d: nat, j: nat, t: nat)
    requires LandedAs(w, d, j, t)
    ensures LandedAs(Apply(w, act), d, j, t)
  {
    if act.Step? && act.call == d && w.calls[d].proc < |w.procs| {
      LocalIsLater(w.log, w.procs[w.calls[d].proc], w.calls[d], act.choice);
      LocalKeepsSent(w.log, w.procs[w.calls[d].proc], w.calls[d], act.choice);
    }
  }

  lemma {:induction false} LocalKeepsSent(log: Log, proc: Proc, call: Call, choice: Choice)
    ensures call.sent <= Local(log, proc, call, choice).1.sent
  {
  }

  lemma {:induction false} ApplyKeepsAuthored(w: World, act: Act, k: nat)
    requires Authored(w, k)
    ensures Authored(Apply(w, act), k)
  {
    var w' := Apply(w, act);
    forall t: nat | k < t && MovesAt(w'.log, t) ensures exists d, j :: LandedAs(w', d, j, t) {
      if t <= |w.log| {
        assert MovesAt(w.log, t);
        var d, j :| LandedAs(w, d, j, t);
        LandedStays(w, act, d, j, t);
      } else {
        assert act.Arrive? && LandedAs(w', act.call, act.i, t);
      }
    }
  }

  lemma {:induction false} RunKeepsAuthored(w: World, acts: seq<Act>, k: nat)
    requires Authored(w, k)
    ensures Authored(Run(w, acts), k)
    decreases |acts|
  {
    if acts != [] {
      ApplyKeepsAuthored(w, acts[0], k);
      RunKeepsAuthored(Apply(w, acts[0]), acts[1..], k);
    }
  }

  /** Another call's transaction after the first `since` wrote `key`. */
  ghost predicate MovedByAnother(w: World, c: nat, key: Key, since: nat) {
    exists d, j, t :: d != c && since < t <= |w.log| && LandedAs(w, d, j, t) && key in w.log[t - 1].sets
  }

  lemma {:induction false} MoverIsAnother(w: World, c: nat, key: Key, since: nat, k: nat)
    requires Authored(w, k) && k <= since && (key.SequenceKey? || key.ReserveKey?)
    requires forall j, t :: !LandedAs(w, c, j, t)
    ensures MovedByAnother(w, c, key, since) <==> LastTx(w.log, key) > since
  {
    var t := LastTx(w.log, key);
    if t > since {
      assert MovesAt(w.log, t);
      var d, j :| LandedAs(w, d, j, t);
    }
    if MovedByAnother(w, c, key, since) {
      var d, j, u :| d != c && since < u <= |w.log| && LandedAs(w, d, j, u) && key in w.log[u - 1].sets;
      assert Wrote(w.log, key, u);
    }
  }

  // ----- the attempt's three moments -----

  /** The ledger's answer to a read of it as it is. */
  predicate IsCurrent(log: Log, choice: Choice) { choice.Read? && choice.n >= |log| }

  /** The step at which the reserve becomes known: the global was found filled, or the ledger's was read as it is. */
  predicate Learns(log: Log, proc: Proc, call: Call, choice: Choice) {
    || (call.pc.ReadReserve? && proc.reserveCache.Some?)
    || (call.pc.FetchReserve? && IsCurrent(log, choice))
  }

  lemma {:induction false} ReserveSeen(log: Log, proc: Proc, call: Call, choice: Choice)
    requires Learns(log, proc, call, choice) && ProcOk(log, proc)
    ensures var (proc', call') := Local(log, proc, call, choice);
            Rank(call'.pc) <= 2 ==>
              && call'.attempts == call.attempts && call'.sent == call.sent
              && (if Get(log, ReserveKey).None? then call'.pc.ReadCache? && call'.bound.None?
                  else call'.pc.LoadReserve? && proc'.reserveCache.Some?)
  {
    assert Snapshot(log, |log|) == log;
  }

  lemma {:induction false} CounterSeen(log: Log, proc: Proc, call: Call, choice: Choice)
    requires call.pc.ReadCounter? && IsCurrent(log, choice)
    ensures var call' := Local(log, proc, call, choice).1;
            && call'.attempts == call.attempts && call'.sent == call.sent && call'.bound == call.bound
            && (Rank(call'.pc) <= 8 ==>
                  && call'.pc.Issue?
                  && match Get(log, SequenceKey)
                     case None => call'.observed.None?
                     case Some(e) => call'.observed.Some? && call'.observed.value.tx == e.tx)
  {
    assert Snapshot(log, |log|) == log;
  }

  lemma {:induction false} LastTxInPrefix(log: Log, n: nat, key: Key)
    requires n <= |log|
    ensures LastTx(log[..n], key) == LastTx(log, key) || LastTx(log, key) > n
    ensures LastTx(log[..n], key) <= LastTx(log, key)
  {
    var t, u := LastTx(log, key), LastTx(log[..n], key);
    if u > 0 { assert Wrote(log, key, u); }
    if 0 < t <= n { assert Wrote(log[..n], key, t); }
  }

  predicate BuiltFrom(log: Log, readCounter: nat, s: Sent)
    requires readCounter <= |log|
  {
    match Get(log[..readCounter], SequenceKey)
    case None => s.observed.None?
    case Some(e) => s.observed.Some? && s.observed.value.tx == e.tx
  }

  lemma {:induction false} CounterVerdict(log: Log, readCounter: nat, call: Call, s: Sent)
    requires readCounter <= |log| && BuiltFrom(log, readCounter, s)
    ensures Holds(log, Preconditions(call, s)[0]) <==> LastTx(log, SequenceKey) <= readCounter
  {
    LastTxInPrefix(log, readCounter, SequenceKey);
  }

  lemma {:induction false} ReserveVerdict(log: Log, readReserve: nat, bind: bool, cleared: bool)
    requires WriteOnce(log) && readReserve <= |log| && (bind <==> cleared || Get(log[..readReserve], ReserveKey).None?)
    requires cleared ==> Get(log[..readReserve], ReserveKey).Some?
    ensures (bind ==> LastTx(log, ReserveKey) == 0) <==> LastTx(log, ReserveKey) <= readReserve && !cleared
  {
    LastTxInPrefix(log, readReserve, ReserveKey);
    if Get(log[..readReserve], ReserveKey).Some? { GetFromSnapshot(log, readReserve, ReserveKey); }
  }

  /** The ledger's verdict on an ExecAll built from those two readings. */
  lemma {:induction false} Verdict(log: Log, readReserve: nat, readCounter: nat, call: Call, s: Sent, cleared: bool)
    requires WriteOnce(log) && readReserve <= |log| && readCounter <= |log| && Get(log, call.key).None?
    requires s.bind <==> cleared || Get(log[..readReserve], ReserveKey).None?
    requires cleared ==> Get(log[..readReserve], ReserveKey).Some?
    requires BuiltFrom(log, readCounter, s)
    ensures AllHold(log, Preconditions(call, s)) <==>
              && LastTx(log, SequenceKey) <= readCounter && LastTx(log, ReserveKey) <= readReserve
              && !cleared
  {
    CounterVerdict(log, readCounter, call, s);
    ReserveVerdict(log, readReserve, s.bind, cleared);
    var ps := Preconditions(call, s);
    assert AllHold(log, ps) <==> Holds(log, ps[0]) && Holds(log, ps[1]) && (s.bind ==> Holds(log, ps[2]));
  }

  // ----- the global between its test and its return -----

  /** At step `k` call `c`, still in the attempt it was in at `v`, returns the global and finds it empty. */
  ghost predicate LoadsEmpty(v: World, acts: seq<Act>, k: int, c: nat) {
    && 0 <= k < |acts| && acts[k].Step? && acts[k].call == c < |v.calls|
    && var u := Run(v, acts[..k]);
       && c < |u.calls| && u.calls[c].pc.LoadReserve? && u.calls[c].attempts == v.calls[c].attempts
       && u.calls[c].proc < |u.procs| && u.procs[u.calls[c].proc].reserveCache.None?
  }

  /** At step `j` call `d` of process `p`, refused, drops the process's reserve. */
  ghost predicate ClearsAt(v: World, acts: seq<Act>, j: int, d: nat, p: nat) {
    && 0 <= j < |acts| && acts[j].Step? && acts[j].call == d
    && var u := Run(v, acts[..j]);
       d < |u.calls| && u.calls[d].pc.DropReserveCache? && u.calls[d].proc == p
  }

  ghost predicate ClearedAt(v: World, acts: seq<Act>, j: int, d: nat, k: int, c: nat) {
    j < k && d != c < |v.calls| && ClearsAt(v, acts, j, d, v.calls[c].proc) && LoadsEmpty(v, acts, k, c)
  }

  /** Another call of the same process dropped the global, and this one then returned it empty. */
  ghost predicate Cleared(v: World, acts: seq<Act>, c: nat) { exists j, d, k :: ClearedAt(v, acts, j, d, k, c) }

  lemma {:induction false} RunTail(v: World, acts: seq<Act>, k: nat)
    requires 0 < k <= |acts|
    ensures Run(v, acts[..k]) == Run(Apply(v, acts[0]), acts[1..][..k - 1])
  {
    assert acts[..k][0] == acts[0] && acts[..k][1..] == acts[1..][..k - 1];
  }

  lemma {:induction false} LoadStep(v: World, act: Act, c: nat)
    requires c < |v.calls| && v.calls[c].pc.LoadReserve? && v.calls[c].proc < |v.procs|
    ensures var v' := Apply(v, act);
            && c < |v'.calls|
            && (act.Step? && act.call == c ==>
                  Rank(v'.calls[c].pc) >= 1
                  && (Rank(v'.calls[c].pc) <= 2 ==> v'.calls[c].bound == v.procs[v.calls[c].proc].reserveCache))
            && (!(act.Step? && act.call == c) && Rank(v'.calls[c].pc) <= 2 ==>
                  v'.calls[c].pc.LoadReserve? && v'.calls[c].proc == v.calls[c].proc
                  && v'.calls[c].attempts == v.calls[c].attempts && |v'.procs| == |v.procs|)
  {
  }

  /** Once returned, the global is not returned again in the same attempt. */
  lemma {:induction false} LoadsOnce(v: World, acts: seq<Act>, k: nat, c: nat)
    requires c < |v.calls| && v.calls[c].pc.LoadReserve? && v.calls[c].proc < |v.procs|
    requires acts != [] && acts[0].Step? && acts[0].call == c && k > 0
    ensures !LoadsEmpty(v, acts, k, c)
  {
    LoadStep(v, acts[0], c);
    ApplyIsLater(v, acts[0], c);
    if k < |acts| {
      RunTail(v, acts, k);
      RunIsLater(Apply(v, acts[0]), acts[1..][..k - 1], c);
    }
  }

  lemma {:induction false} LoadsShift(v: World, acts: seq<Act>, k: nat, c: nat)
    requires acts != [] && k > 0 && c < |v.calls| && c < |Apply(v, acts[0]).calls|
    requires Apply(v, acts[0]).calls[c].attempts == v.calls[c].attempts
    ensures LoadsEmpty(v, acts, k, c) <==> LoadsEmpty(Apply(v, acts[0]), acts[1..], k - 1, c)
  {
    if k < |acts| { RunTail(v, acts, k); }
  }

  lemma {:induction false} ClearsShift(v: World, acts: seq<Act>, j: nat, d: nat, p: nat)
    requires acts != []
    ensures ClearsAt(Apply(v, acts[0]), acts[1..], j, d, p) ==> ClearsAt(v, acts, j + 1, d, p)
  {
    if j < |acts| - 1 { RunTail(v, acts, j + 1); }
  }

  /** A call that goes on from its load to the counter read took no bound if and only if it found the global empty. */
  lemma {:induction false} LoadDecides(v: World, acts: seq<Act>, c: nat)
    requires c < |v.calls| && v.calls[c].pc.LoadReserve? && v.calls[c].proc < |v.procs|
    requires var w := Run(v, acts); c < |w.calls| && w.calls[c].pc.ReadCounter? && w.calls[c].attempts == v.calls[c].attempts
    ensures Run(v, acts).calls[c].bound.None? <==> exists k :: LoadsEmpty(v, acts, k, c)
    decreases |acts|
  {
    var v' := Apply(v, acts[0]);
    LoadStep(v, acts[0], c);
    ApplyIsLater(v, acts[0], c);
    RunIsLater(v', acts[1..], c);
    if acts[0].Step? && acts[0].call == c {
      forall k | k > 0 ensures !LoadsEmpty(v, acts, k, c) { LoadsOnce(v, acts, k, c); }
      assert acts[..0] == [];
      assert LoadsEmpty(v, acts, 0, c) <==> v.procs[v.calls[c].proc].reserveCache.None?;
    } else {
      LoadDecides(v', acts[1..], c);
      forall k: nat | k > 0 ensures LoadsEmpty(v, acts, k, c) <==> LoadsEmpty(v', acts[1..], k - 1, c) { LoadsShift(v, acts, k, c); }
      if k :| LoadsEmpty(v', acts[1..], k, c) { assert LoadsEmpty(v, acts, k + 1, c) <==> LoadsEmpty(v', acts[1..], k + 1 - 1, c); }
      if k :| LoadsEmpty(v, acts, k, c) { assert LoadsEmpty(v', acts[1..], k - 1, c); }
    }
  }

  /** Only a refused call of the process empties its global while another call of it is between test and return. */
  lemma {:induction false} OnlyClearsEmpty(v: World, act: Act, c: nat)
    requires c < |v.calls| && v.calls[c].pc.LoadReserve? && v.calls[c].proc < |v.procs|
    requires v.procs[v.calls[c].proc].reserveCache.Some? && !(act.Step? && act.call == c)
    requires c < |Apply(v, act).calls| && Apply(v, act).calls[c].pc.LoadReserve?
    requires v.calls[c].proc < |Apply(v, act).procs| && Apply(v, act).procs[v.calls[c].proc].reserveCache.None?
    ensures act.Step? && act.call != c && ClearsAt(v, [act], 0, act.call, v.calls[c].proc)
  {
    assert [act][..0] == [];
  }

  lemma {:induction false} ClearedBefore(v: World, acts: seq<Act>, k: nat, c: nat) returns (j: nat, d: nat)
    requires LoadsEmpty(v, acts, k, c) && v.calls[c].pc.LoadReserve? && v.calls[c].proc < |v.procs|
    requires v.procs[v.calls[c].proc].reserveCache.Some?
    ensures ClearedAt(v, acts, j, d, k, c)
    decreases |acts|
  {
    assert acts[..0] == [];
    var v' := Apply(v, acts[0]);
    LoadStep(v, acts[0], c);
    ApplyIsLater(v, acts[0], c);
    if acts[0].Step? && acts[0].call == c { LoadsOnce(v, acts, k, c); }
    RunTail(v, acts, k);
    RunIsLater(v', acts[1..][..k - 1], c);
    LoadsShift(v, acts, k, c);
    if v'.procs[v.calls[c].proc].reserveCache.None? {
      OnlyClearsEmpty(v, acts[0], c);
      assert [acts[0]][..0] == [] == acts[..0];
      j, d := 0, acts[0].call;
    } else {
      var i;
      i, d := ClearedBefore(v', acts[1..], k - 1, c);
      ClearsShift(v, acts, i, d, v.calls[c].proc);
      j := i + 1;
    }
  }

  lemma {:induction false} EmptyMeansCleared(v: World, acts: seq<Act>, c: nat)
    requires c < |v.calls| && v.calls[c].pc.LoadReserve? && v.calls[c].proc < |v.procs|
    requires v.procs[v.calls[c].proc].reserveCache.Some?
    ensures (exists k :: LoadsEmpty(v, acts, k, c)) <==> Cleared(v, acts, c)
  {
    if k :| LoadsEmpty(v, acts, k, c) { var j, d := ClearedBefore(v, acts, k, c); }
    if j, d, k :| ClearedAt(v, acts, j, d, k, c) { assert LoadsEmpty(v, acts, k, c); }
  }

  // ----- the theorem -----

  /** One attempt of call `c` in a run from `w`: the step that learns the reserve after `toReserve`, its counter
      read after `toCounter` more, its ExecAll about to be taken up after `toLedger` more. */
  datatype Attempt = Attempt(c: nat, toReserve: seq<Act>, reserve: Choice, toCounter: seq<Act>, counter: Choice,
                             toLedger: seq<Act>)

  function AtReserve(w: World, a: Attempt): World { Run(w, a.toReserve) }

  function Learned(w: World, a: Attempt): World { Apply(AtReserve(w, a), Step(a.c, a.reserve)) }

  function AtCounter(w: World, a: Attempt): World { Run(Learned(w, a), a.toCounter) }

  function AtLedger(w: World, a: Attempt): World {
    Run(Apply(AtCounter(w, a), Step(a.c, a.counter)), a.toLedger)
  }

  ghost predicate LearnsAt(w: World, c: nat, choice: Choice) {
    && c < |w.calls| && w.calls[c].proc < |w.procs|
    && Learns(w.log, w.procs[w.calls[c].proc], w.calls[c], choice)
  }

  /** What it knew of the reserve and the counter was current. */
  ghost predicate Follows(w: World, a: Attempt) {
    var w1, w2, w3 := AtReserve(w, a), AtCounter(w, a), AtLedger(w, a);
    && LearnsAt(w1, a.c, a.reserve) && a.c < |w2.calls| && a.c < |w3.calls|
    && w2.calls[a.c].pc.ReadCounter? && IsCurrent(w2.log, a.counter)
    && w2.calls[a.c].attempts == w1.calls[a.c].attempts == w3.calls[a.c].attempts
    && PendingAt(w3, a.c, |w1.calls[a.c].sent|)
  }

  /** Between the step that learned the reserve and the return of the global, another call of the process
      dropped it, and what was returned was empty. */
  ghost predicate ClearedUnder(v: World, acts: seq<Act>, c: nat) {
    c < |v.calls| && v.calls[c].pc.LoadReserve? && Cleared(v, acts, c)
  }

  lemma {:induction false} LearnedSeen(w: World, c: nat, choice: Choice)
    requires Inv(w) && LearnsAt(w, c, choice)
    ensures var v := Apply(w, Step(c, choice));
            && Inv(v) && v.log == w.log && |v.calls| == |w.calls| && Later(w.calls[c], v.calls[c])
            && v.calls[c].proc < |v.procs|
            && (Rank(v.calls[c].pc) <= 2 ==>
                  && v.calls[c].attempts == w.calls[c].attempts && v.calls[c].sent == w.calls[c].sent
                  && (if Get(w.log, ReserveKey).None? then v.calls[c].pc.ReadCache? && v.calls[c].bound.None?
                      else v.calls[c].pc.LoadReserve? && v.procs[v.calls[c].proc].reserveCache.Some?))
  {
    assert CallOk(w.log, w.procs, w.calls[c]) && ProcOk(w.log, w.procs[w.calls[c].proc]);
    ReserveSeen(w.log, w.procs[w.calls[c].proc], w.calls[c], choice);
    ApplyIsLater(w, Step(c, choice), c);
    ApplyKeeps(w, Step(c, choice));
  }

  lemma {:induction false} Onwards(v: World, acts: seq<Act>, c: nat)
    requires Inv(v) && c < |v.calls|
    ensures var w := Run(v, acts); Inv(w) && v.log <= w.log && c < |w.calls| && Later(v.calls[c], w.calls[c])
  {
    RunIsLater(v, acts, c);
    RunGrows(v, acts);
    RunKeeps(v, acts);
  }

  /** What the attempt learned is what the counter read finds. */
  lemma {:induction false} StillBound(call: Call, taken: Call, reading: Call)
    requires Later(call, taken) && Later(taken, reading) && reading.attempts == call.attempts && reading.pc.ReadCounter?
    ensures |call.sent| == |reading.sent| && taken.attempts == call.attempts && Rank(taken.pc) <= 2
    ensures taken.pc.ReadCache? ==> reading.bound == taken.bound
  {
    LaterTrans(call, taken, reading);
  }

  lemma {:induction false} FromLoad(v: World, acts: seq<Act>, c: nat)
    requires c < |v.calls| && v.calls[c].pc.LoadReserve? && v.calls[c].proc < |v.procs|
    requires v.procs[v.calls[c].proc].reserveCache.Some?
    requires var w := Run(v, acts); c < |w.calls| && w.calls[c].pc.ReadCounter? && w.calls[c].attempts == v.calls[c].attempts
    ensures Run(v, acts).calls[c].bound.None? <==> ClearedUnder(v, acts, c)
  {
    LoadDecides(v, acts, c);
    EmptyMeansCleared(v, acts, c);
  }

  lemma {:induction false} ToCounter(w1: World, v1: World, w2: World, c: nat, choice: Choice, acts: seq<Act>)
    requires Inv(w1) && LearnsAt(w1, c, choice)
    requires v1 == Apply(w1, Step(c, choice)) && w2 == Run(v1, acts)
    requires c < |w2.calls| && w2.calls[c].pc.ReadCounter? && w2.calls[c].attempts == w1.calls[c].attempts
    ensures Inv(w2) && w1.log <= w2.log && |w1.calls[c].sent| == |w2.calls[c].sent|
    ensures w2.calls[c].bound.None? <==> Get(w1.log, ReserveKey).None? || ClearedUnder(v1, acts, c)
    ensures ClearedUnder(v1, acts, c) ==> Get(w1.log, ReserveKey).Some?
  {
    LearnedSeen(w1, c, choice);
    Onwards(v1, acts, c);
    StillBound(w1.calls[c], v1.calls[c], w2.calls[c]);
    if v1.calls[c].pc.LoadReserve? { FromLoad(v1, acts, c); }
  }

  lemma {:induction false} ToLedger(w2: World, c: nat, choice: Choice, acts: seq<Act>)
    requires Inv(w2) && c < |w2.calls| && w2.calls[c].pc.ReadCounter? && IsCurrent(w2.log, choice)
    requires var w3 := Run(Apply(w2, Step(c, choice)), acts);
             c < |w3.calls| && w3.calls[c].attempts == w2.calls[c].attempts && |w3.calls[c].sent| > |w2.calls[c].sent|
    ensures var w3 := Run(Apply(w2, Step(c, choice)), acts);
            var k := |w2.calls[c].sent|;
            && w2.log <= w3.log && |w3.calls[c].sent| == k + 1
            && (w3.calls[c].sent[k].bind <==> w2.calls[c].bound.None?)
            && BuiltFrom(w3.log, |w2.log|, w3.calls[c].sent[k])
  {
    var p := w2.calls[c].proc;
    assert CallOk(w2.log, w2.procs, w2.calls[c]);
    var v2 := Apply(w2, Step(c, choice));
    assert v2.calls[c] == Local(w2.log, w2.procs[p], w2.calls[c], choice).1 && v2.log == w2.log;
    CounterSeen(w2.log, w2.procs[p], w2.calls[c], choice);
    RunIsLater(v2, acts, c);
    RunGrows(v2, acts);
    assert Run(v2, acts).log[..|w2.log|] == w2.log;
  }

  lemma {:induction false} AttemptIsBuilt(w: World, a: Attempt)
    requires Starts(w) && Follows(w, a)
    ensures var w1, w2, w3 := AtReserve(w, a), AtCounter(w, a), AtLedger(w, a);
            var i := |w1.calls[a.c].sent|;
            && w1.log <= w2.log <= w3.log
            && i == |w3.calls[a.c].sent| - 1
            && var s := w3.calls[a.c].sent[i];
               && (s.bind <==> Get(w1.log, ReserveKey).None? || ClearedUnder(Learned(w, a), a.toCounter, a.c))
               && (ClearedUnder(Learned(w, a), a.toCounter, a.c) ==> Get(w1.log, ReserveKey).Some?)
               && BuiltFrom(w3.log, |w2.log|, s)
  {
    RunInvariant(w, a.toReserve);
    ToCounter(AtReserve(w, a), Learned(w, a), AtCounter(w, a), a.c, a.reserve, a.toCounter);
    ToLedger(AtCounter(w, a), a.c, a.counter, a.toLedger);
  }

  lemma {:induction false} Arrives(w: World, c: nat, i: nat)
    requires PendingAt(w, c, i)
    ensures var after := Apply(w, Arrive(c, i));
            && c < |after.calls| && i < |after.calls[c].sent|
            && (after.calls[c].sent[i].status.Refused? <==> !AllHold(w.log, Preconditions(w.calls[c], w.calls[c].sent[i])))
  {
  }

  /** Exactly why an attempt is refused whose record nobody wrote: another call moved the counter after this
      one read it, or bound the reserve after this one learned it, or, refused itself, dropped the process's
      reserve before this one returned it, so that this one tries to bind what is bound. */
  lemma {:induction false} RefusedExactlyWhen(w: World, a: Attempt)
    requires Starts(w) && Follows(w, a)
    requires Get(AtLedger(w, a).log, AtLedger(w, a).calls[a.c].key).None?
    ensures var w1, w2, w3 := AtReserve(w, a), AtCounter(w, a), AtLedger(w, a);
            var i := |w1.calls[a.c].sent|;
            var after := Apply(w3, Arrive(a.c, i));
            && a.c < |after.calls| && i < |after.calls[a.c].sent|
            && (after.calls[a.c].sent[i].status.Refused? <==>
                  || MovedByAnother(w3, a.c, SequenceKey, |w2.log|)
                  || MovedByAnother(w3, a.c, ReserveKey, |w1.log|)
                  || ClearedUnder(Learned(w, a), a.toCounter, a.c))
  {
    var w1, w2, w3 := AtReserve(w, a), AtCounter(w, a), AtLedger(w, a);
    var i := |w1.calls[a.c].sent|;
    AttemptIsBuilt(w, a);
    AtLedgerFacts(w, a);
    assert w3.log[..|w1.log|] == w1.log;
    Verdict(w3.log, |w1.log|, |w2.log|, w3.calls[a.c], w3.calls[a.c].sent[i],
            ClearedUnder(Learned(w, a), a.toCounter, a.c));
    MoverIsAnother(w3, a.c, SequenceKey, |w2.log|, |w.log|);
    MoverIsAnother(w3, a.c, ReserveKey, |w1.log|, |w.log|);
    Arrives(w3, a.c, i);
  }

  lemma {:induction false} KeepsBoth(w: World, c: nat, choice: Choice, acts: seq<Act>, k: nat)
    requires Inv(w) && Authored(w, k)
    ensures Inv(Run(Apply(w, Step(c, choice)), acts)) && Authored(Run(Apply(w, Step(c, choice)), acts), k)
  {
    ApplyKeeps(w, Step(c, choice));
    ApplyKeepsAuthored(w, Step(c, choice), k);
    RunKeeps(Apply(w, Step(c, choice)), acts);
    RunKeepsAuthored(Apply(w, Step(c, choice)), acts, k);
  }

  lemma {:induction false} NoneLanded(w: World, c: nat)
    requires Inv(w) && c < |w.calls| && w.calls[c].sent != [] && !w.calls[c].sent[|w.calls[c].sent| - 1].status.Landed?
    ensures forall j, t :: !LandedAs(w, c, j, t)
  {
    assert CallOk(w.log, w.procs, w.calls[c]);
  }

  lemma {:induction false} AtLedgerFacts(w: World, a: Attempt)
    requires Starts(w) && Follows(w, a)
    requires |AtReserve(w, a).calls[a.c].sent| == |AtLedger(w, a).calls[a.c].sent| - 1
    ensures var w3 := AtLedger(w, a);
            && WriteOnce(w3.log) && Authored(w3, |w.log|) && |w.log| <= |AtReserve(w, a).log|
            && forall j, t :: !LandedAs(w3, a.c, j, t)
  {
    RunInvariant(w, a.toReserve);
    RunGrows(w, a.toReserve);
    RunKeepsAuthored(w, a.toReserve, |w.log|);
    KeepsBoth(AtReserve(w, a), a.c, a.reserve, a.toCounter, |w.log|);
    KeepsBoth(AtCounter(w, a), a.c, a.counter, a.toLedger, |w.log|);
    NoneLanded(AtLedger(w, a), a.c);
  }

  /** So a refused attempt that is worth retrying, because at some later moment its record is still not
      there, was overtaken by another call's commit, or had the global dropped under it by another refused call. */
  lemma {:induction false} RetriedRefusalHasACause(w: World, a: Attempt, later: seq<Act>)
    requires Starts(w) && Follows(w, a)
    requires var w3 := AtLedger(w, a);
             var after := Apply(w3, Arrive(a.c, |AtReserve(w, a).calls[a.c].sent|));
             && a.c < |after.calls| && |AtReserve(w, a).calls[a.c].sent| < |after.calls[a.c].sent|
             && after.calls[a.c].sent[|AtReserve(w, a).calls[a.c].sent|].status.Refused?
             && Get(Run(after, later).log, w3.calls[a.c].key).None?
    ensures var w1, w2, w3 := AtReserve(w, a), AtCounter(w, a), AtLedger(w, a);
            || MovedByAnother(w3, a.c, SequenceKey, |w2.log|)
            || MovedByAnother(w3, a.c, ReserveKey, |w1.log|)
            || ClearedUnder(Learned(w, a), a.toCounter, a.c)
  {
    var w3 := AtLedger(w, a);
    var after := Apply(w3, Arrive(a.c, |AtReserve(w, a).calls[a.c].sent|));
    RunGrows(after, later);
    NotYet(w3.log, Run(after, later).log, w3.calls[a.c].key);
    RefusedExactlyWhen(w, a);
  }
}
