/** The inductive invariant of the ordered write: what the ledger, the caches and
    every call know, kept by every step of every interleaving. */
module WriterInvariant {
  import opened Wrappers
  import opened Ledger
  import opened LedgerInvariant
  import opened OrderedCommit

  /** `c` is a past state of the counter: transaction c.tx set it to c.value. */
  predicate CounterAt(log: Log, c: Counter) {
    Wrote(log, SequenceKey, c.tx) && log[c.tx - 1].sets[SequenceKey] == Number(c.value)
  }

  predicate BoundIs(log: Log, r: nat) {
    Get(log, ReserveKey).Some? && Get(log, ReserveKey).value.value == Number(r)
  }

  /** Transaction `tx` wrote exactly `value` under `key`. */
  predicate RecordAt(log: Log, key: Key, value: Value, tx: nat) {
    Wrote(log, key, tx) && log[tx - 1].sets[key] == value
  }

  function Reserves(procs: seq<Proc>): seq<nat> {
    seq(|procs|, i requires 0 <= i < |procs| => procs[i].reserve)
  }

  predicate ProcOk(log: Log, proc: Proc) {
    && (proc.seqCache.Some? ==> CounterAt(log, proc.seqCache.value))
    && (proc.reserveCache.Some? ==> BoundIs(log, proc.reserveCache.value))
  }

  predicate SentOk(log: Log, proc: Proc, call: Call, s: Sent) {
    && s.next == NextPosition(proc, s.observed) < MAX_POSITION
    && (s.observed.Some? ==> CounterAt(log, s.observed.value))
    && (!s.bind ==> BoundIs(log, proc.reserve))
    && (s.status.Landed? ==>
          && 1 <= s.status.tx <= |log|
          && log[s.status.tx - 1] == Operations(proc, call, s)
          && BoundIs(log, proc.reserve))
  }

  predicate AllRefused(call: Call) {
    forall i :: 0 <= i < |call.sent| ==> call.sent[i].status.Refused?
  }

  /** None of this call's ExecAlls committed, and none still on the wire can. */
  predicate NeverLands(log: Log, call: Call) {
    forall i :: 0 <= i < |call.sent| ==>
      !call.sent[i].status.Landed? && (call.sent[i].status.Pending? ==> Get(log, call.key).Some?)
  }

  predicate LastLanded(call: Call, tx: nat) {
    |call.sent| > 0 && call.sent[|call.sent| - 1].status == Landed(tx)
    && call.sent[|call.sent| - 1].next == call.next
    && (call.bound.None? ==> call.sent[|call.sent| - 1].bind)
  }

  /** What the response may claim about the ledger. */
  ghost predicate ResponseOk(log: Log, call: Call, response: Response) {
    match response
    case Committed(tx, position, _) =>
      && RecordAt(log, call.key, call.value, tx)
      && (position.Some? ==> InView(log, ZAdd(call.view, position.value, call.key)))
    case NotCommitted => NeverLands(log, call)
    case NotEstablished => true
    case Conflict => AllRefused(call) && Get(log, call.key).Some?
  }

  ghost predicate PcOk(log: Log, proc: Proc, call: Call) {
    match call.pc
    case GetClient => call.sent == []
    case AskPresent => AllRefused(call) && call.sent != []
    case LoopTop | ReadReserve | FetchReserve | LoadReserve | DropSeqCache | DropReserveCache => AllRefused(call)
    case ReadCache | ReadCounter | Issue =>
      AllRefused(call) && (call.bound.Some? ==> call.bound.value == proc.reserve)
    case Wait =>
      |call.sent| > 0 && call.sent[|call.sent| - 1].next == call.next
      && (call.bound.None? ==> call.sent[|call.sent| - 1].bind)
    case SaveSeqCache(tx) => LastLanded(call, tx)
    case SaveReserveCache(tx) => LastLanded(call, tx)
    case Verify(tx) => LastLanded(call, tx)
    case Confirm(cause) => call.sent != [] && (cause.BudgetExhausted? ==> AllRefused(call))
    case FindPosition(tx) => call.sent != [] && RecordAt(log, call.key, call.value, tx)
    case Done(response) => ResponseOk(log, call, response)
    case Lost => true
  }

  ghost predicate CallOk(log: Log, procs: seq<Proc>, call: Call) {
    && call.proc < |procs|
    && call.key.RecordKey?
    && (call.bound.Some? ==> BoundIs(log, call.bound.value))
    && (call.observed.Some? ==> CounterAt(log, call.observed.value))
    && (forall i :: 0 <= i < |call.sent| ==> SentOk(log, procs[call.proc], call, call.sent[i]))
    && (forall i :: 0 <= i < |call.sent| - 1 ==> call.sent[i].status.Refused?)
    && PcOk(log, procs[call.proc], call)
  }

  ghost predicate Inv(w: World) {
    && LedgerOk(w.log, Reserves(w.procs))
    && (forall p :: 0 <= p < |w.procs| ==> ProcOk(w.log, w.procs[p]))
    && (forall c :: 0 <= c < |w.calls| ==> CallOk(w.log, w.procs, w.calls[c]))
  }

  // ----- steps that leave the ledger alone -----

  lemma {:induction false} SnapshotFacts(log: Log, n: nat)
    requires WriteOnce(log)
    ensures forall key :: Once(key) && Get(Snapshot(log, n), key).Some? ==> Get(log, key) == Get(Snapshot(log, n), key)
    ensures var e := Get(Snapshot(log, n), SequenceKey);
            e.Some? && e.value.value.Number? ==> CounterAt(log, Counter(e.value.value.n, e.value.tx))
  {
    if n <= |log| {
      forall key | Once(key) && Get(log[..n], key).Some? ensures Get(log, key) == Get(log[..n], key) {
        GetFromSnapshot(log, n, key);
      }
    }
  }

  lemma {:induction false} PositionFromRows(log: Log, rows: seq<ZAdd>, view: View, key: Key, asked: nat)
    requires RowsOf(log, view, rows)
    ensures var p := ConfirmedPosition(rows, key, asked); p.Some? ==> InView(log, ZAdd(view, p.value, key))
  {
    if rows != [] && rows[0].key != key {
      assert RowsOf(log, view, rows[1..]);
      PositionFromRows(log, rows[1..], view, key, asked);
    } else if rows != [] {
      assert rows[0] == ZAdd(view, rows[0].score, key);
    }
  }

  /** A landed ExecAll put the call's record and its position in the ledger. */
  lemma {:induction false} LandedFacts(log: Log, proc: Proc, call: Call, s: Sent)
    requires SentOk(log, proc, call, s) && s.status.Landed? && call.key.RecordKey?
    ensures RecordAt(log, call.key, call.value, s.status.tx)
    ensures InView(log, ZAdd(call.view, s.next, call.key))
    ensures CounterAt(log, Counter(s.next, s.status.tx))
  {
    assert Added(log, ZAdd(call.view, s.next, call.key), s.status.tx);
  }

  /** Different bytes under a write-once key mean nothing of this call's landed or can. */
  lemma {:induction false} OtherBytesMeanNever(log: Log, procs: seq<Proc>, call: Call)
    requires WriteOnce(log) && CallOk(log, procs, call)
    requires Get(log, call.key).Some? && Get(log, call.key).value.value != call.value
    ensures NeverLands(log, call)
  {
    forall i | 0 <= i < |call.sent| ensures !call.sent[i].status.Landed? {
      if call.sent[i].status.Landed? {
        LandedFacts(log, procs[call.proc], call, call.sent[i]);
        assert false;
      }
    }
  }

  lemma {:induction false} PositionStepOk(log: Log, procs: seq<Proc>, call: Call, choice: Choice)
    requires WriteOnce(log) && CallOk(log, procs, call) && call.pc.FindPosition?
    ensures CallOk(log, procs, PositionStep(log, call, call.pc.tx, choice))
  {
    if choice.Rows? && RowsOf(Snapshot(log, choice.n), call.view, choice.rows) {
      PositionFromRows(Snapshot(log, choice.n), choice.rows, call.view, call.key, call.next);
      var p := ConfirmedPosition(choice.rows, call.key, call.next);
      if p.Some? && choice.n <= |log| {
        InViewFromSnapshot(log, choice.n, ZAdd(call.view, p.value, call.key));
      }
    }
  }

  lemma {:induction false} IssueStepOk(log: Log, procs: seq<Proc>, call: Call)
    requires CallOk(log, procs, call) && call.pc.Issue?
    ensures CallOk(log, procs, IssueStep(procs[call.proc], call))
  {
    var call' := IssueStep(procs[call.proc], call);
    forall i | 0 <= i < |call'.sent| ensures SentOk(log, procs[call.proc], call', call'.sent[i]) {
      if i < |call.sent| {
        assert SentOk(log, procs[call.proc], call, call.sent[i]);
      }
    }
  }

  /** A step that changes only what a call remembers of its reads, and where it stands. */
  lemma {:induction false} SameSent(log: Log, procs: seq<Proc>, call: Call, call': Call)
    requires CallOk(log, procs, call)
    requires call' == call.(pc := call'.pc, attempts := call'.attempts, bound := call'.bound,
                            observed := call'.observed, next := call'.next)
    requires call'.bound.Some? ==> BoundIs(log, call'.bound.value)
    requires call'.observed.Some? ==> CounterAt(log, call'.observed.value)
    requires PcOk(log, procs[call.proc], call')
    ensures CallOk(log, procs, call')
  {
    forall i | 0 <= i < |call'.sent| ensures SentOk(log, procs[call.proc], call', call'.sent[i]) {
      assert SentOk(log, procs[call.proc], call, call.sent[i]);
    }
  }

  lemma {:induction false} RaiseOk(log: Log, procs: seq<Proc>, call: Call, cause: Cause)
    requires CallOk(log, procs, call) && AllRefused(call)
    ensures CallOk(log, procs, Raise(call, cause))
  {
    SameSent(log, procs, call, Raise(call, cause));
  }

  lemma {:induction false} WithBoundOk(log: Log, procs: seq<Proc>, call: Call, bound: Option<nat>)
    requires CallOk(log, procs, call) && AllRefused(call) && (bound.Some? ==> BoundIs(log, bound.value))
    ensures CallOk(log, procs, WithBound(procs[call.proc], call, bound))
  {
    SameSent(log, procs, call, WithBound(procs[call.proc], call, bound));
  }

  lemma {:induction false} FetchStepOk(log: Log, procs: seq<Proc>, call: Call, choice: Choice)
    requires WriteOnce(log) && CallOk(log, procs, call) && ProcOk(log, procs[call.proc]) && call.pc.FetchReserve?
    ensures var (proc', call') := FetchStep(log, procs[call.proc], call, choice);
            ProcOk(log, proc') && CallOk(log, procs, call')
  {
    if choice.Read? { SnapshotFacts(log, choice.n); }
    RaiseOk(log, procs, call, OtherCause);
    WithBoundOk(log, procs, call, None);
    SameSent(log, procs, call, call.(pc := LoadReserve));
  }

  lemma {:induction false} CounterStepOk(log: Log, procs: seq<Proc>, call: Call, choice: Choice)
    requires WriteOnce(log) && CallOk(log, procs, call) && call.pc.ReadCounter?
    ensures CallOk(log, procs, CounterStep(log, call, choice))
  {
    if choice.Read? { SnapshotFacts(log, choice.n); }
    SameSent(log, procs, call, CounterStep(log, call, choice));
  }

  lemma {:induction false} AskStepOk(log: Log, procs: seq<Proc>, call: Call, choice: Choice)
    requires WriteOnce(log) && CallOk(log, procs, call) && call.pc.AskPresent?
    ensures CallOk(log, procs, AskStep(log, call, choice))
  {
    if choice.Read? { SnapshotFacts(log, choice.n); }
    SameSent(log, procs, call, AskStep(log, call, choice));
  }

  lemma {:induction false} ConfirmStepOk(log: Log, procs: seq<Proc>, call: Call, choice: Choice)
    requires WriteOnce(log) && CallOk(log, procs, call) && call.pc.Confirm?
    ensures CallOk(log, procs, ConfirmStep(log, call, call.pc.cause, choice))
  {
    var call' := ConfirmStep(log, call, call.pc.cause, choice);
    if choice.Read? && Get(Snapshot(log, choice.n), call.key).Some? {
      if choice.n <= |log| { GetFromSnapshot(log, choice.n, call.key); }
      if call'.pc == Done(NotCommitted) {
        OtherBytesMeanNever(log, procs, call);
      } else {
        assert RecordAt(log, call.key, call.value, call'.pc.tx);
      }
    }
    SameSent(log, procs, call, call');
  }

  lemma {:induction false} WaitStepOk(log: Log, procs: seq<Proc>, call: Call, choice: Choice)
    requires CallOk(log, procs, call) && call.pc.Wait?
    ensures CallOk(log, procs, WaitStep(call, choice))
  {
    SameSent(log, procs, call, WaitStep(call, choice));
  }

  lemma {:induction false} LocalKeeps(log: Log, procs: seq<Proc>, call: Call, choice: Choice)
    requires WriteOnce(log) && CallOk(log, procs, call) && ProcOk(log, procs[call.proc])
    ensures var (proc', call') := Local(log, procs[call.proc], call, choice);
            && proc'.reserve == procs[call.proc].reserve
            && ProcOk(log, proc')
            && CallOk(log, procs, call')
  {
    match call.pc
    case FetchReserve => FetchStepOk(log, procs, call, choice);
    case LoadReserve => WithBoundOk(log, procs, call, procs[call.proc].reserveCache);
    case ReadCounter => CounterStepOk(log, procs, call, choice);
    case Issue => IssueStepOk(log, procs, call);
    case Wait => WaitStepOk(log, procs, call, choice);
    case AskPresent => AskStepOk(log, procs, call, choice);
    case Confirm(cause) => ConfirmStepOk(log, procs, call, choice);
    case FindPosition(tx) => PositionStepOk(log, procs, call, choice);
    case SaveSeqCache(tx) => LandedStepOk(log, procs, call, choice);
    case SaveReserveCache(tx) => LandedStepOk(log, procs, call, choice);
    case Verify(tx) => LandedStepOk(log, procs, call, choice);
    case _ => OtherStepOk(log, procs, call, choice);
  }

  /** The steps that follow a landed ExecAll. */
  lemma {:induction false} LandedStepOk(log: Log, procs: seq<Proc>, call: Call, choice: Choice)
    requires CallOk(log, procs, call) && ProcOk(log, procs[call.proc])
    requires call.pc.SaveSeqCache? || call.pc.SaveReserveCache? || call.pc.Verify?
    ensures var (proc', call') := Local(log, procs[call.proc], call, choice);
            && proc'.reserve == procs[call.proc].reserve
            && ProcOk(log, proc')
            && CallOk(log, procs, call')
  {
    var proc := procs[call.proc];
    assert SentOk(log, proc, call, call.sent[|call.sent| - 1]);
    LandedFacts(log, proc, call, call.sent[|call.sent| - 1]);
    SameSent(log, procs, call, Local(log, proc, call, choice).1);
  }

  /** The steps that read nothing remote. */
  lemma {:induction false} OtherStepOk(log: Log, procs: seq<Proc>, call: Call, choice: Choice)
    requires CallOk(log, procs, call) && ProcOk(log, procs[call.proc])
    requires call.pc.GetClient? || call.pc.LoopTop? || call.pc.ReadReserve? || call.pc.ReadCache?
          || call.pc.DropSeqCache? || call.pc.DropReserveCache? || call.pc.Done? || call.pc.Lost?
    ensures var (proc', call') := Local(log, procs[call.proc], call, choice);
            && proc'.reserve == procs[call.proc].reserve
            && ProcOk(log, proc')
            && CallOk(log, procs, call')
  {
    SameSent(log, procs, call, Local(log, procs[call.proc], call, choice).1);
  }

  lemma {:induction false} SameConfigKeepsCall(log: Log, procs: seq<Proc>, procs': seq<Proc>, call: Call)
    requires |procs'| == |procs| && CallOk(log, procs, call)
    requires procs'[call.proc].reserve == procs[call.proc].reserve
    ensures CallOk(log, procs', call)
  {
    forall i | 0 <= i < |call.sent| ensures SentOk(log, procs'[call.proc], call, call.sent[i]) {
      assert SentOk(log, procs[call.proc], call, call.sent[i]);
    }
  }

  // ----- the ledger moves -----

  lemma {:induction false} CallStays(log: Log, tx: Tx, procs: seq<Proc>, call: Call)
    requires WriteOnce(log + [tx]) && CallOk(log, procs, call)
    ensures CallOk(log + [tx], procs, call)
  {
    var log' := log + [tx];
    forall i | 0 <= i < |call.sent| ensures SentOk(log', procs[call.proc], call, call.sent[i]) {
      assert SentOk(log, procs[call.proc], call, call.sent[i]);
      if Get(log, ReserveKey).Some? { OnceStays(log, tx, ReserveKey); }
    }
    if Get(log, ReserveKey).Some? { OnceStays(log, tx, ReserveKey); }
    if Get(log, call.key).Some? { OnceStays(log, tx, call.key); }
    match call.pc
    case Done(Committed(_, p, _)) =>
      if p.Some? { AddedAppend(log, tx, ZAdd(call.view, p.value, call.key)); }
    case _ =>
  }

  lemma {:induction false} ProcStays(log: Log, tx: Tx, proc: Proc)
    requires WriteOnce(log + [tx]) && ProcOk(log, proc)
    ensures ProcOk(log + [tx], proc)
  {
    if Get(log, ReserveKey).Some? { OnceStays(log, tx, ReserveKey); }
  }

  /** A granted counter precondition proves the observed value current. */
  lemma {:induction false} GrantedMeansCurrent(log: Log, c: Counter)
    requires CounterAt(log, c) && Holds(log, KeyNotModifiedAfterTx(SequenceKey, c.tx))
    ensures Get(log, SequenceKey) == Some(Entry(Number(c.value), c.tx))
  {
  }

  /** The one step that writes: a granted ExecAll keeps the ledger in order. */
  lemma {:induction false} GrantKeepsLedger(w: World, c: nat, i: nat)
    requires Inv(w) && PendingAt(w, c, i)
    requires AllHold(w.log, Preconditions(w.calls[c], w.calls[c].sent[i]))
    ensures var proc := w.procs[w.calls[c].proc];
            var log' := w.log + [Operations(proc, w.calls[c], w.calls[c].sent[i])];
            && LedgerOk(log', Reserves(w.procs)) && BoundIs(log', proc.reserve)
            // The allocated range is longer by this one transaction, and the counter names its position.
            && Seam(log', proc.reserve) && Live(log', proc.reserve) == Live(w.log, proc.reserve) + [|log'|]
            && Get(log', SequenceKey).value.value == Number(w.calls[c].sent[i].next)
            && w.calls[c].sent[i].next == proc.reserve + |Live(log', proc.reserve)|
  {
    assert CallOk(w.log, w.procs, w.calls[c]);
    GrantExtends(w.log, w.procs, w.calls[c], w.calls[c].sent[i]);
  }

  lemma {:induction false} GrantExtends(log: Log, procs: seq<Proc>, call: Call, s: Sent)
    requires LedgerOk(log, Reserves(procs)) && call.proc < |procs| && call.key.RecordKey?
    requires SentOk(log, procs[call.proc], call, s) && s.status.Pending?
    requires AllHold(log, Preconditions(call, s))
    ensures var proc := procs[call.proc];
            var log' := log + [Operations(proc, call, s)];
            && LedgerOk(log', Reserves(procs)) && BoundIs(log', proc.reserve)
            && Seam(log', proc.reserve) && Live(log', proc.reserve) == Live(log, proc.reserve) + [|log'|]
            && Get(log', SequenceKey).value.value == Number(s.next)
            && s.next == proc.reserve + |Live(log', proc.reserve)|
  {
    var proc, tx, ps := procs[call.proc], Operations(procs[call.proc], call, s), Preconditions(call, s);
    assert Reserves(procs)[call.proc] == proc.reserve;
    assert Holds(log, ps[0]) && Holds(log, ps[1]) && (s.bind ==> Holds(log, ps[2]));
    WriteOnceAppend(log, tx);
    LastTxAppend(log, tx, ReserveKey);
    if s.observed.Some? { GrantedMeansCurrent(log, s.observed.value); }
    assert ZAdd(call.view, s.next, call.key) in tx.adds;
    assert Allocates(tx, s.next);
    assert s.bind <==> Get(log, ReserveKey).None?;
    LastTxAppend(log, tx, SequenceKey);
    LiveAppend(log, tx, proc.reserve);
    if Seam(log, proc.reserve) {
      SeamStep(log, tx, proc.reserve);
    } else {
      FirstAllocation(log, tx, proc.reserve);
    }
  }

  lemma {:induction false} StatusKeepsCall(log: Log, procs: seq<Proc>, call: Call, i: nat, status: Status)
    requires CallOk(log, procs, call) && i < |call.sent| && call.sent[i].status.Pending?
    requires status.Landed? ==> SentOk(log, procs[call.proc], call, call.sent[i].(status := status))
    requires status.Landed? ==> call.pc != Done(NotCommitted)
    ensures CallOk(log, procs, SetStatus(call, i, status))
  {
    var call' := SetStatus(call, i, status);
    forall j | 0 <= j < |call'.sent| ensures SentOk(log, procs[call.proc], call', call'.sent[j]) {
      assert SentOk(log, procs[call.proc], call, call.sent[j]);
    }
  }

  lemma {:induction false} GrantKeepsCall(log: Log, procs: seq<Proc>, call: Call, i: nat)
    requires CallOk(log, procs, call) && i < |call.sent| && call.sent[i].status.Pending?
    requires AllHold(log, Preconditions(call, call.sent[i]))
    requires var log' := log + [Operations(procs[call.proc], call, call.sent[i])];
             WriteOnce(log') && BoundIs(log', procs[call.proc].reserve)
    ensures var log' := log + [Operations(procs[call.proc], call, call.sent[i])];
            CallOk(log', procs, SetStatus(call, i, Landed(|log| + 1)))
  {
    var s := call.sent[i];
    var tx := Operations(procs[call.proc], call, s);
    assert Holds(log, Preconditions(call, s)[1]);
    assert call.pc != Done(NotCommitted);
    CallStays(log, tx, procs, call);
    assert SentOk(log + [tx], procs[call.proc], call, s);
    StatusKeepsCall(log + [tx], procs, call, i, Landed(|log| + 1));
  }

  lemma {:induction false} GrantKeeps(w: World, c: nat, i: nat)
    requires Inv(w) && PendingAt(w, c, i)
    requires AllHold(w.log, Preconditions(w.calls[c], w.calls[c].sent[i]))
    ensures Inv(Apply(w, Arrive(c, i)))
  {
    var tx := Operations(w.procs[w.calls[c].proc], w.calls[c], w.calls[c].sent[i]);
    var w' := Apply(w, Arrive(c, i));
    GrantKeepsLedger(w, c, i);
    forall p | 0 <= p < |w'.procs| ensures ProcOk(w'.log, w'.procs[p]) { ProcStays(w.log, tx, w.procs[p]); }
    forall d | 0 <= d < |w'.calls| ensures CallOk(w'.log, w'.procs, w'.calls[d]) { GrantKeepsEachCall(w, c, i, d); }
  }

  lemma {:induction false} GrantKeepsEachCall(w: World, c: nat, i: nat, d: nat)
    requires Inv(w) && PendingAt(w, c, i) && d < |w.calls|
    requires AllHold(w.log, Preconditions(w.calls[c], w.calls[c].sent[i]))
    ensures var log' := w.log + [Operations(w.procs[w.calls[c].proc], w.calls[c], w.calls[c].sent[i])];
            CallOk(log', w.procs, if d == c then SetStatus(w.calls[c], i, Landed(|w.log| + 1)) else w.calls[d])
  {
    var tx := Operations(w.procs[w.calls[c].proc], w.calls[c], w.calls[c].sent[i]);
    GrantKeepsLedger(w, c, i);
    if d == c {
      GrantKeepsCall(w.log, w.procs, w.calls[c], i);
    } else {
      CallStays(w.log, tx, w.procs, w.calls[d]);
    }
  }

  lemma {:induction false} ArriveKeeps(w: World, c: nat, i: nat)
    requires Inv(w) && PendingAt(w, c, i)
    ensures Inv(Apply(w, Arrive(c, i)))
  {
    if AllHold(w.log, Preconditions(w.calls[c], w.calls[c].sent[i])) {
      GrantKeeps(w, c, i);
    } else {
      StatusKeepsCall(w.log, w.procs, w.calls[c], i, Refused);
    }
  }

  lemma {:induction false} StepKeeps(w: World, c: nat, choice: Choice)
    requires Inv(w)
    ensures Inv(Apply(w, Step(c, choice)))
  {
    if c < |w.calls| {
      var p := w.calls[c].proc;
      LocalKeeps(w.log, w.procs, w.calls[c], choice);
      var w' := Apply(w, Step(c, choice));
      assert Reserves(w'.procs) == Reserves(w.procs);
      forall d | 0 <= d < |w'.calls| ensures CallOk(w'.log, w'.procs, w'.calls[d]) {
        SameConfigKeepsCall(w.log, w.procs, w'.procs, w'.calls[d]);
      }
    }
  }

  lemma {:induction false} UnrelatedKeeps(w: World, name: string, value: Value)
    requires Inv(w)
    ensures Inv(Apply(w, Unrelated(name, value)))
  {
    var tx := Tx(map[PlainKey(name) := value], {});
    var log' := w.log + [tx];
    UnrelatedKeepsLedger(w.log, name, value, Reserves(w.procs));
    forall p | 0 <= p < |w.procs| ensures ProcOk(log', w.procs[p]) { ProcStays(w.log, tx, w.procs[p]); }
    forall c | 0 <= c < |w.calls| ensures CallOk(log', w.procs, w.calls[c]) { CallStays(w.log, tx, w.procs, w.calls[c]); }
  }

  lemma {:induction false} RestartKeeps(w: World, p: nat)
    requires Inv(w)
    ensures Inv(Apply(w, Restart(p)))
  {
    var w' := Apply(w, Restart(p));
    assert Reserves(w'.procs) == Reserves(w.procs);
    forall d | 0 <= d < |w'.calls| ensures CallOk(w'.log, w'.procs, w'.calls[d]) {
      SameSent(w.log, w.procs, w.calls[d], Orphan(w.calls[d], p));
      SameConfigKeepsCall(w.log, w.procs, w'.procs, w'.calls[d]);
    }
  }

  /** Every step of the system keeps the invariant. */
  lemma {:induction false} ApplyKeeps(w: World, act: Act)
    requires Inv(w)
    ensures Inv(Apply(w, act))
  {
    match act
    case Start(_, _, _, _) =>
    case Step(c, choice) => StepKeeps(w, c, choice);
    case Arrive(c, i) => if PendingAt(w, c, i) { ArriveKeeps(w, c, i); }
    case Drop(c, i) => if PendingAt(w, c, i) { StatusKeepsCall(w.log, w.procs, w.calls[c], i, Dropped); }
    case Unrelated(name, value) => UnrelatedKeeps(w, name, value);
    case Restart(p) => RestartKeeps(w, p);
  }

  /** Every run of every interleaving keeps the invariant. */
  lemma {:induction false} RunKeeps(w: World, acts: seq<Act>)
    requires Inv(w)
    ensures Inv(Run(w, acts))
    decreases |acts|
  {
    if acts != [] {
      ApplyKeeps(w, acts[0]);
      RunKeeps(Apply(w, acts[0]), acts[1..]);
    }
  }
}
