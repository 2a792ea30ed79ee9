/** The ordered write as a step system: any number of writer processes, each
    with its own caches and any number of concurrent calls, against one ledger.
    Every remote call, and every locked or global access, is one step, so a run
    is any interleaving of them. A point read answers from some earlier state of
    the ledger or fails; an ExecAll, once sent, may be taken up at any later
    moment or never, and its reply may be lost. */
module OrderedCommit {
  import opened Wrappers
  import opened Ledger

  /** The first integer a binary64 score cannot follow. */
  const MAX_POSITION: nat := 0x20_0000_0000_0000

  /** The counter as some read or commit showed it: a value and the transaction that set it. */
  datatype Counter = Counter(value: nat, tx: nat)

  datatype Status = Pending | Landed(tx: nat) | Refused | Dropped

  /** One ExecAll this call has put on the wire. */
  datatype Sent = Sent(next: nat, observed: Option<Counter>, bind: bool, status: Status)

  /** What an exception that leaves the retry loop says about its cause. */
  datatype Cause = BudgetExhausted | OtherCause

  datatype Response =
    | Committed(tx: nat, position: Option<nat>, verified: bool)  // committed: true
    | NotCommitted                                          // committed: false
    | NotEstablished                                        // committed: null
    | Conflict                                              // HTTP 409

  datatype Pc =
    | GetClient
    | LoopTop
    | ReadReserve                           // is the cached reserve there?
    | FetchReserve                          // it was not: read the ledger's
    | LoadReserve                           // it was, or has just been filled: return the global
    | ReadCache
    | ReadCounter
    | Issue
    | Wait
    | AskPresent
    | DropSeqCache
    | DropReserveCache
    | SaveSeqCache(tx: nat)
    | SaveReserveCache(tx: nat)
    | Verify(tx: nat)
    | Confirm(cause: Cause)
    | FindPosition(tx: nat)
    | Done(response: Response)
    | Lost                                  // its process restarted under it

  /** A verifier process: its configuration and its two module-level caches. */
  datatype Proc = Proc(reserve: nat, maxAttempts: int, cacheEnabled: bool,
                       seqCache: Option<Counter>, reserveCache: Option<nat>)

  datatype Call = Call(proc: nat, key: Key, value: Value, view: View, pc: Pc, attempts: int,
                       bound: Option<nat>, observed: Option<Counter>, next: nat, sent: seq<Sent>)

  datatype World = World(log: Log, procs: seq<Proc>, calls: seq<Call>)

  /** How the environment resolves one step. */
  datatype Choice =
    | Proceed
    | Fail
    | Read(n: nat)                          // answered from the first n transactions
    | Rows(n: nat, rows: seq<ZAdd>)         // a zScan answer, its bound applied or not

  datatype Act =
    | Start(proc: nat, key: Key, value: Value, view: View)
    | Step(call: nat, choice: Choice)
    | Arrive(call: nat, i: nat)             // the ledger takes up the call's i-th ExecAll
    | Drop(call: nat, i: nat)               // that ExecAll never reaches it
    | Unrelated(name: string, value: Value) // a write under some other key
    | Restart(proc: nat)

  // ----- one ExecAll -----

  function Preconditions(call: Call, s: Sent): seq<Precondition> {
    [match s.observed
     case None => KeyMustNotExist(SequenceKey)
     case Some(c) => KeyNotModifiedAfterTx(SequenceKey, c.tx),
     KeyMustNotExist(call.key)]
    + (if s.bind then [KeyMustNotExist(ReserveKey)] else [])
  }

  function Operations(proc: Proc, call: Call, s: Sent): Tx {
    var sets := map[call.key := call.value, SequenceKey := Number(s.next)];
    Tx(if s.bind then sets[ReserveKey := Number(proc.reserve)] else sets,
       {ZAdd(call.view, s.next, call.key)})
  }

  // ----- the call's own steps -----

  /** A step changes where a call is, never what it asked for. */
  predicate SameRequest(call: Call, call': Call) {
    call'.key == call.key && call'.value == call.value && call'.view == call.view && call'.proc == call.proc
  }

  /** An exception leaving the loop: it carries "an ExecAll was issued" when one was. */
  function Raise(call: Call, cause: Cause): (call': Call)
    ensures SameRequest(call, call')
  {
    call.(pc := if |call.sent| > 0 then Confirm(cause) else Done(NotCommitted))
  }

  function WithBound(proc: Proc, call: Call, bound: Option<nat>): (call': Call)
    ensures SameRequest(call, call')
  {
    var c := call.(bound := bound);
    if bound.Some? && bound.value != proc.reserve then Raise(c, OtherCause) else c.(pc := ReadCache)
  }

  /** The reserve the ledger has bound, kept in the process's global if there is one. */
  function FetchStep(log: Log, proc: Proc, call: Call, choice: Choice): (r: (Proc, Call))
    ensures SameRequest(call, r.1)
  {
    match choice
    case Read(n) =>
      (match Get(Snapshot(log, n), ReserveKey)
       case None => (proc, WithBound(proc, call, None))
       case Some(e) =>
         if e.value.Number? && 1 <= e.value.n < MAX_POSITION then
           (proc.(reserveCache := Some(e.value.n)), call.(pc := LoadReserve))
         else (proc, Raise(call, OtherCause)))
    case _ => (proc, Raise(call, OtherCause))
  }

  function CounterStep(log: Log, call: Call, choice: Choice): (call': Call)
    ensures SameRequest(call, call')
  {
    match choice
    case Read(n) =>
      (match Get(Snapshot(log, n), SequenceKey)
       case None => call.(observed := None, pc := Issue)
       case Some(e) =>
         if e.value.Number? then call.(observed := Some(Counter(e.value.n, e.tx)), pc := Issue)
         else Raise(call, OtherCause))
    case _ => Raise(call, OtherCause)
  }

  function NextPosition(proc: Proc, observed: Option<Counter>): nat {
    match observed
    case None => proc.reserve + 1
    case Some(c) => c.value + 1
  }

  function IssueStep(proc: Proc, call: Call): (call': Call)
    ensures SameRequest(call, call')
  {
    var next := NextPosition(proc, call.observed);
    if next >= MAX_POSITION then Raise(call.(next := next), OtherCause)
    else call.(next := next, pc := Wait,
               sent := call.sent + [Sent(next, call.observed, call.bound.None?, Pending)])
  }

  function WaitStep(call: Call, choice: Choice): (call': Call)
    ensures SameRequest(call, call')
  {
    if call.sent == [] then call
    else if choice.Fail? then call.(pc := Confirm(OtherCause))
    else match call.sent[|call.sent| - 1].status
    case Landed(tx) => call.(pc := SaveSeqCache(tx))
    case Refused => call.(pc := AskPresent)
    case _ => call
  }

  function AskStep(log: Log, call: Call, choice: Choice): (call': Call)
    ensures SameRequest(call, call')
  {
    match choice
    case Read(n) =>
      if Get(Snapshot(log, n), call.key).Some? then call.(pc := Done(Conflict)) else call.(pc := DropSeqCache)
    case _ => call.(pc := DropSeqCache)
  }

  /** The read that settles what a lost reply left open. */
  function ConfirmStep(log: Log, call: Call, cause: Cause, choice: Choice): (call': Call)
    ensures SameRequest(call, call')
  {
    match choice
    case Read(n) =>
      (match Get(Snapshot(log, n), call.key)
       case None => call.(pc := Done(if cause.BudgetExhausted? then NotCommitted else NotEstablished))
       case Some(e) =>
         if e.value != call.value then call.(pc := Done(NotCommitted)) else call.(pc := FindPosition(e.tx)))
    case _ => call.(pc := Done(NotEstablished))
  }

  /** The position read back for `key`, reported only when the score returned is the one asked for. */
  function ConfirmedPosition(rows: seq<ZAdd>, key: Key, asked: nat): Option<nat> {
    if rows == [] then None
    else if rows[0].key != key then ConfirmedPosition(rows[1..], key, asked)
    else if rows[0].score == asked then Some(rows[0].score)
    else None
  }

  predicate RowsOf(log: Log, view: View, rows: seq<ZAdd>) {
    forall i :: 0 <= i < |rows| ==> rows[i].view == view && InView(log, rows[i])
  }

  function PositionStep(log: Log, call: Call, tx: nat, choice: Choice): (call': Call)
    ensures SameRequest(call, call')
  {
    match choice
    case Rows(n, rows) =>
      if RowsOf(Snapshot(log, n), call.view, rows) then
        call.(pc := Done(Committed(tx, ConfirmedPosition(rows, call.key, call.next), false)))
      else call
    case _ => call.(pc := Done(Committed(tx, None, false)))
  }

  /** One step of one call: the process's caches and the call after it. */
  function Local(log: Log, proc: Proc, call: Call, choice: Choice): (r: (Proc, Call))
    ensures SameRequest(call, r.1)
  {
    match call.pc
    case GetClient =>
      (proc, call.(pc := if choice.Fail? then Done(NotCommitted) else LoopTop))
    case LoopTop =>
      (proc, if call.attempts < proc.maxAttempts then call.(attempts := call.attempts + 1, pc := ReadReserve)
             else Raise(call, BudgetExhausted))
    case ReadReserve => (proc, call.(pc := if proc.reserveCache.Some? then LoadReserve else FetchReserve))
    case FetchReserve => FetchStep(log, proc, call, choice)
    case LoadReserve => (proc, WithBound(proc, call, proc.reserveCache))
    case ReadCache =>
      (proc, if proc.cacheEnabled && proc.seqCache.Some? then call.(observed := proc.seqCache, pc := Issue)
             else call.(pc := ReadCounter))
    case ReadCounter => (proc, CounterStep(log, call, choice))
    case Issue => (proc, IssueStep(proc, call))
    case Wait => (proc, WaitStep(call, choice))
    case AskPresent => (proc, AskStep(log, call, choice))
    case DropSeqCache => (proc.(seqCache := None), call.(pc := DropReserveCache))
    case DropReserveCache => (proc.(reserveCache := None), call.(pc := LoopTop))
    case SaveSeqCache(tx) => (proc.(seqCache := Some(Counter(call.next, tx))), call.(pc := SaveReserveCache(tx)))
    case SaveReserveCache(tx) =>
      (if call.bound.None? then proc.(reserveCache := Some(proc.reserve)) else proc, call.(pc := Verify(tx)))
    case Verify(tx) => (proc, call.(pc := Done(Committed(tx, Some(call.next), choice.Proceed?))))
    case Confirm(cause) => (proc, ConfirmStep(log, call, cause, choice))
    case FindPosition(tx) => (proc, PositionStep(log, call, tx, choice))
    case Done(_) => (proc, call)
    case Lost => (proc, call)
  }

  function NewCall(proc: nat, key: Key, value: Value, view: View): Call {
    Call(proc, key, value, view, GetClient, 0, None, None, 0, [])
  }

  function SetStatus(call: Call, i: nat, status: Status): Call
    requires i < |call.sent|
  {
    call.(sent := call.sent[i := call.sent[i].(status := status)])
  }

  predicate PendingAt(w: World, c: nat, i: nat) {
    c < |w.calls| && w.calls[c].proc < |w.procs| && i < |w.calls[c].sent| && w.calls[c].sent[i].status.Pending?
  }

  /** A restart ends the process's unfinished calls; what they sent may still land. */
  function Orphan(call: Call, p: nat): Call {
    if call.proc == p && !call.pc.Done? then call.(pc := Lost) else call
  }

  /** One step of the whole system; a step that does not apply changes nothing. */
  function Apply(w: World, act: Act): World {
    match act
    case Start(p, key, value, view) =>
      if p < |w.procs| && key.RecordKey? then w.(calls := w.calls + [NewCall(p, key, value, view)]) else w
    case Step(c, choice) =>
      if c < |w.calls| && w.calls[c].proc < |w.procs| then
        var p := w.calls[c].proc;
        var (proc, call) := Local(w.log, w.procs[p], w.calls[c], choice);
        w.(procs := w.procs[p := proc], calls := w.calls[c := call])
      else w
    case Arrive(c, i) =>
      if PendingAt(w, c, i) then
        var call := w.calls[c];
        if AllHold(w.log, Preconditions(call, call.sent[i])) then
          w.(log := w.log + [Operations(w.procs[call.proc], call, call.sent[i])],
             calls := w.calls[c := SetStatus(call, i, Landed(|w.log| + 1))])
        else w.(calls := w.calls[c := SetStatus(call, i, Refused)])
      else w
    case Drop(c, i) =>
      if PendingAt(w, c, i) then w.(calls := w.calls[c := SetStatus(w.calls[c], i, Dropped)]) else w
    case Unrelated(name, value) => w.(log := w.log + [Tx(map[PlainKey(name) := value], {})])
    case Restart(p) =>
      if p < |w.procs| then
        w.(procs := w.procs[p := w.procs[p].(seqCache := None, reserveCache := None)],
           calls := seq(|w.calls|, c requires 0 <= c < |w.calls| => Orphan(w.calls[c], p)))
      else w
  }

  function Run(w: World, acts: seq<Act>): World
    decreases |acts|
  {
    if acts == [] then w else Run(Apply(w, acts[0]), acts[1..])
  }
}
