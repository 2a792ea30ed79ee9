/** The ordered write in its own form: the retry loop, its caches and the handlers
    around it, run by one thread while everything else moves between its steps.
    Every step it takes is a step of the system, so what holds of every run holds
    of its answer. */
module OrderedRoute {
  import opened Wrappers
  import opened Ledger
  import opened OrderedCommit
  import opened WriterInvariant
  import opened OrderedTheorems
  import opened OrderedAnswers

  /** How the retry loop ends: it returns, or one of three kinds of exception leaves it. */
  datatype LoopEnd = Returned(tx: nat) | RecordKeyExists | Uncertain(cause: Cause) | NothingIssued

  /** The call after others moved: its own state is as it was, only its ExecAlls may have been settled. */
  predicate OnlySettled(call: Call, call': Call) {
    && call' == call.(sent := call'.sent)
    && |call'.sent| == |call.sent|
    && forall i :: 0 <= i < |call.sent| ==> call'.sent[i] == call.sent[i].(status := call'.sent[i].status)
  }

  predicate SameConfig(procs: seq<Proc>, procs': seq<Proc>) {
    |procs'| == |procs| &&
    forall p :: 0 <= p < |procs| ==>
      procs'[p].reserve == procs[p].reserve && procs'[p].maxAttempts == procs[p].maxAttempts
      && procs'[p].cacheEnabled == procs[p].cacheEnabled
  }

  /** Not a step of this call's thread, nor a restart of the process it runs in. */
  predicate Elsewhere(w: World, act: Act, c: nat)
    requires c < |w.calls|
  {
    (act.Step? ==> act.call != c) && (act.Restart? ==> act.proc != w.calls[c].proc)
  }

  lemma {:induction false} OthersOnlySettle(w: World, act: Act, c: nat)
    requires c < |w.calls| && Elsewhere(w, act, c)
    ensures var w' := Apply(w, act);
            c < |w'.calls| && OnlySettled(w.calls[c], w'.calls[c]) && SameConfig(w.procs, w'.procs)
  {
    if act.Step? && act.call < |w.calls| && w.calls[act.call].proc < |w.procs| {
      LocalKeepsConfig(w.log, w.procs[w.calls[act.call].proc], w.calls[act.call], act.choice);
    }
  }

  lemma {:induction false} LocalKeepsConfig(log: Log, proc: Proc, call: Call, choice: Choice)
    ensures var proc' := Local(log, proc, call, choice).0;
            proc'.reserve == proc.reserve && proc'.maxAttempts == proc.maxAttempts && proc'.cacheEnabled == proc.cacheEnabled
  {
  }

  /** Where the call stands when its loop has ended that way. */
  predicate Ended(end: LoopEnd, pc: Pc) {
    match end
    case Returned(tx) => pc == Verify(tx)
    case RecordKeyExists => pc == Done(Conflict)
    case Uncertain(cause) => pc == Confirm(cause)
    case NothingIssued => pc == Done(NotCommitted)
  }

  /** The position read back for a key: the first row that names it, if its score is the one asked for. */
  method CommittedPosition(rows: seq<ZAdd>, key: Key, asked: nat) returns (position: Option<nat>)
    ensures position == ConfirmedPosition(rows, key, asked)
    ensures position.Some? ==> position.value == asked && exists i :: 0 <= i < |rows| && rows[i].key == key && rows[i].score == asked
  {
    var i := 0;
    while i < |rows|
      invariant 0 <= i <= |rows|
      invariant ConfirmedPosition(rows[i..], key, asked) == ConfirmedPosition(rows, key, asked)
    {
      if rows[i].key == key {
        position := if rows[i].score == asked then Some(rows[i].score) else None;
        return;
      }
      i := i + 1;
    }
    position := None;
  }

  /** What a call of a run has read is the ledger's, present or past. */
  lemma {:induction false} CallKnows(start: World, trace: seq<Act>, c: nat)
    requires Starts(start) && c < |Run(start, trace).calls|
    ensures var w := Run(start, trace);
            var call := w.calls[c];
            && (call.bound.Some? ==> BoundIs(w.log, call.bound.value))
            && (call.observed.Some? ==> CounterAt(w.log, call.observed.value))
  {
    RunInvariant(start, trace);
    var w := Run(start, trace);
    assert CallOk(w.log, w.procs, w.calls[c]);
  }

  /** What a call of a run has answered is true. */
  lemma {:induction false} CallAnswers(start: World, trace: seq<Act>, c: nat)
    requires Starts(start) && c < |Run(start, trace).calls| && Run(start, trace).calls[c].pc.Done?
    ensures AnswerIsTrue(Run(start, trace), c)
  {
    RunInvariant(start, trace);
    AnswerNow(Run(start, trace), c);
  }

  class Route {
    var w: World
    ghost const start: World
    ghost var trace: seq<Act>

    ghost predicate Valid()
      reads this
    {
      w == Run(start, trace)
    }

    constructor (world: World)
      ensures Valid() && w == world && start == world && trace == []
    {
      w := world;
      start := world;
      trace := [];
    }

    /** The thread running call `c` of process `p`, at `pc`. */
    ghost predicate At(c: nat, p: nat, pc: Pc)
      reads this
    {
      Valid() && c < |w.calls| && w.calls[c].proc == p < |w.procs| && w.calls[c].pc == pc
    }

    /** Anything else that happens meanwhile: other calls, other processes, the ledger taking up
        or never receiving an ExecAll, restarts, unrelated writes. */
    method Others(c: nat)
      requires Valid() && c < |w.calls|
      modifies this
      ensures Valid() && old(trace) <= trace
      ensures c < |w.calls| && OnlySettled(old(w.calls[c]), w.calls[c]) && SameConfig(old(w.procs), w.procs)
    {
      var acts: seq<Act> := *;
      for i := 0 to |acts|
        invariant Valid() && old(trace) <= trace
        invariant c < |w.calls| && OnlySettled(old(w.calls[c]), w.calls[c]) && SameConfig(old(w.procs), w.procs)
      {
        var act := acts[i];
        if Elsewhere(w, act, c) {
          OthersOnlySettle(w, act, c);
          RunSnoc(start, trace, act);
          w := Apply(w, act);
          trace := trace + [act];
        }
      }
    }

    /** One step of this thread: what it leaves behind must be what the step system says. */
    method Take(c: nat, proc: Proc, call: Call, ghost choice: Choice)
      requires Valid() && c < |w.calls| && w.calls[c].proc < |w.procs|
      requires (proc, call) == Local(w.log, w.procs[w.calls[c].proc], w.calls[c], choice)
      modifies this
      ensures Valid() && old(trace) <= trace
      ensures |w.calls| == |old(w.calls)| && w.calls[c] == call && w.log == old(w.log)
      ensures SameConfig(old(w.procs), w.procs) && w.procs[old(w.calls[c].proc)] == proc
    {
      LocalKeepsConfig(w.log, w.procs[w.calls[c].proc], w.calls[c], choice);
      RunSnoc(start, trace, Step(c, choice));
      w := w.(procs := w.procs[w.calls[c].proc := proc], calls := w.calls[c := call]);
      trace := trace + [Step(c, choice)];
    }

    /** An exception on its way out: it carries that an ExecAll was issued, if one was. */
    method Leave(c: nat, ghost choice: Choice, call: Call, cause: Cause, issued: bool) returns (end: LoopEnd)
      requires Valid() && c < |w.calls| && w.calls[c].proc < |w.procs|
      requires issued <==> |w.calls[c].sent| > 0
      requires call.sent == w.calls[c].sent
      requires (w.procs[w.calls[c].proc], Raise(call, cause)) == Local(w.log, w.procs[w.calls[c].proc], w.calls[c], choice)
      modifies this
      ensures Valid() && old(trace) <= trace
      ensures |w.calls| == |old(w.calls)| && w.calls[c] == Raise(call, cause) && SameConfig(old(w.procs), w.procs)
      ensures end == if issued then Uncertain(cause) else NothingIssued
    {
      var proc := w.procs[w.calls[c].proc];
      if issued {
        Take(c, proc, call.(pc := Confirm(cause)), choice);
        end := Uncertain(cause);
      } else {
        Take(c, proc, call.(pc := Done(NotCommitted)), choice);
        end := NothingIssued;
      }
    }

    /** `_read_bound_reserve`: the global if it is filled, else a read of the ledger's that fills it; what is
        returned is the global as it is by then. */
    method ReadBoundReserve(c: nat, p: nat, issued: bool) returns (bound: Option<nat>, end: Option<LoopEnd>)
      requires At(c, p, ReadReserve) && (issued <==> |w.calls[c].sent| > 0)
      modifies this
      ensures Valid() && old(trace) <= trace && SameConfig(old(w.procs), w.procs)
      ensures c < |w.calls| && SameRequest(old(w.calls[c]), w.calls[c])
      ensures |w.calls[c].sent| == |old(w.calls[c].sent)| && w.calls[c].attempts == old(w.calls[c].attempts)
      ensures end.None? ==> w.calls[c].pc == ReadCache && w.calls[c].bound == bound
      // A bound that is used is this process's own reserve, and the one the ledger holds.
      ensures end.None? && bound.Some? ==> p < |w.procs| && bound.value == w.procs[p].reserve
      ensures Starts(start) && end.None? && bound.Some? ==> BoundIs(w.log, bound.value)
      ensures end.Some? ==> Ended(end.value, w.calls[c].pc) && !end.value.Returned?
    {
      Others(c);
      if w.procs[p].reserveCache.None? {
        Take(c, w.procs[p], w.calls[c].(pc := FetchReserve), Proceed);
        var filled;
        filled, end := FetchBoundReserve(c, p, issued);
        if !filled { return None, end; }
      } else {
        Take(c, w.procs[p], w.calls[c].(pc := LoadReserve), Proceed);
      }
      bound, end := ReturnReserve(c, p, issued);
    }

    /** The ledger's reserve, kept in the global; `filled` when there is one. */
    method FetchBoundReserve(c: nat, p: nat, issued: bool) returns (filled: bool, end: Option<LoopEnd>)
      requires At(c, p, FetchReserve) && (issued <==> |w.calls[c].sent| > 0)
      modifies this
      ensures Valid() && old(trace) <= trace && SameConfig(old(w.procs), w.procs)
      ensures c < |w.calls| && SameRequest(old(w.calls[c]), w.calls[c])
      ensures |w.calls[c].sent| == |old(w.calls[c].sent)| && w.calls[c].attempts == old(w.calls[c].attempts)
      ensures filled ==> end.None? && At(c, p, LoadReserve)
      ensures !filled && end.None? ==> w.calls[c].pc == ReadCache && w.calls[c].bound.None?
      ensures end.Some? ==> Ended(end.value, w.calls[c].pc) && !end.value.Returned?
    {
      Others(c);
      var proc, call := w.procs[p], w.calls[c];
      var n: nat, readable: bool := *, *;
      var got := Get(Snapshot(w.log, n), ReserveKey);
      if !readable || (got.Some? && !(got.value.value.Number? && 1 <= got.value.value.n < MAX_POSITION)) {
        var left := Leave(c, if readable then Read(n) else Fail, call, OtherCause, issued);
        return false, Some(left);
      }
      filled, end := got.Some?, None;
      if filled {
        Take(c, proc.(reserveCache := Some(got.value.value.n)), call.(pc := LoadReserve), Read(n));
      } else {
        Take(c, proc, call.(bound := None, pc := ReadCache), Read(n));
      }
    }

    /** The global as it is when it is returned, and the check against this process's own reserve. */
    method ReturnReserve(c: nat, p: nat, issued: bool) returns (bound: Option<nat>, end: Option<LoopEnd>)
      requires At(c, p, LoadReserve) && (issued <==> |w.calls[c].sent| > 0)
      modifies this
      ensures Valid() && old(trace) <= trace && SameConfig(old(w.procs), w.procs)
      ensures c < |w.calls| && SameRequest(old(w.calls[c]), w.calls[c])
      ensures |w.calls[c].sent| == |old(w.calls[c].sent)| && w.calls[c].attempts == old(w.calls[c].attempts)
      ensures end.None? ==> w.calls[c].pc == ReadCache && w.calls[c].bound == bound
      ensures end.None? && bound.Some? ==> p < |w.procs| && bound.value == w.procs[p].reserve
      ensures Starts(start) && end.None? && bound.Some? ==> BoundIs(w.log, bound.value)
      ensures end.Some? ==> Ended(end.value, w.calls[c].pc) && !end.value.Returned?
    {
      Others(c);
      var proc := w.procs[p];
      bound, end := proc.reserveCache, None;
      var call := w.calls[c].(bound := bound);
      if bound.Some? && bound.value != proc.reserve {
        Take(c, proc, Raise(call, OtherCause), Proceed);
        end := Some(if issued then Uncertain(OtherCause) else NothingIssued);
      } else {
        Take(c, proc, call.(pc := ReadCache), Proceed);
        if Starts(start) { CallKnows(start, trace, c); }
      }
    }

    /** `_read_counter`, or the cached pair when there is one. */
    method ObserveCounter(c: nat, p: nat, issued: bool) returns (observed: Option<Counter>, end: Option<LoopEnd>)
      requires At(c, p, ReadCache) && (issued <==> |w.calls[c].sent| > 0)
      modifies this
      ensures Valid() && old(trace) <= trace && SameConfig(old(w.procs), w.procs)
      ensures c < |w.calls| && SameRequest(old(w.calls[c]), w.calls[c]) && w.calls[c].bound == old(w.calls[c].bound)
      ensures |w.calls[c].sent| == |old(w.calls[c].sent)| && w.calls[c].attempts == old(w.calls[c].attempts)
      ensures end.None? ==> w.calls[c].pc == Issue && w.calls[c].observed == observed
      // A pair that is used is a past state of the counter.
      ensures Starts(start) && end.None? && observed.Some? ==> CounterAt(w.log, observed.value)
      ensures end.Some? ==> Ended(end.value, w.calls[c].pc) && !end.value.Returned?
    {
      Others(c);
      end := None;
      var proc := w.procs[p];
      if proc.cacheEnabled && proc.seqCache.Some? {
        observed := proc.seqCache;
        Take(c, proc, w.calls[c].(observed := observed, pc := Issue), Proceed);
        if Starts(start) { CallKnows(start, trace, c); }
        return;
      }
      Take(c, proc, w.calls[c].(pc := ReadCounter), Proceed);
      observed, end := ReadTheCounter(c, p, issued);
    }

    /** `_read_counter`: one read of the counter's key, from some state of the ledger. */
    method ReadTheCounter(c: nat, p: nat, issued: bool) returns (observed: Option<Counter>, end: Option<LoopEnd>)
      requires At(c, p, ReadCounter) && (issued <==> |w.calls[c].sent| > 0)
      modifies this
      ensures Valid() && old(trace) <= trace && SameConfig(old(w.procs), w.procs)
      ensures c < |w.calls| && SameRequest(old(w.calls[c]), w.calls[c]) && w.calls[c].bound == old(w.calls[c].bound)
      ensures |w.calls[c].sent| == |old(w.calls[c].sent)| && w.calls[c].attempts == old(w.calls[c].attempts)
      ensures end.None? ==> w.calls[c].pc == Issue && w.calls[c].observed == observed
      ensures Starts(start) && end.None? && observed.Some? ==> CounterAt(w.log, observed.value)
      ensures end.Some? ==> Ended(end.value, w.calls[c].pc) && !end.value.Returned?
    {
      Others(c);
      end := None;
      var n: nat, readable: bool := *, *;
      var got := Get(Snapshot(w.log, n), SequenceKey);
      if !readable || (got.Some? && !got.value.value.Number?) {
        observed := None;
        var left := Leave(c, if readable then Read(n) else Fail, w.calls[c], OtherCause, issued);
        end := Some(left);
        return;
      }
      observed := if got.None? then None else Some(Counter(got.value.value.n, got.value.tx));
      Take(c, w.procs[p], w.calls[c].(observed := observed, pc := Issue), Read(n));
      if Starts(start) { CallKnows(start, trace, c); }
    }

    /** After a refusal: the one cause not worth retrying is looked for, then both caches are dropped. */
    method AfterRefusal(c: nat, p: nat) returns (present: bool)
      requires At(c, p, AskPresent)
      modifies this
      ensures Valid() && old(trace) <= trace && SameConfig(old(w.procs), w.procs)
      ensures c < |w.calls| && SameRequest(old(w.calls[c]), w.calls[c])
      ensures |w.calls[c].sent| == |old(w.calls[c].sent)| && w.calls[c].attempts == old(w.calls[c].attempts)
      ensures w.calls[c].pc == if present then Done(Conflict) else LoopTop
      // A conflict is over a record that is there; otherwise the reserve cache is empty again.
      ensures Starts(start) && present ==> Get(w.log, w.calls[c].key).Some?
      ensures !present ==> p < |w.procs| && w.procs[p].reserveCache.None?
    {
      present := AskPresence(c, p);
      if !present { DropCaches(c, p); }
    }

    /** `_record_key_present`: one read of the record key; a read that fails counts as absence. */
    method AskPresence(c: nat, p: nat) returns (present: bool)
      requires At(c, p, AskPresent)
      modifies this
      ensures Valid() && old(trace) <= trace && SameConfig(old(w.procs), w.procs)
      ensures c < |w.calls| && SameRequest(old(w.calls[c]), w.calls[c])
      ensures |w.calls[c].sent| == |old(w.calls[c].sent)| && w.calls[c].attempts == old(w.calls[c].attempts)
      ensures At(c, p, if present then Done(Conflict) else DropSeqCache)
      ensures Starts(start) && present ==> Get(w.log, w.calls[c].key).Some?
    {
      Others(c);
      var n: nat, readable: bool := *, *;
      present := readable && Get(Snapshot(w.log, n), w.calls[c].key).Some?;
      Take(c, w.procs[p], w.calls[c].(pc := if present then Done(Conflict) else DropSeqCache), if readable then Read(n) else Fail);
      if Starts(start) && present { CallAnswers(start, trace, c); }
    }


    method DropCaches(c: nat, p: nat)
      requires At(c, p, DropSeqCache)
      modifies this
      ensures Valid() && old(trace) <= trace && SameConfig(old(w.procs), w.procs)
      ensures c < |w.calls| && SameRequest(old(w.calls[c]), w.calls[c]) && w.calls[c].pc == LoopTop
      ensures |w.calls[c].sent| == |old(w.calls[c].sent)| && w.calls[c].attempts == old(w.calls[c].attempts)
      ensures p < |w.procs| && w.procs[p].reserveCache.None?
    {
      Others(c);
      Take(c, w.procs[p].(seqCache := None), w.calls[c].(pc := DropReserveCache), Proceed);
      Others(c);
      Take(c, w.procs[p].(reserveCache := None), w.calls[c].(pc := LoopTop), Proceed);
    }

    /** After a commit: both caches are told. */
    method AfterCommit(c: nat, p: nat, tx: nat, next: nat)
      requires At(c, p, SaveSeqCache(tx)) && w.calls[c].next == next
      modifies this
      ensures Valid() && old(trace) <= trace && SameConfig(old(w.procs), w.procs)
      ensures c < |w.calls| && SameRequest(old(w.calls[c]), w.calls[c])
      ensures |w.calls[c].sent| == |old(w.calls[c].sent)| && w.calls[c].pc == Verify(tx)
    {
      Others(c);
      Take(c, w.procs[p].(seqCache := Some(Counter(next, tx))), w.calls[c].(pc := SaveReserveCache(tx)), Proceed);
      SaveReserve(c, p, tx);
    }

    method SaveReserve(c: nat, p: nat, tx: nat)
      requires At(c, p, SaveReserveCache(tx))
      modifies this
      ensures Valid() && old(trace) <= trace && SameConfig(old(w.procs), w.procs)
      ensures c < |w.calls| && SameRequest(old(w.calls[c]), w.calls[c])
      ensures |w.calls[c].sent| == |old(w.calls[c].sent)| && w.calls[c].pc == Verify(tx)
    {
      Others(c);
      var proc := w.procs[p];
      if w.calls[c].bound.None? {
        proc := proc.(reserveCache := Some(proc.reserve));
      }
      Take(c, proc, w.calls[c].(pc := Verify(tx)), Proceed);
    }

    /** One ExecAll: the position it would take, the request, and what came back. `end` is
        absent when the attempt was refused and is worth another. */
    method IssueOnce(c: nat, p: nat, bound: Option<nat>, observed: Option<Counter>, issued: bool) returns (end: Option<LoopEnd>)
      requires At(c, p, Issue) && w.calls[c].bound == bound && w.calls[c].observed == observed
      requires issued <==> |w.calls[c].sent| > 0
      modifies this
      ensures Valid() && old(trace) <= trace && SameConfig(old(w.procs), w.procs)
      ensures c < |w.calls| && SameRequest(old(w.calls[c]), w.calls[c])
      ensures |w.calls[c].sent| <= |old(w.calls[c].sent)| + 1
      ensures end.None? ==>
                w.calls[c].pc == LoopTop && |w.calls[c].sent| > 0 && w.calls[c].attempts == old(w.calls[c].attempts)
      ensures end.Some? ==> Ended(end.value, w.calls[c].pc)
    {
      Others(c);
      var reserve := w.procs[p].reserve;
      var next := match observed case None => reserve + 1 case Some(pair) => pair.value + 1;
      if next >= MAX_POSITION {
        var left := Leave(c, Proceed, w.calls[c].(next := next), OtherCause, issued);
        return Some(left);
      }
      var request := Sent(next, observed, bound.None?, Pending);
      Take(c, w.procs[p], w.calls[c].(next := next, sent := w.calls[c].sent + [request], pc := Wait), Proceed);
      end := Settle(c, p, next);
    }

    /** The reply to the ExecAll, or its loss. */
    method Settle(c: nat, p: nat, next: nat) returns (end: Option<LoopEnd>)
      requires At(c, p, Wait) && w.calls[c].next == next && |w.calls[c].sent| > 0
      modifies this
      ensures Valid() && old(trace) <= trace && SameConfig(old(w.procs), w.procs)
      ensures c < |w.calls| && SameRequest(old(w.calls[c]), w.calls[c])
      ensures |w.calls[c].sent| == |old(w.calls[c].sent)|
      ensures end.None? ==> w.calls[c].pc == LoopTop && w.calls[c].attempts == old(w.calls[c].attempts)
      ensures end.Some? ==> Ended(end.value, w.calls[c].pc)
    {
      Others(c);
      var lost: bool := *;
      var status := w.calls[c].sent[|w.calls[c].sent| - 1].status;
      if !lost && status.Landed? {
        Take(c, w.procs[p], w.calls[c].(pc := SaveSeqCache(status.tx)), Proceed);
        AfterCommit(c, p, status.tx, next);
        end := Some(Returned(status.tx));
      } else if !lost && status.Refused? {
        Take(c, w.procs[p], w.calls[c].(pc := AskPresent), Proceed);
        var present := AfterRefusal(c, p);
        end := if present then Some(RecordKeyExists) else None;
      } else {
        Take(c, w.procs[p], w.calls[c].(pc := Confirm(OtherCause)), Fail);
        end := Some(Uncertain(OtherCause));
      }
    }

    /** One pass of the loop: both reads, then the ExecAll. */
    method Attempt(c: nat, p: nat, issued: bool) returns (end: Option<LoopEnd>)
      requires At(c, p, LoopTop) && w.calls[c].attempts < w.procs[p].maxAttempts
      requires issued <==> |w.calls[c].sent| > 0
      modifies this
      ensures Valid() && old(trace) <= trace && SameConfig(old(w.procs), w.procs)
      ensures c < |w.calls| && SameRequest(old(w.calls[c]), w.calls[c])
      ensures |w.calls[c].sent| <= |old(w.calls[c].sent)| + 1
      ensures end.None? ==>
                w.calls[c].pc == LoopTop && |w.calls[c].sent| > 0 && w.calls[c].attempts == old(w.calls[c].attempts) + 1
      ensures end.Some? ==> Ended(end.value, w.calls[c].pc)
    {
      Others(c);
      Take(c, w.procs[p], w.calls[c].(attempts := w.calls[c].attempts + 1, pc := ReadReserve), Proceed);
      var bound, left := ReadBoundReserve(c, p, issued);
      if left.Some? { return left; }
      var observed, left' := ObserveCounter(c, p, issued);
      if left'.Some? { return left'; }
      end := IssueOnce(c, p, bound, observed, issued);
    }

    /** `_ordered_commit`: at most `maxAttempts` compare-and-set attempts. */
    method OrderedCommit(c: nat, p: nat) returns (end: LoopEnd)
      requires At(c, p, LoopTop) && w.calls[c].sent == [] && w.calls[c].attempts == 0
      modifies this
      ensures Valid() && old(trace) <= trace && SameConfig(old(w.procs), w.procs)
      ensures c < |w.calls| && SameRequest(old(w.calls[c]), w.calls[c])
      ensures |w.calls[c].sent| <= (if w.procs[p].maxAttempts > 0 then w.procs[p].maxAttempts else 0)
      ensures Ended(end, w.calls[c].pc)
    {
      ghost var asked := w.calls[c];
      var config := w.procs[p];
      var attempts, issued := 0, false;
      while attempts < config.maxAttempts
        invariant At(c, p, LoopTop) && old(trace) <= trace && SameConfig(old(w.procs), w.procs)
        invariant SameRequest(asked, w.calls[c]) && w.calls[c].attempts == attempts
        invariant issued <==> |w.calls[c].sent| > 0
        invariant |w.calls[c].sent| <= attempts && (attempts <= config.maxAttempts || attempts == 0)
        decreases config.maxAttempts - attempts
      {
        attempts := attempts + 1;
        var left := Attempt(c, p, issued);
        if left.Some? { return left.value; }
        issued := true;
      }
      Others(c);
      end := Leave(c, Proceed, w.calls[c], BudgetExhausted, issued);
    }

    /** The record is there; its position is reported only as the view shows it. */
    method FindItsPosition(c: nat, p: nat, tx: nat) returns (response: Response)
      requires At(c, p, FindPosition(tx))
      modifies this
      ensures Valid() && old(trace) <= trace && SameConfig(old(w.procs), w.procs)
      ensures c < |w.calls| && SameRequest(old(w.calls[c]), w.calls[c])
      ensures |w.calls[c].sent| == |old(w.calls[c].sent)| && w.calls[c].pc == Done(response)
    {
      Others(c);
      var n: nat, rows: seq<ZAdd>, answered: bool := *, *, *;
      if answered && RowsOf(Snapshot(w.log, n), w.calls[c].view, rows) {
        var position := CommittedPosition(rows, w.calls[c].key, w.calls[c].next);
        response := Committed(tx, position, false);
        Take(c, w.procs[p], w.calls[c].(pc := Done(response)), Rows(n, rows));
      } else {
        response := Committed(tx, None, false);
        Take(c, w.procs[p], w.calls[c].(pc := Done(response)), Fail);
      }
    }

    /** The question an uncertain outcome leaves to the ledger. */
    method AskTheLedger(c: nat, p: nat, cause: Cause) returns (response: Response)
      requires At(c, p, Confirm(cause))
      modifies this
      ensures Valid() && old(trace) <= trace && SameConfig(old(w.procs), w.procs)
      ensures c < |w.calls| && SameRequest(old(w.calls[c]), w.calls[c])
      ensures |w.calls[c].sent| == |old(w.calls[c].sent)| && w.calls[c].pc == Done(response)
      ensures Starts(start) ==> AnswerIsTrue(w, c)
    {
      Others(c);
      var n: nat, readable: bool := *, *;
      var got := Get(Snapshot(w.log, n), w.calls[c].key);
      if !readable {
        response := NotEstablished;
      } else if got.None? {
        response := if cause.BudgetExhausted? then NotCommitted else NotEstablished;
      } else if got.value.value != w.calls[c].value {
        response := NotCommitted;
      } else {
        Take(c, w.procs[p], w.calls[c].(pc := FindPosition(got.value.tx)), Read(n));
        response := FindItsPosition(c, p, got.value.tx);
        if Starts(start) { CallAnswers(start, trace, c); }
        return;
      }
      Take(c, w.procs[p], w.calls[c].(pc := Done(response)), if readable then Read(n) else Fail);
      if Starts(start) { CallAnswers(start, trace, c); }
    }

    /** The commit is known; its proof is fetched, and the answer says whether it was. */
    method ProveCommit(c: nat, p: nat, tx: nat) returns (response: Response)
      requires At(c, p, Verify(tx))
      modifies this
      ensures Valid() && old(trace) <= trace
      ensures c < |w.calls| && w.calls[c].pc == Done(response) && |w.calls[c].sent| == |old(w.calls[c].sent)|
      ensures SameRequest(old(w.calls[c]), w.calls[c])
      ensures exists proved :: response == Committed(tx, Some(old(w.calls[c]).next), proved)
    {
      Others(c);
      var proved: bool := *;
      response := Committed(tx, Some(w.calls[c].next), proved);
      Take(c, w.procs[p], w.calls[c].(pc := Done(response)), if proved then Proceed else Fail);
    }

    /** A request is received. */
    method Receive(p: nat, key: Key, value: Value, view: View) returns (c: nat)
      requires Valid() && p < |w.procs| && key.RecordKey?
      modifies this
      ensures At(c, p, GetClient) && old(trace) <= trace && SameConfig(old(w.procs), w.procs)
      ensures w.calls[c] == NewCall(p, key, value, view)
    {
      c := |w.calls|;
      RunSnoc(start, trace, Start(p, key, value, view));
      w := Apply(w, Start(p, key, value, view));
      trace := trace + [Start(p, key, value, view)];
    }

    /** The route's own steps, from the request to its answer. */
    method Serve(p: nat, key: Key, value: Value, view: View) returns (c: nat, response: Response)
      requires Valid() && p < |w.procs| && key.RecordKey?
      modifies this
      ensures Valid() && old(trace) <= trace
      ensures c < |w.calls| && w.calls[c].pc == Done(response)
      ensures w.calls[c].key == key && w.calls[c].value == value && w.calls[c].view == view
      ensures |w.calls[c].sent| <= (if old(w.procs[p].maxAttempts) > 0 then old(w.procs[p].maxAttempts) else 0)
    {
      c := Receive(p, key, value, view);
      Others(c);
      var built: bool := *;
      if !built {
        response := NotCommitted;
        Take(c, w.procs[p], w.calls[c].(pc := Done(response)), Fail);
      } else {
        Take(c, w.procs[p], w.calls[c].(pc := LoopTop), Proceed);
        var end := OrderedCommit(c, p);
        match end {
          case NothingIssued => response := NotCommitted;
          case RecordKeyExists => response := Conflict;
          case Uncertain(cause) => response := AskTheLedger(c, p, cause);
          case Returned(tx) => response := ProveCommit(c, p, tx);
        }
      }
    }

    /** `POST /write-ordered`. Whatever else happens and whatever fails, the answer is
        true of the ledger: `committed: true` names the transaction holding exactly
        these bytes and, if it names a position, one this key holds in this view;
        `committed: false` and 409 mean none of this call's ExecAlls committed; and
        no call commits twice or issues more ExecAlls than its budget. It is called verified,
        carries a position and leaves the outcome open exactly when what it was told says so. */
    method WriteOrdered(p: nat, key: Key, value: Value, view: View) returns (c: nat, response: Response)
      requires Starts(start) && Valid() && p < |w.procs| && key.RecordKey?
      modifies this
      ensures Valid() && old(trace) <= trace
      ensures c < |w.calls| && w.calls[c].pc == Done(response)
      ensures w.calls[c].key == key && w.calls[c].value == value && w.calls[c].view == view
      ensures match response
              case Committed(tx, position, _) =>
                && Get(w.log, key) == Some(Entry(value, tx))
                && (position.Some? ==> InView(w.log, ZAdd(view, position.value, key)))
              case NotCommitted => forall i :: !OrderedTheorems.Landed(w.calls[c], i)
              case NotEstablished => true
              case Conflict => Get(w.log, key).Some? && forall i :: !OrderedTheorems.Landed(w.calls[c], i)
      ensures response.Committed? && response.verified <==> ProofAnswered(start, trace, c)
      ensures response.Committed? ==>
                (response.position.Some? <==> CommitKnown(start, trace, c) || exists k :: PositionReadAt(start, trace, k, c))
      ensures response.NotEstablished? <==> exists k :: UnsettledAt(start, trace, k, c)
      ensures forall i, j :: OrderedTheorems.Landed(w.calls[c], i) && OrderedTheorems.Landed(w.calls[c], j) ==> i == j
      ensures |w.calls[c].sent| <= (if old(w.procs[p].maxAttempts) > 0 then old(w.procs[p].maxAttempts) else 0)
    {
      c, response := Serve(p, key, value, view);
      RunInvariant(start, trace);
      AnswerNow(w, c);
      VerifiedMeansProved(start, trace, c);
      NegativesAreExact(start, trace, c);
      if response.Committed? { PositionIsExact(start, trace, c); }
    }
  }
}
