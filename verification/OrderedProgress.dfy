/** What the retry loop is for: an attempt that reads the ledger as it is commits,
    and whatever the caches held before, staleness costs one refused attempt. */
module OrderedProgress {
  import opened Wrappers
  import opened Ledger
  import opened OrderedCommit
  import opened WriterInvariant

  /** The counter as the ledger has it. */
  function Current(log: Log): Option<Counter> {
    match Get(log, SequenceKey)
    case None => None
    case Some(e) => if e.value.Number? then Some(Counter(e.value.n, e.tx)) else None
  }

  /** `k` steps of one call, every read of them current and nothing else moving. */
  function Iterate(log: Log, proc: Proc, call: Call, k: nat): (r: (Proc, Call))
    ensures SameRequest(call, r.1)
    decreases k
  {
    if k == 0 then (proc, call)
    else
      var (proc', call') := Local(log, proc, call, Read(|log|));
      Iterate(log, proc', call', k - 1)
  }

  function Steps(w: World, c: nat, k: nat): World
    decreases k
  {
    if k == 0 then w else Steps(Apply(w, Step(c, Read(|w.log|))), c, k - 1)
  }

  lemma {:induction false} StepsIterate(w: World, c: nat, k: nat)
    requires c < |w.calls| && w.calls[c].proc < |w.procs|
    ensures var r := Iterate(w.log, w.procs[w.calls[c].proc], w.calls[c], k);
            Steps(w, c, k) == w.(procs := w.procs[w.calls[c].proc := r.0], calls := w.calls[c := r.1])
    decreases k
  {
    if k == 0 {
      assert w.procs == w.procs[w.calls[c].proc := w.procs[w.calls[c].proc]] && w.calls == w.calls[c := w.calls[c]];
    } else {
      StepsIterate(Apply(w, Step(c, Read(|w.log|))), c, k - 1);
    }
  }

  /** What one call may expect of the ledger and its process at the top of its loop. */
  predicate Open(log: Log, proc: Proc, call: Call) {
    && call.pc.LoopTop? && call.attempts < proc.maxAttempts
    && Get(log, call.key).None?
    && 1 <= proc.reserve < MAX_POSITION
    && (Get(log, ReserveKey).Some? ==> Get(log, ReserveKey).value.value == Number(proc.reserve))
    && (Get(log, SequenceKey).Some? ==> Get(log, SequenceKey).value.value.Number?)
    && NextPosition(proc, Current(log)) < MAX_POSITION
  }

  lemma {:induction false} OneStep(log: Log, proc: Proc, call: Call, k: nat)
    requires k > 0
    ensures var r := Local(log, proc, call, Read(|log|)); Iterate(log, proc, call, k) == Iterate(log, r.0, r.1, k - 1)
  {
  }

  predicate Cached(proc: Proc) { proc.cacheEnabled && proc.seqCache.Some? }

  /** The pair an attempt would be built from, and the steps it takes to send it. */
  function Observes(log: Log, proc: Proc): Option<Counter> { if Cached(proc) then proc.seqCache else Current(log) }

  /** The steps of the reserve read: its test, a read when the global is empty, and the load of the global. */
  function ReserveLength(log: Log, proc: Proc): nat {
    if proc.reserveCache.None? && Get(log, ReserveKey).Some? then 3 else 2
  }

  function CacheLength(proc: Proc): nat { if Cached(proc) then 2 else 3 }

  function Length(log: Log, proc: Proc): nat { 1 + ReserveLength(log, proc) + CacheLength(proc) }

  predicate ReserveAgrees(log: Log, proc: Proc) {
    proc.reserveCache.Some? ==> proc.reserveCache.value == proc.reserve && Get(log, ReserveKey).Some?
  }

  lemma {:induction false} CurrentReserve(log: Log, proc: Proc, call: Call)
    requires call.pc.ReadReserve? && ReserveAgrees(log, proc) && 1 <= proc.reserve < MAX_POSITION
    requires Get(log, ReserveKey).Some? ==> Get(log, ReserveKey).value.value == Number(proc.reserve)
    ensures var bound := if Get(log, ReserveKey).None? then None else Some(proc.reserve);
            Iterate(log, proc, call, ReserveLength(log, proc))
            == (if bound.None? then proc else proc.(reserveCache := bound), call.(bound := bound, pc := ReadCache))
  {
    assert Snapshot(log, |log|) == log;
    OneStep(log, proc, call, ReserveLength(log, proc));
    if proc.reserveCache.Some? {
      OneStep(log, proc, call.(pc := LoadReserve), 1);
    } else {
      OneStep(log, proc, call.(pc := FetchReserve), ReserveLength(log, proc) - 1);
      if Get(log, ReserveKey).Some? {
        OneStep(log, proc.(reserveCache := Some(proc.reserve)), call.(pc := LoadReserve), 1);
      }
    }
  }

  lemma {:induction false} IterateSplits(log: Log, proc: Proc, call: Call, k: nat, m: nat)
    ensures var r := Iterate(log, proc, call, k); Iterate(log, proc, call, k + m) == Iterate(log, r.0, r.1, m)
    decreases k
  {
    if k > 0 {
      var r := Local(log, proc, call, Read(|log|));
      IterateSplits(log, r.0, r.1, k - 1, m);
    }
  }

  /** From the cache on: the pair is taken from it or read, and the ExecAll goes out. */
  lemma {:induction false} IssueFromCache(log: Log, proc: Proc, call: Call)
    requires call.pc.ReadCache? && NextPosition(proc, Observes(log, proc)) < MAX_POSITION
    requires Get(log, SequenceKey).Some? ==> Get(log, SequenceKey).value.value.Number?
    ensures var observed := Observes(log, proc);
            var next := NextPosition(proc, observed);
            Iterate(log, proc, call, CacheLength(proc)) ==
              (proc, call.(observed := observed, next := next, pc := Wait,
                           sent := call.sent + [Sent(next, observed, call.bound.None?, Pending)]))
  {
    OneStep(log, proc, call, CacheLength(proc));
    if Cached(proc) {
      OneStep(log, proc, call.(observed := proc.seqCache, pc := Issue), 1);
    } else {
      FreshIssue(log, proc, call.(pc := ReadCounter));
    }
  }

  /** An attempt is built from the cached pair or, with none, from the ledger as it is. */
  lemma {:induction false} AttemptIsSent(log: Log, proc: Proc, call: Call)
    requires Open(log, proc, call) && ReserveAgrees(log, proc) && NextPosition(proc, Observes(log, proc)) < MAX_POSITION
    ensures var (proc', call') := Iterate(log, proc, call, Length(log, proc));
            var next := NextPosition(proc, Observes(log, proc));
            && call'.pc.Wait? && call'.next == next && call'.attempts == call.attempts + 1
            && call'.sent == call.sent + [Sent(next, Observes(log, proc), Get(log, ReserveKey).None?, Pending)]
            && proc'.reserve == proc.reserve && proc'.maxAttempts == proc.maxAttempts
  {
    var bound := if Get(log, ReserveKey).None? then None else Some(proc.reserve);
    var c1 := call.(attempts := call.attempts + 1, pc := ReadReserve);
    var p2 := if bound.None? then proc else proc.(reserveCache := bound);
    OneStep(log, proc, call, Length(log, proc));
    CurrentReserve(log, proc, c1);
    IterateSplits(log, proc, c1, ReserveLength(log, proc), CacheLength(proc));
    IssueFromCache(log, p2, c1.(bound := bound, pc := ReadCache));
  }

  lemma {:induction false} FreshIssue(log: Log, proc: Proc, call: Call)
    requires call.pc.ReadCounter? && NextPosition(proc, Current(log)) < MAX_POSITION
    requires Get(log, SequenceKey).Some? ==> Get(log, SequenceKey).value.value.Number?
    ensures var next := NextPosition(proc, Current(log));
            Iterate(log, proc, call, 2) ==
              (proc, call.(observed := Current(log), next := next, pc := Wait,
                           sent := call.sent + [Sent(next, Current(log), call.bound.None?, Pending)]))
  {
    assert Snapshot(log, |log|) == log;
    var c1 := call.(observed := Current(log), pc := Issue);
    assert Local(log, proc, call, Read(|log|)) == (proc, c1);
    OneStep(log, proc, call, 2);
    OneStep(log, proc, c1, 1);
  }

  /** After a refusal that was not about the record, the loop starts over with both caches empty. */
  lemma {:induction false} RefusalClearsCaches(log: Log, proc: Proc, call: Call)
    requires call.pc.Wait? && call.sent != [] && call.sent[|call.sent| - 1].status.Refused? && Get(log, call.key).None?
    ensures Iterate(log, proc, call, 4) == (proc.(seqCache := None, reserveCache := None), call.(pc := LoopTop))
  {
    assert Snapshot(log, |log|) == log;
    OneStep(log, proc, call, 4);
    OneStep(log, proc, call.(pc := AskPresent), 3);
    OneStep(log, proc, call.(pc := DropSeqCache), 2);
    OneStep(log, proc.(seqCache := None), call.(pc := DropReserveCache), 1);
  }

  /** A restarted process starts cold: its caches are empty, its unfinished calls are gone, and nothing else changed. */
  lemma {:induction false} RestartIsCold(w: World, p: nat)
    requires p < |w.procs|
    ensures var w' := Apply(w, Restart(p));
            && w'.log == w.log && |w'.procs| == |w.procs| && |w'.calls| == |w.calls|
            && w'.procs[p] == Proc(w.procs[p].reserve, w.procs[p].maxAttempts, w.procs[p].cacheEnabled, None, None)
            && (forall q :: 0 <= q < |w.procs| && q != p ==> w'.procs[q] == w.procs[q])
            && (forall c :: 0 <= c < |w.calls| ==>
                  if w.calls[c].proc == p && !w.calls[c].pc.Done? then w'.calls[c] == w.calls[c].(pc := Lost)
                  else w'.calls[c] == w.calls[c])
  {
  }

  /** After a commit the caches hold it: the counter pair it set and, if it bound the reserve, the reserve. */
  lemma {:induction false} CommitFillsCaches(log: Log, proc: Proc, call: Call, tx: nat)
    requires call.pc.Wait? && call.sent != [] && call.sent[|call.sent| - 1].status == Landed(tx)
    ensures Iterate(log, proc, call, 3)
         == (proc.(seqCache := Some(Counter(call.next, tx)),
                   reserveCache := if call.bound.None? then Some(proc.reserve) else proc.reserveCache),
             call.(pc := Verify(tx)))
  {
    OneStep(log, proc, call, 3);
    OneStep(log, proc, call.(pc := SaveSeqCache(tx)), 2);
    OneStep(log, proc.(seqCache := Some(Counter(call.next, tx))), call.(pc := SaveReserveCache(tx)), 1);
  }

  /** One attempt of call `c` of process `p`, and the ledger's verdict on it. */
  function AttemptOf(w: World, c: nat): World
    requires c < |w.calls| && w.calls[c].proc < |w.procs|
  {
    Apply(Steps(w, c, Length(w.log, w.procs[w.calls[c].proc])), Arrive(c, |w.calls[c].sent|))
  }

  /** Between `w` and `w'` the call's record was committed at the counter's next position, once. */
  ghost predicate Commits(w: World, w': World, c: nat) {
    && c < |w.calls| && w.calls[c].proc < |w.procs|
    && exists s :: w'.log == w.log + [Operations(w.procs[w.calls[c].proc], w.calls[c], s)]
                   && s.next == NextPosition(w.procs[w.calls[c].proc], Current(w.log))
  }

  /** Between `w` and `w'` one attempt of the call was refused, and nothing else happened. */
  predicate RefusedAfter(w: World, w': World, c: nat) {
    && c < |w.calls| && w.calls[c].proc < |w.procs|
    && w'.log == w.log && c < |w'.calls| && w'.calls[c].proc == w.calls[c].proc < |w'.procs|
    && var proc, proc', call, call' := w.procs[w.calls[c].proc], w'.procs[w.calls[c].proc], w.calls[c], w'.calls[c];
       && proc'.reserve == proc.reserve && proc'.maxAttempts == proc.maxAttempts
       && SameRequest(call, call') && call'.attempts == call.attempts + 1
       && call'.pc.Wait? && |call'.sent| == |call.sent| + 1 && call'.sent[|call.sent|].status.Refused?
  }

  lemma {:induction false} OperationsAgree(proc: Proc, proc': Proc, call: Call, call': Call, s: Sent)
    requires proc'.reserve == proc.reserve && SameRequest(call, call')
    ensures Operations(proc', call', s) == Operations(proc, call, s)
  {
  }

  /** An attempt either commits at the next position or is refused; read from the ledger, it commits. */
  lemma {:induction false} AttemptOutcome(w: World, c: nat)
    requires c < |w.calls| && w.calls[c].proc < |w.procs| && ProcOk(w.log, w.procs[w.calls[c].proc])
    requires Open(w.log, w.procs[w.calls[c].proc], w.calls[c])
    requires NextPosition(w.procs[w.calls[c].proc], Observes(w.log, w.procs[w.calls[c].proc])) < MAX_POSITION
    ensures var w' := AttemptOf(w, c);
            Commits(w, w', c) || (Cached(w.procs[w.calls[c].proc]) && RefusedAfter(w, w', c))
  {
    var log, call, proc := w.log, w.calls[c], w.procs[w.calls[c].proc];
    AttemptIsSent(log, proc, call);
    StepsIterate(w, c, Length(log, proc));
    var (proc', call') := Iterate(log, proc, call, Length(log, proc));
    var s := call'.sent[|call.sent|];
    OperationsAgree(proc, proc', call, call', s);
    if AllHold(log, Preconditions(call', s)) {
      assert Holds(log, Preconditions(call', s)[0]);
      if Cached(proc) { GrantedMeansCurrent(log, proc.seqCache.value); }
    } else if !Cached(proc) {
      FreshIsGranted(log, call', s);
    }
  }

  lemma {:induction false} FreshIsGranted(log: Log, call: Call, s: Sent)
    requires s.observed == Current(log) && Get(log, call.key).None? && (s.bind <==> Get(log, ReserveKey).None?)
    requires Get(log, SequenceKey).Some? ==> Get(log, SequenceKey).value.value.Number?
    ensures AllHold(log, Preconditions(call, s))
  {
  }

  lemma {:induction false} SecondAttemptCommits(w: World, first: World, c: nat)
    requires RefusedAfter(w, first, c) && Open(w.log, w.procs[w.calls[c].proc], w.calls[c])
    requires w.calls[c].attempts + 1 < w.procs[w.calls[c].proc].maxAttempts
    ensures var v := Steps(first, c, 4);
            c < |v.calls| && v.calls[c].proc < |v.procs| && Commits(w, AttemptOf(v, c), c)
  {
    var p := w.calls[c].proc;
    StepsIterate(first, c, 4);
    RefusalClearsCaches(first.log, first.procs[p], first.calls[c]);
    var v := Steps(first, c, 4);
    AttemptOutcome(v, c);
    SecondCommits(w, v, c);
  }

  lemma {:induction false} SecondCommits(w: World, v: World, c: nat)
    requires c < |w.calls| && w.calls[c].proc < |w.procs| && c < |v.calls| && v.calls[c].proc == w.calls[c].proc < |v.procs|
    requires v.log == w.log && SameRequest(w.calls[c], v.calls[c])
    requires v.procs[v.calls[c].proc].reserve == w.procs[w.calls[c].proc].reserve
    requires Commits(v, AttemptOf(v, c), c)
    ensures Commits(w, AttemptOf(v, c), c)
  {
    var p := w.calls[c].proc;
    var s :| AttemptOf(v, c).log == v.log + [Operations(v.procs[p], v.calls[c], s)]
             && s.next == NextPosition(v.procs[p], Current(v.log));
    OperationsAgree(w.procs[p], v.procs[p], w.calls[c], v.calls[c], s);
    assert s.next == NextPosition(w.procs[p], Current(w.log));
  }

  /** In every reachable state, whatever the caches hold: a call with two attempts left, a
      record nobody wrote and nothing moving while it runs commits at the counter's next
      position, on its first attempt or, if a stale pair was refused, on its second. */
  lemma {:induction false} StalenessCostsOneAttempt(w: World, c: nat)
    requires Inv(w) && c < |w.calls| && w.calls[c].proc < |w.procs|
    requires Open(w.log, w.procs[w.calls[c].proc], w.calls[c])
    requires w.calls[c].attempts + 1 < w.procs[w.calls[c].proc].maxAttempts
    requires NextPosition(w.procs[w.calls[c].proc], Observes(w.log, w.procs[w.calls[c].proc])) < MAX_POSITION
    ensures var first := AttemptOf(w, c);
            || Commits(w, first, c)
            || (&& RefusedAfter(w, first, c)
                && var v := Steps(first, c, 4);
                   c < |v.calls| && v.calls[c].proc < |v.procs| && Commits(w, AttemptOf(v, c), c))
  {
    AttemptOutcome(w, c);
    var first := AttemptOf(w, c);
    if RefusedAfter(w, first, c) { SecondAttemptCommits(w, first, c); }
  }
}
