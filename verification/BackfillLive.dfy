/** A backfill pass beside the ordered writers: the reads it takes are points of one
    run of the protocol, and what goes wrong is exactly what lands between two of them. */
module BackfillLive {
  import opened Ledger
  import opened LedgerInvariant
  import opened OrderedCommit
  import opened WriterInvariant
  import opened OrderedTheorems
  import opened BackfillRun

  /** A ledger with its seam at `r`, or one that allocated nothing and whose history lies below it. */
  ghost predicate Ready(log: Log, r: nat) {
    Seam(log, r) || (Fresh(log) && forall a :: InView(log, a) ==> a.score <= r)
  }

  /** No other reserve is bound. */
  ghost predicate NotBoundElsewhere(log: Log, r: nat) { Get(log, ReserveKey).Some? ==> BoundIs(log, r) }

  lemma {:induction false} GrantOnlyLive(w: World, c: nat, i: nat, r: nat)
    requires Inv(w) && PendingAt(w, c, i)
    requires AllHold(w.log, Preconditions(w.calls[c], w.calls[c].sent[i]))
    requires NotBoundElsewhere(Apply(w, Arrive(c, i)).log, r)
    ensures Seam(Apply(w, Arrive(c, i)).log, r) && OnlyLive(w.log, Apply(w, Arrive(c, i)).log, r)
  {
    var call := w.calls[c];
    var tx := Operations(w.procs[call.proc], call, call.sent[i]);
    GrantKeepsLedger(w, c, i);
    assert Holds(w.log, Preconditions(call, call.sent[i])[1]);
    forall a { AddedAppend(w.log, tx, a); }
  }

  lemma {:induction false} UnrelatedOnlyLive(w: World, name: string, value: Value, r: nat)
    requires Inv(w) && Ready(w.log, r)
    ensures Ready(Apply(w, Unrelated(name, value)).log, r) && OnlyLive(w.log, Apply(w, Unrelated(name, value)).log, r)
  {
    var tx := Tx(map[PlainKey(name) := value], {});
    WriteOnceAppend(w.log, tx);
    forall a { AddedAppend(w.log, tx, a); }
    if Seam(w.log, r) {
      SeamUnrelated(w.log, tx, r);
    } else {
      LastTxAppend(w.log, tx, SequenceKey);
      forall a | InView(w.log + [tx], a) ensures Historical(w.log + [tx], a) { HistoricalStays(w.log, tx, a); }
    }
  }

  lemma {:induction false} StepOnlyLive(w: World, act: Act, r: nat)
    requires Inv(w) && Ready(w.log, r) && NotBoundElsewhere(Apply(w, act).log, r)
    ensures Ready(Apply(w, act).log, r) && OnlyLive(w.log, Apply(w, act).log, r)
  {
    match act
    case Arrive(c, i) =>
      if PendingAt(w, c, i) && AllHold(w.log, Preconditions(w.calls[c], w.calls[c].sent[i])) { GrantOnlyLive(w, c, i, r); }
    case Unrelated(name, value) => UnrelatedOnlyLive(w, name, value, r);
    case _ =>
  }

  lemma {:induction false} OnlyLiveComposes(a: Log, b: Log, c: Log, r: nat)
    requires OnlyLive(a, b, r) && OnlyLive(b, c, r)
    ensures OnlyLive(a, c, r)
  {
    forall x | InView(c, x) && !InView(a, x)
      ensures x.score > r && Get(a, x.key).None? && Get(c, x.key).Some?
      ensures InView(b, x) <==> Get(b, x.key).Some?
    {
      if !InView(b, x) { NotYet(a, b, x.key); }
      if Get(c, x.key).None? { NotYet(b, c, x.key); }
    }
  }

  lemma {:induction false} BoundStays(w: World, acts: seq<Act>)
    requires Inv(w) && Get(w.log, ReserveKey).Some?
    ensures Get(Run(w, acts).log, ReserveKey) == Get(w.log, ReserveKey)
  {
    RunKeeps(w, acts);
    RunGrows(w, acts);
    assert Run(w, acts).log[..|w.log|] == w.log;
    GetFromSnapshot(Run(w, acts).log, |w.log|, ReserveKey);
  }

  /** In any run the writers only append live entries, each for a record that was not there. */
  lemma {:induction false} RunOnlyLive(w: World, acts: seq<Act>, r: nat)
    requires Inv(w) && Ready(w.log, r) && NotBoundElsewhere(Run(w, acts).log, r)
    ensures Ready(Run(w, acts).log, r) && OnlyLive(w.log, Run(w, acts).log, r)
    decreases |acts|
  {
    if acts != [] {
      var w1 := Apply(w, acts[0]);
      ApplyKeeps(w, acts[0]);
      if Get(w1.log, ReserveKey).Some? { BoundStays(w1, acts[1..]); }
      StepOnlyLive(w, acts[0], r);
      RunOnlyLive(w1, acts[1..], r);
      OnlyLiveComposes(w.log, w1.log, Run(w1, acts[1..]).log, r);
    }
  }

  /** Five points of one run: the four reads of a pass, in the order it takes them, and the start of its zAdds. */
  datatype Moments = Moments(decisionIndex: seq<Act>, decisionKeys: seq<Act>, intentIndex: seq<Act>,
                             intentKeys: seq<Act>, write: seq<Act>)

  function ReadsOf(w: World, m: Moments): (Reads, Log) {
    var w0 := Run(w, m.decisionIndex);
    var w1 := Run(w0, m.decisionKeys);
    var w2 := Run(w1, m.intentIndex);
    var w3 := Run(w2, m.intentKeys);
    (Reads(w0.log, w1.log, w2.log, w3.log), Run(w3, m.write).log)
  }

  lemma {:induction false} NextMoment(w: World, acts: seq<Act>, r: nat, later: Log)
    requires Inv(w) && Ready(w.log, r) && Run(w, acts).log <= later && WriteOnce(later) && NotBoundElsewhere(later, r)
    ensures Inv(Run(w, acts)) && Ready(Run(w, acts).log, r) && OnlyLive(w.log, Run(w, acts).log, r)
  {
    RunKeeps(w, acts);
    var log := Run(w, acts).log;
    if Get(log, ReserveKey).Some? {
      assert later[..|log|] == log;
      GetFromSnapshot(later, |log|, ReserveKey);
    }
    RunOnlyLive(w, acts, r);
  }

  lemma {:induction false} MomentsAreLive(w: World, m: Moments, r: nat)
    requires Inv(w) && Ready(w.log, r) && NotBoundElsewhere(ReadsOf(w, m).1, r)
    ensures LiveReads(ReadsOf(w, m).0, ReadsOf(w, m).1, r) && Ready(ReadsOf(w, m).1, r) && WriteOnce(ReadsOf(w, m).1)
  {
    var w0 := Run(w, m.decisionIndex);
    var w1 := Run(w0, m.decisionKeys);
    var w2 := Run(w1, m.intentIndex);
    var w3 := Run(w2, m.intentKeys);
    var end := Run(w3, m.write);
    RunKeeps(w, m.decisionIndex);
    RunKeeps(w0, m.decisionKeys);
    RunKeeps(w1, m.intentIndex);
    RunKeeps(w2, m.intentKeys);
    RunKeeps(w3, m.write);
    RunGrows(w0, m.decisionKeys);
    RunGrows(w1, m.intentIndex);
    RunGrows(w2, m.intentKeys);
    RunGrows(w3, m.write);
    NextMoment(w, m.decisionIndex, r, end.log);
    NextMoment(w0, m.decisionKeys, r, end.log);
    NextMoment(w1, m.intentIndex, r, end.log);
    NextMoment(w2, m.intentKeys, r, end.log);
    NextMoment(w3, m.write, r, end.log);
    OnlyLiveComposes(w2.log, w3.log, end.log, r);
    OnlyLiveComposes(w1.log, w2.log, end.log, r);
  }

  lemma {:induction false} ReadyHasRecords(log: Log, r: nat)
    requires WriteOnce(log) && Ready(log, r)
    ensures EntriesHaveRecords(log)
  {
    forall a | InView(log, a) ensures Get(log, a.key).Some? {
      if Seam(log, r) { EntryTx(log, r, a); } else { assert Historical(log, a); }
    }
  }

  /** In every run of the protocol, with a pass taking its reads at any moments of it and stopped after any of its
      zAdds, writers moving between them: the pass leaves a key at two positions if and only if it wrote a record
      that an ordered write committed between the two reads of that record's view. */
  lemma {:induction false} PassBesideWriters(w: World, m: Moments, reserve: nat, ps: seq<BackfillReads.Pending>, k: nat, log': Log)
    requires Starts(w) && Ready(w.log, reserve) && NotBoundElsewhere(ReadsOf(w, m).1, reserve)
    requires ToIndexFrom(ReadsOf(w, m).0, ps) && k <= |ps| && (forall p :: p in ps ==> p.tx < reserve)
    requires Woven(Seeded(ReadsOf(w, m).1, reserve), reserve, ps[..k], log')
    ensures !NoKeyDoubled(log') <==> exists key :: CaughtWritten(ReadsOf(w, m).0, ps[..k], key)
  {
    RunInvariant(w, []);
    assert Run(w, []) == w;
    MomentsAreLive(w, m, reserve);
    var log := ReadsOf(w, m).1;
    ReadyHasRecords(log, reserve);
    if Seam(log, reserve) { SeamIsExact(log, reserve); } else { FreshIsExact(log, reserve); }
    DoublesExactlyTheCaught(ReadsOf(w, m).0, log, reserve, ps, k, log');
  }
}
