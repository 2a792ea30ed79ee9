/** A reachable attempt that is refused although no transaction landed after either of its
    reads: between its test of the process's global and its return of it, another call of
    the process, itself refused, dropped it. */
module OrderedRace {
  import opened Wrappers
  import opened Ledger
  import opened LedgerInvariant
  import opened OrderedCommit
  import opened WriterInvariant
  import opened OrderedTheorems
  import opened OrderedRefusal

  /** A ledger whose reserve is bound at 1 and whose first position is still free. */
  const BOUND_LOG: Log := [Tx(map[ReserveKey := Number(1), SequenceKey := Number(1)], {})]

  function Process(reserveCache: Option<nat>): Proc { Proc(1, 2, true, None, reserveCache) }

  const BEGIN: World := World(BOUND_LOG, [Process(None)], [])

  /** Three records, one for each call. */
  datatype Keys = Keys(first: string, second: string, third: string) {
    predicate Distinct() { first != second && second != third && first != third }
  }

  function Asks(name: string): Call { NewCall(0, RecordKey(ToolCall, name), Bytes(name), DecisionView) }

  function Having(log: Log, reserveCache: Option<nat>, a: Call, b: Call, c: Call): World {
    World(log, [Process(reserveCache)], [a, b, c])
  }

  ghost predicate Reached(w: World) { exists acts :: Run(BEGIN, acts) == w }

  lemma {:induction false} Next(v: World, act: Act, w: World)
    requires Reached(v)
    requires var next := Apply(v, act); next.log == w.log && next.procs == w.procs && next.calls == w.calls
    ensures Reached(w)
  {
    var acts :| Run(BEGIN, acts) == v;
    RunSnoc(BEGIN, acts, act);
    assert Run(BEGIN, acts + [act]) == w;
  }

  /** One step of one of the three calls. */
  lemma {:induction false} StepOf(log: Log, g: Option<nat>, a: Call, b: Call, c: Call, i: nat, choice: Choice,
                                  g': Option<nat>, x: Call)
    requires Reached(Having(log, g, a, b, c)) && i < 3 && [a, b, c][i].proc == 0
    requires Local(log, Process(g), [a, b, c][i], choice) == (Process(g'), x)
    ensures Reached(Having(log, g', if i == 0 then x else a, if i == 1 then x else b, if i == 2 then x else c))
  {
    Next(Having(log, g, a, b, c), Step(i, choice),
         Having(log, g', if i == 0 then x else a, if i == 1 then x else b, if i == 2 then x else c));
  }

  lemma {:induction false} BoundReads()
    ensures Get(BOUND_LOG, ReserveKey) == Some(Entry(Number(1), 1))
    ensures Get(BOUND_LOG, SequenceKey) == Some(Entry(Number(1), 1))
    ensures forall n, name :: Get(Snapshot(BOUND_LOG, n), RecordKey(ToolCall, name)).None?
    ensures Snapshot(BOUND_LOG, 1) == BOUND_LOG
  {
    assert Wrote(BOUND_LOG, ReserveKey, 1) && Wrote(BOUND_LOG, SequenceKey, 1);
    assert BOUND_LOG[..1] == BOUND_LOG;
  }

  lemma {:induction false} BeginStarts()
    ensures Starts(BEGIN)
  {
    BoundReads();
    assert BOUND_LOG[..0] == [] && !HasLive(BOUND_LOG[0], 1);
    assert Live(BOUND_LOG, 1) == [];
    assert Tidy(BOUND_LOG, 1);
    assert forall a :: !InView(BOUND_LOG, a);
  }

  // ----- one call up to its ExecAll -----

  const OBSERVED: Counter := Counter(1, 1)

  /** A first attempt that read the reserve and the counter as they were at the start. */
  function Sends(name: string, status: Status): Call {
    Asks(name).(pc := Wait, attempts := 1, bound := Some(1), observed := Some(OBSERVED), next := 2,
                sent := [Sent(2, Some(OBSERVED), false, status)])
  }

  function Loads(name: string): Call { Asks(name).(pc := LoadReserve, attempts := 1) }

  function Tests(name: string): Call { Asks(name).(pc := ReadReserve, attempts := 1) }

  lemma {:induction false} IssueOf(name: string, g: Option<nat>)
    ensures Local(BOUND_LOG, Process(g), Loads(name).(bound := Some(1), pc := Issue, observed := Some(OBSERVED)), Proceed)
         == (Process(g), Sends(name, Pending))
  {
    var request := Sent(2, Some(OBSERVED), false, Pending);
    assert [] + [request] == [request];
  }

  lemma {:induction false} SecondSends(k: Keys)
    requires Reached(Having(BOUND_LOG, Some(1), Tests(k.first), Loads(k.second), Tests(k.third)))
    ensures Reached(Having(BOUND_LOG, Some(1), Tests(k.first), Sends(k.second, Pending), Tests(k.third)))
  {
    BoundReads();
    IssueOf(k.second, Some(1));
    var a, b, c := Tests(k.first), Loads(k.second), Tests(k.third);
    var b2 := b.(bound := Some(1), pc := ReadCache);
    StepOf(BOUND_LOG, Some(1), a, b, c, 1, Proceed, Some(1), b2);
    StepOf(BOUND_LOG, Some(1), a, b2, c, 1, Proceed, Some(1), b2.(pc := ReadCounter));
    StepOf(BOUND_LOG, Some(1), a, b2.(pc := ReadCounter), c, 1, Read(1), Some(1), b2.(observed := Some(OBSERVED), pc := Issue));
    StepOf(BOUND_LOG, Some(1), a, b2.(observed := Some(OBSERVED), pc := Issue), c, 1, Proceed, Some(1), Sends(k.second, Pending));
  }

  lemma {:induction false} ThirdSends(k: Keys)
    requires Reached(Having(BOUND_LOG, Some(1), Tests(k.first), Sends(k.second, Pending), Tests(k.third)))
    ensures Reached(Having(BOUND_LOG, Some(1), Tests(k.first), Sends(k.second, Pending), Sends(k.third, Pending)))
  {
    BoundReads();
    IssueOf(k.third, Some(1));
    var a, b, c := Tests(k.first), Sends(k.second, Pending), Loads(k.third);
    StepOf(BOUND_LOG, Some(1), a, b, Tests(k.third), 2, Proceed, Some(1), c);
    var c2 := c.(bound := Some(1), pc := ReadCache);
    StepOf(BOUND_LOG, Some(1), a, b, c, 2, Proceed, Some(1), c2);
    StepOf(BOUND_LOG, Some(1), a, b, c2, 2, Proceed, Some(1), c2.(pc := ReadCounter));
    StepOf(BOUND_LOG, Some(1), a, b, c2.(pc := ReadCounter), 2, Read(1), Some(1), c2.(observed := Some(OBSERVED), pc := Issue));
    StepOf(BOUND_LOG, Some(1), a, b, c2.(observed := Some(OBSERVED), pc := Issue), 2, Proceed, Some(1), Sends(k.third, Pending));
  }

  /** Three calls of the process are started and come to their reserve test. */
  lemma {:induction false} AllStart(k: Keys)
    ensures Reached(Having(BOUND_LOG, None, Tests(k.first), Tests(k.second), Tests(k.third)))
  {
    var a, b, c := Asks(k.first), Asks(k.second), Asks(k.third);
    assert Run(BEGIN, []) == BEGIN;
    Next(BEGIN, Start(0, a.key, a.value, a.view), World(BOUND_LOG, [Process(None)], [a]));
    Next(World(BOUND_LOG, [Process(None)], [a]), Start(0, b.key, b.value, b.view), World(BOUND_LOG, [Process(None)], [a, b]));
    Next(World(BOUND_LOG, [Process(None)], [a, b]), Start(0, c.key, c.value, c.view), Having(BOUND_LOG, None, a, b, c));
    var a', b', c' := a.(pc := LoopTop), b.(pc := LoopTop), c.(pc := LoopTop);
    StepOf(BOUND_LOG, None, a, b, c, 0, Proceed, None, a');
    StepOf(BOUND_LOG, None, a', b, c, 0, Proceed, None, Tests(k.first));
    StepOf(BOUND_LOG, None, Tests(k.first), b, c, 1, Proceed, None, b');
    StepOf(BOUND_LOG, None, Tests(k.first), b', c, 1, Proceed, None, Tests(k.second));
    StepOf(BOUND_LOG, None, Tests(k.first), Tests(k.second), c, 2, Proceed, None, c');
    StepOf(BOUND_LOG, None, Tests(k.first), Tests(k.second), c', 2, Proceed, None, Tests(k.third));
  }

  /** The second fills the global from the ledger, and both others issue their ExecAlls from the same counter. */
  lemma {:induction false} TwoSend(k: Keys)
    ensures Reached(Having(BOUND_LOG, Some(1), Tests(k.first), Sends(k.second, Pending), Sends(k.third, Pending)))
  {
    AllStart(k);
    BoundReads();
    var a, c := Tests(k.first), Tests(k.third);
    var b := Tests(k.second).(pc := FetchReserve);
    StepOf(BOUND_LOG, None, a, Tests(k.second), c, 1, Proceed, None, b);
    StepOf(BOUND_LOG, None, a, b, c, 1, Read(1), Some(1), Loads(k.second));
    SecondSends(k);
    ThirdSends(k);
  }

  // ----- the third lands, the second is refused -----

  function ThirdTx(k: Keys): Tx {
    Tx(map[RecordKey(ToolCall, k.third) := Bytes(k.third), SequenceKey := Number(2)],
       {ZAdd(DecisionView, 2, RecordKey(ToolCall, k.third))})
  }

  function Moved(k: Keys): Log { BOUND_LOG + [ThirdTx(k)] }

  lemma {:induction false} MovedReads(k: Keys)
    requires k.Distinct()
    ensures Get(Moved(k), SequenceKey) == Some(Entry(Number(2), 2)) && LastTx(Moved(k), SequenceKey) == 2
    ensures Get(Moved(k), ReserveKey) == Some(Entry(Number(1), 1))
    ensures Get(Moved(k), RecordKey(ToolCall, k.first)).None? && Get(Moved(k), RecordKey(ToolCall, k.second)).None?
    ensures |Moved(k)| == 2 && Snapshot(Moved(k), 2) == Moved(k)
  {
    BoundReads();
    assert Snapshot(BOUND_LOG, 1) == BOUND_LOG;
    LastTxAppend(BOUND_LOG, ThirdTx(k), SequenceKey);
    LastTxAppend(BOUND_LOG, ThirdTx(k), ReserveKey);
    LastTxAppend(BOUND_LOG, ThirdTx(k), RecordKey(ToolCall, k.first));
    LastTxAppend(BOUND_LOG, ThirdTx(k), RecordKey(ToolCall, k.second));
    assert Moved(k)[..2] == Moved(k);
  }

  lemma {:induction false} ThirdIsGranted(k: Keys)
    ensures AllHold(BOUND_LOG, Preconditions(Sends(k.third, Pending), Sends(k.third, Pending).sent[0]))
    ensures Operations(Process(Some(1)), Sends(k.third, Pending), Sends(k.third, Pending).sent[0]) == ThirdTx(k)
  {
    BoundReads();
    assert Snapshot(BOUND_LOG, 1) == BOUND_LOG;
  }

  lemma {:induction false} SecondIsNot(k: Keys)
    requires k.Distinct()
    ensures !AllHold(Moved(k), Preconditions(Sends(k.second, Pending), Sends(k.second, Pending).sent[0]))
  {
    MovedReads(k);
    assert !Holds(Moved(k), Preconditions(Sends(k.second, Pending), Sends(k.second, Pending).sent[0])[0]);
  }

  /** The second, about to drop the global, with the first at its test of it. */
  function Dropping(k: Keys): Call { Sends(k.second, Refused).(pc := DropReserveCache) }

  function BeforeTheDrop(k: Keys, a: Call): World {
    Having(Moved(k), Some(1), a, Dropping(k), Sends(k.third, Landed(2)))
  }

  lemma {:induction false} SettledAs(name: string, status: Status)
    ensures SetStatus(Sends(name, Pending), 0, status) == Sends(name, status)
  {
    var s := Sends(name, Pending).sent[0];
    assert [s][0 := s.(status := status)] == [s.(status := status)];
  }

  lemma {:induction false} ThirdLands(k: Keys)
    ensures Reached(Having(Moved(k), Some(1), Tests(k.first), Sends(k.second, Pending), Sends(k.third, Landed(2))))
  {
    TwoSend(k);
    ThirdIsGranted(k);
    SettledAs(k.third, Landed(2));
    var a, b := Tests(k.first), Sends(k.second, Pending);
    var v := Having(BOUND_LOG, Some(1), a, b, Sends(k.third, Pending));
    assert v.calls[2 := Sends(k.third, Landed(2))] == [a, b, Sends(k.third, Landed(2))];
    Next(v, Arrive(2, 0), Having(Moved(k), Some(1), a, b, Sends(k.third, Landed(2))));
  }

  lemma {:induction false} SecondIsRefused(k: Keys)
    requires k.Distinct()
    ensures Reached(BeforeTheDrop(k, Tests(k.first)))
  {
    ThirdLands(k);
    SecondIsNot(k);
    MovedReads(k);
    SettledAs(k.second, Refused);
    var a, b, c := Tests(k.first), Sends(k.second, Refused), Sends(k.third, Landed(2));
    var v := Having(Moved(k), Some(1), a, Sends(k.second, Pending), c);
    assert v.calls[1 := b] == [a, b, c];
    Next(v, Arrive(1, 0), Having(Moved(k), Some(1), a, b, c));
    StepOf(Moved(k), Some(1), a, b, c, 1, Proceed, Some(1), b.(pc := AskPresent));
    StepOf(Moved(k), Some(1), a, b.(pc := AskPresent), c, 1, Read(2), Some(1), b.(pc := DropSeqCache));
    StepOf(Moved(k), Some(1), a, b.(pc := DropSeqCache), c, 1, Proceed, Some(1), Dropping(k));
  }

  // ----- the first returns the empty global -----

  /** The first finds the global filled, the second drops it, the first returns it and goes on to its ExecAll. */
  function Race(acts: seq<Act>): Attempt {
    Attempt(0, acts, Proceed, [Step(1, Proceed), Step(0, Proceed), Step(0, Proceed)], Read(2), [Step(0, Proceed)])
  }

  function AfterTheDrop(k: Keys, a: Call): World {
    Having(Moved(k), None, a, Dropping(k).(pc := LoopTop), Sends(k.third, Landed(2)))
  }

  lemma {:induction false} RaceToCounter(k: Keys, acts: seq<Act>)
    requires k.Distinct() && Run(BEGIN, acts) == BeforeTheDrop(k, Tests(k.first))
    ensures Learned(BEGIN, Race(acts)) == BeforeTheDrop(k, Loads(k.first))
    ensures AtCounter(BEGIN, Race(acts)) == AfterTheDrop(k, Tests(k.first).(pc := ReadCounter))
  {
    var v := Learned(BEGIN, Race(acts));
    assert v.calls == BeforeTheDrop(k, Loads(k.first)).calls && v.procs == [Process(Some(1))];
    var steps := Race(acts).toCounter;
    var u1 := Apply(v, steps[0]);
    assert u1.calls == AfterTheDrop(k, Loads(k.first)).calls && u1.procs == [Process(None)];
    var u2 := Apply(u1, steps[1]);
    assert u2.calls == AfterTheDrop(k, Tests(k.first).(pc := ReadCache)).calls && u2.procs == [Process(None)];
    var u3 := Apply(u2, steps[2]);
    assert u3.calls == AfterTheDrop(k, Tests(k.first).(pc := ReadCounter)).calls && u3.procs == [Process(None)];
    assert steps[1..] == [steps[1], steps[2]] && steps[1..][1..] == [steps[2]] && steps[1..][1..][1..] == [];
    assert Run(v, steps) == Run(u1, steps[1..]) == Run(u2, steps[1..][1..]) == Run(u3, []);
  }

  function Binds(k: Keys): Call {
    Tests(k.first).(pc := Wait, observed := Some(Counter(2, 2)), next := 3,
                    sent := [Sent(3, Some(Counter(2, 2)), true, Pending)])
  }

  lemma {:induction false} BindOf(k: Keys, u: World)
    requires u == AfterTheDrop(k, Tests(k.first).(pc := Issue, observed := Some(Counter(2, 2))))
    ensures Run(u, [Step(0, Proceed)]) == AfterTheDrop(k, Binds(k))
  {
    var request := Sent(3, Some(Counter(2, 2)), true, Pending);
    assert [] + [request] == [request];
    var u' := Apply(u, Step(0, Proceed));
    assert u'.calls == AfterTheDrop(k, Binds(k)).calls && u'.procs == [Process(None)];
    assert [Step(0, Proceed)][1..] == [];
    assert Run(u, [Step(0, Proceed)]) == Run(u', []);
  }

  lemma {:induction false} RaceToLedger(k: Keys, acts: seq<Act>)
    requires k.Distinct() && Run(BEGIN, acts) == BeforeTheDrop(k, Tests(k.first))
    ensures AtLedger(BEGIN, Race(acts)) == AfterTheDrop(k, Binds(k))
  {
    RaceToCounter(k, acts);
    MovedReads(k);
    var u := Apply(AtCounter(BEGIN, Race(acts)), Step(0, Read(2)));
    assert u.calls == AfterTheDrop(k, Tests(k.first).(pc := Issue, observed := Some(Counter(2, 2)))).calls;
    assert u.procs == [Process(None)];
    BindOf(k, u);
  }

  lemma {:induction false} RaceFollows(k: Keys, acts: seq<Act>)
    requires k.Distinct() && Run(BEGIN, acts) == BeforeTheDrop(k, Tests(k.first))
    ensures Follows(BEGIN, Race(acts))
  {
    RaceToCounter(k, acts);
    RaceToLedger(k, acts);
    MovedReads(k);
  }

  lemma {:induction false} RaceIsCleared(k: Keys, acts: seq<Act>)
    requires k.Distinct() && Run(BEGIN, acts) == BeforeTheDrop(k, Tests(k.first))
    ensures ClearedUnder(Learned(BEGIN, Race(acts)), Race(acts).toCounter, 0)
  {
    BeginStarts();
    RaceFollows(k, acts);
    RaceToLedger(k, acts);
    MovedReads(k);
    AttemptIsBuilt(BEGIN, Race(acts));
    assert AtLedger(BEGIN, Race(acts)).calls[0].sent[0].bind;
  }

  lemma {:induction false} BindIsRefused(k: Keys)
    requires k.Distinct()
    ensures Apply(AfterTheDrop(k, Binds(k)), Arrive(0, 0)).calls[0] == SetStatus(Binds(k), 0, Refused)
  {
    MovedReads(k);
    assert Preconditions(Binds(k), Binds(k).sent[0])[2] == KeyMustNotExist(ReserveKey);
    assert !Holds(Moved(k), Preconditions(Binds(k), Binds(k).sent[0])[2]);
  }

  /** Nothing landed after what the first learned, and the ledger refuses it. */
  ghost predicate RefusedAlone(a: Attempt) {
    && AtReserve(BEGIN, a).log == AtCounter(BEGIN, a).log == AtLedger(BEGIN, a).log
    && var after := Apply(AtLedger(BEGIN, a), Arrive(0, 0));
       |after.calls| == 3 && |after.calls[0].sent| == 1 && after.calls[0].sent[0].status.Refused?
  }

  lemma {:induction false} RaceIsRefused(k: Keys, acts: seq<Act>)
    requires k.Distinct() && Run(BEGIN, acts) == BeforeTheDrop(k, Tests(k.first))
    ensures RefusedAlone(Race(acts))
  {
    RaceToCounter(k, acts);
    RaceToLedger(k, acts);
    BindIsRefused(k);
  }

  /** Three calls of one process: the third commits, the second is refused and drops the global between the
      first's test and its return; the first, which read the counter as it is and after whose reads nothing
      landed, tries to bind what is bound and is refused. */
  lemma {:induction false} ClearedGlobalIsRefused(k: Keys) returns (a: Attempt)
    requires k.Distinct()
    ensures Starts(BEGIN) && Follows(BEGIN, a) && ClearedUnder(Learned(BEGIN, a), a.toCounter, a.c)
    ensures RefusedAlone(a)
  {
    BeginStarts();
    SecondIsRefused(k);
    var acts :| Run(BEGIN, acts) == BeforeTheDrop(k, Tests(k.first));
    a := Race(acts);
    RaceFollows(k, acts);
    RaceIsCleared(k, acts);
    RaceIsRefused(k, acts);
  }
}
