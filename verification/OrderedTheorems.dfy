/** What the ordered write promises over whole runs. */
module OrderedTheorems {
  import opened Wrappers
  import opened Ledger
  import opened LedgerInvariant
  import opened OrderedCommit
  import opened WriterInvariant

  // ----- where a run may start -----

  /** A ledger nothing was allocated in, or one whose counter already runs at or above the seam. */
  ghost predicate Starts(w: World) {
    && w.calls == []
    && WriteOnce(w.log)
    && (forall p :: 0 <= p < |w.procs| ==> w.procs[p].seqCache.None? && w.procs[p].reserveCache.None?)
    && match Get(w.log, ReserveKey)
       case Some(e) => e.value.Number? && Seam(w.log, e.value.n)
       case None =>
         || (Fresh(w.log) && forall a, p :: InView(w.log, a) && 0 <= p < |w.procs| ==> a.score <= w.procs[p].reserve)
         || (forall p :: 0 <= p < |w.procs| ==> Seam(w.log, w.procs[p].reserve))
  }

  lemma {:induction false} RunSnoc(w: World, acts: seq<Act>, act: Act)
    ensures Run(w, acts + [act]) == Apply(Run(w, acts), act)
    decreases |acts|
  {
    if acts == [] {
      assert (acts + [act])[1..] == [];
    } else {
      assert (acts + [act])[1..] == acts[1..] + [act];
      RunSnoc(Apply(w, acts[0]), acts[1..], act);
    }
  }

  lemma {:induction false} RunInvariant(w: World, acts: seq<Act>)
    requires Starts(w)
    ensures Inv(Run(w, acts))
  {
    RunKeeps(w, acts);
  }

  lemma {:induction false} RunGrows(w: World, acts: seq<Act>)
    ensures w.log <= Run(w, acts).log
    ensures |Run(w, acts).procs| == |w.procs|
    ensures Reserves(Run(w, acts).procs) == Reserves(w.procs)
    decreases |acts|
  {
    if acts != [] {
      var w1 := Apply(w, acts[0]);
      if acts[0].Step? && acts[0].call < |w.calls| && w.calls[acts[0].call].proc < |w.procs| {
        var p := w.calls[acts[0].call].proc;
        assert Local(w.log, w.procs[p], w.calls[acts[0].call], acts[0].choice).0.reserve == w.procs[p].reserve;
      }
      assert Reserves(w1.procs) == Reserves(w.procs);
      RunGrows(w1, acts[1..]);
    }
  }

  // ----- positions -----

  ghost predicate Held(log: Log, p: nat) {
    exists a :: InView(log, a) && a.score == p
  }

  /** The counter's value; 0 when nothing was allocated. */
  function CounterValue(log: Log): nat {
    match Get(log, SequenceKey)
    case None => 0
    case Some(e) => if e.value.Number? then e.value.n else 0
  }

  /** Over all views, the positions above `r` are exactly r+1 up to the counter. */
  ghost predicate Dense(log: Log, r: nat) {
    forall p :: p > r ==> (Held(log, p) <==> p <= CounterValue(log))
  }

  /** A position above `r` is held by one key in one view. */
  ghost predicate OneHolder(log: Log, r: nat) {
    forall a, b :: InView(log, a) && InView(log, b) && a.score == b.score && a.score > r ==> a == b
  }

  ghost predicate OnePosition(log: Log) {
    forall a, b :: InView(log, a) && InView(log, b) && a.key == b.key ==> a.score == b.score
  }

  /** Position order and commit order are the same order, history included. */
  ghost predicate OrderAgrees(log: Log) {
    forall a, b :: InView(log, a) && InView(log, b) ==>
      (a.score < b.score <==> LastTx(log, a.key) < LastTx(log, b.key))
  }

  ghost predicate IndexDescribesLog(log: Log, r: nat) {
    Dense(log, r) && OneHolder(log, r) && OnePosition(log) && OrderAgrees(log)
  }

  /** The i-th live transaction holds position r+1+i and wrote that position's record. */
  lemma {:induction false} LiveEntry(log: Log, r: nat, a: ZAdd) returns (i: nat)
    requires WriteOnce(log) && Seam(log, r) && InView(log, a) && a.score > r
    ensures i < |Live(log, r)| && a.score == r + 1 + i
    ensures LastTx(log, a.key) == Live(log, r)[i]
    ensures log[Live(log, r)[i] - 1].adds == {a}
  {
    var t :| 1 <= t <= |log| && Added(log, a, t);
    var live := Live(log, r);
    assert HasLive(log[t - 1], r);
    assert t in live;
    i :| 0 <= i < |live| && live[i] == t;
    assert Allocates(log[live[i] - 1], r + 1 + i);
    assert Wrote(log, a.key, t) && Wrote(log, a.key, LastTx(log, a.key));
  }

  lemma {:induction false} EntryTx(log: Log, r: nat, a: ZAdd)
    requires WriteOnce(log) && Seam(log, r) && InView(log, a)
    ensures a.score <= r ==> LastTx(log, a.key) == a.score
    ensures a.score > r ==> LastTx(log, a.key) in Live(log, r)
    ensures a.score > r ==> a.score - r - 1 < |Live(log, r)| && LastTx(log, a.key) == Live(log, r)[a.score - r - 1]
  {
    if a.score > r { var i := LiveEntry(log, r, a); }
  }

  lemma {:induction false} SeamIsDense(log: Log, r: nat)
    requires WriteOnce(log) && Seam(log, r)
    ensures Dense(log, r)
  {
    var live := Live(log, r);
    forall p: nat | p > r ensures Held(log, p) <==> p <= CounterValue(log) {
      if p <= CounterValue(log) {
        var t := live[p - r - 1];
        assert Allocates(log[t - 1], r + 1 + (p - r - 1));
        var a :| log[t - 1].adds == {a} && a.score == p;
        assert Added(log, a, t);
      }
      if Held(log, p) {
        var a :| InView(log, a) && a.score == p;
        EntryTx(log, r, a);
      }
    }
  }

  lemma {:induction false} PairIsExact(log: Log, r: nat, a: ZAdd, b: ZAdd)
    requires WriteOnce(log) && Seam(log, r) && InView(log, a) && InView(log, b)
    ensures a.score == b.score && a.score > r ==> a == b
    ensures a.key == b.key ==> a.score == b.score
    ensures a.score < b.score <==> LastTx(log, a.key) < LastTx(log, b.key)
  {
    EntryTx(log, r, a);
    EntryTx(log, r, b);
    if a.score == b.score && a.score > r {
      var i := LiveEntry(log, r, a);
      var j := LiveEntry(log, r, b);
      assert log[Live(log, r)[i] - 1].adds == {a} == {b};
      assert a in {b};
    }
  }

  lemma {:induction false} SeamIsExact(log: Log, r: nat)
    requires WriteOnce(log) && Seam(log, r)
    ensures IndexDescribesLog(log, r)
  {
    SeamIsDense(log, r);
    forall a, b | InView(log, a) && InView(log, b)
      ensures a.score == b.score && a.score > r ==> a == b
      ensures a.key == b.key ==> a.score == b.score
      ensures a.score < b.score <==> LastTx(log, a.key) < LastTx(log, b.key)
    {
      PairIsExact(log, r, a, b);
    }
  }

  /** In every interleaving of any number of writers the index describes the log. */
  lemma {:induction false} PositionsAreExact(w: World, acts: seq<Act>)
    requires Starts(w)
    ensures var log := Run(w, acts).log;
            match Get(log, ReserveKey)
            case Some(e) => e.value.Number? && IndexDescribesLog(log, e.value.n)
            case None =>
              (Get(log, SequenceKey).None? && forall a, p :: InView(log, a) && 0 <= p < |w.procs| ==> a.score <= w.procs[p].reserve)
              || (forall p :: 0 <= p < |w.procs| ==> IndexDescribesLog(log, w.procs[p].reserve))
  {
    RunInvariant(w, acts);
    RunGrows(w, acts);
    var w' := Run(w, acts);
    var reserves := Reserves(w'.procs);
    match Get(w'.log, ReserveKey)
    case Some(e) => SeamIsExact(w'.log, e.value.n);
    case None =>
      if forall p :: 0 <= p < |reserves| ==> Seam(w'.log, reserves[p]) {
        forall p | 0 <= p < |w.procs| ensures IndexDescribesLog(w'.log, w.procs[p].reserve) {
          assert reserves[p] == w.procs[p].reserve;
          SeamIsExact(w'.log, w.procs[p].reserve);
        }
      } else {
        forall a, p | InView(w'.log, a) && 0 <= p < |w.procs| ensures a.score <= w.procs[p].reserve {
          assert reserves[p] == w.procs[p].reserve;
        }
      }
  }

  /** A ledger that has allocated nothing: its history is in commit order and all below the seam. */
  lemma {:induction false} FreshIsExact(log: Log, r: nat)
    requires Fresh(log) && forall a :: InView(log, a) ==> a.score <= r
    ensures IndexDescribesLog(log, r)
  {
    forall a, b | InView(log, a) && InView(log, b)
      ensures a.key == b.key ==> a.score == b.score
      ensures a.score < b.score <==> LastTx(log, a.key) < LastTx(log, b.key)
    {
      assert Historical(log, a) && Historical(log, b);
    }
  }

  /** A reserve no reader is refused for: the bound one or, while none is bound, one some process is configured with. */
  ghost predicate Agrees(log: Log, procs: seq<Proc>, reserve: nat) {
    if Get(log, ReserveKey).Some? then BoundIs(log, reserve)
    else exists p :: 0 <= p < |procs| && procs[p].reserve == reserve
  }

  /** What a ledger is to such a reader: one that allocated nothing, or one with its seam at the reader's reserve. */
  lemma {:induction false} AgreedSeam(log: Log, procs: seq<Proc>, reserve: nat)
    requires LedgerOk(log, Reserves(procs)) && Agrees(log, procs, reserve)
    ensures Seam(log, reserve) || (Fresh(log) && forall a :: InView(log, a) ==> a.score <= reserve)
    ensures Get(log, SequenceKey).Some? ==> Seam(log, reserve)
  {
    if Get(log, ReserveKey).None? {
      var p :| 0 <= p < |procs| && procs[p].reserve == reserve;
      assert Reserves(procs)[p] == reserve;
    }
  }

  /** So the index describes the log to every reader that is not refused, bound reserve or not. */
  lemma {:induction false} AgreedPositionsAreExact(w: World, acts: seq<Act>, reserve: nat)
    requires Starts(w) && Agrees(Run(w, acts).log, w.procs, reserve)
    ensures IndexDescribesLog(Run(w, acts).log, reserve)
  {
    RunInvariant(w, acts);
    RunGrows(w, acts);
    var log := Run(w, acts).log;
    AgreedSeam(log, w.procs, reserve);
    if Seam(log, reserve) { SeamIsExact(log, reserve); } else { FreshIsExact(log, reserve); }
  }

  // ----- a reader configured otherwise -----

  /** What the readers' agreement check lets through: the bound reserve or, while none is bound, any reserve. */
  ghost predicate LetsThrough(log: Log, procs: seq<Proc>, reserve: nat) {
    if Get(log, ReserveKey).Some? then BoundIs(log, reserve) else |procs| > 0
  }

  /** No transaction wrote two records. */
  ghost predicate SingleWrites(log: Log) {
    forall a: Key, b: Key, t :: a.RecordKey? && b.RecordKey? && Wrote(log, a, t) && Wrote(log, b, t) ==> a == b
  }

  lemma {:induction false} SingleAppend(log: Log, tx: Tx)
    requires SingleWrites(log) && forall a: Key, b: Key :: a.RecordKey? && b.RecordKey? && a in tx.sets && b in tx.sets ==> a == b
    ensures SingleWrites(log + [tx])
  {
    forall a: Key, b: Key, t | a.RecordKey? && b.RecordKey? && Wrote(log + [tx], a, t) && Wrote(log + [tx], b, t)
      ensures a == b
    {
      WroteAppend(log, tx, a, t);
      WroteAppend(log, tx, b, t);
    }
  }

  lemma {:induction false} RunKeepsSingle(w: World, acts: seq<Act>)
    requires SingleWrites(w.log)
    ensures SingleWrites(Run(w, acts).log)
    decreases |acts|
  {
    if acts != [] {
      match acts[0] {
        case Arrive(c, i) =>
          if PendingAt(w, c, i) {
            SingleAppend(w.log, Operations(w.procs[w.calls[c].proc], w.calls[c], w.calls[c].sent[i]));
          }
        case Unrelated(name, value) => SingleAppend(w.log, Tx(map[PlainKey(name) := value], {}));
        case _ =>
      }
      RunKeepsSingle(Apply(w, acts[0]), acts[1..]);
    }
  }

  /** What a reader needs of a view: position order is commit order, and no position above its reserve repeats. */
  ghost predicate Readable(log: Log, reserve: nat) {
    && OrderAgrees(log)
    && forall a, b :: InView(log, a) && InView(log, b) && a.view == b.view && a.score == b.score && a.score > reserve ==> a == b
  }

  lemma {:induction false} SeamIsReadable(log: Log, seam: nat, reserve: nat)
    requires WriteOnce(log) && Seam(log, seam) && SingleWrites(log)
    ensures Readable(log, reserve)
  {
    SeamIsExact(log, seam);
    forall a, b | InView(log, a) && InView(log, b) && a.view == b.view && a.score == b.score ensures a == b {
      if a.score <= seam { SharedHistory(log, a, b); }
    }
  }

  lemma {:induction false} SharedHistory(log: Log, a: ZAdd, b: ZAdd)
    requires SingleWrites(log) && Historical(log, a) && Historical(log, b) && a.view == b.view && a.score == b.score
    ensures a == b
  {
    assert Wrote(log, a.key, a.score) && Wrote(log, b.key, b.score);
  }

  lemma {:induction false} FreshIsReadable(log: Log, reserve: nat)
    requires Fresh(log) && SingleWrites(log)
    ensures Readable(log, reserve)
  {
    forall a, b | InView(log, a) && InView(log, b)
      ensures a.score < b.score <==> LastTx(log, a.key) < LastTx(log, b.key)
      ensures a.view == b.view && a.score == b.score ==> a == b
    {
      assert Historical(log, a) && Historical(log, b);
      if a.view == b.view && a.score == b.score { SharedHistory(log, a, b); }
    }
  }

  /** Every ledger the agreement check lets through reads in commit order, with the reserve of a process or,
      where no transaction of its history wrote two records, with any reserve. */
  lemma {:induction false} LetThroughIsReadable(w: World, acts: seq<Act>, reserve: nat)
    requires Starts(w) && LetsThrough(Run(w, acts).log, w.procs, reserve)
    requires Agrees(Run(w, acts).log, w.procs, reserve) || SingleWrites(w.log)
    ensures Readable(Run(w, acts).log, reserve)
  {
    var log := Run(w, acts).log;
    if Agrees(log, w.procs, reserve) {
      AgreedPositionsAreExact(w, acts, reserve);
    } else {
      RunInvariant(w, acts);
      RunGrows(w, acts);
      RunKeepsSingle(w, acts);
      assert Reserves(w.procs)[0] == w.procs[0].reserve;
      if Seam(log, w.procs[0].reserve) {
        SeamIsReadable(log, w.procs[0].reserve, reserve);
      } else {
        FreshIsReadable(log, reserve);
      }
    }
  }

  /** Whatever any reader is configured with, position order is commit order and no key holds two positions. */
  lemma {:induction false} OrderIsCommitOrder(w: World, acts: seq<Act>)
    requires Starts(w) && (Get(Run(w, acts).log, ReserveKey).Some? || |w.procs| > 0)
    ensures OrderAgrees(Run(w, acts).log) && OnePosition(Run(w, acts).log)
  {
    RunInvariant(w, acts);
    RunGrows(w, acts);
    var log := Run(w, acts).log;
    var reserve := if Get(log, ReserveKey).Some? then Get(log, ReserveKey).value.value.n else w.procs[0].reserve;
    if Get(log, ReserveKey).None? { assert Agrees(log, w.procs, w.procs[0].reserve); }
    AgreedPositionsAreExact(w, acts, reserve);
  }

  // ----- a seam, once there, stays -----

  lemma {:induction false} GrantKeepsSeam(w: World, c: nat, i: nat, r: nat)
    requires Inv(w) && Seam(w.log, r) && PendingAt(w, c, i)
    requires AllHold(w.log, Preconditions(w.calls[c], w.calls[c].sent[i]))
    ensures var log' := w.log + [Operations(w.procs[w.calls[c].proc], w.calls[c], w.calls[c].sent[i])];
            Seam(log', r) && forall a :: InView(log', a) && a.score <= r ==> InView(w.log, a)
  {
    var log, call := w.log, w.calls[c];
    var proc, s := w.procs[call.proc], call.sent[i];
    var tx := Operations(proc, call, s);
    GrantKeepsLedger(w, c, i);
    assert SentOk(log, proc, call, s) && Holds(log, Preconditions(call, s)[0]);
    if s.observed.Some? { GrantedMeansCurrent(log, s.observed.value); }
    assert ZAdd(call.view, s.next, call.key) in tx.adds && Allocates(tx, s.next);
    SeamStep(log, tx, r);
    forall a | InView(log + [tx], a) && a.score <= r ensures InView(log, a) { AddedAppend(log, tx, a); }
  }

  lemma {:induction false} ApplyKeepsSeam(w: World, act: Act, r: nat)
    requires Inv(w) && Seam(w.log, r)
    ensures Seam(Apply(w, act).log, r)
    ensures forall a :: InView(Apply(w, act).log, a) && a.score <= r ==> InView(w.log, a)
  {
    match act
    case Arrive(c, i) =>
      if PendingAt(w, c, i) && AllHold(w.log, Preconditions(w.calls[c], w.calls[c].sent[i])) { GrantKeepsSeam(w, c, i, r); }
    case Unrelated(name, value) => UnrelatedKeepsSeam(w.log, name, value, r);
    case _ =>
  }

  lemma {:induction false} UnrelatedKeepsSeam(log: Log, name: string, value: Value, r: nat)
    requires WriteOnce(log) && Seam(log, r)
    ensures var log' := log + [Tx(map[PlainKey(name) := value], {})];
            Seam(log', r) && forall a :: InView(log', a) ==> InView(log, a)
  {
    var tx := Tx(map[PlainKey(name) := value], {});
    WriteOnceAppend(log, tx);
    SeamUnrelated(log, tx, r);
    forall a ensures InView(log + [tx], a) ==> InView(log, a) { AddedAppend(log, tx, a); }
  }

  /** A ledger with its seam at `r` keeps it there in every run, and gains no history. */
  lemma {:induction false} SeamStays(w: World, acts: seq<Act>, r: nat)
    requires Inv(w) && Seam(w.log, r)
    ensures Seam(Run(w, acts).log, r)
    ensures forall a :: InView(Run(w, acts).log, a) && a.score <= r ==> InView(w.log, a)
    decreases |acts|
  {
    if acts != [] {
      ApplyKeeps(w, acts[0]);
      ApplyKeepsSeam(w, acts[0], r);
      SeamStays(Apply(w, acts[0]), acts[1..], r);
    }
  }

  // ----- the response contract -----

  ghost predicate Landed(call: Call, i: nat) {
    i < |call.sent| && call.sent[i].status.Landed?
  }

  /** A finished call stays finished, with the same request and the same answer. */
  lemma {:induction false} DoneStays(w: World, acts: seq<Act>, c: nat)
    requires c < |w.calls| && w.calls[c].pc.Done?
    ensures var w' := Run(w, acts);
            && c < |w'.calls|
            && w'.calls[c].pc == w.calls[c].pc && w'.calls[c].key == w.calls[c].key
            && w'.calls[c].value == w.calls[c].value && w'.calls[c].view == w.calls[c].view
            && |w'.calls[c].sent| == |w.calls[c].sent|
    decreases |acts|
  {
    if acts != [] { DoneStays(Apply(w, acts[0]), acts[1..], c); }
  }

  /** The answer of a finished call, read against the ledger at the end of the run. */
  ghost predicate AnswerIsTrue(w: World, c: nat)
    requires c < |w.calls| && w.calls[c].pc.Done?
  {
    Backed(w.log, w.calls[c])
  }

  ghost predicate Backed(log: Log, call: Call)
    requires call.pc.Done?
  {
    match call.pc.response
    case Committed(tx, position, _) =>
      && Get(log, call.key) == Some(Entry(call.value, tx))
      && (position.Some? ==> InView(log, ZAdd(call.view, position.value, call.key)))
    case NotCommitted => forall i :: !Landed(call, i)
    case NotEstablished => true
    case Conflict => Get(log, call.key).Some? && forall i :: !Landed(call, i)
  }

  lemma {:induction false} CallAnswer(log: Log, procs: seq<Proc>, call: Call)
    requires WriteOnce(log) && CallOk(log, procs, call) && call.pc.Done?
    ensures Backed(log, call)
    ensures forall i, j :: Landed(call, i) && Landed(call, j) ==> i == j
  {
    if call.pc.response.Committed? {
      assert Wrote(log, call.key, call.pc.response.tx);
      assert Wrote(log, call.key, LastTx(log, call.key));
    }
  }

  lemma {:induction false} AnswerNow(w: World, c: nat)
    requires Inv(w) && c < |w.calls| && w.calls[c].pc.Done?
    ensures AnswerIsTrue(w, c)
    ensures var call := w.calls[c]; forall i, j :: Landed(call, i) && Landed(call, j) ==> i == j
  {
    CallAnswer(w.log, w.procs, w.calls[c]);
  }

  lemma {:induction false} LandedIsLast(log: Log, procs: seq<Proc>, call: Call, i: nat)
    requires WriteOnce(log) && CallOk(log, procs, call) && Landed(call, i)
    ensures Get(log, call.key) == Some(Entry(call.value, call.sent[i].status.tx))
  {
    LandedFacts(log, procs[call.proc], call, call.sent[i]);
    assert Wrote(log, call.key, call.sent[i].status.tx);
    assert Wrote(log, call.key, LastTx(log, call.key));
  }

  /** Of two ExecAlls for one record key, by the same call or by different calls, one transaction at most exists. */
  lemma {:induction false} OneCommitPerKey(w: World, acts: seq<Act>, c: nat, i: nat, d: nat, j: nat)
    requires Starts(w)
    requires var w' := Run(w, acts);
             c < |w'.calls| && d < |w'.calls| && w'.calls[c].key == w'.calls[d].key
             && Landed(w'.calls[c], i) && Landed(w'.calls[d], j)
    ensures var w' := Run(w, acts);
            w'.calls[c].sent[i].status.tx == w'.calls[d].sent[j].status.tx == LastTx(w'.log, w'.calls[c].key)
            && w'.calls[c].value == w'.calls[d].value
  {
    RunInvariant(w, acts);
    var w' := Run(w, acts);
    LandedIsLast(w'.log, w'.procs, w'.calls[c], i);
    LandedIsLast(w'.log, w'.procs, w'.calls[d], j);
  }

  // ----- the reserve -----

  /** The reserve is bound once, for good, and every allocation came from a process configured with it. */
  lemma {:induction false} OneReserve(w: World, acts: seq<Act>, later: seq<Act>, c: nat, i: nat)
    requires Starts(w)
    requires c < |Run(w, acts).calls| && Landed(Run(w, acts).calls[c], i)
    ensures var w' := Run(w, acts);
            w'.calls[c].proc < |w.procs| && BoundIs(w'.log, w.procs[w'.calls[c].proc].reserve)
    ensures Get(Run(Run(w, acts), later).log, ReserveKey) == Get(Run(w, acts).log, ReserveKey)
  {
    RunInvariant(w, acts);
    RunGrows(w, acts);
    var w' := Run(w, acts);
    var call := w'.calls[c];
    assert SentOk(w'.log, w'.procs[call.proc], call, call.sent[i]);
    assert Reserves(w'.procs)[call.proc] == Reserves(w.procs)[call.proc];
    RunKeeps(w', later);
    RunGrows(w', later);
    var log2 := Run(w', later).log;
    assert log2[..|w'.log|] == w'.log;
    GetFromSnapshot(log2, |w'.log|, ReserveKey);
  }

  /** A reserve a score can follow: what a process loads, and what it takes from the ledger, is checked to be one. */
  predicate Usable(reserve: nat) { 1 <= reserve < MAX_POSITION }

  ghost predicate OnlyUsable(w: World) {
    forall p :: 0 <= p < |w.procs| ==>
      Usable(w.procs[p].reserve) && (w.procs[p].reserveCache.Some? ==> Usable(w.procs[p].reserveCache.value))
  }

  lemma {:induction false} StepStaysUsable(log: Log, proc: Proc, call: Call, choice: Choice)
    requires Usable(proc.reserve) && (proc.reserveCache.Some? ==> Usable(proc.reserveCache.value))
    ensures var proc' := Local(log, proc, call, choice).0;
            Usable(proc'.reserve) && (proc'.reserveCache.Some? ==> Usable(proc'.reserveCache.value))
  {
  }

  /** Over any ledger, whatever it has bound, no process ever holds a reserve that is not one: another is refused
      where it is read. */
  lemma {:induction false} CachedReserveIsUsable(w: World, acts: seq<Act>)
    requires OnlyUsable(w)
    ensures OnlyUsable(Run(w, acts))
    decreases |acts|
  {
    if acts != [] {
      var act := acts[0];
      if act.Step? && act.call < |w.calls| && w.calls[act.call].proc < |w.procs| {
        StepStaysUsable(w.log, w.procs[w.calls[act.call].proc], w.calls[act.call], act.choice);
      }
      CachedReserveIsUsable(Apply(w, act), acts[1..]);
    }
  }

  // ----- the caches -----

  /** Every counter pair held by a cache or by a call is a past state of the counter, and
      whenever the ledger grants an ExecAll the pair it was built from is the current one. */
  lemma {:induction false} CachedPairsArePast(w: World, acts: seq<Act>, p: nat, c: nat, i: nat)
    requires Starts(w)
    requires var w' := Run(w, acts); p < |w'.procs| && c < |w'.calls|
    ensures var w' := Run(w, acts);
            && (w'.procs[p].seqCache.Some? ==> CounterAt(w'.log, w'.procs[p].seqCache.value))
            && (w'.procs[p].reserveCache.Some? ==> BoundIs(w'.log, w'.procs[p].reserveCache.value))
            && (w'.calls[c].observed.Some? ==> CounterAt(w'.log, w'.calls[c].observed.value))
    ensures var w' := Run(w, acts);
            PendingAt(w', c, i) && AllHold(w'.log, Preconditions(w'.calls[c], w'.calls[c].sent[i])) ==>
              match w'.calls[c].sent[i].observed
              case None => Get(w'.log, SequenceKey).None?
              case Some(ct) => Get(w'.log, SequenceKey) == Some(Entry(Number(ct.value), ct.tx))
  {
    RunInvariant(w, acts);
    var w' := Run(w, acts);
    if PendingAt(w', c, i) && AllHold(w'.log, Preconditions(w'.calls[c], w'.calls[c].sent[i])) {
      var call := w'.calls[c];
      assert SentOk(w'.log, w'.procs[call.proc], call, call.sent[i]);
      assert Holds(w'.log, Preconditions(call, call.sent[i])[0]);
      if call.sent[i].observed.Some? { GrantedMeansCurrent(w'.log, call.sent[i].observed.value); }
    }
  }

  /** Every position handed out is a distinct binary64 score. */
  lemma {:induction false} PositionsStayBelowCeiling(w: World, acts: seq<Act>, c: nat, i: nat)
    requires Starts(w)
    requires c < |Run(w, acts).calls| && i < |Run(w, acts).calls[c].sent|
    ensures Run(w, acts).calls[c].sent[i].next < MAX_POSITION
  {
    RunInvariant(w, acts);
    var w' := Run(w, acts);
    assert SentOk(w'.log, w'.procs[w'.calls[c].proc], w'.calls[c], w'.calls[c].sent[i]);
  }

  // ----- which view a record is in -----

  predicate PairedWith(key: Key, view: View) {
    key.RecordKey? && view == (if key.prefix.ToolCall? then DecisionView else IntentView)
  }

  /** The two ledger clients: decisions to the decision view, intents to the intent view. */
  predicate PairedActs(acts: seq<Act>) {
    forall i :: 0 <= i < |acts| && acts[i].Start? ==> PairedWith(acts[i].key, acts[i].view)
  }

  ghost predicate Paired(w: World) {
    && (forall a :: InView(w.log, a) ==> PairedWith(a.key, a.view))
    && (forall c :: 0 <= c < |w.calls| ==> PairedWith(w.calls[c].key, w.calls[c].view))
  }

  lemma {:induction false} PairedAppend(log: Log, tx: Tx)
    requires forall a :: InView(log, a) ==> PairedWith(a.key, a.view)
    requires forall a :: a in tx.adds ==> PairedWith(a.key, a.view)
    ensures forall a :: InView(log + [tx], a) ==> PairedWith(a.key, a.view)
  {
    forall a | InView(log + [tx], a) ensures PairedWith(a.key, a.view) { AddedAppend(log, tx, a); }
  }

  lemma {:induction false} ApplyKeepsPaired(w: World, act: Act)
    requires Paired(w) && (act.Start? ==> PairedWith(act.key, act.view))
    ensures Paired(Apply(w, act))
  {
    var w' := Apply(w, act);
    match act
    case Arrive(c, i) =>
      if w'.log != w.log {
        PairedAppend(w.log, Operations(w.procs[w.calls[c].proc], w.calls[c], w.calls[c].sent[i]));
      }
    case Unrelated(name, value) => PairedAppend(w.log, Tx(map[PlainKey(name) := value], {}));
    case _ =>
  }

  lemma {:induction false} RunKeepsPaired(w: World, acts: seq<Act>)
    requires Paired(w) && PairedActs(acts)
    ensures Paired(Run(w, acts))
    decreases |acts|
  {
    if acts != [] {
      ApplyKeepsPaired(w, acts[0]);
      assert PairedActs(acts[1..]);
      RunKeepsPaired(Apply(w, acts[0]), acts[1..]);
    }
  }
}
