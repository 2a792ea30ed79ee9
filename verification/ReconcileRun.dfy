/** The reconciliation against the protocol it watches. */
module ReconcileRun {
  import opened Ledger
  import opened OrderedCommit
  import opened WriterInvariant
  import opened OrderedTheorems
  import opened ZScan
  import opened Reconcile
  import opened ReconcileVerdict
  import AuditPage

  lemma {:induction false} HeldMeaning(log: Log, p: nat)
    ensures Held(log, p) <==> HeldIn(MembersOf(log, DecisionView), p) || HeldIn(MembersOf(log, IntentView), p)
  {
    if Held(log, p) {
      var a :| InView(log, a) && a.score == p;
      assert Member(a.score as real, a.key) in MembersOf(log, a.view);
    }
  }

  /** The views the walk reads lie between the ledger its first call was answered from and the ledger at the end. */
  ghost predicate WalksBetween(server: Server, view: View, first: Log, end: Log) {
    first <= end && MembersOf(first, view) <= server.views(0) && server.final <= MembersOf(end, view)
  }

  /** The two states the two walks began at; a zscan may lag behind the counter read. */
  datatype Firsts = Firsts(decision: Log, intent: Log) {
    function Of(view: View): Log { if view.DecisionView? then decision else intent }
  }

  /** A position of `log` whose entry the walk of its view, as it began, had not reached. */
  ghost predicate Unreached(log: Log, firsts: Firsts, p: int) {
    exists a :: InView(log, a) && a.score == p && !InView(firsts.Of(a.view), a)
  }

  /** A pass that found a counter, read by a service no reader would be refused for, watches a ledger with its seam
      at that service's reserve, then and for as long as the pass runs. */
  lemma {:induction false} BothSeamed(w: World, acts: seq<Act>, later: seq<Act>, reserve: nat)
    requires Starts(w) && Agrees(Run(w, acts).log, w.procs, reserve) && Get(Run(w, acts).log, SequenceKey).Some?
    ensures var log, end := Run(w, acts).log, Run(Run(w, acts), later).log;
            && IndexDescribesLog(log, reserve) && IndexDescribesLog(end, reserve)
            && forall a :: InView(end, a) && a.score <= reserve ==> InView(log, a)
  {
    RunInvariant(w, acts);
    RunGrows(w, acts);
    AgreedSeam(Run(w, acts).log, w.procs, reserve);
    SeamStays(Run(w, acts), later, reserve);
    RunKeeps(Run(w, acts), later);
    SeamIsExact(Run(w, acts).log, reserve);
    SeamIsExact(Run(Run(w, acts), later).log, reserve);
  }

  /** Live positions are unique and history does not grow, so few members share a score at the end if few did before. */
  lemma {:induction false} FewStays(log: Log, end: Log, view: View, reserve: nat)
    requires OneHolder(end, reserve) && FewPerScore(MembersOf(log, view))
    requires forall a :: InView(end, a) && a.score <= reserve ==> InView(log, a)
    ensures FewPerScore(MembersOf(end, view))
  {
    forall s ensures |SharingScore(MembersOf(end, view), s)| < PAGE {
      var sharing := SharingScore(MembersOf(end, view), s);
      if s > reserve as real {
        forall m, n | m in sharing && n in sharing ensures m == n {
          var a :| InView(end, a) && a.view == view && m == Member(a.score as real, a.key);
          var b :| InView(end, b) && b.view == view && n == Member(b.score as real, b.key);
        }
        AtMostOne(sharing);
      } else {
        forall m | m in sharing ensures m in SharingScore(MembersOf(log, view), s) {
          var a :| InView(end, a) && a.view == view && m == Member(a.score as real, a.key);
        }
        SubsetSize(sharing, SharingScore(MembersOf(log, view), s));
      }
    }
  }

  lemma {:induction false} AtMostOne<T>(xs: set<T>)
    requires forall x, y :: x in xs && y in xs ==> x == y
    ensures |xs| <= 1
  {
    if x :| x in xs { assert xs == {x}; }
  }

  lemma {:induction false} ReadIfReached(log: Log, firsts: Firsts, decision: Server, intent: Server,
                                         d: seq<Member>, i: seq<Member>, a: ZAdd)
    requires FewPerScore(decision.final) && FewPerScore(intent.final)
    requires MembersOf(firsts.decision, DecisionView) <= decision.views(0) && MembersOf(firsts.intent, IntentView) <= intent.views(0)
    requires WalkDone(decision, d) && WalkDone(intent, i)
    requires InView(log, a) && InView(firsts.Of(a.view), a)
    ensures HeldIn(Members(d), a.score) || HeldIn(Members(i), a.score)
  {
    var m := Member(a.score as real, a.key);
    if a.view.DecisionView? {
      assert m in MembersOf(firsts.decision, DecisionView) && m in Members(d);
    } else {
      assert m in MembersOf(firsts.intent, IntentView) && m in Members(i);
    }
  }

  /** What the walks missed of the counter's range they had not reached when they began. */
  lemma {:induction false} MissedIsUnreached(log: Log, reserve: nat, firsts: Firsts, decision: Server, intent: Server,
                                             d: seq<Member>, i: seq<Member>, p: int)
    requires Dense(log, reserve) && FewPerScore(decision.final) && FewPerScore(intent.final)
    requires MembersOf(firsts.decision, DecisionView) <= decision.views(0) && MembersOf(firsts.intent, IntentView) <= intent.views(0)
    requires WalkDone(decision, d) && WalkDone(intent, i)
    requires reserve < p <= CounterValue(log) && !HeldIn(Members(d), p) && !HeldIn(Members(i), p)
    ensures Unreached(log, firsts, p)
  {
    assert Held(log, p);
    var a :| InView(log, a) && a.score == p;
    if InView(firsts.Of(a.view), a) { ReadIfReached(log, firsts, decision, intent, d, i, a); }
  }

  /** Over views that do not move during the walks, an unreached position is not read. */
  lemma {:induction false} UnreachedIsMissed(log: Log, end: Log, reserve: nat, firsts: Firsts, decision: Server, intent: Server,
                                             d: seq<Member>, i: seq<Member>, p: int)
    requires log <= end && firsts.decision <= end && firsts.intent <= end && OneHolder(end, reserve)
    requires decision.final == MembersOf(firsts.decision, DecisionView) && intent.final == MembersOf(firsts.intent, IntentView)
    requires WalkDone(decision, d) && WalkDone(intent, i)
    requires p > reserve && Unreached(log, firsts, p)
    ensures !HeldIn(Members(d), p) && !HeldIn(Members(i), p)
  {
    var a :| InView(log, a) && a.score == p && !InView(firsts.Of(a.view), a);
    InViewLater(log, end, a);
    forall m | m in Members(d) ensures m.score != p as real { NotThere(firsts.decision, end, reserve, a, DecisionView, m); }
    forall m | m in Members(i) ensures m.score != p as real { NotThere(firsts.intent, end, reserve, a, IntentView, m); }
  }

  lemma {:induction false} InViewLater(log: Log, end: Log, a: ZAdd)
    requires log <= end && InView(log, a)
    ensures InView(end, a)
  {
    var t :| 1 <= t <= |log| && Added(log, a, t);
    assert Added(end, a, t);
  }

  lemma {:induction false} NotThere(first: Log, end: Log, reserve: nat, a: ZAdd, view: View, m: Member)
    requires first <= end && OneHolder(end, reserve) && InView(end, a) && a.score > reserve
    requires a.view == view ==> !InView(first, a)
    requires m in MembersOf(first, view)
    ensures m.score != a.score as real
  {
    var b :| InView(first, b) && b.view == view && m == Member(b.score as real, b.key);
    InViewLater(first, end, b);
  }

  lemma {:induction false} NothingForeign(end: Log, reserve: nat, decision: Server, intent: Server, d: seq<Member>, i: seq<Member>)
    requires Dense(end, reserve)
    requires decision.final <= MembersOf(end, DecisionView) && intent.final <= MembersOf(end, IntentView)
    requires WalkDone(decision, d) && WalkDone(intent, i)
    ensures forall m :: m in d + i && m.score > reserve as real ==>
              IsWhole(m.score) && m.score.Floor <= CounterValue(end)
  {
    forall m | m in d + i && m.score > reserve as real
      ensures IsWhole(m.score) && m.score.Floor <= CounterValue(end)
    {
      assert m in MembersOf(end, DecisionView) || m in MembersOf(end, IntentView);
      var a :| InView(end, a) && m == Member(a.score as real, a.key);
      assert Held(end, a.score);
    }
  }

  lemma {:induction false} PassBetween(log: Log, firsts: Firsts, end: Log, reserve: nat, decision: Server, intent: Server,
                                       r: Reading, report: Report)
    requires log <= end && IndexDescribesLog(log, reserve) && IndexDescribesLog(end, reserve)
    requires forall a :: InView(end, a) && a.score <= reserve ==> InView(log, a)
    requires Honest(decision) && FewPerScore(MembersOf(log, DecisionView)) && WalksBetween(decision, DecisionView, firsts.decision, end)
    requires Honest(intent) && FewPerScore(MembersOf(log, IntentView)) && WalksBetween(intent, IntentView, firsts.intent, end)
    requires ReadFrom(r, decision, intent) && r.okD && r.okI && RangeFound(report, reserve, CounterValue(log), r.d, r.i)
    ensures forall p :: p in report.missing ==> reserve < p <= CounterValue(log) && Unreached(log, firsts, p)
    ensures decision.final == MembersOf(firsts.decision, DecisionView) && intent.final == MembersOf(firsts.intent, IntentView) ==>
              forall p :: p in report.missing <==> p > reserve && Unreached(log, firsts, p)
    ensures forall s :: s in report.unallocated ==> IsWhole(s) && CounterValue(log) < s.Floor <= CounterValue(end)
  {
    FewStays(log, end, DecisionView, reserve);
    FewStays(log, end, IntentView, reserve);
    FewInSubset(decision.final, MembersOf(end, DecisionView));
    FewInSubset(intent.final, MembersOf(end, IntentView));
    forall p | p in report.missing ensures Unreached(log, firsts, p) {
      MissedIsUnreached(log, reserve, firsts, decision, intent, r.d, r.i, p);
    }
    if decision.final == MembersOf(firsts.decision, DecisionView) && intent.final == MembersOf(firsts.intent, IntentView) {
      forall p: int | p > reserve && Unreached(log, firsts, p) ensures p in report.missing {
        UnreachedIsMissed(log, end, reserve, firsts, decision, intent, r.d, r.i, p);
        assert Held(log, p) && p <= CounterValue(log);
      }
    }
    NothingForeign(end, reserve, decision, intent, r.d, r.i);
    QuietRange(report, reserve, CounterValue(log), CounterValue(end), r.d, r.i);
  }

  lemma {:induction false} QuietRange(report: Report, reserve: nat, counter: nat, last: nat, d: seq<Member>, i: seq<Member>)
    requires RangeFound(report, reserve, counter, d, i)
    requires forall m :: m in d + i && m.score > reserve as real ==> IsWhole(m.score) && m.score.Floor <= last
    ensures forall s :: s in report.unallocated ==> IsWhole(s) && counter < s.Floor <= last
  {
    forall s | s in report.unallocated ensures IsWhole(s) && counter < s.Floor <= last {
      var m :| m in d + i && m.score == s;
    }
  }

  lemma {:induction false} AllReached(log: Log, firsts: Firsts, p: int)
    requires log <= firsts.decision && log <= firsts.intent
    ensures !Unreached(log, firsts, p)
  {
    if a :| InView(log, a) && a.score == p && !InView(firsts.Of(a.view), a) { InViewLater(log, firsts.Of(a.view), a); }
  }

  /** A pass that reads the counter and walks the views while writers keep committing, its zscans lagging as they
      may: it reports missing only positions whose entries the walks had not reached when they began, and exactly
      those over views that hold still; nothing, when neither walk began behind the counter read. It calls
      unallocated only what was allocated after that read. Few members sharing a score is asked only of the
      views as the counter was read. */
  lemma {:induction false} PassDuringWrites(w: World, acts: seq<Act>, later: seq<Act>, reserve: nat, firsts: Firsts,
                                            decision: Server, intent: Server, r: Reading, report: Report)
    requires Starts(w) && Agrees(Run(w, acts).log, w.procs, reserve) && Get(Run(w, acts).log, SequenceKey).Some?
    requires Honest(decision) && FewPerScore(MembersOf(Run(w, acts).log, DecisionView))
    requires Honest(intent) && FewPerScore(MembersOf(Run(w, acts).log, IntentView))
    requires WalksBetween(decision, DecisionView, firsts.decision, Run(Run(w, acts), later).log)
    requires WalksBetween(intent, IntentView, firsts.intent, Run(Run(w, acts), later).log)
    requires ReadFrom(r, decision, intent) && r.okD && r.okI
    requires RangeFound(report, reserve, CounterValue(Run(w, acts).log), r.d, r.i)
    ensures forall p :: p in report.missing ==> Unreached(Run(w, acts).log, firsts, p)
    ensures decision.final == MembersOf(firsts.decision, DecisionView) && intent.final == MembersOf(firsts.intent, IntentView) ==>
              forall p :: p in report.missing <==> p > reserve && Unreached(Run(w, acts).log, firsts, p)
    ensures Run(w, acts).log <= firsts.decision && Run(w, acts).log <= firsts.intent ==> report.missing == {}
    ensures forall s :: s in report.unallocated ==>
              IsWhole(s) && CounterValue(Run(w, acts).log) < s.Floor <= CounterValue(Run(Run(w, acts), later).log)
  {
    var log := Run(w, acts).log;
    BothSeamed(w, acts, later, reserve);
    RunGrows(Run(w, acts), later);
    PassBetween(log, firsts, Run(Run(w, acts), later).log, reserve, decision, intent, r, report);
    if log <= firsts.decision && log <= firsts.intent {
      if report.missing != {} {
        var p := Pick(report.missing);
        AllReached(log, firsts, p);
      }
    }
  }

  // ----- what a clean verdict does and does not say -----

  /** Position order and commit order are one order on the positions above `r`. */
  ghost predicate LiveOrderAgrees(log: Log, r: nat) {
    forall a, b :: InView(log, a) && InView(log, b) && a.score > r && b.score > r ==>
      (a.score < b.score <==> LastTx(log, a.key) < LastTx(log, b.key))
  }

  /** Both views' live rows merged, highest position first, ties in any order. */
  ghost predicate MergedRows(log: Log, r: nat, rows: seq<AuditPage.Row>) {
    && (forall k :: 0 <= k < |rows| ==> LiveRow(log, r, rows[k]))
    && (forall x :: LiveRow(log, r, x) ==> x in rows)
    && (forall j, k :: 0 <= j < k < |rows| ==> rows[j] != rows[k] && rows[j].score >= rows[k].score)
  }

  ghost predicate LiveRow(log: Log, r: nat, x: AuditPage.Row) {
    x.score > r && exists view :: AuditPage.IsRow(log, view, x)
  }

  function RowFor(log: Log, a: ZAdd): AuditPage.Row { AuditPage.Row(a.score, a.key, LastTx(log, a.key)) }

  lemma {:induction false} EntryOf(log: Log, r: nat, x: AuditPage.Row) returns (a: ZAdd)
    requires LiveRow(log, r, x)
    ensures InView(log, a) && a.score > r && x == RowFor(log, a)
  {
    var view :| AuditPage.IsRow(log, view, x);
    a := ZAdd(view, x.score, x.key);
  }

  lemma {:induction false} RowHeld(log: Log, r: nat, rows: seq<AuditPage.Row>, a: ZAdd) returns (k: nat)
    requires MergedRows(log, r, rows) && InView(log, a) && a.score > r
    ensures k < |rows| && rows[k] == RowFor(log, a)
  {
    assert a == ZAdd(a.view, a.score, a.key);
    assert AuditPage.IsRow(log, a.view, RowFor(log, a));
    assert LiveRow(log, r, RowFor(log, a));
    k :| 0 <= k < |rows| && rows[k] == RowFor(log, a);
  }

  /** A record belongs to one view, so two entries of one row are one entry. */
  lemma {:induction false} OneView(log: Log, reserve: nat, counter: nat, a: ZAdd)
    requires Sound(MembersOf(log, DecisionView), MembersOf(log, IntentView), reserve, counter) && InView(log, a)
    ensures a.key.RecordKey? && a.view == if a.key.prefix.ToolCall? then DecisionView else IntentView
  {
    assert Member(a.score as real, a.key) in MembersOf(log, a.view);
  }

  lemma {:induction false} AgreesWhenOrdered(log: Log, reserve: nat, counter: nat, rows: seq<AuditPage.Row>)
    requires Sound(MembersOf(log, DecisionView), MembersOf(log, IntentView), reserve, counter)
    requires MergedRows(log, reserve, rows) && AuditPage.AllPairsAgree(rows)
    ensures OneHolder(log, reserve) && LiveOrderAgrees(log, reserve)
  {
    forall a, b | InView(log, a) && InView(log, b) && a.score > reserve && b.score > reserve
      ensures a.score == b.score ==> a == b
      ensures a.score < b.score <==> LastTx(log, a.key) < LastTx(log, b.key)
    {
      var j := RowHeld(log, reserve, rows, a);
      var k := RowHeld(log, reserve, rows, b);
      OneView(log, reserve, counter, a);
      OneView(log, reserve, counter, b);
    }
  }

  lemma {:induction false} OrderedWhenAgrees(log: Log, reserve: nat, rows: seq<AuditPage.Row>)
    requires MergedRows(log, reserve, rows) && OneHolder(log, reserve) && LiveOrderAgrees(log, reserve)
    ensures AuditPage.AllPairsAgree(rows)
  {
    forall j, k | 0 <= j < k < |rows| ensures rows[j].score > rows[k].score && rows[j].tx > rows[k].tx {
      var a := EntryOf(log, reserve, rows[j]);
      var b := EntryOf(log, reserve, rows[k]);
    }
  }

  lemma {:induction false} SoundRange(log: Log, reserve: nat, counter: nat)
    requires Sound(MembersOf(log, DecisionView), MembersOf(log, IntentView), reserve, counter)
    ensures forall p :: p > reserve ==> (Held(log, p) <==> p <= counter)
    ensures OnePosition(log)
  {
    forall p: nat | p > reserve ensures Held(log, p) <==> p <= counter { HeldMeaning(log, p); }
    forall a, b | InView(log, a) && InView(log, b) && a.key == b.key ensures a.score == b.score {
      OneView(log, reserve, counter, a);
      OneView(log, reserve, counter, b);
      assert Member(a.score as real, a.key) in MembersOf(log, a.view);
      assert Member(b.score as real, b.key) in MembersOf(log, b.view);
    }
  }

  /** Exactly how far a clean verdict goes. Over views that satisfy every check of the pass, the live
      positions are the range the counter handed out and no key holds two; and each is held by one
      record in commit order if and only if the audit page's adjacent-pair test passes on the live
      rows of both views merged, which the pass does not run. */
  lemma {:induction false} CleanOrdersExactly(log: Log, reserve: nat, counter: nat, rows: seq<AuditPage.Row>)
    requires Sound(MembersOf(log, DecisionView), MembersOf(log, IntentView), reserve, counter)
    requires MergedRows(log, reserve, rows)
    ensures forall p :: p > reserve ==> (Held(log, p) <==> p <= counter)
    ensures OnePosition(log)
    ensures AuditPage.FirstDisagreement(rows).None? <==> OneHolder(log, reserve) && LiveOrderAgrees(log, reserve)
  {
    SoundRange(log, reserve, counter);
    AuditPage.AdjacentDecidesAll(rows);
    if AuditPage.AllPairsAgree(rows) { AgreesWhenOrdered(log, reserve, counter, rows); }
    if OneHolder(log, reserve) && LiveOrderAgrees(log, reserve) { OrderedWhenAgrees(log, reserve, rows); }
  }

  function Rec(name: string): Key { RecordKey(ToolCall, name) }

  /** Two allocations whose index entries are swapped: position 12 names the older record. */
  function SwappedLog(): Log {
    [Tx(map[Rec("a") := Bytes("x"), SequenceKey := Number(11)], {ZAdd(DecisionView, 12, Rec("a"))}),
     Tx(map[Rec("b") := Bytes("y"), SequenceKey := Number(12)], {ZAdd(DecisionView, 11, Rec("b"))})]
  }

  lemma {:induction false} SwappedEntries(a: ZAdd)
    ensures InView(SwappedLog(), a) <==> a == ZAdd(DecisionView, 12, Rec("a")) || a == ZAdd(DecisionView, 11, Rec("b"))
  {
    var log := SwappedLog();
    assert Added(log, ZAdd(DecisionView, 12, Rec("a")), 1) && Added(log, ZAdd(DecisionView, 11, Rec("b")), 2);
  }

  lemma {:induction false} SwappedViews()
    ensures MembersOf(SwappedLog(), DecisionView) == {Member(12.0, Rec("a")), Member(11.0, Rec("b"))}
    ensures MembersOf(SwappedLog(), IntentView) == {}
  {
    var log := SwappedLog();
    forall x ensures InView(log, x) <==> x == ZAdd(DecisionView, 12, Rec("a")) || x == ZAdd(DecisionView, 11, Rec("b")) {
      SwappedEntries(x);
    }
    assert InView(log, ZAdd(DecisionView, 12, Rec("a"))) && InView(log, ZAdd(DecisionView, 11, Rec("b")));
  }

  lemma {:induction false} PairIsSound(a: Key, b: Key)
    requires a != b && Belongs(a, ToolCall) && Belongs(b, ToolCall)
    ensures Sound({Member(12.0, a), Member(11.0, b)}, {}, 10, 12)
  {
    var view := {Member(12.0, a), Member(11.0, b)};
    assert Member(12.0, a) in view && Member(11.0, b) in view;
    assert HeldIn(view, 11) && HeldIn(view, 12);
  }

  lemma {:induction false} SwappedOrder()
    ensures var log := SwappedLog(); CounterValue(log) == 12 && !OrderAgrees(log)
  {
    var log := SwappedLog();
    var a, b := ZAdd(DecisionView, 12, Rec("a")), ZAdd(DecisionView, 11, Rec("b"));
    SwappedEntries(a);
    SwappedEntries(b);
    assert "a"[0] != "b"[0] && Rec("a") != Rec("b");
    assert Wrote(log, a.key, 1) && !Wrote(log, a.key, 2) && Wrote(log, b.key, 2) && Wrote(log, SequenceKey, 2);
    assert LastTx(log, a.key) == 1 && LastTx(log, b.key) == 2 && LastTx(log, SequenceKey) == 2;
  }

  /** The pass reads positions and keys but no transaction, so an index that contradicts
      commit order satisfies every check it makes. */
  lemma {:induction false} CleanIgnoresCommitOrder()
    ensures var log := SwappedLog();
            Sound(MembersOf(log, DecisionView), MembersOf(log, IntentView), 10, CounterValue(log)) && !OrderAgrees(log)
  {
    assert "a"[0] != "b"[0] && Rec("a") != Rec("b");
    SwappedViews();
    PairIsSound(Rec("a"), Rec("b"));
    SwappedOrder();
  }

  /** Nor does it notice two records on one live position of one view. */
  lemma {:induction false} CleanAllowsTwoHolders()
    ensures var view := {Member(11.0, Rec("a")), Member(11.0, Rec("b"))};
            Sound(view, {}, 10, 11) && |view| == 2
  {
    var view := {Member(11.0, Rec("a")), Member(11.0, Rec("b"))};
    assert "a"[0] != "b"[0] && Rec("a") != Rec("b");
    assert HeldIn(view, 11) by { assert Member(11.0, Rec("a")) in view; }
  }
}
