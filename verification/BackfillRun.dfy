/** Whole backfill passes: interrupted anywhere, run again, they end with every
    record at exactly one position. */
module BackfillRun {
  import opened Wrappers
  import opened Ledger
  import opened LedgerInvariant
  import opened ZScan
  import opened Paging
  import opened BackfillReads

  // ----- what a pass does to the ledger -----

  ghost predicate Indexed(log: Log, view: View, key: Key) {
    exists s :: InView(log, ZAdd(view, s, key))
  }

  /** The ledger as each of a pass's four reads found it: per view, its index and then its keys. */
  datatype Reads = Reads(decisionIndex: Log, decisionKeys: Log, intentIndex: Log, intentKeys: Log) {
    function Index(prefix: Prefix): Log { if prefix.ToolCall? then decisionIndex else intentIndex }

    function Keys(prefix: Prefix): Log { if prefix.ToolCall? then decisionKeys else intentKeys }
  }

  /** Nothing else writes during the pass. */
  function Quiet(log: Log): Reads { Reads(log, log, log, log) }

  /** A record the key scan finds under a view's prefix and the index read did not find in the view. */
  ghost predicate Found(r: Reads, p: Pending) {
    && p.key.RecordKey? && p.view == ViewFor(p.key.prefix)
    && Get(r.Keys(p.key.prefix), p.key).Some? && p.tx == LastTx(r.Keys(p.key.prefix), p.key)
    && !Indexed(r.Index(p.key.prefix), p.view, p.key)
  }

  /** A record under a view's prefix that its view does not hold. */
  ghost predicate Unindexed(log: Log, p: Pending) { Found(Quiet(log), p) }

  ghost predicate SortedByTx(ps: seq<Pending>) {
    forall i, j :: 0 <= i < j < |ps| ==> ps[i].tx <= ps[j].tx
  }

  ghost predicate Distinct(ps: seq<Pending>) {
    forall i, j :: 0 <= i < j < |ps| ==> ps[i] != ps[j]
  }

  /** What one pass finds to do: every record its reads make out to be unindexed, once, in commit order. */
  ghost predicate ToIndexFrom(r: Reads, ps: seq<Pending>) {
    && (forall p :: p in ps <==> Found(r, p))
    && SortedByTx(ps) && Distinct(ps)
  }

  ghost predicate ToIndex(log: Log, ps: seq<Pending>) { ToIndexFrom(Quiet(log), ps) }

  function Counter(log: Log): Option<nat> {
    match Get(log, SequenceKey)
    case None => None
    case Some(e) => if e.value.Number? then Some(e.value.n) else None
  }

  /** A counter running below the reserve is raised to it, and never lowered. */
  function Seeded(log: Log, reserve: nat): Log {
    if Counter(log).Some? && Counter(log).value < reserve then log + [Tx(map[SequenceKey := Number(reserve)], {})]
    else log
  }

  function SeededIf(answered: bool, log: Log, reserve: nat): Log { if answered then Seeded(log, reserve) else log }

  function AddTx(p: Pending): Tx { Tx(map[], {ZAdd(p.view, p.tx, p.key)}) }

  function AddAll(log: Log, ps: seq<Pending>): Log {
    if ps == [] then log else AddAll(log, ps[..|ps| - 1]) + [AddTx(ps[|ps| - 1])]
  }

  // ----- sorting -----

  function Insert(p: Pending, ps: seq<Pending>): seq<Pending> {
    if ps == [] || p.tx >= ps[|ps| - 1].tx then ps + [p]
    else Insert(p, ps[..|ps| - 1]) + [ps[|ps| - 1]]
  }

  function SortByTx(ps: seq<Pending>): seq<Pending> {
    if ps == [] then [] else Insert(ps[|ps| - 1], SortByTx(ps[..|ps| - 1]))
  }

  lemma {:induction false} InsertMembers(p: Pending, ps: seq<Pending>)
    ensures forall x :: x in Insert(p, ps) <==> x == p || x in ps
  {
    if ps != [] && p.tx < ps[|ps| - 1].tx {
      InsertMembers(p, ps[..|ps| - 1]);
      assert ps == ps[..|ps| - 1] + [ps[|ps| - 1]];
    }
  }

  lemma {:induction false} InsertSorts(p: Pending, ps: seq<Pending>)
    requires SortedByTx(ps) && Distinct(ps) && p !in ps
    ensures SortedByTx(Insert(p, ps)) && Distinct(Insert(p, ps))
  {
    if ps != [] && p.tx < ps[|ps| - 1].tx {
      var init, last := ps[..|ps| - 1], ps[|ps| - 1];
      InsertSorts(p, init);
      InsertMembers(p, init);
      forall x | x in Insert(p, init) ensures x.tx <= last.tx && x != last {
        if x in init { var i :| 0 <= i < |init| && init[i] == x; assert ps[i] == x; }
      }
    }
  }

  lemma {:induction false} SortByTxSorts(ps: seq<Pending>)
    requires Distinct(ps)
    ensures SortedByTx(SortByTx(ps)) && Distinct(SortByTx(ps))
    ensures forall x :: x in SortByTx(ps) <==> x in ps
  {
    if ps != [] {
      var init, last := ps[..|ps| - 1], ps[|ps| - 1];
      SortByTxSorts(init);
      assert ps == init + [last] && last !in init;
      InsertMembers(last, SortByTx(init));
      InsertSorts(last, SortByTx(init));
    }
  }

  // ----- what a pass leaves behind -----

  lemma {:induction false} AddAllFacts(log: Log, ps: seq<Pending>)
    ensures forall key :: Get(AddAll(log, ps), key) == Get(log, key) && LastTx(AddAll(log, ps), key) == LastTx(log, key)
    ensures forall a :: InView(AddAll(log, ps), a) <==>
              InView(log, a) || exists p :: p in ps && a == ZAdd(p.view, p.tx, p.key)
  {
    if ps != [] {
      var init, last := ps[..|ps| - 1], ps[|ps| - 1];
      AddAllFacts(log, init);
      var before := AddAll(log, init);
      forall key ensures Get(AddAll(log, ps), key) == Get(log, key) && LastTx(AddAll(log, ps), key) == LastTx(log, key) {
        LastTxAppend(before, AddTx(last), key);
      }
      assert ps == init + [last];
      forall a ensures InView(AddAll(log, ps), a) <==>
              InView(log, a) || exists p :: p in ps && a == ZAdd(p.view, p.tx, p.key) {
        AddedAppend(before, AddTx(last), a);
        if exists p :: p in init && a == ZAdd(p.view, p.tx, p.key) {
          var p :| p in init && a == ZAdd(p.view, p.tx, p.key);
          assert p in ps;
        }
        assert last in ps;
      }
    }
  }

  lemma {:induction false} SeededFacts(log: Log, reserve: nat)
    ensures forall key: Key :: key != SequenceKey ==>
              Get(Seeded(log, reserve), key) == Get(log, key) && LastTx(Seeded(log, reserve), key) == LastTx(log, key)
    ensures forall a :: InView(Seeded(log, reserve), a) <==> InView(log, a)
    ensures Counter(Seeded(log, reserve)) == match Counter(log) case None => None case Some(c) => Some(if c < reserve then reserve else c)
  {
    var tx := Tx(map[SequenceKey := Number(reserve)], {});
    forall key { LastTxAppend(log, tx, key); }
    forall a { AddedAppend(log, tx, a); }
  }

  /** One pass that read `r`, found the ledger at `log` when it began to write, and stopped after `k` zAdds. */
  ghost predicate PassFrom(r: Reads, log: Log, reserve: nat, ps: seq<Pending>, k: nat, log': Log) {
    && ToIndexFrom(r, ps) && k <= |ps|
    && (forall p :: p in ps ==> p.tx < reserve)
    && log' == AddAll(Seeded(log, reserve), ps[..k])
  }

  ghost predicate PassOf(log: Log, reserve: nat, ps: seq<Pending>, k: nat, log': Log) {
    PassFrom(Quiet(log), log, reserve, ps, k, log')
  }

  /** No key holds two positions in a view. */
  ghost predicate NoKeyDoubled(log: Log) {
    forall a, b :: InView(log, a) && InView(log, b) && a.view == b.view && a.key == b.key ==> a == b
  }

  ghost predicate AllIndexed(log: Log) {
    forall key: Key :: key.RecordKey? && Get(log, key).Some? ==> Indexed(log, ViewFor(key.prefix), key)
  }

  /** What any number of passes, finished or not, may change. */
  ghost predicate OnlyAddsHistory(log: Log, log': Log, reserve: nat) {
    && (forall key: Key :: key.RecordKey? ==> Get(log', key) == Get(log, key) && LastTx(log', key) == LastTx(log, key))
    && (forall a :: InView(log, a) ==> InView(log', a))
    && (forall a :: InView(log', a) && !InView(log, a) ==>
          a.key.RecordKey? && a.view == ViewFor(a.key.prefix) && a.score == LastTx(log, a.key) < reserve
          && Get(log, a.key).Some? && !Indexed(log, a.view, a.key))
  }

  lemma {:induction false} PassAdds(log: Log, reserve: nat, ps: seq<Pending>, k: nat, log': Log)
    requires PassOf(log, reserve, ps, k, log')
    ensures OnlyAddsHistory(log, log', reserve)
    ensures NoKeyDoubled(log) ==> NoKeyDoubled(log')
    ensures k == |ps| ==> AllIndexed(log')
  {
    var seeded := Seeded(log, reserve);
    SeededFacts(log, reserve);
    AddAllFacts(seeded, ps[..k]);
    forall a | InView(log', a) && !InView(log, a)
      ensures a.key.RecordKey? && a.view == ViewFor(a.key.prefix) && a.score == LastTx(log, a.key) < reserve
              && Get(log, a.key).Some? && !Indexed(log, a.view, a.key)
    {
      var p :| p in ps[..k] && a == ZAdd(p.view, p.tx, p.key);
      assert p in ps;
    }
    if NoKeyDoubled(log) {
      forall a, b | InView(log', a) && InView(log', b) && a.view == b.view && a.key == b.key ensures a == b {
        if InView(log, a) { assert a == ZAdd(b.view, a.score, b.key) && Indexed(log, b.view, b.key); }
        if InView(log, b) { assert b == ZAdd(a.view, b.score, a.key) && Indexed(log, a.view, a.key); }
      }
    }
    if k == |ps| { FinishedPassIndexesAll(log, reserve, ps, log'); }
  }

  lemma {:induction false} FinishedPassIndexesAll(log: Log, reserve: nat, ps: seq<Pending>, log': Log)
    requires PassOf(log, reserve, ps, |ps|, log')
    ensures AllIndexed(log')
  {
    SeededFacts(log, reserve);
    assert ps[..|ps|] == ps;
    AddAllFacts(Seeded(log, reserve), ps);
    forall key: Key | key.RecordKey? && Get(log', key).Some? ensures Indexed(log', ViewFor(key.prefix), key) {
      var p := Pending(ViewFor(key.prefix), key, LastTx(log, key));
      if Unindexed(log, p) {
        assert p in ps;
        assert InView(log', ZAdd(p.view, p.tx, p.key));
      } else {
        var s :| InView(log, ZAdd(p.view, s, key));
        assert InView(log', ZAdd(p.view, s, key));
      }
    }
  }

  lemma {:induction false} AddsCompose(a: Log, b: Log, c: Log, reserve: nat)
    requires OnlyAddsHistory(a, b, reserve) && OnlyAddsHistory(b, c, reserve)
    ensures OnlyAddsHistory(a, c, reserve)
  {
    forall x | InView(c, x) && !InView(a, x)
      ensures x.key.RecordKey? && x.view == ViewFor(x.key.prefix) && x.score == LastTx(a, x.key) < reserve
              && Get(a, x.key).Some? && !Indexed(a, x.view, x.key)
    {
      IndexedStays(a, b, x.view, x.key);
    }
  }

  lemma {:induction false} IndexedStays(a: Log, b: Log, view: View, key: Key)
    requires forall x :: InView(a, x) ==> InView(b, x)
    ensures Indexed(a, view, key) ==> Indexed(b, view, key)
  {
    if s :| InView(a, ZAdd(view, s, key)) { assert InView(b, ZAdd(view, s, key)); }
  }

  ghost predicate SomePass(log: Log, log': Log, reserve: nat) {
    exists ps, k :: PassOf(log, reserve, ps, k, log')
  }

  ghost predicate PassAt(logs: seq<Log>, i: nat, reserve: nat) {
    0 < i < |logs| && SomePass(logs[i - 1], logs[i], reserve)
  }

  /** A run of passes: `logs` are the ledgers between them, each pass stopped after some prefix of its zAdds. */
  ghost predicate Passes(logs: seq<Log>, reserve: nat) {
    |logs| > 0 && forall i :: 0 < i < |logs| ==> PassAt(logs, i, reserve)
  }

  lemma {:induction false} PassesAdd(logs: seq<Log>, reserve: nat, i: nat)
    requires Passes(logs, reserve) && NoKeyDoubled(logs[0]) && i < |logs|
    ensures OnlyAddsHistory(logs[0], logs[i], reserve) && NoKeyDoubled(logs[i])
  {
    if i > 0 {
      PassesAdd(logs, reserve, i - 1);
      assert PassAt(logs, i, reserve);
      OneMorePass(logs[0], logs[i - 1], logs[i], reserve);
    }
  }

  lemma {:induction false} OneMorePass(first: Log, log: Log, log': Log, reserve: nat)
    requires OnlyAddsHistory(first, log, reserve) && NoKeyDoubled(log) && SomePass(log, log', reserve)
    ensures OnlyAddsHistory(first, log', reserve) && NoKeyDoubled(log')
  {
    SomePassAdds(log, log', reserve);
    AddsCompose(first, log, log', reserve);
  }

  lemma {:induction false} SomePassAdds(log: Log, log': Log, reserve: nat)
    requires SomePass(log, log', reserve)
    ensures OnlyAddsHistory(log, log', reserve)
    ensures NoKeyDoubled(log) ==> NoKeyDoubled(log')
  {
    var ps, k :| PassOf(log, reserve, ps, k, log');
    PassAdds(log, reserve, ps, k, log');
  }

  lemma {:induction false} NothingToIndex(log: Log, ps: seq<Pending>)
    requires AllIndexed(log) && ToIndex(log, ps)
    ensures ps == []
  {
    if ps != [] { IndexedIsDone(log, ps[0]); }
  }

  lemma {:induction false} IndexedIsDone(log: Log, p: Pending)
    requires AllIndexed(log)
    ensures !Unindexed(log, p)
  {
  }

  lemma {:induction false} LastPass(first: Log, last: Log, reserve: nat, ps: seq<Pending>, done: Log)
    requires OnlyAddsHistory(first, last, reserve) && NoKeyDoubled(last) && PassOf(last, reserve, ps, |ps|, done)
    ensures AllIndexed(done) && NoKeyDoubled(done) && OnlyAddsHistory(first, done, reserve)
  {
    PassAdds(last, reserve, ps, |ps|, done);
    AddsCompose(first, last, done, reserve);
  }

  /** Interrupted any number of times and then run to its end: every record holds exactly one position,
      the new ones at their own transaction below the reserve, the old ones untouched; and a further
      pass finds nothing to do. */
  lemma {:induction false} BackfillConverges(logs: seq<Log>, reserve: nat, ps: seq<Pending>, done: Log, more: seq<Pending>)
    requires Passes(logs, reserve) && NoKeyDoubled(logs[0])
    requires PassOf(logs[|logs| - 1], reserve, ps, |ps|, done)
    ensures AllIndexed(done) && NoKeyDoubled(done) && OnlyAddsHistory(logs[0], done, reserve)
    ensures ToIndex(done, more) ==> more == []
  {
    PassesAdd(logs, reserve, |logs| - 1);
    LastPass(logs[0], logs[|logs| - 1], reserve, ps, done);
    if ToIndex(done, more) { NothingToIndex(done, more); }
  }

  // ----- a pass beside live writers -----

  /** What live writers may do: the index only gains entries, each above the reserve, one for each record that
      is there now and was not there before. */
  ghost predicate OnlyLive(before: Log, after: Log, reserve: nat) {
    && before <= after
    && (forall a :: InView(before, a) ==> InView(after, a))
    && (forall a :: InView(after, a) && !InView(before, a) ==>
          a.score > reserve && Get(before, a.key).None? && Get(after, a.key).Some?)
    && (forall a, b :: InView(after, a) && !InView(before, a) && InView(after, b) && !InView(before, b) ==>
          a.view != b.view || a.key != b.key || a == b)
  }

  /** A record its view's index read did not hold, although at the key scan its view does. */
  ghost predicate Caught(r: Reads, key: Key) {
    && key.RecordKey? && Get(r.Keys(key.prefix), key).Some?
    && !Indexed(r.Index(key.prefix), ViewFor(key.prefix), key)
    && Indexed(r.Keys(key.prefix), ViewFor(key.prefix), key)
  }

  ghost predicate LiveReads(r: Reads, log: Log, reserve: nat) {
    forall prefix :: OnlyLive(r.Index(prefix), r.Keys(prefix), reserve) && OnlyLive(r.Keys(prefix), log, reserve)
  }

  /** A pass's zAdds of `ps`, in order, live writers moving before, between and after them. */
  ghost predicate Woven(log: Log, reserve: nat, ps: seq<Pending>, log': Log)
    decreases |ps|, 1
  {
    if ps == [] then OnlyLive(log, log', reserve) else exists mid :: LastAddAt(log, reserve, ps, mid, log')
  }

  /** The last of the zAdds was taken up at `mid`. */
  ghost predicate LastAddAt(log: Log, reserve: nat, ps: seq<Pending>, mid: Log, log': Log)
    requires ps != []
    decreases |ps|, 0
  {
    Woven(log, reserve, ps[..|ps| - 1], mid) && OnlyLive(mid + [AddTx(ps[|ps| - 1])], log', reserve)
  }

  /** An entry the live writers brought. */
  ghost predicate Brought(log: Log, ps: seq<Pending>, log': Log, a: ZAdd) {
    InView(log', a) && !InView(log, a) && forall p :: p in ps ==> a != ZAdd(p.view, p.tx, p.key)
  }

  /** The entries of `log`, those of `ps`, and one above the reserve for each record that is new. */
  ghost predicate Grown(log: Log, reserve: nat, ps: seq<Pending>, log': Log) {
    && log <= log'
    && (forall a :: InView(log, a) ==> InView(log', a))
    && (forall p :: p in ps ==> InView(log', ZAdd(p.view, p.tx, p.key)))
    && (forall a :: Brought(log, ps, log', a) ==> a.score > reserve && Get(log, a.key).None? && Get(log', a.key).Some?)
    && (forall a, b :: Brought(log, ps, log', a) && Brought(log, ps, log', b) && a.view == b.view && a.key == b.key ==> a == b)
  }

  lemma {:induction false} GrownLive(log: Log, reserve: nat, ps: seq<Pending>, mid: Log, log': Log)
    requires Grown(log, reserve, ps, mid) && OnlyLive(mid, log', reserve)
    ensures Grown(log, reserve, ps, log')
  {
    forall a | Brought(log, ps, log', a)
      ensures a.score > reserve && Get(log, a.key).None? && Get(log', a.key).Some?
      ensures InView(mid, a) ==> Brought(log, ps, mid, a)
    {
      if InView(mid, a) {
        assert Brought(log, ps, mid, a);
        if Get(log', a.key).None? { NotYet(mid, log', a.key); }
      } else {
        NotYet(log, mid, a.key);
      }
    }
  }

  lemma {:induction false} GrownAdd(log: Log, reserve: nat, ps: seq<Pending>, mid: Log, p: Pending)
    requires Grown(log, reserve, ps, mid)
    ensures Grown(log, reserve, ps + [p], mid + [AddTx(p)])
  {
    var log' := mid + [AddTx(p)];
    forall a { AddedAppend(mid, AddTx(p), a); }
    forall q | q in ps + [p] ensures InView(log', ZAdd(q.view, q.tx, q.key)) {}
    forall a | Brought(log, ps + [p], log', a)
      ensures Brought(log, ps, mid, a) && Get(log', a.key).Some?
    {
      assert p in ps + [p];
      forall q | q in ps ensures a != ZAdd(q.view, q.tx, q.key) { assert q in ps + [p]; }
      LastTxAppend(mid, AddTx(p), a.key);
    }
  }

  lemma {:induction false} WovenGrows(log: Log, reserve: nat, ps: seq<Pending>, log': Log)
    requires Woven(log, reserve, ps, log')
    ensures Grown(log, reserve, ps, log')
    decreases |ps|
  {
    if ps != [] {
      var init, last := ps[..|ps| - 1], ps[|ps| - 1];
      var mid :| LastAddAt(log, reserve, ps, mid, log');
      WovenGrows(log, reserve, init, mid);
      GrownAdd(log, reserve, init, mid, last);
      assert init + [last] == ps;
      GrownLive(log, reserve, ps, mid + [AddTx(last)], log');
    }
  }

  lemma {:induction false} StandingStill(log: Log, reserve: nat)
    ensures OnlyLive(log, log, reserve)
  {
  }

  /** A pass nothing moves beside is one of these. */
  lemma {:induction false} AloneIsWoven(log: Log, reserve: nat, ps: seq<Pending>)
    ensures Woven(log, reserve, ps, AddAll(log, ps))
    decreases |ps|
  {
    StandingStill(AddAll(log, ps), reserve);
    if ps != [] {
      AloneIsWoven(log, reserve, ps[..|ps| - 1]);
      assert LastAddAt(log, reserve, ps, AddAll(log, ps[..|ps| - 1]), AddAll(log, ps));
    }
  }

  ghost predicate EntriesHaveRecords(log: Log) { forall a :: InView(log, a) ==> Get(log, a.key).Some? }

  /** What the first `k` zAdds of the pass put at a second position: records caught between their view's two reads. */
  ghost predicate CaughtWritten(r: Reads, ps: seq<Pending>, key: Key) {
    Caught(r, key) && exists p :: p in ps && p.key == key
  }

  lemma {:induction false} CaughtIsDoubled(r: Reads, log: Log, reserve: nat, ps: seq<Pending>, log': Log, p: Pending)
    requires LiveReads(r, log, reserve) && Grown(Seeded(log, reserve), reserve, ps, log')
    requires p in ps && Found(r, p) && p.tx < reserve && Caught(r, p.key)
    ensures !NoKeyDoubled(log')
  {
    var s :| InView(r.Keys(p.key.prefix), ZAdd(p.view, s, p.key));
    assert !InView(r.Index(p.key.prefix), ZAdd(p.view, s, p.key));
    SeededFacts(log, reserve);
    assert InView(log, ZAdd(p.view, s, p.key));
    assert InView(log', ZAdd(p.view, s, p.key)) && InView(log', ZAdd(p.view, p.tx, p.key));
  }

  /** An entry beside one the pass wrote, for the same key: it was there, and its record was caught. */
  lemma {:induction false} BesideWritten(r: Reads, log: Log, reserve: nat, ps: seq<Pending>, log': Log, p: Pending, b: ZAdd)
    requires LiveReads(r, log, reserve) && Grown(Seeded(log, reserve), reserve, ps, log')
    requires forall q :: q in ps ==> Found(r, q)
    requires p in ps && InView(log', b) && b.view == p.view && b.key == p.key && b.score != p.tx
    ensures Caught(r, p.key)
  {
    SeededFacts(log, reserve);
    assert Found(r, p);
    var keys := r.Keys(p.key.prefix);
    forall q | q in ps ensures b != ZAdd(q.view, q.tx, q.key) { assert Found(r, q); }
    if Get(log, p.key).None? { NotYet(keys, log, p.key); }
    assert !Brought(Seeded(log, reserve), ps, log', b);
    assert b == ZAdd(p.view, b.score, p.key) && InView(log, b) && InView(keys, b);
  }

  lemma {:induction false} DoubledWasCaught(r: Reads, log: Log, reserve: nat, ps: seq<Pending>, log': Log, a: ZAdd, b: ZAdd)
    requires LiveReads(r, log, reserve) && Grown(Seeded(log, reserve), reserve, ps, log')
    requires NoKeyDoubled(log) && EntriesHaveRecords(log) && forall q :: q in ps ==> Found(r, q)
    requires InView(log', a) && InView(log', b) && a.view == b.view && a.key == b.key && a != b
    ensures CaughtWritten(r, ps, a.key)
  {
    if p :| p in ps && a == ZAdd(p.view, p.tx, p.key) {
      BesideWritten(r, log, reserve, ps, log', p, b);
    } else if p :| p in ps && b == ZAdd(p.view, p.tx, p.key) {
      BesideWritten(r, log, reserve, ps, log', p, a);
    } else {
      OldOrBrought(log, reserve, ps, log', a, b);
    }
  }

  /** Of the entries the pass did not write, no two are for one key of one view. */
  lemma {:induction false} OldOrBrought(log: Log, reserve: nat, ps: seq<Pending>, log': Log, a: ZAdd, b: ZAdd)
    requires Grown(Seeded(log, reserve), reserve, ps, log') && NoKeyDoubled(log) && EntriesHaveRecords(log)
    requires InView(log', a) && InView(log', b) && a.view == b.view && a.key == b.key
    requires forall p :: p in ps ==> a != ZAdd(p.view, p.tx, p.key) && b != ZAdd(p.view, p.tx, p.key)
    ensures a == b
  {
    var base := Seeded(log, reserve);
    SeededFacts(log, reserve);
    SeededHas(log, reserve, a.key);
    assert InView(log, a) || Brought(base, ps, log', a);
    assert InView(log, b) || Brought(base, ps, log', b);
  }

  lemma {:induction false} SeededHas(log: Log, reserve: nat, key: Key)
    ensures Get(log, key).Some? ==> Get(Seeded(log, reserve), key).Some?
  {
    LastTxAppend(log, Tx(map[SequenceKey := Number(reserve)], {}), key);
  }

  lemma {:induction false} GrownDoublesTheCaught(r: Reads, log: Log, reserve: nat, written: seq<Pending>, log': Log)
    requires LiveReads(r, log, reserve) && NoKeyDoubled(log) && EntriesHaveRecords(log)
    requires Grown(Seeded(log, reserve), reserve, written, log') && forall q :: q in written ==> Found(r, q) && q.tx < reserve
    ensures !NoKeyDoubled(log') <==> exists key :: CaughtWritten(r, written, key)
  {
    if key :| CaughtWritten(r, written, key) {
      var p :| p in written && p.key == key;
      CaughtIsDoubled(r, log, reserve, written, log', p);
    }
    if !NoKeyDoubled(log') {
      var a, b :| InView(log', a) && InView(log', b) && a.view == b.view && a.key == b.key && a != b;
      DoubledWasCaught(r, log, reserve, written, log', a, b);
    }
  }

  /** Beside live writers, stopped after any prefix of its zAdds and with writers moving between them, a pass
      doubles a key if and only if it wrote some record committed between its view's two reads: absent from the
      index read, and both present and indexed at the key scan. A pass that finds any record at or above the
      reserve refuses, so each of these lies below it. */
  lemma {:induction false} DoublesExactlyTheCaught(r: Reads, log: Log, reserve: nat, ps: seq<Pending>, k: nat, log': Log)
    requires LiveReads(r, log, reserve) && NoKeyDoubled(log) && EntriesHaveRecords(log)
    requires ToIndexFrom(r, ps) && k <= |ps| && (forall p :: p in ps ==> p.tx < reserve)
    requires Woven(Seeded(log, reserve), reserve, ps[..k], log')
    ensures !NoKeyDoubled(log') <==> exists key :: CaughtWritten(r, ps[..k], key)
    ensures forall key :: Caught(r, key) ==> LastTx(r.Keys(key.prefix), key) < reserve
  {
    WovenGrows(Seeded(log, reserve), reserve, ps[..k], log');
    forall q | q in ps[..k] ensures Found(r, q) && q.tx < reserve { assert q in ps; }
    GrownDoublesTheCaught(r, log, reserve, ps[..k], log');
    forall key | Caught(r, key) ensures LastTx(r.Keys(key.prefix), key) < reserve {
      assert Found(r, Pending(ViewFor(key.prefix), key, LastTx(r.Keys(key.prefix), key)));
    }
  }

  /** A finished pass writes every caught record. */
  lemma {:induction false} FinishedWritesTheCaught(r: Reads, ps: seq<Pending>, key: Key)
    requires ToIndexFrom(r, ps) && Caught(r, key)
    ensures CaughtWritten(r, ps, key)
  {
    var p := Pending(ViewFor(key.prefix), key, LastTx(r.Keys(key.prefix), key));
    assert Found(r, p) && p in ps;
  }

  /** The transaction of one ordered write. */
  function LiveTx(key: Key, value: Value, position: nat): Tx
    requires key.RecordKey?
  {
    Tx(map[key := value, SequenceKey := Number(position)], {ZAdd(ViewFor(key.prefix), position, key)})
  }

  /** For instance: on a ledger with nothing left to index, one decision committed between the two reads of
      its view is all the pass finds, and the pass puts it at a second position. */
  lemma {:induction false} LiveWriteBetweenReadsIsDoubled(log: Log, key: Key, value: Value, position: nat, reserve: nat)
    requires key.RecordKey? && key.prefix.ToolCall? && Get(log, key).None? && AllIndexed(log)
    requires forall a :: InView(log, a) ==> Get(log, a.key).Some?
    requires |log| + 1 < reserve < position
    ensures var live := log + [LiveTx(key, value, position)];
            var p := Pending(DecisionView, key, |log| + 1);
            var after := AddAll(Seeded(live, reserve), [p]);
            && PassFrom(Reads(log, live, live, live), live, reserve, [p], 1, after)
            && InView(after, ZAdd(DecisionView, position, key)) && InView(after, ZAdd(DecisionView, |log| + 1, key))
            && !NoKeyDoubled(after)
  {
    var tx := LiveTx(key, value, position);
    var live, p := log + [tx], Pending(DecisionView, key, |log| + 1);
    var r := Reads(log, live, live, live);
    forall a { AddedAppend(log, tx, a); }
    forall k { LastTxAppend(log, tx, k); }
    OnlyTheLive(log, key, value, position, r, p);
    SeededFacts(live, reserve);
    AddAllFacts(Seeded(live, reserve), [p]);
    assert p in [p] && [p][..1] == [p];
    assert InView(live, ZAdd(DecisionView, position, key));
  }

  lemma {:induction false} OnlyTheLive(log: Log, key: Key, value: Value, position: nat, r: Reads, p: Pending)
    requires key.RecordKey? && key.prefix.ToolCall? && Get(log, key).None? && AllIndexed(log)
    requires forall a :: InView(log, a) ==> Get(log, a.key).Some?
    requires r == Reads(log, log + [LiveTx(key, value, position)], log + [LiveTx(key, value, position)],
                        log + [LiveTx(key, value, position)])
    requires p == Pending(DecisionView, key, |log| + 1)
    ensures ToIndexFrom(r, [p])
  {
    var tx := LiveTx(key, value, position);
    var live := log + [tx];
    forall q ensures q in [p] <==> Found(r, q) {
      LastTxAppend(log, tx, q.key);
      if q.key == key {
        assert forall s :: !InView(log, ZAdd(DecisionView, s, key));
      } else if q.key.RecordKey? && Get(live, q.key).Some? {
        var s :| InView(log, ZAdd(ViewFor(q.key.prefix), s, q.key));
        AddedAppend(log, tx, ZAdd(ViewFor(q.key.prefix), s, q.key));
      }
    }
  }

  // ----- the pass leaves a ledger the writers may start from -----

  lemma {:induction false} WriteOnceKept(log: Log, ps: seq<Pending>)
    requires WriteOnce(log)
    ensures WriteOnce(AddAll(log, ps))
  {
    if ps != [] {
      WriteOnceKept(log, ps[..|ps| - 1]);
      WriteOnceAppend(AddAll(log, ps[..|ps| - 1]), AddTx(ps[|ps| - 1]));
    }
  }

  /** Backfilling a ledger that has not allocated yet leaves it fresh, all of it below the reserve. */
  lemma {:induction false} BackfillKeepsFresh(log: Log, reserve: nat, ps: seq<Pending>, k: nat, log': Log)
    requires WriteOnce(log) && Fresh(log) && PassOf(log, reserve, ps, k, log')
    requires forall a :: InView(log, a) ==> a.score <= reserve
    ensures WriteOnce(log') && Fresh(log') && forall a :: InView(log', a) ==> a.score <= reserve
  {
    PassAdds(log, reserve, ps, k, log');
    SeededFacts(log, reserve);
    AddAllFacts(Seeded(log, reserve), ps[..k]);
    WriteOnceKept(log, ps[..k]);
  }

  lemma {:induction false} LiveKept(log: Log, ps: seq<Pending>, reserve: nat)
    requires forall p :: p in ps ==> p.tx <= reserve
    ensures Live(AddAll(log, ps), reserve) == Live(log, reserve)
    ensures |AddAll(log, ps)| >= |log| && AddAll(log, ps)[..|log|] == log
    decreases |ps|
  {
    if ps != [] {
      var init, last := ps[..|ps| - 1], ps[|ps| - 1];
      LiveKept(log, init, reserve);
      var before := AddAll(log, init);
      LiveAppend(before, AddTx(last), reserve);
      assert AddAll(log, ps)[..|log|] == before[..|log|];
    }
  }

  /** Every record of the pass is older than every allocation. */
  ghost predicate AllOlder(log: Log, reserve: nat, ps: seq<Pending>) {
    forall p, t :: p in ps && t in Live(log, reserve) ==> p.tx < t
  }

  lemma {:induction false} FinishedSeamed(log: Log, reserve: nat, ps: seq<Pending>, log': Log)
    requires Seam(log, reserve) && PassOf(log, reserve, ps, |ps|, log')
    ensures log' == AddAll(log, ps) && ToIndex(log, ps) && forall p :: p in ps ==> p.tx < reserve
  {
    assert Seeded(log, reserve) == log && ps[..|ps|] == ps;
  }

  /** On a ledger that already allocates, a finished pass keeps the seam if and only if every record
      it indexed is older than the first allocation. */
  lemma {:induction false} KeepsSeamExactly(log: Log, reserve: nat, ps: seq<Pending>, log': Log)
    requires WriteOnce(log) && Seam(log, reserve) && PassOf(log, reserve, ps, |ps|, log')
    ensures WriteOnce(log')
    ensures Seam(log', reserve) <==> AllOlder(log, reserve, ps)
  {
    FinishedSeamed(log, reserve, ps, log');
    WriteOnceKept(log, ps);
    if Seam(log', reserve) { SeamMeansOlder(log, reserve, ps); }
    if AllOlder(log, reserve, ps) { OlderKeepsSeam(log, reserve, ps, log'); }
  }

  lemma {:induction false} SeamMeansOlder(log: Log, reserve: nat, ps: seq<Pending>)
    requires Seam(AddAll(log, ps), reserve) && forall p :: p in ps ==> p.tx < reserve
    ensures AllOlder(log, reserve, ps)
  {
    AddAllFacts(log, ps);
    LiveKept(log, ps, reserve);
    forall p, t | p in ps && t in Live(log, reserve) ensures p.tx < t {
      assert InView(AddAll(log, ps), ZAdd(p.view, p.tx, p.key));
    }
  }

  lemma {:induction false} OlderKeepsSeam(log: Log, reserve: nat, ps: seq<Pending>, log': Log)
    requires WriteOnce(log) && Seam(log, reserve) && log' == AddAll(log, ps) && ToIndex(log, ps)
    requires forall p :: p in ps ==> p.tx < reserve
    requires AllOlder(log, reserve, ps)
    ensures Seam(log', reserve)
  {
    LiveKept(log, ps, reserve);
    TidyKept(log, reserve, ps);
    AddAllFacts(log, ps);
    forall a | InView(log', a) && a.score <= reserve
      ensures Historical(log', a) && forall t :: t in Live(log', reserve) ==> a.score < t
    {
      if !InView(log, a) {
        var p :| p in ps && a == ZAdd(p.view, p.tx, p.key);
        assert Found(Quiet(log), p);
      } else {
        assert Historical(log, a);
      }
    }
  }

  lemma {:induction false} TidyKept(log: Log, reserve: nat, ps: seq<Pending>)
    requires Tidy(log, reserve) && forall p :: p in ps ==> p.tx <= reserve
    ensures Tidy(AddAll(log, ps), reserve)
  {
    LiveKept(log, ps, reserve);
    AddAllFacts(log, ps);
    var live, after := Live(log, reserve), AddAll(log, ps);
    forall i | 0 <= i < |live| ensures Allocates(after[live[i] - 1], reserve + 1 + i) {
      SamePrefix(log, after, live[i]);
    }
  }

  lemma {:induction false} SamePrefix(log: Log, after: Log, t: nat)
    requires |log| <= |after| && after[..|log|] == log && 1 <= t <= |log|
    ensures after[t - 1] == log[t - 1]
  {
    assert after[..|log|][t - 1] == after[t - 1];
  }

  // ----- the pass itself -----

  /** The ledger as the offline tool holds it: nothing else writes while it runs. */
  class Store {
    var log: Log

    constructor (log: Log)
      ensures this.log == log
    {
      this.log := log;
    }

    method Zadd(view: View, score: nat, key: Key)
      modifies this
      ensures log == old(log) + [Tx(map[], {ZAdd(view, score, key)})]
    {
      log := log + [Tx(map[], {ZAdd(view, score, key)})];
    }

    /** Raises a counter that runs below the reserve up to it: never lowers one, never creates one,
        and touches nothing else. A counter read that fails is taken for no counter at all. */
    method SeedCounterAboveReserve(reserve: nat, answered: bool)
      modifies this
      ensures log == SeededIf(answered, old(log), reserve)
      ensures !answered || Counter(old(log)).None? ==> log == old(log)
      ensures answered && Counter(old(log)).Some? ==>
              && Counter(log).Some? && Counter(log).value >= reserve && Counter(log).value >= Counter(old(log)).value
              && (Counter(log).value == reserve || Counter(log).value == Counter(old(log)).value)
              && (Counter(old(log)).value >= reserve ==> log == old(log))
      ensures forall key :: key != SequenceKey ==> Get(log, key) == Get(old(log), key)
      ensures forall a :: InView(log, a) <==> InView(old(log), a)
    {
      SeededFacts(log, reserve);
      if !answered { return; }
      var got := Get(log, SequenceKey);
      if got.None? || !got.value.value.Number? || got.value.value.n >= reserve { return; }
      log := log + [Tx(map[SequenceKey := Number(reserve)], {})];
    }
  }

  /** A pass whose counter read failed is one that seeded, if and only if the counter did not need it: there is
      none, or it runs at or above the reserve. */
  lemma {:induction false} UnseededIsSeeded(log: Log, reserve: nat)
    ensures SeededIf(false, log, reserve) == Seeded(log, reserve)
            <==> Counter(log).None? || Counter(log).value >= reserve
  {
    assert |log + [Tx(map[SequenceKey := Number(reserve)], {})]| == |log| + 1;
  }

  /** For instance: the history goes in under the reserve and the counter still runs below it. */
  lemma {:induction false} FailedReadSkipsTheSeed(log: Log, reserve: nat, ps: seq<Pending>)
    requires Counter(log).Some? && Counter(log).value < reserve
    ensures Counter(AddAll(SeededIf(false, log, reserve), ps)) == Counter(log)
    ensures Counter(AddAll(SeededIf(true, log, reserve), ps)) == Some(reserve)
  {
    AddAllFacts(log, ps);
    AddAllFacts(Seeded(log, reserve), ps);
    SeededFacts(log, reserve);
  }

  datatype Outcome = BackfillRefused | DryRun | Interrupted | Finished

  ghost predicate IndexReads(s: ZScan.Server, log: Log, view: View) {
    Still(s) && s.final == MembersOf(log, view)
  }

  ghost predicate KeyReads(s: KeyServer, log: Log, prefix: Prefix) {
    && HonestKeys(s, prefix)
    && (forall r: Record :: Under(r.key, prefix) ==>
          (r in s.held <==> Get(log, r.key).Some? && r.tx == LastTx(log, r.key)))
  }

  lemma {:induction false} SeenMeansIndexed(log: Log, view: View, key: Key)
    ensures key in KeysOf(MembersOf(log, view)) <==> Indexed(log, view, key)
  {
    if s :| InView(log, ZAdd(view, s, key)) { assert Member(s as real, key) in MembersOf(log, view); }
    if key in KeysOf(MembersOf(log, view)) {
      var m :| m in MembersOf(log, view) && m.key == key;
      var a :| InView(log, a) && a.view == view && m == Member(a.score as real, a.key);
      assert a == ZAdd(view, a.score, key);
    }
  }

  /** Some row a finished scan returned makes this entry, and the finished index read does not hold its key. */
  predicate MissingRow(rows: seq<Record>, already: set<Key>, prefix: Prefix, j: int, p: Pending) {
    0 <= j < |rows| && rows[j].key !in already && p == Pending(ViewFor(prefix), rows[j].key, rows[j].tx)
  }

  /** What two finished reads of one view make out to be missing from it. */
  ghost predicate MissingBy(index: ZScan.Server, keys: KeyServer, prefix: Prefix, missing: seq<Pending>) {
    exists indexPages, keyPages ::
      && StopsAt(IndexRead(index), indexPages) && StopsAt(KeyScan(keys, prefix), keyPages)
      && forall p :: p in missing <==> exists j :: MissingRow(RowsOf(keyPages), KeysRead(indexPages), prefix, j, p)
  }

  /** Reads that honour their bounds when they are answered, of these states of the ledger. */
  ghost predicate Truthful(r: Reads, prefix: Prefix, index: ZScan.Server, keys: KeyServer) {
    IndexReads(index, r.Index(prefix), ViewFor(prefix)) && KeyReads(keys, r.Keys(prefix), prefix)
  }

  ghost predicate ViewRefuses(index: ZScan.Server, keys: KeyServer, prefix: Prefix) {
    IndexRefuses(index) || ScanRefuses(keys, prefix)
  }

  lemma {:induction false} MissingIsFound(r: Reads, prefix: Prefix, index: ZScan.Server, keys: KeyServer,
                       already: set<Key>, rows: seq<Record>, missing: seq<Pending>)
    requires Truthful(r, prefix, index, keys) && already == KeysOf(index.final)
    requires forall row :: row in rows ==> row in keys.held && Under(row.key, prefix)
    requires forall row :: row in keys.held && Under(row.key, prefix) ==> row in rows
    requires forall p :: p in missing <==> exists j :: MissingRow(rows, already, prefix, j, p)
    ensures forall p :: p in missing <==> Found(r, p) && p.key.prefix == prefix
  {
    forall p ensures p in missing <==> Found(r, p) && p.key.prefix == prefix {
      SeenMeansIndexed(r.Index(prefix), ViewFor(prefix), p.key);
      if p in missing {
        var j :| MissingRow(rows, already, prefix, j, p);
        assert rows[j] in rows;
      }
      if Found(r, p) && p.key.prefix == prefix {
        var row := Record(p.key, p.tx);
        assert Under(row.key, prefix) && row in keys.held && row in rows;
        var j :| 0 <= j < |rows| && rows[j] == row;
        assert MissingRow(rows, already, prefix, j, p);
      }
    }
  }

  /** One view's records that its index read does not hold; the two reads are two reads. A read that
      cannot be trusted refuses. */
  method MissingFrom(ghost r: Reads, prefix: Prefix, index: ZScan.Server, keys: KeyServer)
    returns (ok: bool, missing: seq<Pending>)
    requires AnswersFrom(index) && FromHeld(keys)
    ensures ok <==> !ViewRefuses(index, keys, prefix)
    ensures ok ==> MissingBy(index, keys, prefix, missing)
    ensures ok && Truthful(r, prefix, index, keys) ==>
              Distinct(missing) && forall p :: p in missing <==> Found(r, p) && p.key.prefix == prefix
  {
    missing := [];
    var seen, indexPages := IndexedKeys(index);
    if seen.IndexRefused? { return false, []; }
    var scanned, keyPages := ScanAll(prefix, keys);
    if scanned.ScanRefused? { return false, []; }
    var already, rows := seen.keys, scanned.rows;
    for i := 0 to |rows|
      invariant forall p :: p in missing <==> exists j :: j < i && MissingRow(rows, already, prefix, j, p)
      invariant Rising(keys, rows) ==> Distinct(missing)
    {
      var p := Pending(ViewFor(prefix), rows[i].key, rows[i].tx);
      if rows[i].key !in already {
        if Rising(keys, rows) {
          forall j | 0 <= j < i ensures rows[j].key != rows[i].key { assert keys.below(rows[j].key, rows[i].key); }
          assert p !in missing;
        }
        assert MissingRow(rows, already, prefix, i, p);
        missing := missing + [p];
      }
    }
    ok := true;
    if Truthful(r, prefix, index, keys) { MissingIsFound(r, prefix, index, keys, already, rows, missing); }
  }

  datatype Servers = Servers(decisionIndex: ZScan.Server, decisionKeys: KeyServer,
                             intentIndex: ZScan.Server, intentKeys: KeyServer)
  {
    /** Rows come from what is held, whatever was asked for. */
    ghost predicate Answering() {
      && AnswersFrom(decisionIndex) && FromHeld(decisionKeys)
      && AnswersFrom(intentIndex) && FromHeld(intentKeys)
    }

    /** One of the pass's four reads cannot be trusted: a call of it failed, or a row lay outside its bound. */
    ghost predicate Refuse() {
      ViewRefuses(decisionIndex, decisionKeys, ToolCall) || ViewRefuses(intentIndex, intentKeys, ToolCallIntent)
    }

    /** Answered reads honour their bounds and are of these states. */
    ghost predicate Serve(r: Reads) {
      && Truthful(r, ToolCall, decisionIndex, decisionKeys)
      && Truthful(r, ToolCallIntent, intentIndex, intentKeys)
    }
  }

  /** Where answered reads honour their bounds, the pass mistrusts a read only because a call of it failed. */
  lemma {:induction false} OnlyFailuresRefuse(r: Reads, servers: Servers)
    requires servers.Serve(r)
    ensures servers.Refuse() <==>
              || Unanswered(IndexRead(servers.decisionIndex)) || Unanswered(KeyScan(servers.decisionKeys, ToolCall))
              || Unanswered(IndexRead(servers.intentIndex)) || Unanswered(KeyScan(servers.intentKeys, ToolCallIntent))
  {
    HonestIndexRefusal(servers.decisionIndex);
    HonestScanRefusal(servers.decisionKeys, ToolCall);
    HonestIndexRefusal(servers.intentIndex);
    HonestScanRefusal(servers.intentKeys, ToolCallIntent);
  }

  /** Everything both views were found to lack, in the ledger's own commit order. */
  method FindPending(ghost r: Reads, servers: Servers) returns (ok: bool, pending: seq<Pending>)
    requires servers.Answering()
    ensures ok <==> !servers.Refuse()
    ensures ok && servers.Serve(r) ==> ToIndexFrom(r, pending)
  {
    var okD, missingD := MissingFrom(r, ToolCall, servers.decisionIndex, servers.decisionKeys);
    if !okD { return false, []; }
    var okI, missingI := MissingFrom(r, ToolCallIntent, servers.intentIndex, servers.intentKeys);
    if !okI { return false, []; }
    ok := true;
    pending := SortByTx(missingD + missingI);
    if servers.Serve(r) {
      forall p ensures p in missingD + missingI <==> Found(r, p) {}
      assert Distinct(missingD + missingI);
      SortByTxSorts(missingD + missingI);
    }
  }

  /** The ledger has another reserve bound into it. */
  predicate Disagrees(log: Log, configured: nat) {
    Get(log, ReserveKey).Some? && Get(log, ReserveKey).value.value != Number(configured)
  }

  /** One backfill pass; `counterAnswered` says its read of the counter succeeds, and `budget` zAdds succeed before
      the connection is lost. What it read may be older than the ledger it writes to. */
  method Backfill(store: Store, ghost r: Reads, configured: nat, dryRun: bool, counterAnswered: bool, budget: nat,
                  servers: Servers)
    returns (outcome: Outcome, ghost ps: seq<Pending>)
    requires servers.Answering()
    modifies store
    // It refuses for a reserve that disagrees, for a read that cannot be trusted and for a record at or above
    // the reserve, and for nothing else.
    ensures outcome.BackfillRefused? <==>
              Disagrees(old(store.log), configured) || servers.Refuse() || exists p :: p in ps && p.tx >= configured
    ensures outcome.DryRun? <==> dryRun && !outcome.BackfillRefused?
    ensures outcome.BackfillRefused? || outcome.DryRun? ==> store.log == old(store.log)
    ensures outcome.Finished? ==> store.log == AddAll(SeededIf(counterAnswered, old(store.log), configured), ps)
    ensures outcome.Interrupted? <==> !outcome.BackfillRefused? && !outcome.DryRun? && budget < |ps|
    ensures outcome.Interrupted? ==> store.log == AddAll(SeededIf(counterAnswered, old(store.log), configured), ps[..budget])
    // Where the reads are true, what it wants to add is what the ledger's states lack.
    ensures servers.Serve(r) && !Disagrees(old(store.log), configured) && !servers.Refuse() ==> ToIndexFrom(r, ps)
    ensures servers.Serve(r) ==>
              (outcome.BackfillRefused? <==>
                Disagrees(old(store.log), configured) || servers.Refuse() || exists p :: Found(r, p) && p.tx >= configured)
    ensures servers.Serve(r) && counterAnswered && outcome.Finished? ==> PassFrom(r, old(store.log), configured, ps, |ps|, store.log)
    ensures servers.Serve(r) && counterAnswered && outcome.Interrupted? ==> PassFrom(r, old(store.log), configured, ps, budget, store.log)
  {
    var bound := Get(store.log, ReserveKey);
    if bound.Some? && bound.value.value != Number(configured) { return BackfillRefused, []; }
    var ok, pending := FindPending(r, servers);
    if !ok { return BackfillRefused, []; }
    ps := pending;
    if exists i :: 0 <= i < |pending| && pending[i].tx >= configured {
      var i :| 0 <= i < |pending| && pending[i].tx >= configured;
      assert pending[i] in pending;
      return BackfillRefused, ps;
    }
    forall p | p in pending ensures p.tx < configured {
      var i :| 0 <= i < |pending| && pending[i] == p;
    }
    assert pending[..|pending|] == pending;
    if dryRun { return DryRun, ps; }
    store.SeedCounterAboveReserve(configured, counterAnswered);
    for k := 0 to |pending|
      invariant k <= budget
      invariant store.log == AddAll(SeededIf(counterAnswered, old(store.log), configured), pending[..k])
    {
      if k == budget { return Interrupted, ps; }
      store.Zadd(pending[k].view, pending[k].tx, pending[k].key);
      assert pending[..k + 1][..k] == pending[..k];
    }
    outcome := Finished;
  }
}
