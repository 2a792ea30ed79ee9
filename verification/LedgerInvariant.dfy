/** What every reachable ledger looks like, and that one granted ExecAll keeps it so. */
module LedgerInvariant {
  import opened Ledger

  ghost predicate HasLive(tx: Tx, r: nat) {
    exists a :: a in tx.adds && a.score > r
  }

  /** The transactions that indexed a position above `r`, oldest first. */
  ghost function Live(log: Log, r: nat): (live: seq<nat>)
    ensures forall i :: 0 <= i < |live| ==> 1 <= live[i] <= |log|
    ensures forall i, j :: 0 <= i < j < |live| ==> live[i] < live[j]
    ensures forall t :: 1 <= t <= |log| && HasLive(log[t - 1], r) ==> t in live
    ensures forall t :: t in live ==> 1 <= t <= |log| && HasLive(log[t - 1], r)
  {
    if log == [] then []
    else
      var rest := Live(log[..|log| - 1], r);
      assert forall t :: 1 <= t <= |log| - 1 && HasLive(log[t - 1], r) ==> t in rest by {
        forall t | 1 <= t <= |log| - 1 && HasLive(log[t - 1], r) ensures t in rest {
          assert log[..|log| - 1][t - 1] == log[t - 1];
        }
      }
      if HasLive(log[|log| - 1], r) then rest + [|log|] else rest
  }

  /** One allocation: the record, the counter at `p` and the index entry at `p`, together. */
  ghost predicate Allocates(tx: Tx, p: nat) {
    exists a :: tx.adds == {a} && a.score == p && a.key.RecordKey? && a.key in tx.sets
                && SequenceKey in tx.sets && tx.sets[SequenceKey] == Number(p)
  }

  ghost predicate Tidy(log: Log, r: nat) {
    var live := Live(log, r);
    && Get(log, SequenceKey).Some?
    && Get(log, SequenceKey).value.value == Number(r + |live|)
    && forall i :: 0 <= i < |live| ==> Allocates(log[live[i] - 1], r + 1 + i)
  }

  /** Backfilled history: a record indexed at the transaction that wrote it. */
  ghost predicate Historical(log: Log, a: ZAdd) {
    a.key.RecordKey? && 1 <= a.score == LastTx(log, a.key)
  }

  /** Positions at or below `r` are history, all of it older than the first allocation. */
  ghost predicate HistoryBelow(log: Log, r: nat) {
    forall a :: InView(log, a) && a.score <= r ==>
      Historical(log, a) && forall t :: t in Live(log, r) ==> a.score < t
  }

  /** A ledger that has allocated nothing. */
  ghost predicate Fresh(log: Log) {
    && Get(log, SequenceKey).None?
    && (forall a :: InView(log, a) ==> Historical(log, a))
  }

  ghost predicate Seam(log: Log, r: nat) {
    Tidy(log, r) && HistoryBelow(log, r)
  }

  /** `reserves` are the reserves the processes are configured with. */
  ghost predicate LedgerOk(log: Log, reserves: seq<nat>) {
    && WriteOnce(log)
    && match Get(log, ReserveKey)
       case Some(e) => e.value.Number? && Seam(log, e.value.n)
       case None =>
         (&& Fresh(log)
          && forall a, i :: InView(log, a) && 0 <= i < |reserves| ==> a.score <= reserves[i])
         || (forall i :: 0 <= i < |reserves| ==> Seam(log, reserves[i]))
  }

  lemma {:induction false} LiveAppend(log: Log, tx: Tx, r: nat)
    ensures Live(log + [tx], r) == if HasLive(tx, r) then Live(log, r) + [|log| + 1] else Live(log, r)
  {
    assert (log + [tx])[..|log|] == log;
  }

  lemma {:induction false} HistoricalStays(log: Log, tx: Tx, a: ZAdd)
    requires WriteOnce(log + [tx]) && Historical(log, a)
    ensures Historical(log + [tx], a)
  {
    OnceStays(log, tx, a.key);
  }

  /** A transaction that allocates the next position above the seam keeps it. */
  lemma {:induction false} SeamStep(log: Log, tx: Tx, r: nat)
    requires Seam(log, r) && WriteOnce(log + [tx])
    requires Allocates(tx, r + 1 + |Live(log, r)|)
    ensures Seam(log + [tx], r)
  {
    SeamKeepsHistory(log, tx, r);
    LiveAppend(log, tx, r);
    LastTxAppend(log, tx, SequenceKey);
    var live, live' := Live(log, r), Live(log + [tx], r);
    forall i | 0 <= i < |live'| ensures Allocates((log + [tx])[live'[i] - 1], r + 1 + i) {
      if i < |live| { assert (log + [tx])[live[i] - 1] == log[live[i] - 1]; }
    }
  }

  lemma {:induction false} SeamKeepsHistory(log: Log, tx: Tx, r: nat)
    requires HistoryBelow(log, r) && WriteOnce(log + [tx])
    requires forall a :: a in tx.adds ==> a.score > r
    ensures HistoryBelow(log + [tx], r)
  {
    LiveAppend(log, tx, r);
    forall a | InView(log + [tx], a) && a.score <= r
      ensures Historical(log + [tx], a) && forall t :: t in Live(log + [tx], r) ==> a.score < t
    {
      AddedAppend(log, tx, a);
      HistoricalStays(log, tx, a);
    }
  }

  /** The first allocation of a fresh ledger puts the seam at the reserve it binds. */
  lemma {:induction false} FirstAllocation(log: Log, tx: Tx, r: nat)
    requires Fresh(log) && WriteOnce(log + [tx])
    requires forall a :: InView(log, a) ==> a.score <= r
    requires Allocates(tx, r + 1)
    ensures Seam(log + [tx], r)
  {
    if Live(log, r) != [] {
      var t := Live(log, r)[0];
      assert t in Live(log, r);
      var a :| a in log[t - 1].adds && a.score > r;
      assert Added(log, a, t);
    }
    LiveAppend(log, tx, r);
    LastTxAppend(log, tx, SequenceKey);
    SeamKeepsHistory(log, tx, r);
  }

  /** A write that neither allocates nor touches the counter keeps the seam. */
  lemma {:induction false} SeamUnrelated(log: Log, tx: Tx, r: nat)
    requires Seam(log, r) && WriteOnce(log + [tx])
    requires tx.adds == {} && SequenceKey !in tx.sets
    ensures Seam(log + [tx], r)
  {
    SeamKeepsHistory(log, tx, r);
    LiveAppend(log, tx, r);
    LastTxAppend(log, tx, SequenceKey);
    var live := Live(log, r);
    forall i | 0 <= i < |live| ensures Allocates((log + [tx])[live[i] - 1], r + 1 + i) {
      assert (log + [tx])[live[i] - 1] == log[live[i] - 1];
    }
  }

  lemma {:induction false} UnrelatedKeepsLedger(log: Log, name: string, value: Value, reserves: seq<nat>)
    requires LedgerOk(log, reserves)
    ensures LedgerOk(log + [Tx(map[PlainKey(name) := value], {})], reserves)
  {
    var tx := Tx(map[PlainKey(name) := value], {});
    WriteOnceAppend(log, tx);
    LastTxAppend(log, tx, ReserveKey);
    LastTxAppend(log, tx, SequenceKey);
    match Get(log, ReserveKey)
    case Some(e) => SeamUnrelated(log, tx, e.value.n);
    case None =>
      if forall i :: 0 <= i < |reserves| ==> Seam(log, reserves[i]) {
        forall i | 0 <= i < |reserves| ensures Seam(log + [tx], reserves[i]) {
          SeamUnrelated(log, tx, reserves[i]);
        }
      } else {
        forall a | InView(log + [tx], a) ensures InView(log, a) && Historical(log + [tx], a) {
          AddedAppend(log, tx, a);
          HistoricalStays(log, tx, a);
        }
      }
  }
}
