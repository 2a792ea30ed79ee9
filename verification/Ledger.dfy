/** The append-only ledger as its clients see it: a log of atomic transactions,
    point reads taken from a prefix of that log, and ExecAll preconditions that
    are judged against the whole log. Transaction ids start at 1. */
module Ledger {
  import opened Wrappers

  datatype View = DecisionView | IntentView

  /** The two prefixes the ordered route's callers write under. */
  datatype Prefix = ToolCall | ToolCallIntent

  datatype Key =
    | SequenceKey
    | ReserveKey
    | RecordKey(prefix: Prefix, name: string)
    | PlainKey(name: string)

  /** An erasure record carries a timestamp and a signature, so two for one call differ in `stamp`. */
  datatype Value = Bytes(data: string) | Number(n: nat) | ErasureRecord(callId: string, stamp: nat)

  /** One sorted-set entry: the record `key` at position `score` in `view`. */
  datatype ZAdd = ZAdd(view: View, score: nat, key: Key)

  /** Everything one transaction writes; it lands as a whole or not at all. */
  datatype Tx = Tx(sets: map<Key, Value>, adds: set<ZAdd>)

  type Log = seq<Tx>

  datatype Entry = Entry(value: Value, tx: nat)

  predicate Wrote(log: Log, key: Key, t: int) {
    1 <= t <= |log| && key in log[t - 1].sets
  }

  /** The last transaction that wrote `key`, or 0 when none did. */
  function LastTx(log: Log, key: Key): (t: nat)
    ensures t <= |log|
    ensures t > 0 ==> Wrote(log, key, t)
    ensures forall u :: t < u <= |log| ==> !Wrote(log, key, u)
  {
    if log == [] then 0
    else if key in log[|log| - 1].sets then |log|
    else
      var t := LastTx(log[..|log| - 1], key);
      assert forall u :: t < u < |log| && Wrote(log, key, u) ==> Wrote(log[..|log| - 1], key, u);
      t
  }

  /** Some earlier state of the ledger, or its present one. */
  function Snapshot(log: Log, n: nat): Log { if n <= |log| then log[..n] else log }

  function Get(log: Log, key: Key): Option<Entry> {
    var t := LastTx(log, key);
    if t == 0 then None else Some(Entry(log[t - 1].sets[key], t))
  }

  /** `add` is in its view: some transaction put it there. */
  predicate InView(log: Log, add: ZAdd) {
    exists t :: 1 <= t <= |log| && Added(log, add, t)
  }

  predicate Added(log: Log, add: ZAdd, t: int) {
    1 <= t <= |log| && add in log[t - 1].adds
  }

  datatype Precondition =
    | KeyMustNotExist(key: Key)
    | KeyNotModifiedAfterTx(key: Key, tx: nat)

  predicate Holds(log: Log, p: Precondition) {
    match p
    case KeyMustNotExist(key) => LastTx(log, key) == 0
    case KeyNotModifiedAfterTx(key, tx) => LastTx(log, key) <= tx
  }

  predicate AllHold(log: Log, ps: seq<Precondition>) {
    forall i :: 0 <= i < |ps| ==> Holds(log, ps[i])
  }

  /** Record keys and the bound reserve are written once; the counter is not. */
  predicate Once(key: Key) {
    key.RecordKey? || key.ReserveKey?
  }

  ghost predicate WriteOnce(log: Log) {
    forall key, t, u :: Once(key) && Wrote(log, key, t) && Wrote(log, key, u) ==> t == u
  }

  lemma {:induction false} WroteAppend(log: Log, tx: Tx, key: Key, t: int)
    ensures Wrote(log + [tx], key, t) <==> Wrote(log, key, t) || (t == |log| + 1 && key in tx.sets)
  {
  }

  lemma {:induction false} GetStep(log: Log, key: Key)
    requires log != []
    ensures var last, init := log[|log| - 1], log[..|log| - 1];
            if key in last.sets then LastTx(log, key) == |log| && Get(log, key) == Some(Entry(last.sets[key], |log|))
            else LastTx(log, key) == LastTx(init, key) && Get(log, key) == Get(init, key)
  {
    var init := log[..|log| - 1];
    var t := LastTx(init, key);
    assert t > 0 ==> init[t - 1] == log[t - 1];
  }

  lemma {:induction false} LastTxAppend(log: Log, tx: Tx, key: Key)
    ensures LastTx(log + [tx], key) == if key in tx.sets then |log| + 1 else LastTx(log, key)
    ensures key !in tx.sets ==> Get(log + [tx], key) == Get(log, key)
    ensures key in tx.sets ==> Get(log + [tx], key) == Some(Entry(tx.sets[key], |log| + 1))
  {
    var log' := log + [tx];
    assert log'[..|log'| - 1] == log;
    GetStep(log', key);
  }

  /** A write-once key keeps the entry any earlier read could have answered. */
  lemma {:induction false} GetFromSnapshot(log: Log, n: nat, key: Key)
    requires n <= |log| && WriteOnce(log) && Once(key)
    requires Get(log[..n], key).Some?
    ensures Get(log, key) == Get(log[..n], key)
  {
    var t := LastTx(log[..n], key);
    assert Wrote(log, key, t) && Wrote(log, key, LastTx(log, key));
  }

  /** What is absent now was absent before. */
  lemma {:induction false} NotYet(a: Log, b: Log, key: Key)
    requires a <= b && Get(b, key).None?
    ensures Get(a, key).None?
  {
    var t := LastTx(a, key);
    assert b[..|a|] == a;
    assert Wrote(a, key, t) ==> Wrote(b, key, t);
  }

  lemma {:induction false} WriteOnceAppend(log: Log, tx: Tx)
    requires WriteOnce(log)
    requires forall key :: Once(key) && key in tx.sets ==> LastTx(log, key) == 0
    ensures WriteOnce(log + [tx])
  {
    forall key, t, u | Once(key) && Wrote(log + [tx], key, t) && Wrote(log + [tx], key, u)
      ensures t == u
    {
      WroteAppend(log, tx, key, t);
      WroteAppend(log, tx, key, u);
    }
  }

  /** Appending never disturbs an existing write-once entry. */
  lemma {:induction false} OnceStays(log: Log, tx: Tx, key: Key)
    requires WriteOnce(log + [tx]) && Once(key) && Get(log, key).Some?
    ensures Get(log + [tx], key) == Get(log, key)
  {
    var t := LastTx(log, key);
    WroteAppend(log, tx, key, t);
    WroteAppend(log, tx, key, |log| + 1);
    LastTxAppend(log, tx, key);
  }

  lemma {:induction false} AddedAppend(log: Log, tx: Tx, add: ZAdd)
    ensures InView(log + [tx], add) <==> InView(log, add) || add in tx.adds
  {
    if InView(log, add) {
      var t :| 1 <= t <= |log| && Added(log, add, t);
      assert Added(log + [tx], add, t);
    }
    if add in tx.adds {
      assert Added(log + [tx], add, |log| + 1);
    }
    if InView(log + [tx], add) {
      var t :| 1 <= t <= |log + [tx]| && Added(log + [tx], add, t);
      assert t <= |log| ==> Added(log, add, t);
    }
  }

  lemma {:induction false} InViewFromSnapshot(log: Log, n: nat, add: ZAdd)
    requires n <= |log| && InView(log[..n], add)
    ensures InView(log, add)
  {
    var t :| 1 <= t <= n && Added(log[..n], add, t);
    assert Added(log, add, t);
  }
}
