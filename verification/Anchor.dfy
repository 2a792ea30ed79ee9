/** The persisted trust anchor: one state per database, held in memory, kept in a
    file, seeded from a checked head and never moved backwards. */
module Anchor {
  import opened Wrappers

  /** A ledger state as reported or stored; what a signature covers is all of it. */
  datatype State = State(txId: nat, txHash: string, signature: string)

  datatype StateFile = Missing | Unreadable | States(byDb: map<string, State>)

  /** How writing the file back can end: done, not opened, or truncated and then failed. */
  datatype WriteEnd = Written | NotOpened | Truncated

  /** What the service holds. `dbname` is the database named by the last `init`. */
  datatype Held = Held(dbname: string, cache: Option<State>, file: StateFile)

  /** The configured key: absent, or a check it performs. */
  datatype Key = NoKey | Checks(verifies: State -> bool)

  datatype Op =
    | Init(dbname: string, head: Option<State>)  // head: what CurrentState answers, if it does
    | Get(head: Option<State>)
    | Set(state: State, end: WriteEnd)

  predicate Signed(key: Key, s: State) { key.Checks? && key.verifies(s) }

  /** A state this service may anchor at: an empty ledger's, or one the key signed. */
  predicate Checked(key: Key, s: State) { s.txId == 0 || Signed(key, s) }

  function Stored(file: StateFile, dbname: string): Option<State> {
    if file.States? && dbname in file.byDb then Some(file.byDb[dbname]) else None
  }

  function Seed(key: Key, head: Option<State>): Option<State> {
    if head.Some? && Checked(key, head.value) then head else None
  }

  /** The server answered, with an empty ledger's state or with one the key signed. */
  predicate Seedable(key: Key, head: Option<State>) { head.Some? && (head.value.txId == 0 || Signed(key, head.value)) }

  predicate Accepts(key: Key, h: Held, s: State) {
    Checked(key, s) && (h.cache.Some? ==> s.txId >= h.cache.value.txId)
  }

  function WriteBack(h: Held, s: State, end: WriteEnd): StateFile {
    match end
    case Written => States((if h.file.States? then h.file.byDb else map[])[h.dbname := s])
    case NotOpened => h.file
    case Truncated => Unreadable
  }

  function Apply(key: Key, h: Held, op: Op): Held {
    match op
    case Init(dbname, head) =>
      Held(dbname, if Stored(h.file, dbname).Some? then Stored(h.file, dbname) else Seed(key, head), h.file)
    case Get(head) => if h.cache.Some? then h else h.(cache := Seed(key, head))
    case Set(s, end) =>
      if Accepts(key, h, s) then h.(cache := Some(s), file := WriteBack(h, s, end)) else h
  }

  function Run(key: Key, h: Held, ops: seq<Op>): Held
    decreases |ops|
  {
    if ops == [] then h else Run(key, Apply(key, h, ops[0]), ops[1..])
  }

  class RootService {
    const key: Key
    var dbname: string
    var cache: Option<State>
    var file: StateFile

    ghost function Now(): (h: Held)
      reads this
    {
      Held.Held(dbname, cache, file)
    }

    constructor (key: Key, file: StateFile)
      ensures this.key == key && Now() == Held.Held("", None, file)
    {
      this.key := key;
      this.dbname := "";
      this.cache := None;
      this.file := file;
    }

    /** A state read from the server, or nothing when the read or its check raises. */
    method Head(reported: Option<State>) returns (state: Option<State>)
      ensures state == Seed(key, reported)
    {
      state := None;
      if reported.Some? {
        if reported.value.txId == 0 {
          state := reported;
        } else if key.Checks? {
          if key.verifies(reported.value) {
            state := reported;
          }
        }
      }
    }

    /** Raises (`ok` false) exactly when no anchor could be seeded. */
    method Init(dbname: string, reported: Option<State>) returns (ok: bool)
      modifies this
      ensures Now() == Apply(key, old(Now()), Op.Init(dbname, reported))
      ensures ok <==> cache.Some?
      // The file's state for this database, else the reported one when it is an empty ledger's or signed, else none.
      ensures file == old(file) && (ok <==> Stored(file, dbname).Some? || Seedable(key, reported))
      ensures Stored(file, dbname).Some? ==> cache == Stored(file, dbname)
      ensures Stored(file, dbname).None? && ok ==> cache == reported
    {
      this.dbname := dbname;
      cache := None;
      if file.States? && dbname in file.byDb {
        cache := Some(file.byDb[dbname]);
      }
      if cache.None? {
        cache := Head(reported);
      }
      ok := cache.Some?;
    }

    method Get(reported: Option<State>) returns (state: Option<State>)
      modifies this
      ensures Now() == Apply(key, old(Now()), Op.Get(reported))
      ensures state == cache
      ensures old(cache).Some? ==> cache == old(cache)
      ensures old(cache).None? ==> cache == if Seedable(key, reported) then reported else None
    {
      if cache.None? {
        cache := Head(reported);
      }
      state := cache;
    }

    /** `ok` false covers a refusal and a failed write of the file; only the first leaves everything as it was. */
    method Set(state: State, end: WriteEnd) returns (ok: bool)
      modifies this
      ensures Now() == Apply(key, old(Now()), Op.Set(state, end))
      ensures (state.txId > 0 && !Signed(key, state)) || (old(cache).Some? && state.txId < old(cache).value.txId)
              ==> !ok && cache == old(cache) && file == old(file) && dbname == old(dbname)
      ensures ok <==> end.Written? && (state.txId == 0 || Signed(key, state))
                      && (old(cache).Some? ==> state.txId >= old(cache).value.txId)
      ensures cache == if (state.txId == 0 || Signed(key, state)) && (old(cache).Some? ==> state.txId >= old(cache).value.txId)
                       then Some(state) else old(cache)
      ensures ok ==> Stored(file, dbname) == cache
      ensures ok && old(file).States? ==> forall db :: db != dbname ==> Stored(file, db) == Stored(old(file), db)
    {
      ok := false;
      var checked := Head(Some(state));
      if checked.None? { return; }
      if cache.Some? && state.txId < cache.value.txId { return; }
      cache := Some(state);
      var states := map[];
      if file.States? { states := file.byDb; }
      states := states[dbname := state];
      match end
      case Written => file := States(states); ok := true;
      case NotOpened =>
      case Truncated => file := Unreadable;
    }
  }

  // ----- properties over every sequence of calls -----

  predicate NoInit(ops: seq<Op>) { forall k :: 0 <= k < |ops| ==> !ops[k].Init? }

  /** Between two `init`s a held anchor stays held and its transaction never
      decreases, whatever is read, offered, refused or fails to be written. */
  lemma {:induction false} NeverBackwards(key: Key, h: Held, ops: seq<Op>)
    requires NoInit(ops) && h.cache.Some?
    ensures Run(key, h, ops).cache.Some? && Run(key, h, ops).cache.value.txId >= h.cache.value.txId
    decreases |ops|
  {
    if ops != [] { NeverBackwards(key, Apply(key, h, ops[0]), ops[1..]); }
  }

  /** The states the file held for some database at the start. */
  ghost predicate OnFile(file: StateFile, s: State) { exists db :: Stored(file, db) == Some(s) }

  ghost predicate Sourced(key: Key, origin: StateFile, s: State) { Checked(key, s) || OnFile(origin, s) }

  ghost predicate AllSourced(key: Key, origin: StateFile, h: Held) {
    && (h.cache.Some? ==> Sourced(key, origin, h.cache.value))
    && (forall db :: Stored(h.file, db).Some? ==> Sourced(key, origin, Stored(h.file, db).value))
  }

  /** Over any sequence of calls from a fresh process, the anchor is one the file
      held to begin with, one whose signature was checked, or the empty ledger's;
      and so is everything the file then holds. */
  lemma {:induction false} AnchorsHaveASource(key: Key, origin: StateFile, h: Held, ops: seq<Op>)
    requires AllSourced(key, origin, h)
    ensures AllSourced(key, origin, Run(key, h, ops))
    decreases |ops|
  {
    if ops != [] {
      var next := Apply(key, h, ops[0]);
      forall db | Stored(next.file, db).Some? ensures Sourced(key, origin, Stored(next.file, db).value) {
        if Stored(h.file, db).Some? {}
      }
      AnchorsHaveASource(key, origin, next, ops[1..]);
    }
  }

  lemma {:induction false} FreshProcessIsSourced(key: Key, file: StateFile, ops: seq<Op>)
    ensures var end := Run(key, Held("", None, file), ops);
            end.cache.Some? ==>
              end.cache.value.txId == 0 || Signed(key, end.cache.value) || OnFile(file, end.cache.value)
  {
    forall db | Stored(file, db).Some? ensures Sourced(key, file, Stored(file, db).value) {}
    AnchorsHaveASource(key, file, Held("", None, file), ops);
  }

  /** One database throughout, and every write of the file completes. */
  predicate Durable(dbname: string, ops: seq<Op>) {
    forall k :: 0 <= k < |ops| ==>
      (ops[k].Init? ==> ops[k].dbname == dbname) && (ops[k].Set? ==> ops[k].end.Written?)
  }

  /** Once an accepted state has been written, restarts do not lose it: through
      any further calls, `init`s among them, the anchor never decreases. */
  lemma {:induction false} NeverBackwardsAcrossRestarts(key: Key, h: Held, ops: seq<Op>)
    requires h.cache.Some? && Stored(h.file, h.dbname) == h.cache && Durable(h.dbname, ops)
    ensures var end := Run(key, h, ops);
            && end.cache.Some? && end.cache.value.txId >= h.cache.value.txId
            && Stored(end.file, h.dbname) == end.cache
    decreases |ops|
  {
    if ops != [] { NeverBackwardsAcrossRestarts(key, Apply(key, h, ops[0]), ops[1..]); }
  }

  /** Exactly when a restart cannot lower an anchor: whatever head the server then reports, no lower
      anchor is held if and only if the file holds one for this database at or above it (or the anchor
      held is the empty ledger's). */
  lemma {:induction false} RestartKeepsExactly(key: Key, h: Held)
    requires h.cache.Some?
    ensures (forall head :: var after := Apply(key, h, Init(h.dbname, head)).cache;
                            after.Some? ==> after.value.txId >= h.cache.value.txId)
            <==> h.cache.value.txId == 0
                 || (Stored(h.file, h.dbname).Some? && Stored(h.file, h.dbname).value.txId >= h.cache.value.txId)
  {
    var empty := Some(State(0, "", ""));
    assert Stored(h.file, h.dbname).None? ==> Apply(key, h, Init(h.dbname, empty)).cache == empty;
    assert Stored(h.file, h.dbname).Some? ==> Apply(key, h, Init(h.dbname, None)).cache == Stored(h.file, h.dbname);
  }

  /** Two ways the file comes not to hold it. An anchor seeded from the head is never
      written, and a write that truncates the file loses what it held: after either,
      a restart seeds again from whatever checked head the server then reports. */
  lemma {:induction false} RestartCanGoBackwards(key: Key, low: State, high: State)
    requires Signed(key, low) && Signed(key, high) && low.txId < high.txId
    ensures var seeded := Run(key, Held("", None, Missing), [Init("db", Some(high))]);
            && seeded.cache == Some(high)
            && Apply(key, seeded, Init("db", Some(low))).cache == Some(low)
    ensures var lost := Run(key, Held("db", Some(low), States(map["db" := low])), [Set(high, Truncated)]);
            && lost.cache == Some(high)
            && Apply(key, lost, Init("db", Some(low))).cache == Some(low)
  {
    assert Run(key, Held("", None, Missing), [Init("db", Some(high))])
        == Run(key, Apply(key, Held("", None, Missing), Init("db", Some(high))), []);
    var h := Held("db", Some(low), States(map["db" := low]));
    assert Run(key, h, [Set(high, Truncated)]) == Run(key, Apply(key, h, Set(high, Truncated)), []);
  }
}
