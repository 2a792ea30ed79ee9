/** Erasure of one call's stored arguments, as a step system: DELETE requests,
    content writes and audit reads interleave over one ledger and one row of the
    content store. The tombstone goes to the ledger before the row is deleted,
    and every remote step may fail, lag or lose its reply. */
module Erasure {
  import opened Wrappers
  import opened Ledger
  import opened RemoteWrite

  /** The verifier's answer to the tombstone write. */
  datatype Reply =
    | Verified(tx: nat)
    | Unproved(tx: nat)   // committed: true, verified: false
    | NotCommitted        // committed: false
    | NotEstablished      // committed: null

  datatype Outcome = Erased | NothingToErase | Refused

  datatype DeletePc =
    | FindRow
    | VerifierClient
    | OnWire
    | ReadAfterProof      // the proof failed, so the commit is known to precede it
    | ReadAfterError      // nothing is known, so the bytes are compared
    | Answered(reply: Reply)
    | DeleteRow
    | Finished(outcome: Outcome)

  /** `wire`: what became of the tombstone write. */
  datatype Delete = Delete(stamp: nat, pc: DeletePc, wire: Wire)

  datatype WriterPc = CheckTombstone | StoreRow | Stored | Conflict409

  datatype Writer = Writer(payload: string, pc: WriterPc)

  datatype PayloadState = Present | Unavailable | ErasedState | Lost | ErasureConflict

  datatype AuditPc =
    | ReadTombstones
    | ReadRow(seen: bool)
    | Shown(seen: bool, state: PayloadState, payload: Option<string>)

  /** `at` is how much of the ledger the tombstone read covered. */
  datatype Audit = Audit(unavailable: bool, at: nat, pc: AuditPc)

  datatype World = World(log: Log, row: Option<string>, deletes: seq<Delete>, writers: seq<Writer>, audits: seq<Audit>)

  datatype Choice = Proceed | Fail | ProofFailed | GiveUp | Read(n: nat)

  datatype Act =
    | StartDelete(stamp: nat)
    | StartWrite(payload: string)
    | StartAudit(unavailable: bool)
    | DeleteStep(i: nat, choice: Choice)
    | WriteStep(i: nat, choice: Choice)
    | AuditStep(i: nat, choice: Choice)
    | Arrive(i: nat)                  // the ledger takes up the i-th DELETE's tombstone
    | Drop(i: nat)
    | Append(key: Key, value: Value)  // any other client's write, under this key or another

  function TombstoneKey(id: string): Key { PlainKey("content_erasure:" + id) }

  predicate IsTombstone(id: string, value: Value) { value.ErasureRecord? && value.callId == id }

  predicate TombstoneAt(id: string, log: Log, t: int) {
    Wrote(log, TombstoneKey(id), t) && IsTombstone(id, log[t - 1].sets[TombstoneKey(id)])
  }

  /** The ledger holds an erasure record for this call. */
  ghost predicate HasTombstone(id: string, log: Log) { exists t :: TombstoneAt(id, log, t) }

  /** The key's latest entry in some earlier state of the ledger. */
  function Seen(id: string, log: Log, n: nat): Option<Entry> { Get(Snapshot(log, n), TombstoneKey(id)) }

  /** The control plane's own read: an erasure record under the key, at `tx` when one is named. */
  predicate Confirmed(id: string, seen: Option<Entry>, tx: Option<nat>) {
    seen.Some? && IsTombstone(id, seen.value.value) && (tx.Some? ==> seen.value.tx == tx.value)
  }

  // ----- DELETE /content/{call_id} -----

  function AfterProof(id: string, log: Log, choice: Choice): Reply {
    if !choice.Read? then NotEstablished
    else match Seen(id, log, choice.n)
    case None => NotEstablished
    case Some(e) => Unproved(e.tx)
  }

  function AfterError(id: string, log: Log, d: Delete, choice: Choice): Reply {
    if !choice.Read? then NotEstablished
    else match Seen(id, log, choice.n)
    case None => NotEstablished
    case Some(e) => if e.value != ErasureRecord(id, d.stamp) then NotCommitted else Unproved(e.tx)
  }

  function ActOn(id: string, log: Log, reply: Reply, choice: Choice): DeletePc {
    match reply
    case Verified(_) => DeleteRow
    case NotCommitted => Finished(Refused)
    case NotEstablished =>
      if choice.Read? && Confirmed(id, Seen(id, log, choice.n), None) then DeleteRow else Finished(Refused)
    case Unproved(tx) =>
      if choice.Read? && Confirmed(id, Seen(id, log, choice.n), Some(tx)) then DeleteRow else Finished(Refused)
  }

  function WireStep(d: Delete, choice: Choice): Delete {
    match choice
    case Proceed => if d.wire.Landed? then d.(pc := Answered(Verified(d.wire.tx))) else d
    case ProofFailed => if d.wire.Landed? then d.(pc := ReadAfterProof) else d
    case Fail => d.(pc := ReadAfterError)
    case _ => d
  }

  /** One step of one DELETE: the row and the request after it. */
  function StepDelete(id: string, log: Log, row: Option<string>, d: Delete, choice: Choice): (Option<string>, Delete) {
    match d.pc
    case FindRow =>
      (row, d.(pc := if choice.Fail? then Finished(Refused) else if row.None? then Finished(NothingToErase)
                     else VerifierClient))
    case VerifierClient =>
      (row, match choice
            case Fail => d.(pc := Answered(NotCommitted))
            case GiveUp => d.(pc := Finished(Refused), wire := InFlight)
            case _ => d.(pc := OnWire, wire := InFlight))
    case OnWire => (row, if choice.GiveUp? then d.(pc := Finished(Refused)) else WireStep(d, choice))
    case ReadAfterProof =>
      (row, d.(pc := if choice.GiveUp? then Finished(Refused) else Answered(AfterProof(id, log, choice))))
    case ReadAfterError =>
      (row, d.(pc := if choice.GiveUp? then Finished(Refused) else Answered(AfterError(id, log, d, choice))))
    case Answered(reply) => (row, d.(pc := ActOn(id, log, reply, choice)))
    case DeleteRow => if choice.Fail? then (row, d.(pc := Finished(Refused))) else (None, d.(pc := Finished(Erased)))
    case Finished(_) => (row, d)
  }

  // ----- POST /content -----

  function StepWriter(id: string, log: Log, row: Option<string>, w: Writer, choice: Choice): (Option<string>, Writer) {
    match w.pc
    case CheckTombstone =>
      (row, w.(pc := if choice.Read? && Seen(id, log, choice.n).None? then StoreRow else Conflict409))
    case StoreRow => if choice.Fail? then (row, w) else (Some(w.payload), w.(pc := Stored))
    case _ => (row, w)
  }

  // ----- GET /audit -----

  /** What an audit row says about the stored arguments, and whether it carries them. */
  function StateOf(unavailable: bool, row: Option<string>, tombstoned: bool): (PayloadState, Option<string>) {
    if unavailable then (Unavailable, None)
    else if tombstoned then (if row.Some? then ErasureConflict else ErasedState, None)
    else if row.Some? then (Present, row)
    else (Lost, None)
  }

  function StepAudit(id: string, log: Log, row: Option<string>, a: Audit, choice: Choice): Audit {
    match a.pc
    case ReadTombstones =>
      if choice.Read? then
        a.(at := |Snapshot(log, choice.n)|, pc := ReadRow(Confirmed(id, Seen(id, log, choice.n), None)))
      else a
    case ReadRow(seen) =>
      var (state, payload) := StateOf(a.unavailable, row, seen);
      a.(pc := Shown(seen, state, payload))
    case Shown(_, _, _) => a
  }

  function Apply(id: string, w: World, act: Act): World {
    match act
    case StartDelete(stamp) => w.(deletes := w.deletes + [Delete(stamp, FindRow, NotSent)])
    case StartWrite(payload) => w.(writers := w.writers + [Writer(payload, CheckTombstone)])
    case StartAudit(unavailable) => w.(audits := w.audits + [Audit(unavailable, 0, ReadTombstones)])
    case DeleteStep(i, choice) =>
      if i < |w.deletes| then
        var (row, d) := StepDelete(id, w.log, w.row, w.deletes[i], choice);
        w.(row := row, deletes := w.deletes[i := d])
      else w
    case WriteStep(i, choice) =>
      if i < |w.writers| then
        var (row, x) := StepWriter(id, w.log, w.row, w.writers[i], choice);
        w.(row := row, writers := w.writers[i := x])
      else w
    case AuditStep(i, choice) =>
      if i < |w.audits| then w.(audits := w.audits[i := StepAudit(id, w.log, w.row, w.audits[i], choice)]) else w
    case Arrive(i) =>
      if i < |w.deletes| && w.deletes[i].wire.InFlight? then
        w.(log := w.log + [Tx(map[TombstoneKey(id) := ErasureRecord(id, w.deletes[i].stamp)], {})],
           deletes := w.deletes[i := w.deletes[i].(wire := Landed(|w.log| + 1))])
      else w
    case Drop(i) =>
      if i < |w.deletes| && w.deletes[i].wire.InFlight? then
        w.(deletes := w.deletes[i := w.deletes[i].(wire := Dropped)])
      else w
    case Append(key, value) => w.(log := w.log + [Tx(map[key := value], {})])
  }

  function Run(id: string, w: World, acts: seq<Act>): World
    decreases |acts|
  {
    if acts == [] then w else Run(id, Apply(id, w, acts[0]), acts[1..])
  }

  /** No request in progress; any ledger and any row. */
  predicate Idle(w: World) { w.deletes == [] && w.writers == [] && w.audits == [] }

  // ----- what every step keeps -----

  predicate DeleteOk(id: string, log: Log, d: Delete) {
    && (d.wire.Landed? ==> TombstoneAt(id, log, d.wire.tx))
    && (d.pc.ReadAfterProof? || (d.pc.Answered? && d.pc.reply.Verified?) ==> d.wire.Landed?)
    && (d.pc.Answered? && d.pc.reply.Verified? ==> d.pc.reply.tx == d.wire.tx)
    && (d.pc.Answered? && d.pc.reply.Unproved? ==> Wrote(log, TombstoneKey(id), d.pc.reply.tx))
  }

  ghost predicate ErasureBacked(id: string, log: Log, d: Delete) {
    d.pc.DeleteRow? || d.pc == Finished(Erased) ==> HasTombstone(id, log)
  }

  ghost predicate AuditOk(id: string, log: Log, a: Audit) {
    a.at <= |log| &&
    (!a.pc.ReadTombstones? ==> (a.pc.seen <==> Confirmed(id, Get(log[..a.at], TombstoneKey(id)), None))) &&
    (a.pc.Shown? ==>
       exists row :: (a.pc.state, a.pc.payload) == StateOf(a.unavailable, row, a.pc.seen))
  }

  ghost predicate Inv(id: string, w: World) {
    && (forall i :: 0 <= i < |w.deletes| ==> DeleteOk(id, w.log, w.deletes[i]) && ErasureBacked(id, w.log, w.deletes[i]))
    && (forall i :: 0 <= i < |w.audits| ==> AuditOk(id, w.log, w.audits[i]))
  }

  lemma {:induction false} TombstoneStays(id: string, log: Log, tx: Tx)
    ensures HasTombstone(id, log) ==> HasTombstone(id, log + [tx])
  {
    if HasTombstone(id, log) {
      var t :| TombstoneAt(id, log, t);
      assert TombstoneAt(id, log + [tx], t);
    }
  }

  lemma {:induction false} SeenIsThere(id: string, log: Log, n: nat, tx: Option<nat>)
    requires Confirmed(id, Seen(id, log, n), tx)
    ensures HasTombstone(id, log)
  {
    var t := LastTx(Snapshot(log, n), TombstoneKey(id));
    assert TombstoneAt(id, log, t);
  }

  lemma {:induction false} AppendKeeps(id: string, w: World, tx: Tx)
    requires Inv(id, w)
    ensures Inv(id, w.(log := w.log + [tx]))
  {
    TombstoneStays(id, w.log, tx);
    forall i | 0 <= i < |w.audits| ensures AuditOk(id, w.log + [tx], w.audits[i]) {
      assert (w.log + [tx])[..w.audits[i].at] == w.log[..w.audits[i].at];
    }
  }

  lemma {:induction false} RepliesName(id: string, log: Log, d: Delete, choice: Choice)
    ensures !AfterProof(id, log, choice).Verified? && !AfterError(id, log, d, choice).Verified?
    ensures AfterProof(id, log, choice).Unproved? ==> Wrote(log, TombstoneKey(id), AfterProof(id, log, choice).tx)
    ensures AfterError(id, log, d, choice).Unproved? ==> Wrote(log, TombstoneKey(id), AfterError(id, log, d, choice).tx)
  {
  }

  lemma {:induction false} DeleteStepOk(id: string, log: Log, row: Option<string>, d: Delete, choice: Choice)
    requires DeleteOk(id, log, d)
    ensures DeleteOk(id, log, StepDelete(id, log, row, d, choice).1)
  {
    RepliesName(id, log, d, choice);
  }

  lemma {:induction false} DeleteStepKeeps(id: string, log: Log, row: Option<string>, d: Delete, choice: Choice)
    requires DeleteOk(id, log, d) && ErasureBacked(id, log, d)
    ensures ErasureBacked(id, log, StepDelete(id, log, row, d, choice).1)
    ensures row.Some? && StepDelete(id, log, row, d, choice).0.None? ==> HasTombstone(id, log)
  {
    if d.pc.Answered? && ActOn(id, log, d.pc.reply, choice).DeleteRow? {
      match d.pc.reply
      case Verified(_) => assert TombstoneAt(id, log, d.wire.tx);
      case NotEstablished => SeenIsThere(id, log, choice.n, None);
      case Unproved(tx) => SeenIsThere(id, log, choice.n, Some(tx));
    }
  }

  lemma {:induction false} AuditStepKeeps(id: string, log: Log, row: Option<string>, a: Audit, choice: Choice)
    requires AuditOk(id, log, a)
    ensures AuditOk(id, log, StepAudit(id, log, row, a, choice))
  {
    if a.pc.ReadTombstones? && choice.Read? {
      var snap := Snapshot(log, choice.n);
      assert log[..|snap|] == snap;
    }
  }

  lemma {:induction false} ApplyKeeps(id: string, w: World, act: Act)
    requires Inv(id, w)
    ensures Inv(id, Apply(id, w, act))
    ensures w.row.Some? && Apply(id, w, act).row.None? ==> HasTombstone(id, w.log)
  {
    match act
    case DeleteStep(i, choice) =>
      if i < |w.deletes| {
        DeleteStepOk(id, w.log, w.row, w.deletes[i], choice);
        DeleteStepKeeps(id, w.log, w.row, w.deletes[i], choice);
      }
    case AuditStep(i, choice) =>
      if i < |w.audits| { AuditStepKeeps(id, w.log, w.row, w.audits[i], choice); }
    case Arrive(i) =>
      if i < |w.deletes| && w.deletes[i].wire.InFlight? {
        var tx := Tx(map[TombstoneKey(id) := ErasureRecord(id, w.deletes[i].stamp)], {});
        AppendKeeps(id, w, tx);
        assert TombstoneAt(id, w.log + [tx], |w.log| + 1);
      }
    case Append(key, value) => AppendKeeps(id, w, Tx(map[key := value], {}));
    case _ =>
  }

  lemma {:induction false} LogGrows(id: string, w: World, act: Act)
    ensures w.log <= Apply(id, w, act).log
    ensures HasTombstone(id, w.log) ==> HasTombstone(id, Apply(id, w, act).log)
  {
    match act
    case Arrive(i) =>
      if i < |w.deletes| && w.deletes[i].wire.InFlight? {
        TombstoneStays(id, w.log, Tx(map[TombstoneKey(id) := ErasureRecord(id, w.deletes[i].stamp)], {}));
      }
    case Append(key, value) => TombstoneStays(id, w.log, Tx(map[key := value], {}));
    case _ =>
  }

  lemma {:induction false} RunKeeps(id: string, w: World, acts: seq<Act>)
    requires Inv(id, w)
    ensures Inv(id, Run(id, w, acts))
    ensures HasTombstone(id, w.log) ==> HasTombstone(id, Run(id, w, acts).log)
    ensures w.log <= Run(id, w, acts).log
    ensures w.row.Some? && Run(id, w, acts).row.None? ==> HasTombstone(id, Run(id, w, acts).log)
    decreases |acts|
  {
    if acts != [] {
      ApplyKeeps(id, w, acts[0]);
      LogGrows(id, w, acts[0]);
      RunKeeps(id, Apply(id, w, acts[0]), acts[1..]);
    }
  }

  // ----- main results -----

  /** Whatever the replies, the lags and the losses, a row that was there and is
      gone has a tombstone behind it, and so has every DELETE that reported an erasure. */
  lemma {:induction false} NoRowLostWithoutTombstone(id: string, w: World, before: seq<Act>, after: seq<Act>)
    requires Idle(w)
    ensures var mid := Run(id, w, before);
            var end := Run(id, mid, after);
            && (mid.row.Some? && end.row.None? ==> HasTombstone(id, end.log))
            && (forall i :: 0 <= i < |end.deletes| && end.deletes[i].pc == Finished(Erased) ==> HasTombstone(id, end.log))
  {
    RunKeeps(id, w, before);
    RunKeeps(id, Run(id, w, before), after);
  }

  /** A DELETE answers success only with the row gone; had the row ever been
      there, the ledger then holds the tombstone, however many refused attempts came first. */
  lemma {:induction false} SuccessMeansGone(id: string, w: World, before: seq<Act>, after: seq<Act>, i: nat, choice: Choice)
    requires Idle(w)
    requires var now := Run(id, Run(id, w, before), after);
             i < |now.deletes| && !now.deletes[i].pc.Finished?
             && Apply(id, now, DeleteStep(i, choice)).deletes[i].pc in {Finished(Erased), Finished(NothingToErase)}
    ensures var end := Apply(id, Run(id, Run(id, w, before), after), DeleteStep(i, choice));
            && end.row.None?
            && (Run(id, w, before).row.Some? || end.deletes[i].pc == Finished(Erased) ==> HasTombstone(id, end.log))
  {
    var mid := Run(id, w, before);
    var now := Run(id, mid, after);
    RunKeeps(id, w, before);
    RunKeeps(id, mid, after);
    ApplyKeeps(id, now, DeleteStep(i, choice));
    LogGrows(id, now, DeleteStep(i, choice));
  }

  /** Every write under the tombstone key is an erasure record for this call. */
  ghost predicate OnlyTombstones(id: string, log: Log) {
    forall t :: Wrote(log, TombstoneKey(id), t) ==> TombstoneAt(id, log, t)
  }

  /** What a read that covers an erasure record does: a content write is refused whatever was written under
      the key since, and an audit withholds a row that is there exactly when the latest version it
      covers is an erasure record too, as it is when nothing else is written under the key. */
  lemma {:induction false} TombstoneGoverns(id: string, log: Log, t: nat, n: nat, row: Option<string>, unavailable: bool, x: Writer)
    requires TombstoneAt(id, log, t) && t <= n
    ensures x.pc.CheckTombstone? ==> StepWriter(id, log, row, x, Read(n)) == (row, x.(pc := Conflict409))
    ensures StateOf(unavailable, row, Confirmed(id, Seen(id, log, n), None)).1
         == if unavailable || TombstoneAt(id, log, LastTx(Snapshot(log, n), TombstoneKey(id))) then None else row
    ensures OnlyTombstones(id, log) ==> Confirmed(id, Seen(id, log, n), None)
  {
    var snap := Snapshot(log, n);
    var last := LastTx(snap, TombstoneKey(id));
    assert Wrote(snap, TombstoneKey(id), t);
    assert Wrote(log, TombstoneKey(id), last);
  }

  /** Version `t` of the key, the last the read saw, is this call's own erasure record. */
  predicate OwnVersionAt(id: string, log: Log, n: nat, t: nat, stamp: nat) {
    && 1 <= t <= |Snapshot(log, n)| && TombstoneKey(id) in log[t - 1].sets
    && log[t - 1].sets[TombstoneKey(id)] == ErasureRecord(id, stamp)
    && forall u :: t < u <= |Snapshot(log, n)| ==> !Wrote(log, TombstoneKey(id), u)
  }

  /** The control plane takes a call for erased if and only if the last version its read saw under the call's key is
      an erasure record of that very call, and stands at the transaction it was told where it was told one. */
  lemma {:induction false} ConfirmedExactly(id: string, log: Log, n: nat, tx: Option<nat>)
    ensures Confirmed(id, Seen(id, log, n), tx) <==>
              exists t, stamp :: OwnVersionAt(id, log, n, t, stamp) && (tx.Some? ==> tx.value == t)
  {
    var snap := Snapshot(log, n);
    var last := LastTx(snap, TombstoneKey(id));
    forall u | 1 <= u <= |snap| ensures Wrote(log, TombstoneKey(id), u) <==> Wrote(snap, TombstoneKey(id), u) {}
    if Confirmed(id, Seen(id, log, n), tx) {
      assert OwnVersionAt(id, log, n, last, log[last - 1].sets[TombstoneKey(id)].stamp);
    }
    if t, stamp :| OwnVersionAt(id, log, n, t, stamp) && (tx.Some? ==> tx.value == t) {
      assert Wrote(snap, TombstoneKey(id), t);
      assert t < last ==> Wrote(log, TombstoneKey(id), last);
    }
  }

  /** An erased row never reads as lost: once a row that existed is gone, an audit that reads the whole
      ledger shows the erasure. */
  lemma {:induction false} ErasedNeverReadsAsLost(id: string, w: World, before: seq<Act>, after: seq<Act>)
    requires Idle(w) && Run(id, w, before).row.Some?
    requires OnlyTombstones(id, Run(id, Run(id, w, before), after).log)
    ensures var end := Run(id, Run(id, w, before), after);
            end.row.None? ==> StateOf(false, end.row, Confirmed(id, Seen(id, end.log, |end.log|), None)) == (ErasedState, None)
  {
    var end := Run(id, Run(id, w, before), after);
    NoRowLostWithoutTombstone(id, w, before, after);
    if end.row.None? {
      var t :| TombstoneAt(id, end.log, t);
      TombstoneGoverns(id, end.log, t, |end.log|, end.row, false, Writer("", CheckTombstone));
    }
  }

  // ----- one DELETE with the key to itself -----

  /** No other DELETE, and no other client under the tombstone key. */
  predicate Alone(id: string, acts: seq<Act>) {
    forall k :: 0 <= k < |acts| ==>
      !acts[k].StartDelete? && (acts[k].Append? ==> acts[k].key != TombstoneKey(id))
  }

  /** The request whose answer is `committed: false`, from that answer on. */
  predicate NeverSent(d: Delete) { d.wire.NotSent? && (d.pc == Answered(NotCommitted) || d.pc == Finished(Refused)) }

  ghost predicate AloneOk(id: string, w: World) {
    |w.deletes| == 1 &&
    var d := w.deletes[0];
    && (d.pc.FindRow? || d.pc.VerifierClient? ==> d.wire.NotSent?)
    && (d.pc == Answered(NotCommitted) ==> d.wire.NotSent?)
    && (d.pc.VerifierClient? || (!d.wire.NotSent? && d.pc != Finished(Erased)) ==> w.row.Some?)
    && (d.wire.Landed? ==> Get(w.log, TombstoneKey(id)) == Some(Entry(ErasureRecord(id, d.stamp), d.wire.tx)))
    && (forall t :: Wrote(w.log, TombstoneKey(id), t) ==> d.wire == Landed(t))
    && (d.pc.Answered? && d.pc.reply.Unproved? ==> d.wire == Landed(d.pc.reply.tx))
    && (d.pc.ReadAfterProof? || (d.pc.Answered? && d.pc.reply.Verified?) ==> d.wire.Landed?)
  }

  lemma {:induction false} OwnVersionOnly(id: string, w: World, n: nat)
    requires AloneOk(id, w) && Seen(id, w.log, n).Some?
    ensures Seen(id, w.log, n) == Get(w.log, TombstoneKey(id)) && w.deletes[0].wire.Landed?
  {
    var t := LastTx(Snapshot(w.log, n), TombstoneKey(id));
    assert Wrote(w.log, TombstoneKey(id), t);
  }

  lemma {:induction false} AloneDelete(id: string, w: World, i: nat, choice: Choice)
    requires AloneOk(id, w)
    ensures AloneOk(id, Apply(id, w, DeleteStep(i, choice)))
    ensures NeverSent(w.deletes[0]) ==> NeverSent(Apply(id, w, DeleteStep(i, choice)).deletes[0])
  {
    if choice.Read? && Seen(id, w.log, choice.n).Some? { OwnVersionOnly(id, w, choice.n); }
  }

  lemma {:induction false} AloneAppend(id: string, w: World, tx: Tx)
    requires AloneOk(id, w) && TombstoneKey(id) !in tx.sets
    ensures AloneOk(id, w.(log := w.log + [tx]))
  {
    LastTxAppend(w.log, tx, TombstoneKey(id));
    forall t | Wrote(w.log + [tx], TombstoneKey(id), t) ensures Wrote(w.log, TombstoneKey(id), t) {
      WroteAppend(w.log, tx, TombstoneKey(id), t);
    }
  }

  lemma {:induction false} AloneArrives(id: string, w: World)
    requires AloneOk(id, w) && w.deletes[0].wire.InFlight?
    ensures AloneOk(id, Apply(id, w, Arrive(0)))
  {
    var tx := Tx(map[TombstoneKey(id) := ErasureRecord(id, w.deletes[0].stamp)], {});
    LastTxAppend(w.log, tx, TombstoneKey(id));
    forall t | Wrote(w.log + [tx], TombstoneKey(id), t) ensures t == |w.log| + 1 {
      WroteAppend(w.log, tx, TombstoneKey(id), t);
    }
  }

  lemma {:induction false} AloneStep(id: string, w: World, act: Act)
    requires AloneOk(id, w) && Alone(id, [act])
    ensures AloneOk(id, Apply(id, w, act))
    ensures NeverSent(w.deletes[0]) ==> NeverSent(Apply(id, w, act).deletes[0])
  {
    assert act == [act][0];
    match act
    case DeleteStep(i, choice) => AloneDelete(id, w, i, choice);
    case Arrive(i) => if i == 0 && w.deletes[0].wire.InFlight? { AloneArrives(id, w); }
    case Append(key, value) => AloneAppend(id, w, Tx(map[key := value], {}));
    case _ =>
  }

  lemma {:induction false} AloneRun(id: string, w: World, acts: seq<Act>)
    requires AloneOk(id, w) && Alone(id, acts)
    ensures AloneOk(id, Run(id, w, acts))
    ensures NeverSent(w.deletes[0]) ==> NeverSent(Run(id, w, acts).deletes[0])
    decreases |acts|
  {
    if acts != [] {
      assert [acts[0]][0] == acts[0];
      AloneStep(id, w, acts[0]);
      AloneRun(id, Apply(id, w, acts[0]), acts[1..]);
    }
  }

  /** A DELETE just received, for a call with no earlier version of its tombstone. */
  predicate FirstErasure(id: string, w: World) {
    LastTx(w.log, TombstoneKey(id)) == 0 && |w.deletes| == 1 && w.deletes[0].pc.FindRow? && w.deletes[0].wire.NotSent?
  }

  /** `committed: false` is never said of a tombstone that lands: not before the answer, and in no continuation. */
  lemma {:induction false} NotCommittedIsFinal(id: string, w: World, before: seq<Act>, after: seq<Act>)
    requires FirstErasure(id, w) && Alone(id, before) && Alone(id, after)
    requires |Run(id, w, before).deletes| == 1 && Run(id, w, before).deletes[0].pc == Answered(NotCommitted)
    ensures LastTx(Run(id, Run(id, w, before), after).log, TombstoneKey(id)) == 0
  {
    AloneRun(id, w, before);
    AloneRun(id, Run(id, w, before), after);
  }

  /** With the verifier's answer in hand, whatever it is, and the control plane's
      own read current, the DELETE goes on to delete the row exactly when its
      tombstone is in the ledger. */
  lemma {:induction false} CompletesExactlyWhenLanded(id: string, w: World, acts: seq<Act>, n: nat)
    requires FirstErasure(id, w) && Alone(id, acts)
    requires |Run(id, w, acts).deletes| == 1 && Run(id, w, acts).deletes[0].pc.Answered?
    requires n >= |Run(id, w, acts).log|
    ensures var end := Run(id, w, acts);
            var next := Apply(id, end, DeleteStep(0, Read(n))).deletes[0].pc;
            && (end.deletes[0].wire.Landed? ==> next == DeleteRow)
            && (!end.deletes[0].wire.Landed? ==> next == Finished(Refused))
  {
    AloneRun(id, w, acts);
    var end := Run(id, w, acts);
    assert end.log[..|end.log|] == end.log;
    if !end.deletes[0].wire.Landed? && Seen(id, end.log, n).Some? { OwnVersionOnly(id, end, n); }
  }

  // ----- exactly when a row outlives its tombstone -----

  /** The ledger says erased and the row is there. */
  ghost predicate Stranded(id: string, w: World) { w.row.Some? && HasTombstone(id, w.log) }

  predicate OnWireOrLanded(d: Delete) { d.wire.InFlight? || d.wire.Landed? }

  /** A refused DELETE stays refused, and its write only settles. */
  lemma {:induction false} RefusedStays(id: string, w: World, acts: seq<Act>)
    requires AloneOk(id, w) && Alone(id, acts) && w.deletes[0].pc == Finished(Refused)
    ensures AloneOk(id, Run(id, w, acts)) && Run(id, w, acts).deletes[0].pc == Finished(Refused)
    ensures OnWireOrLanded(Run(id, w, acts).deletes[0]) ==> OnWireOrLanded(w.deletes[0])
    decreases |acts|
  {
    if acts != [] {
      assert [acts[0]][0] == acts[0];
      AloneStep(id, w, acts[0]);
      RefusedStays(id, Apply(id, w, acts[0]), acts[1..]);
    }
  }

  lemma {:induction false} StrandedNow(id: string, w: World)
    requires AloneOk(id, w) && w.deletes[0].pc == Finished(Refused)
    ensures Stranded(id, w) <==> w.deletes[0].wire.Landed?
  {
    if w.deletes[0].wire.Landed? {
      assert TombstoneAt(id, w.log, LastTx(w.log, TombstoneKey(id)));
    }
    if HasTombstone(id, w.log) {
      var t :| TombstoneAt(id, w.log, t);
      assert Wrote(w.log, TombstoneKey(id), t as nat);
    }
  }

  /** A caller that gives up on the tombstone write settles nothing: the DELETE is refused with the row as it was,
      and the erasure record lands afterwards or does not. */
  lemma {:induction false} GivingUpSettlesNothing(id: string, w: World, i: nat)
    requires i < |w.deletes|
    requires w.deletes[i].pc.VerifierClient? || (w.deletes[i].pc.OnWire? && w.deletes[i].wire.InFlight?)
    ensures var u := Apply(id, w, DeleteStep(i, GiveUp));
            && u.deletes[i].pc == Finished(Refused) && u.row == w.row && u.log == w.log
            && Apply(id, u, Arrive(i)).row == w.row && TombstoneAt(id, Apply(id, u, Arrive(i)).log, |w.log| + 1)
            && Apply(id, u, Drop(i)).row == w.row && Apply(id, u, Drop(i)).log == w.log
            && !OnWireOrLanded(Apply(id, u, Drop(i)).deletes[i])
  {
  }

  /** After a refused DELETE, in every continuation without another one: the row is stranded behind its
      tombstone at the end if and only if the write has landed by then; and some continuation ends so if
      and only if the write was put on the wire and is not dropped. */
  lemma {:induction false} RefusalStrandsExactly(id: string, w: World, before: seq<Act>, after: seq<Act>)
    requires FirstErasure(id, w) && Alone(id, before) && Alone(id, after)
    requires |Run(id, w, before).deletes| == 1 && Run(id, w, before).deletes[0].pc == Finished(Refused)
    ensures var now, end := Run(id, w, before), Run(id, Run(id, w, before), after);
            && |end.deletes| == 1 && (Stranded(id, end) <==> end.deletes[0].wire.Landed?)
            && ((exists more :: Alone(id, more) && Stranded(id, Run(id, now, more))) <==> OnWireOrLanded(now.deletes[0]))
  {
    var now := Run(id, w, before);
    AloneRun(id, w, before);
    RefusedStays(id, now, after);
    StrandedNow(id, Run(id, now, after));
    if more :| Alone(id, more) && Stranded(id, Run(id, now, more)) {
      RefusedStays(id, now, more);
      StrandedNow(id, Run(id, now, more));
    }
    if OnWireOrLanded(now.deletes[0]) { LandingStrands(id, now); }
  }

  lemma {:induction false} LandingStrands(id: string, now: World)
    requires AloneOk(id, now) && now.deletes[0].pc == Finished(Refused) && OnWireOrLanded(now.deletes[0])
    ensures exists more :: Alone(id, more) && Stranded(id, Run(id, now, more))
  {
    var more := if now.deletes[0].wire.Landed? then [] else [Arrive(0)];
    assert Alone(id, more);
    RefusedStays(id, now, more);
    assert more != [] ==> Run(id, now, more) == Run(id, Apply(id, now, Arrive(0)), []);
    StrandedNow(id, Run(id, now, more));
    assert Stranded(id, Run(id, now, more));
  }

  /** From here on, content checks read at least up to `t`. */
  predicate CurrentChecks(acts: seq<Act>, t: nat) {
    forall k :: 0 <= k < |acts| && acts[k].WriteStep? && acts[k].choice.Read? ==> acts[k].choice.n >= t
  }

  predicate PastCheck(w: World) { exists i :: 0 <= i < |w.writers| && w.writers[i].pc.StoreRow? }

  /** The row is gone behind a tombstone at `t`, and no content write is past its check. */
  ghost predicate GoneForGood(id: string, w: World, t: nat) {
    TombstoneAt(id, w.log, t) && w.row.None? && !PastCheck(w)
  }

  lemma {:induction false} GoneStep(id: string, w: World, act: Act, t: nat)
    requires GoneForGood(id, w, t) && CurrentChecks([act], t)
    ensures GoneForGood(id, Apply(id, w, act), t)
  {
    assert act == [act][0];
    var w' := Apply(id, w, act);
    match act
    case WriteStep(i, choice) =>
      if i < |w.writers| && choice.Read? { TombstoneGoverns(id, w.log, t, choice.n, w.row, false, w.writers[i]); }
      forall k | 0 <= k < |w'.writers| ensures !w'.writers[k].pc.StoreRow? { assert !w.writers[k].pc.StoreRow?; }
    case StartWrite(payload) =>
      forall k | 0 <= k < |w'.writers| ensures !w'.writers[k].pc.StoreRow? {
        assert k < |w.writers| ==> !w.writers[k].pc.StoreRow?;
      }
    case _ =>
      assert w'.writers == w.writers;
  }

  lemma {:induction false} GoneRun(id: string, w: World, acts: seq<Act>, t: nat)
    requires GoneForGood(id, w, t) && CurrentChecks(acts, t)
    ensures GoneForGood(id, Run(id, w, acts), t)
    decreases |acts|
  {
    if acts != [] {
      assert [acts[0]][0] == acts[0];
      GoneStep(id, w, acts[0], t);
      GoneRun(id, Apply(id, w, acts[0]), acts[1..], t);
    }
  }

  /** Once a row is gone behind its tombstone and checks read current, it comes back in some continuation if
      and only if a content write was already past its check. */
  lemma {:induction false} RowReturnsExactly(id: string, w: World, t: nat)
    requires TombstoneAt(id, w.log, t) && w.row.None?
    ensures (exists acts :: CurrentChecks(acts, t) && Run(id, w, acts).row.Some?) <==> PastCheck(w)
  {
    if i: nat :| i < |w.writers| && w.writers[i].pc.StoreRow? {
      var acts := [WriteStep(i, Proceed)];
      assert Run(id, w, acts) == Run(id, Apply(id, w, acts[0]), []);
      assert CurrentChecks(acts, t) && Run(id, w, acts).row.Some?;
    }
    if acts :| CurrentChecks(acts, t) && Run(id, w, acts).row.Some? {
      if !PastCheck(w) { GoneRun(id, w, acts, t); }
    }
  }

  // ----- what the protocol leaves open, by example -----

  lemma {:induction false} RunSnoc(id: string, w: World, acts: seq<Act>, act: Act)
    ensures Run(id, w, acts + [act]) == Apply(id, Run(id, w, acts), act)
    decreases |acts|
  {
    if acts == [] {
      assert (acts + [act])[1..] == [];
    } else {
      assert (acts + [act])[1..] == acts[1..] + [act];
      RunSnoc(id, Apply(id, w, acts[0]), acts[1..], act);
    }
  }

  /** One DELETE and one content write on a call whose row holds "old". */
  function Both(log: Log, row: Option<string>, pc: DeletePc, wire: Wire, writer: WriterPc): World {
    World(log, row, [Delete(0, pc, wire)], [Writer("new", writer)], [])
  }

  const BEGIN: World := Both([], Some("old"), FindRow, NotSent, CheckTombstone)

  function OneTombstone(id: string): Log { [Tx(map[TombstoneKey(id) := ErasureRecord(id, 0)], {})] }

  ghost predicate Reachable(id: string, w: World) { exists acts :: Run(id, BEGIN, acts) == w }

  /** One more step of an example run. */
  lemma {:induction false} Next(id: string, v: World, act: Act, w: World)
    requires Reachable(id, v)
    requires |v.deletes| == |v.writers| == |w.deletes| == |w.writers| == 1
    requires var next := Apply(id, v, act);
             && next.log == w.log && next.row == w.row && next.audits == w.audits
             && next.deletes == w.deletes && next.writers == w.writers
    ensures Reachable(id, w)
  {
    var acts :| Run(id, BEGIN, acts) == v;
    RunSnoc(id, BEGIN, acts, act);
    assert Run(id, BEGIN, acts + [act]) == w;
  }

  /** The audit's reading of a row beside this one tombstone. */
  lemma {:induction false} ConflictShows(id: string)
    ensures Confirmed(id, Seen(id, OneTombstone(id), 1), None)
  {
    assert OneTombstone(id)[..1] == OneTombstone(id);
  }

  /** The write is past its check and the tombstone is on the wire. */
  lemma {:induction false} CheckedThenSent(id: string)
    ensures Reachable(id, Both([], Some("old"), OnWire, InFlight, StoreRow))
  {
    var before := Some("old");
    assert Run(id, BEGIN, []) == BEGIN;
    var w1 := Both([], before, FindRow, NotSent, StoreRow);
    Next(id, BEGIN, WriteStep(0, Read(0)), w1);
    var w2 := Both([], before, VerifierClient, NotSent, StoreRow);
    Next(id, w1, DeleteStep(0, Proceed), w2);
    var w3 := Both([], before, OnWire, InFlight, StoreRow);
    Next(id, w2, DeleteStep(0, Proceed), w3);
  }

  /** A content write that checked before the tombstone landed stores its row
      after the erasure finished: the row is back, and only the reader's
      precedence of the tombstone keeps the arguments unread. */
  lemma {:induction false} RacingWriteLeavesARow(id: string)
    ensures Reachable(id, Both(OneTombstone(id), Some("new"), Finished(Erased), Landed(1), Stored))
    ensures StateOf(false, Some("new"), Confirmed(id, Seen(id, OneTombstone(id), 1), None)) == (ErasureConflict, None)
  {
    var log, before := OneTombstone(id), Some("old");
    CheckedThenSent(id);
    var w3 := Both([], before, OnWire, InFlight, StoreRow);
    var w4 := Both(log, before, OnWire, Landed(1), StoreRow);
    Next(id, w3, Arrive(0), w4);
    var w5 := Both(log, before, Answered(Verified(1)), Landed(1), StoreRow);
    Next(id, w4, DeleteStep(0, Proceed), w5);
    var w6 := Both(log, before, DeleteRow, Landed(1), StoreRow);
    Next(id, w5, DeleteStep(0, Proceed), w6);
    var w7 := Both(log, None, Finished(Erased), Landed(1), StoreRow);
    Next(id, w6, DeleteStep(0, Proceed), w7);
    var w8 := Both(log, Some("new"), Finished(Erased), Landed(1), Stored);
    Next(id, w7, WriteStep(0, Proceed), w8);
    ConflictShows(id);
  }

  /** The tombstone is on the wire, its reply is lost, and the read after it finds nothing. */
  lemma {:induction false} UnsettledTombstone(id: string)
    ensures Reachable(id, Both([], Some("old"), Answered(NotEstablished), InFlight, CheckTombstone))
  {
    var before := Some("old");
    assert Run(id, BEGIN, []) == BEGIN;
    var w1 := Both([], before, VerifierClient, NotSent, CheckTombstone);
    Next(id, BEGIN, DeleteStep(0, Proceed), w1);
    var w2 := Both([], before, OnWire, InFlight, CheckTombstone);
    Next(id, w1, DeleteStep(0, Proceed), w2);
    var w3 := Both([], before, ReadAfterError, InFlight, CheckTombstone);
    Next(id, w2, DeleteStep(0, Fail), w3);
    var w4 := Both([], before, Answered(NotEstablished), InFlight, CheckTombstone);
    Next(id, w3, DeleteStep(0, Read(0)), w4);
  }

  /** A tombstone still on the wire when the DELETE was refused lands later: the
      ledger says erased, the row is there, and content writes are refused until
      the DELETE is tried again. */
  lemma {:induction false} LateTombstoneStrandsTheRow(id: string)
    ensures Reachable(id, Both(OneTombstone(id), Some("old"), Finished(Refused), Landed(1), Conflict409))
    ensures StateOf(false, Some("old"), Confirmed(id, Seen(id, OneTombstone(id), 1), None)) == (ErasureConflict, None)
  {
    var log, before := OneTombstone(id), Some("old");
    UnsettledTombstone(id);
    var w0 := Both([], before, Answered(NotEstablished), InFlight, CheckTombstone);
    var w1 := Both([], before, Finished(Refused), InFlight, CheckTombstone);
    Next(id, w0, DeleteStep(0, Read(0)), w1);
    var w2 := Both(log, before, Finished(Refused), Landed(1), CheckTombstone);
    Next(id, w1, Arrive(0), w2);
    var w3 := Both(log, before, Finished(Refused), Landed(1), Conflict409);
    Next(id, w2, WriteStep(0, Read(1)), w3);
  }
}
