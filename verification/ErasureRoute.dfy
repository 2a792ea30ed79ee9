/** `DELETE /content/{call_id}` in its own form: the control plane's route, its
    tombstone write and its confirmation, and the verifier's plain write they rest
    on, run while everything else moves between their steps. Each step taken is a
    step of the system in module Erasure. */
module ErasureRoute {
  import opened Wrappers
  import opened Ledger
  import opened Erasure
  import opened RemoteWrite

  predicate Elsewhere(act: Act, i: nat) { act.DeleteStep? ==> act.i != i }

  /** The request after others moved: only its tombstone write may have been settled. */
  predicate OnlySettled(d: Delete, d': Delete) {
    d' == d.(wire := d'.wire) && (d'.wire == d.wire || d.wire.InFlight?)
  }

  lemma {:induction false} OthersOnlySettle(id: string, w: World, act: Act, i: nat)
    requires i < |w.deletes| && Elsewhere(act, i)
    ensures i < |Apply(id, w, act).deletes| && OnlySettled(w.deletes[i], Apply(id, w, act).deletes[i])
  {
    match act
    case DeleteStep(k, choice) =>
    case Arrive(k) =>
    case _ =>
  }

  /** What a reply may claim: verified, this call's erasure record is at that transaction; committed without
      proof, some version is. */
  predicate ReplyIsTrue(id: string, log: Log, reply: Reply) {
    match reply
    case Verified(tx) => TombstoneAt(id, log, tx)
    case Unproved(tx) => Wrote(log, TombstoneKey(id), tx)
    case _ => true
  }

  lemma {:induction false} AnswerIsBacked(id: string, start: World, trace: seq<Act>, i: nat)
    requires Idle(start) && i < |Run(id, start, trace).deletes|
    ensures var w := Run(id, start, trace);
            && (w.deletes[i].pc.Answered? ==> ReplyIsTrue(id, w.log, w.deletes[i].pc.reply))
            && (w.deletes[i].pc.DeleteRow? || w.deletes[i].pc == Finished(Erased) ==> HasTombstone(id, w.log))
  {
    RunKeeps(id, start, trace);
  }

  class ControlPlane {
    const id: string
    var w: World
    ghost const start: World
    ghost var trace: seq<Act>

    ghost predicate Valid()
      reads this
    {
      w == Run(id, start, trace)
    }

    constructor (id: string, world: World)
      ensures Valid() && this.id == id && w == world && start == world && trace == []
    {
      this.id := id;
      w := world;
      start := world;
      trace := [];
    }

    ghost predicate At(i: nat, pc: DeletePc)
      reads this
    {
      Valid() && i < |w.deletes| && w.deletes[i].pc == pc
    }

    method Others(i: nat)
      requires Valid() && i < |w.deletes|
      modifies this
      ensures Valid() && old(trace) <= trace
      ensures i < |w.deletes| && OnlySettled(old(w.deletes[i]), w.deletes[i])
    {
      var acts: seq<Act> := *;
      for k := 0 to |acts|
        invariant Valid() && old(trace) <= trace
        invariant i < |w.deletes| && OnlySettled(old(w.deletes[i]), w.deletes[i])
      {
        var act := acts[k];
        if !act.DeleteStep? || act.i != i {
          OthersOnlySettle(id, w, act, i);
          RunSnoc(id, start, trace, act);
          w := Apply(id, w, act);
          trace := trace + [act];
        }
      }
    }

    /** One step of this request: what it leaves behind must be what the step system says. */
    method Take(i: nat, row: Option<string>, d: Delete, ghost choice: Choice)
      requires Valid() && i < |w.deletes| && (row, d) == StepDelete(id, w.log, w.row, w.deletes[i], choice)
      modifies this
      ensures Valid() && old(trace) <= trace
      ensures |w.deletes| == |old(w.deletes)| && w.deletes[i] == d && w.row == row && w.log == old(w.log)
    {
      RunSnoc(id, start, trace, DeleteStep(i, choice));
      w := w.(row := row, deletes := w.deletes[i := d]);
      trace := trace + [DeleteStep(i, choice)];
    }

    /** The verifier's `POST /write` for this tombstone: no reply when the request itself raised. */
    method PlainWrite(i: nat) returns (reply: Option<Reply>)
      requires At(i, VerifierClient)
      modifies this
      ensures Valid() && old(trace) <= trace && i < |w.deletes| && w.deletes[i].stamp == old(w.deletes[i].stamp)
      ensures w.deletes[i].pc == if reply.Some? then Answered(reply.value) else Finished(Refused)
      ensures Idle(start) && reply.Some? ==> ReplyIsTrue(id, w.log, reply.value)
    {
      var gaveUp: bool, built: bool := *, *;
      if gaveUp {
        reply := None;
        Take(i, w.row, w.deletes[i].(pc := Finished(Refused), wire := InFlight), GiveUp);
        return;
      }
      if !built {
        reply := Some(NotCommitted);
        Take(i, w.row, w.deletes[i].(pc := Answered(NotCommitted)), Fail);
        return;
      }
      Take(i, w.row, w.deletes[i].(pc := OnWire, wire := InFlight), Proceed);
      Others(i);
      gaveUp := *;
      if gaveUp {
        reply := None;
        Take(i, w.row, w.deletes[i].(pc := Finished(Refused)), GiveUp);
        return;
      }
      var raised: bool, proved: bool := *, *;
      if !raised && w.deletes[i].wire.Landed? && proved {
        reply := Some(Verified(w.deletes[i].wire.tx));
        Take(i, w.row, w.deletes[i].(pc := Answered(reply.value)), Proceed);
      } else if !raised && w.deletes[i].wire.Landed? {
        Take(i, w.row, w.deletes[i].(pc := ReadAfterProof), ProofFailed);
        reply := ReadBack(i, true);
      } else {
        Take(i, w.row, w.deletes[i].(pc := ReadAfterError), Fail);
        reply := ReadBack(i, false);
      }
      if Idle(start) { AnswerIsBacked(id, start, trace, i); }
    }

    /** The read that settles a write which raised: by presence after a failed proof, else by the bytes. */
    method ReadBack(i: nat, proofFailed: bool) returns (reply: Option<Reply>)
      requires At(i, if proofFailed then ReadAfterProof else ReadAfterError)
      modifies this
      ensures Valid() && old(trace) <= trace && i < |w.deletes| && w.deletes[i].stamp == old(w.deletes[i].stamp)
      ensures w.deletes[i].pc == if reply.Some? then Answered(reply.value) else Finished(Refused)
    {
      Others(i);
      var gaveUp: bool, readable: bool, n: nat := *, *, *;
      if gaveUp {
        reply := None;
        Take(i, w.row, w.deletes[i].(pc := Finished(Refused)), GiveUp);
        return;
      }
      var got := Seen(id, w.log, n);
      if !readable || got.None? {
        reply := Some(NotEstablished);
      } else if !proofFailed && got.value.value != ErasureRecord(id, w.deletes[i].stamp) {
        reply := Some(NotCommitted);
      } else {
        reply := Some(Unproved(got.value.tx));
      }
      Take(i, w.row, w.deletes[i].(pc := Answered(reply.value)), if readable then Read(n) else Fail);
    }

    /** `_write_tombstone`: true when the erasure may go on, false when it raised. */
    method WriteTombstone(i: nat) returns (ok: bool)
      requires At(i, VerifierClient)
      modifies this
      ensures Valid() && old(trace) <= trace && i < |w.deletes|
      ensures w.deletes[i].pc == if ok then DeleteRow else Finished(Refused)
      ensures Idle(start) && ok ==> HasTombstone(id, w.log)
    {
      var reply := PlainWrite(i);
      if reply.None? { return false; }
      Others(i);
      var readable: bool, n: nat := *, *;
      match reply.value {
        case Verified(_) => ok := true;
        case NotCommitted => ok := false;
        case NotEstablished => ok := readable && Confirmed(id, Seen(id, w.log, n), None);
        case Unproved(tx) => ok := readable && Confirmed(id, Seen(id, w.log, n), Some(tx));
      }
      Take(i, w.row, w.deletes[i].(pc := if ok then DeleteRow else Finished(Refused)), if readable then Read(n) else Fail);
      if Idle(start) { AnswerIsBacked(id, start, trace, i); }
    }

    /** A success, of either kind, leaves no row; a row is deleted only once the ledger holds
        an erasure record for this call; and at no point of the run was a row that existed
        gone without one. */
    method EraseContent(stamp: nat) returns (i: nat, outcome: Outcome)
      requires Valid() && Idle(start)
      modifies this
      ensures Valid() && old(trace) <= trace
      ensures i < |w.deletes| && w.deletes[i].pc == Finished(outcome)
      ensures outcome != Refused ==> w.row.None?
      ensures outcome == Erased ==> HasTombstone(id, w.log)
      ensures start.row.Some? && w.row.None? ==> HasTombstone(id, w.log)
    {
      i := |w.deletes|;
      RunSnoc(id, start, trace, StartDelete(stamp));
      w := Apply(id, w, StartDelete(stamp));
      trace := trace + [StartDelete(stamp)];
      Others(i);
      if w.row.None? {
        outcome := NothingToErase;
        Take(i, w.row, w.deletes[i].(pc := Finished(NothingToErase)), Proceed);
      } else {
        Take(i, w.row, w.deletes[i].(pc := VerifierClient), Proceed);
        var ok := WriteTombstone(i);
        if !ok {
          outcome := Refused;
        } else {
          Others(i);
          var deleted: bool := *;
          if deleted {
            outcome := Erased;
            Take(i, None, w.deletes[i].(pc := Finished(Erased)), Proceed);
          } else {
            outcome := Refused;
            Take(i, w.row, w.deletes[i].(pc := Finished(Refused)), Fail);
          }
        }
      }
      AnswerIsBacked(id, start, trace, i);
      RunKeeps(id, start, trace);
    }
  }
}
