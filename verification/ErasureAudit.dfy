/** What an audit shows of one call's stored arguments: the row as it was when the audit read
    it, and where that row came from; and what a DELETE and its tombstone write are answered. */
module ErasureAudit {
  import opened Wrappers
  import opened Ledger
  import opened Erasure
  import opened RemoteWrite

  /** Step `k` of the run is audit `i` reading the row. */
  ghost predicate ReadsRowAt(id: string, w: World, acts: seq<Act>, k: int, i: nat) {
    && 0 <= k < |acts| && acts[k].AuditStep? && acts[k].i == i
    && var u := Run(id, w, acts[..k]); i < |u.audits| && u.audits[i].pc.ReadRow?
  }

  /** What is shown of a row `row`, read after a tombstone read that confirmed an erasure record or not. */
  predicate ShowsRow(a: Audit, row: Option<string>) {
    && a.pc.Shown?
    && (a.pc.state == Unavailable <==> a.unavailable)
    && (a.pc.state == Present <==> !a.unavailable && !a.pc.seen && row.Some?)
    && (a.pc.state == Lost <==> !a.unavailable && !a.pc.seen && row.None?)
    && (a.pc.state == ErasureConflict <==> !a.unavailable && a.pc.seen && row.Some?)
    && (a.pc.state == ErasedState <==> !a.unavailable && a.pc.seen && row.None?)
    && a.pc.payload == if a.pc.state == Present then row else None
  }

  ghost predicate ShownFrom(id: string, w: World, acts: seq<Act>, i: nat, a: Audit) {
    exists k :: ReadsRowAt(id, w, acts, k, i) && ShowsRow(a, Run(id, w, acts[..k]).row)
  }

  lemma {:induction false} ReadShows(id: string, log: Log, row: Option<string>, a: Audit, choice: Choice)
    requires !a.pc.Shown? && StepAudit(id, log, row, a, choice).pc.Shown?
    ensures a.pc.ReadRow? && ShowsRow(StepAudit(id, log, row, a, choice), row)
  {
  }

  lemma {:induction false} OnlyAuditSteps(id: string, w: World, act: Act, i: nat)
    requires i < |Apply(id, w, act).audits|
    ensures i >= |w.audits| ==> Apply(id, w, act).audits[i].pc.ReadTombstones?
    ensures i < |w.audits| && !(act.AuditStep? && act.i == i) ==> Apply(id, w, act).audits[i] == w.audits[i]
    ensures i < |w.audits| && act.AuditStep? && act.i == i ==>
              Apply(id, w, act).audits[i] == StepAudit(id, w.log, w.row, w.audits[i], act.choice)
  {
  }

  lemma {:induction false} ShownOnward(id: string, w: World, init: seq<Act>, act: Act, i: nat, a: Audit)
    requires ShownFrom(id, w, init, i, a)
    ensures ShownFrom(id, w, init + [act], i, a)
  {
    var k :| ReadsRowAt(id, w, init, k, i) && ShowsRow(a, Run(id, w, init[..k]).row);
    assert (init + [act])[..k] == init[..k];
    assert ReadsRowAt(id, w, init + [act], k, i);
  }

  /** What an audit shows it read: the row as it was at the one step of the run that read it. */
  lemma {:induction false} ShownIsRead(id: string, w: World, acts: seq<Act>, i: nat)
    requires w.audits == [] && i < |Run(id, w, acts).audits| && Run(id, w, acts).audits[i].pc.Shown?
    ensures ShownFrom(id, w, acts, i, Run(id, w, acts).audits[i])
    decreases |acts|
  {
    var init, act := acts[..|acts| - 1], acts[|acts| - 1];
    assert acts == init + [act];
    RunSnoc(id, w, init, act);
    var u := Run(id, w, init);
    OnlyAuditSteps(id, u, act, i);
    if u.audits[i].pc.Shown? {
      ShownIsRead(id, w, init, i);
      ShownOnward(id, w, init, act, i, u.audits[i]);
    } else {
      ReadShows(id, u.log, u.row, u.audits[i], act.choice);
      assert acts[..|init|] == init;
      assert ReadsRowAt(id, w, acts, |init|, i);
    }
  }

  // ----- where a row comes from -----

  /** Some content write of the run was asked to store this. */
  predicate Offered(acts: seq<Act>, payload: string) { StartWrite(payload) in acts }

  lemma {:induction false} WritersWereOffered(id: string, w: World, acts: seq<Act>)
    requires w.writers == []
    ensures forall j :: 0 <= j < |Run(id, w, acts).writers| ==> Offered(acts, Run(id, w, acts).writers[j].payload)
    decreases |acts|
  {
    if acts != [] {
      var init, act := acts[..|acts| - 1], acts[|acts| - 1];
      assert acts == init + [act];
      RunSnoc(id, w, init, act);
      WritersWereOffered(id, w, init);
      var u, v := Run(id, w, init), Run(id, w, acts);
      forall j | 0 <= j < |v.writers| ensures Offered(acts, v.writers[j].payload) {
        WriterKeepsPayload(id, u, act, j);
        assert act in acts;
      }
    }
  }

  lemma {:induction false} WriterKeepsPayload(id: string, u: World, act: Act, j: nat)
    requires j < |Apply(id, u, act).writers|
    ensures if j < |u.writers| then Apply(id, u, act).writers[j].payload == u.writers[j].payload
            else act == StartWrite(Apply(id, u, act).writers[j].payload)
  {
  }

  /** A row that is there was there from the start, or is what some content write was asked to store. */
  lemma {:induction false} RowHasASource(id: string, w: World, acts: seq<Act>)
    requires w.writers == []
    ensures var row := Run(id, w, acts).row; row.Some? ==> row == w.row || Offered(acts, row.value)
    decreases |acts|
  {
    if acts != [] {
      var init, act := acts[..|acts| - 1], acts[|acts| - 1];
      assert acts == init + [act];
      RunSnoc(id, w, init, act);
      RowHasASource(id, w, init);
      WritersWereOffered(id, w, init);
      RowStep(id, Run(id, w, init), act);
    }
  }

  lemma {:induction false} RowStep(id: string, u: World, act: Act)
    ensures var row := Apply(id, u, act).row;
            || row == u.row || row.None?
            || exists j :: 0 <= j < |u.writers| && row == Some(u.writers[j].payload)
  {
    if act.WriteStep? && act.i < |u.writers| { assert Apply(id, u, act).row == u.row || Apply(id, u, act).row == Some(u.writers[act.i].payload); }
  }

  // ----- main result -----

  /** What an audit shows agrees with the ledger prefix its own tombstone read covered and with the row as it was
      when the audit read it, whatever racing writers left behind: arguments come back only where that prefix ends
      with no erasure record, and are then exactly that row's, which was there from the start or was offered by a
      content write of the run; "erased" and "erasure_conflict" only where it ends with one; and "lost" exactly
      where it does not and there was no row. */
  lemma {:induction false} AuditsTellErasedFromLost(id: string, w: World, acts: seq<Act>, i: nat)
    requires Idle(w)
    requires i < |Run(id, w, acts).audits| && Run(id, w, acts).audits[i].pc.Shown?
    ensures var end := Run(id, w, acts);
            var a := end.audits[i];
            && a.at <= |end.log|
            && a.pc.seen == Confirmed(id, Get(end.log[..a.at], TombstoneKey(id)), None)
            && ShownFrom(id, w, acts, i, a)
            && (a.pc.payload.Some? ==> a.pc.payload == w.row || Offered(acts, a.pc.payload.value))
  {
    RunKeeps(id, w, acts);
    ShownIsRead(id, w, acts, i);
    var a := Run(id, w, acts).audits[i];
    var k :| ReadsRowAt(id, w, acts, k, i) && ShowsRow(a, Run(id, w, acts[..k]).row);
    RowHasASource(id, w, acts[..k]);
    assert acts == acts[..k] + acts[k..];
  }

  // ----- what a DELETE answers -----

  /** Step `k` is DELETE `i` looking for its row and finding none. */
  ghost predicate FindsNoneAt(id: string, w: World, acts: seq<Act>, k: int, i: nat) {
    && 0 <= k < |acts| && acts[k].DeleteStep? && acts[k].i == i && !acts[k].choice.Fail?
    && var u := Run(id, w, acts[..k]); i < |u.deletes| && u.deletes[i].pc.FindRow? && u.row.None?
  }

  /** Step `k` is DELETE `i` deleting the row. */
  ghost predicate DeletesAt(id: string, w: World, acts: seq<Act>, k: int, i: nat) {
    && 0 <= k < |acts| && acts[k].DeleteStep? && acts[k].i == i && !acts[k].choice.Fail?
    && var u := Run(id, w, acts[..k]); i < |u.deletes| && u.deletes[i].pc.DeleteRow?
  }

  predicate NowFindsNone(u: World, act: Act, i: nat) {
    act.DeleteStep? && act.i == i && !act.choice.Fail? && i < |u.deletes| && u.deletes[i].pc.FindRow? && u.row.None?
  }

  predicate NowDeletes(u: World, act: Act, i: nat) {
    act.DeleteStep? && act.i == i && !act.choice.Fail? && i < |u.deletes| && u.deletes[i].pc.DeleteRow?
  }

  lemma {:induction false} EventsOnward(id: string, w: World, init: seq<Act>, act: Act, k: int, i: nat)
    ensures FindsNoneAt(id, w, init + [act], k, i) <==>
              FindsNoneAt(id, w, init, k, i) || (k == |init| && NowFindsNone(Run(id, w, init), act, i))
    ensures DeletesAt(id, w, init + [act], k, i) <==>
              DeletesAt(id, w, init, k, i) || (k == |init| && NowDeletes(Run(id, w, init), act, i))
  {
    assert 0 <= k <= |init| ==> (init + [act])[..k] == init[..k];
    assert init[..|init|] == init;
  }

  lemma {:induction false} OutcomeStep(id: string, u: World, act: Act, i: nat)
    requires i < |Apply(id, u, act).deletes|
    ensures var d := Apply(id, u, act).deletes[i];
            && (d.pc == Finished(NothingToErase) <==>
                  NowFindsNone(u, act, i) || (i < |u.deletes| && u.deletes[i].pc == Finished(NothingToErase)))
            && (d.pc == Finished(Erased) <==>
                  NowDeletes(u, act, i) || (i < |u.deletes| && u.deletes[i].pc == Finished(Erased)))
  {
  }

  /** A DELETE answers that there was nothing to erase if and only if it looked and found no row, and that it
      erased if and only if it deleted the row. */
  lemma {:induction false} OutcomeIsExact(id: string, w: World, acts: seq<Act>, i: nat)
    requires w.deletes == [] && i < |Run(id, w, acts).deletes|
    ensures var pc := Run(id, w, acts).deletes[i].pc;
            && (pc == Finished(NothingToErase) <==> exists k :: FindsNoneAt(id, w, acts, k, i))
            && (pc == Finished(Erased) <==> exists k :: DeletesAt(id, w, acts, k, i))
    decreases |acts|
  {
    if acts != [] {
      var init, act := acts[..|acts| - 1], acts[|acts| - 1];
      assert acts == init + [act];
      RunSnoc(id, w, init, act);
      var u := Run(id, w, init);
      OutcomeStep(id, u, act, i);
      forall k ensures FindsNoneAt(id, w, acts, k, i) <==> FindsNoneAt(id, w, init, k, i) || (k == |init| && NowFindsNone(u, act, i))
               ensures DeletesAt(id, w, acts, k, i) <==> DeletesAt(id, w, init, k, i) || (k == |init| && NowDeletes(u, act, i))
      {
        EventsOnward(id, w, init, act, k, i);
      }
      if NowFindsNone(u, act, i) { assert FindsNoneAt(id, w, acts, |init|, i); }
      if NowDeletes(u, act, i) { assert DeletesAt(id, w, acts, |init|, i); }
      if i < |u.deletes| {
        OutcomeIsExact(id, w, init, i);
        if k :| FindsNoneAt(id, w, init, k, i) { assert FindsNoneAt(id, w, acts, k, i); }
        if k :| DeletesAt(id, w, init, k, i) { assert DeletesAt(id, w, acts, k, i); }
      } else {
        NoEventsBefore(id, w, init, i);
      }
    }
  }

  lemma {:induction false} DeletesGrow(id: string, w: World, acts: seq<Act>)
    ensures |w.deletes| <= |Run(id, w, acts).deletes|
    decreases |acts|
  {
    if acts != [] { DeletesGrow(id, Apply(id, w, acts[0]), acts[1..]); }
  }

  lemma {:induction false} RunSplit(id: string, w: World, a: seq<Act>, b: seq<Act>)
    ensures Run(id, w, a + b) == Run(id, Run(id, w, a), b)
    decreases |a|
  {
    if a == [] {
      assert a + b == b;
    } else {
      assert (a + b)[1..] == a[1..] + b;
      RunSplit(id, Apply(id, w, a[0]), a[1..], b);
    }
  }

  lemma {:induction false} NoEventsBefore(id: string, w: World, acts: seq<Act>, i: nat)
    requires i >= |Run(id, w, acts).deletes|
    ensures forall k :: !FindsNoneAt(id, w, acts, k, i) && !DeletesAt(id, w, acts, k, i)
  {
    forall k | 0 <= k < |acts| ensures i >= |Run(id, w, acts[..k]).deletes| {
      RunSplit(id, w, acts[..k], acts[k..]);
      assert acts[..k] + acts[k..] == acts;
      DeletesGrow(id, Run(id, w, acts[..k]), acts[k..]);
    }
  }

  // ----- what the verifier answers a DELETE -----

  /** What each reply to the tombstone write rests on, and when the write could not be built. */
  predicate ReplyRestsOn(id: string, log: Log, d: Delete, choice: Choice, reply: Reply) {
    var seen := if choice.Read? then Seen(id, log, choice.n) else None;
    match reply
    case Verified(tx) => d.pc.OnWire? && choice.Proceed? && d.wire == Landed(tx)
    case Unproved(tx) =>
      && seen.Some? && seen.value.tx == tx
      && (d.pc.ReadAfterProof? || (d.pc.ReadAfterError? && seen.value.value == ErasureRecord(id, d.stamp)))
    case NotCommitted =>
      || (d.pc.VerifierClient? && choice.Fail?)
      || (d.pc.ReadAfterError? && seen.Some? && seen.value.value != ErasureRecord(id, d.stamp))
    case NotEstablished => (d.pc.ReadAfterProof? || d.pc.ReadAfterError?) && !choice.GiveUp? && seen.None?
  }

  /** Step `k` of the run is DELETE `i` being answered so by the verifier. */
  ghost predicate AnsweredAt(id: string, w: World, acts: seq<Act>, k: int, i: nat, reply: Reply) {
    && 0 <= k < |acts| && acts[k].DeleteStep? && acts[k].i == i
    && var u := Run(id, w, acts[..k]); i < |u.deletes| && ReplyRestsOn(id, u.log, u.deletes[i], acts[k].choice, reply)
  }

  lemma {:induction false} ReplyStep(id: string, log: Log, row: Option<string>, d: Delete, choice: Choice)
    requires !d.pc.Answered? && StepDelete(id, log, row, d, choice).1.pc.Answered?
    ensures ReplyRestsOn(id, log, d, choice, StepDelete(id, log, row, d, choice).1.pc.reply)
  {
  }

  lemma {:induction false} OnlyDeleteSteps(id: string, u: World, act: Act, i: nat)
    requires i < |Apply(id, u, act).deletes|
    ensures i >= |u.deletes| ==> Apply(id, u, act).deletes[i].pc.FindRow?
    ensures i < |u.deletes| && !(act.DeleteStep? && act.i == i) ==> Apply(id, u, act).deletes[i].pc == u.deletes[i].pc
    ensures i < |u.deletes| && act.DeleteStep? && act.i == i ==>
              Apply(id, u, act).deletes[i] == StepDelete(id, u.log, u.row, u.deletes[i], act.choice).1
  {
  }

  /** Committed false is answered only for a write that was never sent or for other bytes under the key; null only
      where the read back failed or found nothing; and committed true only over the transaction that was proved or
      read, with this DELETE's own bytes where the write's fate was unknown. */
  lemma {:induction false} RepliesAreExact(id: string, w: World, acts: seq<Act>, i: nat)
    requires w.deletes == [] && i < |Run(id, w, acts).deletes| && Run(id, w, acts).deletes[i].pc.Answered?
    ensures exists k :: AnsweredAt(id, w, acts, k, i, Run(id, w, acts).deletes[i].pc.reply)
    decreases |acts|
  {
    var init, act := acts[..|acts| - 1], acts[|acts| - 1];
    assert acts == init + [act];
    RunSnoc(id, w, init, act);
    var u := Run(id, w, init);
    var reply := Run(id, w, acts).deletes[i].pc.reply;
    OnlyDeleteSteps(id, u, act, i);
    if u.deletes[i].pc.Answered? {
      RepliesAreExact(id, w, init, i);
      var k :| AnsweredAt(id, w, init, k, i, reply);
      assert acts[..k] == init[..k] && acts[k] == init[k];
      assert AnsweredAt(id, w, acts, k, i, reply);
    } else {
      ReplyStep(id, u.log, u.row, u.deletes[i], act.choice);
      assert acts[..|init|] == init;
      assert AnsweredAt(id, w, acts, |init|, i, reply);
    }
  }
}
