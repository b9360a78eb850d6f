/** What becomes of one queued message: retried after a refusal, given up at the
    fifth, and sent as soon as the mail server takes it. */
module DeliveryRuns {
  import opened Domain
  import opened Outbox
  import opened OutboxRuns

  /** The new message of a draft is pending, untried and due at the draft's time. */
  lemma QueuedIsPending(t: Table, d: Draft)
    requires ValidTable(t) && !(exists id :: Holder(t, d.key, id) && t.rows[id].body == d.body && t.rows[id].recipient == d.recipient)
    ensures var after := UpsertSpec(t, d);
            exists id :: id in after.rows
                         && after.rows == t.rows[id := Message(d.kind, d.user, d.recipient, d.subject, d.body, d.key, Pending, 0, d.at, 0)]
                         && (id in t.rows ==> d.key != "" && t.rows[id].key == d.key)
  {
    var id := Slot(t, d.key);
    SlotIs(t, d.key, id);
    assert id in t.rows ==> Holder(t, d.key, id);
    assert UpsertSpec(t, d).rows == t.rows[id := Fresh(d)];
  }

  /** Queueing the same content again under its key keeps what was done with it. */
  lemma RequeuedKeepsProgress(t: Table, d: Draft, id: nat)
    requires ValidTable(t) && Holder(t, d.key, id) && t.rows[id].body == d.body && t.rows[id].recipient == d.recipient
    ensures UpsertSpec(t, d) == t.(rows := t.rows[id := t.rows[id].(kind := d.kind, user := d.user, subject := d.subject)])
  {
    SlotIs(t, d.key, Slot(t, d.key));
    assert Slot(t, d.key) == id;
  }

  /** Every way one delivery can go, for a row that is as it was listed. */
  lemma DeliveryOutcome(t: Table, listed: Listed, now: Time, retry: Time)
    requires listed.id in t.rows && t.rows[listed.id] == listed.message && listed.message.status == Pending
    ensures var id, m := listed.id, listed.message;
            && DeliverOne(t, listed, true, true, now, retry) == (t.(rows := t.rows[id := m.(status := Sent, sentAt := now)]), Accepted)
            && DeliverOne(t, listed, true, false, now, retry)
               == (t.(rows := t.rows[id := m.(attempts := m.attempts + 1, nextAttemptAt := now + retry,
                                              status := if m.attempts + 1 < 5 then Pending else Canceled)]), Refused)
            && (forall sendOk :: DeliverOne(t, listed, false, sendOk, now, retry) == (t.(rows := t.rows[id := m.(status := Canceled)]), Dropped))
  {
  }

  /** A cancellation ends exactly the pending rows it names. */
  lemma CancelEndsPending(t: Table, ids: set<nat>, id: nat)
    requires id in t.rows
    ensures CancelAll(t, ids).rows.Keys == t.rows.Keys
    ensures CancelAll(t, ids).rows[id] == if id in ids && t.rows[id].status == Pending then t.rows[id].(status := Canceled) else t.rows[id]
  {
  }

  // ---------------------------------------------------------------------
  // One message over a run

  /** The step delivers the message. */
  ghost predicate Delivers(s: System, step: Step, id: nat) {
    step.DeliverNext? && s.batch != [] && s.batch[0].listed.id == id
  }

  /** Nobody cancels the message or replaces its content, and it stays current. */
  ghost predicate Undisturbed(s: System, step: Step, id: nat) {
    match step
    case Upsert(d) => Slot(s.table, d.key) == id && id in s.table.rows ==> !Differs(s.table.rows[id], d)
    case Cancel(ids) => id !in ids
    case DeliverNext(current, _, _) => Delivers(s, step, id) ==> current
    case _ => true
  }

  /** How often the message was refused, and whether it was accepted. */
  datatype Record = Record(refusals: nat, accepted: bool)

  /** The first `n` steps as the mail server saw them, up to the fifth refusal. */
  ghost function RecordOf(trace: seq<System>, steps: seq<Step>, id: nat, n: nat): Record
    requires n <= |steps| < |trace|
  {
    if n == 0 then Record(0, false)
    else
      var before := RecordOf(trace, steps, id, n - 1);
      if !Delivers(trace[n - 1], steps[n - 1], id) || before.accepted || before.refusals == 5 then before
      else if steps[n - 1].sendOk then before.(accepted := true)
      else before.(refusals := before.refusals + 1)
  }

  /** The row tells what happened. */
  ghost predicate Tells(m: Message, r: Record) {
    if r.accepted then m.status == Sent
    else if r.refusals < 5 then m.status == Pending && m.attempts == r.refusals
    else m.status == Canceled
  }

  /** What a pass has listed of the message is what is stored. */
  ghost predicate ListedAs(s: System, id: nat) {
    forall i :: 0 <= i < |s.batch| && s.batch[i].listed.id == id && id in s.table.rows && s.table.rows[id].status == Pending ==>
      s.batch[i].listed.message.attempts == s.table.rows[id].attempts
  }

  lemma UpsertLeaves(s: System, d: Draft, id: nat)
    requires Inv(s) && id in s.table.rows && Undisturbed(s, Upsert(d), id) && ListedAs(s, id)
    ensures var after := Apply(s, Upsert(d));
            id in after.table.rows && after.table.rows[id].status == s.table.rows[id].status
            && after.table.rows[id].attempts == s.table.rows[id].attempts && ListedAs(after, id)
  {
    SlotIs(s.table, d.key, Slot(s.table, d.key));
  }

  lemma DeliveryLeavesOthers(s: System, step: Step, id: nat)
    requires Inv(s) && Enabled(s, step) && step.DeliverNext? && !Delivers(s, step, id) && id in s.table.rows && ListedAs(s, id)
    ensures var after := Apply(s, step);
            id in after.table.rows && after.table.rows[id] == s.table.rows[id] && ListedAs(after, id)
  {
    assert QueuedOk(s, s.batch[0]);
    var table := DeliverOneEffect(s.table, s.batch[0].listed, step.current, step.sendOk, s.now, step.retry);
    var after := Apply(s, step);
    forall i | 0 <= i < |after.batch| ensures after.batch[i] == s.batch[i + 1] {
    }
  }

  lemma DeliveryIsRecorded(s: System, step: Step, id: nat, r: Record)
    requires Inv(s) && Enabled(s, step) && Delivers(s, step, id) && Undisturbed(s, step, id)
    requires id in s.table.rows && ListedAs(s, id) && Tells(s.table.rows[id], r) && r.refusals <= 5
    ensures var after := Apply(s, step);
            && id in after.table.rows && ListedAs(after, id)
            && Tells(after.table.rows[id], if r.accepted || r.refusals == 5 then r
                                           else if step.sendOk then r.(accepted := true) else r.(refusals := r.refusals + 1))
  {
    assert QueuedOk(s, s.batch[0]);
    var after := Apply(s, step);
    forall i | 0 <= i < |after.batch| ensures after.batch[i].listed.id != id {
      assert after.batch[i] == s.batch[i + 1];
    }
  }

  lemma BeginLists(s: System, now: Time, batch: seq<Listed>, id: nat)
    requires Inv(s) && Enabled(s, BeginPass(now, batch))
    ensures ListedAs(Apply(s, BeginPass(now, batch)), id)
  {
  }

  lemma StepIsRecorded(s: System, step: Step, id: nat, r: Record)
    requires Inv(s) && Enabled(s, step) && Undisturbed(s, step, id)
    requires id in s.table.rows && ListedAs(s, id) && Tells(s.table.rows[id], r) && r.refusals <= 5
    ensures var after := Apply(s, step);
            && id in after.table.rows && ListedAs(after, id)
            && Tells(after.table.rows[id], if !Delivers(s, step, id) || r.accepted || r.refusals == 5 then r
                                           else if step.sendOk then r.(accepted := true) else r.(refusals := r.refusals + 1))
  {
    match step
    case Upsert(d) => UpsertLeaves(s, d, id);
    case BeginPass(now, batch) => BeginLists(s, now, batch, id);
    case DeliverNext(_, _, _) =>
      if Delivers(s, step, id) {
        DeliveryIsRecorded(s, step, id, r);
      } else {
        DeliveryLeavesOthers(s, step, id);
      }
    case _ =>
  }

  /** Over any run that leaves it undisturbed, a message that is queued stays
      pending through up to four refusals, is given up at the fifth, and is marked
      as sent when it is accepted before. */
  lemma MessageIsRetried(trace: seq<System>, steps: seq<Step>, id: nat, n: nat)
    requires n <= |steps| && |trace| == |steps| + 1 && Inv(trace[0])
    requires forall k :: 0 <= k < |steps| && Inv(trace[k]) ==> Enabled(trace[k], steps[k]) && trace[k + 1] == Apply(trace[k], steps[k])
    requires forall k :: 0 <= k < n ==> Undisturbed(trace[k], steps[k], id)
    requires id in trace[0].table.rows && trace[0].table.rows[id].status == Pending && trace[0].table.rows[id].attempts == 0
    requires ListedAs(trace[0], id)
    ensures Inv(trace[n]) && id in trace[n].table.rows && Tells(trace[n].table.rows[id], RecordOf(trace, steps, id, n))
  {
    for k := 0 to n
      invariant Inv(trace[k]) && id in trace[k].table.rows && ListedAs(trace[k], id)
      invariant RecordOf(trace, steps, id, k).refusals <= 5 && Tells(trace[k].table.rows[id], RecordOf(trace, steps, id, k))
    {
      StepKeepsInv(trace[k], steps[k]);
      StepIsRecorded(trace[k], steps[k], id, RecordOf(trace, steps, id, k));
    }
  }

  /** In particular one that was refused four times and is then accepted is sent. */
  lemma SentAfterFourRefusals(trace: seq<System>, steps: seq<Step>, id: nat, n: nat)
    requires n < |steps| && |trace| == |steps| + 1 && Inv(trace[0])
    requires forall k :: 0 <= k < |steps| && Inv(trace[k]) ==> Enabled(trace[k], steps[k]) && trace[k + 1] == Apply(trace[k], steps[k])
    requires forall k :: 0 <= k <= n ==> Undisturbed(trace[k], steps[k], id)
    requires id in trace[0].table.rows && trace[0].table.rows[id].status == Pending && trace[0].table.rows[id].attempts == 0
    requires ListedAs(trace[0], id) && RecordOf(trace, steps, id, n) == Record(4, false)
    requires Delivers(trace[n], steps[n], id) && steps[n].sendOk
    ensures id in trace[n].table.rows && trace[n].table.rows[id].status == Pending && trace[n].table.rows[id].attempts == 4
    ensures id in trace[n + 1].table.rows && trace[n + 1].table.rows[id].status == Sent
  {
    MessageIsRetried(trace, steps, id, n);
    MessageIsRetried(trace, steps, id, n + 1);
  }
}
