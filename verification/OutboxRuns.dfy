/** The outbox over whole runs: upserts and cancellations interleaved at any
    point with delivery passes, one pass at a time. */
module OutboxRuns {
  import opened Domain
  import opened Outbox

  /** A row listed for a pass, with the content version it had then. */
  datatype Queued = Queued(listed: Listed, version: nat)

  /** One message handed to the mail server. */
  datatype Sending = Sending(id: nat, version: nat, ok: bool)

  /** `version` counts how often a row's content was replaced, `log` holds every
      message handed to the mail server, `batch` is what the current pass still has to do. */
  datatype System = System(table: Table, batch: seq<Queued>, now: Time, version: map<nat, nat>, log: multiset<Sending>)

  datatype Step =
    | Upsert(draft: Draft)
    | Cancel(ids: set<nat>)
    | BeginPass(now: Time, batch: seq<Listed>)
    | DeliverNext(current: bool, sendOk: bool, retry: Time)
    | AbandonPass

  ghost predicate Enabled(s: System, step: Step) {
    match step
    case BeginPass(now, batch) => s.batch == [] && IsBatch(s.table, now, BATCH_SIZE, batch)
    case DeliverNext(_, _, _) => s.batch != []
    case _ => true
  }

  ghost function VersionAfter(s: System, d: Draft): map<nat, nat>
    requires s.version.Keys == s.table.rows.Keys
  {
    var id := Slot(s.table, d.key);
    if id !in s.table.rows then s.version[id := 0]
    else if Differs(s.table.rows[id], d) then s.version[id := s.version[id] + 1]
    else s.version
  }

  ghost function Apply(s: System, step: Step): System
    requires Enabled(s, step) && s.version.Keys == s.table.rows.Keys
  {
    match step
    case Upsert(d) => s.(table := UpsertSpec(s.table, d), version := VersionAfter(s, d))
    case Cancel(ids) => s.(table := CancelAll(s.table, ids))
    case BeginPass(now, batch) =>
      s.(now := now, batch := seq(|batch|, i requires 0 <= i < |batch| =>
                                    Queued(batch[i], if batch[i].id in s.version then s.version[batch[i].id] else 0)))
    case DeliverNext(current, sendOk, retry) =>
      var q := s.batch[0];
      var (table, fate) := DeliverOne(s.table, q.listed, current, sendOk, s.now, retry);
      s.(table := table, batch := if fate == Aborted then [] else s.batch[1..],
         log := if current then s.log + multiset{Sending(q.listed.id, q.version, sendOk)} else s.log)
    case AbandonPass => s.(batch := [])
  }

  function Tries(s: System, id: nat, version: nat): nat {
    s.log[Sending(id, version, true)] + s.log[Sending(id, version, false)]
  }

  function Successes(s: System, id: nat, version: nat): nat {
    s.log[Sending(id, version, true)]
  }

  // ---------------------------------------------------------------------
  // The invariant

  ghost predicate RowOk(s: System, id: nat)
    requires id in s.table.rows && id in s.version
  {
    var m := s.table.rows[id];
    m.status == Pending ==> m.attempts < MAX_ATTEMPTS && Tries(s, id, s.version[id]) <= m.attempts && Successes(s, id, s.version[id]) == 0
  }

  /** No version was tried or sent too often, and none before it existed. */
  ghost predicate LogOk(s: System, id: nat, version: nat) {
    && Tries(s, id, version) <= MAX_ATTEMPTS && Successes(s, id, version) <= 1
    && (id !in s.version || version > s.version[id] ==> Tries(s, id, version) == 0)
  }

  ghost predicate QueuedOk(s: System, q: Queued) {
    var id, m := q.listed.id, q.listed.message;
    && id in s.table.rows && id in s.version && q.version <= s.version[id]
    && m.attempts < MAX_ATTEMPTS && Tries(s, id, q.version) <= m.attempts && Successes(s, id, q.version) == 0
    && (q.version < s.version[id] && s.table.rows[id].status == Pending ==>
          s.table.rows[id].attempts == 0 && Tries(s, id, s.version[id]) == 0)
  }

  ghost predicate Inv(s: System) {
    && ValidTable(s.table) && s.version.Keys == s.table.rows.Keys
    && (forall id :: id in s.table.rows ==> RowOk(s, id))
    && (forall id, version :: LogOk(s, id, version))
    && (forall i :: 0 <= i < |s.batch| ==> QueuedOk(s, s.batch[i]))
    && (forall i, j :: 0 <= i < j < |s.batch| ==> s.batch[i].listed.id != s.batch[j].listed.id)
  }

  lemma SlotIs(t: Table, key: string, id: nat)
    requires ValidTable(t) && id == Slot(t, key)
    ensures id in t.rows ==> key != "" && t.rows[id].key == key
    ensures id !in t.rows ==> id == t.next && forall other :: other in t.rows && key != "" ==> t.rows[other].key != key
  {
    if other :| Holder(t, key, other) {
      assert Holder(t, key, id);
    } else {
      forall other | other in t.rows && key != "" ensures t.rows[other].key != key {
        assert !Holder(t, key, other);
      }
    }
  }

  lemma UpsertKeepsTable(t: Table, d: Draft)
    requires ValidTable(t)
    ensures ValidTable(UpsertSpec(t, d))
  {
    SlotIs(t, d.key, Slot(t, d.key));
  }

  lemma UpsertKeepsInv(s: System, d: Draft)
    requires Inv(s)
    ensures Inv(Apply(s, Upsert(d)))
  {
    var after := Apply(s, Upsert(d));
    var slot := Slot(s.table, d.key);
    SlotIs(s.table, d.key, slot);
    UpsertKeepsTable(s.table, d);
    assert LogOk(s, slot, if slot in s.version then s.version[slot] + 1 else 0);
    forall id | id in after.table.rows ensures RowOk(after, id) {
      assert id in s.table.rows ==> RowOk(s, id);
    }
    forall id, version ensures LogOk(after, id, version) {
      assert LogOk(s, id, version);
    }
    forall i | 0 <= i < |after.batch| ensures QueuedOk(after, after.batch[i]) {
      assert QueuedOk(s, s.batch[i]);
    }
  }

  lemma CancelKeepsInv(s: System, ids: set<nat>)
    requires Inv(s)
    ensures Inv(Apply(s, Cancel(ids)))
  {
    var after := Apply(s, Cancel(ids));
    assert after.table.rows.Keys == s.table.rows.Keys;
    forall id | id in after.table.rows ensures RowOk(after, id) {
      assert RowOk(s, id);
    }
    forall id, version ensures LogOk(after, id, version) {
      assert LogOk(s, id, version);
    }
    forall i | 0 <= i < |after.batch| ensures QueuedOk(after, after.batch[i]) {
      assert QueuedOk(s, s.batch[i]);
    }
  }

  lemma BeginKeepsInv(s: System, now: Time, batch: seq<Listed>)
    requires Inv(s) && Enabled(s, BeginPass(now, batch))
    ensures Inv(Apply(s, BeginPass(now, batch)))
  {
    var after := Apply(s, BeginPass(now, batch));
    forall id | id in after.table.rows ensures RowOk(after, id) {
      assert RowOk(s, id);
    }
    forall id, version ensures LogOk(after, id, version) {
      assert LogOk(s, id, version);
    }
    forall i | 0 <= i < |after.batch| ensures QueuedOk(after, after.batch[i]) {
      assert RowOk(s, batch[i].id);
    }
    forall i, j | 0 <= i < j < |after.batch| ensures after.batch[i].listed.id != after.batch[j].listed.id {
      assert Before(batch[i], batch[j]);
    }
  }

  lemma DeliverOneEffect(t: Table, listed: Listed, current: bool, sendOk: bool, now: Time,
                         retry: Time) returns (after: Table)
    requires listed.id in t.rows
    ensures after == DeliverOne(t, listed, current, sendOk, now, retry).0 && after.next == t.next
    ensures listed.id in after.rows && after.rows == t.rows[listed.id := after.rows[listed.id]]
    ensures var m, r := t.rows[listed.id], after.rows[listed.id];
            && r.key == m.key && r.body == m.body && r.recipient == m.recipient
            && (m.status != Pending ==> r == m)
            && (r.status == Pending && m.status == Pending ==>
                  current && !sendOk && r.attempts == listed.message.attempts + 1 < MAX_ATTEMPTS)
  {
    after := DeliverOne(t, listed, current, sendOk, now, retry).0;
    assert t.rows == t.rows[listed.id := t.rows[listed.id]];
  }

  lemma LogGrows(s: System, after: System, q: Queued, current: bool, sendOk: bool)
    requires QueuedOk(s, q) && after.version == s.version && (forall id, version :: LogOk(s, id, version))
    requires after.log == if current then s.log + multiset{Sending(q.listed.id, q.version, sendOk)} else s.log
    ensures forall id, version :: LogOk(after, id, version)
    ensures forall id, version :: id != q.listed.id || version != q.version ==>
              Tries(after, id, version) == Tries(s, id, version) && Successes(after, id, version) == Successes(s, id, version)
    ensures Tries(after, q.listed.id, q.version) <= Tries(s, q.listed.id, q.version) + 1
    ensures !(current && sendOk) ==> Successes(after, q.listed.id, q.version) == Successes(s, q.listed.id, q.version)
    ensures !current ==> Tries(after, q.listed.id, q.version) == Tries(s, q.listed.id, q.version)
  {
    forall id, version ensures LogOk(after, id, version) {
      assert LogOk(s, id, version);
    }
  }

  lemma DeliverKeepsRow(s: System, after: System, q: Queued, current: bool, sendOk: bool, retry: Time)
    requires QueuedOk(s, q) && RowOk(s, q.listed.id) && after.version == s.version
    requires (forall id, version :: LogOk(s, id, version))
    requires after.log == if current then s.log + multiset{Sending(q.listed.id, q.version, sendOk)} else s.log
    requires after.table == DeliverOne(s.table, q.listed, current, sendOk, s.now, retry).0
    ensures q.listed.id in after.table.rows && RowOk(after, q.listed.id)
  {
  }

  /** Only row `id` and the log entries about it differ. */
  ghost predicate OnlyAt(s: System, after: System, id: nat) {
    && after.version == s.version && id in s.table.rows && id in after.table.rows
    && after.table.rows == s.table.rows[id := after.table.rows[id]]
    && (forall other, version :: other != id ==>
          Tries(after, other, version) == Tries(s, other, version) && Successes(after, other, version) == Successes(s, other, version))
  }

  lemma OthersStay(s: System, after: System, id: nat, q: Queued)
    requires OnlyAt(s, after, id) && QueuedOk(s, q) && q.listed.id != id
    ensures QueuedOk(after, q)
  {
  }

  lemma RowsStay(s: System, after: System, id: nat)
    requires OnlyAt(s, after, id) && s.version.Keys == s.table.rows.Keys && RowOk(after, id)
    requires forall other :: other in s.table.rows ==> RowOk(s, other)
    ensures forall other :: other in after.table.rows ==> RowOk(after, other)
  {
  }

  lemma TableStays(t: Table, after: Table, id: nat)
    requires ValidTable(t) && id in t.rows && id in after.rows && after.next == t.next
    requires after.rows == t.rows[id := after.rows[id]] && after.rows[id].key == t.rows[id].key
    ensures ValidTable(after)
  {
  }

  lemma DeliverKeepsInv(s: System, current: bool, sendOk: bool, retry: Time)
    requires Inv(s) && s.batch != []
    ensures Inv(Apply(s, DeliverNext(current, sendOk, retry)))
  {
    var after := Apply(s, DeliverNext(current, sendOk, retry));
    var q := s.batch[0];
    assert QueuedOk(s, q);
    DeliverKeepsRow(s, after, q, current, sendOk, retry);
    LogGrows(s, after, q, current, sendOk);
    var table := DeliverOneEffect(s.table, q.listed, current, sendOk, s.now, retry);
    RowsStay(s, after, q.listed.id);
    TableStays(s.table, table, q.listed.id);
    forall i | 0 <= i < |after.batch| ensures QueuedOk(after, after.batch[i]) {
      assert after.batch[i] == s.batch[i + 1];
      OthersStay(s, after, q.listed.id, s.batch[i + 1]);
    }
  }

  lemma StepKeepsInv(s: System, step: Step)
    requires Inv(s) && Enabled(s, step)
    ensures Inv(Apply(s, step))
  {
    match step
    case Upsert(d) => UpsertKeepsInv(s, d);
    case Cancel(ids) => CancelKeepsInv(s, ids);
    case BeginPass(now, batch) => BeginKeepsInv(s, now, batch);
    case DeliverNext(current, sendOk, retry) => DeliverKeepsInv(s, current, sendOk, retry);
    case AbandonPass =>
      forall id, version ensures LogOk(Apply(s, step), id, version) {
        assert LogOk(s, id, version);
      }
      forall id | id in s.table.rows ensures RowOk(Apply(s, step), id) {
        assert RowOk(s, id);
      }
  }

  // ---------------------------------------------------------------------
  // What that means for a message

  ghost predicate Empty(s: System) {
    s == System(Table(map[], 1), [], 0, map[], multiset{})
  }

  /** Over any mix of upserts, cancellations and passes, a pending row has been
      tried fewer than 5 times, and each version of a row's content is handed to
      the mail server at most 5 times and accepted at most once. */
  lemma RunsKeepOutboxBounds(trace: seq<System>, steps: seq<Step>, i: nat, id: nat, version: nat)
    requires |trace| == |steps| + 1 && Empty(trace[0]) && i < |trace|
    requires forall k :: 0 <= k < |steps| && Inv(trace[k]) ==> Enabled(trace[k], steps[k]) && trace[k + 1] == Apply(trace[k], steps[k])
    ensures Inv(trace[i])
    ensures id in trace[i].table.rows && trace[i].table.rows[id].status == Pending ==> trace[i].table.rows[id].attempts < MAX_ATTEMPTS
    ensures Tries(trace[i], id, version) <= MAX_ATTEMPTS && Successes(trace[i], id, version) <= 1
  {
    for k := 0 to i
      invariant Inv(trace[k])
    {
      StepKeepsInv(trace[k], steps[k]);
    }
    assert LogOk(trace[i], id, version);
    assert id in trace[i].table.rows ==> RowOk(trace[i], id);
  }

  /** A sent or canceled row stays as it is until its body or recipient changes. */
  lemma FinalUntilContentChanges(s: System, step: Step, id: nat)
    requires Inv(s) && Enabled(s, step) && id in s.table.rows && s.table.rows[id].status != Pending
    ensures var after := Apply(s, step);
            && id in after.table.rows
            && (after.table.rows[id].status == s.table.rows[id].status
                || (after.version[id] == s.version[id] + 1 && after.table.rows[id].status == Pending
                    && (after.table.rows[id].body != s.table.rows[id].body || after.table.rows[id].recipient != s.table.rows[id].recipient)))
  {
    if step.Upsert? {
      SlotIs(s.table, step.draft.key, Slot(s.table, step.draft.key));
    }
  }

  /** A pass acts on the rows it listed: marking a row as sent means that its
      present content was sent exactly when nothing replaced the content between
      the listing and the delivery. */
  lemma SentMeansPresentContentIff(s: System, retry: Time)
    requires Inv(s) && s.batch != [] && IsPending(s.table, s.batch[0].listed.id)
    ensures var id, after := s.batch[0].listed.id, Apply(s, DeliverNext(true, true, retry));
            && id in after.table.rows && after.table.rows[id].status == Sent && after.version == s.version
            && (Successes(after, id, after.version[id]) == 1 <==> s.batch[0].version == s.version[id])
  {
    var q := s.batch[0];
    var id := q.listed.id;
    assert QueuedOk(s, q) && RowOk(s, id);
    LogGrows(s, Apply(s, DeliverNext(true, true, retry)), q, true, true);
  }

  /** The step leaves the content of every row a pass still has to do. */
  ghost predicate KeepsQueued(s: System, step: Step) {
    step.Upsert? ==> forall i :: 0 <= i < |s.batch| && s.batch[i].listed.id in s.table.rows && s.batch[i].listed.id == Slot(s.table, step.draft.key)
                       ==> !Differs(s.table.rows[s.batch[i].listed.id], step.draft)
  }

  ghost predicate SentOk(s: System, id: nat)
    requires id in s.table.rows && id in s.version
  {
    s.table.rows[id].status == Sent ==> Successes(s, id, s.version[id]) == 1
  }

  ghost predicate SentInv(s: System) {
    && Inv(s) && (forall id :: id in s.table.rows ==> SentOk(s, id))
    && (forall i :: 0 <= i < |s.batch| ==> s.batch[i].version == s.version[s.batch[i].listed.id])
  }

  lemma UpsertKeepsSent(s: System, d: Draft)
    requires SentInv(s) && KeepsQueued(s, Upsert(d))
    ensures SentInv(Apply(s, Upsert(d)))
  {
    UpsertKeepsInv(s, d);
    var after := Apply(s, Upsert(d));
    forall id | id in after.table.rows ensures SentOk(after, id) {
      assert id in s.table.rows ==> SentOk(s, id);
    }
    forall i | 0 <= i < |s.batch| ensures s.batch[i].version == after.version[s.batch[i].listed.id] {
      assert QueuedOk(s, s.batch[i]);
    }
  }

  lemma DeliverKeepsSent(s: System, current: bool, sendOk: bool, retry: Time)
    requires SentInv(s) && s.batch != []
    ensures SentInv(Apply(s, DeliverNext(current, sendOk, retry)))
  {
    DeliverKeepsInv(s, current, sendOk, retry);
    var after, q := Apply(s, DeliverNext(current, sendOk, retry)), s.batch[0];
    assert QueuedOk(s, q) && RowOk(s, q.listed.id);
    LogGrows(s, after, q, current, sendOk);
    var table := DeliverOneEffect(s.table, q.listed, current, sendOk, s.now, retry);
    forall id | id in after.table.rows ensures SentOk(after, id) {
      assert SentOk(s, id) && LogOk(after, id, after.version[id]);
    }
    forall i | 0 <= i < |after.batch| ensures after.batch[i].version == after.version[after.batch[i].listed.id] {
      assert after.batch[i] == s.batch[i + 1];
    }
  }

  lemma OthersKeepSent(s: System, step: Step)
    requires SentInv(s) && Enabled(s, step) && !step.Upsert? && !step.DeliverNext?
    ensures SentInv(Apply(s, step))
  {
    StepKeepsInv(s, step);
    var after := Apply(s, step);
    forall id | id in after.table.rows ensures SentOk(after, id) {
      assert SentOk(s, id);
    }
  }

  /** In a run that replaces no content while a pass has it listed, a row that is
      marked as sent has had its present content accepted exactly once. */
  lemma SentRowsWereSent(trace: seq<System>, steps: seq<Step>, i: nat, id: nat)
    requires |trace| == |steps| + 1 && Empty(trace[0]) && i < |trace|
    requires forall k :: 0 <= k < |steps| && Inv(trace[k]) ==> Enabled(trace[k], steps[k]) && trace[k + 1] == Apply(trace[k], steps[k])
    requires forall k :: 0 <= k < |steps| ==> KeepsQueued(trace[k], steps[k])
    ensures Inv(trace[i])
    ensures id in trace[i].table.rows && trace[i].table.rows[id].status == Sent ==> Successes(trace[i], id, trace[i].version[id]) == 1
  {
    for k := 0 to i
      invariant SentInv(trace[k])
    {
      match steps[k]
      case Upsert(d) => UpsertKeepsSent(trace[k], d);
      case DeliverNext(current, sendOk, retry) => DeliverKeepsSent(trace[k], current, sendOk, retry);
      case _ => OthersKeepSent(trace[k], steps[k]);
    }
    assert id in trace[i].table.rows ==> SentOk(trace[i], id);
  }

  /** A run in which it fails: content queued between the listing and the delivery
      is marked as sent although only the old content was sent. */
  lemma NewContentMarkedSentUnsent(s: System, d: Draft, retry: Time)
    requires Inv(s) && s.batch != [] && Holder(s.table, d.key, s.batch[0].listed.id)
    requires s.batch[0].version == s.version[s.batch[0].listed.id] && Differs(s.table.rows[s.batch[0].listed.id], d)
    ensures var id := s.batch[0].listed.id;
            var queued := Apply(s, Upsert(d));
            queued.version.Keys == queued.table.rows.Keys && Enabled(queued, DeliverNext(true, true, retry)) &&
            var after := Apply(queued, DeliverNext(true, true, retry));
            && after.table.rows[id].status == Sent && after.table.rows[id].body == d.body && after.table.rows[id].recipient == d.recipient
            && Tries(after, id, after.version[id]) == 0
  {
    var id := s.batch[0].listed.id;
    SlotIs(s.table, d.key, Slot(s.table, d.key));
    assert Slot(s.table, d.key) == id;
    assert LogOk(s, id, s.version[id] + 1);
    UpsertKeepsInv(s, d);
  }

  // ---------------------------------------------------------------------
  // Without new mail the queue drains

  function Left(m: Message): nat {
    if m.status == Pending && m.attempts < MAX_ATTEMPTS then MAX_ATTEMPTS - m.attempts else 0
  }

  /** The attempts that the pending rows still have. */
  ghost function AttemptsLeft(rows: map<nat, Message>): nat
    decreases |rows|
  {
    if rows == map[] then 0
    else
      var id :| id in rows;
      assert (rows - {id}).Keys == rows.Keys - {id};
      Left(rows[id]) + AttemptsLeft(rows - {id})
  }

  lemma {:induction false} AttemptsLeftWithout(rows: map<nat, Message>, id: nat)
    requires id in rows
    ensures AttemptsLeft(rows) == Left(rows[id]) + AttemptsLeft(rows - {id})
    decreases |rows|
  {
    var first :| first in rows && AttemptsLeft(rows) == Left(rows[first]) + AttemptsLeft(rows - {first});
    if first != id {
      assert (rows - {first}).Keys == rows.Keys - {first};
      assert (rows - {id}).Keys == rows.Keys - {id};
      AttemptsLeftWithout(rows - {first}, id);
      AttemptsLeftWithout(rows - {id}, first);
      assert rows - {first} - {id} == rows - {id} - {first};
    }
  }

  ghost predicate Bounded(t: Table) {
    forall id :: id in t.rows && t.rows[id].status == Pending ==> t.rows[id].attempts < MAX_ATTEMPTS
  }

  /** Nothing pending is scheduled after `time`. */
  ghost predicate DueBy(t: Table, time: Time) {
    forall id :: id in t.rows && t.rows[id].status == Pending ==> t.rows[id].nextAttemptAt <= time
  }

  /** The part of a batch from `i` on is as listed. */
  ghost predicate AsListed(t: Table, batch: seq<Listed>, i: nat) {
    && (forall k :: i <= k < |batch| ==> batch[k].id in t.rows && t.rows[batch[k].id] == batch[k].message && batch[k].message.status == Pending)
    && (forall k, l :: 0 <= k < l < |batch| ==> batch[k].id != batch[l].id)
  }

  lemma {:induction false} PassUsesAttempts(t: Table, batch: seq<Listed>, i: nat, current: seq<bool>,
                                            sendOk: seq<bool>, now: Time, retry: Time)
    requires i <= |batch| <= |current| && |batch| <= |sendOk|
    requires Bounded(t) && DueBy(t, now + retry) && AsListed(t, batch, i)
    ensures var after := DeliverFrom(t, batch, i, current, sendOk, now, retry);
            && Bounded(after) && DueBy(after, now + retry)
            && AttemptsLeft(after.rows) + (|batch| - i) <= AttemptsLeft(t.rows)
    decreases |batch| - i
  {
    if i < |batch| {
      var next := DeliverOneEffect(t, batch[i], current[i], sendOk[i], now, retry);
      var id := batch[i].id;
      AttemptsLeftWithout(t.rows, id);
      AttemptsLeftWithout(next.rows, id);
      assert next.rows - {id} == t.rows - {id};
      assert forall k :: i < k < |batch| ==> batch[k].id != id;
      PassUsesAttempts(next, batch, i + 1, current, sendOk, now, retry);
    }
  }

  lemma {:induction false} NoAttemptsLeft(t: Table)
    requires Bounded(t) && AttemptsLeft(t.rows) == 0
    ensures forall id :: id in t.rows ==> t.rows[id].status != Pending
  {
    forall id | id in t.rows ensures t.rows[id].status != Pending {
      AttemptsLeftWithout(t.rows, id);
    }
  }

  /** A pass over the whole queue with some outcome for each message. */
  datatype Pass = Pass(now: Time, batch: seq<Listed>, current: seq<bool>, sendOk: seq<bool>)

  ghost predicate PassOn(t: Table, p: Pass, retry: Time, after: Table) {
    && IsBatch(t, p.now, BATCH_SIZE, p.batch) && |p.batch| <= |p.current| && |p.batch| <= |p.sendOk|
    && after == DeliverFrom(t, p.batch, 0, p.current, p.sendOk, p.now, retry)
  }

  lemma PassMakesProgress(t: Table, p: Pass, retry: Time, after: Table)
    requires Bounded(t) && DueBy(t, p.now) && PassOn(t, p, retry, after)
    ensures Bounded(after) && DueBy(after, p.now + retry)
    ensures AttemptsLeft(after.rows) < AttemptsLeft(t.rows) || AttemptsLeft(t.rows) == 0
  {
    forall k, l | 0 <= k < l < |p.batch| ensures p.batch[k].id != p.batch[l].id {
      assert Before(p.batch[k], p.batch[l]);
    }
    PassUsesAttempts(t, p.batch, 0, p.current, p.sendOk, p.now, retry);
    if p.batch == [] {
      forall id | id in t.rows ensures t.rows[id].status != Pending {
        assert !InBatch(p.batch, id);
      }
      EmptyQueue(t.rows);
    }
  }

  lemma {:induction false} EmptyQueue(rows: map<nat, Message>)
    requires forall id :: id in rows ==> rows[id].status != Pending
    ensures AttemptsLeft(rows) == 0
    decreases |rows|
  {
    if rows != map[] {
      var id :| id in rows;
      AttemptsLeftWithout(rows, id);
      assert (rows - {id}).Keys == rows.Keys - {id};
      EmptyQueue(rows - {id});
    }
  }

  /** With no new mail, passes at least one retry interval apart empty the queue,
      whatever the mail server does and however long the queue is: after as many
      passes as there are attempts left nothing is pending. */
  lemma QueueDrains(tables: seq<Table>, passes: seq<Pass>, retry: Time)
    requires |tables| == |passes| + 1 && Bounded(tables[0])
    requires |passes| > 0 ==> DueBy(tables[0], passes[0].now)
    requires forall i :: 0 <= i < |passes| ==> PassOn(tables[i], passes[i], retry, tables[i + 1])
    requires forall i :: 0 < i < |passes| ==> passes[i - 1].now + retry <= passes[i].now
    requires |passes| >= AttemptsLeft(tables[0].rows)
    ensures forall id :: id in tables[|passes|].rows ==> tables[|passes|].rows[id].status != Pending
  {
    for i := 0 to |passes|
      invariant Bounded(tables[i])
      invariant i < |passes| ==> DueBy(tables[i], passes[i].now)
      invariant AttemptsLeft(tables[i].rows) + i <= AttemptsLeft(tables[0].rows) || AttemptsLeft(tables[i].rows) == 0
    {
      PassMakesProgress(tables[i], passes[i], retry, tables[i + 1]);
      if AttemptsLeft(tables[i].rows) == 0 {
        PassKeepsEmpty(tables[i], passes[i], retry, tables[i + 1]);
      }
    }
    NoAttemptsLeft(tables[|passes|]);
  }

  lemma PassKeepsEmpty(t: Table, p: Pass, retry: Time, after: Table)
    requires Bounded(t) && AttemptsLeft(t.rows) == 0 && PassOn(t, p, retry, after)
    ensures AttemptsLeft(after.rows) == 0
  {
    NoAttemptsLeft(t);
    assert |p.batch| == 0 || Due(p.batch[0].message, p.now);
  }

  // ---------------------------------------------------------------------
  // Dedupe keys

  function KindName(kind: Kind): (name: string)
    ensures ':' !in name
  {
    match kind
    case TimeoutStop => "timeout_stop"
    case TimeoutDelete => "timeout_delete"
    case WorkspaceDeleted => "workspace_deleted"
    case PasswordReset => "password_reset"
    case Invitation => "invitation"
    case Welcome => "welcome"
  }

  function WorkspaceKey(workspace: string, kind: Kind): string {
    "workspace:" + workspace + ":" + KindName(kind)
  }

  /** strings.Split at every colon. */
  function SplitColon(s: string): (parts: seq<string>)
    ensures |parts| >= 1
  {
    if s == "" then [""]
    else
      var rest := SplitColon(s[1..]);
      if s[0] == ':' then [""] + rest else [[s[0]] + rest[0]] + rest[1..]
  }

  function Join(parts: seq<string>): string
    requires |parts| >= 1
  {
    if |parts| == 1 then parts[0] else parts[0] + ":" + Join(parts[1..])
  }

  function WorkspaceOfKey(key: string): Option<string> {
    var parts := SplitColon(key);
    if |parts| != 3 || parts[0] != "workspace" || parts[1] == "" then None else Some(parts[1])
  }

  lemma {:induction false} SplitPrefix(a: string, b: string)
    requires ':' !in a
    ensures SplitColon(a + ":" + b) == [a] + SplitColon(b)
  {
    if a == "" {
      assert ("" + ":" + b)[1..] == b;
    } else {
      assert (a + ":" + b)[1..] == a[1..] + ":" + b;
      SplitPrefix(a[1..], b);
      assert [a[0]] + a[1..] == a;
    }
  }

  lemma {:induction false} SplitWhole(a: string)
    requires ':' !in a
    ensures SplitColon(a) == [a]
  {
    if a != "" {
      SplitWhole(a[1..]);
      assert [a[0]] + a[1..] == a;
    }
  }

  lemma {:induction false} JoinSplit(s: string)
    ensures Join(SplitColon(s)) == s
  {
    if s != "" {
      JoinSplit(s[1..]);
      var rest := SplitColon(s[1..]);
      if s[0] == ':' {
        assert ([""] + rest)[1..] == rest;
        assert s == ":" + s[1..];
      } else if |rest| == 1 {
        assert s == [s[0]] + s[1..];
      } else {
        assert ([[s[0]] + rest[0]] + rest[1..])[1..] == rest[1..];
        assert s == [s[0]] + s[1..];
      }
    }
  }

  lemma SplitKey(workspace: string, name: string)
    requires ':' !in workspace && ':' !in name
    ensures SplitColon("workspace" + ":" + (workspace + ":" + name)) == ["workspace", workspace, name]
  {
    SplitPrefix("workspace", workspace + ":" + name);
    SplitPrefix(workspace, name);
    SplitWhole(name);
    assert ["workspace"] + ([workspace] + [name]) == ["workspace", workspace, name];
  }

  /** A built key parses back to its workspace; workspace IDs are not empty and
      have no colon. */
  lemma KeyRoundTrip(workspace: string, kind: Kind)
    requires workspace != "" && ':' !in workspace
    ensures WorkspaceOfKey(WorkspaceKey(workspace, kind)) == Some(workspace)
  {
    SplitKey(workspace, KindName(kind));
    assert WorkspaceKey(workspace, kind) == "workspace" + ":" + (workspace + ":" + KindName(kind));
  }

  /** Only keys of that form are accepted. */
  lemma ParsedKeysHaveTheForm(key: string, workspace: string)
    requires WorkspaceOfKey(key) == Some(workspace)
    ensures workspace != "" && exists suffix :: key == "workspace:" + workspace + ":" + suffix
  {
    JoinSplit(key);
    var parts := SplitColon(key);
    assert Join(parts[1..]) == parts[1] + ":" + Join(parts[1..][1..]);
    assert key == "workspace:" + workspace + ":" + parts[2];
  }

  /** Cancelling a workspace's mail reaches another workspace of equal ID length
      exactly when the IDs differ in nothing but the case of letters: LIKE does
      not distinguish it, base64 does. */
  lemma CancellationReachesIff(t: Table, id: nat, workspace: string, other: string, kind: Kind)
    requires id in t.rows && t.rows[id].key == WorkspaceKey(other, kind) && |workspace| == |other|
    ensures id in ForWorkspace(t, workspace) <==> Lower(workspace) == Lower(other)
  {
    var key := t.rows[id].key;
    var prefix := "workspace:" + workspace + ":";
    assert key[..|prefix|] == "workspace:" + other + ":";
    LowerConcat("workspace:", workspace, ":");
    LowerConcat("workspace:", other, ":");
    var a, b := Lower("workspace:") + Lower(workspace) + Lower(":"), Lower("workspace:") + Lower(other) + Lower(":");
    assert a[10..10 + |workspace|] == Lower(workspace) && b[10..10 + |workspace|] == Lower(other);
  }

  lemma LowerConcat(a: string, b: string, c: string)
    ensures Lower(a + b + c) == Lower(a) + Lower(b) + Lower(c)
  {
  }
}
