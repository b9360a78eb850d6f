/** The email outbox: queueing with deduplication, cancellation and bounded
    delivery (internal/notifications/service.go, internal/repository/sqlite/store.go). */
module Outbox {
  import opened Domain

  const MAX_ATTEMPTS: nat := 5
  const BATCH_SIZE: nat := 50

  datatype Kind = TimeoutStop | TimeoutDelete | WorkspaceDeleted | PasswordReset | Invitation | Welcome

  datatype Status = Pending | Sent | Canceled

  /** A row; an empty `key` is the absent dedupe key. */
  datatype Message = Message(kind: Kind, user: string, recipient: string, subject: string, body: string, key: string,
                             status: Status, attempts: nat, nextAttemptAt: Time, sentAt: Time)

  /** What a caller queues. */
  datatype Draft = Draft(kind: Kind, user: string, recipient: string, subject: string, body: string, key: string, at: Time)

  /** The table with its AUTOINCREMENT counter. */
  datatype Table = Table(rows: map<nat, Message>, next: nat)

  /** The unique index on dedupe keys, and IDs below the counter. */
  ghost predicate ValidTable(t: Table) {
    && (forall id :: id in t.rows ==> id < t.next)
    && (forall a, b :: a in t.rows && b in t.rows && a != b && t.rows[a].key != "" ==> t.rows[a].key != t.rows[b].key)
  }

  // ---------------------------------------------------------------------
  // UpsertEmailMessage

  function Fresh(d: Draft): Message {
    Message(d.kind, d.user, d.recipient, d.subject, d.body, d.key, Pending, 0, d.at, 0)
  }

  /** A changed body or recipient describes something different and starts over. */
  predicate Differs(m: Message, d: Draft) {
    m.body != d.body || m.recipient != d.recipient
  }

  function Merged(m: Message, d: Draft): Message {
    if Differs(m, d) then Fresh(d) else m.(kind := d.kind, user := d.user, subject := d.subject)
  }

  ghost predicate Holder(t: Table, key: string, id: nat) {
    id in t.rows && key != "" && t.rows[id].key == key
  }

  /** The row a draft lands in. */
  ghost function Slot(t: Table, key: string): nat {
    if exists id: nat :: Holder(t, key, id) then var id: nat :| Holder(t, key, id); id else t.next
  }

  ghost function UpsertSpec(t: Table, d: Draft): Table {
    var id := Slot(t, d.key);
    if id in t.rows then t.(rows := t.rows[id := Merged(t.rows[id], d)])
    else Table(t.rows[id := Fresh(d)], t.next + 1)
  }

  // ---------------------------------------------------------------------
  // Cancellation and the three marks; each only touches a pending row

  function Marked(t: Table, id: nat, m: Message): Table {
    if id in t.rows && t.rows[id].status == Pending then t.(rows := t.rows[id := m]) else t
  }

  predicate IsPending(t: Table, id: nat) {
    id in t.rows && t.rows[id].status == Pending
  }

  function CancelAll(t: Table, ids: set<nat>): Table {
    t.(rows := map id | id in t.rows :: if id in ids && t.rows[id].status == Pending then t.rows[id].(status := Canceled) else t.rows[id])
  }

  /** LIKE with an escaped prefix and a trailing wildcard; SQLite's LIKE does not
      distinguish the case of ASCII letters. */
  predicate LikePrefix(value: string, prefix: string) {
    |value| >= |prefix| && Lower(value[..|prefix|]) == Lower(prefix)
  }

  function ForWorkspace(t: Table, workspace: string): set<nat> {
    set id | id in t.rows && t.rows[id].key != "" && LikePrefix(t.rows[id].key, "workspace:" + workspace + ":")
  }

  // ---------------------------------------------------------------------
  // Delivery

  datatype Listed = Listed(id: nat, message: Message)

  predicate Due(m: Message, now: Time) {
    m.status == Pending && m.nextAttemptAt <= now
  }

  predicate Before(a: Listed, b: Listed) {
    a.message.nextAttemptAt < b.message.nextAttemptAt || (a.message.nextAttemptAt == b.message.nextAttemptAt && a.id < b.id)
  }

  /** The first due rows, ordered by next attempt and ID. */
  ghost predicate IsBatch(t: Table, now: Time, limit: nat, batch: seq<Listed>) {
    && (forall i :: 0 <= i < |batch| ==> batch[i].id in t.rows && batch[i].message == t.rows[batch[i].id] && Due(batch[i].message, now))
    && (forall i, j :: 0 <= i < j < |batch| ==> Before(batch[i], batch[j]))
    && |batch| <= limit
    && (forall id :: id in t.rows && Due(t.rows[id], now) && !InBatch(batch, id) ==>
          |batch| == limit && forall i :: 0 <= i < |batch| ==> Before(batch[i], Listed(id, t.rows[id])))
  }

  ghost predicate InBatch(batch: seq<Listed>, id: nat) {
    exists i :: 0 <= i < |batch| && batch[i].id == id
  }

  /** How one message of a batch fares: `Aborted` ends the pass with an error. */
  datatype Fate = Dropped | Accepted | Refused | Aborted

  function DeliverOne(t: Table, listed: Listed, current: bool, sendOk: bool, now: Time, retry: Time): (Table, Fate) {
    var id, m := listed.id, listed.message;
    if !current then
      (Marked(t, id, if IsPending(t, id) then t.rows[id].(status := Canceled) else m), Dropped)
    else if !IsPending(t, id) then (t, Aborted)
    else if sendOk then (Marked(t, id, t.rows[id].(status := Sent, sentAt := now)), Accepted)
    else
      (Marked(t, id, t.rows[id].(attempts := m.attempts + 1, nextAttemptAt := now + retry,
                                 status := if m.attempts + 1 >= MAX_ATTEMPTS then Canceled else Pending)), Refused)
  }

  function DeliverFrom(t: Table, batch: seq<Listed>, i: nat, current: seq<bool>, sendOk: seq<bool>, now: Time,
                       retry: Time): Table
    requires i <= |batch| <= |current| && |batch| <= |sendOk|
    decreases |batch| - i
  {
    if i == |batch| then t
    else
      var (after, fate) := DeliverOne(t, batch[i], current[i], sendOk[i], now, retry);
      if fate == Aborted then after else DeliverFrom(after, batch, i + 1, current, sendOk, now, retry)
  }

  // ---------------------------------------------------------------------
  // The store and the delivery loop

  class EmailStore {
    var rows: map<nat, Message>
    var next: nat

    ghost function View(): Table
      reads this
    {
      Table(rows, next)
    }

    constructor ()
      ensures View() == Table(map[], 1) && ValidTable(View())
    {
      rows, next := map[], 1;
    }

    method UpsertEmailMessage(d: Draft)
      requires ValidTable(View())
      modifies this
      ensures View() == UpsertSpec(old(View()), d)
    {
      if d.key != "" {
        var todo := rows.Keys;
        while todo != {}
          invariant todo <= rows.Keys
          invariant forall id :: id in rows && id !in todo ==> rows[id].key != d.key
          decreases todo
        {
          var id :| id in todo;
          if rows[id].key == d.key {
            assert Holder(View(), d.key, id);
            assert forall other :: Holder(View(), d.key, other) ==> other == id;
            rows := rows[id := Merged(rows[id], d)];
            return;
          }
          todo := todo - {id};
        }
      }
      assert !exists id :: Holder(View(), d.key, id);
      rows, next := rows[next := Fresh(d)], next + 1;
    }

    method MarkSent(id: nat, at: Time) returns (found: bool)
      modifies this`rows
      ensures found == old(IsPending(View(), id))
      ensures rows == if found then old(rows)[id := old(rows)[id].(status := Sent, sentAt := at)] else old(rows)
    {
      found := id in rows && rows[id].status == Pending;
      if found {
        rows := rows[id := rows[id].(status := Sent, sentAt := at)];
      }
    }

    method MarkFailed(id: nat, attempts: nat, nextAttemptAt: Time) returns (found: bool)
      modifies this`rows
      ensures found == old(IsPending(View(), id))
      ensures rows == if found then old(rows)[id := old(rows)[id].(attempts := attempts, nextAttemptAt := nextAttemptAt)] else old(rows)
    {
      found := id in rows && rows[id].status == Pending;
      if found {
        rows := rows[id := rows[id].(attempts := attempts, nextAttemptAt := nextAttemptAt)];
      }
    }

    method MarkCanceled(id: nat) returns (found: bool)
      modifies this`rows
      ensures found == old(IsPending(View(), id))
      ensures rows == if found then old(rows)[id := old(rows)[id].(status := Canceled)] else old(rows)
    {
      found := id in rows && rows[id].status == Pending;
      if found {
        rows := rows[id := rows[id].(status := Canceled)];
      }
    }

    method CancelForWorkspace(workspace: string)
      modifies this`rows
      ensures View() == CancelAll(old(View()), ForWorkspace(old(View()), workspace))
    {
      rows := map id | id in rows ::
        if rows[id].status == Pending && rows[id].key != "" && LikePrefix(rows[id].key, "workspace:" + workspace + ":")
        then rows[id].(status := Canceled) else rows[id];
    }

    /** The first of the rows in `among`, by next attempt and ID. */
    method Earliest(among: set<nat>) returns (first: Listed)
      requires among != {} && among <= rows.Keys
      ensures first.id in among && first.message == rows[first.id]
      ensures forall id :: id in among && id != first.id ==> Before(first, Listed(id, rows[id]))
    {
      var id :| id in among;
      first := Listed(id, rows[id]);
      var todo := among - {id};
      while todo != {}
        invariant todo <= among && first.id in among && first.message == rows[first.id]
        invariant forall other :: other in among && other !in todo && other != first.id ==> Before(first, Listed(other, rows[other]))
        decreases todo
      {
        var other :| other in todo;
        todo := todo - {other};
        if other != first.id && !Before(first, Listed(other, rows[other])) {
          first := Listed(other, rows[other]);
        }
      }
    }

    /** ListPendingEmailMessages. */
    method ListPending(now: Time, limit: nat) returns (batch: seq<Listed>)
      ensures IsBatch(View(), now, limit, batch)
    {
      batch := [];
      var due := set id | id in rows && Due(rows[id], now);
      while due != {} && |batch| < limit
        invariant |batch| <= limit
        invariant due <= rows.Keys && forall id :: id in due ==> Due(rows[id], now)
        invariant forall id :: id in rows && Due(rows[id], now) ==> id in due || InBatch(batch, id)
        invariant forall i :: 0 <= i < |batch| ==>
                    batch[i].id in rows && batch[i].message == rows[batch[i].id] && Due(batch[i].message, now)
        invariant forall i, j :: 0 <= i < j < |batch| ==> Before(batch[i], batch[j])
        invariant forall i, id :: 0 <= i < |batch| && id in due ==> Before(batch[i], Listed(id, rows[id]))
        decreases due
      {
        var first := Earliest(due);
        ghost var before := batch;
        batch := batch + [first];
        due := due - {first.id};
        assert batch[|before|].id == first.id;
        assert forall id :: InBatch(before, id) ==> InBatch(batch, id) by {
          assert forall i :: 0 <= i < |before| ==> batch[i] == before[i];
        }
      }
    }

    /** One message of a pass; `aborted` reports an error of the store. */
    method DeliverMessage(listed: Listed, current: bool, sendOk: bool, now: Time, retry: Time) returns (aborted: bool)
      modifies this`rows
      ensures View() == DeliverOne(old(View()), listed, current, sendOk, now, retry).0
      ensures aborted <==> DeliverOne(old(View()), listed, current, sendOk, now, retry).1 == Aborted
    {
      if !current {
        var _ := MarkCanceled(listed.id);
        return false;
      }
      if !sendOk {
        var attempts := listed.message.attempts + 1;
        var found := MarkFailed(listed.id, attempts, now + retry);
        if !found {
          return true;
        }
        if attempts >= MAX_ATTEMPTS {
          var _ := MarkCanceled(listed.id);
        }
        return false;
      }
      var found := MarkSent(listed.id, now);
      return !found;
    }

    /** One delivery pass; `current` and `sendOk` say, message by message, whether it
        is still current and whether the mail server takes it. */
    method Deliver(now: Time, retry: Time, current: seq<bool>, sendOk: seq<bool>) returns (batch: seq<Listed>)
      requires |current| == |sendOk| == BATCH_SIZE
      modifies this`rows
      ensures IsBatch(old(View()), now, BATCH_SIZE, batch)
      ensures View() == DeliverFrom(old(View()), batch, 0, current, sendOk, now, retry)
    {
      batch := ListPending(now, BATCH_SIZE);
      var i := 0;
      while i < |batch|
        invariant i <= |batch|
        invariant DeliverFrom(old(View()), batch, 0, current, sendOk, now, retry) == DeliverFrom(View(), batch, i, current, sendOk, now, retry)
      {
        var aborted := DeliverMessage(batch[i], current[i], sendOk[i], now, retry);
        if aborted {
          return;
        }
        i := i + 1;
      }
    }
  }
}
