/** The re-check before a lifecycle warning is delivered
    (internal/notifications/service.go, messageIsCurrent). */
module Warnings {
  import opened Domain
  import opened Timeouts
  import opened Outbox
  import opened OutboxRuns
  import LifecycleInvariant

  datatype Owner = Owner(disabled: bool, email: string)

  predicate Reachable(owners: map<string, Owner>, owner: string, recipient: string) {
    owner in owners && !owners[owner].disabled && owners[owner].email != "" && owners[owner].email == recipient
  }

  predicate MessageIsCurrent(m: Message, rows: map<string, Workspace>, owners: map<string, Owner>, now: Time) {
    if m.kind != TimeoutStop && m.kind != TimeoutDelete then true
    else
      var id := WorkspaceOfKey(m.key);
      if id.None? || id.value !in rows || !Reachable(owners, rows[id.value].owner, m.recipient) then false
      else
        var w := rows[id.value];
        var status := EvaluateTimeouts(w, now);
        if status.deadline == 0 then false
        else if m.kind == TimeoutStop then status.phase == AwaitingConnection && w.observed == Running
        else status.phase == StoppedRetention && w.runtimeId != ""
  }

  /** A stop warning goes out exactly when the workspace is running with its idle
      clock ticking, so never under an open session, and only to the owner's
      present address. */
  lemma StopWarningCurrentIff(m: Message, id: string, rows: map<string, Workspace>, owners: map<string, Owner>,
                              now: Time)
    requires m.kind == TimeoutStop && m.key == WorkspaceKey(id, TimeoutStop) && id != "" && ':' !in id
    requires id in rows && LifecycleInvariant.RowOk(rows[id])
    ensures var w := rows[id];
            MessageIsCurrent(m, rows, owners, now) <==>
              && w.owner in owners && !owners[w.owner].disabled && m.recipient != "" && owners[w.owner].email == m.recipient
              && w.observed == Running && w.activeSessions == 0 && w.idleSince != 0 && w.idleTimeout > 0
  {
    KeyRoundTrip(id, TimeoutStop);
  }

  /** A deletion warning goes out exactly while the retention period of a stopped,
      not yet removed container is running or over. */
  lemma DeleteWarningCurrentIff(m: Message, id: string, rows: map<string, Workspace>, owners: map<string, Owner>,
                                now: Time)
    requires m.kind == TimeoutDelete && m.key == WorkspaceKey(id, TimeoutDelete) && id != "" && ':' !in id
    requires id in rows && LifecycleInvariant.RowOk(rows[id])
    ensures var w := rows[id];
            MessageIsCurrent(m, rows, owners, now) <==>
              && w.owner in owners && !owners[w.owner].disabled && m.recipient != "" && owners[w.owner].email == m.recipient
              && w.observed != Running && w.stoppedAt != 0 && w.runtimeId != "" && w.containerDeletedAt == 0 && w.stoppedRetention > 0
  {
    KeyRoundTrip(id, TimeoutDelete);
  }

  /** The deadline itself is not compared: a warning written for one deadline is
      still current after a session came and went and moved the deadline. */
  lemma MovedDeadlineStaysCurrent(m: Message, id: string, rows: map<string, Workspace>, owners: map<string, Owner>,
                                  begun: Time, closed: Time, now: Time)
    requires m.kind == TimeoutStop && m.key == WorkspaceKey(id, TimeoutStop) && id != "" && ':' !in id
    requires id in rows && LifecycleInvariant.RowOk(rows[id]) && rows[id].idleSince < begun < closed
    requires MessageIsCurrent(m, rows, owners, now)
    ensures var visited := rows[id := SessionEnded(SessionStarted(rows[id], begun), closed)];
            && EvaluateTimeouts(visited[id], now).deadline > EvaluateTimeouts(rows[id], now).deadline
            && MessageIsCurrent(m, visited, owners, now)
  {
    StopWarningCurrentIff(m, id, rows, owners, now);
    var visited := rows[id := SessionEnded(SessionStarted(rows[id], begun), closed)];
    StopWarningCurrentIff(m, id, visited, owners, now);
  }
}
