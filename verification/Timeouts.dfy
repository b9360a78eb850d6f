/** The two lifecycle timeouts (internal/workspace/timeouts.go) and the session
    columns that the idle timeout is measured from (internal/repository/sqlite/store.go). */
module Timeouts {
  import opened Domain

  datatype Phase = NoPhase | AwaitingConnection | StoppedRetention

  datatype Action = NoAction | StopAction | DeleteAction

  datatype Status = Status(phase: Phase, action: Action, deadline: Time)

  function EvaluateTimeouts(w: Workspace, now: Time): (status: Status)
    ensures status.action == DeleteAction ==> w.stoppedAt != 0 && w.runtimeId != "" && w.containerDeletedAt == 0
    ensures status.action == StopAction ==> w.observed == Running && w.activeSessions == 0
    ensures status.action != NoAction ==> 0 < status.deadline <= now
  {
    if w.stoppedAt != 0 && w.runtimeId != "" && w.containerDeletedAt == 0 && w.stoppedRetention > 0 then
      var deadline := w.stoppedAt + w.stoppedRetention;
      Status(StoppedRetention, if now < deadline then NoAction else DeleteAction, deadline)
    else if w.observed == Running && w.activeSessions == 0 && w.idleSince != 0 && w.idleTimeout > 0 then
      var deadline := w.idleSince + w.idleTimeout;
      Status(AwaitingConnection, if now < deadline then NoAction else StopAction, deadline)
    else Status(NoPhase, NoAction, 0)
  }

  // ---------------------------------------------------------------------
  // The session columns

  /** RecordWorkspaceSessionStart. */
  function SessionStarted(w: Workspace, at: Time): Workspace {
    w.(activeSessions := w.activeSessions + 1, idleSince := 0, lastConnectedAt := at)
  }

  /** RecordWorkspaceSessionEnd: both columns are computed from the old count. */
  function SessionEnded(w: Workspace, at: Time): Workspace {
    w.(activeSessions := if w.activeSessions > 1 then w.activeSessions - 1 else 0,
       idleSince := if w.activeSessions <= 1 then at else w.idleSince)
  }

  /** ResetWorkspaceSessions, on every successful start. */
  function SessionsReset(w: Workspace, at: Time): Workspace {
    w.(activeSessions := 0, idleSince := at)
  }

  /** A connection is counted and noted with its time; its end takes it off the
      count and starts the idle clock when it was the last; nothing else changes. */
  lemma ConnectionIsNoted(w: Workspace, at: Time, later: Time)
    ensures SessionStarted(w, at) == w.(activeSessions := w.activeSessions + 1, idleSince := 0, lastConnectedAt := at)
    ensures var ended := SessionEnded(SessionStarted(w, at), later);
            ended == w.(lastConnectedAt := at, idleSince := if w.activeSessions == 0 then later else 0)
  {
  }

  datatype Event = Start(at: Time) | Open(session: nat, at: Time) | Close(session: nat, at: Time)

  function Record(w: Workspace, e: Event): Workspace {
    match e
    case Start(at) => SessionsReset(w, at)
    case Open(_, at) => SessionStarted(w, at)
    case Close(_, at) => SessionEnded(w, at)
  }

  /** The row after the first `n` events. */
  function RowAfter(w: Workspace, h: seq<Event>, n: nat): Workspace
    requires n <= |h|
  {
    if n == 0 then w else Record(RowAfter(w, h, n - 1), h[n - 1])
  }

  /** The simple history: which sessions are open after the first `n` events. A
      start ends every earlier session, because the container is a new one. */
  function OpenAfter(h: seq<Event>, n: nat): set<nat>
    requires n <= |h|
  {
    if n == 0 then {}
    else
      match h[n - 1]
      case Start(_) => {}
      case Open(s, _) => OpenAfter(h, n - 1) + {s}
      case Close(s, _) => OpenAfter(h, n - 1) - {s}
  }

  /** Event `i` has a time, opens no session that is open already and ends only one that is. */
  ghost predicate EventOk(h: seq<Event>, i: nat)
    requires i < |h|
  {
    h[i].at > 0 && (h[i].Open? ==> h[i].session !in OpenAfter(h, i)) && (h[i].Close? ==> h[i].session in OpenAfter(h, i))
  }

  ghost predicate InTimeOrder(h: seq<Event>) {
    forall i, j :: 0 <= i <= j < |h| ==> h[i].at <= h[j].at
  }

  /** A workspace's history since its first start, in time order, in which every
      session is opened once and every end belongs to a session still open. */
  ghost predicate Matched(h: seq<Event>) {
    |h| > 0 && h[0].Start? && InTimeOrder(h) && forall i :: 0 <= i < |h| ==> EventOk(h, i)
  }

  /** Index of the last event among the first `n` that left no session open
      while one was open before it, or that started the workspace. */
  function LastEmptied(h: seq<Event>, n: nat): (r: int)
    requires n <= |h|
    ensures -1 <= r < n
  {
    if n == 0 then -1
    else if OpenAfter(h, n) == {} && (h[n - 1].Start? || OpenAfter(h, n - 1) != {}) then n - 1
    else LastEmptied(h, n - 1)
  }

  /** What the counter and the timestamp say about the first `n` events. */
  ghost predicate Refines(row: Workspace, h: seq<Event>, n: nat)
    requires n <= |h|
  {
    var open := OpenAfter(h, n);
    && row.activeSessions == |open| && (row.idleSince == 0 <==> open != {})
    && 0 <= LastEmptied(h, n) < |h| && (open == {} ==> row.idleSince == h[LastEmptied(h, n)].at)
  }

  lemma OpenKeepsRefining(row: Workspace, h: seq<Event>, n: nat)
    requires n < |h| && Refines(row, h, n) && h[n].Open? && h[n].session !in OpenAfter(h, n)
    ensures Refines(SessionStarted(row, h[n].at), h, n + 1)
  {
  }

  lemma CloseKeepsRefining(row: Workspace, h: seq<Event>, n: nat)
    requires n < |h| && Refines(row, h, n) && h[n].Close? && h[n].session in OpenAfter(h, n) && h[n].at > 0
    ensures Refines(SessionEnded(row, h[n].at), h, n + 1)
  {
  }

  /** The counter and timestamp refine the set of open sessions. */
  lemma {:induction false} SessionsRefineHistory(w: Workspace, h: seq<Event>, n: nat)
    requires Matched(h) && 0 < n <= |h|
    ensures Refines(RowAfter(w, h, n), h, n)
  {
    assert EventOk(h, n - 1);
    if n == 1 {
      assert OpenAfter(h, 1) == {};
    } else {
      SessionsRefineHistory(w, h, n - 1);
      match h[n - 1]
      case Start(_) => assert OpenAfter(h, n) == {};
      case Open(_, _) => OpenKeepsRefining(RowAfter(w, h, n - 1), h, n - 1);
      case Close(_, _) => CloseKeepsRefining(RowAfter(w, h, n - 1), h, n - 1);
    }
  }

  /** Between event `i` and the next one a session was open at a moment after `since`. */
  ghost predicate BusyFrom(h: seq<Event>, i: int, since: int) {
    0 <= i < |h| && OpenAfter(h, i + 1) != {} && (i + 1 == |h| || h[i + 1].at > since)
  }

  /** Some session was open at a moment after `since`. */
  ghost predicate BusyAfter(h: seq<Event>, since: int) {
    exists i :: BusyFrom(h, i, since)
  }

  ghost predicate StartedAfter(h: seq<Event>, since: int) {
    exists i :: 0 <= i < |h| && h[i].Start? && h[i].at > since
  }

  lemma IdleIffLastEventOld(h: seq<Event>, since: int)
    requires Matched(h) && OpenAfter(h, |h|) == {}
    ensures LastEmptied(h, |h|) == |h| - 1
    ensures h[|h| - 1].at <= since <==> !BusyAfter(h, since) && !StartedAfter(h, since)
  {
    var n := |h|;
    assert EventOk(h, n - 1);
    if h[n - 1].at <= since {
      forall i | 0 <= i < n ensures !BusyFrom(h, i, since) && h[i].at <= since {
        assert h[i].at <= h[n - 1].at;
        assert i + 1 < n ==> h[i + 1].at <= h[n - 1].at;
      }
    } else if !h[n - 1].Start? {
      assert BusyFrom(h, n - 2, since);
    }
  }

  lemma StopDueIff(row: Workspace, now: Time)
    requires row.idleTimeout > 0 && row.observed == Running && row.stoppedAt == 0
    ensures EvaluateTimeouts(row, now).action == StopAction <==>
              row.activeSessions == 0 && row.idleSince != 0 && row.idleSince <= now - row.idleTimeout
  {
  }

  lemma RowIdleIff(w: Workspace, h: seq<Event>, since: int)
    requires Matched(h)
    ensures var row := RowAfter(w, h, |h|);
            row.activeSessions == 0 && row.idleSince != 0 && row.idleSince <= since <==>
              !BusyAfter(h, since) && !StartedAfter(h, since)
  {
    var row := RowAfter(w, h, |h|);
    SessionsRefineHistory(w, h, |h|);
    if OpenAfter(h, |h|) != {} {
      assert row.idleSince == 0;
      assert BusyFrom(h, |h| - 1, since);
    } else {
      assert row.activeSessions == 0;
      IdleIffLastEventOld(h, since);
      assert row.idleSince == h[|h| - 1].at;
    }
  }

  /** A running workspace is due for its idle stop exactly when it has been up
      and without any open session for the whole window that ends now. */
  lemma DueForStopIffIdle(w: Workspace, h: seq<Event>, now: Time)
    requires Matched(h) && w.idleTimeout > 0
    requires w.observed == Running && w.stoppedAt == 0
    ensures EvaluateTimeouts(RowAfter(w, h, |h|), now).action == StopAction <==>
              !BusyAfter(h, now - w.idleTimeout) && !StartedAfter(h, now - w.idleTimeout)
  {
    RowKeepsTimeoutFields(w, h, |h|);
    StopDueIff(RowAfter(w, h, |h|), now);
    RowIdleIff(w, h, now - w.idleTimeout);
  }

  lemma {:induction false} RowKeepsTimeoutFields(w: Workspace, h: seq<Event>, n: nat)
    requires n <= |h|
    ensures var row := RowAfter(w, h, n);
            row.observed == w.observed && row.stoppedAt == w.stoppedAt && row.idleTimeout == w.idleTimeout
  {
    if n > 0 {
      RowKeepsTimeoutFields(w, h, n - 1);
    }
  }

  // ---------------------------------------------------------------------
  // A disconnect that belongs to an earlier run

  /** What an end does to a correct count, exactly: the count stays correct when
      the session is open, and otherwise only when none is. */
  lemma EndKeepsCountIff(w: Workspace, open: set<nat>, s: nat, at: Time)
    requires w.activeSessions == |open|
    ensures SessionEnded(w, at).activeSessions == |open - {s}| <==> s in open || open == {}
  {
  }

  /** Ends are not tied to the run their session belonged to: a session opened
      before a restart and closed after it hides a session that is still open,
      and the workspace becomes due for its idle stop under that session. */
  lemma StaleEndStopsConnectedWorkspace(w: Workspace)
    requires w.observed == Running && w.stoppedAt == 0 && w.idleTimeout == 60
    ensures var h := [Start(1), Open(1, 2), Start(3), Open(2, 4), Close(1, 5)];
            && OpenAfter(h, 5) == {2}
            && !Matched(h)
            && EvaluateTimeouts(RowAfter(w, h, 5), 65).action == StopAction
  {
    var h := [Start(1), Open(1, 2), Start(3), Open(2, 4), Close(1, 5)];
    assert RowAfter(w, h, 1) == w.(activeSessions := 0, idleSince := 1);
    assert RowAfter(w, h, 2).activeSessions == 1;
    assert RowAfter(w, h, 3) == RowAfter(w, h, 2).(activeSessions := 0, idleSince := 3);
    assert RowAfter(w, h, 4).activeSessions == 1;
    assert RowAfter(w, h, 5).activeSessions == 0 && RowAfter(w, h, 5).idleSince == 5;
    RowKeepsTimeoutFields(w, h, 5);
    assert OpenAfter(h, 3) == {} && OpenAfter(h, 4) == {2};
    assert !EventOk(h, 4);
  }
}
