/** The session columns over whole runs: whatever else happens to a workspace, its
    counter and timestamp are those of its history of starts and sessions. */
module SessionRuns {
  import opened Domain
  import opened Quota
  import opened Timeouts
  import opened Mounts
  import opened Lifecycle
  import opened Service
  import opened Effects
  import opened Runs
  import LifecycleInvariant

  ghost predicate SameSessions(a: Workspace, b: Workspace) {
    a.activeSessions == b.activeSessions && a.idleSince == b.idleSince
  }

  /** What the step means for the sessions of one workspace: a start that brings it
      up, a connection that is let in, a disconnect. */
  ghost function EventOf(s: State, step: Step, after: State, id: string): seq<Event> {
    match step
    case Create(input, o) =>
      if input.id == id && id in after.rows && after.rows[id].observed == Running then [Start(o.start.now)] else []
    case StartOne(other, o) =>
      if other == id && id in s.rows && s.rows[id].observed != Running && id in after.rows && after.rows[id].observed == Running
      then [Start(o.now)] else []
    case Connect(other, session, at) =>
      if other == id && id in s.rows && s.rows[id].observed == Running then [Open(session, at)] else []
    case Disconnect(other, session, at) => if other == id && id in s.rows then [Close(session, at)] else []
    case _ => []
  }

  /** The workspace's history up to step `n` of the run. */
  ghost function History(trace: seq<System>, steps: seq<Step>, id: string, n: nat): seq<Event>
    requires |trace| == |steps| + 1 && n <= |steps|
  {
    if n == 0 then [] else History(trace, steps, id, n - 1) + EventOf(trace[n - 1].state, steps[n - 1], trace[n].state, id)
  }

  lemma {:induction false} RowAfterConcat(w: Workspace, h: seq<Event>, e: seq<Event>, n: nat)
    requires n <= |h|
    ensures RowAfter(w, h + e, n) == RowAfter(w, h, n)
  {
    if n > 0 {
      RowAfterConcat(w, h, e, n - 1);
    }
  }

  lemma StartSessions(c: Config, s: State, id: string, o: StartOracle, after: State)
    requires StartTakes(c, s, id, o, after) && id in s.rows && id in after.rows
    ensures if s.rows[id].observed != Running && after.rows[id].observed == Running
            then SameSessions(after.rows[id], SessionsReset(s.rows[id], o.now)) else SameSessions(after.rows[id], s.rows[id])
  {
  }

  lemma StartOthers(c: Config, s: State, other: string, o: StartOracle, after: State, id: string)
    requires StartTakes(c, s, other, o, after) && id != other
    ensures id in after.rows <==> id in s.rows
    ensures id in s.rows ==> after.rows[id] == s.rows[id]
  {
  }

  lemma CreateSessions(c: Config, s: State, input: CreateInput, o: CreateOracle, after: State, id: string)
    requires CreateTakes(c, s, input, o, after) && input.id !in s.rows && id in after.rows
    ensures id != input.id ==> id in s.rows && after.rows[id] == s.rows[id]
    ensures id == input.id ==> if after.rows[id].observed == Running
                               then after.rows[id].activeSessions == 0 && after.rows[id].idleSince == o.start.now
                               else after.rows[id].activeSessions == 0 && after.rows[id].idleSince == 0
  {
  }

  lemma DeleteSessions(s: State, other: string, value: Workspace, o: DeleteOracle, after: State, id: string)
    requires DeleteTakes(s, other, value, o, after) && id in after.rows
    ensures id in s.rows && after.rows[id] == s.rows[id]
  {
  }

  lemma HaltSessions(s: State, other: string, value: Workspace, now: Time, after: State, id: string)
    requires (StopTakes(s, other, value, now, after) || TimeoutTakes(s, other, value, now, after)) && id in after.rows
    ensures id in s.rows && SameSessions(after.rows[id], s.rows[id])
  {
  }

  /** `w` stands for the new row: no session, no timestamp. */
  ghost predicate Unused(w: Workspace) {
    w.activeSessions == 0 && w.idleSince == 0
  }

  /** One step changes the columns as its event says. */
  lemma StepFollowsEvent(c: Config, sys: System, step: Step, after: State, id: string, w: Workspace)
    requires Consistent(sys) && Enabled(sys, step) && Takes(c, sys.state, step, after) && id in after.rows
    requires if id in sys.state.rows then SameSessions(sys.state.rows[id], w) else Unused(w)
    ensures var e := EventOf(sys.state, step, after, id);
            SameSessions(after.rows[id], if e == [] then w else Record(w, e[0]))
  {
    var s := sys.state;
    match step
    case Create(input, o) => CreateSessions(c, s, input, o, after, id);
    case StartOne(other, o) =>
      if other == id {
        StartSessions(c, s, id, o, after);
      } else {
        StartOthers(c, s, other, o, after, id);
      }
    case StopOne(other, value, now, _) => HaltSessions(s, other, value, now, after, id);
    case TimeOut(other, value, now, _) => HaltSessions(s, other, value, now, after, id);
    case DeleteOne(other, value, o) => DeleteSessions(s, other, value, o, after, id);
    case _ =>
  }

  /** A row that appears was created by this step, so nothing was recorded before. */
  lemma NewRowHasNoHistory(before: System, step: Step, after: State, id: string, h: seq<Event>)
    requires Consistent(before) && Enabled(before, step) && id in after.rows && (id !in before.used ==> h == [])
    requires RowsEvolve(before.state.rows, after.rows, if step.Create? then {step.input.id} else {})
    ensures id !in before.state.rows ==> h == []
  {
  }

  /** One step of the run extends history and columns alike. */
  lemma HistoryStep(c: Config, before: System, step: Step, after: State, id: string, h: seq<Event>, blank: Workspace)
    requires Consistent(before) && Enabled(before, step) && Takes(c, before.state, step, after) && Unused(blank)
    requires (id in before.state.rows ==> SameSessions(before.state.rows[id], RowAfter(blank, h, |h|)))
    requires (id !in before.used ==> h == [])
    requires id in after.rows
    ensures var longer := h + EventOf(before.state, step, after, id);
            SameSessions(after.rows[id], RowAfter(blank, longer, |longer|))
  {
    var e := EventOf(before.state, step, after, id);
    StepEvolvesRows(c, before.state, step, after);
    NewRowHasNoHistory(before, step, after, id, h);
    StepFollowsEvent(c, before, step, after, id, RowAfter(blank, h, |h|));
    RowAfterConcat(blank, h, e, |h|);
    if e == [] {
      assert h + e == h;
    }
  }

  lemma UnknownHasNoEvent(before: System, step: Step, after: State, id: string)
    requires Consistent(before) && id !in before.used && !(step.Create? && step.input.id == id)
    ensures EventOf(before.state, step, after, id) == []
  {
  }

  /** The columns of a workspace created during the run are those of its history,
      recorded from a new row `blank` on. */
  lemma {:induction false} ColumnsFollowHistory(c: Config, trace: seq<System>, steps: seq<Step>, id: string, n: nat,
                                                blank: Workspace)
    requires Run(c, trace, steps) && n <= |steps| && Consistent(trace[0]) && id !in trace[0].used && Unused(blank)
    ensures Consistent(trace[n])
    ensures var h := History(trace, steps, id, n);
            && (id in trace[n].state.rows ==> SameSessions(trace[n].state.rows[id], RowAfter(blank, h, |h|)))
            && (id !in trace[n].used ==> h == [])
  {
    if n > 0 {
      ColumnsFollowHistory(c, trace, steps, id, n - 1, blank);
      var before, step := trace[n - 1], steps[n - 1];
      assert StepAt(c, trace, steps, n - 1);
      StepKeepsConsistent(c, before, step);
      var after := StepTakes(c, before, step);
      if id in after.rows {
        HistoryStep(c, before, step, after, id, History(trace, steps, id, n - 1), blank);
      }
      if id !in trace[n].used {
        UnknownHasNoEvent(before, step, after, id);
      }
    }
  }

  lemma ColumnsDecideStop(row: Workspace, h: seq<Event>, now: Time, blank: Workspace)
    requires SameSessions(row, RowAfter(blank, h, |h|)) && Matched(h)
    requires row.observed == Running && row.stoppedAt == 0 && row.idleTimeout > 0
    ensures EvaluateTimeouts(row, now).action == StopAction <==>
              !BusyAfter(h, now - row.idleTimeout) && !StartedAfter(h, now - row.idleTimeout)
  {
    StopDueIff(row, now);
    RowIdleIff(blank, h, now - row.idleTimeout);
  }

  lemma RunningRowIsUnstopped(c: Config, trace: seq<System>, steps: seq<Step>, id: string, n: nat)
    requires Run(c, trace, steps) && n < |trace| && Consistent(trace[0]) && LifecycleInvariant.Safe(trace[0])
    requires id in trace[n].state.rows && trace[n].state.rows[id].observed == Running
    ensures trace[n].state.rows[id].stoppedAt == 0
  {
    LifecycleInvariant.RunsAreSafe(c, trace, steps);
    assert LifecycleInvariant.RowOk(trace[n].state.rows[id]);
  }

  /** A timeout that reads the stored row finds a running workspace due for its
      stop exactly when, in this very run, no session was open and no start happened
      during the whole idle window, provided that each disconnect ended a session
      that was open. */
  lemma StopIsDueIffIdleInRun(c: Config, trace: seq<System>, steps: seq<Step>, id: string, n: nat, now: Time,
                              blank: Workspace)
    requires Run(c, trace, steps) && n <= |steps| && Consistent(trace[0]) && id !in trace[0].used && Unused(blank)
    requires LifecycleInvariant.Safe(trace[0]) && Matched(History(trace, steps, id, n))
    requires id in trace[n].state.rows && trace[n].state.rows[id].observed == Running
    requires trace[n].state.rows[id].idleTimeout > 0
    ensures var row, h := trace[n].state.rows[id], History(trace, steps, id, n);
            EvaluateTimeouts(row, now).action == StopAction <==>
              !BusyAfter(h, now - row.idleTimeout) && !StartedAfter(h, now - row.idleTimeout)
  {
    ColumnsFollowHistory(c, trace, steps, id, n, blank);
    RunningRowIsUnstopped(c, trace, steps, id, n);
    ColumnsDecideStop(trace[n].state.rows[id], History(trace, steps, id, n), now, blank);
  }
}
