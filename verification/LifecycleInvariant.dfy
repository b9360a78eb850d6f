/** What every run keeps about the rows and the timeout steps, however old the
    snapshots are that stops, deletions and timeouts act on. */
module LifecycleInvariant {
  import opened Domain
  import opened Quota
  import opened Timeouts
  import opened Mounts
  import opened Lifecycle
  import opened Service
  import opened Effects
  import opened Runs

  ghost predicate RowOk(w: Workspace) {
    && (w.observed == Running ==> w.stoppedAt == 0 && w.startedAt != 0 && w.runtimeId != "")
    && (w.observed == Stopped ==> w.stoppedAt != 0)
  }

  ghost predicate RowsOk(rows: map<string, Workspace>) {
    forall id :: id in rows ==> RowOk(rows[id])
  }

  ghost predicate Safe(sys: System) {
    RowsOk(sys.state.rows) && forall l :: l in sys.snapshots ==> RowOk(l.value)
  }

  lemma CreateKeepsRowsOk(c: Config, s: State, input: CreateInput, o: CreateOracle, after: State)
    requires RowsOk(s.rows) && CreateTakes(c, s, input, o, after) && o.start.now > 0 && o.start.newRuntimeId != ""
    ensures RowsOk(after.rows)
  {
  }

  lemma StartKeepsRowsOk(c: Config, s: State, id: string, o: StartOracle, after: State)
    requires RowsOk(s.rows) && StartTakes(c, s, id, o, after) && o.now > 0 && o.newRuntimeId != ""
    ensures RowsOk(after.rows)
  {
  }

  lemma ReconcileKeepsRowsOk(rows: map<string, Workspace>, observations: map<string, Observation>, at: Time)
    requires RowsOk(rows) && at > 0 && forall id :: id in observations ==> observations[id].runtimeId != ""
    ensures RowsOk(ReconciledRows(rows, observations, at))
  {
  }

  lemma DeleteKeepsRowsOk(s: State, id: string, value: Workspace, o: DeleteOracle, after: State)
    requires RowsOk(s.rows) && DeleteTakes(s, id, value, o, after)
    ensures RowsOk(after.rows)
  {
  }

  lemma RowReplaced(rows: map<string, Workspace>, id: string, r: Workspace)
    requires RowsOk(rows) && RowOk(r)
    ensures RowsOk(rows[id := r])
  {
  }

  lemma StepKeepsRowsOk(c: Config, sys: System, step: Step, after: State)
    requires Safe(sys) && Enabled(sys, step) && Takes(c, sys.state, step, after)
    ensures RowsOk(after.rows)
  {
    var s := sys.state;
    match step
    case Create(input, o) => CreateKeepsRowsOk(c, s, input, o, after);
    case StartOne(id, o) => StartKeepsRowsOk(c, s, id, o, after);
    case ReconcileAll(observations, at) => ReconcileKeepsRowsOk(s.rows, observations, at);
    case DeleteOne(id, value, o) => DeleteKeepsRowsOk(s, id, value, o, after);
    case StopOne(id, value, _, _) =>
      assert RowOk(Listed(id, value).value);
      if after != s {
        RowReplaced(s.rows, id, after.rows[id]);
      }
    case TimeOut(id, value, _, _) =>
      assert RowOk(Listed(id, value).value);
      if after != s {
        RowReplaced(s.rows, id, after.rows[id]);
      }
    case Connect(id, _, _) =>
      if after != s {
        RowReplaced(s.rows, id, after.rows[id]);
      }
    case Disconnect(id, _, _) =>
      if after != s {
        RowReplaced(s.rows, id, after.rows[id]);
      }
    case _ =>
  }

  lemma StepKeepsSafe(c: Config, sys: System, step: Step)
    requires Consistent(sys) && Safe(sys) && Enabled(sys, step)
    ensures Safe(Apply(c, sys, step))
  {
    var after := StepTakes(c, sys, step);
    StepKeepsRowsOk(c, sys, step, after);
  }

  /** Every run keeps the lifecycle invariant, for the stored rows and for every
      snapshot an operation may still act on. */
  lemma RunsAreSafe(c: Config, trace: seq<System>, steps: seq<Step>)
    requires Run(c, trace, steps) && Consistent(trace[0]) && Safe(trace[0])
    ensures forall i :: 0 <= i < |trace| ==> Consistent(trace[i]) && Safe(trace[i])
  {
    for i := 0 to |steps|
      invariant forall k :: 0 <= k <= i ==> Consistent(trace[k]) && Safe(trace[k])
    {
      assert StepAt(c, trace, steps, i);
      StepKeepsConsistent(c, trace[i], steps[i]);
      StepKeepsSafe(c, trace[i], steps[i]);
    }
  }

  lemma InitiallySafe(sys: System)
    requires Initial(sys)
    ensures Consistent(sys) && Safe(sys)
  {
  }

  // ---------------------------------------------------------------------
  // What the timeouts do to a workspace

  /** No connection for the whole idle window that ends now. */
  predicate IdleExpired(w: Workspace, now: Time) {
    w.observed == Running && w.activeSessions == 0 && w.idleSince != 0 && w.idleTimeout > 0 && w.idleSince + w.idleTimeout <= now
  }

  predicate RetentionExpired(w: Workspace, now: Time) {
    && w.observed != Running && w.runtimeId != "" && w.containerDeletedAt == 0
    && w.stoppedAt != 0 && w.stoppedRetention > 0 && w.stoppedAt + w.stoppedRetention <= now
  }

  /** In a row that satisfies the invariant neither timeout hides the other. */
  lemma TimeoutsAreExclusive(w: Workspace, now: Time)
    requires RowOk(w)
    ensures EvaluateTimeouts(w, now).action == StopAction <==> IdleExpired(w, now)
    ensures EvaluateTimeouts(w, now).action == DeleteAction <==> RetentionExpired(w, now)
    ensures !(IdleExpired(w, now) && RetentionExpired(w, now))
  {
  }

  /** Without the invariant the retention branch would shadow the idle branch and
      a running workspace would never be stopped. */
  lemma InvariantNeededForIdleStop(w: Workspace, now: Time)
    requires IdleExpired(w, now) && w.runtimeId != ""
    ensures EvaluateTimeouts(w, now).action != StopAction <==>
              w.stoppedAt != 0 && w.containerDeletedAt == 0 && w.stoppedRetention > 0
  {
  }

  /** Nothing but the runtime itself takes a running container away. */
  lemma StepSparesRunning(c: Config, s: State, step: Step, after: State, id: string)
    requires Takes(c, s, step, after) && id in s.containers && s.containers[id].running
    ensures step != ContainerVanishes(id) ==> id in after.containers
  {
    match step
    case Create(input, o) => assert CreateTakes(c, s, input, o, after);
    case StartOne(other, o) => assert StartTakes(c, s, other, o, after);
    case StopOne(other, value, now, _) => assert StopTakes(s, other, value, now, after);
    case DeleteOne(other, value, o) => assert DeleteTakes(s, other, value, o, after);
    case TimeOut(other, value, now, _) => assert TimeoutTakes(s, other, value, now, after);
    case _ =>
  }

  /** The timeout step takes the running container of `id` out of service. */
  ghost predicate CutsOff(s: State, after: State, id: string) {
    && id in s.containers && s.containers[id].running
    && !(id in after.containers && after.containers[id].running)
  }

  /** The listed row is acted on and its handle is that of the running container. */
  ghost predicate ActsOnRunning(s: State, id: string, value: Workspace, now: Time, runtimeOk: bool) {
    && EvaluateTimeouts(value, now).action == StopAction && runtimeOk && id in s.rows
    && HasContainer(s.containers, id, value.runtimeId) && s.containers[id].running
  }

  lemma TimeoutCutsOffIff(s: State, id: string, value: Workspace, now: Time, runtimeOk: bool)
    requires RowOk(value)
    ensures CutsOff(s, TimeoutSpec(s, id, value, now, runtimeOk).0, id) <==> ActsOnRunning(s, id, value, now, runtimeOk)
  {
    TimeoutsAreExclusive(value, now);
  }

  /** In no step of any run does anything but the runtime itself take a running
      container away. A timeout stops a workspace that is not idle exactly when the
      listed row was due, its handle still fits, and evaluating the stored row again
      under the lock would not give a stop: repeating that evaluation is the check
      that is missing. */
  lemma TimeoutsSpareBusyWorkspaces(c: Config, trace: seq<System>, steps: seq<Step>, i: nat, id: string)
    requires Run(c, trace, steps) && Consistent(trace[0]) && Safe(trace[0]) && i < |steps|
    requires id in trace[i].state.containers && trace[i].state.containers[id].running
    ensures id !in trace[i + 1].state.containers ==> steps[i] == ContainerVanishes(id)
    ensures steps[i].TimeOut? && steps[i].id == id && id in trace[i].state.rows ==>
              var s, step := trace[i].state, steps[i];
              (CutsOff(s, trace[i + 1].state, id) && !IdleExpired(s.rows[id], step.now) <==>
                && ActsOnRunning(s, id, step.value, step.now, step.ok)
                && EvaluateTimeouts(s.rows[id], step.now).action != StopAction)
  {
    RunsAreSafe(c, trace, steps);
    assert StepAt(c, trace, steps, i);
    var after := StepTakes(c, trace[i], steps[i]);
    StepSparesRunning(c, trace[i].state, steps[i], after, id);
    if steps[i].TimeOut? && steps[i].id == id && id in trace[i].state.rows {
      TimeoutLaw(trace[i], steps[i]);
    }
  }

  lemma TimeoutLaw(sys: System, step: Step)
    requires Safe(sys) && step.TimeOut? && step.id in sys.state.rows && Listed(step.id, step.value) in sys.snapshots
    ensures var s, id := sys.state, step.id;
            CutsOff(s, TimeoutSpec(s, id, step.value, step.now, step.ok).0, id) && !IdleExpired(s.rows[id], step.now) <==>
              && ActsOnRunning(s, id, step.value, step.now, step.ok)
              && EvaluateTimeouts(s.rows[id], step.now).action != StopAction
  {
    assert RowOk(Listed(step.id, step.value).value);
    TimeoutCutsOffIff(sys.state, step.id, step.value, step.now, step.ok);
    TimeoutsAreExclusive(sys.state.rows[step.id], step.now);
  }

  /** A run in which the check would have helped: whenever a workspace is due, a
      connection between the listing and the timeout's turn is cut. */
  lemma StaleTimeoutStopsConnectedWorkspace(c: Config, sys: System, id: string, session: nat, now: Time)
    requires id in sys.state.rows && sys.state.rows[id].runtimeId != "" && now > 0
    requires EvaluateTimeouts(sys.state.rows[id], now).action == StopAction
    requires HasContainer(sys.state.containers, id, sys.state.rows[id].runtimeId)
    ensures var row := sys.state.rows[id];
            var listed := Apply(c, sys, Read(id));
            var connected := Apply(c, listed, Connect(id, session, now));
            && Enabled(connected, TimeOut(id, row, now, true))
            && var stopped := Apply(c, connected, TimeOut(id, row, now, true)).state;
               stopped.rows[id].activeSessions == 1 && stopped.rows[id].observed == Stopped && !stopped.containers[id].running
  {
    var row := sys.state.rows[id];
    var listed := Apply(c, sys, Read(id));
    var connected := Apply(c, listed, Connect(id, session, now));
    assert connected.state == WithRow(sys.state, id, SessionStarted(row, now));
    assert Listed(id, row) in connected.snapshots;
    assert TimeoutSpec(connected.state, id, row, now, true).0 == HaltedSpec(connected.state, id, row, now);
  }

  // ---------------------------------------------------------------------
  // A start writes the container-deletion time back unchanged

  /** The retention timeout has run once, and no snapshot from before can still
      write to the row through the workspace's container. */
  ghost predicate RetentionSpent(sys: System, id: string) {
    && id in sys.used
    && (id in sys.state.rows ==> sys.state.rows[id].containerDeletedAt != 0)
    && (forall l :: l in sys.snapshots && l.id == id && HasContainer(sys.state.containers, id, l.value.runtimeId) ==>
          l.value.containerDeletedAt != 0)
  }

  lemma RetentionSpentRow(c: Config, sys: System, step: Step, id: string, after: State)
    requires Consistent(sys) && RetentionSpent(sys, id) && Enabled(sys, step) && Takes(c, sys.state, step, after)
    ensures id in after.rows ==> after.rows[id].containerDeletedAt != 0
  {
    match step
    case StopOne(_, value, _, _) => assert Listed(step.id, value).value == value;
    case TimeOut(_, value, _, _) => assert Listed(step.id, value).value == value;
    case _ =>
  }

  lemma CreatedHandleIsNew(c: Config, s: State, input: CreateInput, o: CreateOracle, after: State, id: string,
                           handle: string)
    requires CreateTakes(c, s, input, o, after) && id != input.id && HasContainer(after.containers, id, handle)
    ensures HasContainer(s.containers, id, handle)
  {
  }

  lemma StartedHandleIsNew(c: Config, s: State, other: string, o: StartOracle, after: State, id: string,
                           handle: string)
    requires StartTakes(c, s, other, o, after) && handle != o.newRuntimeId
    requires HasContainer(after.containers, id, handle)
    ensures HasContainer(s.containers, id, handle)
  {
  }

  /** A container that carries a handle some snapshot knows was there before. */
  lemma HandlesAreFresh(c: Config, sys: System, step: Step, id: string, after: State, l: Listed)
    requires Consistent(sys) && Enabled(sys, step) && Takes(c, sys.state, step, after) && id in sys.used
    requires l in sys.snapshots && HasContainer(after.containers, id, l.value.runtimeId)
    ensures HasContainer(sys.state.containers, id, l.value.runtimeId)
  {
    var s := sys.state;
    match step
    case Create(input, o) => CreatedHandleIsNew(c, s, input, o, after, id, l.value.runtimeId);
    case StartOne(other, o) => StartedHandleIsNew(c, s, other, o, after, id, l.value.runtimeId);
    case StopOne(other, value, now, _) => assert StopTakes(s, other, value, now, after);
    case DeleteOne(other, value, o) => assert DeleteTakes(s, other, value, o, after);
    case TimeOut(other, value, now, _) => assert TimeoutTakes(s, other, value, now, after);
    case _ =>
  }

  lemma StepKeepsRetentionSpent(c: Config, sys: System, step: Step, id: string)
    requires Consistent(sys) && RetentionSpent(sys, id) && Enabled(sys, step)
    ensures RetentionSpent(Apply(c, sys, step), id)
  {
    var after := StepTakes(c, sys, step);
    RetentionSpentRow(c, sys, step, id, after);
    forall l | l in sys.snapshots && l.id == id && HasContainer(after.containers, id, l.value.runtimeId)
      ensures l.value.containerDeletedAt != 0
    {
      HandlesAreFresh(c, sys, step, id, after, l);
    }
  }

  /** Once the retention timeout has removed a workspace's container it never
      becomes due again, however often the workspace is started and stopped. */
  lemma RetentionTimeoutFiresOnce(c: Config, trace: seq<System>, steps: seq<Step>, id: string, i: nat, now: Time)
    requires Run(c, trace, steps) && Consistent(trace[0]) && RetentionSpent(trace[0], id) && i < |trace|
    ensures id in trace[i].state.rows ==> EvaluateTimeouts(trace[i].state.rows[id], now).action != DeleteAction
  {
    for k := 0 to i
      invariant Consistent(trace[k]) && RetentionSpent(trace[k], id)
    {
      assert StepAt(c, trace, steps, k);
      StepKeepsConsistent(c, trace[k], steps[k]);
      StepKeepsRetentionSpent(c, trace[k], steps[k], id);
    }
  }

  /** A timeout deletion that took the container away spends the retention. */
  lemma TimeoutDeleteSpendsRetention(c: Config, sys: System, id: string, value: Workspace, now: Time)
    requires Consistent(sys) && Enabled(sys, TimeOut(id, value, now, true)) && id in sys.state.rows
    requires EvaluateTimeouts(value, now).action == DeleteAction
    requires (value.observed == Stopped || value.observed == Exited)
    requires HasContainer(sys.state.containers, id, value.runtimeId) && !sys.state.containers[id].running
    ensures RetentionSpent(Apply(c, sys, TimeOut(id, value, now, true)), id)
  {
  }
}
