/** Admission safety over whole runs: check-then-act under the admission lock
    keeps every host-wide and per-owner sum inside its limit. */
module Admission {
  import opened Domain
  import opened Quota
  import opened Timeouts
  import opened Mounts
  import opened Lifecycle
  import opened Service
  import opened Effects
  import opened Runs

  // ---------------------------------------------------------------------
  // The bounds

  ghost predicate HostBound(c: Config, rows: map<string, Workspace>) {
    && Total(rows, AllOwners, RunningCpu) <= CpuCeiling(c) as int
    && Total(rows, AllOwners, RunningMemory) <= MemoryCeiling(c) as int
  }

  /** An owner with a quota stays within each limit of it that is not 0. */
  ghost predicate OwnerBound(c: Config, rows: map<string, Workspace>, user: string) {
    var quota, scope := QuotaOf(c, user), OwnedBy(user);
    quota.Some? ==>
      && Within(Total(rows, scope, RunningCpu), 0, quota.value.maxCpu as int)
      && Within(Total(rows, scope, RunningMemory), 0, quota.value.maxMemory as int)
      && Within(Total(rows, scope, RunningWorkspaces), 0, quota.value.maxRunning as int)
      && Within(Total(rows, scope, Workspaces), 0, quota.value.maxWorkspaces as int)
  }

  ghost predicate Bounded(c: Config, rows: map<string, Workspace>) {
    HostBound(c, rows) && forall user :: OwnerBound(c, rows, user)
  }

  // ---------------------------------------------------------------------
  // Steps that use no more than before

  ghost predicate UsesNoMore(before: map<string, Workspace>, after: map<string, Workspace>) {
    && after.Keys <= before.Keys
    && (forall id :: id in after ==> SameIdentity(before[id], after[id]) && (after[id].observed == Running ==> before[id].observed == Running))
  }

  lemma {:induction false} TotalShrinks(before: map<string, Workspace>, after: map<string, Workspace>, scope: Scope,
                                        measure: Measure)
    requires UsesNoMore(before, after)
    ensures Total(after, scope, measure) <= Total(before, scope, measure)
    decreases |before|
  {
    if before == map[] {
      assert after.Keys == {};
      assert after == map[];
    } else {
      var id :| id in before;
      TotalWithout(before, id, scope, measure);
      assert (before - {id}).Keys == before.Keys - {id};
      TotalShrinks(before - {id}, after - {id}, scope, measure);
      if id in after {
        TotalWithout(after, id, scope, measure);
      } else {
        assert after - {id} == after;
      }
    }
  }

  lemma BoundedShrinks(c: Config, before: map<string, Workspace>, after: map<string, Workspace>)
    requires Bounded(c, before) && UsesNoMore(before, after)
    ensures Bounded(c, after)
  {
    forall scope, measure ensures Total(after, scope, measure) <= Total(before, scope, measure) {
      TotalShrinks(before, after, scope, measure);
    }
    forall user ensures OwnerBound(c, after, user) {
      assert OwnerBound(c, before, user);
    }
  }

  // ---------------------------------------------------------------------
  // Steps that were admitted

  lemma StartStaysBounded(c: Config, rows: map<string, Workspace>, id: string, r: Workspace)
    requires Bounded(c, rows) && id in rows && SameIdentity(rows[id], r)
    requires rows[id].observed != Running && r.observed == Running
    requires StartAdmissible(c, rows, r.owner, r.cpu, r.memory)
    ensures Bounded(c, rows[id := r])
  {
    TotalUpdated(rows, id, r, AllOwners, RunningCpu);
    TotalUpdated(rows, id, r, AllOwners, RunningMemory);
    var after := rows[id := r];
    forall user ensures OwnerBound(c, after, user) {
      assert OwnerBound(c, rows, user);
      forall measure
        ensures Total(rows[id := r], OwnedBy(user), measure)
             == Total(rows, OwnedBy(user), measure) + Weight(r, OwnedBy(user), measure) - Weight(rows[id], OwnedBy(user), measure)
      {
        TotalUpdated(rows, id, r, OwnedBy(user), measure);
      }
    }
  }

  lemma CreateStaysBounded(c: Config, rows: map<string, Workspace>, input: CreateInput, o: CreateOracle)
    requires Bounded(c, rows) && input.id !in rows && MayCreate(c, rows, input, o)
    ensures Bounded(c, rows[input.id := NewRow(input)])
  {
    var id, r := input.id, NewRow(input);
    TotalUpdated(rows, id, r, AllOwners, RunningCpu);
    TotalUpdated(rows, id, r, AllOwners, RunningMemory);
    var after := rows[id := r];
    forall user ensures OwnerBound(c, after, user) {
      assert OwnerBound(c, rows, user);
      forall measure
        ensures Total(rows[id := r], OwnedBy(user), measure) == Total(rows, OwnedBy(user), measure) + Weight(r, OwnedBy(user), measure)
      {
        TotalUpdated(rows, id, r, OwnedBy(user), measure);
      }
    }
  }

  // ---------------------------------------------------------------------
  // Reconciliation must not find a workspace running that was not admitted

  /** A running container of a known workspace is recorded as running, by its handle. */
  ghost predicate Recorded(s: State) {
    forall id :: id in s.rows && id in s.containers && s.containers[id].running ==>
      s.rows[id].observed == Running && s.rows[id].runtimeId == s.containers[id].runtimeId
  }

  /** What is observed of one workspace is what its container does. */
  ghost predicate TruthfulAt(s: State, observations: map<string, Observation>, id: string) {
    && (id in observations && Normalize(observations[id].state) == Running <==> id in s.containers && s.containers[id].running)
    && (id in observations && id in s.containers ==> observations[id].runtimeId == s.containers[id].runtimeId)
  }

  /** An observation of the runtime as it is: exactly the running containers are
      reported as running, by their handles. */
  ghost predicate Truthful(s: State, observations: map<string, Observation>) {
    forall id :: TruthfulAt(s, observations, id)
  }

  /** The timeout removes a row's container by a handle that is out of date while
      the workspace runs under another one: the runtime knows no such container,
      which counts as success, and the running workspace is marked as removed. */
  ghost predicate HidesRunning(s: State, id: string, value: Workspace, now: Time, runtimeOk: bool) {
    && EvaluateTimeouts(value, now).action == DeleteAction && (value.observed == Stopped || value.observed == Exited) && runtimeOk
    && id in s.rows && id in s.containers && s.containers[id].running && s.containers[id].runtimeId != value.runtimeId
  }

  /** What admission needs besides the lock: reconciliation sees the runtime as it
      is, and no timeout hides a running workspace. */
  ghost predicate Faithful(sys: System, step: Step) {
    match step
    case ReconcileAll(observations, _) => Truthful(sys.state, observations)
    case TimeOut(id, value, now, ok) => !HidesRunning(sys.state, id, value, now, ok)
    case _ => true
  }

  ghost predicate Accounted(c: Config, sys: System) {
    Consistent(sys) && Bounded(c, sys.state.rows) && Recorded(sys.state)
  }

  lemma ReconcileKeepsRecorded(s: State, observations: map<string, Observation>, at: Time)
    requires Recorded(s) && Truthful(s, observations)
    ensures Recorded(s.(rows := ReconciledRows(s.rows, observations, at)))
    ensures UsesNoMore(s.rows, ReconciledRows(s.rows, observations, at))
  {
    forall id | id in s.rows
      ensures var r := ReconciledRow(s.rows[id], Lookup(observations, id), at);
              && (id in s.containers && s.containers[id].running ==> r.observed == Running && r.runtimeId == s.containers[id].runtimeId)
              && (r.observed == Running ==> s.rows[id].observed == Running)
    {
      assert TruthfulAt(s, observations, id);
    }
  }

  lemma CreateKeepsRecorded(c: Config, s: State, input: CreateInput, o: CreateOracle, after: State)
    requires Recorded(s) && CreateTakes(c, s, input, o, after) && input.id !in s.containers && input.id !in s.rows
    ensures Recorded(after)
  {
  }

  lemma StartKeepsRecorded(c: Config, s: State, id: string, o: StartOracle, after: State)
    requires Recorded(s) && StartTakes(c, s, id, o, after)
    ensures Recorded(after)
  {
  }

  lemma StopKeepsRecorded(s: State, id: string, value: Workspace, now: Time, after: State)
    requires Recorded(s) && StopTakes(s, id, value, now, after)
    ensures Recorded(after)
  {
  }

  /** A timeout keeps every running workspace on record exactly when it hides none. */
  lemma TimeoutKeepsRecordedIff(s: State, id: string, value: Workspace, now: Time, runtimeOk: bool)
    requires Recorded(s)
    ensures Recorded(TimeoutSpec(s, id, value, now, runtimeOk).0) <==> !HidesRunning(s, id, value, now, runtimeOk)
  {
    var after, ok := TimeoutEffect(s, id, value, now, runtimeOk);
    if HidesRunning(s, id, value, now, runtimeOk) {
      assert after.rows[id].observed == Removed && after.containers[id].running;
    }
  }

  lemma DeleteKeepsRecorded(s: State, id: string, value: Workspace, o: DeleteOracle, after: State)
    requires Recorded(s) && DeleteTakes(s, id, value, o, after)
    ensures Recorded(after)
  {
  }

  lemma StepKeepsRecorded(c: Config, sys: System, step: Step, after: State)
    requires Consistent(sys) && Recorded(sys.state) && Enabled(sys, step) && Faithful(sys, step)
    requires Takes(c, sys.state, step, after)
    requires step.TimeOut? ==> after == TimeoutSpec(sys.state, step.id, step.value, step.now, step.ok).0
    ensures Recorded(after)
  {
    match step
    case Create(input, o) => CreateKeepsRecorded(c, sys.state, input, o, after);
    case StartOne(id, o) => StartKeepsRecorded(c, sys.state, id, o, after);
    case StopOne(id, value, now, _) => StopKeepsRecorded(sys.state, id, value, now, after);
    case DeleteOne(id, value, o) => DeleteKeepsRecorded(sys.state, id, value, o, after);
    case TimeOut(id, value, now, ok) => TimeoutKeepsRecordedIff(sys.state, id, value, now, ok);
    case ReconcileAll(observations, at) => ReconcileKeepsRecorded(sys.state, observations, at);
    case _ =>
  }

  lemma CreateKeepsBounded(c: Config, s: State, input: CreateInput, o: CreateOracle, after: State)
    requires Bounded(c, s.rows) && CreateTakes(c, s, input, o, after) && input.id !in s.rows
    ensures Bounded(c, after.rows)
  {
    if after.rows != s.rows {
      CreateStaysBounded(c, s.rows, input, o);
      var placed := s.rows[input.id := NewRow(input)];
      assert placed[input.id := after.rows[input.id]] == after.rows;
      if after.containers != s.containers {
        assert MayStart(c, placed, input.id);
        StartStaysBounded(c, placed, input.id, after.rows[input.id]);
      }
    }
  }

  lemma StartKeepsBounded(c: Config, s: State, id: string, o: StartOracle, after: State)
    requires Bounded(c, s.rows) && StartTakes(c, s, id, o, after)
    ensures Bounded(c, after.rows)
  {
    if after != s && after.rows[id].observed == Running && s.rows[id].observed != Running {
      StartStaysBounded(c, s.rows, id, after.rows[id]);
    } else {
      BoundedShrinks(c, s.rows, after.rows);
    }
  }

  lemma DeleteUsesNoMore(s: State, id: string, value: Workspace, o: DeleteOracle, after: State)
    requires DeleteTakes(s, id, value, o, after)
    ensures UsesNoMore(s.rows, after.rows)
  {
  }

  lemma RowUsesNoMore(rows: map<string, Workspace>, id: string, r: Workspace)
    requires id in rows && SameIdentity(rows[id], r) && (r.observed == Running ==> rows[id].observed == Running)
    ensures UsesNoMore(rows, rows[id := r])
  {
  }

  lemma OthersUseNoMore(c: Config, s: State, step: Step, after: State)
    requires Takes(c, s, step, after) && !step.Create? && !step.StartOne? && !step.ReconcileAll?
    ensures UsesNoMore(s.rows, after.rows)
  {
    match step
    case DeleteOne(id, value, o) => DeleteUsesNoMore(s, id, value, o, after);
    case StopOne(id, value, now, _) =>
      if after.rows != s.rows {
        RowUsesNoMore(s.rows, id, after.rows[id]);
      }
    case TimeOut(id, value, now, _) =>
      if after.rows != s.rows {
        RowUsesNoMore(s.rows, id, after.rows[id]);
      }
    case Connect(id, _, _) =>
      if after.rows != s.rows {
        RowUsesNoMore(s.rows, id, after.rows[id]);
      }
    case Disconnect(id, _, _) =>
      if after.rows != s.rows {
        RowUsesNoMore(s.rows, id, after.rows[id]);
      }
    case _ =>
  }

  lemma StepKeepsBounded(c: Config, sys: System, step: Step, after: State)
    requires Accounted(c, sys) && Enabled(sys, step) && Faithful(sys, step) && Takes(c, sys.state, step, after)
    ensures Bounded(c, after.rows)
  {
    match step
    case Create(input, o) => CreateKeepsBounded(c, sys.state, input, o, after);
    case StartOne(id, o) => StartKeepsBounded(c, sys.state, id, o, after);
    case ReconcileAll(observations, at) =>
      ReconcileKeepsRecorded(sys.state, observations, at);
      BoundedShrinks(c, sys.state.rows, after.rows);
    case _ =>
      OthersUseNoMore(c, sys.state, step, after);
      BoundedShrinks(c, sys.state.rows, after.rows);
  }

  /** Whatever creations, starts, stops, deletions, timeouts and reconciliations
      occur, in any order and with any failures, the scaled host capacity and
      every owner's limits hold in every state. */
  lemma RunsStayWithinLimits(c: Config, trace: seq<System>, steps: seq<Step>)
    requires Run(c, trace, steps) && Accounted(c, trace[0])
    requires forall i :: 0 <= i < |steps| ==> Faithful(trace[i], steps[i])
    ensures forall i :: 0 <= i < |trace| ==> Accounted(c, trace[i])
  {
    for i := 0 to |steps|
      invariant forall k :: 0 <= k <= i ==> Accounted(c, trace[k])
    {
      assert StepAt(c, trace, steps, i);
      var after := StepTakes(c, trace[i], steps[i]);
      StepKeepsConsistent(c, trace[i], steps[i]);
      StepKeepsRecorded(c, trace[i], steps[i], after);
      StepKeepsBounded(c, trace[i], steps[i], after);
    }
  }

  lemma InitiallyAccounted(c: Config, sys: System)
    requires Initial(sys)
    ensures Accounted(c, sys)
  {
  }
}
