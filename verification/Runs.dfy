/** Whole runs of the control plane: any interleaving of complete critical
    sections with each other, with reads of rows that are acted on later, and
    with the runtime changing on its own. */
module Runs {
  import opened Domain
  import opened Quota
  import opened Timeouts
  import opened Mounts
  import opened Lifecycle
  import opened Service
  import opened Effects

  /** `snapshots` holds every row an operation has read so far and may still act on:
      Stop, Delete and RunTimeouts read before they take their locks. `used`
      holds every workspace ID generated so far. */
  datatype System = System(state: State, snapshots: set<Listed>, used: set<string>)

  /** `session` names the session that begins or ends; the control plane itself
      does not record it. */
  datatype Step =
    | Read(id: string)
    | Create(input: CreateInput, create: CreateOracle)
    | StartOne(id: string, start: StartOracle)
    | StopOne(id: string, value: Workspace, now: Time, ok: bool)
    | DeleteOne(id: string, value: Workspace, delete: DeleteOracle)
    | TimeOut(id: string, value: Workspace, now: Time, ok: bool)
    | ReconcileAll(observations: map<string, Observation>, at: Time)
    | Connect(id: string, session: nat, at: Time)
    | Disconnect(id: string, session: nat, at: Time)
    | UseFiles(id: string, fault: nat)
    | WriteData(id: string, entry: string, content: Content)
    | DiscardDirectory(id: string, owner: string, ok: bool)
    | ContainerStops(id: string)
    | ContainerVanishes(id: string)

  /** A handle the runtime has not given out to anything still known. */
  ghost predicate FreshHandle(sys: System, runtimeId: string) {
    && runtimeId != ""
    && (forall id :: id in sys.state.containers ==> sys.state.containers[id].runtimeId != runtimeId)
    && (forall id :: id in sys.state.rows ==> sys.state.rows[id].runtimeId != runtimeId)
    && (forall l :: l in sys.snapshots ==> l.value.runtimeId != runtimeId)
  }

  /** A snapshot may be arbitrarily old but must have been read; generated IDs and
      handles are fresh, IDs have one length, and clocks are never zero. */
  ghost predicate Enabled(sys: System, step: Step) {
    match step
    case Read(id) => id in sys.state.rows
    case Create(input, o) => input.id !in sys.used && |input.id| == ID_LENGTH && o.start.now > 0 && FreshHandle(sys, o.start.newRuntimeId)
    case StartOne(id, o) => o.now > 0 && FreshHandle(sys, o.newRuntimeId)
    case StopOne(id, value, now, _) => Listed(id, value) in sys.snapshots && now > 0
    case DeleteOne(id, value, _) => Listed(id, value) in sys.snapshots
    case TimeOut(id, value, now, _) => Listed(id, value) in sys.snapshots && now > 0
    case ReconcileAll(observations, at) => at > 0 && forall id :: id in observations ==> observations[id].runtimeId != ""
    case Connect(_, _, at) => at > 0
    case Disconnect(_, _, at) => at > 0
    case WriteData(id, entry, _) => id in sys.state.rows && Path(Live, id, entry) in sys.state.files.entries
    case _ => true
  }

  /** What a process of the workspace or an upload leaves in one of its mounts. */
  ghost function Written(files: Files, p: Path, content: Content): Files
    requires p in files.entries
  {
    RawFiles(files.dirs, files.entries[p := content])
  }

  /** File access creates missing mount directories, in the states that allow it. */
  ghost function UseFilesSpec(s: State, id: string, fault: nat): State {
    if id !in s.rows || s.rows[id].observed !in {Running, Stopped, Exited} then s
    else s.(files := EnsureSpec(s.files, id, s.rows[id].mounts, fault).0)
  }

  ghost function ApplyState(c: Config, s: State, step: Step): State
    requires step.WriteData? ==> Path(Live, step.id, step.entry) in s.files.entries
  {
    match step
    case Read(_) => s
    case Create(input, o) => CreateSpec(c, s, input, o).0
    case StartOne(id, o) => StartSpec(c, s, id, map[], o).0
    case StopOne(id, value, now, ok) => StopSpec(s, id, value, now, ok).0
    case DeleteOne(id, value, o) => DeleteSpec(s, id, value, o).0
    case TimeOut(id, value, now, ok) => TimeoutSpec(s, id, value, now, ok).0
    case ReconcileAll(observations, at) => s.(rows := ReconciledRows(s.rows, observations, at))
    case Connect(id, _, at) => if id in s.rows && s.rows[id].observed == Running then WithRow(s, id, SessionStarted(s.rows[id], at)) else s
    case Disconnect(id, _, at) => if id in s.rows then WithRow(s, id, SessionEnded(s.rows[id], at)) else s
    case UseFiles(id, fault) => UseFilesSpec(s, id, fault)
    case WriteData(id, entry, content) => s.(files := Written(s.files, Path(Live, id, entry), content))
    case DiscardDirectory(id, owner, ok) => DiscardRetainedSpec(s, id, owner, ok).0
    case ContainerStops(id) => if id in s.containers then s.(containers := s.containers[id := s.containers[id].(running := false)]) else s
    case ContainerVanishes(id) => s.(containers := s.containers - {id})
  }

  ghost function Apply(c: Config, sys: System, step: Step): System
    requires Enabled(sys, step)
  {
    System(ApplyState(c, sys.state, step),
           if step.Read? then sys.snapshots + {Listed(step.id, sys.state.rows[step.id])} else sys.snapshots,
           if step.Create? then sys.used + {step.input.id} else sys.used)
  }

  /** The steps a pass of RunTimeouts amounts to from row `i` on. */
  ghost function PassSteps(listed: seq<Listed>, now: Time, waits: seq<LockWait>, runtimeOk: seq<bool>, i: nat): seq<Step>
    requires i <= |listed| && |runtimeOk| == |waits| == |listed|
    decreases |listed| - i
  {
    if i == |listed| || waits[i] == ContextEnded then []
    else
      var rest := PassSteps(listed, now, waits, runtimeOk, i + 1);
      if waits[i] == Acquired then [TimeOut(listed[i].id, listed[i].value, now, runtimeOk[i])] + rest else rest
  }

  /** The state after timeout steps alone. */
  ghost function AfterTimeouts(s: State, steps: seq<Step>): State
    requires forall i :: 0 <= i < |steps| ==> steps[i].TimeOut?
    decreases |steps|
  {
    if steps == [] then s
    else AfterTimeouts(TimeoutSpec(s, steps[0].id, steps[0].value, steps[0].now, steps[0].ok).0, steps[1..])
  }

  /** A pass is the timeout steps of the rows whose lock it got, up to the end of its context. */
  lemma {:induction false} PassIsTimeoutSteps(s: State, listed: seq<Listed>, now: Time, waits: seq<LockWait>,
                                              runtimeOk: seq<bool>, i: nat, failed: nat)
    requires i <= |listed| && |runtimeOk| == |waits| == |listed|
    ensures var steps := PassSteps(listed, now, waits, runtimeOk, i);
            && (forall k :: 0 <= k < |steps| ==> steps[k].TimeOut?)
            && TimeoutsSpec(s, listed, now, waits, runtimeOk, i, failed).0 == AfterTimeouts(s, steps)
    decreases |listed| - i
  {
    if i < |listed| && waits[i] != ContextEnded {
      if waits[i] == Acquired {
        var (after, ok) := TimeoutSpec(s, listed[i].id, listed[i].value, now, runtimeOk[i]);
        PassIsTimeoutSteps(after, listed, now, waits, runtimeOk, i + 1, if ok then failed else failed + 1);
        var rest := PassSteps(listed, now, waits, runtimeOk, i + 1);
        assert PassSteps(listed, now, waits, runtimeOk, i)[1..] == rest;
      } else {
        PassIsTimeoutSteps(s, listed, now, waits, runtimeOk, i + 1, failed);
      }
    }
  }

  /** Step `i` leads from state `i` to the next. */
  ghost predicate StepAt(c: Config, trace: seq<System>, steps: seq<Step>, i: nat)
    requires i < |steps| && |trace| == |steps| + 1
  {
    Enabled(trace[i], steps[i]) && trace[i + 1] == Apply(c, trace[i], steps[i])
  }

  /** `trace` is a run that takes `steps`. */
  ghost predicate Run(c: Config, trace: seq<System>, steps: seq<Step>) {
    |trace| == |steps| + 1 && forall i :: 0 <= i < |steps| ==> StepAt(c, trace, steps, i)
  }

  /** No workspace yet: the state the control plane starts from. */
  ghost predicate Initial(sys: System) {
    sys == System(State(map[], map[], {}, sys.state.files, map[], map[]), {}, {}) && sys.state.files == RawFiles({}, map[])
  }

  // ---------------------------------------------------------------------
  // What a read row and the stored row have in common

  /** The columns no operation changes after creation. */
  ghost predicate SameIdentity(a: Workspace, b: Workspace) {
    && a.owner == b.owner && a.name == b.name && a.mounts == b.mounts && a.cpu == b.cpu && a.memory == b.memory
    && a.idleTimeout == b.idleTimeout && a.stoppedRetention == b.stoppedRetention
  }

  /** How one step may change the rows: every surviving row keeps its identity,
      and only a creation adds one, under its own ID. */
  ghost predicate RowsEvolve(before: map<string, Workspace>, after: map<string, Workspace>, added: set<string>) {
    && (forall id :: id in after && id in before ==> SameIdentity(before[id], after[id]))
    && (forall id :: id in after && id !in before ==> id in added)
  }

  /** A row read earlier differs from the stored one only in columns that change. */
  ghost predicate Consistent(sys: System) {
    && (forall id :: id in sys.state.rows ==> id in sys.used)
    && (forall id :: id in sys.state.containers ==> id in sys.used)
    && (forall l :: l in sys.snapshots ==> l.id in sys.used)
    && (forall l :: l in sys.snapshots && l.id in sys.state.rows ==> SameIdentity(l.value, sys.state.rows[l.id]))
  }

  // ---------------------------------------------------------------------
  // Each step as a relation between tables

  ghost predicate CreateTakes(c: Config, s: State, input: CreateInput, o: CreateOracle, after: State) {
    && (after.volumeTombs == s.volumeTombs || after.volumeTombs == ClaimOf(s, input, o).tombs)
    && (after.directoryTombs == s.directoryTombs
        || (input.reattachDirectories.Some? && after.directoryTombs == s.directoryTombs - {input.reattachDirectories.value}))
    && (after.rows == s.rows
        || (MayCreate(c, s.rows, input, o) && input.id in after.rows && after.rows == s.rows[input.id := after.rows[input.id]]
            && if after.containers == s.containers then after.rows[input.id] == NewRow(input)
               else
                 && StartedWithin(c, s, after, input, ClaimOf(s, input, o).overrides, o, after.rows[input.id])
                 && after.rows[input.id].observed == Running && after.rows[input.id].runtimeId == o.start.newRuntimeId))
    && ((after.containers == s.containers && after.volumes == s.volumes)
        || (after.volumeTombs == ClaimOf(s, input, o).tombs && LeavesContainer(s, after, input, ClaimOf(s, input, o).overrides, o)
            && (after.containers[input.id].running ==> input.id in after.rows && after.rows[input.id].observed == Running)))
  }

  /** The creation made a container, whether or not its row stayed. */
  ghost predicate LeavesContainer(s: State, after: State, input: CreateInput, overrides: map<string, string>,
                                  o: CreateOracle) {
    var attached := VolumesFor(input.id, input.mounts, overrides);
    && input.id !in s.containers && input.id in after.containers
    && after.containers == s.containers[input.id := after.containers[input.id]]
    && after.containers[input.id].runtimeId == o.start.newRuntimeId && after.containers[input.id].volumes == attached
    && after.volumes == s.volumes + attached.Values
  }

  ghost predicate StartTakes(c: Config, s: State, id: string, o: StartOracle, after: State) {
    || after == s
    || (id in s.rows && MayStart(c, s.rows, id) && id in after.rows && after.rows == s.rows[id := after.rows[id]]
        && StartOutcome(s.rows[id], after.rows[id], s.containers, after.containers, id, map[], o)
        && after.volumeTombs == s.volumeTombs && after.directoryTombs == s.directoryTombs
        && (after.files == s.files || after.files == EnsureSpec(s.files, id, s.rows[id].mounts, o.ensureFault).0)
        && after.volumes == if NeedsContainer(s.rows[id]) && after.containers != s.containers
                            then s.volumes + VolumesFor(id, s.rows[id].mounts, map[]).Values else s.volumes)
  }

  ghost predicate StopTakes(s: State, id: string, value: Workspace, now: Time, after: State) {
    || after == s
    || (id in s.rows && after == WithRow(s, id, s.rows[id].(desired := WantStopped)))
    || (Halts(s, after, id, value, now) && value.runtimeId != "")
  }

  ghost predicate TimeoutTakes(s: State, id: string, value: Workspace, now: Time, after: State) {
    var action := EvaluateTimeouts(value, now).action;
    || after == s
    || (action == StopAction && value.runtimeId != "" && value.observed == Running && Halts(s, after, id, value, now))
    || (action == DeleteAction && value.runtimeId != "" && (value.observed == Stopped || value.observed == Exited)
        && id in s.rows && Discards(s.containers, after.containers, id, value)
        && after == s.(rows := s.rows[id := RemovedRow(s.rows[id], value, now)], containers := after.containers))
  }

  ghost predicate DeleteTakes(s: State, id: string, value: Workspace, o: DeleteOracle, after: State) {
    && after.volumes == s.volumes
    && (after.files == s.files || after.files == ArchiveSpec(s.files, id, value.mounts, o.archiveFault).0)
    && (after.containers == s.containers
        || (value.runtimeId != "" && value.observed != Running && HasContainer(s.containers, id, value.runtimeId)
            && !s.containers[id].running && after.containers == s.containers - {id}))
    && ((after.rows == s.rows && after.volumeTombs == s.volumeTombs && after.directoryTombs == s.directoryTombs)
        || DeletesRow(s, id, value, o, after))
  }

  /** The transaction at the end of a deletion went through. */
  ghost predicate DeletesRow(s: State, id: string, value: Workspace, o: DeleteOracle, after: State) {
    var added := if value.runtimeId != "" then VolumeTombs(id, value.owner, value.mounts) else map[];
    var directories := DirectoryMounts(value.mounts);
    var (files, archived) := ArchiveSpec(s.files, id, value.mounts, o.archiveFault);
    && id in s.rows && after.rows == s.rows - {id} && (value.runtimeId != "" ==> value.observed != Running)
    && after.files == files && archived
    && TombsInsertable(s.volumeTombs, s.directoryTombs, id, added, directories != [])
    && after.volumeTombs == s.volumeTombs + added
    && after.directoryTombs == (if directories == [] then s.directoryTombs
                                else s.directoryTombs[id := DirectoryTomb(value.owner, directories)])
    && (value.runtimeId == "" || value.observed == Removed || value.observed == Missing
        || Discards(s.containers, after.containers, id, value))
  }

  /** `after` is what the step makes of `s`, as far as the proofs need to know. */
  ghost predicate Takes(c: Config, s: State, step: Step, after: State) {
    match step
    case Read(_) => after == s
    case Create(input, o) => CreateTakes(c, s, input, o, after)
    case StartOne(id, o) => StartTakes(c, s, id, o, after)
    case StopOne(id, value, now, _) => StopTakes(s, id, value, now, after)
    case DeleteOne(id, value, o) => DeleteTakes(s, id, value, o, after)
    case TimeOut(id, value, now, _) => TimeoutTakes(s, id, value, now, after)
    case ReconcileAll(observations, at) => after == s.(rows := ReconciledRows(s.rows, observations, at))
    case Connect(id, _, at) => after == if id in s.rows && s.rows[id].observed == Running then WithRow(s, id, SessionStarted(s.rows[id], at)) else s
    case Disconnect(id, _, at) => after == if id in s.rows then WithRow(s, id, SessionEnded(s.rows[id], at)) else s
    case UseFiles(id, fault) => after == s.(files := after.files) && (after == s || (id in s.rows && after.files == EnsureSpec(s.files, id, s.rows[id].mounts, fault).0))
    case WriteData(id, entry, content) =>
      Path(Live, id, entry) in s.files.entries && after == s.(files := Written(s.files, Path(Live, id, entry), content))
    case DiscardDirectory(id, _, _) => after == s || (id in s.directoryTombs && after == s.(files := DiscardSpec(s.files, id), directoryTombs := s.directoryTombs - {id}))
    case ContainerStops(id) => after == s || (id in s.containers && after == s.(containers := s.containers[id := s.containers[id].(running := false)]))
    case ContainerVanishes(id) => after == s.(containers := s.containers - {id})
  }

  lemma StartLeavesContainer(c: Config, s: State, after: State, input: CreateInput, overrides: map<string, string>,
                             o: CreateOracle, r: Workspace)
    requires input.cpu > 0 && input.memory > 0 && StartedWithin(c, s, after, input, overrides, o, r)
    ensures (after.containers == s.containers && after.volumes == s.volumes && r.observed != Running)
         || (after.containers != s.containers && LeavesContainer(s, after, input, overrides, o)
             && (after.containers[input.id].running ==> r.observed == Running && r.runtimeId == o.start.newRuntimeId))
  {
  }

  lemma CreateTakesHold(c: Config, s: State, input: CreateInput, o: CreateOracle) returns (after: State)
    requires input.id !in s.rows
    ensures after == CreateSpec(c, s, input, o).0
    ensures CreateTakes(c, s, input, o, after)
  {
    var reached, ok, r := CreateEffect(c, s, input, o);
    after := reached;
    if MayCreate(c, s.rows, input, o) && StartedWithin(c, s, after, input, ClaimOf(s, input, o).overrides, o, r) {
      StartLeavesContainer(c, s, after, input, ClaimOf(s, input, o).overrides, o, r);
    }
  }

  lemma StartTakesHold(c: Config, s: State, id: string, o: StartOracle) returns (after: State)
    ensures after == StartSpec(c, s, id, map[], o).0
    ensures StartTakes(c, s, id, o, after)
  {
    after := s;
    if id in s.rows && MayStart(c, s.rows, id) {
      var reached, ok := StartEffect(s, id, map[], o);
      after := reached;
    }
  }

  lemma StepTakes(c: Config, sys: System, step: Step) returns (after: State)
    requires Enabled(sys, step) && (forall id :: id in sys.state.rows ==> id in sys.used)
    ensures after == Apply(c, sys, step).state
    ensures Takes(c, sys.state, step, after)
  {
    var s := sys.state;
    match step
    case Create(input, o) => after := CreateTakesHold(c, s, input, o);
    case StartOne(id, o) => after := StartTakesHold(c, s, id, o);
    case StopOne(id, value, now, ok) =>
      var reached, done := StopEffect(s, id, value, now, ok);
      after := reached;
    case DeleteOne(id, value, o) =>
      var reached, done := DeleteEffect(s, id, value, o);
      after := reached;
    case TimeOut(id, value, now, ok) =>
      var reached, done := TimeoutEffect(s, id, value, now, ok);
      after := reached;
    case _ => after := ApplyState(c, s, step);
  }

  // ---------------------------------------------------------------------
  // Snapshots and stored rows

  lemma StepEvolvesRows(c: Config, s: State, step: Step, after: State)
    requires Takes(c, s, step, after) && (step.Create? ==> step.input.id !in s.rows)
    ensures RowsEvolve(s.rows, after.rows, if step.Create? then {step.input.id} else {})
  {
  }

  lemma ContainersStayKnown(c: Config, s: State, step: Step, after: State, id: string)
    requires Takes(c, s, step, after) && id in after.containers
    ensures id in s.containers || id in s.rows || (step.Create? && id == step.input.id)
  {
    match step
    case StopOne(other, value, now, _) => assert StopTakes(s, other, value, now, after);
    case TimeOut(other, value, now, _) => assert TimeoutTakes(s, other, value, now, after);
    case _ =>
  }

  lemma StepKeepsConsistent(c: Config, sys: System, step: Step)
    requires Consistent(sys) && Enabled(sys, step)
    ensures Consistent(Apply(c, sys, step))
  {
    var after := StepTakes(c, sys, step);
    StepEvolvesRows(c, sys.state, step, after);
    forall id | id in after.containers ensures id in Apply(c, sys, step).used {
      ContainersStayKnown(c, sys.state, step, after, id);
    }
  }
}
