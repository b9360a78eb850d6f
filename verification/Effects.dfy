/** What each operation changes, table by table: the facts that the proofs about
    whole runs share. */
module Effects {
  import opened Domain
  import opened Quota
  import opened Timeouts
  import opened Mounts
  import opened Lifecycle
  import opened Service

  // ---------------------------------------------------------------------
  // Start

  function LaunchId(w: Workspace, o: StartOracle): string {
    if NeedsContainer(w) then o.newRuntimeId else w.runtimeId
  }

  function CreatedRow(w: Workspace, o: StartOracle): Workspace {
    w.(desired := WantRunning, observed := Created, runtimeId := LaunchId(w, o))
  }

  function RunningRow(w: Workspace, o: StartOracle): Workspace {
    w.(desired := WantRunning, observed := Running, runtimeId := LaunchId(w, o), startedAt := o.now, lastConnectedAt := 0,
       stoppedAt := 0, activeSessions := 0, idleSince := o.now)
  }

  /** The containers once the one to start exists. */
  function WithContainer(containers: map<string, Container>, id: string, w: Workspace,
                         overrides: map<string, string>, o: StartOracle): map<string, Container> {
    if NeedsContainer(w) then containers[id := Container(o.newRuntimeId, false, VolumesFor(id, w.mounts, overrides))] else containers
  }

  /** The row and the containers after an admitted start: nothing was created,
      the container waits to be started, or it runs. */
  ghost predicate StartOutcome(w: Workspace, r: Workspace, before: map<string, Container>,
                               after: map<string, Container>,
                               id: string, overrides: map<string, string>, o: StartOracle)
  {
    var base := WithContainer(before, id, w, overrides, o);
    || (after == before && (r == w.(desired := WantRunning) || (w.observed != Running && r == w.(desired := WantRunning, observed := Failed, runtimeId := ""))))
    || (w.observed != Running && (NeedsContainer(w) ==> id !in before) && r == CreatedRow(w, o) && after == base)
    || (w.observed != Running && (NeedsContainer(w) ==> id !in before) && r == RunningRow(w, o)
        && HasContainer(base, id, LaunchId(w, o)) && after == base[id := base[id].(running := true)])
  }

  lemma LaunchEffect(s: State, id: string, runtimeId: string, o: StartOracle)
    requires id in s.rows
    ensures var (after, ok) := LaunchSpec(s, id, runtimeId, o);
            && after.rows == s.rows[id := after.rows[id]]
            && after == s.(rows := after.rows, containers := after.containers)
            && var w, r := s.rows[id], after.rows[id];
               if ok then
                 && r == w.(observed := Running, runtimeId := runtimeId, startedAt := o.now, lastConnectedAt := 0, stoppedAt := 0, activeSessions := 0, idleSince := o.now)
                 && HasContainer(s.containers, id, runtimeId)
                 && after.containers == s.containers[id := s.containers[id].(running := true)]
               else
                 r == w.(observed := Created, runtimeId := runtimeId) && after.containers == s.containers
  {
  }

  lemma ContainerEffect(s: State, id: string, overrides: map<string, string>, o: StartOracle)
    requires id in s.rows
    ensures var (after, ok) := ContainerSpec(s, id, overrides, o);
            var w, r, volumes := s.rows[id], after.rows[id], VolumesFor(id, s.rows[id].mounts, overrides);
            && after.rows == s.rows[id := r]
            && after.volumeTombs == s.volumeTombs && after.directoryTombs == s.directoryTombs
            && (after.files == s.files || after.files == EnsureSpec(s.files, id, w.mounts, o.ensureFault).0)
            && if ok then
                 && r == w.(observed := Created, runtimeId := o.newRuntimeId)
                 && id !in s.containers && after.containers == s.containers[id := Container(o.newRuntimeId, false, volumes)]
                 && after.volumes == s.volumes + volumes.Values
               else
                 && (r == w || r == w.(observed := Failed, runtimeId := ""))
                 && after.containers == s.containers && after.volumes == s.volumes
  {
  }

  /** A start that finds its container. */
  lemma RestartEffect(s: State, id: string, o: StartOracle) returns (after: State, ok: bool)
    requires id in s.rows && s.rows[id].observed != Running && !NeedsContainer(s.rows[id])
    ensures (after, ok) == AdmittedStartSpec(s, id, map[], o)
    ensures id in after.rows && after.rows == s.rows[id := after.rows[id]]
    ensures after == s.(rows := after.rows, containers := after.containers)
    ensures after.rows[id] == if ok then RunningRow(s.rows[id], o) else CreatedRow(s.rows[id], o)
    ensures ok ==> HasContainer(s.containers, id, s.rows[id].runtimeId)
    ensures after.containers == if ok then s.containers[id := s.containers[id].(running := true)] else s.containers
  {
    var wanted := WithRow(s, id, s.rows[id].(desired := WantRunning));
    var launched := LaunchSpec(wanted, id, s.rows[id].runtimeId, o);
    after, ok := launched.0, launched.1;
    LaunchEffect(wanted, id, s.rows[id].runtimeId, o);
  }

  /** A start that creates its container. */
  lemma FirstStartEffect(s: State, id: string, overrides: map<string, string>, o: StartOracle) returns (after: State,
                         ok: bool)
    requires id in s.rows && s.rows[id].observed != Running && NeedsContainer(s.rows[id])
    ensures (after, ok) == AdmittedStartSpec(s, id, overrides, o)
    ensures id in after.rows && after.rows == s.rows[id := after.rows[id]]
    ensures StartOutcome(s.rows[id], after.rows[id], s.containers, after.containers, id, overrides, o)
    ensures after.volumeTombs == s.volumeTombs && after.directoryTombs == s.directoryTombs
    ensures after.files == s.files || after.files == EnsureSpec(s.files, id, s.rows[id].mounts, o.ensureFault).0
    ensures after.volumes == if NeedsContainer(s.rows[id]) && after.containers != s.containers
                             then s.volumes + VolumesFor(id, s.rows[id].mounts, overrides).Values else s.volumes
    ensures ok <==> after.rows[id].observed == Running
  {
    var wanted := WithRow(s, id, s.rows[id].(desired := WantRunning));
    ContainerEffect(wanted, id, overrides, o);
    var made := ContainerSpec(wanted, id, overrides, o);
    var created := made.0;
    after, ok := created, false;
    if made.1 {
      var launched := LaunchSpec(created, id, o.newRuntimeId, o);
      after, ok := launched.0, launched.1;
      LaunchEffect(created, id, o.newRuntimeId, o);
      assert after.rows[id] == if ok then RunningRow(s.rows[id], o) else CreatedRow(s.rows[id], o);
    }
  }

  lemma StartEffect(s: State, id: string, overrides: map<string, string>, o: StartOracle) returns (after: State,
                    ok: bool)
    requires id in s.rows
    ensures (after, ok) == AdmittedStartSpec(s, id, overrides, o)
    ensures id in after.rows && after.rows == s.rows[id := after.rows[id]]
    ensures StartOutcome(s.rows[id], after.rows[id], s.containers, after.containers, id, overrides, o)
    ensures after.volumeTombs == s.volumeTombs && after.directoryTombs == s.directoryTombs
    ensures after.files == s.files || after.files == EnsureSpec(s.files, id, s.rows[id].mounts, o.ensureFault).0
    ensures after.volumes == if NeedsContainer(s.rows[id]) && after.containers != s.containers
                             then s.volumes + VolumesFor(id, s.rows[id].mounts, overrides).Values else s.volumes
    ensures ok <==> after.rows[id].observed == Running
  {
    if s.rows[id].observed == Running {
      after, ok := WithRow(s, id, s.rows[id].(desired := WantRunning)), true;
    } else if NeedsContainer(s.rows[id]) {
      after, ok := FirstStartEffect(s, id, overrides, o);
    } else {
      assert AdmittedStartSpec(s, id, overrides, o) == AdmittedStartSpec(s, id, map[], o);
      after, ok := RestartEffect(s, id, o);
    }
  }

  // ---------------------------------------------------------------------
  // Create

  lemma InsertEffect(s: State, input: CreateInput, o: CreateOracle) returns (placed: State, ok: bool)
    requires input.cpu > 0 && input.memory > 0 && input.id !in s.rows
    ensures (placed, ok) == InsertStep(s, input, o)
    ensures placed == s.(rows := if ok then s.rows[input.id := NewRow(input)] else s.rows,
                         directoryTombs := placed.directoryTombs, files := placed.files)
    ensures placed.directoryTombs == s.directoryTombs
         || (input.reattachDirectories.Some? && placed.directoryTombs == s.directoryTombs - {input.reattachDirectories.value})
  {
    var r := InsertStep(s, input, o);
    placed, ok := r.0, r.1;
    assert s.rows[input.id := NewRow(input)] - {input.id} == s.rows;
  }

  /** The start that is part of a creation with reattached volumes. */
  lemma StartStepEffect(c: Config, s: State, input: CreateInput, overrides: map<string, string>, o: CreateOracle)
    returns (after: State, ok: bool, r: Workspace)
    requires input.id in s.rows
    ensures (after, ok) == StartStep(c, s, input, overrides, o)
    ensures after.volumeTombs == s.volumeTombs && after.directoryTombs == s.directoryTombs
    ensures overrides == map[] || !MayStart(c, s.rows, input.id) ==> after.containers == s.containers && after.volumes == s.volumes
    ensures overrides == map[] ==> ok && after == s
    ensures !ok ==> after.rows == s.rows - {input.id} && (s.rows[input.id].observed != Running ==> r.observed != Running)
    ensures ok && overrides != map[] ==> MayStart(c, s.rows, input.id) && after.rows == s.rows[input.id := r] && r.observed == Running
    ensures overrides != map[] && MayStart(c, s.rows, input.id) ==>
              StartOutcome(s.rows[input.id], r, s.containers, after.containers, input.id, overrides, o.start)
              && after.volumes == if NeedsContainer(s.rows[input.id]) && after.containers != s.containers
                                  then s.volumes + VolumesFor(input.id, s.rows[input.id].mounts, overrides).Values else s.volumes
  {
    var step := StartStep(c, s, input, overrides, o);
    after, ok, r := step.0, step.1, s.rows[input.id];
    if overrides != map[] && MayStart(c, s.rows, input.id) {
      var started, startOk := StartEffect(s, input.id, overrides, o.start);
      r := started.rows[input.id];
      assert started.rows - {input.id} == s.rows - {input.id};
    }
  }

  ghost function ClaimOf(s: State, input: CreateInput, o: CreateOracle): Claim {
    ClaimVolumes(s.volumeTombs, s.volumes, input.owner, input.reattachVolumes, 0, map[], o.inspectFault)
  }

  ghost predicate MayCreate(c: Config, rows: map<string, Workspace>, input: CreateInput, o: CreateOracle) {
    CreateAdmissible(c, rows, input.owner, input.cpu as int, input.memory as int, o.storage)
  }

  /** A start was attempted as part of the creation, and this is how it went. */
  ghost predicate StartedWithin(c: Config, s: State, after: State, input: CreateInput,
                                overrides: map<string, string>, o: CreateOracle, r: Workspace)
    requires input.cpu > 0 && input.memory > 0
  {
    var row := NewRow(input);
    && MayStart(c, s.rows[input.id := row], input.id)
    && StartOutcome(row, r, s.containers, after.containers, input.id, overrides, o.start)
    && after.volumes == if after.containers != s.containers then s.volumes + VolumesFor(input.id, input.mounts, overrides).Values else s.volumes
  }

  lemma RowInserted(rows: map<string, Workspace>, id: string, w: Workspace, r: Workspace)
    requires id !in rows
    ensures rows[id := w] - {id} == rows && rows[id := w][id := r] == rows[id := r]
  {
  }

  /** The start within a creation, seen from the state before the row was inserted. */
  lemma StartWithinEffect(c: Config, s: State, placed: State, input: CreateInput, overrides: map<string, string>,
                          o: CreateOracle)
    returns (after: State, ok: bool, r: Workspace)
    requires input.id !in s.rows && input.cpu > 0 && input.memory > 0
    requires placed == s.(rows := s.rows[input.id := NewRow(input)], directoryTombs := placed.directoryTombs, files := placed.files)
    ensures (after, ok) == StartStep(c, placed, input, overrides, o)
    ensures after.volumeTombs == s.volumeTombs && after.directoryTombs == placed.directoryTombs
    ensures after.rows == if ok then s.rows[input.id := r] else s.rows
    ensures (after.containers == s.containers && after.volumes == s.volumes && (ok ==> r == NewRow(input)))
         || (StartedWithin(c, s, after, input, overrides, o, r) && (ok <==> r.observed == Running))
  {
    after, ok, r := StartStepEffect(c, placed, input, overrides, o);
    RowInserted(s.rows, input.id, NewRow(input), r);
    if overrides == map[] {
      r := NewRow(input);
    }
  }

  lemma BuildEffect(c: Config, s: State, input: CreateInput, overrides: map<string, string>, o: CreateOracle)
    returns (after: State, ok: bool, r: Workspace)
    requires input.id !in s.rows && input.cpu > 0 && input.memory > 0
    ensures (after, ok) == BuildStep(c, s, input, overrides, o)
    ensures after.volumeTombs == s.volumeTombs
    ensures after.directoryTombs == s.directoryTombs
         || (input.reattachDirectories.Some? && after.directoryTombs == s.directoryTombs - {input.reattachDirectories.value})
    ensures after.rows == if ok then s.rows[input.id := r] else s.rows
    ensures (after.containers == s.containers && after.volumes == s.volumes && (ok ==> r == NewRow(input)))
         || (StartedWithin(c, s, after, input, overrides, o, r) && (ok <==> r.observed == Running))
  {
    var placed, placedOk := InsertEffect(s, input, o);
    if placedOk {
      after, ok, r := StartWithinEffect(c, s, placed, input, overrides, o);
    } else {
      after, ok, r := placed, false, NewRow(input);
    }
  }

  /** A creation either leaves rows and containers as they were, or adds one row,
      and at most one container, for the new workspace. */
  lemma CreateEffect(c: Config, s: State, input: CreateInput, o: CreateOracle)
    returns (after: State, ok: bool, r: Workspace)
    requires input.id !in s.rows
    ensures (after, ok) == CreateSpec(c, s, input, o)
    ensures after.volumeTombs == s.volumeTombs || after.volumeTombs == ClaimOf(s, input, o).tombs
    ensures after.directoryTombs == s.directoryTombs
         || (input.reattachDirectories.Some? && after.directoryTombs == s.directoryTombs - {input.reattachDirectories.value})
    ensures ok ==> MayCreate(c, s.rows, input, o)
    ensures after.rows == if ok then s.rows[input.id := r] else s.rows
    ensures (after.containers == s.containers && after.volumes == s.volumes && (ok ==> r == NewRow(input)))
         || (MayCreate(c, s.rows, input, o) && after.volumeTombs == ClaimOf(s, input, o).tombs
             && StartedWithin(c, s, after, input, ClaimOf(s, input, o).overrides, o, r)
             && (ok <==> r.observed == Running))
  {
    var claim := ClaimOf(s, input, o);
    if !Compatible(input) || !MayCreate(c, s.rows, input, o) || NameTaken(s.rows, input.owner, input.name) {
      after, ok, r := s, false, *;
    } else if !claim.ok {
      after, ok, r := s.(volumeTombs := claim.tombs), false, *;
    } else {
      after, ok, r := BuildEffect(c, s.(volumeTombs := claim.tombs), input, claim.overrides, o);
    }
  }

  // ---------------------------------------------------------------------
  // Stop, timeouts, delete

  function HaltedRow(w: Workspace, value: Workspace, now: Time): Workspace {
    w.(desired := WantStopped, observed := Stopped, runtimeId := value.runtimeId, startedAt := value.startedAt,
       lastConnectedAt := value.lastConnectedAt, stoppedAt := now, containerDeletedAt := value.containerDeletedAt)
  }

  function RemovedRow(w: Workspace, value: Workspace, now: Time): Workspace {
    w.(observed := Removed, runtimeId := value.runtimeId, startedAt := value.startedAt,
       lastConnectedAt := value.lastConnectedAt, stoppedAt := value.stoppedAt, containerDeletedAt := now)
  }

  /** The runtime stopped the container that `value` names. */
  ghost predicate Halts(s: State, after: State, id: string, value: Workspace, now: Time) {
    && id in s.rows && HasContainer(s.containers, id, value.runtimeId)
    && after == s.(rows := s.rows[id := HaltedRow(s.rows[id], value, now)],
                   containers := s.containers[id := s.containers[id].(running := false)])
  }

  /** The container that `value` names is gone: it was removed while stopped, or
      the runtime knew none of that name and ID. */
  ghost predicate Discards(before: map<string, Container>, after: map<string, Container>, id: string,
                           value: Workspace) {
    if HasContainer(before, id, value.runtimeId) then !before[id].running && after == before - {id} else after == before
  }

  lemma StopEffect(s: State, id: string, value: Workspace, now: Time, stopOk: bool) returns (after: State, ok: bool)
    ensures (after, ok) == StopSpec(s, id, value, now, stopOk)
    ensures after == s || (id in s.rows && after == WithRow(s, id, s.rows[id].(desired := WantStopped)))
         || (Halts(s, after, id, value, now) && value.runtimeId != "")
  {
    var r := StopSpec(s, id, value, now, stopOk);
    after, ok := r.0, r.1;
    if id in s.rows {
      var wanted := WithRow(s, id, s.rows[id].(desired := WantStopped));
      if after != wanted {
        assert after == HaltedSpec(wanted, id, value, now);
        assert after.rows == s.rows[id := HaltedRow(s.rows[id], value, now)];
      }
    }
  }

  lemma TimeoutEffect(s: State, id: string, value: Workspace, now: Time, runtimeOk: bool) returns (after: State,
                      ok: bool)
    ensures (after, ok) == TimeoutSpec(s, id, value, now, runtimeOk)
    ensures var action := EvaluateTimeouts(value, now).action;
            || after == s
            || (action == StopAction && value.runtimeId != "" && value.observed == Running && Halts(s, after, id, value, now))
            || (action == DeleteAction && value.runtimeId != "" && (value.observed == Stopped || value.observed == Exited)
                && id in s.rows && Discards(s.containers, after.containers, id, value)
                && after == s.(rows := s.rows[id := RemovedRow(s.rows[id], value, now)], containers := after.containers))
  {
    var r := TimeoutSpec(s, id, value, now, runtimeOk);
    after, ok := r.0, r.1;
  }

  lemma ArchiveAndDeleteEffect(s: State, id: string, value: Workspace, retainVolumes: bool,
                               o: DeleteOracle) returns (after: State, ok: bool)
    ensures (after, ok) == ArchiveAndDeleteSpec(s, id, value, retainVolumes, o)
    ensures after.containers == s.containers && after.volumes == s.volumes
    ensures after.rows == if ok then s.rows - {id} else s.rows
    ensures after.files == ArchiveSpec(s.files, id, value.mounts, o.archiveFault).0
    ensures !ok ==> after.volumeTombs == s.volumeTombs && after.directoryTombs == s.directoryTombs
    ensures ok ==>
              var added := if retainVolumes then VolumeTombs(id, value.owner, value.mounts) else map[];
              var directories := DirectoryMounts(value.mounts);
              && id in s.rows && ArchiveSpec(s.files, id, value.mounts, o.archiveFault).1
              && TombsInsertable(s.volumeTombs, s.directoryTombs, id, added, directories != [])
              && after.volumeTombs == s.volumeTombs + added
              && after.directoryTombs == if directories == [] then s.directoryTombs
                                         else s.directoryTombs[id := DirectoryTomb(value.owner, directories)]
  {
    var r := ArchiveAndDeleteSpec(s, id, value, retainVolumes, o);
    after, ok := r.0, r.1;
  }

  lemma DeleteEffect(s: State, id: string, value: Workspace, o: DeleteOracle) returns (after: State, ok: bool)
    ensures (after, ok) == DeleteSpec(s, id, value, o)
    ensures after.volumes == s.volumes
    ensures after.rows == if ok then s.rows - {id} else s.rows
    ensures after.files == s.files || after.files == ArchiveSpec(s.files, id, value.mounts, o.archiveFault).0
    ensures after.containers == s.containers
         || (value.runtimeId != "" && value.observed != Running && HasContainer(s.containers, id, value.runtimeId)
             && !s.containers[id].running && after.containers == s.containers - {id})
    ensures !ok ==> after.volumeTombs == s.volumeTombs && after.directoryTombs == s.directoryTombs
    ensures ok ==>
              var added := if value.runtimeId != "" then VolumeTombs(id, value.owner, value.mounts) else map[];
              var directories := DirectoryMounts(value.mounts);
              && id in s.rows && (value.runtimeId != "" ==> value.observed != Running)
              && after.files == ArchiveSpec(s.files, id, value.mounts, o.archiveFault).0 && ArchiveSpec(s.files, id, value.mounts, o.archiveFault).1
              && TombsInsertable(s.volumeTombs, s.directoryTombs, id, added, directories != [])
              && after.volumeTombs == s.volumeTombs + added
              && after.directoryTombs == (if directories == [] then s.directoryTombs
                                          else s.directoryTombs[id := DirectoryTomb(value.owner, directories)])
              && (value.runtimeId == "" || value.observed == Removed || value.observed == Missing
                  || Discards(s.containers, after.containers, id, value))
  {
    if value.runtimeId == "" {
      after, ok := s, false;
      if o.beginOk {
        after, ok := ArchiveAndDeleteEffect(s, id, value, false, o);
      }
    } else {
      var (containers, removed) := if value.observed == Removed || value.observed == Missing then (s.containers, true)
                                   else RemoveContainerSpec(s.containers, id, value.runtimeId, o.removeOk);
      var cleared := s.(containers := containers);
      after, ok := cleared, false;
      if value.observed == Running || id !in s.rows || !o.beginOk {
        after, ok := s, false;
      } else if removed && o.midOk {
        after, ok := ArchiveAndDeleteEffect(cleared, id, value, true, o);
      }
    }
  }
}
