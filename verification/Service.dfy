/** The workspace service: the operations of internal/workspace/workspace.go as
    they change the store, the runtime and the host directories step by step,
    each proved against its specification in `Lifecycle`. */
module Service {
  import opened Domain
  import opened Quota
  import opened Timeouts
  import opened Mounts
  import opened Lifecycle

  datatype Listed = Listed(id: string, value: Workspace)

  /** How a wait for a workspace's lock ends. */
  datatype LockWait = Acquired | ContextEnded | NotAcquired

  class WorkspaceService {
    const config: Config
    const host: HostFiles
    var rows: map<string, Workspace>
    var containers: map<string, Container>
    var volumes: set<string>
    var volumeTombs: map<TombKey, VolumeTomb>
    var directoryTombs: map<string, DirectoryTomb>

    ghost function View(): State
      reads this, host
    {
      State(rows, containers, volumes, host.tree, volumeTombs, directoryTombs)
    }

    constructor (config: Config, host: HostFiles)
      ensures this.config == config && this.host == host
      ensures View() == State(map[], map[], {}, host.tree, map[], map[])
    {
      this.config, this.host := config, host;
      rows, containers, volumes, volumeTombs, directoryTombs := map[], map[], {}, map[], map[];
    }

    // Store updates of single columns.

    method SetDesiredState(id: string, desired: Desired) returns (found: bool)
      modifies this`rows
      ensures found == (id in old(rows))
      ensures rows == if found then old(rows)[id := old(rows)[id].(desired := desired)] else old(rows)
    {
      found := id in rows;
      if found {
        rows := rows[id := rows[id].(desired := desired)];
      }
    }

    method UpdateObservedState(id: string, observed: Observed, runtimeId: string) returns (found: bool)
      modifies this`rows
      ensures found == (id in old(rows))
      ensures rows == if found then old(rows)[id := old(rows)[id].(observed := observed, runtimeId := runtimeId)] else old(rows)
    {
      found := id in rows;
      if found {
        rows := rows[id := rows[id].(observed := observed, runtimeId := runtimeId)];
      }
    }

    method UpdateLifecycle(id: string, startedAt: Time, lastConnectedAt: Time, stoppedAt: Time,
                           containerDeletedAt: Time) returns (found: bool)
      modifies this`rows
      ensures found == (id in old(rows))
      ensures rows == if found then old(rows)[id := old(rows)[id].(startedAt := startedAt, lastConnectedAt := lastConnectedAt,
                                                               stoppedAt := stoppedAt, containerDeletedAt := containerDeletedAt)]
                      else old(rows)
    {
      found := id in rows;
      if found {
        rows := rows[id := rows[id].(startedAt := startedAt, lastConnectedAt := lastConnectedAt,
                                     stoppedAt := stoppedAt, containerDeletedAt := containerDeletedAt)];
      }
    }

    method RecordSessionStart(id: string, at: Time) returns (found: bool)
      modifies this`rows
      ensures found == (id in old(rows))
      ensures rows == if found then old(rows)[id := SessionStarted(old(rows)[id], at)] else old(rows)
    {
      found := id in rows;
      if found {
        var active := rows[id].activeSessions + 1;
        rows := rows[id := rows[id].(activeSessions := active, idleSince := 0, lastConnectedAt := at)];
      }
    }

    method RecordSessionEnd(id: string, at: Time) returns (found: bool)
      modifies this`rows
      ensures found == (id in old(rows))
      ensures rows == if found then old(rows)[id := SessionEnded(old(rows)[id], at)] else old(rows)
    {
      found := id in rows;
      if found {
        var w := rows[id];
        var active := if w.activeSessions - 1 > 0 then w.activeSessions - 1 else 0;
        rows := rows[id := w.(activeSessions := active, idleSince := if w.activeSessions <= 1 then at else w.idleSince)];
      }
    }

    /** RecordWorkspaceConnection: only a running workspace is connected to. */
    method RecordConnection(id: string, at: Time) returns (ok: bool)
      modifies this`rows
      ensures ok == (id in old(rows) && old(rows)[id].observed == Running)
      ensures rows == if ok then old(rows)[id := SessionStarted(old(rows)[id], at)] else old(rows)
    {
      if id !in rows || rows[id].observed != Running {
        return false;
      }
      ok := RecordSessionStart(id, at);
    }

    // The runtime.

    method CreateContainer(id: string, runtimeId: string, attached: map<string, string>,
                           createOk: bool) returns (ok: bool)
      modifies this`containers, this`volumes
      ensures ok == (createOk && id !in old(containers))
      ensures containers == if ok then old(containers)[id := Container(runtimeId, false, attached)] else old(containers)
      ensures volumes == if ok then old(volumes) + attached.Values else old(volumes)
    {
      ok := createOk && id !in containers;
      if ok {
        containers := containers[id := Container(runtimeId, false, attached)];
        volumes := volumes + attached.Values;
      }
    }

    method SwitchContainer(id: string, runtimeId: string, running: bool, switchOk: bool) returns (ok: bool)
      modifies this`containers
      ensures ok == (switchOk && HasContainer(old(containers), id, runtimeId))
      ensures containers == if ok then old(containers)[id := old(containers)[id].(running := running)] else old(containers)
    {
      ok := switchOk && HasContainer(containers, id, runtimeId);
      if ok {
        containers := containers[id := containers[id].(running := running)];
      }
    }

    method RemoveContainer(id: string, runtimeId: string, removeOk: bool) returns (ok: bool)
      modifies this`containers
      ensures (containers, ok) == RemoveContainerSpec(old(containers), id, runtimeId, removeOk)
    {
      if !removeOk {
        return false;
      }
      if !HasContainer(containers, id, runtimeId) {
        return true;
      }
      if containers[id].running {
        return false;
      }
      containers := containers - {id};
      return true;
    }

    /** The volume sources of the container spec, mount by mount. */
    method AttachedVolumes(id: string, mounts: MountList,
                           overrides: map<string, string>) returns (attached: map<string, string>)
      ensures attached == VolumesFor(id, mounts, overrides)
    {
      attached := map[];
      var i := 0;
      while i < |mounts|
        invariant i <= |mounts| && attached == VolumesFor(id, mounts[..i], overrides)
      {
        assert mounts[..i + 1][..i] == mounts[..i];
        var m := mounts[i];
        if m.kind == Volume {
          var source := ManagedVolumeName(id, m);
          if m.name in overrides && overrides[m.name] != "" {
            source := overrides[m.name];
          }
          attached := attached[m.name := source];
        }
        i := i + 1;
      }
      assert mounts[..i] == mounts;
    }

    // Start.

    method StartWorkspace(id: string, overrides: map<string, string>, o: StartOracle) returns (ok: bool)
      modifies this, host
      ensures (View(), ok) == StartSpec(config, old(View()), id, overrides, o)
    {
      if id !in rows {
        return false;
      }
      var value := rows[id];
      if value.observed != Running {
        var verdict := CheckStart(config, rows, value.owner, value.cpu as int64, value.memory as int64);
        if verdict != Admitted {
          return false;
        }
      }
      ok := StartAdmitted(id, overrides, o);
    }

    method StartAdmitted(id: string, overrides: map<string, string>, o: StartOracle) returns (ok: bool)
      requires id in rows
      modifies this, host
      ensures (View(), ok) == AdmittedStartSpec(old(View()), id, overrides, o)
    {
      var value := rows[id];
      var _ := SetDesiredState(id, WantRunning);
      if value.observed == Running {
        return true;
      }
      if value.runtimeId == "" || value.observed == Removed || value.observed == Missing {
        var created := PrepareContainer(id, overrides, o);
        if !created {
          return false;
        }
        ok := Launch(id, o.newRuntimeId, o);
      } else {
        ok := Launch(id, value.runtimeId, o);
      }
    }

    /** The first half of a start without a container: directories, then the container. */
    method PrepareContainer(id: string, overrides: map<string, string>, o: StartOracle) returns (ok: bool)
      requires id in rows
      modifies this, host
      ensures (View(), ok) == ContainerSpec(old(View()), id, overrides, o)
    {
      var mounts := rows[id].mounts;
      if !o.prepareOk {
        return false;
      }
      var ensured := host.EnsureMountDirectories(id, mounts, o.ensureFault);
      if !ensured || !o.specOk {
        return false;
      }
      var attached := AttachedVolumes(id, mounts, overrides);
      ok := CreateContainer(id, o.newRuntimeId, attached, o.createOk);
      if ok {
        var _ := UpdateObservedState(id, Created, o.newRuntimeId);
      } else {
        var _ := UpdateObservedState(id, Failed, "");
      }
    }

    /** The second half of a start: the container exists and is started. */
    method Launch(id: string, runtimeId: string, o: StartOracle) returns (ok: bool)
      requires id in rows
      modifies this`rows, this`containers
      ensures (View(), ok) == LaunchSpec(old(View()), id, runtimeId, o)
    {
      var value := rows[id];
      var started := SwitchContainer(id, runtimeId, true, o.startOk);
      if !started {
        var _ := UpdateObservedState(id, Created, runtimeId);
        return false;
      }
      var _ := UpdateObservedState(id, Running, runtimeId);
      var _ := UpdateLifecycle(id, o.now, 0, 0, value.containerDeletedAt);
      rows := rows[id := rows[id].(activeSessions := 0, idleSince := o.now)];
      assert rows == old(rows)[id := rows[id]];
      return true;
    }

    // Stop.

    method StopWorkspace(id: string, value: Workspace, now: Time, stopOk: bool) returns (ok: bool)
      modifies this
      ensures (View(), ok) == StopSpec(old(View()), id, value, now, stopOk)
    {
      var found := SetDesiredState(id, WantStopped);
      if !found {
        return false;
      }
      if value.runtimeId == "" || value.observed == Stopped || value.observed == Exited || value.observed == Missing {
        return true;
      }
      var stopped := SwitchContainer(id, value.runtimeId, false, stopOk);
      if !stopped {
        return false;
      }
      var _ := UpdateObservedState(id, Stopped, value.runtimeId);
      var _ := UpdateLifecycle(id, value.startedAt, value.lastConnectedAt, now, value.containerDeletedAt);
      ghost var spec := StopSpec(old(View()), id, value, now, stopOk).0;
      assert rows[id] == spec.rows[id];
      assert rows == spec.rows;
      assert containers == spec.containers;
      return true;
    }

    // Delete.

    /** retainedWorkspaceVolumes. */
    method RetainedVolumes(id: string, value: Workspace) returns (tombs: map<TombKey, VolumeTomb>)
      ensures tombs == VolumeTombs(id, value.owner, value.mounts)
    {
      tombs := map[];
      var i := 0;
      while i < |value.mounts|
        invariant i <= |value.mounts| && tombs == VolumeTombs(id, value.owner, value.mounts[..i])
      {
        assert value.mounts[..i + 1][..i] == value.mounts[..i];
        var m := value.mounts[i];
        if m.kind == Volume {
          tombs := tombs[TombKey(id, m.name) := VolumeTomb(ManagedVolumeName(id, m), value.owner)];
        }
        i := i + 1;
      }
      assert value.mounts[..i] == value.mounts;
    }

    method StoreDelete(id: string, value: Workspace, retainVolumes: bool, storeOk: bool) returns (ok: bool)
      modifies this
      ensures (View(), ok) == StoreDeleteSpec(old(View()), id, value, retainVolumes, storeOk)
    {
      var added: map<TombKey, VolumeTomb> := map[];
      if retainVolumes {
        added := RetainedVolumes(id, value);
      }
      var directories := DirectoryMounts(value.mounts);
      if !storeOk || id !in rows || !TombsInsertable(volumeTombs, directoryTombs, id, added, directories != []) {
        return false;
      }
      volumeTombs := volumeTombs + added;
      if directories != [] {
        directoryTombs := directoryTombs[id := DirectoryTomb(value.owner, directories)];
      }
      rows := rows - {id};
      return true;
    }

    method DeleteWorkspace(id: string, value: Workspace, o: DeleteOracle) returns (ok: bool)
      modifies this, host
      ensures (View(), ok) == DeleteSpec(old(View()), id, value, o)
    {
      if value.runtimeId == "" {
        if !o.beginOk {
          return false;
        }
        var archived := host.ArchiveMountDirectories(id, value.mounts, o.archiveFault);
        if !archived || !o.endOk {
          return false;
        }
        ok := StoreDelete(id, value, false, o.storeOk);
        return;
      }
      if value.observed == Running {
        return false;
      }
      if id !in rows || !o.beginOk {
        return false;
      }
      if value.observed != Removed && value.observed != Missing {
        var removed := RemoveContainer(id, value.runtimeId, o.removeOk);
        if !removed {
          return false;
        }
      }
      if !o.midOk {
        return false;
      }
      var archived := host.ArchiveMountDirectories(id, value.mounts, o.archiveFault);
      if !archived || !o.endOk {
        return false;
      }
      ok := StoreDelete(id, value, true, o.storeOk);
    }

    // Timeouts.

    method TimeOutOne(id: string, value: Workspace, now: Time, runtimeOk: bool) returns (ok: bool)
      modifies this
      ensures (View(), ok) == TimeoutSpec(old(View()), id, value, now, runtimeOk)
    {
      var status := EvaluateTimeouts(value, now);
      match status.action
      case NoAction =>
        return true;
      case StopAction =>
        if value.runtimeId == "" || value.observed != Running {
          return true;
        }
        if id !in rows {
          return false;
        }
        var stopped := SwitchContainer(id, value.runtimeId, false, runtimeOk);
        if !stopped {
          return false;
        }
        var _ := SetDesiredState(id, WantStopped);
        var _ := UpdateObservedState(id, Stopped, value.runtimeId);
        var _ := UpdateLifecycle(id, value.startedAt, value.lastConnectedAt, now, value.containerDeletedAt);
        ghost var spec := TimeoutSpec(old(View()), id, value, now, runtimeOk).0;
        assert rows[id] == spec.rows[id];
        assert rows == spec.rows;
        assert containers == spec.containers;
        return true;
      case DeleteAction =>
        if value.runtimeId == "" || (value.observed != Stopped && value.observed != Exited) {
          return true;
        }
        if id !in rows {
          return false;
        }
        var removed := RemoveContainer(id, value.runtimeId, runtimeOk);
        if !removed {
          return false;
        }
        var _ := UpdateObservedState(id, Removed, value.runtimeId);
        var _ := UpdateLifecycle(id, value.startedAt, value.lastConnectedAt, value.stoppedAt, now);
        ghost var spec := TimeoutSpec(old(View()), id, value, now, runtimeOk).0;
        assert rows[id] == spec.rows[id];
        assert rows == spec.rows;
        return true;
    }

    /** The rows one after the other; `waits` and `runtimeOk` hold the outcome of each
        wait for the workspace's lock and of each runtime call. A wait ended by the
        context ends the pass, any other failed wait skips the row. */
    method RunTimeouts(listed: seq<Listed>, now: Time, waits: seq<LockWait>, runtimeOk: seq<bool>)
      returns (failed: nat, aborted: bool)
      requires |runtimeOk| == |waits| == |listed|
      modifies this
      ensures (View(), failed, aborted) == TimeoutsSpec(old(View()), listed, now, waits, runtimeOk, 0, 0)
    {
      failed := 0;
      var i := 0;
      while i < |listed|
        invariant i <= |listed|
        invariant TimeoutsSpec(old(View()), listed, now, waits, runtimeOk, 0, 0)
               == TimeoutsSpec(View(), listed, now, waits, runtimeOk, i, failed)
      {
        if waits[i] == ContextEnded {
          return failed, true;
        }
        if waits[i] == Acquired {
          var ok := TimeOutOne(listed[i].id, listed[i].value, now, runtimeOk[i]);
          if !ok {
            failed := failed + 1;
          }
        }
        i := i + 1;
      }
      aborted := false;
    }

    // Reconcile.

    method Reconcile(observations: map<string, Observation>, inspectedAt: Time)
      modifies this`rows
      ensures rows == ReconciledRows(old(rows), observations, inspectedAt)
    {
      var values := rows;
      var todo := values.Keys;
      while todo != {}
        invariant todo <= values.Keys && rows.Keys == values.Keys
        invariant forall id :: id in todo ==> rows[id] == values[id]
        invariant forall id :: id in values && id !in todo ==>
                    rows[id] == ReconciledRow(values[id], Lookup(observations, id), inspectedAt)
        decreases todo
      {
        var id :| id in todo;
        todo := todo - {id};
        ReconcileOne(id, Lookup(observations, id), inspectedAt);
      }
    }

    method ReconcileOne(id: string, found: Option<Observation>, inspectedAt: Time)
      requires id in rows
      modifies this`rows
      ensures rows == old(rows)[id := ReconciledRow(old(rows)[id], found, inspectedAt)]
    {
      var value := rows[id];
      if found.None? {
        if value.runtimeId != "" && value.observed != Removed {
          var _ := UpdateObservedState(id, Missing, value.runtimeId);
        }
      } else {
        var observed := found.value;
        var state := Normalize(observed.state);
        var startedAt, stoppedAt := value.startedAt, value.stoppedAt;
        var observedAt := observed.observedAt;
        if observedAt == 0 {
          observedAt := inspectedAt;
        }
        if state == Running {
          if startedAt == 0 {
            startedAt := observedAt;
          }
          stoppedAt := 0;
        }
        if state == Stopped && stoppedAt == 0 {
          stoppedAt := observedAt;
        }
        var _ := UpdateObservedState(id, state, observed.runtimeId);
        var _ := UpdateLifecycle(id, startedAt, value.lastConnectedAt, stoppedAt, value.containerDeletedAt);
      }
      assert rows[id] == ReconciledRow(value, found, inspectedAt);
    }

    // Create.

    /** consumeReattachedVolumes. */
    method ConsumeReattachedVolumes(owner: string, requests: seq<VolumeRequest>, fault: nat) returns (ok: bool,
                                    overrides: map<string, string>)
      modifies this`volumeTombs
      ensures Claim(volumeTombs, overrides, ok) == ClaimVolumes(old(volumeTombs), volumes, owner, requests, 0, map[], fault)
    {
      overrides := map[];
      var i := 0;
      while i < |requests|
        invariant i <= |requests|
        invariant ClaimVolumes(old(volumeTombs), volumes, owner, requests, 0, map[], fault)
               == ClaimVolumes(volumeTombs, volumes, owner, requests, i, overrides, fault)
      {
        var key := TombKey(requests[i].from, requests[i].mount);
        if key !in volumeTombs || volumeTombs[key].owner != owner {
          return false, overrides;
        }
        var volume := volumeTombs[key].volume;
        volumeTombs := volumeTombs - {key};
        if i == fault || volume !in volumes {
          return false, overrides;
        }
        overrides := overrides[requests[i].mount := volume];
        i := i + 1;
      }
      ok := true;
    }

    /** Undo a creation; `removeFiles` is off once archived data was restored. */
    method Withdraw(input: CreateInput, removeFiles: bool)
      modifies this, host
      ensures View() == Withdrawn(old(View()), input, removeFiles)
    {
      rows := rows - {input.id};
      if removeFiles {
        host.RemoveMountDirectories(input.id, input.mounts);
      }
    }

    method CreateWorkspace(input: CreateInput, o: CreateOracle) returns (ok: bool)
      modifies this, host
      ensures (View(), ok) == CreateSpec(config, old(View()), input, o)
    {
      if !Compatible(input) {
        return false;
      }
      var verdict := CheckCreate(config, rows, input.owner, input.cpu, input.memory, o.storage);
      if verdict != Admitted {
        return false;
      }
      if NameTaken(rows, input.owner, input.name) {
        return false;
      }
      var claimed, overrides := ConsumeReattachedVolumes(input.owner, input.reattachVolumes, o.inspectFault);
      if !claimed {
        return false;
      }
      ok := BuildWorkspace(input, overrides, o);
    }

    method BuildWorkspace(input: CreateInput, overrides: map<string, string>, o: CreateOracle) returns (ok: bool)
      requires input.cpu > 0 && input.memory > 0
      modifies this, host
      ensures (View(), ok) == BuildStep(config, old(View()), input, overrides, o)
    {
      var ensured := host.EnsureMountDirectories(input.id, input.mounts, o.ensureFault);
      if !ensured {
        return false;
      }
      if !o.storeOk {
        host.RemoveMountDirectories(input.id, input.mounts);
        return false;
      }
      rows := rows[input.id := Workspace(input.owner, input.name, input.mounts, input.cpu as int, input.memory as int,
                                         input.idleTimeout, input.stoppedRetention, WantStopped, Unknown, "", 0, 0, 0, 0, 0, 0)];
      if !o.portsOk {
        Withdraw(input, true);
        return false;
      }
      if input.reattachDirectories.Some? {
        var from := input.reattachDirectories.value;
        if from !in directoryTombs || directoryTombs[from].owner != input.owner {
          Withdraw(input, true);
          return false;
        }
        var tomb := directoryTombs[from];
        directoryTombs := directoryTombs - {from};
        var restored := host.RestoreDirectoryMounts(from, input.id, input.mounts, tomb.mounts, o.restoreFault);
        if !restored {
          Withdraw(input, true);
          return false;
        }
      }
      if overrides != map[] {
        var started := StartWorkspace(input.id, overrides, o.start);
        if !started {
          Withdraw(input, input.reattachDirectories.None?);
          return false;
        }
      }
      return true;
    }

    /** DeleteRetainedDirectory: the content goes first, then the tombstone. */
    method DeleteRetainedDirectory(id: string, owner: string, removeOk: bool) returns (ok: bool)
      modifies this, host
      ensures (View(), ok) == DiscardRetainedSpec(old(View()), id, owner, removeOk)
    {
      if id !in directoryTombs || directoryTombs[id].owner != owner {
        return false;
      }
      if !removeOk {
        return false;
      }
      host.DiscardArchive(id);
      directoryTombs := directoryTombs - {id};
      return true;
    }
  }

  ghost function DiscardRetainedSpec(s: State, id: string, owner: string, removeOk: bool): (State, bool) {
    if id !in s.directoryTombs || s.directoryTombs[id].owner != owner || !removeOk then (s, false)
    else (s.(files := DiscardSpec(s.files, id), directoryTombs := s.directoryTombs - {id}), true)
  }

  /** RunTimeouts from row `i` on, with `failed` failures so far. */
  ghost function TimeoutsSpec(s: State, listed: seq<Listed>, now: Time, waits: seq<LockWait>, runtimeOk: seq<bool>,
                              i: nat, failed: nat): (State, nat, bool)
    requires i <= |listed| && |runtimeOk| == |waits| == |listed|
    decreases |listed| - i
  {
    if i == |listed| then (s, failed, false)
    else
      match waits[i]
      case ContextEnded => (s, failed, true)
      case NotAcquired => TimeoutsSpec(s, listed, now, waits, runtimeOk, i + 1, failed)
      case Acquired =>
        var (after, ok) := TimeoutSpec(s, listed[i].id, listed[i].value, now, runtimeOk[i]);
        TimeoutsSpec(after, listed, now, waits, runtimeOk, i + 1, if ok then failed else failed + 1)
  }
}
