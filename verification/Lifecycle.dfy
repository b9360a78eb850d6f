/** The control plane's state and what every lifecycle operation does to it
    (internal/workspace/workspace.go). An oracle argument fixes how the calls an
    operation makes outside the control plane turn out. */
module Lifecycle {
  import opened Domain
  import opened Quota
  import opened Timeouts
  import opened Mounts

  /** A container of the runtime and the volume attached for each volume mount. */
  datatype Container = Container(runtimeId: string, running: bool, volumes: map<string, string>)

  /** Retained volumes are unique by workspace and mount name. */
  datatype TombKey = TombKey(workspace: string, mount: string)

  datatype VolumeTomb = VolumeTomb(volume: string, owner: string)

  /** The archive belongs to the workspace whose ID keys the tombstone. */
  datatype DirectoryTomb = DirectoryTomb(owner: string, mounts: MountList)

  datatype State = State(
    rows: map<string, Workspace>, containers: map<string, Container>, volumes: set<string>, files: Files,
    volumeTombs: map<TombKey, VolumeTomb>, directoryTombs: map<string, DirectoryTomb>)

  ghost function WithRow(s: State, id: string, row: Workspace): State {
    s.(rows := s.rows[id := row])
  }

  // ---------------------------------------------------------------------
  // The runtime. A container name is unique, so there is at most one container
  // per workspace; stopping and starting are idempotent; a running container is
  // not removed.

  predicate HasContainer(containers: map<string, Container>, id: string, runtimeId: string) {
    id in containers && containers[id].runtimeId == runtimeId
  }

  function VolumesFor(id: string, mounts: seq<Mount>, overrides: map<string, string>): map<string, string> {
    if mounts == [] then map[]
    else
      var before := VolumesFor(id, mounts[..|mounts| - 1], overrides);
      var m := mounts[|mounts| - 1];
      if m.kind != Volume then before
      else before[m.name := if m.name in overrides && overrides[m.name] != "" then overrides[m.name] else ManagedVolumeName(id, m)]
  }

  // ---------------------------------------------------------------------
  // Start

  datatype StartOracle = StartOracle(now: Time, prepareOk: bool, ensureFault: nat, specOk: bool,
                                     createOk: bool, newRuntimeId: string, startOk: bool)

  ghost function LaunchSpec(s: State, id: string, runtimeId: string, o: StartOracle): (State, bool)
    requires id in s.rows
  {
    var w := s.rows[id];
    if !o.startOk || !HasContainer(s.containers, id, runtimeId) then
      (WithRow(s, id, w.(observed := Created, runtimeId := runtimeId)), false)
    else
      var started := w.(observed := Running, runtimeId := runtimeId, startedAt := o.now, lastConnectedAt := 0, stoppedAt := 0);
      (WithRow(s, id, SessionsReset(started, o.now)).(containers := s.containers[id := s.containers[id].(running := true)]), true)
  }

  predicate NeedsContainer(w: Workspace) {
    w.runtimeId == "" || w.observed == Removed || w.observed == Missing
  }

  /** The first half of a start that has no container to start yet. */
  ghost function ContainerSpec(s: State, id: string, overrides: map<string, string>, o: StartOracle): (r: (State,
                               bool))
    requires id in s.rows
    ensures id in r.0.rows
  {
    var value := s.rows[id];
    if !o.prepareOk then (s, false)
    else
      var (files, ensured) := EnsureSpec(s.files, id, value.mounts, o.ensureFault);
      var prepared := s.(files := files);
      if !ensured || !o.specOk then (prepared, false)
      else if !o.createOk || id in s.containers then
        (WithRow(prepared, id, value.(observed := Failed, runtimeId := "")), false)
      else
        var volumes := VolumesFor(id, value.mounts, overrides);
        (WithRow(prepared, id, value.(observed := Created, runtimeId := o.newRuntimeId))
         .(containers := s.containers[id := Container(o.newRuntimeId, false, volumes)],
           volumes := s.volumes + volumes.Values), true)
  }

  /** What follows once a start is admitted. */
  ghost function AdmittedStartSpec(s: State, id: string, overrides: map<string, string>, o: StartOracle): (State,
                                   bool)
    requires id in s.rows
  {
    var value := s.rows[id];
    var wanted := WithRow(s, id, value.(desired := WantRunning));
    if value.observed == Running then (wanted, true)
    else if NeedsContainer(value) then
      var (created, ok) := ContainerSpec(wanted, id, overrides, o);
      if !ok then (created, false) else LaunchSpec(created, id, o.newRuntimeId, o)
    else LaunchSpec(wanted, id, value.runtimeId, o)
  }

  ghost predicate MayStart(c: Config, rows: map<string, Workspace>, id: string)
    requires id in rows
  {
    rows[id].observed == Running || StartAdmissible(c, rows, rows[id].owner, rows[id].cpu, rows[id].memory)
  }

  ghost function StartSpec(c: Config, s: State, id: string, overrides: map<string, string>, o: StartOracle): (State,
                           bool) {
    if id !in s.rows || !MayStart(c, s.rows, id) then (s, false) else AdmittedStartSpec(s, id, overrides, o)
  }

  // ---------------------------------------------------------------------
  // Stop. `value` is the row as it was read before the locks were taken.

  ghost function StopSpec(s: State, id: string, value: Workspace, now: Time, stopOk: bool): (State, bool) {
    if id !in s.rows then (s, false)
    else
      var wanted := WithRow(s, id, s.rows[id].(desired := WantStopped));
      if value.runtimeId == "" || value.observed == Stopped || value.observed == Exited || value.observed == Missing then (wanted, true)
      else if !stopOk || !HasContainer(s.containers, id, value.runtimeId) then (wanted, false)
      else (HaltedSpec(wanted, id, value, now), true)
  }

  /** The runtime has stopped the container; the row records it. */
  ghost function HaltedSpec(s: State, id: string, value: Workspace, now: Time): State
    requires id in s.rows && id in s.containers
  {
    WithRow(s, id, s.rows[id].(desired := WantStopped, observed := Stopped, runtimeId := value.runtimeId, startedAt := value.startedAt,
                               lastConnectedAt := value.lastConnectedAt, stoppedAt := now, containerDeletedAt := value.containerDeletedAt))
    .(containers := s.containers[id := s.containers[id].(running := false)])
  }

  // ---------------------------------------------------------------------
  // Delete

  datatype DeleteOracle = DeleteOracle(beginOk: bool, removeOk: bool, midOk: bool, archiveFault: bool, endOk: bool, storeOk: bool)

  const NoDeleteFault := DeleteOracle(true, true, true, false, true, true)

  /** RemoveWorkspace: a container that does not exist is not an error for the callers. */
  ghost function RemoveContainerSpec(containers: map<string, Container>, id: string, runtimeId: string,
                                     removeOk: bool): (map<string, Container>, bool) {
    if !removeOk then (containers, false)
    else if !HasContainer(containers, id, runtimeId) then (containers, true)
    else if containers[id].running then (containers, false)
    else (containers - {id}, true)
  }

  function VolumeTombs(id: string, owner: string, mounts: seq<Mount>): map<TombKey, VolumeTomb> {
    if mounts == [] then map[]
    else
      var before := VolumeTombs(id, owner, mounts[..|mounts| - 1]);
      var m := mounts[|mounts| - 1];
      if m.kind != Volume then before else before[TombKey(id, m.name) := VolumeTomb(ManagedVolumeName(id, m), owner)]
  }

  /** The uniqueness constraints of the two tombstone tables. */
  predicate TombsInsertable(volumeTombs: map<TombKey, VolumeTomb>, directoryTombs: map<string, DirectoryTomb>,
                            id: string, added: map<TombKey, VolumeTomb>, directory: bool)
  {
    && (forall key :: key in added ==> key !in volumeTombs)
    && (forall key, other :: key in added && other in volumeTombs ==> added[key].volume != volumeTombs[other].volume)
    && (directory ==> id !in directoryTombs)
  }

  /** DeleteWorkspaceRetainingStorage, one transaction. */
  ghost function StoreDeleteSpec(s: State, id: string, value: Workspace, retainVolumes: bool, storeOk: bool): (State,
                                 bool) {
    var added := if retainVolumes then VolumeTombs(id, value.owner, value.mounts) else map[];
    var directories := DirectoryMounts(value.mounts);
    if !storeOk || id !in s.rows || !TombsInsertable(s.volumeTombs, s.directoryTombs, id, added, directories != []) then (s, false)
    else
      (s.(rows := s.rows - {id}, volumeTombs := s.volumeTombs + added,
          directoryTombs := if directories == [] then s.directoryTombs
                            else s.directoryTombs[id := DirectoryTomb(value.owner, directories)]), true)
  }

  ghost function ArchiveAndDeleteSpec(s: State, id: string, value: Workspace, retainVolumes: bool,
                                      o: DeleteOracle): (State, bool) {
    var (files, archived) := ArchiveSpec(s.files, id, value.mounts, o.archiveFault);
    var moved := s.(files := files);
    if !archived || !o.endOk then (moved, false) else StoreDeleteSpec(moved, id, value, retainVolumes, o.storeOk)
  }

  ghost function DeleteSpec(s: State, id: string, value: Workspace, o: DeleteOracle): (State, bool) {
    if value.runtimeId == "" then
      if !o.beginOk then (s, false) else ArchiveAndDeleteSpec(s, id, value, false, o)
    else if value.observed == Running || id !in s.rows || !o.beginOk then (s, false)
    else
      var (containers, removed) := if value.observed == Removed || value.observed == Missing then (s.containers, true)
                                   else RemoveContainerSpec(s.containers, id, value.runtimeId, o.removeOk);
      var cleared := s.(containers := containers);
      if !removed || !o.midOk then (cleared, false) else ArchiveAndDeleteSpec(cleared, id, value, true, o)
  }

  // ---------------------------------------------------------------------
  // One row of RunTimeouts. `value` is the row as it was listed.

  ghost function TimeoutSpec(s: State, id: string, value: Workspace, now: Time, runtimeOk: bool): (State, bool) {
    match EvaluateTimeouts(value, now).action
    case NoAction => (s, true)
    case StopAction =>
      if value.runtimeId == "" || value.observed != Running then (s, true)
      else if id !in s.rows || !runtimeOk || !HasContainer(s.containers, id, value.runtimeId) then (s, false)
      else (HaltedSpec(s, id, value, now), true)
    case DeleteAction =>
      if value.runtimeId == "" || (value.observed != Stopped && value.observed != Exited) then (s, true)
      else if id !in s.rows then (s, false)
      else
        var (containers, removed) := RemoveContainerSpec(s.containers, id, value.runtimeId, runtimeOk);
        if !removed then (s, false)
        else
          (WithRow(s, id, s.rows[id].(observed := Removed, runtimeId := value.runtimeId, startedAt := value.startedAt,
                                      lastConnectedAt := value.lastConnectedAt, stoppedAt := value.stoppedAt, containerDeletedAt := now))
           .(containers := containers), true)
  }

  // ---------------------------------------------------------------------
  // Reconcile

  datatype Observation = Observation(runtimeId: string, state: Observed, observedAt: Time)

  function Normalize(state: Observed): Observed {
    match state
    case Exited => Stopped
    case Missing => Unknown
    case other => other
  }

  function ReconciledRow(w: Workspace, observed: Option<Observation>, inspectedAt: Time): Workspace {
    if observed.None? then
      if w.runtimeId == "" || w.observed == Removed then w else w.(observed := Missing)
    else
      var o := observed.value;
      var state := Normalize(o.state);
      var at := if o.observedAt == 0 then inspectedAt else o.observedAt;
      w.(observed := state, runtimeId := o.runtimeId,
         startedAt := if state == Running && w.startedAt == 0 then at else w.startedAt,
         stoppedAt := if state == Running then 0 else if state == Stopped && w.stoppedAt == 0 then at else w.stoppedAt)
  }

  function Lookup(observations: map<string, Observation>, id: string): Option<Observation> {
    if id in observations then Some(observations[id]) else None
  }

  function ReconciledRows(rows: map<string, Workspace>, observations: map<string, Observation>,
                          inspectedAt: Time): map<string, Workspace> {
    map id | id in rows :: ReconciledRow(rows[id], Lookup(observations, id), inspectedAt)
  }

  // ---------------------------------------------------------------------
  // Create

  datatype VolumeRequest = VolumeRequest(mount: string, from: string)

  datatype CreateInput = CreateInput(
    id: string, owner: string, name: string, mounts: MountList, cpu: int64, memory: int64, idleTimeout: int, stoppedRetention: int,
    reattachVolumes: seq<VolumeRequest>, reattachDirectories: Option<string>)

  datatype CreateOracle = CreateOracle(storage: Option<nat>, inspectFault: nat, ensureFault: nat, storeOk: bool, portsOk: bool,
                                       restoreFault: RestoreFault, start: StartOracle)

  predicate NameTaken(rows: map<string, Workspace>, owner: string, name: string) {
    exists id :: id in rows && rows[id].owner == owner && rows[id].name == name
  }

  /** validateReattachCompatibility. */
  predicate Compatible(input: CreateInput) {
    && (forall r :: r in input.reattachVolumes ==> exists m :: m in input.mounts && m.name == r.mount && m.kind == Volume)
    && (input.reattachDirectories.Some? ==> HasDirectoryMount(input.mounts))
  }

  datatype Claim = Claim(tombs: map<TombKey, VolumeTomb>, overrides: map<string, string>, ok: bool)

  /** consumeReattachedVolumes from request `i` on: a claimed tombstone is gone
      even when its volume turns out to be missing. `fault` is the request at
      which the runtime cannot be asked. */
  function ClaimVolumes(tombs: map<TombKey, VolumeTomb>, volumes: set<string>, owner: string,
                        requests: seq<VolumeRequest>,
                        i: nat, overrides: map<string, string>, fault: nat): Claim
    requires i <= |requests|
    decreases |requests| - i
  {
    if i == |requests| then Claim(tombs, overrides, true)
    else
      var key := TombKey(requests[i].from, requests[i].mount);
      if key !in tombs || tombs[key].owner != owner then Claim(tombs, overrides, false)
      else
        var volume := tombs[key].volume;
        if i == fault || volume !in volumes then Claim(tombs - {key}, overrides, false)
        else ClaimVolumes(tombs - {key}, volumes, owner, requests, i + 1, overrides[requests[i].mount := volume], fault)
  }

  ghost function NewRow(input: CreateInput): Workspace
    requires input.cpu > 0 && input.memory > 0
  {
    Workspace(input.owner, input.name, input.mounts, input.cpu as int, input.memory as int, input.idleTimeout, input.stoppedRetention,
              WantStopped, Unknown, "", 0, 0, 0, 0, 0, 0)
  }

  /** The cleanup of a failed creation. */
  ghost function Withdrawn(s: State, input: CreateInput, removeFiles: bool): State {
    s.(rows := s.rows - {input.id}, files := if removeFiles then RemoveSpec(s.files, input.id, input.mounts) else s.files)
  }

  ghost function RestoreStep(s: State, input: CreateInput, o: CreateOracle): (State, bool) {
    if input.reattachDirectories.None? then (s, true)
    else
      var from := input.reattachDirectories.value;
      if from !in s.directoryTombs || s.directoryTombs[from].owner != input.owner then (s, false)
      else
        var archived := s.directoryTombs[from].mounts;
        RestoreWellFormed(s.files, from, input.id, input.mounts, archived, o.restoreFault);
        var (files, ok) := RestoreSpec(s.files, from, input.id, input.mounts, archived, o.restoreFault);
        (s.(directoryTombs := s.directoryTombs - {from}, files := files), ok)
  }

  ghost function StartStep(c: Config, s: State, input: CreateInput, overrides: map<string, string>,
                           o: CreateOracle): (State, bool) {
    if overrides == map[] then (s, true)
    else
      var (started, ok) := StartSpec(c, s, input.id, overrides, o.start);
      if ok then (started, true) else (Withdrawn(started, input, input.reattachDirectories.None?), false)
  }

  /** What follows the claims up to the start: directories, row, ports, restore. */
  ghost function InsertStep(s: State, input: CreateInput, o: CreateOracle): (State, bool)
    requires input.cpu > 0 && input.memory > 0
  {
    var (files, ensured) := EnsureSpec(s.files, input.id, input.mounts, o.ensureFault);
    var prepared := s.(files := files);
    if !ensured then (prepared, false)
    else if !o.storeOk then (prepared.(files := RemoveSpec(files, input.id, input.mounts)), false)
    else
      var inserted := WithRow(prepared, input.id, NewRow(input));
      if !o.portsOk then (Withdrawn(inserted, input, true), false)
      else
        var (restored, ok) := RestoreStep(inserted, input, o);
        if !ok then (Withdrawn(restored, input, true), false) else (restored, true)
  }

  ghost function BuildStep(c: Config, s: State, input: CreateInput, overrides: map<string, string>,
                           o: CreateOracle): (State, bool)
    requires input.cpu > 0 && input.memory > 0
  {
    var (placed, ok) := InsertStep(s, input, o);
    if !ok then (placed, false) else StartStep(c, placed, input, overrides, o)
  }

  ghost function CreateSpec(c: Config, s: State, input: CreateInput, o: CreateOracle): (State, bool) {
    if !Compatible(input) then (s, false)
    else if !CreateAdmissible(c, s.rows, input.owner, input.cpu as int, input.memory as int, o.storage) then (s, false)
    else if NameTaken(s.rows, input.owner, input.name) then (s, false)
    else
      var claim := ClaimVolumes(s.volumeTombs, s.volumes, input.owner, input.reattachVolumes, 0, map[], o.inspectFault);
      var claimed := s.(volumeTombs := claim.tombs);
      if !claim.ok then (claimed, false) else BuildStep(c, claimed, input, claim.overrides, o)
  }
}
