/** When each lifecycle operation succeeds, and what it leaves: told by the rows,
    the containers, the tombstones and the calls it makes alone. */
module Outcomes {
  import opened Domain
  import opened Quota
  import opened Timeouts
  import opened Mounts
  import opened Lifecycle
  import opened Service
  import opened Effects
  import LifecycleInvariant

  // ---------------------------------------------------------------------
  // Directories

  /** The mount directories are created unless the system refuses one of them. */
  lemma EnsureSucceedsIff(files: Files, id: string, mounts: seq<Mount>, fault: nat)
    ensures EnsureSpec(files, id, mounts, fault).1 <==> fault >= |mounts|
  {
  }

  /** A directory is archived unless one is there already or the rename fails. */
  lemma ArchiveSucceedsIff(files: Files, id: string, mounts: seq<Mount>, fault: bool)
    ensures ArchiveSpec(files, id, mounts, fault).1 <==>
              ((exists m :: m in mounts && m.kind == Directory) && Dir(Live, id) in files.dirs ==> Dir(Archive, id) !in files.dirs && !fault)
  {
  }

  /** Discarding an archive takes it away and nothing else. */
  lemma DiscardTakesArchive(s: State, id: string, owner: string, removeOk: bool)
    ensures var (after, ok) := DiscardRetainedSpec(s, id, owner, removeOk);
            && (ok <==> id in s.directoryTombs && s.directoryTombs[id].owner == owner && removeOk)
            && (!ok ==> after == s)
            && (ok ==>
                  && after == s.(directoryTombs := after.directoryTombs, files := after.files)
                  && id !in after.directoryTombs && (forall other :: other in s.directoryTombs && other != id ==>
                                                       other in after.directoryTombs && after.directoryTombs[other] == s.directoryTombs[other])
                  && (forall p :: p in after.files.entries <==> p in s.files.entries && !(p.tree == Archive && p.workspace == id))
                  && (forall p :: p in after.files.entries ==> after.files.entries[p] == s.files.entries[p])
                  && after.files.dirs == s.files.dirs - {Dir(Archive, id)})
  {
  }

  // ---------------------------------------------------------------------
  // Start

  /** What the runtime must do for a start of this row. */
  ghost predicate Startable(w: Workspace, containers: map<string, Container>, id: string, o: StartOracle) {
    if w.runtimeId == "" || w.observed == Removed || w.observed == Missing
    then o.prepareOk && o.ensureFault >= |w.mounts| && o.specOk && o.createOk && id !in containers && o.startOk
    else o.startOk && id in containers && containers[id].runtimeId == w.runtimeId
  }

  lemma FirstStartSucceedsIff(s: State, id: string, overrides: map<string, string>, o: StartOracle)
    requires id in s.rows && s.rows[id].observed != Running
    requires s.rows[id].runtimeId == "" || s.rows[id].observed == Removed || s.rows[id].observed == Missing
    ensures AdmittedStartSpec(s, id, overrides, o).1 <==> Startable(s.rows[id], s.containers, id, o)
  {
    var wanted := WithRow(s, id, s.rows[id].(desired := WantRunning));
    EnsureSucceedsIff(s.files, id, s.rows[id].mounts, o.ensureFault);
    ContainerEffect(wanted, id, overrides, o);
    var made := ContainerSpec(wanted, id, overrides, o);
    if made.1 {
      assert HasContainer(made.0.containers, id, o.newRuntimeId);
    }
  }

  /** An admitted start succeeds exactly when the workspace runs already, or its
      container can be made and started, or its container is there and starts. */
  lemma StartSucceedsIff(s: State, id: string, overrides: map<string, string>, o: StartOracle)
    requires id in s.rows
    ensures AdmittedStartSpec(s, id, overrides, o).1 <==> s.rows[id].observed == Running || Startable(s.rows[id], s.containers, id, o)
  {
    if s.rows[id].observed != Running && (s.rows[id].runtimeId == "" || s.rows[id].observed == Removed || s.rows[id].observed == Missing) {
      FirstStartSucceedsIff(s, id, overrides, o);
    }
  }

  /** After a successful start the workspace runs under its handle, with the clocks
      set and nobody connected; a running one only has its desired state changed. */
  lemma StartedRuns(s: State, id: string, overrides: map<string, string>, o: StartOracle)
    requires id in s.rows && AdmittedStartSpec(s, id, overrides, o).1
    ensures var after, w := AdmittedStartSpec(s, id, overrides, o).0, s.rows[id];
            id in after.rows &&
            if w.observed == Running then after == s.(rows := s.rows[id := w.(desired := WantRunning)])
            else
              && after.rows[id] == w.(desired := WantRunning, observed := Running, startedAt := o.now, lastConnectedAt := 0, stoppedAt := 0,
                                      activeSessions := 0, idleSince := o.now, runtimeId := after.rows[id].runtimeId)
              && id in after.containers && after.containers[id].running && after.containers[id].runtimeId == after.rows[id].runtimeId
              && after.rows[id].runtimeId == (if w.runtimeId == "" || w.observed == Removed || w.observed == Missing then o.newRuntimeId
                                              else w.runtimeId)
  {
    var after, ok := StartEffect(s, id, overrides, o);
  }

  /** The whole operation: the row exists, the start is admitted unless it runs, and then as above. */
  lemma StartOperationSucceedsIff(c: Config, s: State, id: string, overrides: map<string, string>, o: StartOracle)
    ensures StartSpec(c, s, id, overrides, o).1 <==>
              && id in s.rows
              && (s.rows[id].observed == Running
                  || (StartAdmissible(c, s.rows, s.rows[id].owner, s.rows[id].cpu, s.rows[id].memory) && Startable(s.rows[id], s.containers, id, o)))
  {
    if id in s.rows {
      StartSucceedsIff(s, id, overrides, o);
    }
  }

  // ---------------------------------------------------------------------
  // Stop and timeouts

  /** A stop succeeds when the row it read has nothing to stop, or the runtime
      stops the container by its handle. */
  lemma StopSucceedsIff(s: State, id: string, value: Workspace, now: Time, stopOk: bool)
    ensures StopSpec(s, id, value, now, stopOk).1 <==>
              && id in s.rows
              && (value.runtimeId == "" || value.observed == Stopped || value.observed == Exited || value.observed == Missing
                  || (stopOk && id in s.containers && s.containers[id].runtimeId == value.runtimeId))
  {
  }

  /** A successful stop by a row that says running leaves the container stopped
      and says so; by a current row it changes nothing else but the times. */
  lemma StoppedStands(s: State, id: string, value: Workspace, now: Time, stopOk: bool)
    requires StopSpec(s, id, value, now, stopOk).1 && value.observed == Running && value.runtimeId != ""
    ensures var after := StopSpec(s, id, value, now, stopOk).0;
            && id in after.rows && id in after.containers && after.containers == s.containers[id := s.containers[id].(running := false)]
            && after == s.(rows := s.rows[id := after.rows[id]], containers := after.containers)
            && after.rows[id].observed == Stopped && after.rows[id].stoppedAt == now && after.rows[id].desired == WantStopped
            && (value == s.rows[id] ==> after.rows[id] == s.rows[id].(desired := WantStopped, observed := Stopped, stoppedAt := now))
  {
    var after, ok := StopEffect(s, id, value, now, stopOk);
  }

  /** The idle window of a listed row is over: its container is stopped if it is
      there under its handle and the runtime stops it. */
  lemma IdleTimeoutStops(s: State, id: string, value: Workspace, now: Time, runtimeOk: bool)
    requires value.observed == Running && value.activeSessions == 0 && value.idleSince != 0 && value.idleTimeout > 0
    requires value.idleSince + value.idleTimeout <= now && value.stoppedAt == 0 && value.runtimeId != ""
    ensures var (after, ok) := TimeoutSpec(s, id, value, now, runtimeOk);
            && (ok <==> id in s.rows && runtimeOk && id in s.containers && s.containers[id].runtimeId == value.runtimeId)
            && (!ok ==> after == s)
            && (ok ==> id in after.rows && after.rows[id].observed == Stopped && after.rows[id].desired == WantStopped && after.rows[id].stoppedAt == now
                       && after.containers == s.containers[id := s.containers[id].(running := false)])
  {
  }

  /** The retention period of a stopped container is over: it is removed unless it
      runs, a container that is not there counts as removed, and the row says so. */
  lemma RetentionTimeoutRemoves(s: State, id: string, value: Workspace, now: Time, runtimeOk: bool)
    requires (value.observed == Stopped || value.observed == Exited) && value.runtimeId != "" && value.containerDeletedAt == 0
    requires value.stoppedAt != 0 && value.stoppedRetention > 0 && value.stoppedAt + value.stoppedRetention <= now
    ensures var (after, ok) := TimeoutSpec(s, id, value, now, runtimeOk);
            var named := id in s.containers && s.containers[id].runtimeId == value.runtimeId;
            && (ok <==> id in s.rows && runtimeOk && !(named && s.containers[id].running))
            && (!ok ==> after == s)
            && (ok ==> id in after.rows && after.rows[id].observed == Removed && after.rows[id].containerDeletedAt == now
                       && after.rows[id].runtimeId == value.runtimeId
                       && after.containers == if named then s.containers - {id} else s.containers)
  {
  }

  /** A listed row with neither window over is left alone. */
  lemma NothingDue(s: State, id: string, value: Workspace, now: Time, runtimeOk: bool)
    requires LifecycleInvariant.RowOk(value)
    requires !LifecycleInvariant.IdleExpired(value, now) && !LifecycleInvariant.RetentionExpired(value, now)
    ensures TimeoutSpec(s, id, value, now, runtimeOk) == (s, true)
  {
  }

  // ---------------------------------------------------------------------
  // Reconciliation

  /** The time a row gets when it is first seen running or stopped is that of the
      observation; the time of the inspection only stands in for a missing one. */
  lemma ReconciledTimes(w: Workspace, o: Observation, inspectedAt: Time)
    ensures var r := ReconciledRow(w, Some(o), inspectedAt);
            && (o.state == Running ==> r.stoppedAt == 0 && r.observed == Running)
            && (o.state == Running && w.startedAt == 0 && o.observedAt != 0 ==> r.startedAt == o.observedAt)
            && (o.state == Running && w.startedAt == 0 && o.observedAt == 0 ==> r.startedAt == inspectedAt)
            && (o.state != Running || w.startedAt != 0 ==> r.startedAt == w.startedAt)
            && (o.state == Stopped || o.state == Exited ==> r.observed == Stopped)
            && ((o.state == Stopped || o.state == Exited) && w.stoppedAt == 0 && o.observedAt != 0 ==> r.stoppedAt == o.observedAt)
            && ((o.state == Stopped || o.state == Exited) && w.stoppedAt == 0 && o.observedAt == 0 ==> r.stoppedAt == inspectedAt)
            && (o.state != Running && (w.stoppedAt != 0 || (o.state != Stopped && o.state != Exited)) ==> r.stoppedAt == w.stoppedAt)
  {
  }

  // ---------------------------------------------------------------------
  // Delete

  /** The volume a workspace makes for one of its mounts. */
  function OwnVolume(id: string, m: Mount): string {
    "cows-" + id + "-" + (m.namePrefix + m.name + m.nameSuffix)
  }

  /** The tombstones a deletion leaves for the volume mounts. */
  lemma {:induction false} VolumeTombsAreForMounts(id: string, owner: string, mounts: seq<Mount>, key: TombKey)
    requires forall i, j :: 0 <= i < j < |mounts| ==> mounts[i].name != mounts[j].name
    ensures key in VolumeTombs(id, owner, mounts) <==> key.workspace == id && exists m :: m in mounts && m.kind == Volume && m.name == key.mount
    ensures forall m :: m in mounts && m.kind == Volume && key == TombKey(id, m.name) ==>
              key in VolumeTombs(id, owner, mounts)
              && VolumeTombs(id, owner, mounts)[key] == VolumeTomb(OwnVolume(id, m), owner)
  {
    if mounts != [] {
      var front, last := mounts[..|mounts| - 1], mounts[|mounts| - 1];
      VolumeTombsAreForMounts(id, owner, front, key);
      assert mounts == front + [last];
      forall m | m in front ensures m.name != last.name {
      }
    }
  }

  /** No tombstone has this place or this volume yet. */
  ghost predicate TombIsNew(tombs: map<TombKey, VolumeTomb>, id: string, m: Mount) {
    TombKey(id, m.name) !in tombs && forall other :: other in tombs ==> tombs[other].volume != OwnVolume(id, m)
  }

  lemma TombstonesAreNew(s: State, id: string, value: Workspace, retain: bool)
    ensures TombsInsertable(s.volumeTombs, s.directoryTombs, id, if retain then VolumeTombs(id, value.owner, value.mounts) else map[],
                            HasDirectoryMount(value.mounts)) <==>
              && (retain ==> forall m :: m in value.mounts && m.kind == Volume ==> TombIsNew(s.volumeTombs, id, m))
              && ((exists m :: m in value.mounts && m.kind == Directory) ==> id !in s.directoryTombs)
  {
    var added := VolumeTombs(id, value.owner, value.mounts);
    forall key ensures key in added ==> exists m :: m in value.mounts && m.kind == Volume && key == TombKey(id, m.name) {
      VolumeTombsAreForMounts(id, value.owner, value.mounts, key);
    }
    forall m | m in value.mounts && m.kind == Volume
      ensures TombKey(id, m.name) in added && added[TombKey(id, m.name)].volume == OwnVolume(id, m)
    {
      VolumeTombsAreForMounts(id, value.owner, value.mounts, TombKey(id, m.name));
    }
  }

  /** The container is out of the way, or the row says there is none. */
  ghost predicate ContainerGoes(s: State, id: string, value: Workspace, removeOk: bool) {
    || value.observed == Removed || value.observed == Missing
    || (removeOk && !(id in s.containers && s.containers[id].runtimeId == value.runtimeId && s.containers[id].running))
  }

  /** A deletion succeeds exactly when the workspace exists and does not run, no
      call fails, its directory can be archived and its tombstones are new. */
  lemma DeletionSucceedsIff(s: State, id: string, value: Workspace, o: DeleteOracle)
    ensures DeleteSpec(s, id, value, o).1 <==>
              && id in s.rows && o.beginOk && o.endOk && o.storeOk
              && (value.runtimeId != "" ==> value.observed != Running && ContainerGoes(s, id, value, o.removeOk) && o.midOk)
              && (HasDirectoryMount(value.mounts) && Dir(Live, id) in s.files.dirs ==> Dir(Archive, id) !in s.files.dirs && !o.archiveFault)
              && (value.runtimeId != "" ==> forall m :: m in value.mounts && m.kind == Volume ==> TombIsNew(s.volumeTombs, id, m))
              && ((exists m :: m in value.mounts && m.kind == Directory) ==> id !in s.directoryTombs)
  {
    TombstonesAreNew(s, id, value, value.runtimeId != "");
  }

  /** What is left: a tombstone for each volume mount of a workspace that had a
      container, one for its directory mounts, and no row. */
  lemma DeletedLeavesTombstones(s: State, id: string, value: Workspace, o: DeleteOracle, m: Mount)
    requires DeleteSpec(s, id, value, o).1 && m in value.mounts
    ensures var after := DeleteSpec(s, id, value, o).0;
            && id !in after.rows
            && (m.kind == Volume && value.runtimeId != "" ==>
                  TombKey(id, m.name) in after.volumeTombs
                  && after.volumeTombs[TombKey(id, m.name)] == VolumeTomb(OwnVolume(id, m), value.owner))
            && (value.runtimeId == "" ==> after.volumeTombs == s.volumeTombs)
            && (m.kind == Directory ==> id in after.directoryTombs && after.directoryTombs[id].owner == value.owner && m in after.directoryTombs[id].mounts)
  {
    var after, ok := DeleteEffect(s, id, value, o);
    VolumeTombsAreForMounts(id, value.owner, value.mounts, TombKey(id, m.name));
  }
}
