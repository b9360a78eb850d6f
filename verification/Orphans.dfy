/** Running containers that a deletion leaves behind without a row. */
module Orphans {
  import opened Domain
  import opened Quota
  import opened Timeouts
  import opened Mounts
  import opened Lifecycle
  import opened Service
  import opened Effects
  import opened Runs
  import opened Admission
  import opened DeleteRetry
  import LifecycleInvariant

  ghost predicate RunsOn(s: State, id: string) {
    id in s.containers && s.containers[id].running
  }

  /** The deletion does not ask the runtime for this container: it goes by the row
      it read, in which there is none, it is gone, or it has another handle. */
  ghost predicate Overlooks(s: State, id: string, value: Workspace) {
    || value.runtimeId == "" || value.observed == Removed || value.observed == Missing
    || !HasContainer(s.containers, id, value.runtimeId)
  }

  /** Exactly when a deletion that succeeds leaves a running container without a row. */
  lemma DeleteOrphansIff(s: State, id: string, value: Workspace, o: DeleteOracle)
    requires DeleteSpec(s, id, value, o).1
    ensures id !in DeleteSpec(s, id, value, o).0.rows
    ensures RunsOn(DeleteSpec(s, id, value, o).0, id) <==> RunsOn(s, id) && Overlooks(s, id, value)
  {
    var after, ok := DeleteEffect(s, id, value, o);
  }

  /** A deletion that acts on the stored row orphans nothing as long as running
      containers are recorded as running; a deletion by a current row orphans a
      container exactly when the record is wrong about it. */
  lemma CurrentDeleteOrphansIff(s: State, id: string, o: DeleteOracle)
    requires id in s.rows && DeleteSpec(s, id, s.rows[id], o).1
    requires LifecycleInvariant.RowOk(s.rows[id])
    ensures RunsOn(DeleteSpec(s, id, s.rows[id], o).0, id) <==> RunsOn(s, id)
    ensures RunsOn(s, id) ==> !Recorded(s)
  {
    var w := s.rows[id];
    var after, ok := DeleteEffect(s, id, w, o);
    DeleteOrphansIff(s, id, w, o);
  }

  /** The first case: the row was read before the first start. */
  lemma StaleDeleteOrphansContainer(c: Config, sys: System, id: string, o: StartOracle)
    requires id in sys.state.rows && sys.state.rows[id].runtimeId == "" && id !in sys.state.containers
    requires Dir(Archive, id) !in sys.state.files.dirs && id !in sys.state.directoryTombs
    requires MayStart(c, sys.state.rows, id) && sys.state.rows[id].observed != Running
    requires Enabled(sys, StartOne(id, o)) && o.prepareOk && o.specOk && o.createOk && o.startOk
    requires o.ensureFault >= |sys.state.rows[id].mounts|
    ensures var row := sys.state.rows[id];
            var listed := Apply(c, sys, Read(id));
            Enabled(listed, StartOne(id, o)) &&
            var started := Apply(c, listed, StartOne(id, o));
            && Enabled(started, DeleteOne(id, row, NoDeleteFault))
            && var deleted := Apply(c, started, DeleteOne(id, row, NoDeleteFault)).state;
               id !in deleted.rows && RunsOn(deleted, id)
  {
    var row := sys.state.rows[id];
    var listed := Apply(c, sys, Read(id));
    var started := Apply(c, listed, StartOne(id, o));
    var after, ok := FirstStartEffect(sys.state, id, map[], o);
    StartSucceeds(sys.state, id, o);
    assert started.state == after;
    EarlyDelete(after, id, row);
    DeleteOrphansIff(after, id, row, NoDeleteFault);
  }

  lemma StartSucceeds(s: State, id: string, o: StartOracle)
    requires id in s.rows && s.rows[id].runtimeId == "" && s.rows[id].observed != Running && id !in s.containers
    requires o.prepareOk && o.specOk && o.createOk && o.startOk && o.ensureFault >= |s.rows[id].mounts|
    ensures var (after, ok) := AdmittedStartSpec(s, id, map[], o);
            && ok && id in after.containers && after.containers[id].running
            && after.directoryTombs == s.directoryTombs && after.files.dirs <= s.files.dirs + {Dir(Live, id)}
  {
  }

  lemma EarlyDelete(s: State, id: string, row: Workspace)
    requires id in s.rows && row.runtimeId == "" && Dir(Archive, id) !in s.files.dirs && id !in s.directoryTombs
    ensures DeleteSpec(s, id, row, NoDeleteFault).1
  {
  }

  /** The second case, with the stored row itself: one reconciliation misses the
      running container, and the deletion of the workspace takes its word for it. */
  lemma MissingRowOrphansContainer(c: Config, sys: System, id: string, observations: map<string, Observation>, at: Time)
    requires Sound(sys) && id in sys.state.rows && sys.state.rows[id].observed == Running && sys.state.rows[id].runtimeId != ""
    requires RunsOn(sys.state, id) && Enabled(sys, ReconcileAll(observations, at)) && id !in observations
    requires Dir(Live, id) !in sys.state.files.dirs || Dir(Archive, id) !in sys.state.files.dirs
    ensures var reconciled := Apply(c, sys, ReconcileAll(observations, at));
            id in reconciled.state.rows &&
            var row := reconciled.state.rows[id];
            var listed := Apply(c, reconciled, Read(id));
            && listed.state.rows[id] == row && Enabled(listed, DeleteOne(id, row, NoDeleteFault))
            && var deleted := Apply(c, listed, DeleteOne(id, row, NoDeleteFault)).state;
               id !in deleted.rows && RunsOn(deleted, id)
  {
    var reconciled := Apply(c, sys, ReconcileAll(observations, at));
    var row := reconciled.state.rows[id];
    var listed := Apply(c, reconciled, Read(id));
    StepKeepsSound(c, sys, ReconcileAll(observations, at));
    assert row == sys.state.rows[id].(observed := Missing);
    DeleteSucceedsIffDeletable(reconciled, id);
    assert listed.state == reconciled.state && Listed(id, row) in listed.snapshots;
    DeleteOrphansIff(listed.state, id, row, NoDeleteFault);
  }

  /** The third case: the container was created again under another handle after
      the row was read. */
  lemma RecreatedContainerIsOrphaned(s: State, id: string, value: Workspace, o: DeleteOracle)
    requires DeleteSpec(s, id, value, o).1 && RunsOn(s, id) && s.containers[id].runtimeId != value.runtimeId
    ensures RunsOn(DeleteSpec(s, id, value, o).0, id)
  {
    DeleteOrphansIff(s, id, value, o);
  }
}
