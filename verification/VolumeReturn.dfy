/** Which volumes come back: a workspace finds its own volumes again after its
    container was removed or it was deleted, but not those it took over. */
module VolumeReturn {
  import opened Domain
  import opened Quota
  import opened Timeouts
  import opened Lifecycle
  import opened Service
  import opened Effects
  import opened Runs
  import opened VolumeExclusivity
  import opened Outcomes
  import Creation

  /** A volume of the workspace's own stands at the mount it was made for. */
  ghost predicate OwnAt(s: State, id: string, name: string)
    requires id in s.rows && Attached(s.containers, id, name)
  {
    exists m :: m in s.rows[id].mounts && m.kind == Volume && m.name == name && VolumeAt(s.containers, id, name) == OwnVolume(id, m)
  }

  ghost predicate OwnNamed(s: State) {
    forall id, name :: id in s.rows && Attached(s.containers, id, name) && Origin(VolumeAt(s.containers, id, name)) == id ==> OwnAt(s, id, name)
  }

  lemma MadeForMount(id: string, mounts: MountList, overrides: map<string, string>, name: string)
    requires name in VolumesFor(id, mounts, overrides) && (name in overrides ==> Origin(overrides[name]) != id)
    requires Origin(VolumesFor(id, mounts, overrides)[name]) == id
    ensures exists m :: m in mounts && m.kind == Volume && m.name == name && VolumesFor(id, mounts, overrides)[name] == OwnVolume(id, m)
  {
    Creation.MountGetsVolume(id, mounts, overrides, name);
  }

  lemma StartKeepsOwnNamed(c: Config, sys: System, step: Step, after: State)
    requires Traceable(sys) && OwnNamed(sys.state) && Enabled(sys, step) && step.StartOne?
    requires Takes(c, sys.state, step, after)
    ensures OwnNamed(after)
  {
    var s := sys.state;
    VolumeExclusivity.StartAttaches(c, s, step.id, step.start, after);
    StepEvolvesRows(c, s, step, after);
    forall id, name | id in after.rows && Attached(after.containers, id, name) && Origin(VolumeAt(after.containers, id, name)) == id
      ensures OwnAt(after, id, name)
    {
      if Attached(s.containers, id, name) && VolumeAt(s.containers, id, name) == VolumeAt(after.containers, id, name) {
        assert OwnAt(s, id, name);
      } else {
        MadeForMount(id, s.rows[id].mounts, map[], name);
      }
    }
  }

  lemma CreateKeepsOwnNamed(c: Config, sys: System, step: Step, after: State)
    requires Traceable(sys) && OwnNamed(sys.state) && Enabled(sys, step) && step.Create?
    requires Takes(c, sys.state, step, after)
    ensures OwnNamed(after)
  {
    var s, input, o := sys.state, step.input, step.create;
    ClaimsAreFree(s, sys.used, input, o);
    StepEvolvesRows(c, s, step, after);
    forall id, name | id in after.rows && Attached(after.containers, id, name) && Origin(VolumeAt(after.containers, id, name)) == id
      ensures OwnAt(after, id, name)
    {
      if id != input.id {
        assert Attached(s.containers, id, name) && OwnAt(s, id, name);
      } else {
        assert after.rows[id].mounts == input.mounts;
        MadeForMount(id, input.mounts, ClaimOf(s, input, o).overrides, name);
      }
    }
  }

  lemma StepKeepsOwnNamed(c: Config, sys: System, step: Step)
    requires Traceable(sys) && OwnNamed(sys.state) && Enabled(sys, step)
    ensures OwnNamed(Apply(c, sys, step).state)
  {
    var after := StepTakes(c, sys, step);
    match step
    case Create(_, _) => CreateKeepsOwnNamed(c, sys, step, after);
    case StartOne(_, _) => StartKeepsOwnNamed(c, sys, step, after);
    case _ =>
      StepEvolvesRows(c, sys.state, step, after);
      FewerKeepOwnNamed(c, sys.state, step, after);
  }

  lemma FewerKeepOwnNamed(c: Config, s: State, step: Step, after: State)
    requires OwnNamed(s) && Takes(c, s, step, after) && !step.Create? && !step.StartOne?
    requires RowsEvolve(s.rows, after.rows, {})
    ensures OwnNamed(after)
  {
    if step.DeleteOne? {
      assert NoNewAttachments(after.containers, s.containers);
    } else {
      OthersAreQuiet(c, s, step, after);
    }
    forall id, name | id in after.rows && Attached(after.containers, id, name) && Origin(VolumeAt(after.containers, id, name)) == id
      ensures OwnAt(after, id, name)
    {
      assert Attached(s.containers, id, name) && OwnAt(s, id, name);
    }
  }

  /** Over every run, from the empty control plane. */
  lemma RunsKeepOwnNamed(c: Config, trace: seq<System>, steps: seq<Step>)
    requires Run(c, trace, steps) && Traceable(trace[0]) && OwnNamed(trace[0].state)
    ensures forall i :: 0 <= i < |trace| ==> Traceable(trace[i]) && OwnNamed(trace[i].state)
  {
    for i := 0 to |steps|
      invariant forall k :: 0 <= k <= i ==> Traceable(trace[k]) && OwnNamed(trace[k].state)
    {
      assert StepAt(c, trace, steps, i);
      StepKeepsTraceable(c, trace[i], steps[i]);
      StepKeepsOwnNamed(c, trace[i], steps[i]);
    }
  }

  lemma InitiallyOwnNamed(sys: System)
    requires Initial(sys)
    ensures Traceable(sys) && OwnNamed(sys.state)
  {
  }

  // ---------------------------------------------------------------------
  // Deletion

  lemma OwnVolumeIsRetained(s: State, id: string, value: Workspace, o: DeleteOracle, name: string)
    requires id in s.rows && value.mounts == s.rows[id].mounts && value.runtimeId != "" && DeleteSpec(s, id, value, o).1
    requires Attached(s.containers, id, name) && OwnAt(s, id, name)
    ensures InTombs(DeleteSpec(s, id, value, o).0.volumeTombs, VolumeAt(s.containers, id, name))
  {
    var volume := VolumeAt(s.containers, id, name);
    var m :| m in s.rows[id].mounts && m.kind == Volume && m.name == name && volume == OwnVolume(id, m);
    DeletedLeavesTombstones(s, id, value, o, m);
  }

  lemma OtherVolumeIsNot(s: State, id: string, value: Workspace, o: DeleteOracle, volume: string)
    requires DeleteSpec(s, id, value, o).1 && |id| == ID_LENGTH && !InTombs(s.volumeTombs, volume)
    requires value.runtimeId == "" || Origin(volume) != id
    ensures !InTombs(DeleteSpec(s, id, value, o).0.volumeTombs, volume)
  {
    var after, ok := DeleteEffect(s, id, value, o);
    if value.runtimeId != "" {
      ForeignStaysOut(s, id, value, volume);
    }
  }

  /** In a reachable state: a volume that is attached when its workspace is deleted
      has a tombstone afterwards, by which it can be reattached, exactly when the
      workspace made it itself and the deletion knew of a container. The tombstone
      of a mount that holds a taken-over volume names a volume of the workspace's
      own instead. */
  lemma DeletedVolumeIsRetainedIff(sys: System, id: string, value: Workspace, o: DeleteOracle, name: string)
    requires Traceable(sys) && OwnNamed(sys.state) && Listed(id, value) in sys.snapshots && id in sys.state.rows
    requires DeleteSpec(sys.state, id, value, o).1 && Attached(sys.state.containers, id, name)
    ensures var volume := VolumeAt(sys.state.containers, id, name);
            InTombs(DeleteSpec(sys.state, id, value, o).0.volumeTombs, volume) <==> value.runtimeId != "" && Origin(volume) == id
  {
    var s, volume := sys.state, VolumeAt(sys.state.containers, id, name);
    assert !InTombs(s.volumeTombs, volume) by {
      TraceableIsExclusive(sys);
    }
    assert SameIdentity(Listed(id, value).value, s.rows[id]);
    if value.runtimeId != "" && Origin(volume) == id {
      assert OwnAt(s, id, name);
      OwnVolumeIsRetained(s, id, value, o, name);
    } else {
      OtherVolumeIsNot(s, id, value, o, volume);
    }
  }

  lemma ForeignStaysOut(s: State, id: string, value: Workspace, volume: string)
    requires |id| == ID_LENGTH && Origin(volume) != id && !InTombs(s.volumeTombs, volume)
    ensures !InTombs(s.volumeTombs + VolumeTombs(id, value.owner, value.mounts), volume)
  {
    AddedTombs(id, value.owner, value.mounts);
  }

  /** Every volume a creation takes over is one of those. */
  lemma TakenVolumeIsForeign(c: Config, sys: System, input: CreateInput, o: CreateOracle, m: Mount, k: nat)
    requires Traceable(sys) && Enabled(sys, Create(input, o)) && CreateSpec(c, sys.state, input, o).1
    requires Creation.DistinctRequests(input.reattachVolumes) && k < |input.reattachVolumes|
    requires m in input.mounts && m.kind == Volume && m.name == input.reattachVolumes[k].mount
    ensures var after := CreateSpec(c, sys.state, input, o).0;
            && Attached(after.containers, input.id, m.name) && Origin(VolumeAt(after.containers, input.id, m.name)) == input.reattachVolumes[k].from
            && input.reattachVolumes[k].from != input.id
  {
    Creation.ReattachedVolumesAttach(c, sys.state, input, o, m);
    assert TombKey(input.reattachVolumes[k].from, m.name) in sys.state.volumeTombs;
  }

  // ---------------------------------------------------------------------
  // A container that is made again

  /** In a reachable state a container that is made again after the old one was
      removed or lost holds at each volume mount what the old one held exactly
      when that was a volume of the workspace's own. */
  lemma RecreatedVolumeReturnsIff(c: Config, s: State, id: string, o: StartOracle, m: Mount, volume: string)
    requires id in s.rows && s.rows[id].observed != Running
    requires s.rows[id].runtimeId == "" || s.rows[id].observed == Removed || s.rows[id].observed == Missing
    requires m in s.rows[id].mounts && m.kind == Volume && StartSpec(c, s, id, map[], o).1
    ensures var after := StartSpec(c, s, id, map[], o).0;
            Attached(after.containers, id, m.name) && (VolumeAt(after.containers, id, m.name) == volume <==> volume == OwnVolume(id, m))
  {
    Creation.StartAttaches(s, id, map[], o, m.name);
  }

  /** Nobody can reach the volume any more: no tombstone and no container has it. */
  ghost predicate Stranded(s: State, volume: string) {
    && volume in s.volumes && !InTombs(s.volumeTombs, volume)
    && (forall id, name :: id in s.rows && Attached(s.containers, id, name) ==> VolumeAt(s.containers, id, name) != volume)
  }

  /** A run in which it is lost: the retention period of a stopped workspace ends,
      its container is removed, and the next start attaches a volume of its own
      where the taken-over one was. */
  lemma RetentionStrandsTakenVolume(c: Config, sys: System, id: string, m: Mount, now: Time, o: StartOracle)
    requires Traceable(sys) && id in sys.state.rows && m in sys.state.rows[id].mounts && m.kind == Volume
    requires Attached(sys.state.containers, id, m.name) && Origin(VolumeAt(sys.state.containers, id, m.name)) != id
    requires var w := sys.state.rows[id];
             && (w.observed == Stopped || w.observed == Exited) && w.runtimeId != "" && w.containerDeletedAt == 0 && w.stoppedAt != 0
             && w.stoppedRetention > 0 && w.stoppedAt + w.stoppedRetention <= now && now > 0
             && sys.state.containers[id].runtimeId == w.runtimeId && !sys.state.containers[id].running
    requires FreshHandle(sys, o.newRuntimeId) && o.now > 0 && MayStart(c, sys.state.rows, id)
    requires o.prepareOk && o.ensureFault >= |sys.state.rows[id].mounts| && o.specOk && o.createOk && o.startOk
    ensures var w, volume := sys.state.rows[id], VolumeAt(sys.state.containers, id, m.name);
            var listed := Apply(c, sys, Read(id));
            Enabled(listed, TimeOut(id, w, now, true)) &&
            var removed := Apply(c, listed, TimeOut(id, w, now, true));
            Enabled(removed, StartOne(id, o)) &&
            var started := Apply(c, removed, StartOne(id, o)).state;
            && id in started.rows && started.rows[id].observed == Running
            && Attached(started.containers, id, m.name) && VolumeAt(started.containers, id, m.name) == OwnVolume(id, m)
            && Stranded(started, volume)
  {
    var w, volume := sys.state.rows[id], VolumeAt(sys.state.containers, id, m.name);
    var listed := Apply(c, sys, Read(id));
    var removed := Apply(c, listed, TimeOut(id, w, now, true));
    RemovedState(sys.state, id, w, now);
    assert removed == System(RemovedBy(sys.state, id, now), listed.snapshots, sys.used);
    HandleStaysFresh(sys, removed, id, now, o.newRuntimeId);
    AdmittedAgain(c, sys.state.rows, id, removed.state.rows);
    StartsAgain(c, removed.state, id, o);
    StrandedByStart(c, sys, removed, id, m, now, o);
  }

  /** The state in which the retention timeout has removed the container. */
  ghost function RemovedBy(s: State, id: string, now: Time): State
    requires id in s.rows
  {
    s.(rows := s.rows[id := s.rows[id].(observed := Removed, containerDeletedAt := now)], containers := s.containers - {id})
  }

  lemma HandleStaysFresh(sys: System, removed: System, id: string, now: Time, handle: string)
    requires id in sys.state.rows && FreshHandle(sys, handle)
    requires removed == System(RemovedBy(sys.state, id, now), sys.snapshots + {Listed(id, sys.state.rows[id])}, sys.used)
    ensures FreshHandle(removed, handle)
  {
  }

  lemma StartsAgain(c: Config, s: State, id: string, o: StartOracle)
    requires id in s.rows && s.rows[id].observed == Removed && id !in s.containers && MayStart(c, s.rows, id)
    requires o.prepareOk && o.ensureFault >= |s.rows[id].mounts| && o.specOk && o.createOk && o.startOk
    ensures StartSpec(c, s, id, map[], o).1
    ensures id in StartSpec(c, s, id, map[], o).0.rows && StartSpec(c, s, id, map[], o).0.rows[id].observed == Running
  {
    StartOperationSucceedsIff(c, s, id, map[], o);
    StartedRuns(s, id, map[], o);
  }

  lemma RemovedState(s: State, id: string, w: Workspace, now: Time)
    requires id in s.rows && w == s.rows[id] && (w.observed == Stopped || w.observed == Exited) && w.runtimeId != "" && w.containerDeletedAt == 0
    requires w.stoppedAt != 0 && w.stoppedRetention > 0 && w.stoppedAt + w.stoppedRetention <= now
    requires id in s.containers && s.containers[id].runtimeId == w.runtimeId && !s.containers[id].running
    ensures TimeoutSpec(s, id, w, now, true).0 == RemovedBy(s, id, now)
  {
  }

  lemma AdmittedAgain(c: Config, rows: map<string, Workspace>, id: string, after: map<string, Workspace>)
    requires id in rows && id in after && after == rows[id := after[id]] && SameIdentity(rows[id], after[id])
    requires rows[id].observed != Running && after[id].observed != Running && MayStart(c, rows, id)
    ensures MayStart(c, after, id)
  {
    forall scope, measure ensures Total(after, scope, measure) == Total(rows, scope, measure) {
      TotalUpdated(rows, id, after[id], scope, measure);
    }
  }

  lemma OnlyOwnAttached(s: State, id: string, o: StartOracle, name: string)
    requires id in s.rows && s.rows[id].observed == Removed && AdmittedStartSpec(s, id, map[], o).1 && |id| == ID_LENGTH
    ensures var after := AdmittedStartSpec(s, id, map[], o).0;
            Attached(after.containers, id, name) ==> Origin(VolumeAt(after.containers, id, name)) == id
  {
    Creation.StartAttaches(s, id, map[], o, name);
    if Attached(AdmittedStartSpec(s, id, map[], o).0.containers, id, name) {
      var mount :| mount in s.rows[id].mounts && mount.kind == Volume && mount.name == name;
      OriginOfManaged(id, mount);
    }
  }

  lemma OthersKeepContainers(s: State, id: string, o: StartOracle)
    requires id in s.rows && AdmittedStartSpec(s, id, map[], o).1
    ensures var after := AdmittedStartSpec(s, id, map[], o).0;
            && after.rows.Keys == s.rows.Keys && after.volumeTombs == s.volumeTombs && s.volumes <= after.volumes
            && (forall other, name :: other != id && Attached(after.containers, other, name) ==>
                  Attached(s.containers, other, name) && VolumeAt(after.containers, other, name) == VolumeAt(s.containers, other, name))
  {
    var after, ok := StartEffect(s, id, map[], o);
  }

  lemma StrandedByStart(c: Config, sys: System, removed: System, id: string, m: Mount, now: Time, o: StartOracle)
    requires Traceable(sys) && id in sys.state.rows && Attached(sys.state.containers, id, m.name)
    requires Origin(VolumeAt(sys.state.containers, id, m.name)) != id && m in sys.state.rows[id].mounts && m.kind == Volume
    requires removed.state == RemovedBy(sys.state, id, now) && Enabled(removed, StartOne(id, o))
    requires StartSpec(c, removed.state, id, map[], o).1
    ensures var started := Apply(c, removed, StartOne(id, o)).state;
            && Attached(started.containers, id, m.name) && VolumeAt(started.containers, id, m.name) == OwnVolume(id, m)
            && Stranded(started, VolumeAt(sys.state.containers, id, m.name))
  {
    var volume := VolumeAt(sys.state.containers, id, m.name);
    var started := AdmittedStartSpec(removed.state, id, map[], o).0;
    RecreatedVolumeReturnsIff(c, removed.state, id, o, m, OwnVolume(id, m));
    OthersKeepContainers(removed.state, id, o);
    NowhereElse(sys, id, m.name);
    forall other, name | other in started.rows && Attached(started.containers, other, name) ensures VolumeAt(started.containers, other, name) != volume {
      if other == id {
        OnlyOwnAttached(removed.state, id, o, name);
      } else {
        assert Attached(sys.state.containers, other, name);
      }
    }
  }

  lemma NowhereElse(sys: System, id: string, mount: string)
    requires Traceable(sys) && id in sys.state.rows && Attached(sys.state.containers, id, mount)
    ensures var volume := VolumeAt(sys.state.containers, id, mount);
            && volume in sys.state.volumes && !InTombs(sys.state.volumeTombs, volume) && |id| == ID_LENGTH
            && forall other, name :: other in sys.state.rows && other != id && Attached(sys.state.containers, other, name) ==>
                 VolumeAt(sys.state.containers, other, name) != volume
  {
    TraceableIsExclusive(sys);
  }
}
