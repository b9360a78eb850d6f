/** A deletion that failed somewhere can be repeated: until the row is gone the
    workspace's directory data is whole, either still live or already archived. */
module DeleteRetry {
  import opened Domain
  import opened Quota
  import opened Timeouts
  import opened Mounts
  import opened Lifecycle
  import opened Service
  import opened Effects
  import opened Runs
  import opened Admission
  import opened VolumeExclusivity

  // ---------------------------------------------------------------------
  // Operations on one workspace leave the directories of another alone

  /** Both directories of the workspace are as before. */
  ghost predicate SameFor(before: Files, after: Files, id: string) {
    && (forall tree :: Dir(tree, id) in before.dirs <==> Dir(tree, id) in after.dirs)
    && (forall p: Path :: p.workspace == id ==> SameAt(before.entries, after.entries, p))
  }

  lemma EnsureLeavesOthers(files: Files, id: string, mounts: seq<Mount>, fault: nat, other: string)
    requires other != id
    ensures SameFor(files, EnsureSpec(files, id, mounts, fault).0, other)
  {
    if mounts != [] {
      EnsureEntriesAdds(files.entries, id, mounts[..if fault < |mounts| then fault else |mounts|]);
    }
  }

  lemma RestoreLeavesOthers(files: Files, from: string, newId: string, newMounts: MountList, archived: MountList,
                            fault: RestoreFault, other: string)
    requires other != from && other != newId
    ensures var after := RestoreSpec(files, from, newId, newMounts, archived, fault).0;
            WellFormed(after) && SameFor(files, after, other)
  {
    RestoreWellFormed(files, from, newId, newMounts, archived, fault);
    var after, ok := RestoreSpec(files, from, newId, newMounts, archived, fault).0, RestoreSpec(files, from, newId, newMounts, archived, fault).1;
    var moves, cleared := RestoreAllOrNothing(files.entries, from, newId, newMounts, archived, fault);
    BuildMovesAt(from, newId, newMounts, archived);
    forall p: Path | p.workspace == other ensures SameAt(files.entries, after.entries, p) {
      if ok {
        TouchedAre(moves, |moves|, p);
        assert p !in Touched(moves, |moves|);
      }
    }
  }

  lemma SameForTransitive(a: Files, b: Files, c: Files, id: string)
    requires SameFor(a, b, id) && SameFor(b, c, id)
    ensures SameFor(a, c, id)
  {
  }

  lemma RestoreStepLeavesOthers(s: State, input: CreateInput, o: CreateOracle, other: string)
    requires other != input.id && other !in s.directoryTombs
    ensures SameFor(s.files, RestoreStep(s, input, o).0.files, other)
  {
    if input.reattachDirectories.Some? {
      var from := input.reattachDirectories.value;
      if from in s.directoryTombs && s.directoryTombs[from].owner == input.owner {
        RestoreLeavesOthers(s.files, from, input.id, input.mounts, s.directoryTombs[from].mounts, o.restoreFault, other);
      }
    }
  }

  lemma RemoveLeavesOthers(before: Files, files: Files, id: string, mounts: seq<Mount>, other: string)
    requires other != id && SameFor(before, files, other)
    ensures SameFor(before, RemoveSpec(files, id, mounts), other)
  {
  }

  lemma InsertLeavesOthers(s: State, input: CreateInput, o: CreateOracle, other: string)
    requires input.cpu > 0 && input.memory > 0 && other != input.id && other !in s.directoryTombs
    ensures SameFor(s.files, InsertStep(s, input, o).0.files, other)
  {
    var files := EnsureSpec(s.files, input.id, input.mounts, o.ensureFault).0;
    var inserted := WithRow(s.(files := files), input.id, NewRow(input));
    var restored := RestoreStep(inserted, input, o).0;
    EnsureLeavesOthers(s.files, input.id, input.mounts, o.ensureFault, other);
    RestoreStepLeavesOthers(inserted, input, o, other);
    SameForTransitive(s.files, files, restored.files, other);
    RemoveLeavesOthers(s.files, files, input.id, input.mounts, other);
    RemoveLeavesOthers(s.files, restored.files, input.id, input.mounts, other);
  }

  lemma StartStepFiles(c: Config, s: State, input: CreateInput, overrides: map<string, string>,
                       o: CreateOracle) returns (files: Files)
    requires input.id in s.rows
    ensures files == s.files || files == EnsureSpec(s.files, input.id, s.rows[input.id].mounts, o.start.ensureFault).0
    ensures var after := StartStep(c, s, input, overrides, o).0; after.files == files || after.files == RemoveSpec(files, input.id, input.mounts)
  {
    files := s.files;
    if overrides != map[] && MayStart(c, s.rows, input.id) {
      var reached, ok := StartEffect(s, input.id, overrides, o.start);
      files := reached.files;
    }
  }

  lemma StartStepLeavesOthers(c: Config, s: State, input: CreateInput, overrides: map<string, string>,
                              o: CreateOracle, other: string)
    requires other != input.id && input.id in s.rows
    ensures SameFor(s.files, StartStep(c, s, input, overrides, o).0.files, other)
  {
    var files := StartStepFiles(c, s, input, overrides, o);
    var after := StartStep(c, s, input, overrides, o).0;
    EnsureLeavesOthers(s.files, input.id, s.rows[input.id].mounts, o.start.ensureFault, other);
    assert SameFor(s.files, files, other);
    assert SameFor(files, after.files, other);
    SameForTransitive(s.files, files, after.files, other);
  }

  lemma CreateLeavesOthers(c: Config, s: State, input: CreateInput, o: CreateOracle, other: string)
    requires other != input.id && other !in s.directoryTombs && input.id !in s.rows
    ensures SameFor(s.files, CreateSpec(c, s, input, o).0.files, other)
  {
    var claim := ClaimOf(s, input, o);
    if Compatible(input) && MayCreate(c, s.rows, input, o) && !NameTaken(s.rows, input.owner, input.name) && claim.ok {
      var claimed := s.(volumeTombs := claim.tombs);
      InsertLeavesOthers(claimed, input, o, other);
      var placed, placedOk := InsertEffect(claimed, input, o);
      if placedOk {
        StartStepLeavesOthers(c, placed, input, claim.overrides, o, other);
        SameForTransitive(s.files, placed.files, StartStep(c, placed, input, claim.overrides, o).0.files, other);
      }
    }
  }

  // ---------------------------------------------------------------------
  // The state between attempts

  /** Tombstones belong to workspaces that existed and are gone. */
  ghost predicate DirectoryTombsOk(sys: System) {
    forall id :: id in sys.state.directoryTombs ==> id in sys.used && id !in sys.state.rows
  }

  ghost predicate Sound(sys: System) {
    Traceable(sys) && DirectoryTombsOk(sys)
  }

  lemma StepKeepsSound(c: Config, sys: System, step: Step)
    requires Sound(sys) && Enabled(sys, step)
    ensures Sound(Apply(c, sys, step))
  {
    StepKeepsTraceable(c, sys, step);
    var after := StepTakes(c, sys, step);
    StepEvolvesRows(c, sys.state, step, after);
    if step.DeleteOne? {
      assert Listed(step.id, step.value).id in sys.used;
    }
  }

  lemma InitiallySound(sys: System)
    requires Initial(sys)
    ensures Sound(sys)
  {
  }

  /** The workspace's directory in one tree holds exactly this content. */
  ghost predicate Holds(files: Files, tree: Tree, id: string, content: map<string, Content>) {
    && Dir(tree, id) in files.dirs
    && (forall entry :: Path(tree, id, entry) in files.entries <==> entry in content)
    && (forall entry :: entry in content ==> files.entries[Path(tree, id, entry)] == content[entry])
  }

  /** A stopped workspace whose data is whole, wherever an attempt has left it. */
  ghost predicate Ready(s: State, id: string, content: map<string, Content>) {
    && id in s.rows && s.rows[id].observed != Running && HasDirectoryMount(s.rows[id].mounts)
    && (id in s.containers ==> !s.containers[id].running)
    && Kept(s.files, id, content)
  }

  ghost predicate Kept(files: Files, id: string, content: map<string, Content>) {
    || (Holds(files, Live, id, content) && Dir(Archive, id) !in files.dirs)
    || (Holds(files, Archive, id, content) && Dir(Live, id) !in files.dirs)
  }

  /** Deleted: one tombstone, whose archive holds the content. */
  ghost predicate Gone(s: State, id: string, w: Workspace, content: map<string, Content>) {
    && id !in s.rows && id in s.directoryTombs && s.directoryTombs[id] == DirectoryTomb(w.owner, DirectoryMounts(w.mounts))
    && Holds(s.files, Archive, id, content) && Dir(Live, id) !in s.files.dirs
  }

  lemma SameForKeeps(before: Files, after: Files, id: string, content: map<string, Content>)
    requires SameFor(before, after, id) && Kept(before, id, content)
    ensures Kept(after, id, content)
  {
  }

  lemma ArchiveKeeps(files: Files, id: string, mounts: seq<Mount>, fault: bool, content: map<string, Content>)
    requires Kept(files, id, content)
    ensures var (after, ok) := ArchiveSpec(files, id, mounts, fault);
            && Kept(after, id, content)
            && (ok && HasDirectoryMount(mounts) ==> Holds(after, Archive, id, content) && Dir(Live, id) !in after.dirs)
            && (!fault ==> ok)
  {
  }

  /** An attempt with whatever outcome leaves the data whole or the row deleted. */
  lemma AttemptKeepsData(s: State, id: string, value: Workspace, o: DeleteOracle, after: State,
                         content: map<string, Content>)
    requires Ready(s, id, content) && DeleteTakes(s, id, value, o, after) && SameIdentity(value, s.rows[id])
    ensures if id in after.rows then Ready(after, id, content) && after.rows[id] == s.rows[id] else Gone(after, id, s.rows[id], content)
  {
    ArchiveKeeps(s.files, id, value.mounts, o.archiveFault, content);
  }

  // ---------------------------------------------------------------------
  // When a deletion without faults succeeds

  /** What the deletion depends on besides the calls it makes. */
  ghost predicate Deletable(s: State, id: string)
    requires id in s.rows
  {
    var w := s.rows[id];
    && (w.runtimeId != "" ==>
          && w.observed != Running
          && (w.observed != Removed && w.observed != Missing && HasContainer(s.containers, id, w.runtimeId) ==> !s.containers[id].running))
    && (HasDirectoryMount(w.mounts) ==> Dir(Live, id) !in s.files.dirs || Dir(Archive, id) !in s.files.dirs)
  }

  /** In a reachable state the uniqueness constraints of the tombstones never
      stand in the way of a deletion. */
  lemma TombstonesFit(sys: System, id: string, directory: bool)
    requires Sound(sys) && id in sys.state.rows
    ensures var w := sys.state.rows[id];
            TombsInsertable(sys.state.volumeTombs, sys.state.directoryTombs, id, VolumeTombs(id, w.owner, w.mounts), directory)
    ensures TombsInsertable(sys.state.volumeTombs, sys.state.directoryTombs, id, map[], directory)
  {
    AddedTombs(id, sys.state.rows[id].owner, sys.state.rows[id].mounts);
  }

  lemma DeleteSucceedsIffDeletable(sys: System, id: string)
    requires Sound(sys) && id in sys.state.rows
    ensures DeleteSpec(sys.state, id, sys.state.rows[id], NoDeleteFault).1 <==> Deletable(sys.state, id)
  {
    TombstonesFit(sys, id, DirectoryMounts(sys.state.rows[id].mounts) != []);
  }

  // ---------------------------------------------------------------------
  // Whole runs

  /** No start of the workspace, no file access to it, and reconciliations that
      see the runtime as it is. Anything else may happen in between. */
  ghost predicate LeavesFilesAlone(sys: System, step: Step, id: string) {
    match step
    case StartOne(other, _) => other != id
    case UseFiles(other, _) => other != id
    case WriteData(other, _, _) => other != id
    case ReconcileAll(observations, _) => Truthful(sys.state, observations)
    case _ => true
  }

  lemma StartLeavesOthers(c: Config, s: State, id: string, o: StartOracle, after: State, other: string)
    requires StartTakes(c, s, id, o, after) && other != id
    ensures SameFor(s.files, after.files, other)
  {
    if id in s.rows {
      EnsureLeavesOthers(s.files, id, s.rows[id].mounts, o.ensureFault, other);
    }
  }

  lemma DeleteLeavesOthers(s: State, id: string, value: Workspace, o: DeleteOracle, after: State, other: string)
    requires DeleteTakes(s, id, value, o, after) && other != id
    ensures SameFor(s.files, after.files, other)
  {
  }

  lemma WriteLeavesOthers(files: Files, p: Path, content: Content, other: string)
    requires p in files.entries && p.workspace != other
    ensures SameFor(files, Written(files, p, content), other)
  {
  }

  lemma DiscardLeavesOthers(files: Files, id: string, other: string)
    requires id != other
    ensures SameFor(files, DiscardSpec(files, id), other)
  {
  }

  lemma FilesStay(c: Config, sys: System, step: Step, id: string, after: State)
    requires DirectoryTombsOk(sys) && LeavesFilesAlone(sys, step, id) && id in sys.state.rows
    requires Takes(c, sys.state, step, after) && !step.Create? && !(step.DeleteOne? && step.id == id)
    ensures SameFor(sys.state.files, after.files, id)
  {
    var s := sys.state;
    match step
    case StartOne(other, o) => StartLeavesOthers(c, s, other, o, after, id);
    case DeleteOne(other, value, o) => DeleteLeavesOthers(s, other, value, o, after, id);
    case UseFiles(other, fault) =>
      if other in s.rows {
        EnsureLeavesOthers(s.files, other, s.rows[other].mounts, fault, id);
      }
    case WriteData(other, entry, content) => WriteLeavesOthers(s.files, Path(Live, other, entry), content, id);
    case DiscardDirectory(other, _, _) =>
      if after != s {
        DiscardLeavesOthers(s.files, other, id);
      }
    case _ =>
  }

  /** A workspace that does not run, in the row and in the runtime. */
  ghost predicate Halted(s: State, id: string) {
    id in s.rows && s.rows[id].observed != Running && (id in s.containers ==> !s.containers[id].running)
  }

  lemma ReconcileStaysHalted(s: State, observations: map<string, Observation>, at: Time, id: string)
    requires Halted(s, id) && Truthful(s, observations)
    ensures Halted(s.(rows := ReconciledRows(s.rows, observations, at)), id)
  {
    assert TruthfulAt(s, observations, id);
  }

  lemma CreateStaysHalted(c: Config, s: State, input: CreateInput, o: CreateOracle, after: State, id: string)
    requires Halted(s, id) && CreateTakes(c, s, input, o, after) && id != input.id
    ensures Halted(after, id)
  {
  }

  lemma StartStaysHalted(c: Config, s: State, other: string, o: StartOracle, after: State, id: string)
    requires Halted(s, id) && StartTakes(c, s, other, o, after) && id != other
    ensures Halted(after, id)
  {
  }

  lemma DeleteStaysHalted(s: State, other: string, value: Workspace, o: DeleteOracle, after: State, id: string)
    requires Halted(s, id) && DeleteTakes(s, other, value, o, after) && id != other
    ensures Halted(after, id)
  {
  }

  lemma StopStaysHalted(s: State, other: string, value: Workspace, now: Time, after: State, id: string)
    requires Halted(s, id) && (StopTakes(s, other, value, now, after) || TimeoutTakes(s, other, value, now, after))
    ensures Halted(after, id)
  {
  }

  lemma RowStaysStopped(c: Config, sys: System, step: Step, id: string, after: State)
    requires Consistent(sys) && Enabled(sys, step) && LeavesFilesAlone(sys, step, id)
    requires Takes(c, sys.state, step, after)
    requires !(step.DeleteOne? && step.id == id) && Halted(sys.state, id)
    ensures Halted(after, id)
  {
    match step
    case Create(input, o) => CreateStaysHalted(c, sys.state, input, o, after, id);
    case StartOne(other, o) => StartStaysHalted(c, sys.state, other, o, after, id);
    case ReconcileAll(observations, at) => ReconcileStaysHalted(sys.state, observations, at, id);
    case DeleteOne(other, value, o) => DeleteStaysHalted(sys.state, other, value, o, after, id);
    case StopOne(other, value, now, _) => StopStaysHalted(sys.state, other, value, now, after, id);
    case TimeOut(other, value, now, _) => StopStaysHalted(sys.state, other, value, now, after, id);
    case _ =>
  }

  lemma StepKeepsReady(c: Config, sys: System, step: Step, id: string, content: map<string, Content>)
    requires Sound(sys) && Enabled(sys, step) && LeavesFilesAlone(sys, step, id) && Ready(sys.state, id, content)
    ensures var after := Apply(c, sys, step).state;
            if id in after.rows then Ready(after, id, content) && SameIdentity(sys.state.rows[id], after.rows[id])
            else Gone(after, id, sys.state.rows[id], content)
  {
    var after := StepTakes(c, sys, step);
    if step.DeleteOne? && step.id == id {
      assert Listed(id, step.value).id == id;
      AttemptKeepsData(sys.state, id, step.value, step.delete, after, content);
    } else {
      RowStaysStopped(c, sys, step, id, after);
      StepEvolvesRows(c, sys.state, step, after);
      if step.Create? {
        CreateLeavesOthers(c, sys.state, step.input, step.create, id);
      } else {
        FilesStay(c, sys, step, id, after);
      }
      SameForKeeps(sys.state.files, after.files, id, content);
    }
  }

  lemma ReadyIsDeletable(s: State, id: string, content: map<string, Content>)
    requires Ready(s, id, content)
    ensures Deletable(s, id)
  {
  }

  /** However many attempts fail at whatever point, and whatever other operations
      run in between: while the row exists a fault-free attempt succeeds, and when
      the row goes there is one tombstone whose archive holds the original content. */
  lemma DeletionIsRetrySafe(c: Config, trace: seq<System>, steps: seq<Step>, id: string,
                            content: map<string, Content>, n: nat)
    requires Run(c, trace, steps) && n < |trace| && Sound(trace[0]) && Ready(trace[0].state, id, content)
    requires forall i :: 0 <= i < n ==> LeavesFilesAlone(trace[i], steps[i], id) && id in trace[i].state.rows
    ensures var s := trace[n].state;
            if id in s.rows then DeleteSpec(s, id, s.rows[id], NoDeleteFault).1 && Ready(s, id, content)
            else Gone(s, id, trace[0].state.rows[id], content)
  {
    var w := trace[0].state.rows[id];
    for i := 0 to n
      invariant Sound(trace[i])
      invariant if id in trace[i].state.rows then Ready(trace[i].state, id, content) && SameIdentity(w, trace[i].state.rows[id])
                else Gone(trace[i].state, id, w, content)
    {
      assert StepAt(c, trace, steps, i);
      StepKeepsSound(c, trace[i], steps[i]);
      StepKeepsReady(c, trace[i], steps[i], id, content);
    }
    if id in trace[n].state.rows {
      ReadyIsDeletable(trace[n].state, id, content);
      DeleteSucceedsIffDeletable(trace[n], id);
    }
  }

  /** The exclusion of file access is needed: once the data is archived, opening
      the files recreates the live directory and every later attempt fails. */
  lemma FileAccessBlocksDeletion(sys: System, id: string, content: map<string, Content>, value: Workspace,
                                 o: DeleteOracle)
    requires Ready(sys.state, id, content) && Holds(sys.state.files, Archive, id, content)
    requires sys.state.rows[id].observed == Stopped || sys.state.rows[id].observed == Exited
    requires SameIdentity(value, sys.state.rows[id])
    ensures var reopened := UseFilesSpec(sys.state, id, |sys.state.rows[id].mounts|);
            !DeleteSpec(reopened, id, value, o).1 && Holds(DeleteSpec(reopened, id, value, o).0.files, Archive, id, content)
  {
    var w := sys.state.rows[id];
    var reopened := UseFilesSpec(sys.state, id, |w.mounts|);
    EnsureEntriesAdds(sys.state.files.entries, id, w.mounts);
    assert w.mounts[..|w.mounts|] == w.mounts;
    assert reopened.files.dirs == sys.state.files.dirs + {Dir(Live, id)};
    assert !ArchiveSpec(reopened.files, id, value.mounts, o.archiveFault).1;
    var after, ok := DeleteEffect(reopened, id, value, o);
    forall entry ensures SameAt(sys.state.files.entries, reopened.files.entries, Path(Archive, id, entry)) {
    }
    assert after.files == reopened.files;
  }
}
