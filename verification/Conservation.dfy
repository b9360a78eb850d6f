/** Directory data is never lost: whatever creations, deletions, timeouts and
    starts do and wherever they fail, only the explicit deletion of a retained
    directory and the workspace's own writes destroy content. */
module Conservation {
  import opened Domain
  import opened Quota
  import opened Timeouts
  import opened Mounts
  import opened Lifecycle
  import opened Service
  import opened Effects
  import opened Runs

  /** No mount directory of the workspace holds data yet. */
  ghost predicate LiveEmpty(files: Files, id: string) {
    forall p :: p in files.entries && p.tree == Live && p.workspace == id ==> files.entries[p] == Empty
  }

  lemma EnsureKeepsLiveEmpty(files: Files, id: string, mounts: seq<Mount>, fault: nat)
    requires LiveEmpty(files, id)
    ensures LiveEmpty(EnsureSpec(files, id, mounts, fault).0, id)
  {
    if mounts != [] {
      EnsureEntriesAdds(files.entries, id, mounts[..if fault < |mounts| then fault else |mounts|]);
    }
  }

  lemma RemoveOfEmptyConserves(files: Files, id: string, mounts: seq<Mount>)
    requires LiveEmpty(files, id)
    ensures Conserved(files, RemoveSpec(files, id, mounts))
  {
    RemoveConservesIffEmpty(files, id, mounts);
  }

  lemma ConservedTransitive(a: Files, b: Files, c: Files)
    requires Conserved(a, b) && Conserved(b, c)
    ensures Conserved(a, c)
  {
  }

  // ---------------------------------------------------------------------
  // Create

  /** The restore of a creation: everything it touches is conserved, and when it
      fails the new workspace still holds no data, so that cleaning up is safe. */
  lemma RestoreStepConserves(s: State, input: CreateInput, o: CreateOracle) returns (after: State, ok: bool)
    requires LiveEmpty(s.files, input.id)
    ensures (after, ok) == RestoreStep(s, input, o)
    ensures Conserved(s.files, after.files)
    ensures !ok || input.reattachDirectories.None? ==> LiveEmpty(after.files, input.id)
    ensures after.files.dirs == s.files.dirs
  {
    var r := RestoreStep(s, input, o);
    after, ok := r.0, r.1;
    if input.reattachDirectories.Some? {
      var from := input.reattachDirectories.value;
      if from in s.directoryTombs && s.directoryTombs[from].owner == input.owner {
        var archived := s.directoryTombs[from].mounts;
        RestoreConserves(s.files, from, input.id, input.mounts, archived, o.restoreFault);
        var moves, cleared := RestoreAllOrNothing(s.files.entries, from, input.id, input.mounts, archived, o.restoreFault);
      }
    }
  }

  lemma InsertConserves(s: State, input: CreateInput, o: CreateOracle) returns (placed: State, ok: bool)
    requires input.cpu > 0 && input.memory > 0 && LiveEmpty(s.files, input.id)
    ensures (placed, ok) == InsertStep(s, input, o)
    ensures Conserved(s.files, placed.files)
    ensures ok && input.reattachDirectories.None? ==> LiveEmpty(placed.files, input.id)
    ensures placed.files.dirs <= s.files.dirs + {Dir(Live, input.id)}
  {
    var r := InsertStep(s, input, o);
    placed, ok := r.0, r.1;
    var files := EnsureSpec(s.files, input.id, input.mounts, o.ensureFault).0;
    EnsureConserves(s.files, input.id, input.mounts, o.ensureFault);
    EnsureKeepsLiveEmpty(s.files, input.id, input.mounts, o.ensureFault);
    RemoveOfEmptyConserves(files, input.id, input.mounts);
    ConservedTransitive(s.files, files, RemoveSpec(files, input.id, input.mounts));
    if EnsureSpec(s.files, input.id, input.mounts, o.ensureFault).1 && o.storeOk && o.portsOk {
      var inserted := WithRow(s.(files := files), input.id, NewRow(input));
      var restored, restoredOk := RestoreStepConserves(inserted, input, o);
      ConservedTransitive(s.files, files, restored.files);
      if !restoredOk {
        RemoveOfEmptyConserves(restored.files, input.id, input.mounts);
        ConservedTransitive(s.files, restored.files, placed.files);
      }
    }
  }

  lemma StartStepConserves(c: Config, s: State, input: CreateInput, overrides: map<string, string>,
                           o: CreateOracle) returns (after: State, ok: bool)
    requires input.id in s.rows && (input.reattachDirectories.None? ==> LiveEmpty(s.files, input.id))
    ensures (after, ok) == StartStep(c, s, input, overrides, o)
    ensures Conserved(s.files, after.files)
    ensures after.files.dirs <= s.files.dirs + {Dir(Live, input.id)}
  {
    var r := StartStep(c, s, input, overrides, o);
    after, ok := r.0, r.1;
    if overrides != map[] {
      var started := StartSpec(c, s, input.id, overrides, o.start).0;
      if MayStart(c, s.rows, input.id) {
        var reached, startOk := StartEffect(s, input.id, overrides, o.start);
        EnsureConserves(s.files, input.id, s.rows[input.id].mounts, o.start.ensureFault);
        if input.reattachDirectories.None? {
          EnsureKeepsLiveEmpty(s.files, input.id, s.rows[input.id].mounts, o.start.ensureFault);
        }
      }
      assert Conserved(s.files, started.files);
      if !ok && input.reattachDirectories.None? {
        RemoveOfEmptyConserves(started.files, input.id, input.mounts);
        ConservedTransitive(s.files, started.files, after.files);
      }
    }
  }

  /** At every exit of a creation, with or without reattachment, every content
      that existed before exists exactly as often. */
  lemma CreateConserves(c: Config, s: State, input: CreateInput, o: CreateOracle)
    requires LiveEmpty(s.files, input.id) && input.id !in s.rows
    ensures Conserved(s.files, CreateSpec(c, s, input, o).0.files)
    ensures CreateSpec(c, s, input, o).0.files.dirs <= s.files.dirs + {Dir(Live, input.id)}
  {
    var claim := ClaimOf(s, input, o);
    if Compatible(input) && MayCreate(c, s.rows, input, o) && !NameTaken(s.rows, input.owner, input.name) && claim.ok {
      var claimed := s.(volumeTombs := claim.tombs);
      var placed, placedOk := InsertConserves(claimed, input, o);
      if placedOk {
        var reached, insertOk := InsertEffect(claimed, input, o);
        var after, ok := StartStepConserves(c, placed, input, claim.overrides, o);
        ConservedTransitive(s.files, placed.files, after.files);
      }
    }
  }

  // ---------------------------------------------------------------------
  // Whole runs

  ghost predicate FilesKnown(files: Files, used: set<string>) {
    forall d :: d in files.dirs ==> d.workspace in used
  }

  lemma UnknownIsEmpty(files: Files, used: set<string>, id: string)
    requires FilesKnown(files, used) && id !in used
    ensures LiveEmpty(files, id)
  {
  }

  lemma StepKeepsFilesKnown(c: Config, sys: System, step: Step)
    requires Consistent(sys) && FilesKnown(sys.state.files, sys.used) && Enabled(sys, step)
    ensures FilesKnown(Apply(c, sys, step).state.files, Apply(c, sys, step).used)
  {
    var after := StepTakes(c, sys, step);
    match step
    case Create(input, o) =>
      UnknownIsEmpty(sys.state.files, sys.used, input.id);
      CreateConserves(c, sys.state, input, o);
    case DeleteOne(id, value, o) =>
      assert Listed(id, value).id in sys.used;
    case _ =>
  }

  lemma InitiallyFilesKnown(sys: System)
    requires Initial(sys)
    ensures Consistent(sys) && FilesKnown(sys.state.files, sys.used)
  {
  }

  /** The step does not write `x`, overwrite it, or discard an archive that holds it. */
  ghost predicate Spares(sys: System, step: Step, x: Content) {
    match step
    case WriteData(id, entry, content) =>
      x != content && (Path(Live, id, entry) in sys.state.files.entries ==> sys.state.files.entries[Path(Live, id, entry)] != x)
    case DiscardDirectory(id, _, _) =>
      forall p :: p in sys.state.files.entries && p.tree == Archive && p.workspace == id ==> sys.state.files.entries[p] != x
    case _ => true
  }

  lemma StepConserves(c: Config, sys: System, step: Step, x: Content)
    requires Consistent(sys) && FilesKnown(sys.state.files, sys.used) && Enabled(sys, step)
    requires x != Empty && Spares(sys, step, x)
    ensures |Places(Apply(c, sys, step).state.files, x)| == |Places(sys.state.files, x)|
  {
    var s := sys.state;
    var after := StepTakes(c, sys, step);
    match step
    case Create(input, o) =>
      UnknownIsEmpty(s.files, sys.used, input.id);
      CreateConserves(c, s, input, o);
    case StartOne(id, o) =>
      if id in s.rows {
        EnsureConserves(s.files, id, s.rows[id].mounts, o.ensureFault);
      }
    case DeleteOne(id, value, o) => ArchiveMovesTree(s.files, id, value.mounts, o.archiveFault);
    case UseFiles(id, fault) =>
      if id in s.rows {
        EnsureConserves(s.files, id, s.rows[id].mounts, fault);
      }
    case WriteData(id, entry, content) => assert Places(after.files, x) == Places(s.files, x);
    case DiscardDirectory(id, _, _) => assert Places(after.files, x) == Places(s.files, x);
    case _ =>
  }

  /** Over a whole run each content stays stored exactly as many times as at the
      start, unless the owner overwrites or copies it or discards its archive. */
  lemma RunsConserveData(c: Config, trace: seq<System>, steps: seq<Step>, x: Content)
    requires Run(c, trace, steps) && Consistent(trace[0]) && FilesKnown(trace[0].state.files, trace[0].used)
    requires x != Empty
    requires forall i :: 0 <= i < |steps| ==> Spares(trace[i], steps[i], x)
    ensures forall i :: 0 <= i < |trace| ==> |Places(trace[i].state.files, x)| == |Places(trace[0].state.files, x)|
  {
    for i := 0 to |steps|
      invariant Consistent(trace[i]) && FilesKnown(trace[i].state.files, trace[i].used)
      invariant forall k :: 0 <= k <= i ==> |Places(trace[k].state.files, x)| == |Places(trace[0].state.files, x)|
    {
      assert StepAt(c, trace, steps, i);
      StepKeepsConsistent(c, trace[i], steps[i]);
      StepKeepsFilesKnown(c, trace[i], steps[i]);
      StepConserves(c, trace[i], steps[i], x);
    }
  }
}
