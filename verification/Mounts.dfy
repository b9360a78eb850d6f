/** The two directory trees a workspace's data lives in (internal/workspace/mounts.go):
    creation of mount directories, archiving, restoring an archive into a new
    workspace with rollback, and removal. */
module Mounts {
  import opened Domain

  datatype Tree = Live | Archive

  /** One mount directory: `<tree root>/cows-<workspace>/<entry>`. */
  datatype Path = Path(tree: Tree, workspace: string, entry: string)

  /** A per-workspace directory `<tree root>/cows-<workspace>`. */
  datatype Dir = Dir(tree: Tree, workspace: string)

  datatype Content = Empty | Data(text: string)

  datatype RawFiles = RawFiles(dirs: set<Dir>, entries: map<Path, Content>)

  /** Every mount directory sits inside an existing workspace directory. */
  ghost predicate WellFormed(files: RawFiles) {
    forall p :: p in files.entries ==> Dir(p.tree, p.workspace) in files.dirs
  }

  type Files = files: RawFiles | WellFormed(files) witness RawFiles({}, map[])

  /** The places a content is stored at. */
  ghost function Places(files: Files, content: Content): set<Path> {
    set p | p in files.entries && files.entries[p] == content
  }

  /** Every non-empty content is stored exactly as many times as before. */
  ghost predicate Conserved(before: Files, after: Files) {
    forall content :: content != Empty ==> |Places(before, content)| == |Places(after, content)|
  }

  /** How an operating-system call made by an operation goes wrong. */
  datatype RestoreFault = NoFault | LstatFails | RemoveFails(at: nat) | RenameFails(at: nat)

  // ---------------------------------------------------------------------
  // ensureMountDirectories

  function EnsureEntries(entries: map<Path, Content>, id: string, mounts: seq<Mount>): map<Path, Content> {
    if mounts == [] then entries
    else
      var before := EnsureEntries(entries, id, mounts[..|mounts| - 1]);
      var mount := mounts[|mounts| - 1];
      var p := Path(Live, id, ManagedMountName(mount));
      if mount.kind != Directory || p in before then before else before[p := Empty]
  }

  lemma {:induction false} EnsureEntriesAdds(entries: map<Path, Content>, id: string, mounts: seq<Mount>)
    ensures var after := EnsureEntries(entries, id, mounts);
            && (forall p :: p in entries ==> p in after && after[p] == entries[p])
            && (forall p :: p in after && p !in entries ==>
                  p.tree == Live && p.workspace == id && after[p] == Empty)
            && (forall i :: 0 <= i < |mounts| && mounts[i].kind == Directory ==>
                  Path(Live, id, ManagedMountName(mounts[i])) in after)
  {
    if mounts != [] {
      EnsureEntriesAdds(entries, id, mounts[..|mounts| - 1]);
    }
  }

  /** `fault` is the mount at which the operating system refuses the directory;
      an index past the mounts means no such failure. */
  ghost function EnsureSpec(files: Files, id: string, mounts: seq<Mount>, fault: nat): (r: (Files, bool)) {
    if mounts == [] then (files, true)
    else
      var reach := if fault < |mounts| then fault else |mounts|;
      EnsureEntriesAdds(files.entries, id, mounts[..reach]);
      (RawFiles(files.dirs + {Dir(Live, id)}, EnsureEntries(files.entries, id, mounts[..reach])), reach == |mounts|)
  }

  // ---------------------------------------------------------------------
  // restoreDirectoryMounts and rollbackDirectoryMoves

  datatype Move = Move(source: Path, destination: Path)

  /** The directory mount of that name; a later mount shadows an earlier one,
      as in the map that restoreDirectoryMounts builds. */
  function FindDirectoryMount(mounts: seq<Mount>, name: string): (r: Option<Mount>)
    ensures r.Some? ==> r.value in mounts && r.value.kind == Directory && r.value.name == name
    ensures r.None? ==> forall m :: m in mounts && m.kind == Directory ==> m.name != name
  {
    if mounts == [] then None
    else
      var last := mounts[|mounts| - 1];
      if last.kind == Directory && last.name == name then Some(last)
      else FindDirectoryMount(mounts[..|mounts| - 1], name)
  }

  function BuildMoves(archiveId: string, newId: string, newMounts: seq<Mount>,
                      archived: seq<Mount>): (r: Option<seq<Move>>)
    ensures r.Some? ==> |r.value| == |archived|
  {
    if archived == [] then Some([])
    else
      var last := archived[|archived| - 1];
      var before := BuildMoves(archiveId, newId, newMounts, archived[..|archived| - 1]);
      var target := FindDirectoryMount(newMounts, last.name);
      if before.None? || target.None? then None
      else Some(before.value + [Move(Path(Archive, archiveId, ManagedMountName(last)),
                                     Path(Live, newId, ManagedMountName(target.value)))])
  }

  lemma {:induction false} BuildMovesAt(archiveId: string, newId: string, newMounts: seq<Mount>, archived: seq<Mount>)
    ensures var moves := BuildMoves(archiveId, newId, newMounts, archived);
            if moves.None? then
              exists i :: 0 <= i < |archived| && FindDirectoryMount(newMounts, archived[i].name).None?
            else
              forall i :: 0 <= i < |archived| ==>
                var target := FindDirectoryMount(newMounts, archived[i].name);
                target.Some? &&
                moves.value[i] == Move(Path(Archive, archiveId, ManagedMountName(archived[i])),
                                       Path(Live, newId, ManagedMountName(target.value)))
  {
    if archived != [] {
      var front := archived[..|archived| - 1];
      BuildMovesAt(archiveId, newId, newMounts, front);
      assert forall i :: 0 <= i < |front| ==> front[i] == archived[i];
      if BuildMoves(archiveId, newId, newMounts, front).None? {
        var i :| 0 <= i < |front| && FindDirectoryMount(newMounts, front[i].name).None?;
        assert FindDirectoryMount(newMounts, archived[i].name).None?;
      }
    }
  }

  /** Moves whose sources are pairwise distinct archive entries and whose
      destinations are pairwise distinct live entries. */
  ghost predicate Separated(moves: seq<Move>) {
    && (forall i :: 0 <= i < |moves| ==> moves[i].source.tree == Archive && moves[i].destination.tree == Live)
    && (forall i, j :: 0 <= i < j < |moves| ==>
          moves[i].source != moves[j].source && moves[i].destination != moves[j].destination)
  }

  /** Template validation of both the old and the new template is what keeps the
      moves of one restore apart. */
  lemma TemplateValidationSeparatesMoves(archiveId: string, newId: string, newMounts: seq<Mount>,
                                         archived: seq<Mount>)
    requires DistinctMounts(newMounts) && DistinctMounts(archived)
    requires BuildMoves(archiveId, newId, newMounts, archived).Some?
    ensures Separated(BuildMoves(archiveId, newId, newMounts, archived).value)
  {
    var moves := BuildMoves(archiveId, newId, newMounts, archived).value;
    BuildMovesAt(archiveId, newId, newMounts, archived);
    forall i, j | 0 <= i < j < |moves|
      ensures moves[i].source != moves[j].source && moves[i].destination != moves[j].destination
    {
      var a := FindDirectoryMount(newMounts, archived[i].name).value;
      var b := FindDirectoryMount(newMounts, archived[j].name).value;
      assert a.name != b.name;
      var x :| 0 <= x < |newMounts| && newMounts[x] == a;
      var y :| 0 <= y < |newMounts| && newMounts[y] == b;
      assert ManagedMountName(a) != ManagedMountName(b);
    }
  }

  datatype Attempt = Attempt(entries: map<Path, Content>, completed: nat, ok: bool)

  /** The moves from index `i` on: each destination must be removable, that is
      present and empty, before its source is renamed onto it. */
  function Execute(entries: map<Path, Content>, moves: seq<Move>, i: nat, fault: RestoreFault): (r: Attempt)
    requires i <= |moves|
    ensures i <= r.completed <= |moves| && (r.ok ==> r.completed == |moves|)
    decreases |moves| - i
  {
    if i == |moves| then Attempt(entries, i, true)
    else
      var m := moves[i];
      if fault == RemoveFails(i) || m.destination !in entries || entries[m.destination] != Empty then
        Attempt(entries, i, false)
      else
        var cleared := entries - {m.destination};
        if fault == RenameFails(i) || m.source !in cleared then Attempt(cleared, i, false)
        else Execute((cleared - {m.source})[m.destination := cleared[m.source]], moves, i + 1, fault)
  }

  /** Undoes the first `completed` moves, most recent first. */
  function Rollback(entries: map<Path, Content>, moves: seq<Move>, completed: nat): map<Path, Content>
    requires completed <= |moves|
    decreases completed
  {
    if completed == 0 then entries
    else
      var m := moves[completed - 1];
      var undone := if m.destination in entries
                    then (entries - {m.destination})[m.source := entries[m.destination]] else entries;
      Rollback(undone, moves, completed - 1)
  }

  predicate AllSourcesPresent(entries: map<Path, Content>, moves: seq<Move>) {
    forall i :: 0 <= i < |moves| ==> moves[i].source in entries
  }

  /** The whole restore on the mount entries. */
  function RestoreEntries(entries: map<Path, Content>, archiveId: string, newId: string, newMounts: seq<Mount>,
                          archived: seq<Mount>, fault: RestoreFault): (map<Path, Content>, bool)
  {
    if archived == [] then (entries, true)
    else
      var moves := BuildMoves(archiveId, newId, newMounts, archived);
      if moves.None? || fault == LstatFails || !AllSourcesPresent(entries, moves.value) then (entries, false)
      else
        var attempt := Execute(entries, moves.value, 0, fault);
        if attempt.ok then (attempt.entries, true)
        else (Rollback(attempt.entries, moves.value, attempt.completed), false)
  }

  ghost predicate SameAt(before: map<Path, Content>, now: map<Path, Content>, p: Path) {
    (p in before <==> p in now) && (p in before ==> now[p] == before[p])
  }

  /** The sources and destinations of the first `done` moves. */
  ghost function Touched(moves: seq<Move>, done: nat): set<Path>
    requires done <= |moves|
  {
    if done == 0 then {} else Touched(moves, done - 1) + {moves[done - 1].source, moves[done - 1].destination}
  }

  /** The source's content has left the archive and is at the destination. */
  ghost predicate Moved(before: map<Path, Content>, now: map<Path, Content>, m: Move) {
    && m.source in before && m.source !in now
    && m.destination in now && now[m.destination] == before[m.source]
  }

  /** `now` is `before` after the first `done` moves, with the destinations in
      `gone` removed. */
  ghost predicate PartlyMoved(before: map<Path, Content>, now: map<Path, Content>, moves: seq<Move>, done: nat,
                              gone: set<Path>)
    requires done <= |moves|
  {
    && (forall i :: 0 <= i < done ==> Moved(before, now, moves[i]))
    && (forall p :: p in gone ==> p !in now)
    && (forall p :: p !in gone && p !in Touched(moves, done) ==> SameAt(before, now, p))
  }

  /** The cleared paths were empty destination directories. */
  ghost predicate ClearedOnly(before: map<Path, Content>, moves: seq<Move>, gone: set<Path>) {
    forall p :: p in gone ==> p in before && before[p] == Empty && IsDestination(moves, p)
  }

  ghost predicate IsDestination(moves: seq<Move>, p: Path) {
    exists i :: 0 <= i < |moves| && p == moves[i].destination
  }

  /** The destinations of the first `done` moves were empty directories. */
  ghost predicate DestinationsEmpty(before: map<Path, Content>, moves: seq<Move>, done: nat)
    requires done <= |moves|
  {
    forall k :: 0 <= k < done ==> moves[k].destination in before && before[moves[k].destination] == Empty
  }

  lemma {:induction false} TouchedAre(moves: seq<Move>, done: nat, p: Path)
    requires done <= |moves|
    ensures p in Touched(moves, done) <==> exists i :: 0 <= i < done && (p == moves[i].source || p == moves[i].destination)
  {
    if done > 0 {
      TouchedAre(moves, done - 1, p);
    }
  }

  lemma NextUntouched(moves: seq<Move>, i: nat)
    requires Separated(moves) && i < |moves|
    ensures moves[i].source !in Touched(moves, i) && moves[i].destination !in Touched(moves, i)
    ensures moves[i].source != moves[i].destination
    ensures forall k :: 0 <= k < i ==> moves[k].source != moves[i].source && moves[k].destination != moves[i].destination
                                       && moves[k].source != moves[i].destination && moves[k].destination != moves[i].source
  {
    TouchedAre(moves, i, moves[i].source);
    TouchedAre(moves, i, moves[i].destination);
  }

  lemma OneMoreMove(before: map<Path, Content>, now: map<Path, Content>, after: map<Path, Content>, moves: seq<Move>,
                    i: nat)
    requires Separated(moves) && i < |moves| && PartlyMoved(before, now, moves, i, {})
    requires moves[i].source in now
    requires after == (now - {moves[i].destination} - {moves[i].source})[moves[i].destination := now[moves[i].source]]
    ensures PartlyMoved(before, after, moves, i + 1, {})
  {
    NextUntouched(moves, i);
    assert SameAt(before, now, moves[i].source);
    forall k | 0 <= k < i + 1 ensures Moved(before, after, moves[k]) {
      if k < i {
        assert Moved(before, now, moves[k]);
      }
    }
    forall p | p !in Touched(moves, i + 1) ensures SameAt(before, after, p) {
      assert SameAt(before, now, p);
    }
  }

  lemma OneCleared(before: map<Path, Content>, now: map<Path, Content>, moves: seq<Move>, i: nat)
    requires Separated(moves) && i < |moves| && PartlyMoved(before, now, moves, i, {})
    requires moves[i].destination in now && now[moves[i].destination] == Empty
    ensures PartlyMoved(before, now - {moves[i].destination}, moves, i, {moves[i].destination})
    ensures ClearedOnly(before, moves, {moves[i].destination})
  {
    NextUntouched(moves, i);
    assert SameAt(before, now, moves[i].destination);
    assert IsDestination(moves, moves[i].destination);
    var after := now - {moves[i].destination};
    forall k | 0 <= k < i ensures Moved(before, after, moves[k]) {
      assert Moved(before, now, moves[k]);
    }
    forall p | p != moves[i].destination && p !in Touched(moves, i) ensures SameAt(before, after, p) {
      assert SameAt(before, now, p);
    }
  }

  lemma {:induction false} ExecuteMoves(before: map<Path, Content>, now: map<Path, Content>, moves: seq<Move>,
                                        i: nat, fault: RestoreFault)
    returns (gone: set<Path>, r: Attempt)
    requires Separated(moves) && i <= |moves| && PartlyMoved(before, now, moves, i, {})
    requires DestinationsEmpty(before, moves, i)
    ensures r == Execute(now, moves, i, fault)
    ensures PartlyMoved(before, r.entries, moves, r.completed, gone)
    ensures ClearedOnly(before, moves, gone)
    ensures DestinationsEmpty(before, moves, r.completed)
    ensures r.ok ==> gone == {}
    decreases |moves| - i
  {
    gone, r := {}, Execute(now, moves, i, fault);
    if i < |moves| {
      var m := moves[i];
      assert SameAt(before, now, m.destination) by { NextUntouched(moves, i); }
      if fault == RemoveFails(i) || m.destination !in now || now[m.destination] != Empty {
        r := Attempt(now, i, false);
      } else {
        var cleared := now - {m.destination};
        if fault == RenameFails(i) || m.source !in cleared {
          gone, r := {m.destination}, Attempt(cleared, i, false);
          OneCleared(before, now, moves, i);
        } else {
          var next := (cleared - {m.source})[m.destination := cleared[m.source]];
          assert PartlyMoved(before, next, moves, i + 1, {}) by { OneMoreMove(before, now, next, moves, i); }
          gone, r := ExecuteMoves(before, next, moves, i + 1, fault);
        }
      }
    }
  }

  lemma OneMoveBack(before: map<Path, Content>, now: map<Path, Content>, after: map<Path, Content>, moves: seq<Move>,
                    completed: nat, gone: set<Path>)
    requires Separated(moves) && 0 < completed <= |moves| && PartlyMoved(before, now, moves, completed, gone)
    requires moves[completed - 1].source !in gone
    requires var m := moves[completed - 1]; m.destination in now && after == (now - {m.destination})[m.source := now[m.destination]]
    ensures PartlyMoved(before, after, moves, completed - 1, gone + {moves[completed - 1].destination})
  {
  }

  lemma NothingMoved(before: map<Path, Content>, now: map<Path, Content>, moves: seq<Move>, gone: set<Path>)
    requires PartlyMoved(before, now, moves, 0, gone)
    ensures now == before - gone
  {
  }

  lemma {:induction false} RollbackRestores(before: map<Path, Content>, now: map<Path, Content>, moves: seq<Move>,
                                            completed: nat, gone: set<Path>)
    returns (cleared: set<Path>)
    requires Separated(moves) && completed <= |moves| && PartlyMoved(before, now, moves, completed, gone)
    requires ClearedOnly(before, moves, gone) && DestinationsEmpty(before, moves, completed)
    ensures Rollback(now, moves, completed) == before - cleared
    ensures ClearedOnly(before, moves, cleared)
    decreases completed
  {
    if completed == 0 {
      cleared := gone;
      NothingMoved(before, now, moves, gone);
    } else {
      var m := moves[completed - 1];
      assert Moved(before, now, m);
      assert m.source !in gone by {
        assert forall p :: IsDestination(moves, p) ==> p.tree == Live;
      }
      var undone := (now - {m.destination})[m.source := now[m.destination]];
      OneMoveBack(before, now, undone, moves, completed, gone);
      WiderCleared(before, moves, completed - 1, gone);
      cleared := RollbackRestores(before, undone, moves, completed - 1, gone + {m.destination});
    }
  }

  lemma WiderCleared(before: map<Path, Content>, moves: seq<Move>, i: nat, gone: set<Path>)
    requires i < |moves| && ClearedOnly(before, moves, gone) && DestinationsEmpty(before, moves, i + 1)
    ensures ClearedOnly(before, moves, gone + {moves[i].destination})
  {
  }

  /** restoreDirectoryMounts is all-or-nothing for any number of mounts. On
      success each archived content is at its new mount, has left the archive,
      and nothing else changed. On any failure, at any index, the only change is
      that some of the new workspace's empty mount directories are gone. */
  lemma RestoreAllOrNothing(entries: map<Path, Content>, archiveId: string, newId: string, newMounts: seq<Mount>,
                            archived: seq<Mount>, fault: RestoreFault)
    returns (moves: seq<Move>, cleared: set<Path>)
    requires DistinctMounts(newMounts) && DistinctMounts(archived)
    ensures var (after, ok) := RestoreEntries(entries, archiveId, newId, newMounts, archived, fault);
            && (ok ==>
                  && BuildMoves(archiveId, newId, newMounts, archived) == Some(moves) && Separated(moves)
                  && PartlyMoved(entries, after, moves, |moves|, {})
                  && DestinationsEmpty(entries, moves, |moves|))
            && (!ok ==>
                  && after == entries - cleared
                  && (forall p :: p in cleared ==> p in entries && p.tree == Live && p.workspace == newId && entries[p] == Empty))
  {
    moves, cleared := [], {};
    var built := BuildMoves(archiveId, newId, newMounts, archived);
    if archived == [] || built.None? {
      assert entries - {} == entries;
    } else {
      moves := built.value;
      TemplateValidationSeparatesMoves(archiveId, newId, newMounts, archived);
      BuildMovesAt(archiveId, newId, newMounts, archived);
      if fault == LstatFails || !AllSourcesPresent(entries, moves) {
        assert entries - {} == entries;
      } else {
        var gone, attempt := ExecuteMoves(entries, entries, moves, 0, fault);
        if !attempt.ok {
          cleared := RollbackRestores(entries, attempt.entries, moves, attempt.completed, gone);
        }
      }
    }
  }

  // ---------------------------------------------------------------------
  // When a restore succeeds

  /** Move `k` finds its source, finds its destination empty and is not refused. */
  ghost predicate Performable(entries: map<Path, Content>, moves: seq<Move>, k: nat, fault: RestoreFault)
    requires k < |moves|
  {
    && moves[k].destination in entries && entries[moves[k].destination] == Empty && moves[k].source in entries
    && fault != RemoveFails(k) && fault != RenameFails(k)
  }

  lemma {:induction false} ExecuteSucceedsIff(before: map<Path, Content>, now: map<Path, Content>, moves: seq<Move>,
                                              i: nat, fault: RestoreFault)
    requires Separated(moves) && i <= |moves| && PartlyMoved(before, now, moves, i, {})
    ensures Execute(now, moves, i, fault).ok <==> forall k :: i <= k < |moves| ==> Performable(before, moves, k, fault)
    decreases |moves| - i
  {
    if i < |moves| {
      var m := moves[i];
      NextUntouched(moves, i);
      assert SameAt(before, now, m.destination) && SameAt(before, now, m.source);
      if Performable(before, moves, i, fault) {
        var next := (now - {m.destination} - {m.source})[m.destination := now[m.source]];
        OneMoreMove(before, now, next, moves, i);
        ExecuteSucceedsIff(before, next, moves, i + 1, fault);
      }
    }
  }

  /** The content archived for the mount can go to a mount of the same name. */
  ghost predicate Restorable(entries: map<Path, Content>, archiveId: string, newId: string, newMounts: seq<Mount>, m: Mount) {
    && Path(Archive, archiveId, m.namePrefix + m.name + m.nameSuffix) in entries
    && exists t :: t in newMounts && t.kind == Directory && t.name == m.name
                   && var destination := Path(Live, newId, t.namePrefix + t.name + t.nameSuffix);
                      destination in entries && entries[destination] == Empty
  }

  /** No call fails that the restore of `n` mounts makes. */
  ghost predicate Unhindered(fault: RestoreFault, n: nat) {
    match fault
    case NoFault => true
    case LstatFails => false
    case RemoveFails(at) => at >= n
    case RenameFails(at) => at >= n
  }

  lemma PerformableIsRestorable(entries: map<Path, Content>, archiveId: string, newId: string, newMounts: seq<Mount>,
                                archived: seq<Mount>, i: nat)
    requires DistinctMounts(newMounts) && i < |archived| && BuildMoves(archiveId, newId, newMounts, archived).Some?
    ensures var m := BuildMoves(archiveId, newId, newMounts, archived).value[i];
            Restorable(entries, archiveId, newId, newMounts, archived[i]) <==>
              m.source in entries && m.destination in entries && entries[m.destination] == Empty
  {
    BuildMovesAt(archiveId, newId, newMounts, archived);
    var target := FindDirectoryMount(newMounts, archived[i].name).value;
    assert target in newMounts && target.kind == Directory && target.name == archived[i].name;
    forall t | t in newMounts && t.name == archived[i].name ensures t == target {
      var x :| 0 <= x < |newMounts| && newMounts[x] == t;
      var y :| 0 <= y < |newMounts| && newMounts[y] == target;
      assert x == y;
    }
  }

  /** A restore succeeds exactly when every archived mount has a directory mount
      of the same name, its content is there, its destination is an empty
      directory, and no call the restore makes fails. */
  lemma RestoreSucceedsIff(entries: map<Path, Content>, archiveId: string, newId: string, newMounts: seq<Mount>,
                           archived: seq<Mount>, fault: RestoreFault)
    requires DistinctMounts(newMounts) && DistinctMounts(archived)
    ensures RestoreEntries(entries, archiveId, newId, newMounts, archived, fault).1 <==>
              || archived == []
              || (Unhindered(fault, |archived|) && forall m :: m in archived ==> Restorable(entries, archiveId, newId, newMounts, m))
  {
    var built := BuildMoves(archiveId, newId, newMounts, archived);
    BuildMovesAt(archiveId, newId, newMounts, archived);
    if built.None? {
      var i :| 0 <= i < |archived| && FindDirectoryMount(newMounts, archived[i].name).None?;
      assert !Restorable(entries, archiveId, newId, newMounts, archived[i]);
    } else if archived != [] {
      MovesSucceedIff(entries, archiveId, newId, newMounts, archived, fault);
    }
  }

  lemma MovesPerformableIff(entries: map<Path, Content>, archiveId: string, newId: string, newMounts: seq<Mount>,
                            archived: seq<Mount>, fault: RestoreFault)
    requires DistinctMounts(newMounts) && BuildMoves(archiveId, newId, newMounts, archived).Some?
    ensures var moves := BuildMoves(archiveId, newId, newMounts, archived).value;
            fault != LstatFails && (forall k :: 0 <= k < |moves| ==> Performable(entries, moves, k, fault)) <==>
              Unhindered(fault, |archived|) && forall m :: m in archived ==> Restorable(entries, archiveId, newId, newMounts, m)
  {
    var moves := BuildMoves(archiveId, newId, newMounts, archived).value;
    forall i | 0 <= i < |archived|
      ensures Performable(entries, moves, i, fault) <==>
                Restorable(entries, archiveId, newId, newMounts, archived[i]) && fault != RemoveFails(i) && fault != RenameFails(i)
    {
      PerformableIsRestorable(entries, archiveId, newId, newMounts, archived, i);
    }
    if fault.RemoveFails? && fault.at < |moves| {
      assert !Performable(entries, moves, fault.at, fault);
    } else if fault.RenameFails? && fault.at < |moves| {
      assert !Performable(entries, moves, fault.at, fault);
    } else if m :| m in archived && !Restorable(entries, archiveId, newId, newMounts, m) {
      var i :| 0 <= i < |archived| && archived[i] == m;
      assert !Performable(entries, moves, i, fault);
    }
  }

  lemma MovesSucceedIff(entries: map<Path, Content>, archiveId: string, newId: string, newMounts: seq<Mount>,
                        archived: seq<Mount>, fault: RestoreFault)
    requires DistinctMounts(newMounts) && DistinctMounts(archived)
    requires archived != [] && BuildMoves(archiveId, newId, newMounts, archived).Some?
    ensures RestoreEntries(entries, archiveId, newId, newMounts, archived, fault).1 <==>
              Unhindered(fault, |archived|) && forall m :: m in archived ==> Restorable(entries, archiveId, newId, newMounts, m)
  {
    var moves := BuildMoves(archiveId, newId, newMounts, archived).value;
    TemplateValidationSeparatesMoves(archiveId, newId, newMounts, archived);
    ExecuteSucceedsIff(entries, entries, moves, 0, fault);
    MovesPerformableIff(entries, archiveId, newId, newMounts, archived, fault);
    if forall k :: 0 <= k < |moves| ==> Performable(entries, moves, k, fault) {
      forall k | 0 <= k < |moves| ensures moves[k].source in entries {
        assert Performable(entries, moves, k, fault);
      }
    }
  }

  // ---------------------------------------------------------------------
  // archiveMountDirectories, removeMountDirectories, DeleteRetainedDirectory

  /** Where the rename of a whole workspace directory takes a mount directory. */
  function Relocate(p: Path, id: string): Path {
    if p.tree == Live && p.workspace == id then Path(Archive, id, p.entry) else p
  }

  function Origin(p: Path, id: string): Path {
    if p.tree == Archive && p.workspace == id then Path(Live, id, p.entry) else p
  }

  /** Archiving never overwrites: an archive already present is an error, and a
      missing live directory means there is nothing left to move. */
  ghost function ArchiveSpec(files: Files, id: string, mounts: seq<Mount>, fault: bool): (r: (Files, bool)) {
    if !HasDirectoryMount(mounts) || Dir(Live, id) !in files.dirs then (files, true)
    else if Dir(Archive, id) in files.dirs || fault then (files, false)
    else
      var kept := set p | p in files.entries :: Relocate(p, id);
      assert forall p :: p in kept ==> Origin(p, id) in files.entries;
      (RawFiles(files.dirs - {Dir(Live, id)} + {Dir(Archive, id)}, map p | p in kept :: files.entries[Origin(p, id)]), true)
  }

  ghost function WithoutDir(files: Files, dir: Dir): Files {
    RawFiles(files.dirs - {dir},
             map p | p in files.entries && Dir(p.tree, p.workspace) != dir :: files.entries[p])
  }

  ghost function RemoveSpec(files: Files, id: string, mounts: seq<Mount>): Files {
    if HasDirectoryMount(mounts) then WithoutDir(files, Dir(Live, id)) else files
  }

  ghost function DiscardSpec(files: Files, id: string): Files {
    WithoutDir(files, Dir(Archive, id))
  }

  /** The directory trees after a restore; only mount directories change. */
  ghost function RestoreSpec(files: Files, archiveId: string, newId: string, newMounts: seq<Mount>,
                             archived: seq<Mount>, fault: RestoreFault): (r: (RawFiles, bool))
  {
    var (entries, ok) := RestoreEntries(files.entries, archiveId, newId, newMounts, archived, fault);
    (RawFiles(files.dirs, entries), ok)
  }

  lemma RestoreWellFormed(files: Files, archiveId: string, newId: string, newMounts: seq<Mount>,
                          archived: seq<Mount>, fault: RestoreFault)
    requires DistinctMounts(newMounts) && DistinctMounts(archived)
    ensures WellFormed(RestoreSpec(files, archiveId, newId, newMounts, archived, fault).0)
  {
    var after := RestoreSpec(files, archiveId, newId, newMounts, archived, fault).0;
    var moves, cleared := RestoreAllOrNothing(files.entries, archiveId, newId, newMounts, archived, fault);
    forall p | p in after.entries ensures p in files.entries {
      TouchedAre(moves, |moves|, p);
      assert p in Touched(moves, |moves|) || SameAt(files.entries, after.entries, p) || p in cleared || after == files;
    }
  }

  // ---------------------------------------------------------------------
  // No operation but an explicit discard loses content

  ghost function EntryPlaces(entries: map<Path, Content>, content: Content): set<Path> {
    set p | p in entries && entries[p] == content
  }

  lemma MoveKeepsCount(entries: map<Path, Content>, m: Move, content: Content)
    requires content != Empty && m.source in entries && m.source != m.destination
    requires m.destination in entries && entries[m.destination] == Empty
    ensures |EntryPlaces((entries - {m.destination} - {m.source})[m.destination := entries[m.source]], content)|
         == |EntryPlaces(entries, content)|
  {
    var places := EntryPlaces(entries, content);
    var after := EntryPlaces((entries - {m.destination} - {m.source})[m.destination := entries[m.source]], content);
    if entries[m.source] == content {
      assert after == places - {m.source} + {m.destination};
    } else {
      assert after == places;
    }
  }

  lemma {:induction false} ExecuteKeepsCount(entries: map<Path, Content>, moves: seq<Move>, i: nat,
                                             fault: RestoreFault, content: Content)
    requires content != Empty && i <= |moves|
    ensures |EntryPlaces(Execute(entries, moves, i, fault).entries, content)| == |EntryPlaces(entries, content)|
    decreases |moves| - i
  {
    if i < |moves| {
      var m := moves[i];
      if fault == RemoveFails(i) || m.destination !in entries || entries[m.destination] != Empty {
      } else {
        var cleared := entries - {m.destination};
        if fault == RenameFails(i) || m.source !in cleared {
          assert EntryPlaces(cleared, content) == EntryPlaces(entries, content);
        } else {
          MoveKeepsCount(entries, m, content);
          var next := (cleared - {m.source})[m.destination := cleared[m.source]];
          ExecuteKeepsCount(next, moves, i + 1, fault, content);
        }
      }
    }
  }

  lemma EnsureConserves(files: Files, id: string, mounts: seq<Mount>, fault: nat)
    ensures Conserved(files, EnsureSpec(files, id, mounts, fault).0)
  {
    var after := EnsureSpec(files, id, mounts, fault).0;
    if mounts != [] {
      EnsureEntriesAdds(files.entries, id, mounts[..if fault < |mounts| then fault else |mounts|]);
    }
    forall content | content != Empty ensures |Places(files, content)| == |Places(after, content)| {
      assert Places(files, content) == Places(after, content);
    }
  }

  lemma RestoreConserves(files: Files, archiveId: string, newId: string, newMounts: seq<Mount>,
                         archived: seq<Mount>, fault: RestoreFault)
    requires DistinctMounts(newMounts) && DistinctMounts(archived)
    ensures var after := RestoreSpec(files, archiveId, newId, newMounts, archived, fault).0;
            WellFormed(after) && Conserved(files, after)
  {
    var (after, ok) := RestoreSpec(files, archiveId, newId, newMounts, archived, fault);
    RestoreWellFormed(files, archiveId, newId, newMounts, archived, fault);
    var moves, cleared := RestoreAllOrNothing(files.entries, archiveId, newId, newMounts, archived, fault);
    forall content | content != Empty ensures |Places(files, content)| == |Places(after, content)| {
      assert EntryPlaces(files.entries, content) == Places(files, content);
      assert EntryPlaces(after.entries, content) == Places(after, content);
      if !ok {
        assert Places(files, content) == Places(after, content);
      } else if archived != [] {
        ExecuteKeepsCount(files.entries, moves, 0, fault, content);
      }
    }
  }

  lemma {:induction false} RelocateKeepsSize(places: set<Path>, id: string)
    requires forall p :: p in places ==> !(p.tree == Archive && p.workspace == id)
    ensures |set p | p in places :: Relocate(p, id)| == |places|
  {
    if places == {} {
    } else {
      var x :| x in places;
      RelocateKeepsSize(places - {x}, id);
      var rest := set p | p in places - {x} :: Relocate(p, id);
      assert (set p | p in places :: Relocate(p, id)) == rest + {Relocate(x, id)};
      assert Relocate(x, id) !in rest by {
        assert forall p :: p in places && Relocate(p, id) == Relocate(x, id) ==> p == x;
      }
    }
  }

  lemma ArchiveConserves(files: Files, id: string, mounts: seq<Mount>, fault: bool)
    ensures Conserved(files, ArchiveSpec(files, id, mounts, fault).0)
  {
    var (after, ok) := ArchiveSpec(files, id, mounts, fault);
    if ok && HasDirectoryMount(mounts) && Dir(Live, id) in files.dirs {
      forall content | content != Empty ensures |Places(files, content)| == |Places(after, content)| {
        var places := Places(files, content);
        forall p | p in places ensures !(p.tree == Archive && p.workspace == id) {
          assert Dir(p.tree, p.workspace) in files.dirs;
        }
        RelocateKeepsSize(places, id);
        assert Places(after, content) == set p | p in places :: Relocate(p, id);
      }
    }
  }

  /** A successful archive holds, entry by entry, exactly what the live tree
      held; nothing outside the two workspace directories changes. */
  lemma ArchiveMovesTree(files: Files, id: string, mounts: seq<Mount>, fault: bool)
    ensures var (after, ok) := ArchiveSpec(files, id, mounts, fault);
            && (!ok ==> after == files)
            && (ok && HasDirectoryMount(mounts) && Dir(Live, id) in files.dirs ==>
                  && Dir(Archive, id) !in files.dirs && Dir(Archive, id) in after.dirs && Dir(Live, id) !in after.dirs
                  && (forall entry ::
                        && (Path(Live, id, entry) in files.entries <==> Path(Archive, id, entry) in after.entries)
                        && (Path(Live, id, entry) in files.entries ==>
                              after.entries[Path(Archive, id, entry)] == files.entries[Path(Live, id, entry)])))
            && (forall p: Path :: p.workspace != id ==> SameAt(files.entries, after.entries, p))
            && (forall d :: d in files.dirs && d != Dir(Live, id) ==> d in after.dirs)
    ensures Conserved(files, ArchiveSpec(files, id, mounts, fault).0)
  {
    var (after, ok) := ArchiveSpec(files, id, mounts, fault);
    if ok && HasDirectoryMount(mounts) && Dir(Live, id) in files.dirs {
      assert forall p :: p in files.entries ==> Dir(p.tree, p.workspace) in files.dirs;
      forall entry
        ensures Path(Live, id, entry) in files.entries <==> Path(Archive, id, entry) in after.entries
        ensures Path(Live, id, entry) in files.entries ==>
                  after.entries[Path(Archive, id, entry)] == files.entries[Path(Live, id, entry)]
      {
        assert Relocate(Path(Live, id, entry), id) == Path(Archive, id, entry);
      }
      forall p: Path | p.workspace != id ensures SameAt(files.entries, after.entries, p) {
        assert Relocate(p, id) == p;
      }
    }
    ArchiveConserves(files, id, mounts, fault);
  }

  /** Removing a live tree is safe exactly when it holds no data. */
  lemma RemoveConservesIffEmpty(files: Files, id: string, mounts: seq<Mount>)
    ensures Conserved(files, RemoveSpec(files, id, mounts)) <==>
              (HasDirectoryMount(mounts) ==>
                 forall p :: p in files.entries && p.tree == Live && p.workspace == id ==> files.entries[p] == Empty)
  {
    var after := RemoveSpec(files, id, mounts);
    if HasDirectoryMount(mounts) {
      forall content ensures Places(after, content) <= Places(files, content) {
      }
      if p :| p in files.entries && p.tree == Live && p.workspace == id && files.entries[p] != Empty {
        var content := files.entries[p];
        assert p in Places(files, content) && p !in Places(after, content);
        SmallerSet(Places(after, content), Places(files, content), p);
      } else {
        forall content | content != Empty ensures |Places(files, content)| == |Places(after, content)| {
          assert Places(files, content) == Places(after, content);
        }
      }
    }
  }

  lemma SmallerSet(small: set<Path>, large: set<Path>, x: Path)
    requires small <= large && x in large && x !in small
    ensures |small| < |large|
  {
    assert small + (large - small) == large;
    assert x in large - small;
  }

  // ---------------------------------------------------------------------
  // The operations on the host

  class HostFiles {
    var tree: Files

    constructor ()
      ensures tree == RawFiles({}, map[])
    {
      tree := RawFiles({}, map[]);
    }

    /** ensureMountDirectories: the workspace directory, then one directory per
        directory mount that does not exist yet. */
    method EnsureMountDirectories(id: string, mounts: seq<Mount>, fault: nat) returns (ok: bool)
      modifies this
      ensures (tree, ok) == EnsureSpec(old(tree), id, mounts, fault)
    {
      if |mounts| == 0 {
        return true;
      }
      tree := RawFiles(tree.dirs + {Dir(Live, id)}, tree.entries);
      var i := 0;
      while i < |mounts| && i != fault
        invariant i <= |mounts| && (fault < |mounts| ==> i <= fault)
        invariant tree.dirs == old(tree).dirs + {Dir(Live, id)}
        invariant tree.entries == EnsureEntries(old(tree).entries, id, mounts[..i])
      {
        var mount := mounts[i];
        assert mounts[..i + 1][..i] == mounts[..i];
        if mount.kind == Directory {
          var p := Path(Live, id, ManagedMountName(mount));
          if p !in tree.entries {
            tree := RawFiles(tree.dirs, tree.entries[p := Empty]);
          }
        }
        i := i + 1;
      }
      return i == |mounts|;
    }

    method ArchiveMountDirectories(id: string, mounts: seq<Mount>, fault: bool) returns (ok: bool)
      modifies this
      ensures (tree, ok) == ArchiveSpec(old(tree), id, mounts, fault)
    {
      var needsDirectory := AnyDirectory(mounts);
      if !needsDirectory {
        return true;
      }
      if Dir(Live, id) !in tree.dirs {
        return true;
      }
      if Dir(Archive, id) in tree.dirs || fault {
        return false;
      }
      var places := set q | q in tree.entries :: Relocate(q, id);
      assert forall p :: p in places ==> Origin(p, id) in tree.entries;
      tree := RawFiles(tree.dirs - {Dir(Live, id)} + {Dir(Archive, id)}, map p | p in places :: tree.entries[Origin(p, id)]);
      return true;
    }

    method RemoveMountDirectories(id: string, mounts: seq<Mount>)
      modifies this
      ensures tree == RemoveSpec(old(tree), id, mounts)
    {
      var needsDirectory := AnyDirectory(mounts);
      if needsDirectory {
        tree := RawFiles(tree.dirs - {Dir(Live, id)},
                         map p | p in tree.entries && Dir(p.tree, p.workspace) != Dir(Live, id) :: tree.entries[p]);
      }
    }

    /** The physical half of DeleteRetainedDirectory. */
    method DiscardArchive(id: string)
      modifies this
      ensures tree == DiscardSpec(old(tree), id)
    {
      tree := RawFiles(tree.dirs - {Dir(Archive, id)},
                       map p | p in tree.entries && Dir(p.tree, p.workspace) != Dir(Archive, id) :: tree.entries[p]);
    }

    method RestoreDirectoryMounts(archiveId: string, newId: string, newMounts: seq<Mount>, archived: seq<Mount>,
                                  fault: RestoreFault)
      returns (ok: bool)
      requires DistinctMounts(newMounts) && DistinctMounts(archived)
      modifies this
      ensures (tree, ok) == RestoreSpec(old(tree), archiveId, newId, newMounts, archived, fault)
    {
      if |archived| == 0 {
        return true;
      }
      var moves: seq<Move>;
      ok, moves := PlanMoves(archiveId, newId, newMounts, archived);
      if !ok || fault == LstatFails {
        return false;
      }
      var k := 0;
      while k < |moves|
        invariant k <= |moves|
        invariant forall j :: 0 <= j < k ==> moves[j].source in tree.entries
      {
        if moves[k].source !in tree.entries {
          return false;
        }
        k := k + 1;
      }
      RestoreWellFormed(tree, archiveId, newId, newMounts, archived, fault);
      var entries := tree.entries;
      ok, entries := PerformMoves(entries, moves, fault);
      tree := RawFiles(tree.dirs, entries);
    }
  }

  method AnyDirectory(mounts: seq<Mount>) returns (found: bool)
    ensures found == HasDirectoryMount(mounts)
  {
    for i := 0 to |mounts|
      invariant forall j :: 0 <= j < i ==> mounts[j].kind != Directory
    {
      if mounts[i].kind == Directory {
        return true;
      }
    }
    return false;
  }

  /** Index of the new template's directory mounts by name, then one move per
      archived mount; no move at all unless every archived mount has a partner. */
  method PlanMoves(archiveId: string, newId: string, newMounts: seq<Mount>, archived: seq<Mount>)
    returns (ok: bool, moves: seq<Move>)
    ensures BuildMoves(archiveId, newId, newMounts, archived) == if ok then Some(moves) else None
  {
    var newByName: map<string, Mount> := map[];
    var i := 0;
    while i < |newMounts|
      invariant i <= |newMounts|
      invariant forall name :: name in newByName <==> FindDirectoryMount(newMounts[..i], name).Some?
      invariant forall name :: name in newByName ==> FindDirectoryMount(newMounts[..i], name) == Some(newByName[name])
    {
      assert newMounts[..i + 1][..i] == newMounts[..i];
      if newMounts[i].kind == Directory {
        newByName := newByName[newMounts[i].name := newMounts[i]];
      }
      i := i + 1;
    }
    assert newMounts[..i] == newMounts;
    moves := [];
    i := 0;
    while i < |archived|
      invariant i <= |archived|
      invariant BuildMoves(archiveId, newId, newMounts, archived[..i]) == Some(moves)
    {
      assert archived[..i + 1][..i] == archived[..i];
      if archived[i].name !in newByName {
        BuildMovesAt(archiveId, newId, newMounts, archived);
        return false, [];
      }
      moves := moves + [Move(Path(Archive, archiveId, ManagedMountName(archived[i])),
                             Path(Live, newId, ManagedMountName(newByName[archived[i].name])))];
      i := i + 1;
    }
    assert archived[..i] == archived;
    ok := true;
  }

  /** The renames, undone most recent first as soon as one of them fails. */
  method PerformMoves(before: map<Path, Content>, moves: seq<Move>, fault: RestoreFault)
    returns (ok: bool, entries: map<Path, Content>)
    ensures var attempt := Execute(before, moves, 0, fault);
            && ok == attempt.ok
            && entries == if ok then attempt.entries else Rollback(attempt.entries, moves, attempt.completed)
  {
    entries := before;
    var i := 0;
    while i < |moves|
      invariant i <= |moves|
      invariant Execute(before, moves, 0, fault) == Execute(entries, moves, i, fault)
    {
      var m := moves[i];
      if fault == RemoveFails(i) || m.destination !in entries || entries[m.destination] != Empty {
        entries := RollbackMoves(entries, moves, i);
        return false, entries;
      }
      entries := entries - {m.destination};
      if fault == RenameFails(i) || m.source !in entries {
        entries := RollbackMoves(entries, moves, i);
        return false, entries;
      }
      entries := (entries - {m.source})[m.destination := entries[m.source]];
      i := i + 1;
    }
    ok := true;
  }

  method RollbackMoves(before: map<Path, Content>, moves: seq<Move>,
                       completed: nat) returns (entries: map<Path, Content>)
    requires completed <= |moves|
    ensures entries == Rollback(before, moves, completed)
  {
    entries := before;
    var i: nat := completed;
    while i > 0
      invariant i <= completed
      invariant Rollback(before, moves, completed) == Rollback(entries, moves, i)
    {
      i := i - 1;
      var m := moves[i];
      if m.destination in entries {
        entries := (entries - {m.destination})[m.source := entries[m.destination]];
      }
    }
  }
}
