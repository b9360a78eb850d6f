/** When a creation succeeds, and that what it reattaches really comes back: the
    volumes named by the tombstones and the archived directories. */
module Creation {
  import opened Domain
  import opened Quota
  import opened Timeouts
  import opened Mounts
  import opened Lifecycle
  import opened Service
  import opened Effects
  import opened Outcomes

  /** The requests come from a map by mount name. */
  ghost predicate DistinctRequests(requests: seq<VolumeRequest>) {
    forall i, j :: 0 <= i < j < |requests| ==> requests[i].mount != requests[j].mount
  }

  /** The retained volume exists, belongs to the owner and has its tombstone. */
  ghost predicate Claimable(tombs: map<TombKey, VolumeTomb>, volumes: set<string>, owner: string, r: VolumeRequest) {
    var key := TombKey(r.from, r.mount);
    key in tombs && tombs[key].owner == owner && tombs[key].volume in volumes
  }

  lemma {:induction false} ClaimsSucceedIff(tombs: map<TombKey, VolumeTomb>, volumes: set<string>, owner: string,
                                            requests: seq<VolumeRequest>, i: nat, overrides: map<string, string>, fault: nat)
    requires i <= |requests| && DistinctRequests(requests)
    ensures ClaimVolumes(tombs, volumes, owner, requests, i, overrides, fault).ok <==>
              (fault < i || fault >= |requests|) && forall k :: i <= k < |requests| ==> Claimable(tombs, volumes, owner, requests[k])
    decreases |requests| - i
  {
    if i < |requests| {
      var key := TombKey(requests[i].from, requests[i].mount);
      if i != fault && Claimable(tombs, volumes, owner, requests[i]) {
        ClaimsSucceedIff(tombs - {key}, volumes, owner, requests, i + 1, overrides[requests[i].mount := tombs[key].volume], fault);
        forall k | i < k < |requests|
          ensures Claimable(tombs - {key}, volumes, owner, requests[k]) <==> Claimable(tombs, volumes, owner, requests[k])
        {
        }
      }
    }
  }

  /** Claims take the tombstones they are given for, and no other. */
  lemma {:induction false} ClaimedTombsAreGone(tombs: map<TombKey, VolumeTomb>, volumes: set<string>, owner: string,
                                               requests: seq<VolumeRequest>, i: nat, overrides: map<string, string>, fault: nat, key: TombKey)
    requires i <= |requests| && ClaimVolumes(tombs, volumes, owner, requests, i, overrides, fault).ok
    ensures var after := ClaimVolumes(tombs, volumes, owner, requests, i, overrides, fault).tombs;
            && (key in after <==> key in tombs && forall k :: i <= k < |requests| ==> key != TombKey(requests[k].from, requests[k].mount))
            && (key in after ==> after[key] == tombs[key])
    decreases |requests| - i
  {
    if i < |requests| {
      var first := TombKey(requests[i].from, requests[i].mount);
      ClaimedTombsAreGone(tombs - {first}, volumes, owner, requests, i + 1, overrides[requests[i].mount := tombs[first].volume], fault, key);
    }
  }

  /** A requested mount gets the volume of its tombstone; the others get none. */
  lemma {:induction false} ClaimedVolume(tombs: map<TombKey, VolumeTomb>, volumes: set<string>, owner: string,
                                         requests: seq<VolumeRequest>, i: nat, overrides: map<string, string>, fault: nat, name: string)
    requires i <= |requests| && DistinctRequests(requests)
    requires ClaimVolumes(tombs, volumes, owner, requests, i, overrides, fault).ok
    ensures var after := ClaimVolumes(tombs, volumes, owner, requests, i, overrides, fault).overrides;
            && (forall k :: i <= k < |requests| && requests[k].mount == name ==>
                  TombKey(requests[k].from, name) in tombs && name in after && after[name] == tombs[TombKey(requests[k].from, name)].volume)
            && ((forall k :: i <= k < |requests| ==> requests[k].mount != name) ==>
                  (name in after <==> name in overrides) && (name in after ==> after[name] == overrides[name]))
    decreases |requests| - i
  {
    if i < |requests| {
      var first := TombKey(requests[i].from, requests[i].mount);
      ClaimedVolume(tombs - {first}, volumes, owner, requests, i + 1, overrides[requests[i].mount := tombs[first].volume], fault, name);
    }
  }

  // ---------------------------------------------------------------------
  // The volumes of a new container

  /** A volume mount gets the volume taken over for it, or one of its own. */
  lemma {:induction false} MountGetsVolume(id: string, mounts: seq<Mount>, overrides: map<string, string>, name: string)
    requires forall i, j :: 0 <= i < j < |mounts| ==> mounts[i].name != mounts[j].name
    ensures name in VolumesFor(id, mounts, overrides) <==> exists m :: m in mounts && m.kind == Volume && m.name == name
    ensures forall m :: m in mounts && m.kind == Volume && m.name == name ==>
              name in VolumesFor(id, mounts, overrides)
              && VolumesFor(id, mounts, overrides)[name]
                 == if name in overrides && overrides[name] != "" then overrides[name] else OwnVolume(id, m)
  {
    if mounts != [] {
      var front, last := mounts[..|mounts| - 1], mounts[|mounts| - 1];
      MountGetsVolume(id, front, overrides, name);
      assert mounts == front + [last];
      forall m | m in front ensures m.name != last.name {
      }
    }
  }

  /** The container a successful start makes has exactly its volume mounts, each
      with the volume taken over for it or one of its own; one that is there keeps its volumes. */
  lemma StartAttaches(s: State, id: string, overrides: map<string, string>, o: StartOracle, name: string)
    requires id in s.rows && s.rows[id].observed != Running && AdmittedStartSpec(s, id, overrides, o).1
    ensures var after, w := AdmittedStartSpec(s, id, overrides, o).0, s.rows[id];
            id in after.containers &&
            var volumes := after.containers[id].volumes;
            if w.runtimeId == "" || w.observed == Removed || w.observed == Missing then
              && (name in volumes <==> exists m :: m in w.mounts && m.kind == Volume && m.name == name)
              && (forall m :: m in w.mounts && m.kind == Volume && m.name == name ==>
                    volumes[name] == if name in overrides && overrides[name] != "" then overrides[name] else OwnVolume(id, m))
              && (name in volumes ==> volumes[name] in after.volumes)
            else id in s.containers && volumes == s.containers[id].volumes
  {
    var after, ok := StartEffect(s, id, overrides, o);
    StartSucceedsIff(s, id, overrides, o);
    MountGetsVolume(id, s.rows[id].mounts, overrides, name);
  }

  // ---------------------------------------------------------------------
  // The archived directories of a new workspace

  /** What was archived for the mount can come back: it is there, and the new
      workspace has a directory mount of that name that holds nothing else yet. */
  ghost predicate Returns(files: Files, from: string, id: string, mounts: seq<Mount>, m: Mount) {
    && Path(Archive, from, m.namePrefix + m.name + m.nameSuffix) in files.entries
    && exists t :: t in mounts && t.kind == Directory && t.name == m.name && HoldsNothing(files, id, t)
  }

  ghost predicate HoldsNothing(files: Files, id: string, t: Mount) {
    var p := Path(Live, id, t.namePrefix + t.name + t.nameSuffix);
    p in files.entries ==> files.entries[p] == Empty
  }

  lemma EnsuredRestorable(files: Files, from: string, id: string, mounts: seq<Mount>, m: Mount)
    ensures Restorable(EnsureEntries(files.entries, id, mounts), from, id, mounts, m) <==> Returns(files, from, id, mounts, m)
  {
    EnsureEntriesAdds(files.entries, id, mounts);
    var ensured := EnsureEntries(files.entries, id, mounts);
    forall t | t in mounts && t.kind == Directory
      ensures Path(Live, id, ManagedMountName(t)) in ensured
      ensures ensured[Path(Live, id, ManagedMountName(t))] == Empty <==> HoldsNothing(files, id, t)
    {
      var i :| 0 <= i < |mounts| && mounts[i] == t;
    }
    if t :| t in mounts && t.kind == Directory && t.name == m.name && HoldsNothing(files, id, t) {
      assert Path(Live, id, ManagedMountName(t)) in ensured;
    }
  }

  /** The retained directories are the owner's and all of them can come back. */
  ghost predicate DirectoriesReturn(s: State, input: CreateInput, fault: RestoreFault) {
    input.reattachDirectories.Some? ==>
      var from := input.reattachDirectories.value;
      && from in s.directoryTombs && s.directoryTombs[from].owner == input.owner
      && var archived := s.directoryTombs[from].mounts;
         archived == [] || (Unhindered(fault, |archived|) && forall m :: m in archived ==> Returns(s.files, from, input.id, input.mounts, m))
  }

  lemma InsertSucceedsIff(s: State, input: CreateInput, o: CreateOracle)
    requires input.cpu > 0 && input.memory > 0
    ensures InsertStep(s, input, o).1 <==>
              o.ensureFault >= |input.mounts| && o.storeOk && o.portsOk && DirectoriesReturn(s, input, o.restoreFault)
  {
    var files := EnsureSpec(s.files, input.id, input.mounts, o.ensureFault).0;
    var inserted := WithRow(s.(files := files), input.id, NewRow(input));
    if o.ensureFault >= |input.mounts| {
      EnsuredEntries(s.files, input.id, input.mounts, o.ensureFault);
      if input.reattachDirectories.Some? && input.reattachDirectories.value in s.directoryTombs {
        var from := input.reattachDirectories.value;
        var archived := s.directoryTombs[from].mounts;
        RestoreSucceedsIff(files.entries, from, input.id, input.mounts, archived, o.restoreFault);
        forall m ensures Restorable(files.entries, from, input.id, input.mounts, m) <==> Returns(s.files, from, input.id, input.mounts, m) {
          EnsuredRestorable(s.files, from, input.id, input.mounts, m);
        }
      }
    }
  }

  lemma EnsuredEntries(files: Files, id: string, mounts: seq<Mount>, fault: nat)
    requires fault >= |mounts|
    ensures EnsureSpec(files, id, mounts, fault).0.entries == EnsureEntries(files.entries, id, mounts)
  {
    assert mounts[..|mounts|] == mounts;
  }

  // ---------------------------------------------------------------------
  // The whole creation

  /** The requests fit the template: each names a volume mount, and directories
      come back only to a template with a directory mount. */
  ghost predicate FitsTemplate(input: CreateInput) {
    && (forall r :: r in input.reattachVolumes ==> exists m :: m in input.mounts && m.kind == Volume && m.name == r.mount)
    && (input.reattachDirectories.Some? ==> exists m :: m in input.mounts && m.kind == Directory)
  }

  /** A creation that takes over volumes starts the workspace at once. */
  ghost predicate StartsAtOnce(c: Config, s: State, input: CreateInput, o: StartOracle)
    requires input.cpu > 0 && input.memory > 0
  {
    && StartAdmissible(c, s.rows[input.id := NewRow(input)], input.owner, input.cpu as int, input.memory as int)
    && o.prepareOk && o.ensureFault >= |input.mounts| && o.specOk && o.createOk && input.id !in s.containers && o.startOk
  }

  lemma BuildSucceedsIff(c: Config, s: State, input: CreateInput, overrides: map<string, string>, o: CreateOracle)
    requires input.cpu > 0 && input.memory > 0 && input.id !in s.rows
    ensures BuildStep(c, s, input, overrides, o).1 <==>
              && o.ensureFault >= |input.mounts| && o.storeOk && o.portsOk && DirectoriesReturn(s, input, o.restoreFault)
              && (overrides != map[] ==> StartsAtOnce(c, s, input, o.start))
  {
    InsertSucceedsIff(s, input, o);
    var placed, ok := InsertEffect(s, input, o);
    if ok {
      StartOperationSucceedsIff(c, placed, input.id, overrides, o.start);
    }
  }

  /** A creation succeeds exactly when: the requests fit the template, the quota
      and the host admit it, the owner has no workspace of that name, every
      requested volume can be claimed, directories, row and ports are made, the
      archived directories return, and, if it takes volumes over, it starts. */
  lemma CreationSucceedsIff(c: Config, s: State, input: CreateInput, o: CreateOracle)
    requires input.id !in s.rows && DistinctRequests(input.reattachVolumes)
    ensures CreateSpec(c, s, input, o).1 <==>
              && FitsTemplate(input)
              && CreateAdmissible(c, s.rows, input.owner, input.cpu as int, input.memory as int, o.storage)
              && !(exists id :: id in s.rows && s.rows[id].owner == input.owner && s.rows[id].name == input.name)
              && o.inspectFault >= |input.reattachVolumes|
              && (forall k :: 0 <= k < |input.reattachVolumes| ==> Claimable(s.volumeTombs, s.volumes, input.owner, input.reattachVolumes[k]))
              && o.ensureFault >= |input.mounts| && o.storeOk && o.portsOk && DirectoriesReturn(s, input, o.restoreFault)
              && (input.reattachVolumes != [] ==> StartsAtOnce(c, s, input, o.start))
  {
    ClaimsSucceedIff(s.volumeTombs, s.volumes, input.owner, input.reattachVolumes, 0, map[], o.inspectFault);
    var claim := ClaimOf(s, input, o);
    if claim.ok {
      ClaimsOverride(s, input, o);
      if input.cpu > 0 && input.memory > 0 {
        BuildSucceedsIff(c, s.(volumeTombs := claim.tombs), input, claim.overrides, o);
      }
    }
  }

  lemma ClaimsOverride(s: State, input: CreateInput, o: CreateOracle)
    requires DistinctRequests(input.reattachVolumes) && ClaimOf(s, input, o).ok
    ensures ClaimOf(s, input, o).overrides == map[] <==> input.reattachVolumes == []
  {
    if input.reattachVolumes != [] {
      var r := input.reattachVolumes[0];
      ClaimedVolume(s.volumeTombs, s.volumes, input.owner, input.reattachVolumes, 0, map[], o.inspectFault, r.mount);
    }
  }

  /** After a successful creation with reattached volumes the new container holds
      at each requested mount the volume of its tombstone, and at every other
      volume mount one of its own; the tombstones it took are gone. */
  lemma ReattachedVolumesAttach(c: Config, s: State, input: CreateInput, o: CreateOracle, m: Mount)
    requires input.id !in s.rows && DistinctRequests(input.reattachVolumes) && input.reattachVolumes != []
    requires CreateSpec(c, s, input, o).1 && m in input.mounts && m.kind == Volume
    ensures var after, requests := CreateSpec(c, s, input, o).0, input.reattachVolumes;
            && input.id in after.containers && after.containers[input.id].running && m.name in after.containers[input.id].volumes
            && var volume := after.containers[input.id].volumes[m.name];
               && (forall k :: 0 <= k < |requests| && requests[k].mount == m.name ==>
                     var key := TombKey(requests[k].from, m.name);
                     && key in s.volumeTombs && key !in after.volumeTombs
                     && volume == if s.volumeTombs[key].volume != "" then s.volumeTombs[key].volume else OwnVolume(input.id, m))
               && ((forall k :: 0 <= k < |requests| ==> requests[k].mount != m.name) ==> volume == OwnVolume(input.id, m))
  {
    CreationSucceedsIff(c, s, input, o);
    var claim := ClaimOf(s, input, o);
    ClaimsOverride(s, input, o);
    ClaimedVolume(s.volumeTombs, s.volumes, input.owner, input.reattachVolumes, 0, map[], o.inspectFault, m.name);
    var claimed := s.(volumeTombs := claim.tombs);
    forall k | 0 <= k < |input.reattachVolumes| && input.reattachVolumes[k].mount == m.name
      ensures TombKey(input.reattachVolumes[k].from, m.name) !in claim.tombs
    {
      ClaimedTombsAreGone(s.volumeTombs, s.volumes, input.owner, input.reattachVolumes, 0, map[], o.inspectFault,
                          TombKey(input.reattachVolumes[k].from, m.name));
    }
    BuildAttaches(c, claimed, input, claim.overrides, o, m);
  }

  lemma BuildAttaches(c: Config, s: State, input: CreateInput, overrides: map<string, string>, o: CreateOracle, m: Mount)
    requires input.cpu > 0 && input.memory > 0 && input.id !in s.rows && overrides != map[]
    requires BuildStep(c, s, input, overrides, o).1 && m in input.mounts && m.kind == Volume
    ensures var after := BuildStep(c, s, input, overrides, o).0;
            && after.volumeTombs == s.volumeTombs
            && input.id in after.containers && after.containers[input.id].running && m.name in after.containers[input.id].volumes
            && after.containers[input.id].volumes[m.name]
               == if m.name in overrides && overrides[m.name] != "" then overrides[m.name] else OwnVolume(input.id, m)
  {
    var placed, ok := InsertEffect(s, input, o);
    StartedRuns(placed, input.id, overrides, o.start);
    StartAttaches(placed, input.id, overrides, o.start, m.name);
    var started, startOk := StartEffect(placed, input.id, overrides, o.start);
  }

  lemma RestoredContent(entries: map<Path, Content>, from: string, id: string, mounts: seq<Mount>, archived: seq<Mount>,
                        fault: RestoreFault, i: nat, t: Mount)
    requires DistinctMounts(mounts) && DistinctMounts(archived) && i < |archived|
    requires RestoreEntries(entries, from, id, mounts, archived, fault).1
    requires t in mounts && t.kind == Directory && t.name == archived[i].name
    ensures var source := Path(Archive, from, archived[i].namePrefix + archived[i].name + archived[i].nameSuffix);
            var destination := Path(Live, id, t.namePrefix + t.name + t.nameSuffix);
            var after := RestoreEntries(entries, from, id, mounts, archived, fault).0;
            source in entries && source !in after && destination in after && after[destination] == entries[source]
  {
    var moves, cleared := RestoreAllOrNothing(entries, from, id, mounts, archived, fault);
    BuildMovesAt(from, id, mounts, archived);
    var target := FindDirectoryMount(mounts, archived[i].name).value;
    var x :| 0 <= x < |mounts| && mounts[x] == t;
    var y :| 0 <= y < |mounts| && mounts[y] == target;
    assert x == y;
    assert Moved(entries, RestoreEntries(entries, from, id, mounts, archived, fault).0, moves[i]);
  }

  lemma InsertReturns(s: State, input: CreateInput, o: CreateOracle, i: nat, t: Mount)
    requires input.cpu > 0 && input.memory > 0 && InsertStep(s, input, o).1 && input.reattachDirectories.Some?
    requires input.reattachDirectories.value in s.directoryTombs && i < |s.directoryTombs[input.reattachDirectories.value].mounts|
    requires t in input.mounts && t.kind == Directory && t.name == s.directoryTombs[input.reattachDirectories.value].mounts[i].name
    ensures var from := input.reattachDirectories.value;
            var m := s.directoryTombs[from].mounts[i];
            var source := Path(Archive, from, m.namePrefix + m.name + m.nameSuffix);
            var destination := Path(Live, input.id, t.namePrefix + t.name + t.nameSuffix);
            var after := InsertStep(s, input, o).0;
            && from !in after.directoryTombs && source in s.files.entries && source !in after.files.entries
            && destination in after.files.entries && after.files.entries[destination] == s.files.entries[source]
  {
    var from := input.reattachDirectories.value;
    InsertSucceedsIff(s, input, o);
    var files := EnsureSpec(s.files, input.id, input.mounts, o.ensureFault).0;
    EnsuredEntries(s.files, input.id, input.mounts, o.ensureFault);
    EnsureEntriesAdds(s.files.entries, input.id, input.mounts);
    RestoredContent(files.entries, from, input.id, input.mounts, s.directoryTombs[from].mounts, o.restoreFault, i, t);
  }

  /** After a successful creation with reattached directories every archived
      content is in the mount of the same name and no longer in the archive. */
  lemma ReattachedDirectoriesReturn(c: Config, s: State, input: CreateInput, o: CreateOracle, i: nat, t: Mount)
    requires input.id !in s.rows && CreateSpec(c, s, input, o).1 && input.reattachDirectories.Some?
    requires input.reattachDirectories.value in s.directoryTombs && i < |s.directoryTombs[input.reattachDirectories.value].mounts|
    requires t in input.mounts && t.kind == Directory && t.name == s.directoryTombs[input.reattachDirectories.value].mounts[i].name
    ensures var from := input.reattachDirectories.value;
            var m := s.directoryTombs[from].mounts[i];
            var source := Path(Archive, from, m.namePrefix + m.name + m.nameSuffix);
            var destination := Path(Live, input.id, t.namePrefix + t.name + t.nameSuffix);
            var after := CreateSpec(c, s, input, o).0;
            && from !in after.directoryTombs && source in s.files.entries && source !in after.files.entries
            && destination in after.files.entries && after.files.entries[destination] == s.files.entries[source]
  {
    var claim := ClaimOf(s, input, o);
    var claimed := s.(volumeTombs := claim.tombs);
    InsertReturns(claimed, input, o, i, t);
    var placed, ok := InsertEffect(claimed, input, o);
    if claim.overrides != map[] {
      var started, startOk := StartEffect(placed, input.id, claim.overrides, o.start);
      EnsureKeepsEntries(placed.files, input.id, input.mounts, o.start.ensureFault);
    }
  }

  lemma EnsureKeepsEntries(files: Files, id: string, mounts: seq<Mount>, fault: nat)
    ensures var after := EnsureSpec(files, id, mounts, fault).0;
            && (forall p :: p in files.entries ==> p in after.entries && after.entries[p] == files.entries[p])
            && (forall p :: p in after.entries && p.tree == Archive ==> p in files.entries)
  {
    if mounts != [] {
      EnsureEntriesAdds(files.entries, id, mounts[..if fault < |mounts| then fault else |mounts|]);
    }
  }

  // ---------------------------------------------------------------------
  // What a failed creation leaves

  lemma InsertDirectory(s: State, input: CreateInput, o: CreateOracle)
    requires input.cpu > 0 && input.memory > 0 && o.ensureFault >= |input.mounts| && HasDirectoryMount(input.mounts)
    ensures Dir(Live, input.id) in InsertStep(s, input, o).0.files.dirs <==> InsertStep(s, input, o).1
  {
  }

  /** A creation that fails once its directories are made takes them away again,
      unless archived content was restored into them before. */
  lemma FailedCreationCleansUp(c: Config, s: State, input: CreateInput, overrides: map<string, string>, o: CreateOracle)
    requires input.cpu > 0 && input.memory > 0 && input.id !in s.rows && HasDirectoryMount(input.mounts)
    requires o.ensureFault >= |input.mounts| && !BuildStep(c, s, input, overrides, o).1
    ensures input.id !in BuildStep(c, s, input, overrides, o).0.rows
    ensures Dir(Live, input.id) in BuildStep(c, s, input, overrides, o).0.files.dirs <==>
              input.reattachDirectories.Some? && o.storeOk && o.portsOk && DirectoriesReturn(s, input, o.restoreFault)
  {
    InsertSucceedsIff(s, input, o);
    InsertDirectory(s, input, o);
    var placed, ok := InsertEffect(s, input, o);
    if ok {
      StartKeepsDirectory(c, placed, input.id, overrides, o.start);
    }
    var after, built, r := BuildEffect(c, s, input, overrides, o);
  }

  lemma StartKeepsDirectory(c: Config, s: State, id: string, overrides: map<string, string>, o: StartOracle)
    requires id in s.rows && Dir(Live, id) in s.files.dirs
    ensures Dir(Live, id) in StartSpec(c, s, id, overrides, o).0.files.dirs
  {
    if MayStart(c, s.rows, id) {
      var after, ok := StartEffect(s, id, overrides, o);
    }
  }
}
