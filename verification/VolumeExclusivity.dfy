/** Who holds a volume: in every reachable state a volume name belongs to at most
    one tombstone or one mount of a live workspace's container. */
module VolumeExclusivity {
  import opened Domain
  import opened Quota
  import opened Timeouts
  import opened Mounts
  import opened Lifecycle
  import opened Service
  import opened Effects
  import opened Runs

  ghost predicate Attached(containers: map<string, Container>, id: string, mount: string) {
    id in containers && mount in containers[id].volumes
  }

  ghost function VolumeAt(containers: map<string, Container>, id: string, mount: string): string
    requires Attached(containers, id, mount)
  {
    containers[id].volumes[mount]
  }

  ghost predicate InTombs(tombs: map<TombKey, VolumeTomb>, volume: string) {
    exists key :: key in tombs && tombs[key].volume == volume
  }

  /** The guarantee: no volume name has two holders. */
  ghost predicate Exclusive(s: State) {
    && (forall key, other :: key in s.volumeTombs && other in s.volumeTombs && key != other ==>
          s.volumeTombs[key].volume != s.volumeTombs[other].volume)
    && (forall id, mount :: id in s.rows && Attached(s.containers, id, mount) ==>
          !InTombs(s.volumeTombs, VolumeAt(s.containers, id, mount)))
    && (forall id, mount, id', mount' ::
          id in s.rows && id' in s.rows && Attached(s.containers, id, mount) && Attached(s.containers, id', mount') && (id != id' || mount != mount') ==>
            VolumeAt(s.containers, id, mount) != VolumeAt(s.containers, id', mount'))
  }

  // ---------------------------------------------------------------------
  // Where a volume name comes from

  /** The workspace that a managed volume name was made for. */
  function Origin(volume: string): string {
    if |volume| < 5 + ID_LENGTH then "" else volume[5..5 + ID_LENGTH]
  }

  lemma OriginOfManaged(id: string, mount: Mount)
    requires |id| == ID_LENGTH
    ensures Origin(ManagedVolumeName(id, mount)) == id
  {
  }

  /** A mount holds a volume of its own workspace, or one taken over from a
      deleted workspace whose tombstone is gone. */
  ghost predicate AttachmentOk(volume: string, id: string, rows: map<string, Workspace>,
                               tombs: map<TombKey, VolumeTomb>, used: set<string>) {
    Origin(volume) == id || (Origin(volume) in used && Origin(volume) !in rows && !InTombs(tombs, volume))
  }

  ghost predicate AttachmentsOk(s: State, used: set<string>) {
    forall id, mount :: Attached(s.containers, id, mount) ==>
      AttachmentOk(VolumeAt(s.containers, id, mount), id, s.rows, s.volumeTombs, used)
  }

  /** A volume attached twice would be attached once by its own workspace, whose
      row is gone, and once by the workspace that took it over. */
  ghost predicate AttachedOnce(containers: map<string, Container>) {
    forall id, mount, id', mount' ::
      Attached(containers, id, mount) && Attached(containers, id', mount') && (id != id' || mount != mount')
      && VolumeAt(containers, id, mount) == VolumeAt(containers, id', mount') ==>
        (Origin(VolumeAt(containers, id, mount)) == id) != (Origin(VolumeAt(containers, id, mount)) == id')
  }

  ghost predicate TombsOk(tombs: map<TombKey, VolumeTomb>, rows: map<string, Workspace>, used: set<string>) {
    && (forall key :: key in tombs ==> Origin(tombs[key].volume) == key.workspace && key.workspace in used && key.workspace !in rows)
    && TombsDistinct(tombs)
  }

  ghost predicate TombsDistinct(tombs: map<TombKey, VolumeTomb>) {
    forall key, other :: key in tombs && other in tombs && key != other ==> tombs[key].volume != tombs[other].volume
  }

  ghost predicate AttachedExist(s: State) {
    forall id, mount :: Attached(s.containers, id, mount) ==> VolumeAt(s.containers, id, mount) in s.volumes
  }

  ghost predicate Traceable(sys: System) {
    && Consistent(sys) && (forall id :: id in sys.used ==> |id| == ID_LENGTH)
    && AttachmentsOk(sys.state, sys.used) && AttachedOnce(sys.state.containers)
    && TombsOk(sys.state.volumeTombs, sys.state.rows, sys.used)
    && AttachedExist(sys.state)
  }

  lemma TraceableIsExclusive(sys: System)
    requires Traceable(sys)
    ensures Exclusive(sys.state)
  {
  }

  // ---------------------------------------------------------------------
  // Claims and container specs

  /** What a creation takes over: distinct volumes of tombstones that are gone afterwards. */
  ghost predicate Taken(before: map<TombKey, VolumeTomb>, after: map<TombKey, VolumeTomb>,
                        overrides: map<string, string>) {
    && (forall mount :: mount in overrides ==> InTombs(before, overrides[mount]) && !InTombs(after, overrides[mount]))
    && (forall mount, other :: mount in overrides && other in overrides && mount != other ==> overrides[mount] != overrides[other])
  }

  ghost predicate SubMap(after: map<TombKey, VolumeTomb>, before: map<TombKey, VolumeTomb>) {
    forall key :: key in after ==> key in before && after[key] == before[key]
  }

  lemma {:induction false} ClaimTakes(before: map<TombKey, VolumeTomb>, tombs: map<TombKey, VolumeTomb>,
                                      volumes: set<string>, owner: string,
                                      requests: seq<VolumeRequest>, i: nat, overrides: map<string, string>, fault: nat)
    requires i <= |requests| && TombsDistinct(before) && SubMap(tombs, before) && Taken(before, tombs, overrides)
    ensures var claim := ClaimVolumes(tombs, volumes, owner, requests, i, overrides, fault);
            SubMap(claim.tombs, before) && Taken(before, claim.tombs, claim.overrides)
    decreases |requests| - i
  {
    if i < |requests| {
      var key := TombKey(requests[i].from, requests[i].mount);
      if key in tombs && tombs[key].owner == owner {
        var volume := tombs[key].volume;
        assert SubMap(tombs - {key}, before);
        assert Taken(before, tombs - {key}, overrides);
        if i != fault && volume in volumes {
          assert before[key].volume == volume;
          assert !InTombs(tombs - {key}, volume);
          assert Taken(before, tombs - {key}, overrides[requests[i].mount := volume]);
          ClaimTakes(before, tombs - {key}, volumes, owner, requests, i + 1, overrides[requests[i].mount := volume], fault);
        }
      }
    }
  }

  /** Where the volume of a mount in a new container comes from. */
  lemma {:induction false} VolumesForAt(id: string, mounts: seq<Mount>, overrides: map<string, string>,
                                        name: string) returns (k: nat)
    requires name in VolumesFor(id, mounts, overrides)
    ensures k < |mounts| && mounts[k].name == name
    ensures var volume := VolumesFor(id, mounts, overrides)[name];
            volume == ManagedVolumeName(id, mounts[k]) || (name in overrides && volume == overrides[name])
  {
    var last := mounts[|mounts| - 1];
    if last.kind == Volume && last.name == name {
      k := |mounts| - 1;
    } else {
      k := VolumesForAt(id, mounts[..|mounts| - 1], overrides, name);
    }
  }

  /** The volumes a new container attaches: its own or taken over, each once. */
  ghost predicate AttachesCleanly(id: string, attached: map<string, string>, overrides: map<string, string>) {
    && (forall name :: name in attached ==> Origin(attached[name]) == id || (name in overrides && attached[name] == overrides[name]))
    && (forall name, other :: name in attached && other in attached && name != other ==> attached[name] != attached[other])
  }

  lemma NewContainerAttachesCleanly(id: string, mounts: MountList, overrides: map<string, string>)
    requires |id| == ID_LENGTH
    requires forall name :: name in overrides ==> Origin(overrides[name]) != id
    requires forall name, other :: name in overrides && other in overrides && name != other ==> overrides[name] != overrides[other]
    ensures AttachesCleanly(id, VolumesFor(id, mounts, overrides), overrides)
  {
    var attached := VolumesFor(id, mounts, overrides);
    forall name | name in attached
      ensures Origin(attached[name]) == id || (name in overrides && attached[name] == overrides[name])
    {
      var k := VolumesForAt(id, mounts, overrides, name);
      OriginOfManaged(id, mounts[k]);
    }
    forall name, other | name in attached && other in attached && name != other ensures attached[name] != attached[other] {
      var k := VolumesForAt(id, mounts, overrides, name);
      var l := VolumesForAt(id, mounts, overrides, other);
      OriginOfManaged(id, mounts[k]);
      OriginOfManaged(id, mounts[l]);
      if ManagedVolumeName(id, mounts[k]) == ManagedVolumeName(id, mounts[l]) {
        VolumeNameInjective(id, mounts[k], id, mounts[l]);
      }
    }
  }

  /** Adding a container for `id` keeps every volume attached once, if nothing
      else holds a volume that originates from `id` or is taken over here. */
  lemma AddedContainerKeepsOnce(before: map<string, Container>, id: string, added: Container,
                                overrides: map<string, string>)
    requires id !in before && AttachedOnce(before) && AttachesCleanly(id, added.volumes, overrides)
    requires forall other, mount :: Attached(before, other, mount) ==>
               Origin(VolumeAt(before, other, mount)) == other || (Origin(VolumeAt(before, other, mount)) != id && VolumeAt(before, other, mount) !in overrides.Values)
    requires forall name :: name in overrides ==> Origin(overrides[name]) != id
    ensures AttachedOnce(before[id := added])
  {
    var after := before[id := added];
    forall a, mount, b, mount' |
      Attached(after, a, mount) && Attached(after, b, mount') && (a != b || mount != mount')
      && VolumeAt(after, a, mount) == VolumeAt(after, b, mount')
      ensures (Origin(VolumeAt(after, a, mount)) == a) != (Origin(VolumeAt(after, a, mount)) == b)
    {
      assert a != id ==> Attached(before, a, mount) && VolumeAt(before, a, mount) == VolumeAt(after, a, mount);
      assert b != id ==> Attached(before, b, mount') && VolumeAt(before, b, mount') == VolumeAt(after, b, mount');
    }
  }

  // ---------------------------------------------------------------------
  // The steps

  ghost predicate NoNewAttachments(after: map<string, Container>, before: map<string, Container>) {
    forall id :: id in after ==> id in before && after[id].volumes == before[id].volumes
  }

  lemma FewerAttachments(before: map<string, Container>, after: map<string, Container>)
    requires NoNewAttachments(after, before)
    ensures forall id, mount :: Attached(after, id, mount) ==> Attached(before, id, mount) && VolumeAt(after, id, mount) == VolumeAt(before, id, mount)
    ensures AttachedOnce(before) ==> AttachedOnce(after)
  {
  }

  /** A step that neither attaches a volume nor writes a tombstone nor frees or adds a row. */
  lemma QuietStep(s: State, after: State, used: set<string>)
    requires AttachmentsOk(s, used) && AttachedOnce(s.containers) && TombsOk(s.volumeTombs, s.rows, used)
    requires AttachedExist(s)
    requires NoNewAttachments(after.containers, s.containers) && after.rows.Keys == s.rows.Keys
    requires after.volumeTombs == s.volumeTombs && after.volumes == s.volumes
    ensures AttachmentsOk(after, used) && AttachedOnce(after.containers)
    ensures TombsOk(after.volumeTombs, after.rows, used) && AttachedExist(after)
  {
    FewerAttachments(s.containers, after.containers);
    forall id, mount | Attached(after.containers, id, mount)
      ensures AttachmentOk(VolumeAt(after.containers, id, mount), id, after.rows, after.volumeTombs, used)
    {
      assert AttachmentOk(VolumeAt(s.containers, id, mount), id, s.rows, s.volumeTombs, used);
    }
  }

  lemma {:induction false} VolumeTombsAre(id: string, owner: string, mounts: seq<Mount>,
                                          key: TombKey) returns (k: nat)
    requires key in VolumeTombs(id, owner, mounts)
    ensures k < |mounts| && key == TombKey(id, mounts[k].name)
    ensures VolumeTombs(id, owner, mounts)[key] == VolumeTomb(ManagedVolumeName(id, mounts[k]), owner)
  {
    var last := mounts[|mounts| - 1];
    if last.kind == Volume && key == TombKey(id, last.name) {
      k := |mounts| - 1;
    } else {
      k := VolumeTombsAre(id, owner, mounts[..|mounts| - 1], key);
    }
  }

  lemma AddedTombs(id: string, owner: string, mounts: MountList)
    requires |id| == ID_LENGTH
    ensures var added := VolumeTombs(id, owner, mounts);
            (forall key :: key in added ==> key.workspace == id && Origin(added[key].volume) == id) && TombsDistinct(added)
  {
    var added := VolumeTombs(id, owner, mounts);
    forall key | key in added ensures key.workspace == id && Origin(added[key].volume) == id {
      var k := VolumeTombsAre(id, owner, mounts, key);
      OriginOfManaged(id, mounts[k]);
    }
    forall key, other | key in added && other in added && key != other ensures added[key].volume != added[other].volume {
      var k := VolumeTombsAre(id, owner, mounts, key);
      var l := VolumeTombsAre(id, owner, mounts, other);
      if added[key].volume == added[other].volume {
        VolumeNameInjective(id, mounts[k], id, mounts[l]);
      }
    }
  }

  lemma TombsGrow(tombs: map<TombKey, VolumeTomb>, added: map<TombKey, VolumeTomb>, rows: map<string, Workspace>,
                  used: set<string>, id: string)
    requires TombsOk(tombs, rows, used) && id in used && TombsDistinct(added)
    requires forall key :: key in added ==> key.workspace == id && Origin(added[key].volume) == id
    requires forall key, other :: key in added && other in tombs ==> added[key].volume != tombs[other].volume
    ensures TombsOk(tombs + added, rows - {id}, used)
    ensures forall volume :: InTombs(tombs + added, volume) ==> InTombs(tombs, volume) || Origin(volume) == id
  {
  }

  lemma DeleteKeepsTombsOk(s: State, used: set<string>, id: string, value: Workspace, o: DeleteOracle, after: State)
    requires TombsOk(s.volumeTombs, s.rows, used) && DeletesRow(s, id, value, o, after) && |id| == ID_LENGTH
    requires id in used
    ensures TombsOk(after.volumeTombs, after.rows, used)
    ensures forall volume :: InTombs(after.volumeTombs, volume) ==> InTombs(s.volumeTombs, volume) || Origin(volume) == id
  {
    AddedTombs(id, value.owner, value.mounts);
    var added := if value.runtimeId != "" then VolumeTombs(id, value.owner, value.mounts) else map[];
    assert TombsInsertable(s.volumeTombs, s.directoryTombs, id, added, DirectoryMounts(value.mounts) != []);
    TombsGrow(s.volumeTombs, added, s.rows, used, id);
  }

  lemma DeleteKeepsAttachments(s: State, used: set<string>, id: string, value: Workspace, o: DeleteOracle,
                               after: State)
    requires AttachmentsOk(s, used) && AttachedOnce(s.containers) && TombsOk(s.volumeTombs, s.rows, used)
    requires AttachedExist(s)
    requires DeleteTakes(s, id, value, o, after) && DeletesRow(s, id, value, o, after) && |id| == ID_LENGTH
    requires id in used
    ensures AttachmentsOk(after, used) && AttachedOnce(after.containers)
    ensures TombsOk(after.volumeTombs, after.rows, used) && AttachedExist(after)
  {
    DeleteKeepsTombsOk(s, used, id, value, o, after);
    FewerAttachments(s.containers, after.containers);
    forall other, mount | Attached(after.containers, other, mount)
      ensures AttachmentOk(VolumeAt(after.containers, other, mount), other, after.rows, after.volumeTombs, used)
    {
      assert AttachmentOk(VolumeAt(s.containers, other, mount), other, s.rows, s.volumeTombs, used);
    }
  }

  /** One container more, for a workspace with a row or a new one, that takes over `overrides`. */
  ghost predicate AddsContainer(s: State, used: set<string>, after: State, id: string,
                                overrides: map<string, string>) {
    && id !in s.containers && id in after.containers && after.containers == s.containers[id := after.containers[id]]
    && AttachesCleanly(id, after.containers[id].volumes, overrides)
    && after.volumes == s.volumes + after.containers[id].volumes.Values
    && SubMap(after.volumeTombs, s.volumeTombs)
    && (id in s.rows || id !in used) && (forall other :: other in after.rows ==> other in s.rows || other == id)
    && (forall name :: name in overrides ==>
          var volume := overrides[name];
          Origin(volume) in used && Origin(volume) !in s.rows && Origin(volume) != id && InTombs(s.volumeTombs, volume) && !InTombs(after.volumeTombs, volume))
  }

  lemma FewerTombs(before: map<TombKey, VolumeTomb>, after: map<TombKey, VolumeTomb>, volume: string)
    requires SubMap(after, before) && !InTombs(before, volume)
    ensures !InTombs(after, volume)
  {
  }

  lemma OthersStayOk(s: State, used: set<string>, after: State, id: string, overrides: map<string, string>,
                     other: string, mount: string)
    requires AttachmentsOk(s, used) && AddsContainer(s, used, after, id, overrides)
    requires Attached(s.containers, other, mount)
    ensures AttachmentOk(VolumeAt(s.containers, other, mount), other, after.rows, after.volumeTombs, used + {id})
    ensures var volume := VolumeAt(s.containers, other, mount); Origin(volume) == other || (Origin(volume) != id && volume !in overrides.Values)
  {
  }

  lemma ContainerAdded(s: State, used: set<string>, after: State, id: string, overrides: map<string, string>)
    requires AttachmentsOk(s, used) && AttachedOnce(s.containers) && AttachedExist(s)
    requires AddsContainer(s, used, after, id, overrides)
    ensures AttachmentsOk(after, used + {id}) && AttachedOnce(after.containers) && AttachedExist(after)
  {
    forall other, mount | Attached(s.containers, other, mount)
      ensures var volume := VolumeAt(s.containers, other, mount); Origin(volume) == other || (Origin(volume) != id && volume !in overrides.Values)
    {
      OthersStayOk(s, used, after, id, overrides, other, mount);
    }
    AddedContainerKeepsOnce(s.containers, id, after.containers[id], overrides);
    forall other, mount | Attached(after.containers, other, mount)
      ensures AttachmentOk(VolumeAt(after.containers, other, mount), other, after.rows, after.volumeTombs, used + {id})
      ensures VolumeAt(after.containers, other, mount) in after.volumes
    {
      if other != id {
        assert Attached(s.containers, other, mount);
        OthersStayOk(s, used, after, id, overrides, other, mount);
      }
    }
  }

  lemma StartAttaches(c: Config, s: State, id: string, o: StartOracle, after: State)
    requires StartTakes(c, s, id, o, after)
    ensures after.rows.Keys == s.rows.Keys && after.volumeTombs == s.volumeTombs
    ensures (NoNewAttachments(after.containers, s.containers) && after.volumes == s.volumes)
         || (id in s.rows && id !in s.containers && id in after.containers && after.containers == s.containers[id := after.containers[id]]
             && after.containers[id].volumes == VolumesFor(id, s.rows[id].mounts, map[])
             && after.volumes == s.volumes + after.containers[id].volumes.Values)
  {
    if after != s {
      var base := WithContainer(s.containers, id, s.rows[id], map[], o);
      if after.containers != s.containers && NeedsContainer(s.rows[id]) {
        assert after.containers == base || after.containers == base[id := base[id].(running := true)];
      }
    }
  }

  lemma StartKeepsAttachments(c: Config, s: State, used: set<string>, id: string, o: StartOracle, after: State)
    requires AttachmentsOk(s, used) && AttachedOnce(s.containers) && TombsOk(s.volumeTombs, s.rows, used)
    requires AttachedExist(s)
    requires StartTakes(c, s, id, o, after) && (id in s.rows ==> |id| == ID_LENGTH && id in used)
    ensures AttachmentsOk(after, used) && AttachedOnce(after.containers)
    ensures TombsOk(after.volumeTombs, after.rows, used) && AttachedExist(after)
  {
    StartAttaches(c, s, id, o, after);
    if NoNewAttachments(after.containers, s.containers) && after.volumes == s.volumes {
      QuietStep(s, after, used);
    } else {
      NewContainerAttachesCleanly(id, s.rows[id].mounts, map[]);
      ContainerAdded(s, used, after, id, map[]);
      assert used + {id} == used;
    }
  }

  lemma ClaimsAreFree(s: State, used: set<string>, input: CreateInput, o: CreateOracle)
    requires TombsOk(s.volumeTombs, s.rows, used) && input.id !in used
    ensures var claim := ClaimOf(s, input, o);
            && SubMap(claim.tombs, s.volumeTombs) && Taken(s.volumeTombs, claim.tombs, claim.overrides)
            && (forall name :: name in claim.overrides ==>
                  var volume := claim.overrides[name]; Origin(volume) in used && Origin(volume) !in s.rows && Origin(volume) != input.id)
  {
    ClaimTakes(s.volumeTombs, s.volumeTombs, s.volumes, input.owner, input.reattachVolumes, 0, map[], o.inspectFault);
    var claim := ClaimOf(s, input, o);
    forall name | name in claim.overrides
      ensures var volume := claim.overrides[name]; Origin(volume) in used && Origin(volume) !in s.rows && Origin(volume) != input.id
    {
      assert InTombs(s.volumeTombs, claim.overrides[name]);
    }
  }

  lemma FewerTombsOk(tombs: map<TombKey, VolumeTomb>, after: map<TombKey, VolumeTomb>, rows: map<string, Workspace>,
                     rows': map<string, Workspace>, used: set<string>, id: string)
    requires TombsOk(tombs, rows, used) && SubMap(after, tombs) && id !in used
    requires forall other :: other in rows' ==> other in rows || other == id
    ensures TombsOk(after, rows', used + {id})
  {
  }

  lemma CreateKeepsAttachments(c: Config, s: State, used: set<string>, input: CreateInput, o: CreateOracle,
                               after: State)
    requires AttachmentsOk(s, used) && AttachedOnce(s.containers) && TombsOk(s.volumeTombs, s.rows, used)
    requires AttachedExist(s)
    requires CreateTakes(c, s, input, o, after) && |input.id| == ID_LENGTH && input.id !in used
    ensures AttachmentsOk(after, used + {input.id}) && AttachedOnce(after.containers) && AttachedExist(after)
    ensures TombsOk(after.volumeTombs, after.rows, used + {input.id})
  {
    var claim := ClaimOf(s, input, o);
    ClaimsAreFree(s, used, input, o);
    assert SubMap(after.volumeTombs, s.volumeTombs);
    assert forall other :: other in after.rows ==> other in s.rows || other == input.id;
    FewerTombsOk(s.volumeTombs, after.volumeTombs, s.rows, after.rows, used, input.id);
    if after.containers == s.containers {
      forall id, mount | Attached(after.containers, id, mount)
        ensures AttachmentOk(VolumeAt(after.containers, id, mount), id, after.rows, after.volumeTombs, used + {input.id})
      {
        var volume := VolumeAt(s.containers, id, mount);
        assert AttachmentOk(volume, id, s.rows, s.volumeTombs, used);
        if Origin(volume) != id {
          FewerTombs(s.volumeTombs, after.volumeTombs, volume);
        }
      }
    } else {
      NewContainerAttachesCleanly(input.id, input.mounts, claim.overrides);
      ContainerAdded(s, used, after, input.id, claim.overrides);
    }
  }

  lemma OthersAreQuiet(c: Config, s: State, step: Step, after: State)
    requires Takes(c, s, step, after) && !step.Create? && !step.StartOne? && !step.DeleteOne?
    ensures NoNewAttachments(after.containers, s.containers) && after.rows.Keys == s.rows.Keys
    ensures after.volumeTombs == s.volumeTombs && after.volumes == s.volumes
  {
    match step
    case StopOne(id, value, now, _) => HaltIsQuiet(s, id, value, now, after);
    case TimeOut(id, value, now, _) => HaltIsQuiet(s, id, value, now, after);
    case _ =>
  }

  lemma HaltIsQuiet(s: State, id: string, value: Workspace, now: Time, after: State)
    requires StopTakes(s, id, value, now, after) || TimeoutTakes(s, id, value, now, after)
    ensures NoNewAttachments(after.containers, s.containers) && after.rows.Keys == s.rows.Keys
    ensures after.volumeTombs == s.volumeTombs && after.volumes == s.volumes
  {
  }

  lemma DeleteKeepsAll(s: State, used: set<string>, id: string, value: Workspace, o: DeleteOracle, after: State)
    requires AttachmentsOk(s, used) && AttachedOnce(s.containers) && TombsOk(s.volumeTombs, s.rows, used)
    requires AttachedExist(s)
    requires DeleteTakes(s, id, value, o, after) && |id| == ID_LENGTH && id in used
    ensures AttachmentsOk(after, used) && AttachedOnce(after.containers)
    ensures TombsOk(after.volumeTombs, after.rows, used) && AttachedExist(after)
  {
    if DeletesRow(s, id, value, o, after) {
      DeleteKeepsAttachments(s, used, id, value, o, after);
    } else {
      QuietStep(s, after, used);
    }
  }

  lemma StepKeepsTraceable(c: Config, sys: System, step: Step)
    requires Traceable(sys) && Enabled(sys, step)
    ensures Traceable(Apply(c, sys, step))
  {
    var s := sys.state;
    StepKeepsConsistent(c, sys, step);
    var after := StepTakes(c, sys, step);
    match step
    case Create(input, o) => CreateKeepsAttachments(c, s, sys.used, input, o, after);
    case StartOne(id, o) => StartKeepsAttachments(c, s, sys.used, id, o, after);
    case DeleteOne(id, value, o) =>
      assert Listed(id, value).id in sys.used;
      DeleteKeepsAll(s, sys.used, id, value, o, after);
    case _ =>
      OthersAreQuiet(c, s, step, after);
      QuietStep(s, after, sys.used);
  }

  /** In every state of every run no volume name has two holders. */
  lemma RunsKeepVolumesExclusive(c: Config, trace: seq<System>, steps: seq<Step>)
    requires Run(c, trace, steps) && Traceable(trace[0])
    ensures forall i :: 0 <= i < |trace| ==> Traceable(trace[i]) && Exclusive(trace[i].state)
  {
    TraceableIsExclusive(trace[0]);
    for i := 0 to |steps|
      invariant forall k :: 0 <= k <= i ==> Traceable(trace[k]) && Exclusive(trace[k].state)
    {
      assert StepAt(c, trace, steps, i);
      StepKeepsTraceable(c, trace[i], steps[i]);
      TraceableIsExclusive(trace[i + 1]);
    }
  }

  lemma InitiallyTraceable(sys: System)
    requires Initial(sys)
    ensures Traceable(sys)
  {
  }

  /** No operation deletes a volume. */
  lemma VolumesAreNeverDeleted(c: Config, trace: seq<System>, steps: seq<Step>)
    requires Run(c, trace, steps) && Consistent(trace[0])
    ensures forall i :: 0 <= i < |trace| ==> trace[0].state.volumes <= trace[i].state.volumes
  {
    for i := 0 to |steps|
      invariant Consistent(trace[i])
      invariant forall k :: 0 <= k <= i ==> trace[0].state.volumes <= trace[k].state.volumes
    {
      assert StepAt(c, trace, steps, i);
      StepKeepsConsistent(c, trace[i], steps[i]);
      var after := StepTakes(c, trace[i], steps[i]);
      assert trace[i].state.volumes <= after.volumes;
    }
  }
}
