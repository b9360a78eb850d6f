/** Values shared by the whole control plane: workspace rows, template mounts
    and the names under which their storage is kept. */
module Domain {

  datatype Option<+T> = None | Some(value: T)

  /** Seconds since the epoch, as the store keeps them; 0 is Go's zero time. */
  type Time = nat

  /** The observed states. `Missing` is the extra value that reconciliation
      writes when a recorded container is not listed by the runtime. */
  datatype Observed =
    Unknown | Created | Running | Stopped | Exited | Removed | Failed | Missing

  datatype Desired = WantStopped | WantRunning

  /** An empty mount type in a template means `Volume`. */
  datatype MountKind = Volume | Directory

  datatype Mount = Mount(name: string, kind: MountKind, namePrefix: string, nameSuffix: string)

  /** Length of a workspace ID: 18 random bytes in unpadded base64. */
  const ID_LENGTH: nat := 24

  function ManagedContainerName(id: string): string {
    "cows-" + id
  }

  function ManagedMountName(mount: Mount): string {
    mount.namePrefix + mount.name + mount.nameSuffix
  }

  function ManagedVolumeName(id: string, mount: Mount): string {
    ManagedContainerName(id) + "-" + ManagedMountName(mount)
  }

  /** With IDs of one fixed length a managed volume name determines both the
      workspace and the mount's managed name. */
  lemma VolumeNameInjective(id: string, mount: Mount, id': string, mount': Mount)
    requires |id| == |id'| == ID_LENGTH
    requires ManagedVolumeName(id, mount) == ManagedVolumeName(id', mount')
    ensures id == id' && ManagedMountName(mount) == ManagedMountName(mount')
  {
    var name, name' := ManagedVolumeName(id, mount), ManagedVolumeName(id', mount');
    assert id == name[5..5 + ID_LENGTH];
    assert id' == name'[5..5 + ID_LENGTH];
    assert ManagedMountName(mount) == name[6 + ID_LENGTH..];
    assert ManagedMountName(mount') == name'[6 + ID_LENGTH..];
  }

  /** Without the fixed length the names collide: workspace "a" with mount "b-c"
      and workspace "a-b" with mount "c" would share one volume. */
  lemma VolumeNameNeedsFixedLength()
    ensures exists id, mount, id', mount' ::
      id != id' && ManagedVolumeName(id, mount) == ManagedVolumeName(id', mount')
  {
    var m, m' := Mount("b-c", Volume, "", ""), Mount("c", Volume, "", "");
    assert ManagedVolumeName("a", m) == "cows-a-b-c" == ManagedVolumeName("a-b", m');
    assert "a" != "a-b";
  }

  predicate HasDirectoryMount(mounts: seq<Mount>) {
    exists mount :: mount in mounts && mount.kind == Directory
  }

  /** What template validation guarantees about mounts: no two share a name and
      no two share a managed name. */
  ghost predicate DistinctMounts(mounts: seq<Mount>) {
    forall i, j :: 0 <= i < j < |mounts| ==>
      mounts[i].name != mounts[j].name && ManagedMountName(mounts[i]) != ManagedMountName(mounts[j])
  }

  /** The mounts of a validated template. */
  type MountList = mounts: seq<Mount> | DistinctMounts(mounts) witness []

  /** The directory mounts, in order: what a directory tombstone records. */
  function DirectoryMounts(mounts: MountList): (r: MountList)
    ensures r == [] <==> !HasDirectoryMount(mounts)
    ensures forall m :: m in r <==> m in mounts && m.kind == Directory
  {
    if mounts == [] then []
    else
      var front: MountList := mounts[..|mounts| - 1];
      var last := mounts[|mounts| - 1];
      assert mounts == front + [last];
      var kept := DirectoryMounts(front);
      if last.kind == Directory then
        assert forall m :: m in kept ==> m in front;
        kept + [last]
      else kept
  }

  /** A resource amount of a workspace: positive and inside int64. */
  type Amount = x: int | 0 < x < 0x8000_0000_0000_0000 witness 1

  /** The stored row of a workspace. `mounts` is the template snapshot taken at
      creation; an empty `runtimeId` means that no container was created. */
  datatype Workspace = Workspace(
    owner: string, name: string, mounts: MountList, cpu: Amount, memory: Amount,
    idleTimeout: int, stoppedRetention: int,
    desired: Desired, observed: Observed, runtimeId: string,
    startedAt: Time, lastConnectedAt: Time, activeSessions: nat, idleSince: Time,
    stoppedAt: Time, containerDeletedAt: Time)

  // ---------------------------------------------------------------------
  // ASCII text

  function LowerChar(c: char): char {
    if 'A' <= c <= 'Z' then (c as int + 32) as char else c
  }

  function Lower(s: string): string {
    seq(|s|, i requires 0 <= i < |s| => LowerChar(s[i]))
  }

  lemma LowerTwice(s: string)
    ensures Lower(Lower(s)) == Lower(s) && |Lower(s)| == |s|
  {
  }

  predicate IsSpace(c: char) {
    c == ' ' || ('\t' <= c <= '\r')
  }

  function TrimLeft(s: string): string {
    if s != "" && IsSpace(s[0]) then TrimLeft(s[1..]) else s
  }

  function TrimRight(s: string): string {
    if s != "" && IsSpace(s[|s| - 1]) then TrimRight(s[..|s| - 1]) else s
  }

  function Trim(s: string): string {
    TrimRight(TrimLeft(s))
  }
}
