# COWS control plane: a verified model

COWS is a workspace control plane: it starts containers for users inside quotas
and host capacity, stops and removes idle ones, keeps their storage after
deletion, and mails its users. This project models the parts that have to be
right together and proves what they keep, in Dafny. `dafny verify dfyconfig.toml`
checks everything.

## How it is built

Code that changes things step by step is a class whose methods do the same steps
and are proved equal to a specification function (names ending in `Spec`);
lemmas are proved about those functions. What an operation calls outside the
control plane (the container runtime, the operating system, the mail server,
random IDs) is an oracle argument that fixes how the calls turn out.

- `Domain`, `Timeouts`, `Quota`, `Mounts`: values, the two timeouts and the
  session columns, quota arithmetic and admission, the two directory trees.
- `Lifecycle` (specifications) and `Service` (the operations) for create, start,
  stop, delete, timeouts and reconciliation; `Effects` says table by table what
  each changes.
- `Runs`: whole runs. A step is one complete critical section of the workspace
  service. Stop, delete and timeouts read their row before they take the locks, so
  they act on a snapshot that may be arbitrarily old; the runtime may stop and lose
  containers; users may write files at any time.
- `Outcomes`, `Creation`, `QuotaLaws`: exactly when each operation succeeds and
  what it leaves, in terms of rows, containers, tombstones, files and calls alone.
- `LifecycleInvariant`, `SessionRuns`, `Admission`, `Conservation`,
  `VolumeExclusivity`, `VolumeReturn`, `DeleteRetry`, `WorkspaceNames`: what every
  run keeps; `Orphans` and `OutdatedTimeouts`: what outdated and wrong rows do to it.
- `Reconciliation`, `StorageCache`, `Locks`, `Outbox`, `OutboxRuns`, `DeliveryRuns`,
  `Warnings`, `Accounts`, `AccountRuns`, `Credentials`, `Placeholders`, `Configuration`,
  `LogStream`: one component each, with its own steps and runs. Accounts and
  credentials have no critical sections: a step of theirs is one statement or
  transaction of the store.

## Where the code does less than one might expect

Each of these is a lemma that shows the case, beside the exact condition under
which the property holds.

- A timeout acts on the row as listed. It stops a workspace that is not idle
  exactly when evaluating the stored row again would have spared it
  (`TimeoutsSpareBusyWorkspaces`, `StaleTimeoutStopsConnectedWorkspace`), and an
  outdated handle marks a running workspace as removed, whose share of the host
  then escapes admission (`TimeoutKeepsRecordedIff`, `OutdatedTimeoutBreaksHostBound`).
- A deletion leaves a running container behind exactly when the row it read has
  no container, says it is removed or missing, or has another handle
  (`DeleteOrphansIff`): the row is older than the first start
  (`StaleDeleteOrphansContainer`), is current but a reconciliation missed the
  container (`MissingRowOrphansContainer`), or is older than a new container
  (`RecreatedContainerIsOrphaned`).
- A volume taken over from a deleted workspace is lost to its owner when the
  container is made again or the workspace is deleted in turn: only volumes of a
  workspace's own come back (`RecreatedVolumeReturnsIff`,
  `RetentionStrandsTakenVolume`, `DeletedVolumeIsRetainedIff`, `TakenVolumeIsForeign`).
- A start writes the container-deletion time back unchanged, so the retention
  timeout of a workspace fires at most once (`RetentionTimeoutFiresOnce`).
- A session end is not tied to the run of its session (`EndKeepsCountIff`).
- A group quota of "unlimited" can be lost to the order of the groups
  (`AggregateDependsOnOrderIff`).
- Opening the files of a workspace whose deletion failed after the archive makes
  every later deletion fail (`DeleteSucceedsIffDeletable`, `FileAccessBlocksDeletion`).
- A start and a stop of one workspace can block each other until the start's
  context ends (`StuckOnlyInDeadlock`, `DeadlockPersists`).
- Mail queued while its row is being delivered, and no other, is marked as sent
  unsent (`SentMeansPresentContentIff`, `NewContentMarkedSentUnsent`); a warning is
  not withdrawn when its deadline moves (`StopWarningCurrentIff`,
  `MovedDeadlineStaysCurrent`); cancelling a workspace's mail does not distinguish
  the case of its ID (`CancellationReachesIff`).
- Two measurements of one workspace overlap exactly when its fingerprint changes
  during the first (`SingleFlightKeptIff`), and when it changes back one request is
  measured twice at once (`SecondFlightIff`, `FingerprintChangeOverlapsFlights`).
- The checks of an account request and its write are separate: two registrations
  can share an address and two administrators can disable each other
  (`RunsKeepAccountsValidIff`, `SimultaneousRegistrationsShareAddress`,
  `SimultaneousDisablesLeaveNone`).
- A batch import that changes an address leaves links to the old one alive, and a
  link can go to an address that was changed while it was issued
  (`LinksFollowAddressKeptIff`). Mail with a superseded link can be queued after
  its successor (`PendingMailIsLiveKeptIff`, `SupersededLinkIsMailed`). An old link
  works until the last statement of a password change (`OldLinksWorkUntilRetired`).
- A mount named "path" has a placeholder that is accepted and never resolves
  (`MountNamedPathNeverResolves`).

## Assumptions

- Workspace IDs have one length and are fresh; so are container handles, tokens
  and user IDs. Clocks in the steps are not zero.
- Store writes succeed except where an oracle flag or a constraint says otherwise;
  renames that undo a restore succeed. Each critical section is one step, and
  inspection and write-back of a reconciliation are one step. All reads of one
  account request are one step; its write is another.
- The runtime knows at most one container per workspace, does not remove a
  running one unforced, and a failed call has no effect.
- For `RunsStayWithinLimits`: reconciliation sees exactly the running containers,
  and no timeout hides a running workspace (`Faithful`).
- Text is ASCII where case and space matter. Host factors are real numbers.

## Model

| member | source | states |
|---|---|---|
| `Domain.VolumeNameInjective` | internal/workspace/mounts.go:107-117 | with IDs of one length a volume name determines the workspace and the managed mount name |
| `Domain.VolumeNameNeedsFixedLength` | internal/workspace/mounts.go:107-117 | without the fixed length two workspaces can share a volume name |
| `Domain.DirectoryMounts` | internal/workspace/workspace.go:967-1002 | the tombstone lists exactly the directory mounts, and is absent exactly when there are none |
| `Timeouts.EvaluateTimeouts` | internal/workspace/timeouts.go:32-60 | deletion only of a stopped, not yet removed container; stop only of a running workspace without sessions; both only at or after their deadline |
| `Timeouts.ConnectionIsNoted` | internal/repository/sqlite/store.go:1211-1259 | a connection is counted with its time, and its end starts the idle clock iff it was the last |
| `Timeouts.SessionsRefineHistory` | internal/repository/sqlite/store.go:1211-1275 | counter and timestamp refine the set of open sessions: the count is its size, idle_since is zero iff one is open, and otherwise the last instant it became empty |
| `Timeouts.DueForStopIffIdle` | internal/workspace/timeouts.go:50-58 | a running workspace is due for its idle stop iff no session was open and no start happened in the whole window |
| `Timeouts.EndKeepsCountIff` | internal/repository/sqlite/store.go:1236-1259 | a session end keeps a correct count correct iff the session is open or none is |
| `Timeouts.StaleEndStopsConnectedWorkspace` | internal/repository/sqlite/store.go:1236-1259 | the end of a session of an earlier run makes a connected workspace due for its stop |
| `Quota.AggregateLimit` | internal/quota/service.go:179-193 | the loop in int64 never overflows and returns 0 iff a zero comes before any prefix sum over the maximum, else the sum capped at the maximum |
| `Quota.AggregateOfFiniteLimits` | internal/quota/service.go:179-193 | without an unlimited group: the smaller of sum and maximum |
| `Quota.AggregateDependsOnOrderIff` | internal/quota/service.go:179-193 | the order of the groups matters iff one is unlimited and the sum exceeds the maximum |
| `Quota.Exceeds` | internal/quota/service.go:539-542 | the subtraction in int64 says exactly that the unbounded sum passes a positive limit, and what it says when the difference wraps |
| `Quota.ScaleCapacity` | internal/quota/service.go:529-538 | the product rounded down, or the int64 maximum; 0 for a factor or capacity that is not positive |
| `Quota.TotalUpdated` | internal/repository/sqlite/store.go:1302-1314 | changing one row changes a sum by the difference of its weights |
| `Quota.WorkspaceAllocations` | internal/repository/sqlite/store.go:1294-1314 | the four sums over all or over one owner's rows |
| `Quota.EffectiveQuota` | internal/quota/service.go:153-178 | a personal quota wins, else the groups' limits aggregate kind by kind, else none |
| `Quota.HostAvailable` | internal/quota/service.go:475-503 | the scaled host ceiling minus what runs, never below zero; unknown capacity and unrepresentable sums are errors |
| `Quota.Available` | internal/quota/service.go:392-431 | the lower of the host's and the quota's headroom; unknown users and sums outside int64 are errors |
| `Quota.CheckStart` | internal/quota/service.go:432-474 | for every int64 request: admitted iff user, quota and host pass the subtraction tests in int64; for a positive one, iff they leave room for it next to everything that runs |
| `Quota.CheckCreate` | internal/quota/service.go:339-391 | a creation is admitted iff request, user, workspace count, storage, quota and host allow it |
| `QuotaLaws.GroupQuotasAddUp` | internal/quota/service.go:153-178 | with only group quotas each of the five limits is that same limit of the groups, added up under its own maximum |
| `QuotaLaws.OneGroupDecides` | internal/quota/service.go:153-193 | with one group its quota is the user's |
| `QuotaLaws.PersonalQuotaWins` | internal/quota/service.go:153-167 | a personal quota stands as it is; without any there is none |
| `QuotaLaws.RowCounts` | internal/repository/sqlite/store.go:1294-1314 | a row counts as one workspace of its owner and, while it runs, as one running workspace, its CPU and its memory |
| `QuotaLaws.HostOffers` | internal/quota/service.go:475-503 | CPU and memory are each scaled by their own factor, rounded down and capped at the int64 maximum |
| `QuotaLaws.StartAdmittedIffFits` | internal/quota/service.go:432-474 | a start is admitted iff the rows with the workspace running stay inside the owner's limits and the host |
| `QuotaLaws.CreateAdmittedIffFits` | internal/quota/service.go:339-391 | a creation is admitted iff one more workspace, running, would stay inside the limits and the host, and measured storage is below its limit |
| `QuotaLaws.EmptyRequestRefused` | internal/quota/service.go:339-342 | a request that is not positive is refused |
| `QuotaLaws.AvailableDecidesStart` | internal/quota/service.go:392-431 | a start is admitted iff it asks for no more than what is shown as available and one more workspace may run |
| `Mounts.HostFiles.EnsureMountDirectories` | internal/workspace/mounts.go:157-212 | creates the missing mount directories in order, up to the one the system refuses |
| `Mounts.EnsureEntriesAdds` | internal/workspace/mounts.go:157-212 | existing content stays; only empty live directories of that workspace are added, and each directory mount has one |
| `Mounts.HostFiles.ArchiveMountDirectories` | internal/workspace/mounts.go:213-255 | moves the whole live directory, refuses to overwrite an archive, and treats a missing live directory as done |
| `Mounts.ArchiveMovesTree` | internal/workspace/mounts.go:213-255 | a successful archive holds entry by entry what the live tree held; other workspaces and other directories are untouched; nothing is lost |
| `Mounts.HostFiles.RemoveMountDirectories` | internal/workspace/mounts.go:416-439 | removes the live directory of a workspace with directory mounts |
| `Mounts.RemoveConservesIffEmpty` | internal/workspace/mounts.go:416-439 | that removal loses no data iff every live mount directory is empty |
| `Mounts.HostFiles.DiscardArchive` | internal/workspace/mounts.go:517-546 | removes exactly the archive of that workspace |
| `Mounts.PlanMoves` | internal/workspace/mounts.go:269-338 | plans one move per archived mount iff each has a directory mount of the same name |
| `Mounts.TemplateValidationSeparatesMoves` | internal/workspace/configuration.go:96-118 | distinct mount and managed names in both templates keep sources and destinations of a restore distinct |
| `Mounts.PerformMoves` | internal/workspace/mounts.go:269-338 | renames in order; at the first failure everything done is undone most recent first |
| `Mounts.RollbackMoves` | internal/workspace/mounts.go:334-350 | the loop that moves back computes the rollback |
| `Mounts.HostFiles.RestoreDirectoryMounts` | internal/workspace/mounts.go:269-338 | plan, check of the sources, moves and rollback together compute the restore |
| `Mounts.RestoreAllOrNothing` | internal/workspace/mounts.go:269-338 | for any number of mounts: success puts each content at its mount and changes nothing else; any failure at any index leaves the archive and all data as they were |
| `Mounts.RestoreSucceedsIff` | internal/workspace/mounts.go:269-338 | a restore succeeds iff every archived mount has a directory mount of its name, its content is there, its destination is an empty directory, and no call it makes fails |
| `Mounts.EnsureConserves` | internal/workspace/mounts.go:157-212 | creating mount directories keeps every content exactly as often as before |
| `Mounts.RestoreConserves` | internal/workspace/mounts.go:269-338 | a restore, successful or not, keeps every content exactly as often as before |
| `Service.WorkspaceService.StartWorkspace` | internal/workspace/workspace.go:629-743 | the whole new state of a start: admission, container, runtime start, row and session reset, with each failure exit |
| `Service.WorkspaceService.PrepareContainer` | internal/workspace/workspace.go:672-719 | directories and container; a refused creation clears the runtime ID and records the failure |
| `Service.WorkspaceService.Launch` | internal/workspace/workspace.go:720-743 | runtime start, lifecycle columns and session reset; the container-deletion time is written back unchanged |
| `Service.WorkspaceService.StopWorkspace` | internal/workspace/workspace.go:746-789 | the row as read before the locks is written back with the stop time |
| `Service.WorkspaceService.DeleteWorkspace` | internal/workspace/workspace.go:798-938 | both branches with every failure exit; the early branch keeps no volume tombstones |
| `Service.WorkspaceService.StoreDelete` | internal/repository/sqlite/store.go:845-886 | row, volume and directory tombstones in one transaction under the uniqueness constraints |
| `Service.WorkspaceService.RetainedVolumes` | internal/workspace/workspace.go:940-966 | one tombstone per volume mount, under the managed name of the deleted workspace |
| `Service.WorkspaceService.TimeOutOne` | internal/workspace/workspace.go:1226-1314 | one row of the timeout loop: stop, removal or nothing, acting on the listed row |
| `Service.WorkspaceService.RunTimeouts` | internal/workspace/workspace.go:1216-1322 | the loop over the listed rows: a row whose lock is not free is skipped, an ended context ends the pass, failures are counted |
| `Service.WorkspaceService.Reconcile` | internal/workspace/workspace.go:1343-1390 | every row becomes what the observation makes of it |
| `Service.WorkspaceService.ConsumeReattachedVolumes` | internal/workspace/workspace.go:272-295 | tombstones are consumed one after the other and stay consumed after a failure |
| `Service.WorkspaceService.CreateWorkspace` | internal/workspace/workspace.go:94-240 | checks, claims and construction with the clean-up of every failure exit |
| `Service.WorkspaceService.BuildWorkspace` | internal/workspace/workspace.go:156-225 | directories, row, ports, restore and start; restored directories are not removed again |
| `Service.WorkspaceService.DeleteRetainedDirectory` | internal/workspace/mounts.go:517-546 | the archive goes first, then its tombstone |
| `Service.WorkspaceService.RecordConnection` | internal/workspace/workspace.go:1003-1021 | a session is counted only for a running workspace |
| `Service.WorkspaceService.RecordSessionEnd` | internal/repository/sqlite/store.go:1236-1259 | both columns computed from the old count |
| `Service.WorkspaceService.RemoveContainer` | internal/workspace/workspace.go:871-876 | a missing container is no error, a running one is not removed |
| `Effects.StartEffect` | internal/workspace/workspace.go:644-745 | the start succeeds iff the row says running; otherwise nothing was created or a container waits; other rows, tombstones and volumes are untouched |
| `Effects.CreateEffect` | internal/workspace/workspace.go:94-240 | a creation leaves rows and containers as they were or adds one row, and at most one container, for the new ID, if it was admitted |
| `Effects.DeleteEffect` | internal/workspace/workspace.go:798-938 | the row goes only together with its tombstones and after the archive; a container is only removed when stopped |
| `Outcomes.EnsureSucceedsIff` | internal/workspace/mounts.go:157-212 | the directories are created unless the system refuses one of them |
| `Outcomes.ArchiveSucceedsIff` | internal/workspace/mounts.go:213-255 | archiving fails iff an archive is there already or the rename fails |
| `Outcomes.DiscardTakesArchive` | internal/workspace/mounts.go:517-546 | discarding succeeds iff the tombstone is the owner's and the removal works, and takes the archive and nothing else |
| `Outcomes.StartSucceedsIff` | internal/workspace/workspace.go:664-743 | an admitted start succeeds iff the row says running, or its container can be made and started, or its container is there under its handle and starts |
| `Outcomes.StartedRuns` | internal/workspace/workspace.go:720-743 | after it the container runs under the row's handle, the clocks are set and nobody is connected |
| `Outcomes.StartOperationSucceedsIff` | internal/workspace/workspace.go:644-743 | the whole operation succeeds iff the row exists, is running or admitted, and the above holds |
| `Outcomes.StopSucceedsIff` | internal/workspace/workspace.go:746-789 | a stop succeeds iff there is nothing to stop or the runtime stops the container by its handle |
| `Outcomes.StoppedStands` | internal/workspace/workspace.go:765-789 | after a successful one the container is stopped and the row says so, with nothing else changed |
| `Outcomes.IdleTimeoutStops` | internal/workspace/workspace.go:1231-1268 | a row whose idle window is over is stopped iff its container is there under its handle and the runtime stops it |
| `Outcomes.RetentionTimeoutRemoves` | internal/workspace/workspace.go:1269-1297 | a row whose retention is over loses its container unless that runs; a missing one counts as removed |
| `Outcomes.NothingDue` | internal/workspace/timeouts.go:32-60 | a row with neither window over is left alone |
| `Outcomes.ReconciledTimes` | internal/workspace/workspace.go:1376-1390 | start and stop times come from the observation, and from the inspection only when it has none |
| `Outcomes.VolumeTombsAreForMounts` | internal/workspace/workspace.go:940-966 | tombstones exist for exactly the volume mounts, under the deleted workspace's own volume names |
| `Outcomes.TombstonesAreNew` | internal/repository/sqlite/store.go:845-886 | the constraints are met iff no tombstone has one of these places, volumes or archives yet |
| `Outcomes.DeletionSucceedsIff` | internal/workspace/workspace.go:798-938 | a deletion succeeds iff the workspace exists and does not run, no call fails, its directory can be archived and its tombstones are new |
| `Outcomes.DeletedLeavesTombstones` | internal/workspace/workspace.go:940-1002 | after it every volume mount of a workspace with a container and every directory mount has its tombstone, and the row is gone |
| `Creation.ClaimsSucceedIff` | internal/workspace/workspace.go:272-295 | the claims succeed iff every requested volume exists, is the owner's and has its tombstone |
| `Creation.ClaimedTombsAreGone` | internal/repository/sqlite/store.go:995-1010 | they take exactly the tombstones they name |
| `Creation.ClaimedVolume` | internal/workspace/workspace.go:285-294 | each requested mount gets the volume of its tombstone, other mounts none |
| `Creation.MountGetsVolume` | internal/workspace/mounts.go:132-142 | a volume mount holds the volume taken over for it, or else one of the workspace's own |
| `Creation.StartAttaches` | internal/workspace/workspace.go:1423-1460 | a container made by a start has exactly its volume mounts, each so filled; one that is there keeps its volumes |
| `Creation.InsertSucceedsIff` | internal/workspace/workspace.go:156-215 | directories, row, ports and restore succeed iff no call fails and the retained directories are the owner's and fit |
| `Creation.CreationSucceedsIff` | internal/workspace/workspace.go:94-240 | a creation succeeds iff the requests fit the template, it is admitted, its name is new, the claims, directories, row, ports and restore succeed and, if it takes volumes over, it starts |
| `Creation.ReattachedVolumesAttach` | internal/workspace/workspace.go:152-225 | after a successful creation the running container holds at each requested mount the volume of its tombstone, which is gone, and elsewhere its own |
| `Creation.ReattachedDirectoriesReturn` | internal/workspace/workspace.go:190-214 | after a successful creation every archived content is in the mount of the same name, and archive entry and tombstone are gone |
| `Creation.FailedCreationCleansUp` | internal/workspace/workspace.go:178-225 | a creation that fails later leaves its directory iff archived content was restored into it |
| `Runs.StepEvolvesRows` | internal/repository/sqlite/store.go:1160-1209 | no step changes owner, name, mounts, resources or timeouts of a row, and only a creation adds one |
| `Runs.StepKeepsConsistent` | internal/workspace/workspace.go:752-760 | rows read before the locks agree with the stored ones in those columns, over every step |
| `Runs.PassIsTimeoutSteps` | internal/workspace/workspace.go:1216-1322 | a pass is the single timeout steps of the rows whose lock it got, up to the end of its context |
| `LifecycleInvariant.RunsAreSafe` | internal/workspace/workspace.go:721-738 | every run keeps: running implies no stop time, a start time and a runtime ID; stopped implies a stop time; also for every outdated snapshot |
| `LifecycleInvariant.TimeoutsAreExclusive` | internal/workspace/timeouts.go:32-60 | under the invariant the two timeouts exclude each other and each is due iff its own window is over |
| `LifecycleInvariant.InvariantNeededForIdleStop` | internal/workspace/timeouts.go:32-60 | exactly when a row that breaks the invariant would hide a due stop |
| `LifecycleInvariant.TimeoutCutsOffIff` | internal/workspace/workspace.go:1231-1268 | a timeout takes a running container out of service iff the listed row was due for its stop and its handle is the container's |
| `LifecycleInvariant.TimeoutsSpareBusyWorkspaces` | internal/workspace/workspace.go:1226-1314 | no step removes a running container, and in any run a timeout stops a workspace that is not idle iff the listed row was due, its handle fits, and evaluating the stored row again would not give a stop |
| `LifecycleInvariant.StaleTimeoutStopsConnectedWorkspace` | internal/workspace/workspace.go:1221-1239 | a connection between listing and lock is cut: the row is not read again |
| `LifecycleInvariant.TimeoutDeleteSpendsRetention` | internal/workspace/workspace.go:1269-1297 | after the retention timeout removed a container no snapshot from before can write to the row through it |
| `LifecycleInvariant.RetentionTimeoutFiresOnce` | internal/workspace/workspace.go:721-738 | from then on, in every run, the workspace is never due for deletion again |
| `Orphans.DeleteOrphansIff` | internal/workspace/workspace.go:798-938 | a deletion that succeeds leaves a running container behind iff the row it read has no container, says it is removed or missing, or has another handle |
| `Orphans.CurrentDeleteOrphansIff` | internal/workspace/workspace.go:871-876 | with a current row every running container is left behind, and the record of the workspace was wrong |
| `Orphans.StaleDeleteOrphansContainer` | internal/workspace/workspace.go:798-869 | a run: the row was read before the first start |
| `Orphans.MissingRowOrphansContainer` | internal/workspace/workspace.go:1343-1375 | a run: one reconciliation misses the container, and the current row is deleted |
| `Orphans.RecreatedContainerIsOrphaned` | internal/workspace/workspace.go:871-876 | the container was created again under another handle after the row was read |
| `SessionRuns.ColumnsFollowHistory` | internal/repository/sqlite/store.go:1211-1275 | in every run, whatever else happens to the row, its session columns are those of its history of starts, connections and disconnects |
| `SessionRuns.StopIsDueIffIdleInRun` | internal/workspace/timeouts.go:50-58 | in every run a stored running row is due for its stop iff no session was open and no start happened during the whole window |
| `Admission.RunsStayWithinLimits` | internal/quota/service.go:339-502 | over every run in which no timeout hides a running workspace and reconciliation sees what runs, the running CPU and memory sums stay within the scaled host, and every owner with a quota within each non-zero limit |
| `Admission.TimeoutKeepsRecordedIff` | internal/workspace/workspace.go:1269-1297 | a timeout keeps every running workspace on record iff it does not remove a container by an outdated handle while the workspace runs under another |
| `Admission.StartStaysBounded` | internal/quota/service.go:432-474 | an admitted start keeps all sums within their limits |
| `Admission.CreateStaysBounded` | internal/quota/service.go:339-391 | an admitted creation keeps all sums and counts within their limits |
| `Admission.ReconcileKeepsRecorded` | internal/workspace/workspace.go:1343-1390 | a truthful reconciliation finds no workspace running that was not admitted |
| `Admission.InitiallyAccounted` | internal/quota/service.go:339-502 | the empty control plane is within all limits |
| `OutdatedTimeouts.HiddenWorkspaceIsNotCounted` | internal/workspace/workspace.go:1269-1297 | a timeout that hides a running workspace succeeds and takes its share out of the sums |
| `OutdatedTimeouts.HiddenWorkspaceReturnsUnchecked` | internal/workspace/workspace.go:1376-1390 | reconciliation adds that share again without a check |
| `OutdatedTimeouts.OutdatedTimeoutBreaksHostBound` | internal/workspace/workspace.go:1269-1297 | a run from the empty control plane, for any two requests that fit the host one by one and not together: with that single step it ends above the host's capacity |
| `Conservation.CreateConserves` | internal/workspace/workspace.go:156-225 | at every exit of a creation every content exists exactly as often as before |
| `Conservation.StepConserves` | internal/workspace/mounts.go:213-255 | so at every exit of every step that neither writes nor discards the content |
| `Conservation.RunsConserveData` | internal/workspace/workspace.go:147-151 | over every run a content stays stored equally often unless its owner overwrites, copies or explicitly discards it |
| `VolumeExclusivity.ClaimTakes` | internal/repository/sqlite/store.go:995-1010 | consumed tombstones are gone and give pairwise distinct volumes |
| `VolumeExclusivity.NewContainerAttachesCleanly` | internal/workspace/mounts.go:132-142 | a new container attaches its own volumes or taken-over ones, each once |
| `VolumeExclusivity.RunsKeepVolumesExclusive` | internal/workspace/workspace.go:272-295 | in every reachable state a volume name is held by at most one tombstone or one mount of a live workspace |
| `VolumeExclusivity.VolumesAreNeverDeleted` | internal/workspace/workspace.go:189-195 | no step deletes a volume |
| `VolumeReturn.RunsKeepOwnNamed` | internal/workspace/mounts.go:116-118 | in every reachable state a volume of a workspace's own stands at the mount it was made for |
| `VolumeReturn.DeletedVolumeIsRetainedIff` | internal/workspace/workspace.go:940-966 | an attached volume has a tombstone after the deletion iff the workspace made it itself and the deletion knew of a container |
| `VolumeReturn.TakenVolumeIsForeign` | internal/workspace/workspace.go:285-294 | a volume that a creation takes over was made by the workspace of the request, not by the new one |
| `VolumeReturn.RecreatedVolumeReturnsIff` | internal/workspace/workspace.go:680-705 | a container made again holds what the old one held iff that was the workspace's own |
| `VolumeReturn.RetentionStrandsTakenVolume` | internal/workspace/workspace.go:1269-1297 | a run: after the retention timeout and the next start nobody can reach a volume that was taken over |
| `WorkspaceNames.RunsKeepNamesUnique` | internal/workspace/workspace.go:137-141 | in every state of every run an owner's workspace names differ |
| `DeleteRetry.CreateLeavesOthers` | internal/workspace/workspace.go:156-225 | a creation leaves both directories of every other workspace alone, except the archive it reattaches |
| `DeleteRetry.DeleteSucceedsIffDeletable` | internal/workspace/workspace.go:798-938 | in a reachable state a fault-free deletion succeeds iff the workspace is not running and live and archived directory do not both exist; the tombstone constraints never block it |
| `DeleteRetry.DeletionIsRetrySafe` | internal/workspace/workspace.go:798-938 | after any failed attempts and any other operations a fault-free attempt succeeds, and ends with one tombstone whose archive holds the original content |
| `DeleteRetry.FileAccessBlocksDeletion` | internal/workspace/mounts.go:213-255 | file access after the archive recreates the live directory and every later attempt fails, without loss |
| `Reconciliation.ValidateObservations` | internal/runtime/inspection.go:51-67 | accepted iff no ID is empty and neither kind of ID repeats |
| `Reconciliation.IndexObservations` | internal/workspace/workspace.go:1352-1355 | the map by workspace loses nothing |
| `Reconciliation.OrderIsIrrelevant` | internal/runtime/inspection.go:43-48 | the order of the observations does not matter |
| `Reconciliation.PassAgreesWithRuntime` | internal/workspace/workspace.go:1361-1390 | after a pass a row is as observed, missing, or untouched; desired state and session columns never change |
| `Reconciliation.PassIsIdempotent` | internal/workspace/workspace.go:1361-1390 | a second pass with the same observations changes nothing |
| `StorageCache.StorageUsageProvider.Look` | internal/workspace/storage.go:46-79 | the section up to the measurement: hit, wait, or a new entry with at most one eviction |
| `StorageCache.StorageUsageProvider.EvictOne` | internal/workspace/storage.go:70-77 | the first completed entry in iteration order goes, if there is one |
| `StorageCache.StorageUsageProvider.Finish` | internal/workspace/storage.go:81-95 | publishes the result; a cancelled one leaves the cache if it is still there |
| `StorageCache.RunsKeepCacheSound` | internal/workspace/storage.go:41-100 | any interleaving: results are the caller's own and fresh, channels close once, the size stays within the larger of 1024 and the peak of simultaneous measurements |
| `StorageCache.ServedIsFresh` | internal/workspace/storage.go:53-68 | a cached result has the caller's fingerprint, is younger than its lifetime and was not cancelled |
| `StorageCache.LookServesIff` | internal/workspace/storage.go:46-79 | served iff the entry has the fingerprint and is younger than 30 seconds, or 5 for a failure; waits iff it is under measurement; else measures |
| `StorageCache.MeasuredIsServed` | internal/workspace/storage.go:81-95 | a published result is served to the next caller with that fingerprint in time |
| `StorageCache.WaitersAreWoken` | internal/workspace/storage.go:54-62 | a waiter can go on at once or after one step of the caller measuring its entry |
| `StorageCache.SingleFlightKeptIff` | internal/workspace/storage.go:46-95 | a step ends the single flight of a workspace iff it asks with another fingerprint during a measurement |
| `StorageCache.RunsMeasureOnce` | internal/workspace/storage.go:41-100 | without such a request at most one measurement of a workspace is under way in any state of any run |
| `StorageCache.SecondFlightIff` | internal/workspace/storage.go:53-79 | while an entry measures a request, the request is measured again iff the cached entry is for another fingerprint or expired; with no other entry for it, iff the cache no longer holds that entry |
| `StorageCache.FingerprintChangeOverlapsFlights` | internal/workspace/storage.go:53-79 | a fingerprint that changes and changes back makes one request be measured twice at once |
| `Locks.WorkspaceLocks.Acquire` | internal/workspace/file_access.go:20-31 | takes the free slot or gives up when the context has ended |
| `Locks.WorkspaceLocks.BeginFileAccess` | internal/workspace/file_access.go:32-50 | keeps the lock only for a workspace in a state with files; every refusal frees it |
| `Locks.StepKeepsInv` | internal/workspace/workspace.go:629-656 | each lock is held by exactly the operation whose phase says so |
| `Locks.MutualExclusion` | internal/workspace/file_access.go:9-53 | one operation past admission; file streams and lifecycle bodies of a workspace never overlap |
| `Locks.StuckOnlyInDeadlock` | internal/workspace/workspace.go:754-760 | without cancellation nothing can move only if a start and a change of one workspace hold what the other needs |
| `Locks.DeadlockPersists` | internal/workspace/workspace.go:806-812 | nothing but cancelling the start ends that deadlock, and nobody is admitted meanwhile |
| `Locks.DeadlockIsReachable` | internal/workspace/workspace.go:629-656 | one start and one stop of the same workspace reach it |
| `Locks.EverythingCanFinish` | internal/workspace/file_access.go:20-31 | with cancellation of the wait as a step all pending operations can finish, in bounded steps |
| `Outbox.EmailStore.UpsertEmailMessage` | internal/repository/sqlite/store.go:1482-1516 | updates the row with the same key, starting over iff body or recipient changed, else inserts |
| `Outbox.EmailStore.ListPending` | internal/repository/sqlite/store.go:1518-1549 | exactly the first due rows by next attempt and ID, up to the limit |
| `Outbox.EmailStore.DeliverMessage` | internal/notifications/service.go:177-203 | one message: dropped, sent, failed with the fifth failure cancelling, or aborted |
| `Outbox.EmailStore.Deliver` | internal/notifications/service.go:166-208 | a pass over one batch |
| `Outbox.EmailStore.CancelForWorkspace` | internal/repository/sqlite/store.go:1595-1602 | cancels the pending rows whose key matches the prefix |
| `OutboxRuns.RunsKeepOutboxBounds` | internal/notifications/service.go:166-208 | under any interleaving a pending row has fewer than 5 attempts, and each content version is tried at most 5 times and sent at most once |
| `OutboxRuns.FinalUntilContentChanges` | internal/repository/sqlite/store.go:1495-1516 | a sent or canceled row stays so until body or recipient changes |
| `OutboxRuns.SentMeansPresentContentIff` | internal/notifications/service.go:172-203 | a row marked sent had its present content accepted, exactly once, iff nothing replaced the content since it was listed |
| `OutboxRuns.SentRowsWereSent` | internal/notifications/service.go:166-208 | in a run that replaces no content while a pass has it listed, this holds of every row marked sent |
| `OutboxRuns.NewContentMarkedSentUnsent` | internal/notifications/service.go:172-203 | content queued between listing and sending is marked sent without having been tried |
| `OutboxRuns.QueueDrains` | internal/notifications/service.go:166-208 | with no new mail, passes one retry interval apart empty a queue of any length |
| `DeliveryRuns.QueuedIsPending` | internal/repository/sqlite/store.go:1482-1516 | a draft that differs from what is queued under its key leaves one untried pending row, due at its time |
| `DeliveryRuns.RequeuedKeepsProgress` | internal/repository/sqlite/store.go:1482-1516 | the same content queued again keeps status and attempts |
| `DeliveryRuns.DeliveryOutcome` | internal/notifications/service.go:177-203 | accepted: sent; refused: one attempt more and due after the retry interval, pending up to the fourth refusal and canceled at the fifth; not current: canceled |
| `DeliveryRuns.CancelEndsPending` | internal/repository/sqlite/store.go:1595-1602 | a cancellation ends exactly the pending rows it names |
| `DeliveryRuns.MessageIsRetried` | internal/notifications/service.go:166-208 | over any run that leaves it undisturbed a message is pending with as many attempts as refusals, canceled at the fifth, and sent once accepted |
| `DeliveryRuns.SentAfterFourRefusals` | internal/notifications/service.go:187-203 | one refused four times and then accepted is sent |
| `OutboxRuns.KeyRoundTrip` | internal/notifications/service.go:210-226 | a built dedupe key parses back to its workspace |
| `OutboxRuns.ParsedKeysHaveTheForm` | internal/notifications/service.go:216-226 | only keys of that form parse |
| `OutboxRuns.CancellationReachesIff` | internal/repository/sqlite/store.go:1589-1602 | the prefix match reaches another workspace iff the IDs differ in the case of letters only |
| `Warnings.StopWarningCurrentIff` | internal/notifications/service.go:228-261 | a stop warning goes out iff the workspace runs with its idle clock ticking and the owner is reachable at that address |
| `Warnings.DeleteWarningCurrentIff` | internal/notifications/service.go:228-261 | a deletion warning goes out iff the retention period of a stopped container runs or is over |
| `Warnings.MovedDeadlineStaysCurrent` | internal/notifications/service.go:253-260 | a moved deadline is not noticed |
| `Accounts.AccountStore.EmailAvailable` | internal/auth/service.go:861-874 | while addresses are unique: available iff blank or held by nobody else, whatever the case |
| `Accounts.AccountStore.ValidateImportInputs` | internal/auth/import.go:176-236 | accepted iff the rows are valid, names and addresses do not repeat, and each address is free for its target |
| `Accounts.AccountStore.PlanImport` | internal/auth/import.go:85-150 | a checked batch becomes one entry per row: a new address for the account of that name, or a new account |
| `Accounts.AccountStore.ImportUsers` | internal/repository/sqlite/store.go:101-141 | every entry is stored, or none |
| `Accounts.AccountStore.Store` | internal/repository/sqlite/store.go:106-126 | an entry fails iff its ID or name is taken, or the account to update is gone; a blank address keeps the old one |
| `Accounts.AccountStore.PrepareUser` | internal/auth/service.go:723-753 | accepted iff valid, the name unknown and the address free |
| `Accounts.AccountStore.CheckProfile` | internal/auth/service.go:523-543 | accepted iff administered, valid and free |
| `Accounts.AccountStore.CheckDisable` | internal/auth/service.go:593-612 | an administrator other than the target decides alone: the count of administrators never refuses |
| `Accounts.AccountStore.CheckDelete` | internal/auth/service.go:624-648 | only a disabled account without workspaces, never one's own |
| `Accounts.AccountStore.StoreProfile` | internal/repository/sqlite/store.go:177-210 | sets the address of that account, or finds none |
| `Accounts.AccountStore.StoreDisabled` | internal/repository/sqlite/store.go:303-330 | sets the flag of that account, or finds none |
| `Accounts.AccountStore.StoreDelete` | internal/repository/sqlite/store.go:331-345 | removes that account, or finds none |
| `AccountRuns.BatchLeaves` | internal/repository/sqlite/store.go:101-141 | a stored batch adds its new accounts, changes nothing but the addresses it names, and repeats no username |
| `AccountRuns.WhoMayWrite` | internal/auth/service.go:698-711 | only an active administrator without a pending password change, and never against the own account |
| `AccountRuns.WriteKeepsEmailsIff` | internal/auth/service.go:523-556 | whatever was checked before, a write keeps addresses unique iff each one it gives out is held by nobody who keeps it when it takes effect |
| `AccountRuns.RegistrationKeepsEmailsIff` | internal/auth/service.go:342-381 | an insert keeps them unique iff the address is blank or still free |
| `AccountRuns.WriteKeepsAdministratorIff` | internal/auth/service.go:593-657 | a write keeps an active administrator iff, when it disables or deletes, another one is left |
| `AccountRuns.CheckedWriteMeets` | internal/auth/import.go:85-175 | a write that meets the accounts it was checked against goes through and meets both conditions |
| `AccountRuns.RunsKeepAccountsValidIff` | internal/auth/service.go:506-657 | over any interleaving of checks and writes: usernames stay unique, and addresses stay unique and an administrator active iff every write meets its conditions |
| `AccountRuns.FirstStepBootstraps` | internal/auth/service.go:157-171 | the empty store takes only the first administrator |
| `AccountRuns.UndisturbedRequestKeepsSound` | internal/auth/service.go:506-522 | a request whose write follows its check undisturbed always does |
| `AccountRuns.SimultaneousRegistrationsShareAddress` | internal/auth/service.go:723-753 | two registrations checked before either is written share one address |
| `AccountRuns.SimultaneousDisablesLeaveNone` | internal/auth/service.go:593-623 | the last two administrators disable each other |
| `Credentials.CredentialStore.Issue` | internal/repository/sqlite/store.go:1133-1158 | replaces the token of that account and purpose and cancels its mail |
| `Credentials.CredentialStore.QueueLink` | internal/notifications/service.go:82-104 | a pending message with the link, queued after the token was stored |
| `Credentials.CredentialStore.ResetPasswordUsingToken` | internal/repository/sqlite/store.go:257-302 | password, sessions and all links in one transaction, or nothing |
| `Credentials.CredentialStore.ChangePassword` | internal/auth/service.go:212-235 | password and links; sessions stay |
| `Credentials.CredentialStore.ReplaceCredential` | internal/auth/service.go:846-860 | password to be changed, no session, no link |
| `Credentials.CredentialStore.UpdateProfile` | internal/repository/sqlite/store.go:177-210 | a changed address takes the links with it |
| `Credentials.RunsKeepCredentialsSound` | internal/repository/sqlite/store.go:230-240 | over any interleaving of statements: one token per account and purpose, each used at most once, and mail carries a token issued for its recipient |
| `Credentials.PendingMailIsLiveKeptIff` | internal/repository/sqlite/store.go:1133-1158 | pending mail carries a live token, except exactly after a token died before its mail was queued, or mail was queued while its account was being deleted |
| `Credentials.OrderlyRunsMailLiveLinks` | internal/auth/service.go:249-281 | a run without these two orders mails no dead link |
| `Credentials.SupersededLinkIsMailed` | internal/web/server.go:751-754 | two requests for a link: the mail of the superseded one is queued after it |
| `Credentials.PasswordChangeRetiresLinks` | internal/repository/sqlite/store.go:257-302 | by whatever route the password is set, its last statement leaves no token and no pending link of the account |
| `Credentials.OldLinksWorkUntilRetired` | internal/auth/service.go:846-860 | until that statement every link works as before and overrides the new password |
| `Credentials.LinkWorksUntilExpiry` | internal/repository/sqlite/store.go:257-302 | an issued link sets the password, and takes sessions and links with it, iff it is used for its purpose and enabled account before its expiry |
| `Credentials.ExpiredLinkChangesNothing` | internal/repository/sqlite/store.go:257-302 | a link whose expiry is reached changes nothing |
| `Credentials.OldLinksNeverWorkAgain` | internal/repository/sqlite/store.go:211-229 | after it a link issued before never works again |
| `Credentials.ChangeSucceedsIff` | internal/auth/service.go:212-221 | a change needs an enabled account and the current password, a replacement an enabled account; otherwise nothing changes |
| `Credentials.OperationsAreStatements` | internal/auth/service.go:212-235 | the two operations are these statements in a row |
| `Credentials.NoSessionOfDisabledKeptIff` | internal/auth/service.go:172-197 | a disabled account gets a session row iff its sign-in was checked before and stored after the disabling |
| `Credentials.DisabledAccountsAreSignedOut` | internal/repository/sqlite/store.go:472-484 | no session signs in a disabled account |
| `Credentials.LinksFollowAddressKeptIff` | internal/repository/sqlite/store.go:101-141 | live links go to the present address, except exactly after an import that changes the address of an account with one, or an issue for an address read before it changed |
| `Placeholders.FindPlaceholders` | internal/workspace/configuration.go:158-160 | the leftmost matches of the pattern in order |
| `Placeholders.Substitute` | internal/workspace/configuration.go:386-393 | one pass over the matches |
| `Placeholders.ResolveValue` | internal/workspace/configuration.go:386-403 | the pass, then the checks for unknown names, control characters and length |
| `Placeholders.RenderParse` | internal/workspace/configuration.go:386-393 | matches and the text between them are the whole value |
| `Placeholders.InsertedVerbatim` | internal/workspace/configuration.go:386-393 | inserted text stands in the result unexpanded and does not influence the rest |
| `Placeholders.LeftoversAreUnknown` | internal/workspace/configuration.go:394-398 | after the pass exactly the unknown names are left |
| `Placeholders.ResolvesIff` | internal/workspace/configuration.go:386-403 | with paired braces and plain values a value resolves iff all names are known and the result is short enough |
| `Placeholders.PlaceholderInValueFails` | internal/workspace/configuration.go:394-398 | a value that itself reads like an unknown placeholder makes resolution fail |
| `Configuration.ValidateMounts` | internal/workspace/configuration.go:96-118 | accepted iff at most 16 well-formed mounts whose names and managed names are distinct |
| `Configuration.ValidPlaceholders` | internal/workspace/configuration.go:140-180 | accepted iff the brace pairs balance and every name is accepted |
| `Configuration.BuildValues` | internal/workspace/configuration.go:238-257 | values exist for exactly the fixed names and those of ports, secrets and mounts, and fixed names keep their values |
| `Configuration.AcceptedHasValueIff` | internal/workspace/configuration.go:140-180 | an accepted name has a value unless stripping prefix and suffix overlapped |
| `Configuration.AcceptedValueResolves` | internal/workspace/configuration.go:386-403 | an accepted value resolves with no placeholder left iff no name overlaps and the result is at most 8192 bytes |
| `Configuration.MountNamedPathNeverResolves` | internal/workspace/configuration.go:167-171 | with a mount named "path" its placeholder is accepted and never resolves |
| `LogStream.DemuxLogStream` | internal/runtime/podman/podman.go:295-316 | the loop over frames and lines |
| `LogStream.DemuxInvertsFraming` | internal/runtime/podman/podman.go:295-316 | for every list of frames the result is their lines in order |
| `LogStream.LinesArePieces` | internal/runtime/podman/podman.go:305-312 | trimming and splitting give the non-empty newline-separated pieces |
| `LogStream.TruncatedStream` | internal/runtime/podman/podman.go:289-303 | any byte prefix gives a prefix of the result with at most the last line shortened |

## Left out

- Authorization of actors and template access in the workspace operations, audit events, operation progress columns and ports of running services: they would only add fields that nothing here depends on.
- The name and resource-range checks at the start of a creation; its CPU and memory are any int64 values.
- Private networks: their calls are folded into the oracle flags of start and delete.
- SQL, JSON encoding, migrations, HTTP, exec and terminal streams, SMTP and the file helper process.
- Measuring storage for a creation: its outcome is an argument of `CheckCreate`.
- A mount root or archive root that is not configured; both are taken as set.
- A rename that fails while a restore is being undone; the code then still deletes the new tree.
- A row whose template revision is 0, which reads its configuration from the template instead of the snapshot.
- IEEE rounding in the host factors and overflow of durations.
- Case folding outside ASCII, and what a mail address parser accepts, which is an argument.
- The sort of the observations: `OrderIsIrrelevant` shows that it has no effect on reconciliation.
- Lead times and texts of warnings, and the loop that queues them; the re-check before delivery is modelled.
- Log timestamps (parseLogLines), the validation of commands, environment, secrets and services of a template, and the reservation of ports.
- A container that goes on writing into an archived directory: `RunsConserveData` lets only known workspaces write, into their live directories.
- Reconciliation in the middle of another operation, and admission when it is.
- RunsStayWithinLimits: sums are those over workspace rows; an orphaned container, which has no row, is not counted, as in the code.
