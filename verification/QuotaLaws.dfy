/** What quotas, sums and admission mean in the fields of the records: each limit
    bounds its own amount, and a start or a creation is admitted exactly when what
    it leads to stays inside every limit and the scaled host. */
module QuotaLaws {
  import opened Domain
  import opened Quota

  // ---------------------------------------------------------------------
  // Group quotas

  /** Every limit of a user who has only group quotas is that limit of the groups
      added up, under its own maximum. */
  lemma GroupQuotasAddUp(c: Config, user: string)
    requires user !in c.userQuotas && user in c.groupQuotas && c.groupQuotas[user] != []
    ensures var groups := c.groupQuotas[user];
            QuotaOf(c, user).Some? &&
            var q := QuotaOf(c, user).value;
            && q.maxCpu as int == Aggregate(seq(|groups|, i requires 0 <= i < |groups| => groups[i].maxCpu), 1_000_000)
            && q.maxMemory as int == Aggregate(seq(|groups|, i requires 0 <= i < |groups| => groups[i].maxMemory), 1_125_899_906_842_624)
            && q.maxStorage as int == Aggregate(seq(|groups|, i requires 0 <= i < |groups| => groups[i].maxStorage), 1_152_921_504_606_846_976)
            && q.maxWorkspaces as int == Aggregate(seq(|groups|, i requires 0 <= i < |groups| => groups[i].maxWorkspaces), 1_000_000)
            && q.maxRunning as int == Aggregate(seq(|groups|, i requires 0 <= i < |groups| => groups[i].maxRunning), 1_000_000)
  {
    var groups := c.groupQuotas[user];
    assert LimitsOf(groups, CpuLimit) == seq(|groups|, i requires 0 <= i < |groups| => groups[i].maxCpu);
    assert LimitsOf(groups, MemoryLimit) == seq(|groups|, i requires 0 <= i < |groups| => groups[i].maxMemory);
    assert LimitsOf(groups, StorageLimit) == seq(|groups|, i requires 0 <= i < |groups| => groups[i].maxStorage);
    assert LimitsOf(groups, WorkspaceLimit) == seq(|groups|, i requires 0 <= i < |groups| => groups[i].maxWorkspaces);
    assert LimitsOf(groups, RunningLimit) == seq(|groups|, i requires 0 <= i < |groups| => groups[i].maxRunning);
  }

  lemma AggregateOfOne(limit: int64, maximum: int64)
    requires 0 <= limit <= maximum && 0 < maximum
    ensures Aggregate([limit], maximum) == limit as int
  {
    assert [limit][..0] == [];
    assert Sum([limit]) == limit as int;
    if limit == 0 {
      assert ZeroReached([limit], maximum);
    }
  }

  /** One group's quota is the user's, unlimited limits included. */
  lemma OneGroupDecides(c: Config, user: string)
    requires user !in c.userQuotas && user in c.groupQuotas && |c.groupQuotas[user]| == 1
    ensures QuotaOf(c, user) == Some(c.groupQuotas[user][0])
  {
    var q := c.groupQuotas[user][0];
    GroupQuotasAddUp(c, user);
    assert ValidQuota(q);
    assert seq(1, i requires 0 <= i < 1 => c.groupQuotas[user][i].maxCpu) == [q.maxCpu];
    assert seq(1, i requires 0 <= i < 1 => c.groupQuotas[user][i].maxMemory) == [q.maxMemory];
    assert seq(1, i requires 0 <= i < 1 => c.groupQuotas[user][i].maxStorage) == [q.maxStorage];
    assert seq(1, i requires 0 <= i < 1 => c.groupQuotas[user][i].maxWorkspaces) == [q.maxWorkspaces];
    assert seq(1, i requires 0 <= i < 1 => c.groupQuotas[user][i].maxRunning) == [q.maxRunning];
    AggregateOfOne(q.maxCpu, 1_000_000);
    AggregateOfOne(q.maxMemory, 1_125_899_906_842_624);
    AggregateOfOne(q.maxStorage, 1_152_921_504_606_846_976);
    AggregateOfOne(q.maxWorkspaces, 1_000_000);
    AggregateOfOne(q.maxRunning, 1_000_000);
  }

  /** A personal quota stands as it is, and without any there is none. */
  lemma PersonalQuotaWins(c: Config, user: string)
    ensures user in c.userQuotas ==> QuotaOf(c, user) == Some(c.userQuotas[user])
    ensures user !in c.userQuotas && (user !in c.groupQuotas || c.groupQuotas[user] == []) ==> QuotaOf(c, user) == None
  {
  }

  // ---------------------------------------------------------------------
  // Sums

  /** One more row adds itself to its owner's and to everybody's sums: one
      workspace, and when it runs one running workspace, its CPU and its memory. */
  lemma RowCounts(rows: map<string, Workspace>, id: string, w: Workspace, user: string)
    requires id !in rows
    ensures var before, after := AllocationsOf(rows, AllOwners), AllocationsOf(rows[id := w], AllOwners);
            after == if w.observed == Running
                     then Allocations(before.workspaces + 1, before.running + 1, before.cpu + w.cpu, before.memory + w.memory)
                     else before.(workspaces := before.workspaces + 1)
    ensures var before, after := AllocationsOf(rows, OwnedBy(user)), AllocationsOf(rows[id := w], OwnedBy(user));
            after == if w.owner != user then before
                     else if w.observed == Running
                     then Allocations(before.workspaces + 1, before.running + 1, before.cpu + w.cpu, before.memory + w.memory)
                     else before.(workspaces := before.workspaces + 1)
    ensures AllocationsOf(map[], AllOwners) == AllocationsOf(map[], OwnedBy(user)) == Allocations(0, 0, 0, 0)
  {
    forall scope, measure ensures Total(rows[id := w], scope, measure) == Total(rows, scope, measure) + Weight(w, scope, measure) {
      TotalUpdated(rows, id, w, scope, measure);
    }
  }

  // ---------------------------------------------------------------------
  // The host

  /** The host offers the scaled part of each of its two resources, by its own
      factor, rounded down and at most the largest int64. */
  lemma HostOffers(c: Config)
    ensures c.hostCpu > 0 && c.cpuFactor > 0.0 ==>
              var exact := c.hostCpu as real * c.cpuFactor;
              CpuCeiling(c) as int == if exact.Floor >= MAX_INT64 then MAX_INT64 else exact.Floor
    ensures c.hostMemory > 0 && c.memoryFactor > 0.0 ==>
              var exact := c.hostMemory as real * c.memoryFactor;
              MemoryCeiling(c) as int == if exact.Floor >= MAX_INT64 then MAX_INT64 else exact.Floor
    ensures c.hostCpu <= 0 || c.cpuFactor <= 0.0 ==> CpuCeiling(c) == 0
    ensures c.hostMemory <= 0 || c.memoryFactor <= 0.0 ==> MemoryCeiling(c) == 0
  {
  }

  // ---------------------------------------------------------------------
  // Admission

  /** The owner may hold workspaces: an administrator, or somebody with a quota. */
  ghost predicate MayHold(c: Config, user: string) {
    user in c.administrators && (QuotaOf(c, user).None? ==> c.administrators[user])
  }

  /** The sums can be computed and the host's capacity is known. */
  ghost predicate Measurable(c: Config, rows: map<string, Workspace>) {
    Representable(AllocationsOf(rows, AllOwners)) && c.hostCpu > 0 && c.hostMemory > 0
  }

  /** Everything running fits the scaled host. */
  ghost predicate HostHolds(c: Config, rows: map<string, Workspace>) {
    var all := AllocationsOf(rows, AllOwners);
    all.cpu <= CpuCeiling(c) as int && all.memory <= MemoryCeiling(c) as int
  }

  /** A start is admitted exactly when its owner may hold workspaces and the rows
      with this one running stay inside the owner's limits on running workspaces,
      CPU and memory, and inside the scaled host. */
  lemma StartAdmittedIffFits(c: Config, rows: map<string, Workspace>, id: string, r: Workspace)
    requires id in rows && rows[id].observed != Running && r.observed == Running && r.owner == rows[id].owner
    requires r.cpu == rows[id].cpu && r.memory == rows[id].memory
    ensures var after := rows[id := r];
            var own, quota := AllocationsOf(after, OwnedBy(r.owner)), QuotaOf(c, r.owner);
            StartAdmissible(c, rows, r.owner, r.cpu, r.memory) <==>
              && MayHold(c, r.owner) && Measurable(c, rows) && HostHolds(c, after)
              && (quota.Some? ==>
                    && (quota.value.maxRunning > 0 ==> own.running <= quota.value.maxRunning as int)
                    && (quota.value.maxCpu > 0 ==> own.cpu <= quota.value.maxCpu as int)
                    && (quota.value.maxMemory > 0 ==> own.memory <= quota.value.maxMemory as int))
  {
    forall scope, measure
      ensures Total(rows[id := r], scope, measure) == Total(rows, scope, measure) + Weight(r, scope, measure) - Weight(rows[id], scope, measure)
    {
      TotalUpdated(rows, id, r, scope, measure);
    }
    if Representable(AllocationsOf(rows, AllOwners)) {
      RepresentableOwned(rows, r.owner);
    }
  }

  /** A creation is admitted exactly when its request is positive, its owner may
      hold workspaces and has room for one more, what is measured of the owner's
      storage is below the limit, and the workspace could run at once next to
      everything that runs. */
  lemma CreateAdmittedIffFits(c: Config, rows: map<string, Workspace>, id: string, w: Workspace, storage: Option<nat>)
    requires id !in rows && w.observed == Running
    ensures var after := rows[id := w];
            var own, quota := AllocationsOf(after, OwnedBy(w.owner)), QuotaOf(c, w.owner);
            CreateAdmissible(c, rows, w.owner, w.cpu, w.memory, storage) <==>
              && MayHold(c, w.owner) && Measurable(c, rows) && HostHolds(c, after)
              && (quota.Some? ==>
                    && (quota.value.maxWorkspaces > 0 ==> own.workspaces <= quota.value.maxWorkspaces as int)
                    && (quota.value.maxCpu > 0 ==> own.cpu <= quota.value.maxCpu as int)
                    && (quota.value.maxMemory > 0 ==> own.memory <= quota.value.maxMemory as int)
                    && (quota.value.maxStorage > 0 ==> storage.Some? && storage.value < quota.value.maxStorage as int))
  {
    forall scope, measure ensures Total(rows[id := w], scope, measure) == Total(rows, scope, measure) + Weight(w, scope, measure) {
      TotalUpdated(rows, id, w, scope, measure);
    }
    if Representable(AllocationsOf(rows, AllOwners)) {
      RepresentableOwned(rows, w.owner);
    }
  }

  /** A creation with a request that is not positive is never admitted. */
  lemma EmptyRequestRefused(c: Config, rows: map<string, Workspace>, user: string, cpu: int, memory: int, storage: Option<nat>)
    ensures cpu <= 0 || memory <= 0 ==> !CreateAdmissible(c, rows, user, cpu, memory, storage)
  {
  }

  /** What is shown as available decides a start: the request is admitted exactly
      when it is no more than that and one more workspace may run. */
  lemma AvailableDecidesStart(c: Config, rows: map<string, Workspace>, user: string, cpu: int64, memory: int64)
    requires cpu > 0 && memory > 0 && MayHold(c, user) && Measurable(c, rows)
    ensures Known(c, rows, user) &&
            (StartAdmissible(c, rows, user, cpu as int, memory as int) <==>
               && cpu <= AvailableCpu(c, rows, user) && memory <= AvailableMemory(c, rows, user)
               && (QuotaOf(c, user).Some? && QuotaOf(c, user).value.maxRunning > 0 ==>
                     AllocationsOf(rows, OwnedBy(user)).running < QuotaOf(c, user).value.maxRunning as int))
  {
    RepresentableOwned(rows, user);
  }
}
