/** Quota arithmetic and the admission decisions of internal/quota/service.go. */
module Quota {
  import opened Domain

  /** Go's int64. Every operation on it is checked not to overflow. */
  newtype int64 = x: int | -0x8000_0000_0000_0000 <= x < 0x8000_0000_0000_0000

  const MAX_INT64: int := 0x7fff_ffff_ffff_ffff

  const MAX_COUNT: int64 := 1_000_000
  const MAX_CPU_MILLIS: int64 := 1_000_000
  const MAX_MEMORY_BYTES: int64 := 0x4_0000_0000_0000
  const MAX_STORAGE_BYTES: int64 := 0x1000_0000_0000_0000

  // ---------------------------------------------------------------------
  // Group limits

  predicate ValidLimits(limits: seq<int64>, maximum: int64) {
    0 < maximum && forall i :: 0 <= i < |limits| ==> 0 <= limits[i] <= maximum
  }

  function Sum(limits: seq<int64>): int {
    if limits == [] then 0 else Sum(limits[..|limits| - 1]) + limits[|limits| - 1] as int
  }

  lemma {:induction false} SumConcat(a: seq<int64>, b: seq<int64>)
    ensures Sum(a + b) == Sum(a) + Sum(b)
  {
    if b == [] {
      assert a + b == a;
    } else {
      assert (a + b)[..|a + b| - 1] == a + b[..|b| - 1];
      SumConcat(a, b[..|b| - 1]);
    }
  }

  lemma {:induction false} SumNonNegative(limits: seq<int64>)
    requires forall i :: 0 <= i < |limits| ==> limits[i] >= 0
    ensures Sum(limits) >= 0
  {
    if limits != [] {
      SumNonNegative(limits[..|limits| - 1]);
    }
  }

  lemma PrefixSumMonotone(limits: seq<int64>, i: nat, j: nat)
    requires i <= j <= |limits| && forall k :: 0 <= k < |limits| ==> limits[k] >= 0
    ensures Sum(limits[..i]) <= Sum(limits[..j])
  {
    assert limits[..j] == limits[..i] + limits[i..j];
    SumConcat(limits[..i], limits[i..j]);
    SumNonNegative(limits[i..j]);
  }

  /** A zero limit ("unlimited") is met before the running total passes the maximum. */
  ghost predicate ZeroReached(limits: seq<int64>, maximum: int64) {
    exists k :: 0 <= k < |limits| && limits[k] == 0 && Sum(limits[..k]) <= maximum as int
  }

  ghost function Aggregate(limits: seq<int64>, maximum: int64): int {
    if ZeroReached(limits, maximum) then 0
    else if Sum(limits) > maximum as int then maximum as int
    else Sum(limits)
  }

  method AggregateLimit(limits: seq<int64>, maximum: int64) returns (total: int64)
    requires ValidLimits(limits, maximum)
    ensures total as int == Aggregate(limits, maximum)
  {
    total := 0;
    var i := 0;
    while i < |limits|
      invariant i <= |limits| && total as int == Sum(limits[..i]) && 0 <= total <= maximum
      invariant forall k :: 0 <= k < i ==> limits[k] != 0
    {
      assert limits[..i + 1][..i] == limits[..i];
      var limit := limits[i];
      if limit == 0 {
        assert ZeroReached(limits, maximum);
        return 0;
      }
      if total > maximum - limit {
        Saturated(limits, maximum, i);
        return maximum;
      }
      total := total + limit;
      i := i + 1;
    }
    assert limits[..i] == limits;
  }

  lemma Saturated(limits: seq<int64>, maximum: int64, i: nat)
    requires ValidLimits(limits, maximum) && i < |limits|
    requires forall k :: 0 <= k < i ==> limits[k] != 0
    requires limits[i] != 0 && Sum(limits[..i + 1]) > maximum as int
    ensures Aggregate(limits, maximum) == maximum as int
  {
    forall k | 0 <= k < |limits| && limits[k] == 0 ensures Sum(limits[..k]) > maximum as int {
      PrefixSumMonotone(limits, i + 1, k);
    }
    PrefixSumMonotone(limits, i + 1, |limits|);
    assert limits[..|limits|] == limits;
  }

  /** Without an unlimited group the groups' limits add up, capped at the maximum. */
  lemma AggregateOfFiniteLimits(limits: seq<int64>, maximum: int64)
    requires ValidLimits(limits, maximum) && 0 !in limits
    ensures Aggregate(limits, maximum) == if Sum(limits) > maximum as int then maximum as int else Sum(limits)
  {
  }

  lemma {:induction false} SumOfPermutation(a: seq<int64>, b: seq<int64>)
    requires multiset(a) == multiset(b)
    ensures Sum(a) == Sum(b)
  {
    if a == [] {
      assert |multiset(b)| == 0;
    } else {
      var x := a[|a| - 1];
      assert a == a[..|a| - 1] + [x];
      assert x in multiset(b);
      var j :| 0 <= j < |b| && b[j] == x;
      var rest := b[..j] + b[j + 1..];
      assert b == b[..j] + [x] + b[j + 1..];
      assert multiset(a[..|a| - 1]) == multiset(a) - multiset{x};
      assert multiset(rest) == multiset(b) - multiset{x};
      SumOfPermutation(a[..|a| - 1], rest);
      SumConcat(b[..j], [x]);
      SumConcat(b[..j] + [x], b[j + 1..]);
      SumConcat(b[..j], b[j + 1..]);
    }
  }

  /** The limits split into the finite ones and the unlimited ones. */
  lemma {:induction false} SplitLimits(limits: seq<int64>) returns (finite: seq<int64>, zeros: seq<int64>)
    ensures multiset(finite) + multiset(zeros) == multiset(limits) && Sum(finite) == Sum(limits)
    ensures 0 !in finite && (forall i :: 0 <= i < |zeros| ==> zeros[i] == 0)
  {
    if limits == [] {
      finite, zeros := [], [];
    } else {
      var x := limits[|limits| - 1];
      finite, zeros := SplitLimits(limits[..|limits| - 1]);
      assert limits == limits[..|limits| - 1] + [x];
      if x == 0 {
        zeros := zeros + [x];
      } else {
        SumConcat(finite, [x]);
        finite := finite + [x];
      }
    }
  }

  lemma UnlimitedFirst(limits: seq<int64>, maximum: int64) returns (a: seq<int64>)
    requires ValidLimits(limits, maximum) && 0 in limits
    ensures multiset(a) == multiset(limits) && Aggregate(a, maximum) == 0
  {
    var k :| 0 <= k < |limits| && limits[k] == 0;
    a := [0] + (limits[..k] + limits[k + 1..]);
    assert limits == limits[..k] + [0] + limits[k + 1..];
    assert a[0] == 0 && a[..0] == [];
    assert ZeroReached(a, maximum);
  }

  lemma UnlimitedLast(limits: seq<int64>, maximum: int64) returns (b: seq<int64>)
    requires ValidLimits(limits, maximum) && Sum(limits) > maximum as int
    ensures multiset(b) == multiset(limits) && Aggregate(b, maximum) == maximum as int
  {
    var finite, zeros := SplitLimits(limits);
    b := finite + zeros;
    forall j | 0 <= j < |b| && b[j] == 0 ensures Sum(b[..j]) > maximum as int {
      assert j >= |finite|;
      assert b[..j] == finite + zeros[..j - |finite|];
      SumConcat(finite, zeros[..j - |finite|]);
      SumNonNegative(zeros[..j - |finite|]);
    }
    SumOfPermutation(b, limits);
  }

  /** The order in which the store lists a user's groups matters exactly when
      one of them is unlimited and the limits together exceed the maximum. */
  lemma AggregateDependsOnOrderIff(limits: seq<int64>, maximum: int64)
    requires ValidLimits(limits, maximum)
    ensures (exists a, b :: multiset(a) == multiset(b) == multiset(limits) && Aggregate(a, maximum) != Aggregate(b, maximum))
            <==> 0 in limits && Sum(limits) > maximum as int
  {
    if 0 in limits && Sum(limits) > maximum as int {
      var a := UnlimitedFirst(limits, maximum);
      var b := UnlimitedLast(limits, maximum);
      assert multiset(a) == multiset(b);
    } else {
      forall a, b | multiset(a) == multiset(b) == multiset(limits) ensures Aggregate(a, maximum) == Aggregate(b, maximum) {
        AggregateInOrder(limits, a, maximum);
        AggregateInOrder(limits, b, maximum);
      }
    }
  }

  lemma AggregateInOrder(limits: seq<int64>, a: seq<int64>, maximum: int64)
    requires ValidLimits(limits, maximum) && multiset(a) == multiset(limits)
    requires !(0 in limits && Sum(limits) > maximum as int)
    ensures Aggregate(a, maximum) == if 0 in limits then 0 else if Sum(limits) > maximum as int then maximum as int else Sum(limits)
  {
    SumOfPermutation(a, limits);
    forall x ensures x in a <==> x in limits {
      assert x in multiset(a) <==> x in multiset(limits);
    }
    if 0 in limits {
      assert 0 in a;
      var k :| 0 <= k < |a| && a[k] == 0;
      assert forall i :: 0 <= i < |a| ==> a[i] in limits;
      PrefixSumMonotone(a, k, |a|);
      assert a[..|a|] == a;
      assert ZeroReached(a, maximum);
    }
  }

  // ---------------------------------------------------------------------
  // Overflow-free comparison and host scaling

  const TWO_64: int := 0x1_0000_0000_0000_0000

  /** int64 arithmetic that leaves the range comes back at the other end. */
  function Wrap(x: int): (r: int64)
    ensures -0x8000_0000_0000_0000 <= x < 0x8000_0000_0000_0000 ==> r as int == x
    ensures 0x8000_0000_0000_0000 <= x < 0x1_8000_0000_0000_0000 ==> r as int == x - TWO_64
  {
    ((x + 0x8000_0000_0000_0000) % TWO_64 - 0x8000_0000_0000_0000) as int64
  }

  /** A positive limit is exceeded exactly when the unbounded sum passes it, as
      long as `limit - requested` is an int64, which it is for every request that
      is not negative; past that the difference wraps and turns negative. */
  predicate Exceeds(current: int64, requested: int64, limit: int64): (r: bool)
    ensures limit as int - requested as int <= MAX_INT64 ==>
              (r <==> limit > 0 && current as int + requested as int > limit as int)
    ensures limit as int - requested as int > MAX_INT64 ==>
              (r <==> limit > 0 && current as int + requested as int > limit as int - TWO_64)
  {
    limit > 0 && current > Wrap(limit as int - requested as int)
  }

  /** The allocatable ceiling: the scaled capacity rounded down, held inside int64. */
  function ScaleCapacity(value: int64, factor: real): (r: int64)
    ensures value <= 0 || factor <= 0.0 ==> r == 0
    ensures value > 0 && factor > 0.0 ==>
              var exact := value as real * factor;
              0 <= r && (r as real <= exact) && (exact < r as real + 1.0 || r as int == MAX_INT64)
  {
    if value <= 0 || factor <= 0.0 then 0
    else if factor > MAX_INT64 as real / value as real then
      QuotientBound(value as real, factor, MAX_INT64 as real);
      MAX_INT64 as int64
    else
      QuotientBound(value as real, factor, MAX_INT64 as real);
      (value as real * factor).Floor as int64
  }

  lemma QuotientBound(value: real, factor: real, limit: real)
    requires value > 0.0 && factor > 0.0
    ensures factor > limit / value <==> value * factor > limit
    ensures value * factor > 0.0
  {
  }

  // ---------------------------------------------------------------------
  // Allocation totals

  datatype Scope = AllOwners | OwnedBy(owner: string)

  datatype Measure = Workspaces | RunningWorkspaces | RunningCpu | RunningMemory

  /** What one row adds to a total of the SQL aggregate. */
  function Weight(w: Workspace, scope: Scope, measure: Measure): int {
    if scope.OwnedBy? && w.owner != scope.owner then 0
    else
      match measure
      case Workspaces => 1
      case RunningWorkspaces => if w.observed == Running then 1 else 0
      case RunningCpu => if w.observed == Running then w.cpu else 0
      case RunningMemory => if w.observed == Running then w.memory else 0
  }

  ghost function Total(rows: map<string, Workspace>, scope: Scope, measure: Measure): int
    decreases |rows|
  {
    if rows == map[] then 0
    else
      var id :| id in rows;
      assert (rows - {id}).Keys == rows.Keys - {id};
      Weight(rows[id], scope, measure) + Total(rows - {id}, scope, measure)
  }

  lemma {:induction false} TotalWithout(rows: map<string, Workspace>, id: string, scope: Scope, measure: Measure)
    requires id in rows
    ensures Total(rows, scope, measure) == Weight(rows[id], scope, measure) + Total(rows - {id}, scope, measure)
    decreases |rows|
  {
    var first :| first in rows && Total(rows, scope, measure) == Weight(rows[first], scope, measure) + Total(rows - {first}, scope, measure);
    if first != id {
      assert (rows - {first}).Keys == rows.Keys - {first};
      assert (rows - {id}).Keys == rows.Keys - {id};
      TotalWithout(rows - {first}, id, scope, measure);
      TotalWithout(rows - {id}, first, scope, measure);
      assert rows - {first} - {id} == rows - {id} - {first};
    }
  }

  /** Replacing or inserting one row changes a total by the difference of weights. */
  lemma TotalUpdated(rows: map<string, Workspace>, id: string, row: Workspace, scope: Scope, measure: Measure)
    ensures Total(rows[id := row], scope, measure)
         == Total(rows, scope, measure) + Weight(row, scope, measure)
            - (if id in rows then Weight(rows[id], scope, measure) else 0)
  {
    TotalWithout(rows[id := row], id, scope, measure);
    assert rows[id := row] - {id} == rows - {id};
    if id in rows {
      TotalWithout(rows, id, scope, measure);
    } else {
      assert rows - {id} == rows;
    }
  }

  /** One owner's share of a sum is not negative and no more than the whole. */
  lemma {:induction false} OwnedWithinAll(rows: map<string, Workspace>, user: string, measure: Measure)
    ensures 0 <= Total(rows, OwnedBy(user), measure) <= Total(rows, AllOwners, measure)
    decreases |rows|
  {
    if rows != map[] {
      var id :| id in rows;
      assert (rows - {id}).Keys == rows.Keys - {id};
      TotalWithout(rows, id, OwnedBy(user), measure);
      TotalWithout(rows, id, AllOwners, measure);
      OwnedWithinAll(rows - {id}, user, measure);
    }
  }

  datatype Allocations = Allocations(workspaces: int, running: int, cpu: int, memory: int)

  ghost function AllocationsOf(rows: map<string, Workspace>, scope: Scope): Allocations {
    Allocations(Total(rows, scope, Workspaces), Total(rows, scope, RunningWorkspaces),
                Total(rows, scope, RunningCpu), Total(rows, scope, RunningMemory))
  }

  /** The aggregate query, row by row in any order. */
  method WorkspaceAllocations(rows: map<string, Workspace>, scope: Scope) returns (summary: Allocations)
    ensures summary == AllocationsOf(rows, scope)
  {
    summary := Allocations(0, 0, 0, 0);
    var todo := rows;
    while todo != map[]
      invariant forall measure :: Total(rows, scope, measure) == Total(todo, scope, measure) +
                  (match measure case Workspaces => summary.workspaces case RunningWorkspaces => summary.running
                                 case RunningCpu => summary.cpu case RunningMemory => summary.memory)
      decreases |todo|
    {
      var id :| id in todo;
      var w := todo[id];
      forall measure ensures Total(todo, scope, measure) == Weight(w, scope, measure) + Total(todo - {id}, scope, measure) {
        TotalWithout(todo, id, scope, measure);
      }
      summary := Allocations(summary.workspaces + Weight(w, scope, Workspaces), summary.running + Weight(w, scope, RunningWorkspaces),
                             summary.cpu + Weight(w, scope, RunningCpu), summary.memory + Weight(w, scope, RunningMemory));
      assert (todo - {id}).Keys == todo.Keys - {id};
      todo := todo - {id};
    }
  }

  // ---------------------------------------------------------------------
  // Admission

  datatype UserQuota = UserQuota(maxCpu: int64, maxMemory: int64, maxStorage: int64, maxWorkspaces: int64, maxRunning: int64)

  /** The bounds checked whenever a quota is set. */
  predicate ValidQuota(q: UserQuota) {
    && 0 <= q.maxCpu <= MAX_CPU_MILLIS && 0 <= q.maxMemory <= MAX_MEMORY_BYTES && 0 <= q.maxStorage <= MAX_STORAGE_BYTES
    && 0 <= q.maxWorkspaces <= MAX_COUNT && 0 <= q.maxRunning <= MAX_COUNT
  }

  /** Everything admission reads besides the workspace rows. `groupQuotas` lists
      the quotas of a user's groups in the order of the query. */
  datatype RawConfig = RawConfig(
    administrators: map<string, bool>, userQuotas: map<string, UserQuota>, groupQuotas: map<string, seq<UserQuota>>,
    hostCpu: int64, hostMemory: int64, cpuFactor: real, memoryFactor: real)

  ghost predicate ValidConfig(c: RawConfig) {
    && (forall u :: u in c.userQuotas ==> ValidQuota(c.userQuotas[u]))
    && (forall u :: u in c.groupQuotas ==> forall i :: 0 <= i < |c.groupQuotas[u]| ==> ValidQuota(c.groupQuotas[u][i]))
  }

  type Config = c: RawConfig | ValidConfig(c) witness RawConfig(map[], map[], map[], 0, 0, 1.0, 1.0)

  datatype Verdict =
    | Admitted | InvalidRequest | UnknownUser | QuotaUnavailable | StorageUnavailable | StoreError
    | QuotaExceeded | CapacityUnavailable | CapacityInsufficient

  datatype Limit = CpuLimit | MemoryLimit | StorageLimit | WorkspaceLimit | RunningLimit

  function LimitOf(q: UserQuota, limit: Limit): (r: int64)
    ensures ValidQuota(q) ==> 0 <= r <= Ceiling(limit)
  {
    match limit
    case CpuLimit => q.maxCpu
    case MemoryLimit => q.maxMemory
    case StorageLimit => q.maxStorage
    case WorkspaceLimit => q.maxWorkspaces
    case RunningLimit => q.maxRunning
  }

  function Ceiling(limit: Limit): int64 {
    match limit
    case CpuLimit => MAX_CPU_MILLIS
    case MemoryLimit => MAX_MEMORY_BYTES
    case StorageLimit => MAX_STORAGE_BYTES
    case WorkspaceLimit => MAX_COUNT
    case RunningLimit => MAX_COUNT
  }

  function LimitsOf(groups: seq<UserQuota>, limit: Limit): (r: seq<int64>)
    requires forall i :: 0 <= i < |groups| ==> ValidQuota(groups[i])
    ensures |r| == |groups| && ValidLimits(r, Ceiling(limit))
  {
    seq(|groups|, i requires 0 <= i < |groups| => LimitOf(groups[i], limit))
  }

  /** What the groups' limits of one kind add up to. */
  ghost function GroupLimit(groups: seq<UserQuota>, limit: Limit): int64
    requires forall i :: 0 <= i < |groups| ==> ValidQuota(groups[i])
  {
    SumNonNegative(LimitsOf(groups, limit));
    Aggregate(LimitsOf(groups, limit), Ceiling(limit)) as int64
  }

  /** A personal quota replaces the quotas of the user's groups, which otherwise add up. */
  ghost function QuotaOf(c: Config, user: string): Option<UserQuota> {
    if user in c.userQuotas then Some(c.userQuotas[user])
    else if user in c.groupQuotas && c.groupQuotas[user] != [] then
      var groups := c.groupQuotas[user];
      Some(UserQuota(GroupLimit(groups, CpuLimit), GroupLimit(groups, MemoryLimit), GroupLimit(groups, StorageLimit),
                     GroupLimit(groups, WorkspaceLimit), GroupLimit(groups, RunningLimit)))
    else None
  }

  method EffectiveQuota(c: Config, user: string) returns (quota: Option<UserQuota>)
    ensures quota == QuotaOf(c, user)
  {
    if user in c.userQuotas {
      return Some(c.userQuotas[user]);
    }
    if user !in c.groupQuotas || |c.groupQuotas[user]| == 0 {
      return None;
    }
    var groups := c.groupQuotas[user];
    var cpu := AggregateLimit(LimitsOf(groups, CpuLimit), MAX_CPU_MILLIS);
    var memory := AggregateLimit(LimitsOf(groups, MemoryLimit), MAX_MEMORY_BYTES);
    var storage := AggregateLimit(LimitsOf(groups, StorageLimit), MAX_STORAGE_BYTES);
    var workspaces := AggregateLimit(LimitsOf(groups, WorkspaceLimit), MAX_COUNT);
    var running := AggregateLimit(LimitsOf(groups, RunningLimit), MAX_COUNT);
    return Some(UserQuota(cpu, memory, storage, workspaces, running));
  }

  /** SQLite reports an integer overflow for sums outside this range. */
  predicate Representable(a: Allocations) {
    0 <= a.workspaces < MAX_INT64 && 0 <= a.running <= MAX_INT64 && 0 <= a.cpu <= MAX_INT64 && 0 <= a.memory <= MAX_INT64
  }

  function Headroom(ceiling: int64, used: int64): int64
    requires 0 <= ceiling && 0 <= used
  {
    if ceiling - used < 0 then 0 else ceiling - used
  }

  function Min(a: int64, b: int64): int64 {
    if a < b then a else b
  }

  predicate HostKnown(c: Config) {
    c.hostCpu > 0 && c.hostMemory > 0
  }

  function CpuCeiling(c: Config): (r: int64)
    ensures r >= 0
  {
    if c.hostCpu <= 0 || c.cpuFactor <= 0.0 then 0 else ScaleCapacity(c.hostCpu, c.cpuFactor)
  }

  function MemoryCeiling(c: Config): (r: int64)
    ensures r >= 0
  {
    if c.hostMemory <= 0 || c.memoryFactor <= 0.0 then 0 else ScaleCapacity(c.hostMemory, c.memoryFactor)
  }

  /** A total with the request added stays within a limit, where 0 means unlimited. */
  ghost predicate Within(total: int, requested: int, limit: int) {
    limit > 0 ==> total + requested <= limit
  }

  /** The quota side of a start: one more running workspace with this request. */
  ghost predicate StartWithinQuota(q: UserQuota, used: Allocations, cpu: int, memory: int) {
    Within(used.running, 1, q.maxRunning as int) && Within(used.cpu, cpu, q.maxCpu as int) && Within(used.memory, memory, q.maxMemory as int)
  }

  ghost predicate CreateWithinQuota(q: UserQuota, used: Allocations, cpu: int, memory: int, storage: Option<nat>) {
    && Within(used.workspaces, 1, q.maxWorkspaces as int) && Within(used.cpu, cpu, q.maxCpu as int)
    && Within(used.memory, memory, q.maxMemory as int)
    && (q.maxStorage > 0 ==> storage.Some? && storage.value < q.maxStorage as int)
  }

  /** The request fits the scaled host next to everything that runs. */
  ghost predicate FitsHost(c: Config, all: Allocations, cpu: int, memory: int) {
    HostKnown(c) && all.cpu + cpu <= CpuCeiling(c) as int && all.memory + memory <= MemoryCeiling(c) as int
  }

  ghost predicate Known(c: Config, rows: map<string, Workspace>, user: string) {
    && user in c.administrators && (QuotaOf(c, user).None? ==> c.administrators[user])
    && Representable(AllocationsOf(rows, OwnedBy(user))) && Representable(AllocationsOf(rows, AllOwners))
  }

  /** Exactly when a start is admitted, for the positive requests that creation lets through. */
  ghost predicate StartAdmissible(c: Config, rows: map<string, Workspace>, user: string, cpu: int, memory: int) {
    var quota := QuotaOf(c, user);
    && Known(c, rows, user)
    && (quota.Some? ==> StartWithinQuota(quota.value, AllocationsOf(rows, OwnedBy(user)), cpu, memory))
    && FitsHost(c, AllocationsOf(rows, AllOwners), cpu, memory)
  }

  /** Exactly when a start with any request is admitted, in the terms of the code. */
  ghost predicate StartAdmitted(c: Config, rows: map<string, Workspace>, user: string, cpu: int64, memory: int64) {
    var quota, used, all := QuotaOf(c, user), AllocationsOf(rows, OwnedBy(user)), AllocationsOf(rows, AllOwners);
    && Known(c, rows, user) && HostKnown(c)
    && (quota.Some? ==>
          && Within(used.running, 1, quota.value.maxRunning as int)
          && !Exceeds(used.cpu as int64, cpu, quota.value.maxCpu) && !Exceeds(used.memory as int64, memory, quota.value.maxMemory))
    && cpu <= Headroom(CpuCeiling(c), all.cpu as int64) && memory <= Headroom(MemoryCeiling(c), all.memory as int64)
  }

  lemma RepresentableOwned(rows: map<string, Workspace>, user: string)
    requires Representable(AllocationsOf(rows, AllOwners))
    ensures Representable(AllocationsOf(rows, OwnedBy(user)))
  {
    OwnedWithinAll(rows, user, Workspaces);
    OwnedWithinAll(rows, user, RunningWorkspaces);
    OwnedWithinAll(rows, user, RunningCpu);
    OwnedWithinAll(rows, user, RunningMemory);
  }

  lemma PositiveStartAdmitted(c: Config, rows: map<string, Workspace>, user: string, cpu: int64, memory: int64)
    requires cpu > 0 && memory > 0
    ensures StartAdmitted(c, rows, user, cpu, memory) <==> StartAdmissible(c, rows, user, cpu as int, memory as int)
  {
  }

  ghost predicate CreateAdmissible(c: Config, rows: map<string, Workspace>, user: string, cpu: int, memory: int,
                                   storage: Option<nat>) {
    var quota := QuotaOf(c, user);
    && cpu > 0 && memory > 0 && Known(c, rows, user)
    && (quota.Some? ==> CreateWithinQuota(quota.value, AllocationsOf(rows, OwnedBy(user)), cpu, memory, storage))
    && FitsHost(c, AllocationsOf(rows, AllOwners), cpu, memory)
  }

  method HostAvailable(c: Config, rows: map<string, Workspace>) returns (verdict: Verdict, cpu: int64, memory: int64)
    ensures verdict == if !HostKnown(c) then CapacityUnavailable
                       else if !Representable(AllocationsOf(rows, AllOwners)) then StoreError else Admitted
    ensures verdict == Admitted ==>
              var all := AllocationsOf(rows, AllOwners);
              cpu == Headroom(CpuCeiling(c), all.cpu as int64) && memory == Headroom(MemoryCeiling(c), all.memory as int64)
  {
    cpu, memory := 0, 0;
    if !HostKnown(c) {
      return CapacityUnavailable, 0, 0;
    }
    var all := WorkspaceAllocations(rows, AllOwners);
    if !Representable(all) {
      return StoreError, 0, 0;
    }
    return Admitted, Headroom(CpuCeiling(c), all.cpu as int64), Headroom(MemoryCeiling(c), all.memory as int64);
  }

  method CheckStart(c: Config, rows: map<string, Workspace>, user: string, cpu: int64, memory: int64) returns (verdict: Verdict)
    ensures verdict == Admitted <==> StartAdmitted(c, rows, user, cpu, memory)
    ensures cpu > 0 && memory > 0 ==> (verdict == Admitted <==> StartAdmissible(c, rows, user, cpu as int, memory as int))
  {
    if cpu > 0 && memory > 0 {
      PositiveStartAdmitted(c, rows, user, cpu, memory);
    }
    if user !in c.administrators {
      return UnknownUser;
    }
    var quota := EffectiveQuota(c, user);
    if quota.None? && !c.administrators[user] {
      return QuotaUnavailable;
    }
    if quota.Some? {
      var q := quota.value;
      var used := WorkspaceAllocations(rows, OwnedBy(user));
      if !Representable(used) {
        return StoreError;
      }
      if q.maxRunning > 0 && used.running as int64 >= q.maxRunning {
        return QuotaExceeded;
      }
      if Exceeds(used.cpu as int64, cpu, q.maxCpu) || Exceeds(used.memory as int64, memory, q.maxMemory) {
        return QuotaExceeded;
      }
    }
    var host, availableCpu, availableMemory := HostAvailable(c, rows);
    if host != Admitted {
      return host;
    }
    RepresentableOwned(rows, user);
    if cpu > availableCpu || memory > availableMemory {
      return CapacityInsufficient;
    }
    return Admitted;
  }

  ghost function AvailableCpu(c: Config, rows: map<string, Workspace>, user: string): int64
    requires Known(c, rows, user)
  {
    var host := Headroom(CpuCeiling(c), AllocationsOf(rows, AllOwners).cpu as int64);
    var quota := QuotaOf(c, user);
    if quota.Some? && quota.value.maxCpu > 0
    then Min(host, Headroom(quota.value.maxCpu, AllocationsOf(rows, OwnedBy(user)).cpu as int64)) else host
  }

  ghost function AvailableMemory(c: Config, rows: map<string, Workspace>, user: string): int64
    requires Known(c, rows, user)
  {
    var host := Headroom(MemoryCeiling(c), AllocationsOf(rows, AllOwners).memory as int64);
    var quota := QuotaOf(c, user);
    if quota.Some? && quota.value.maxMemory > 0
    then Min(host, Headroom(quota.value.maxMemory, AllocationsOf(rows, OwnedBy(user)).memory as int64)) else host
  }

  /** Available: the lower of the host's and the quota's headroom. */
  method Available(c: Config, rows: map<string, Workspace>, user: string) returns (verdict: Verdict, cpu: int64, memory: int64)
    ensures verdict == if user !in c.administrators then UnknownUser
                       else if QuotaOf(c, user).None? && !c.administrators[user] then QuotaUnavailable
                       else if !HostKnown(c) then CapacityUnavailable
                       else if !Representable(AllocationsOf(rows, AllOwners)) then StoreError else Admitted
    ensures verdict == Admitted ==>
              Known(c, rows, user) && cpu == AvailableCpu(c, rows, user) && memory == AvailableMemory(c, rows, user)
  {
    if user !in c.administrators {
      return UnknownUser, 0, 0;
    }
    var quota := EffectiveQuota(c, user);
    if quota.None? && !c.administrators[user] {
      return QuotaUnavailable, 0, 0;
    }
    verdict, cpu, memory := HostAvailable(c, rows);
    if verdict != Admitted {
      return;
    }
    RepresentableOwned(rows, user);
    if quota.Some? {
      var q := quota.value;
      var used := WorkspaceAllocations(rows, OwnedBy(user));
      if q.maxCpu > 0 && q.maxCpu - used.cpu as int64 < cpu {
        cpu := q.maxCpu - used.cpu as int64;
      }
      if q.maxMemory > 0 && q.maxMemory - used.memory as int64 < memory {
        memory := q.maxMemory - used.memory as int64;
      }
    }
    if cpu < 0 {
      cpu := 0;
    }
    if memory < 0 {
      memory := 0;
    }
  }

  /** `storage` is the outcome of measuring the user's workspaces. */
  method CheckCreate(c: Config, rows: map<string, Workspace>, user: string, cpu: int64, memory: int64,
                     storage: Option<nat>)
    returns (verdict: Verdict)
    ensures verdict == Admitted <==> CreateAdmissible(c, rows, user, cpu as int, memory as int, storage)
  {
    if cpu <= 0 || memory <= 0 {
      return InvalidRequest;
    }
    if user !in c.administrators {
      return UnknownUser;
    }
    var quota := EffectiveQuota(c, user);
    if quota.None? && !c.administrators[user] {
      return QuotaUnavailable;
    }
    var used := WorkspaceAllocations(rows, OwnedBy(user));
    if !Representable(used) {
      return StoreError;
    }
    if quota.Some? {
      var q := quota.value;
      if (q.maxWorkspaces > 0 && used.workspaces as int64 + 1 > q.maxWorkspaces)
         || Exceeds(used.cpu as int64, cpu, q.maxCpu) || Exceeds(used.memory as int64, memory, q.maxMemory)
      {
        return QuotaExceeded;
      }
      if q.maxStorage > 0 {
        if storage.None? {
          return StorageUnavailable;
        }
        if storage.value >= q.maxStorage as int {
          return QuotaExceeded;
        }
      }
    }
    var host, availableCpu, availableMemory := Available(c, rows, user);
    if host != Admitted {
      return host;
    }
    if cpu > availableCpu || memory > availableMemory {
      return CapacityInsufficient;
    }
    return Admitted;
  }
}
