/** What one timeout with an outdated handle does to admission: a run from the
    empty control plane that ends above the host's capacity. */
module OutdatedTimeouts {
  import opened Domain
  import opened Quota
  import opened Timeouts
  import opened Mounts
  import opened Lifecycle
  import opened Service
  import opened Effects
  import opened Runs
  import opened Admission

  // ---------------------------------------------------------------------
  // The share of a hidden workspace leaves the sums and comes back

  /** Every row counted as running has a running container and the reverse. */
  ghost predicate ExactlyRecorded(s: State) {
    Recorded(s) && forall id :: id in s.rows && s.rows[id].observed == Running ==> id in s.containers && s.containers[id].running
  }

  /** A timeout that hides a running workspace takes it out of the sums. */
  lemma HiddenWorkspaceIsNotCounted(s: State, id: string, value: Workspace, now: Time, runtimeOk: bool)
    requires Recorded(s) && HidesRunning(s, id, value, now, runtimeOk)
    ensures var (after, ok) := TimeoutSpec(s, id, value, now, runtimeOk);
            && ok && after.rows == s.rows[id := RemovedRow(s.rows[id], value, now)] && after.containers == s.containers
            && Total(after.rows, AllOwners, RunningCpu) == Total(s.rows, AllOwners, RunningCpu) - s.rows[id].cpu
  {
    TotalUpdated(s.rows, id, RemovedRow(s.rows[id], value, now), AllOwners, RunningCpu);
  }

  lemma TotalsAgree(a: map<string, Workspace>, b: map<string, Workspace>, scope: Scope, measure: Measure)
    requires a.Keys == b.Keys
    requires forall id :: id in a ==> SameIdentity(a[id], b[id]) && (a[id].observed == Running <==> b[id].observed == Running)
    ensures Total(a, scope, measure) == Total(b, scope, measure)
  {
    TotalShrinks(a, b, scope, measure);
    TotalShrinks(b, a, scope, measure);
  }

  lemma FoundAsRecorded(s: State, id: string, observations: map<string, Observation>, at: Time)
    requires ExactlyRecorded(s) && Truthful(s, observations) && id in s.rows
    ensures ReconciledRow(s.rows[id], Lookup(observations, id), at).observed == Running <==> s.rows[id].observed == Running
  {
    assert TruthfulAt(s, observations, id);
  }

  /** The next reconciliation adds the share again, without a check. */
  lemma HiddenWorkspaceReturnsUnchecked(s: State, id: string, observations: map<string, Observation>, at: Time)
    requires id in s.rows && s.rows[id].observed == Removed && id in s.containers && s.containers[id].running
    requires ExactlyRecorded(s.(rows := s.rows - {id})) && Truthful(s, observations)
    ensures Total(ReconciledRows(s.rows, observations, at), AllOwners, RunningCpu) == Total(s.rows, AllOwners, RunningCpu) + s.rows[id].cpu
  {
    var reconciled := ReconciledRows(s.rows, observations, at);
    var found := s.rows[id := reconciled[id]];
    assert reconciled[id].observed == Running by {
      assert TruthfulAt(s, observations, id);
    }
    var others := s.(rows := s.rows - {id});
    forall other ensures TruthfulAt(others, observations, other) {
      assert TruthfulAt(s, observations, other);
    }
    forall other | other in s.rows && other != id ensures reconciled[other].observed == Running <==> found[other].observed == Running {
      FoundAsRecorded(others, other, observations, at);
    }
    TotalsAgree(reconciled, found, AllOwners, RunningCpu);
    TotalUpdated(s.rows, id, reconciled[id], AllOwners, RunningCpu);
  }

  // ---------------------------------------------------------------------
  // Steps of workspaces without mounts

  /** A system without storage. */
  ghost function Sys(rows: map<string, Workspace>, containers: map<string, Container>, snapshots: set<Listed>, used: set<string>): System {
    System(State(rows, containers, {}, RawFiles({}, map[]), map[], map[]), snapshots, used)
  }

  function Launch(now: Time, handle: string): StartOracle {
    StartOracle(now, true, 0, true, true, handle, true)
  }

  function Input(id: string, owner: string, cpu: int64, memory: int64): CreateInput {
    CreateInput(id, owner, id, [], cpu, memory, 0, 1, [], None)
  }

  function NoFaultCreation(handle: string): CreateOracle {
    CreateOracle(None, 0, 0, true, true, NoFault, Launch(1, handle))
  }

  lemma CreateInserts(c: Config, s: State, input: CreateInput, o: CreateOracle)
    requires input.mounts == [] && input.reattachVolumes == [] && input.reattachDirectories.None? && o.storeOk && o.portsOk
    requires MayCreate(c, s.rows, input, o) && !NameTaken(s.rows, input.owner, input.name)
    ensures CreateSpec(c, s, input, o) == (WithRow(s, input.id, NewRow(input)), true)
  {
    assert ClaimOf(s, input, o) == Claim(s.volumeTombs, map[], true);
    assert s.(volumeTombs := s.volumeTombs) == s;
    assert EnsureSpec(s.files, input.id, input.mounts, o.ensureFault) == (s.files, true);
  }

  lemma ContainerMade(s: State, id: string, now: Time, handle: string)
    requires id in s.rows && s.rows[id].mounts == [] && id !in s.containers
    ensures ContainerSpec(s, id, map[], Launch(now, handle))
         == (s.(rows := s.rows[id := s.rows[id].(observed := Created, runtimeId := handle)],
                containers := s.containers[id := Container(handle, false, map[])]), true)
  {
    assert EnsureSpec(s.files, id, [], 0) == (s.files, true);
    assert VolumesFor(id, [], map[]) == map[];
    assert s.volumes + VolumesFor(id, [], map[]).Values == s.volumes;
  }

  lemma StartLaunches(c: Config, s: State, id: string, now: Time, handle: string)
    requires id in s.rows && s.rows[id].observed != Running && NeedsContainer(s.rows[id]) && s.rows[id].mounts == []
    requires id !in s.containers && MayStart(c, s.rows, id)
    ensures StartSpec(c, s, id, map[], Launch(now, handle)).0
         == s.(rows := s.rows[id := RunningRow(s.rows[id], Launch(now, handle))],
               containers := s.containers[id := Container(handle, true, map[])])
  {
    var o := Launch(now, handle);
    var wanted := WithRow(s, id, s.rows[id].(desired := WantRunning));
    ContainerMade(wanted, id, now, handle);
    var made := ContainerSpec(wanted, id, map[], o).0;
    var launched := LaunchSpec(made, id, handle, o).0;
    assert AdmittedStartSpec(s, id, map[], o).0 == launched;
    LaunchEffect(made, id, handle, o);
    assert launched.containers == s.containers[id := Container(handle, true, map[])];
    assert launched.rows[id] == RunningRow(s.rows[id], o);
    assert launched.rows == s.rows[id := RunningRow(s.rows[id], o)];
  }

  // ---------------------------------------------------------------------
  // Two workspaces that fit the host one by one but not together

  ghost predicate OneFits(c: Config, user: string, cpu: int64, memory: int64) {
    && user in c.administrators && c.administrators[user] && QuotaOf(c, user).None? && HostKnown(c)
    && 0 < cpu <= CpuCeiling(c) && 0 < memory <= MemoryCeiling(c)
  }

  lemma PairTotal(a: string, b: string, x: Workspace, y: Workspace, scope: Scope, measure: Measure)
    requires a != b
    ensures Total(map[a := x, b := y], scope, measure) == Weight(x, scope, measure) + Weight(y, scope, measure)
  {
    var none: map<string, Workspace> := map[];
    TotalUpdated(none, a, x, scope, measure);
    TotalUpdated(none[a := x], b, y, scope, measure);
    assert none[a := x][b := y] == map[a := x, b := y];
  }

  lemma SingleTotal(a: string, x: Workspace, scope: Scope, measure: Measure)
    ensures Total(map[a := x], scope, measure) == Weight(x, scope, measure)
  {
    var none: map<string, Workspace> := map[];
    TotalUpdated(none, a, x, scope, measure);
    assert none[a := x] == map[a := x];
  }

  lemma PairAdmits(c: Config, user: string, a: string, b: string, x: Workspace, y: Workspace, id: string)
    requires a != b && (id == a || id == b) && x.observed != Running && y.observed != Running
    requires var w := if id == a then x else y; w.owner == user && OneFits(c, user, w.cpu as int64, w.memory as int64)
    ensures MayStart(c, map[a := x, b := y], id)
  {
    forall scope, measure ensures Total(map[a := x, b := y], scope, measure) == Weight(x, scope, measure) + Weight(y, scope, measure) {
      PairTotal(a, b, x, y, scope, measure);
    }
  }

  /** The memory is the same for both; only the CPUs do not fit together. */
  lemma CreateAdmitted(c: Config, rows: map<string, Workspace>, a: string, x: Workspace, input: CreateInput, o: CreateOracle)
    requires rows == map[] || (rows == map[a := x] && x.observed != Running)
    requires OneFits(c, input.owner, input.cpu, input.memory)
    ensures MayCreate(c, rows, input, o)
  {
    forall scope, measure ensures 0 <= Total(rows, scope, measure) <= 1 && (measure != Workspaces ==> Total(rows, scope, measure) == 0) {
      SingleTotal(a, x, scope, measure);
    }
  }

  // ---------------------------------------------------------------------
  // The run

  /** Two workspaces of one administrator and their CPU requests. */
  datatype Pair = Pair(user: string, a: string, b: string, x: int64, y: int64, memory: int64)

  ghost predicate Fits(c: Config, p: Pair) {
    p.a != p.b && |p.a| == |p.b| == ID_LENGTH && OneFits(c, p.user, p.x, p.memory) && OneFits(c, p.user, p.y, p.memory)
  }

  ghost function RowA(p: Pair, k: nat): Workspace
    requires p.x > 0 && p.memory > 0
  {
    var inserted := NewRow(Input(p.a, p.user, p.x, p.memory));
    var running := RunningRow(inserted, Launch(1, "1"));
    var stopped := HaltedRow(running, running, 2);
    var missing := stopped.(observed := Missing);
    var again := RunningRow(missing, Launch(3, "2"));
    var removed := RemovedRow(again, stopped, 3);
    if k < 3 then inserted else if k < 5 then running else if k < 8 then stopped else if k < 9 then missing
    else if k < 10 then again else if k < 12 then removed else removed.(observed := Running, runtimeId := "2", stoppedAt := 0)
  }

  ghost function RowB(p: Pair, k: nat): Workspace
    requires p.y > 0 && p.memory > 0
  {
    var inserted := NewRow(Input(p.b, p.user, p.y, p.memory));
    if k < 11 then inserted else RunningRow(inserted, Launch(3, "3"))
  }

  ghost function Containers(p: Pair, k: nat): map<string, Container> {
    if k < 3 || 7 <= k < 9 then map[]
    else if k < 5 then map[p.a := Container("1", true, map[])]
    else if k < 7 then map[p.a := Container("1", false, map[])]
    else if k < 11 then map[p.a := Container("2", true, map[])]
    else map[p.a := Container("2", true, map[]), p.b := Container("3", true, map[])]
  }

  ghost function Snapshots(p: Pair, k: nat): set<Listed>
    requires p.x > 0 && p.memory > 0
  {
    if k < 4 then {} else if k < 6 then {Listed(p.a, RowA(p, 3))} else {Listed(p.a, RowA(p, 3)), Listed(p.a, RowA(p, 5))}
  }

  /** The system before move `k`. */
  ghost function Point(p: Pair, k: nat): System
    requires p.x > 0 && p.y > 0 && p.memory > 0
  {
    var rows := if k == 0 then map[] else if k == 1 then map[p.a := RowA(p, 1)] else map[p.a := RowA(p, k), p.b := RowB(p, k)];
    Sys(rows, Containers(p, k), Snapshots(p, k), if k == 0 then {} else if k == 1 then {p.a} else {p.a, p.b})
  }

  function Seen(p: Pair): map<string, Observation> {
    map[p.a := Observation("2", Running, 3), p.b := Observation("3", Running, 3)]
  }

  /** The first workspace runs, is read, stopped and read again; its container
      vanishes and it is started under a new handle before the timeout that read
      the stopped row gets its turn. */
  ghost function Move(p: Pair, k: nat): Step
    requires p.x > 0 && p.y > 0 && p.memory > 0
  {
    match k
    case 0 => Create(Input(p.a, p.user, p.x, p.memory), NoFaultCreation("1"))
    case 1 => Create(Input(p.b, p.user, p.y, p.memory), NoFaultCreation("1"))
    case 2 => StartOne(p.a, Launch(1, "1"))
    case 3 => Read(p.a)
    case 4 => StopOne(p.a, RowA(p, 3), 2, true)
    case 5 => Read(p.a)
    case 6 => ContainerVanishes(p.a)
    case 7 => ReconcileAll(map[], 3)
    case 8 => StartOne(p.a, Launch(3, "2"))
    case 9 => TimeOut(p.a, RowA(p, 5), 3, true)
    case 10 => StartOne(p.b, Launch(3, "3"))
    case _ => ReconcileAll(Seen(p), 3)
  }

  ghost predicate Moves(c: Config, p: Pair, k: nat)
    requires p.x > 0 && p.y > 0 && p.memory > 0
  {
    && Enabled(Point(p, k), Move(p, k)) && Point(p, k + 1) == Apply(c, Point(p, k), Move(p, k))
    && (Faithful(Point(p, k), Move(p, k)) <==> k != 9)
  }

  lemma FirstCreation(c: Config, p: Pair)
    requires Fits(c, p)
    ensures Moves(c, p, 0)
  {
    var input := Input(p.a, p.user, p.x, p.memory);
    CreateAdmitted(c, map[], p.a, RowA(p, 1), input, NoFaultCreation("1"));
    CreateInserts(c, Point(p, 0).state, input, NoFaultCreation("1"));
  }

  lemma SecondCreation(c: Config, p: Pair)
    requires Fits(c, p)
    ensures Moves(c, p, 1)
  {
    var input := Input(p.b, p.user, p.y, p.memory);
    CreateAdmitted(c, Point(p, 1).state.rows, p.a, RowA(p, 1), input, NoFaultCreation("1"));
    CreateInserts(c, Point(p, 1).state, input, NoFaultCreation("1"));
    assert Point(p, 1).state.rows[p.b := NewRow(input)] == Point(p, 2).state.rows;
  }

  /** What is left to check of a start once its row and its admission are known. */
  lemma StartMove(c: Config, before: System, after: System, id: string, now: Time, handle: string)
    requires id in before.state.rows && before.state.rows[id].observed != Running && NeedsContainer(before.state.rows[id])
    requires before.state.rows[id].mounts == [] && id !in before.state.containers && MayStart(c, before.state.rows, id)
    requires now > 0 && FreshHandle(before, handle)
    requires after == before.(state := before.state.(
                        rows := before.state.rows[id := RunningRow(before.state.rows[id], Launch(now, handle))],
                        containers := before.state.containers[id := Container(handle, true, map[])]))
    ensures Enabled(before, StartOne(id, Launch(now, handle))) && after == Apply(c, before, StartOne(id, Launch(now, handle)))
  {
    StartLaunches(c, before.state, id, now, handle);
  }

  lemma FirstStart(c: Config, p: Pair)
    requires Fits(c, p)
    ensures Moves(c, p, 2)
  {
    var before, after := Point(p, 2), Point(p, 3);
    PairAdmits(c, p.user, p.a, p.b, RowA(p, 2), RowB(p, 2), p.a);
    assert after.state.rows == before.state.rows[p.a := RunningRow(RowA(p, 2), Launch(1, "1"))];
    assert after.state.containers == before.state.containers[p.a := Container("1", true, map[])];
    StartMove(c, before, after, p.a, 1, "1");
  }

  lemma SecondHandle(p: Pair)
    requires p.a != p.b && p.x > 0 && p.y > 0 && p.memory > 0
    ensures FreshHandle(Point(p, 8), "2")
    ensures Point(p, 9) == Point(p, 8).(state := Point(p, 8).state.(
                             rows := Point(p, 8).state.rows[p.a := RunningRow(RowA(p, 8), Launch(3, "2"))],
                             containers := Point(p, 8).state.containers[p.a := Container("2", true, map[])]))
  {
    assert Point(p, 9).state.rows == Point(p, 8).state.rows[p.a := RunningRow(RowA(p, 8), Launch(3, "2"))];
    assert Point(p, 9).state.containers == Point(p, 8).state.containers[p.a := Container("2", true, map[])];
  }

  lemma SecondStart(c: Config, p: Pair)
    requires Fits(c, p)
    ensures Moves(c, p, 8)
  {
    SecondHandle(p);
    NoneRunning(c, p, 8);
    StartMove(c, Point(p, 8), Point(p, 9), p.a, 3, "2");
  }

  /** As far as the rows say nothing runs, so either workspace may start. */
  lemma NoneRunning(c: Config, p: Pair, k: nat)
    requires Fits(c, p) && (k == 8 || k == 10)
    ensures MayStart(c, Point(p, k).state.rows, p.a) && MayStart(c, Point(p, k).state.rows, p.b)
  {
    PairAdmits(c, p.user, p.a, p.b, RowA(p, k), RowB(p, k), p.a);
    PairAdmits(c, p.user, p.a, p.b, RowA(p, k), RowB(p, k), p.b);
  }

  lemma ThirdHandle(p: Pair)
    requires p.a != p.b && p.x > 0 && p.y > 0 && p.memory > 0
    ensures FreshHandle(Point(p, 10), "3")
    ensures Point(p, 11) == Point(p, 10).(state := Point(p, 10).state.(
                              rows := Point(p, 10).state.rows[p.b := RunningRow(RowB(p, 10), Launch(3, "3"))],
                              containers := Point(p, 10).state.containers[p.b := Container("3", true, map[])]))
  {
    assert RowA(p, 10) == RowA(p, 11);
    assert Point(p, 11).state.rows == Point(p, 10).state.rows[p.b := RunningRow(RowB(p, 10), Launch(3, "3"))];
    assert Point(p, 11).state.containers == Point(p, 10).state.containers[p.b := Container("3", true, map[])];
  }

  lemma StartOfTheOther(c: Config, p: Pair)
    requires Fits(c, p)
    ensures Moves(c, p, 10)
  {
    ThirdHandle(p);
    NoneRunning(c, p, 10);
    StartMove(c, Point(p, 10), Point(p, 11), p.b, 3, "3");
  }

  lemma StopMove(c: Config, p: Pair)
    requires Fits(c, p)
    ensures Moves(c, p, 4)
  {
    var s := Point(p, 4).state;
    var after, ok := StopEffect(s, p.a, RowA(p, 3), 2, true);
    assert Point(p, 5).state.rows == s.rows[p.a := HaltedRow(s.rows[p.a], RowA(p, 3), 2)];
    assert Point(p, 5).state.containers == s.containers[p.a := s.containers[p.a].(running := false)];
  }

  lemma VanishMove(c: Config, p: Pair)
    requires Fits(c, p)
    ensures Moves(c, p, 6)
  {
    assert Point(p, 7).state.containers == Point(p, 6).state.containers - {p.a};
  }

  lemma MissedMove(c: Config, p: Pair)
    requires Fits(c, p)
    ensures Moves(c, p, 7)
  {
    var rows := Point(p, 7).state.rows;
    var none: map<string, Observation> := map[];
    assert ReconciledRows(rows, none, 3) == Point(p, 8).state.rows by {
      assert ReconciledRow(RowA(p, 7), Lookup(none, p.a), 3) == RowA(p, 8);
      assert ReconciledRow(RowB(p, 7), Lookup(none, p.b), 3) == RowB(p, 8);
    }
    forall id ensures TruthfulAt(Point(p, 7).state, none, id) {
    }
  }

  lemma BothSeen(p: Pair)
    requires p.a != p.b && p.x > 0 && p.y > 0 && p.memory > 0
    ensures ReconciledRows(Point(p, 11).state.rows, Seen(p), 3) == Point(p, 12).state.rows
    ensures Truthful(Point(p, 11).state, Seen(p))
  {
    assert ReconciledRow(RowA(p, 11), Lookup(Seen(p), p.a), 3) == RowA(p, 12);
    assert ReconciledRow(RowB(p, 11), Lookup(Seen(p), p.b), 3) == RowB(p, 12);
    forall id ensures TruthfulAt(Point(p, 11).state, Seen(p), id) {
    }
  }

  lemma SeenMove(c: Config, p: Pair)
    requires Fits(c, p)
    ensures Moves(c, p, 11)
  {
    BothSeen(p);
  }

  lemma TimeoutMove(c: Config, p: Pair)
    requires Fits(c, p)
    ensures Moves(c, p, 9)
  {
    var s := Point(p, 9).state;
    assert HidesRunning(s, p.a, RowA(p, 5), 3, true);
    assert Point(p, 10).state.rows == s.rows[p.a := RemovedRow(s.rows[p.a], RowA(p, 5), 3)];
  }

  lemma EveryMove(c: Config, p: Pair, k: nat)
    requires Fits(c, p) && k < 12
    ensures Moves(c, p, k)
  {
    match k
    case 0 => FirstCreation(c, p);
    case 1 => SecondCreation(c, p);
    case 2 => FirstStart(c, p);
    case 4 => StopMove(c, p);
    case 6 => VanishMove(c, p);
    case 7 => MissedMove(c, p);
    case 8 => SecondStart(c, p);
    case 9 => TimeoutMove(c, p);
    case 10 => StartOfTheOther(c, p);
    case 11 => SeenMove(c, p);
    case _ =>
  }

  lemma EndsAboveCapacity(c: Config, p: Pair)
    requires Fits(c, p) && p.x as int + p.y as int > CpuCeiling(c) as int
    ensures !HostBound(c, Point(p, 12).state.rows)
  {
    PairTotal(p.a, p.b, RowA(p, 12), RowB(p, 12), AllOwners, RunningCpu);
  }

  ghost function Points(p: Pair): (r: seq<System>)
    requires p.x > 0 && p.y > 0 && p.memory > 0
    ensures |r| == 13 && forall k :: 0 <= k < 13 ==> r[k] == Point(p, k)
  {
    seq(13, k requires 0 <= k < 13 => Point(p, k))
  }

  ghost function AllMoves(p: Pair): (r: seq<Step>)
    requires p.x > 0 && p.y > 0 && p.memory > 0
    ensures |r| == 12 && forall k :: 0 <= k < 12 ==> r[k] == Move(p, k)
  {
    seq(12, k requires 0 <= k < 12 => Move(p, k))
  }

  lemma MoveAt(c: Config, p: Pair, k: nat)
    requires Fits(c, p) && k < 12
    ensures StepAt(c, Points(p), AllMoves(p), k)
    ensures Faithful(Points(p)[k], AllMoves(p)[k]) <==> k != 9
  {
    EveryMove(c, p, k);
    assert Points(p)[k + 1] == Point(p, k + 1);
  }

  /** From the empty control plane, with every start admitted, every observation
      true and one single outdated timeout, the running workspaces end up with
      more than the host's capacity. */
  lemma OutdatedTimeoutBreaksHostBound(c: Config, p: Pair) returns (trace: seq<System>, steps: seq<Step>)
    requires Fits(c, p) && p.x as int + p.y as int > CpuCeiling(c) as int
    ensures Run(c, trace, steps) && Initial(trace[0]) && |steps| == 12
    ensures forall i :: 0 <= i < |steps| ==> (Faithful(trace[i], steps[i]) <==> i != 9)
    ensures steps[9].TimeOut?
    ensures !HostBound(c, trace[12].state.rows)
  {
    trace, steps := Points(p), AllMoves(p);
    forall i | 0 <= i < |steps| ensures StepAt(c, trace, steps, i) && (Faithful(trace[i], steps[i]) <==> i != 9) {
      MoveAt(c, p, i);
    }
    EndsAboveCapacity(c, p);
    assert trace[0] == Point(p, 0) && trace[12] == Point(p, 12) && steps[9] == Move(p, 9);
  }
}
