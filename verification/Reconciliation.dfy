/** Reconciliation with the runtime: the validated observation list
    (internal/runtime/inspection.go) and what one pass makes of the rows. */
module Reconciliation {
  import opened Domain
  import opened Quota
  import opened Timeouts
  import opened Mounts
  import opened Lifecycle

  datatype ObservedWorkspace = ObservedWorkspace(workspaceId: string, runtimeId: string, state: Observed, observedAt: Time)

  /** No ID is empty and neither kind of ID occurs twice. */
  ghost predicate ValidObservations(list: seq<ObservedWorkspace>) {
    && (forall i :: 0 <= i < |list| ==> list[i].workspaceId != "" && list[i].runtimeId != "")
    && (forall i, j :: 0 <= i < j < |list| ==> list[i].workspaceId != list[j].workspaceId && list[i].runtimeId != list[j].runtimeId)
  }

  method ValidateObservations(list: seq<ObservedWorkspace>) returns (ok: bool)
    ensures ok <==> ValidObservations(list)
  {
    var workspaceIds: set<string>, runtimeIds: set<string> := {}, {};
    for i := 0 to |list|
      invariant ValidObservations(list[..i])
      invariant forall id :: id in workspaceIds <==> exists j :: 0 <= j < i && list[j].workspaceId == id
      invariant forall id :: id in runtimeIds <==> exists j :: 0 <= j < i && list[j].runtimeId == id
    {
      var w := list[i];
      if w.workspaceId == "" || w.runtimeId == "" || w.workspaceId in workspaceIds || w.runtimeId in runtimeIds {
        return false;
      }
      workspaceIds := workspaceIds + {w.workspaceId};
      runtimeIds := runtimeIds + {w.runtimeId};
    }
    assert list[..|list|] == list;
    return true;
  }

  function AsObservation(w: ObservedWorkspace): Observation {
    Observation(w.runtimeId, w.state, w.observedAt)
  }

  ghost predicate Indexes(index: map<string, Observation>, list: seq<ObservedWorkspace>) {
    && (forall id :: id in index ==> exists w :: w in list && w.workspaceId == id)
    && (forall w :: w in list ==> w.workspaceId in index && index[w.workspaceId] == AsObservation(w))
  }

  lemma IndexGrows(index: map<string, Observation>, list: seq<ObservedWorkspace>, w: ObservedWorkspace)
    requires Indexes(index, list) && forall v :: v in list ==> v.workspaceId != w.workspaceId
    ensures Indexes(index[w.workspaceId := AsObservation(w)], list + [w])
  {
  }

  /** The map that Reconcile builds; validation makes it lossless. */
  method IndexObservations(list: seq<ObservedWorkspace>) returns (index: map<string, Observation>)
    requires ValidObservations(list)
    ensures Indexes(index, list)
  {
    index := map[];
    for i := 0 to |list|
      invariant Indexes(index, list[..i])
    {
      assert list[..i + 1] == list[..i] + [list[i]];
      IndexGrows(index, list[..i], list[i]);
      index := index[list[i].workspaceId := AsObservation(list[i])];
    }
    assert list[..|list|] == list;
  }

  /** The order of the list, and therefore the sort in Inspect, does not matter. */
  lemma OrderIsIrrelevant(a: seq<ObservedWorkspace>, b: seq<ObservedWorkspace>, x: map<string, Observation>,
                          y: map<string, Observation>)
    requires multiset(a) == multiset(b) && Indexes(x, a) && Indexes(y, b)
    ensures x == y
  {
    SubIndex(a, b, x, y);
    SubIndex(b, a, y, x);
  }

  lemma SubIndex(a: seq<ObservedWorkspace>, b: seq<ObservedWorkspace>, x: map<string, Observation>,
                 y: map<string, Observation>)
    requires multiset(a) == multiset(b) && Indexes(x, a) && Indexes(y, b)
    ensures forall id :: id in x ==> id in y && x[id] == y[id]
  {
    forall id | id in x ensures id in y && x[id] == y[id] {
      var w :| w in a && w.workspaceId == id;
      assert w in multiset(b);
    }
  }

  // ---------------------------------------------------------------------
  // One pass

  /** After a pass a row is as observed, or missing, or untouched because it was
      removed or never had a container; the operator's and the users' columns
      are never touched. */
  lemma PassAgreesWithRuntime(rows: map<string, Workspace>, observations: map<string, Observation>, at: Time,
                              id: string)
    requires id in rows
    ensures var before, after := rows[id], ReconciledRows(rows, observations, at)[id];
            && (if id in observations then after.observed == Normalize(observations[id].state) && after.runtimeId == observations[id].runtimeId
                else if before.runtimeId == "" || before.observed == Removed then after == before
                else after.observed == Missing && after.runtimeId == before.runtimeId)
            && after.desired == before.desired && after.activeSessions == before.activeSessions && after.idleSince == before.idleSince
            && after.lastConnectedAt == before.lastConnectedAt && after.containerDeletedAt == before.containerDeletedAt
    ensures var after := ReconciledRows(rows, observations, at)[id];
            after.observed != Exited || (id !in observations && rows[id].observed == Exited)
  {
  }

  /** A second pass with the same observations changes nothing, at whatever time. */
  lemma PassIsIdempotent(rows: map<string, Workspace>, observations: map<string, Observation>, at: Time, later: Time)
    requires at > 0
    ensures ReconciledRows(ReconciledRows(rows, observations, at), observations, later) == ReconciledRows(rows, observations, at)
  {
  }
}
