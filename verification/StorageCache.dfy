/** The single-flight cache of storage measurements (internal/workspace/storage.go).
    Each critical section under the provider's mutex is one step; measurements,
    waits and cancellations happen between steps, in any interleaving. */
module StorageCache {
  import opened Domain

  const VALUE_TTL: int := 30
  const ERROR_TTL: int := 5
  const MAX_ENTRIES: nat := 1024

  /** `Cancelled` stands for a measurement ended by its caller's context. */
  datatype Outcome = Usage(bytes: int) | Failure | Cancelled

  /** A cache entry: its channel is open while it is measured and closed after. */
  datatype Entry =
    | Measuring(workspace: string, fingerprint: string)
    | Done(workspace: string, fingerprint: string, outcome: Outcome, measuredAt: int)

  /** The cached pointers and everything allocated so far; an address is an index. */
  datatype Cache = Cache(cached: map<string, nat>, heap: seq<Entry>)

  ghost predicate ValidCache(c: Cache) {
    forall w :: w in c.cached ==> c.cached[w] < |c.heap| && c.heap[c.cached[w]].workspace == w
  }

  function Lifetime(outcome: Outcome): int {
    if outcome.Usage? then VALUE_TTL else ERROR_TTL
  }

  // ---------------------------------------------------------------------
  // The two critical sections

  datatype Looked = Served(outcome: Outcome) | MustWait(entry: nat) | MustMeasure(entry: nat)

  /** The first completed entry in the order in which the map is iterated. */
  function FirstDone(c: Cache, order: seq<string>): (r: Option<string>)
    requires ValidCache(c) && forall i :: 0 <= i < |order| ==> order[i] in c.cached
    ensures r.Some? ==> r.value in c.cached && c.heap[c.cached[r.value]].Done?
    ensures r.None? ==> forall i :: 0 <= i < |order| ==> c.heap[c.cached[order[i]]].Measuring?
  {
    if order == [] then None
    else if c.heap[c.cached[order[0]]].Done? then Some(order[0])
    else FirstDone(c, order[1..])
  }

  /** The map's keys in some order. */
  ghost predicate Iterates(order: seq<string>, c: Cache) {
    forall w :: w in order <==> w in c.cached
  }

  ghost function Evicted(c: Cache, workspace: string, order: seq<string>): map<string, nat>
    requires ValidCache(c) && Iterates(order, c)
  {
    if workspace in c.cached || |c.cached| < MAX_ENTRIES then c.cached
    else
      var victim := FirstDone(c, order);
      if victim.Some? then c.cached - {victim.value} else c.cached
  }

  ghost predicate Matches(c: Cache, workspace: string, fingerprint: string)
    requires ValidCache(c)
  {
    workspace in c.cached && c.heap[c.cached[workspace]].fingerprint == fingerprint
  }

  ghost function LookSpec(c: Cache, workspace: string, fingerprint: string, now: int,
                          order: seq<string>): (r: (Cache, Looked))
    requires ValidCache(c) && Iterates(order, c)
  {
    if Matches(c, workspace, fingerprint) && c.heap[c.cached[workspace]].Measuring? then (c, MustWait(c.cached[workspace]))
    else if Matches(c, workspace, fingerprint)
            && now - c.heap[c.cached[workspace]].measuredAt < Lifetime(c.heap[c.cached[workspace]].outcome)
    then (c, Served(c.heap[c.cached[workspace]].outcome))
    else (Cache(Evicted(c, workspace, order)[workspace := |c.heap|], c.heap + [Measuring(workspace, fingerprint)]), MustMeasure(|c.heap|))
  }

  ghost function FinishSpec(c: Cache, entry: nat, outcome: Outcome, now: int): Cache
    requires entry < |c.heap|
  {
    var e := c.heap[entry];
    var heap := c.heap[entry := Done(e.workspace, e.fingerprint, outcome, now)];
    if outcome == Cancelled && e.workspace in c.cached && c.cached[e.workspace] == entry then Cache(c.cached - {e.workspace}, heap)
    else Cache(c.cached, heap)
  }

  class StorageUsageProvider {
    var cached: map<string, nat>
    var heap: seq<Entry>

    ghost function View(): Cache
      reads this
    {
      Cache(cached, heap)
    }

    constructor ()
      ensures View() == Cache(map[], [])
    {
      cached, heap := map[], [];
    }

    /** From the lock to the unlock of WorkspaceStorageUsage's loop. */
    method Look(workspace: string, fingerprint: string, now: int, order: seq<string>) returns (looked: Looked)
      requires ValidCache(View()) && Iterates(order, View())
      modifies this
      ensures (View(), looked) == LookSpec(old(View()), workspace, fingerprint, now, order)
    {
      if workspace in cached {
        var entry := heap[cached[workspace]];
        if entry.fingerprint == fingerprint {
          if entry.Measuring? {
            return MustWait(cached[workspace]);
          }
          var ttl := VALUE_TTL;
          if !entry.outcome.Usage? {
            ttl := ERROR_TTL;
          }
          if now - entry.measuredAt < ttl {
            return Served(entry.outcome);
          }
        }
      }
      if workspace !in cached && |cached| >= MAX_ENTRIES {
        EvictOne(order);
      }
      cached := cached[workspace := |heap|];
      heap := heap + [Measuring(workspace, fingerprint)];
      return MustMeasure(|heap| - 1);
    }

    method EvictOne(order: seq<string>)
      requires ValidCache(View()) && Iterates(order, View())
      modifies this`cached
      ensures var victim := FirstDone(old(View()), order);
              cached == if victim.Some? then old(cached) - {victim.value} else old(cached)
    {
      var i := 0;
      while i < |order|
        invariant i <= |order|
        invariant cached == old(cached) && FirstDone(View(), order) == FirstDone(View(), order[i..])
      {
        if heap[cached[order[i]]].Done? {
          cached := cached - {order[i]};
          return;
        }
        i := i + 1;
      }
    }

    /** The section that publishes a measurement and closes the entry's channel. */
    method Finish(entry: nat, outcome: Outcome, now: int)
      requires entry < |heap|
      modifies this
      ensures View() == FinishSpec(old(View()), entry, outcome, now)
    {
      var e := heap[entry];
      heap := heap[entry := Done(e.workspace, e.fingerprint, outcome, now)];
      if outcome == Cancelled {
        if e.workspace in cached && cached[e.workspace] == entry {
          cached := cached - {e.workspace};
        }
      }
    }
  }

  // ---------------------------------------------------------------------
  // Callers

  datatype Caller =
    | Looking(workspace: string, fingerprint: string)
    | Waiting(workspace: string, fingerprint: string, entry: nat)
    | Measures(workspace: string, fingerprint: string, entry: nat)
    | Returned(workspace: string, fingerprint: string, outcome: Outcome, at: int)

  /** A completed measurement, made on behalf of one caller. */
  datatype Measurement = Measurement(workspace: string, fingerprint: string, outcome: Outcome, at: int)

  /** `closed[e]` counts how often entry `e`'s channel was closed, `peak` is the
      largest number of simultaneous measurements so far. */
  datatype System = System(cache: Cache, callers: map<nat, Caller>, measured: set<Measurement>, closed: seq<nat>, peak: nat)

  datatype Step =
    | Call(caller: nat, workspace: string, fingerprint: string)
    | Look(caller: nat, now: int, order: seq<string>)
    | Wake(caller: nat)
    | GiveUp(caller: nat, now: int)
    | Finish(caller: nat, outcome: Outcome, now: int)

  ghost predicate Enabled(s: System, step: Step) {
    match step
    case Call(k, _, _) => k !in s.callers
    case Look(k, _, order) => k in s.callers && s.callers[k].Looking? && Iterates(order, s.cache)
    case Wake(k) => k in s.callers && s.callers[k].Waiting? && s.callers[k].entry < |s.closed| && s.closed[s.callers[k].entry] > 0
    case GiveUp(k, _) => k in s.callers && s.callers[k].Waiting?
    case Finish(k, _, _) => k in s.callers && s.callers[k].Measures?
  }

  ghost function Active(c: Cache): set<nat> {
    set e | 0 <= e < |c.heap| && c.heap[e].Measuring?
  }

  function Max(a: nat, b: nat): nat {
    if a < b then b else a
  }

  ghost function Apply(s: System, step: Step): System
    requires Inv(s) && Enabled(s, step)
  {
    match step
    case Call(k, workspace, fingerprint) => s.(callers := s.callers[k := Looking(workspace, fingerprint)])
    case Look(k, now, order) =>
      var w, f := s.callers[k].workspace, s.callers[k].fingerprint;
      var (cache, looked) := LookSpec(s.cache, w, f, now, order);
      (match looked
       case Served(outcome) => s.(callers := s.callers[k := Returned(w, f, outcome, now)])
       case MustWait(e) => s.(callers := s.callers[k := Waiting(w, f, e)])
       case MustMeasure(e) =>
         s.(cache := cache, callers := s.callers[k := Measures(w, f, e)], closed := s.closed + [0], peak := Max(s.peak, |Active(cache)|)))
    case Wake(k) => s.(callers := s.callers[k := Looking(s.callers[k].workspace, s.callers[k].fingerprint)])
    case GiveUp(k, now) => s.(callers := s.callers[k := Returned(s.callers[k].workspace, s.callers[k].fingerprint, Cancelled, now)])
    case Finish(k, outcome, now) =>
      var caller := s.callers[k];
      assert IsMeasurer(s, k, caller.entry);
      s.(cache := FinishSpec(s.cache, caller.entry, outcome, now),
         callers := s.callers[k := Returned(caller.workspace, caller.fingerprint, outcome, now)],
         measured := s.measured + {Measurement(caller.workspace, caller.fingerprint, outcome, now)},
         closed := s.closed[caller.entry := s.closed[caller.entry] + 1])
  }

  // ---------------------------------------------------------------------
  // What every interleaving keeps

  /** A cached result was measured for the entry's workspace and fingerprint, and
      no cancelled measurement stays in the cache. */
  ghost predicate CachedOk(c: Cache, measured: set<Measurement>)
    requires ValidCache(c)
  {
    forall w :: w in c.cached && c.heap[c.cached[w]].Done? ==>
      var e := c.heap[c.cached[w]]; e.outcome != Cancelled && Measurement(w, e.fingerprint, e.outcome, e.measuredAt) in measured
  }

  ghost predicate IsMeasurer(s: System, k: nat, e: nat) {
    k in s.callers && s.callers[k].Measures? && s.callers[k].entry == e
  }

  /** Every entry under measurement has exactly one measurer. */
  ghost predicate MeasurersOk(s: System) {
    && (forall k, e: nat :: IsMeasurer(s, k, e) ==>
          e < |s.cache.heap| && s.cache.heap[e] == Measuring(s.callers[k].workspace, s.callers[k].fingerprint))
    && (forall k, l, e: nat :: IsMeasurer(s, k, e) && IsMeasurer(s, l, e) ==> k == l)
    && (forall e: nat :: e < |s.cache.heap| && s.cache.heap[e].Measuring? ==> exists k :: IsMeasurer(s, k, e))
  }

  ghost predicate WaitersOk(s: System) {
    forall k :: k in s.callers && s.callers[k].Waiting? ==>
      var e := s.callers[k].entry;
      e < |s.cache.heap| && s.cache.heap[e].workspace == s.callers[k].workspace && s.cache.heap[e].fingerprint == s.callers[k].fingerprint
  }

  /** The channel of an entry is open while it is measured and was closed once after. */
  ghost predicate ClosedOnce(s: System) {
    && |s.closed| == |s.cache.heap|
    && (forall e :: 0 <= e < |s.closed| ==> s.closed[e] == if s.cache.heap[e].Measuring? then 0 else 1)
  }

  ghost predicate SizeOk(s: System) {
    |Active(s.cache)| <= s.peak && |s.cache.cached| <= Max(MAX_ENTRIES, s.peak)
  }

  /** A result measured for this workspace and fingerprint that has not expired at `at`. */
  ghost predicate Fresh(s: System, workspace: string, fingerprint: string, outcome: Outcome, at: int) {
    exists m :: m in s.measured && m.workspace == workspace && m.fingerprint == fingerprint && m.outcome == outcome && at - m.at < Lifetime(outcome)
  }

  /** What a caller got is its own cancellation or a fresh result for its request. */
  ghost predicate ReturnsOk(s: System) {
    forall k :: k in s.callers && s.callers[k].Returned? && s.callers[k].outcome != Cancelled ==>
      Fresh(s, s.callers[k].workspace, s.callers[k].fingerprint, s.callers[k].outcome, s.callers[k].at)
  }

  ghost predicate Inv(s: System) {
    ValidCache(s.cache) && CachedOk(s.cache, s.measured) && MeasurersOk(s) && WaitersOk(s) && ClosedOnce(s) && SizeOk(s)
  }

  lemma {:induction false} EntriesAreActive(cached: map<string, nat>, heap: seq<Entry>, active: set<nat>)
    requires forall w :: w in cached ==> cached[w] < |heap| && heap[cached[w]].workspace == w && cached[w] in active
    ensures |cached| <= |active|
    decreases |cached|
  {
    if cached != map[] {
      var w :| w in cached;
      assert (cached - {w}).Keys == cached.Keys - {w};
      EntriesAreActive(cached - {w}, heap, active - {cached[w]});
    }
  }

  lemma AllMeasured(c: Cache, order: seq<string>)
    requires ValidCache(c) && Iterates(order, c) && FirstDone(c, order).None?
    ensures |c.cached| <= |Active(c)|
  {
    forall w | w in c.cached ensures c.cached[w] in Active(c) {
      var i :| 0 <= i < |order| && order[i] == w;
    }
    EntriesAreActive(c.cached, c.heap, Active(c));
  }

  lemma EvictionMakesRoom(c: Cache, workspace: string, order: seq<string>)
    requires ValidCache(c) && Iterates(order, c)
    ensures var evicted := Evicted(c, workspace, order);
            && evicted.Keys <= c.cached.Keys && (forall w :: w in evicted ==> evicted[w] == c.cached[w])
            && |evicted.Keys + {workspace}| <= Max(|c.cached|, Max(MAX_ENTRIES, |Active(c)| + 1))
  {
    var evicted := Evicted(c, workspace, order);
    if workspace in c.cached {
      assert evicted.Keys + {workspace} == c.cached.Keys;
    } else if |c.cached| >= MAX_ENTRIES {
      var victim := FirstDone(c, order);
      if victim.Some? {
        assert evicted.Keys == c.cached.Keys - {victim.value};
      } else {
        AllMeasured(c, order);
      }
    }
  }

  lemma EntryAdded(c: Cache, workspace: string, fingerprint: string)
    ensures |Active(Cache(c.cached, c.heap + [Measuring(workspace, fingerprint)]))| == |Active(c)| + 1
  {
    assert Active(Cache(c.cached, c.heap + [Measuring(workspace, fingerprint)])) == Active(c) + {|c.heap|};
  }

  /** The cache after a look that starts a measurement. */
  ghost function WithEntry(c: Cache, w: string, f: string, order: seq<string>): Cache
    requires ValidCache(c) && Iterates(order, c)
  {
    Cache(Evicted(c, w, order)[w := |c.heap|], c.heap + [Measuring(w, f)])
  }

  lemma MeasureKeepsCached(c: Cache, measured: set<Measurement>, w: string, f: string, order: seq<string>)
    requires ValidCache(c) && Iterates(order, c) && CachedOk(c, measured)
    ensures ValidCache(WithEntry(c, w, f, order)) && CachedOk(WithEntry(c, w, f, order), measured)
    ensures |Active(WithEntry(c, w, f, order))| == |Active(c)| + 1
    ensures |WithEntry(c, w, f, order).cached| <= Max(|c.cached|, Max(MAX_ENTRIES, |Active(c)| + 1))
  {
    EvictionMakesRoom(c, w, order);
    EntryAdded(c, w, f);
    var after := WithEntry(c, w, f, order);
    assert Active(after) == Active(Cache(c.cached, c.heap + [Measuring(w, f)]));
    assert after.cached.Keys == Evicted(c, w, order).Keys + {w};
    forall v | v in after.cached
      ensures after.cached[v] < |after.heap|
      ensures (v != w ==> v in c.cached && after.heap[after.cached[v]] == c.heap[c.cached[v]])
    {
    }
  }

  lemma MeasureKeepsInv(s: System, k: nat, now: int, order: seq<string>)
    requires Inv(s) && Enabled(s, Look(k, now, order))
    requires LookSpec(s.cache, s.callers[k].workspace, s.callers[k].fingerprint, now, order).1.MustMeasure?
    ensures Inv(Apply(s, Look(k, now, order)))
  {
    var w, f := s.callers[k].workspace, s.callers[k].fingerprint;
    var after := Apply(s, Look(k, now, order));
    assert after.cache == WithEntry(s.cache, w, f, order);
    MeasureKeepsCached(s.cache, s.measured, w, f, order);
    MeasureKeepsMeasurers(s, after, k, w, f);
    MeasureKeepsWaiters(s, after, k, w, f);
  }

  lemma MeasureKeepsWaiters(s: System, after: System, k: nat, w: string, f: string)
    requires WaitersOk(s) && ClosedOnce(s) && after.closed == s.closed + [0]
    requires after.cache.heap == s.cache.heap + [Measuring(w, f)]
    requires after.callers == s.callers[k := Measures(w, f, |s.cache.heap|)]
    ensures WaitersOk(after) && ClosedOnce(after)
  {
  }

  lemma MeasureKeepsMeasurers(s: System, after: System, k: nat, w: string, f: string)
    requires MeasurersOk(s) && k in s.callers && s.callers[k].Looking?
    requires after.cache.heap == s.cache.heap + [Measuring(w, f)]
    requires after.callers == s.callers[k := Measures(w, f, |s.cache.heap|)]
    ensures MeasurersOk(after)
  {
    var added := |s.cache.heap|;
    forall l, e: nat | IsMeasurer(after, l, e)
      ensures e < |after.cache.heap|
      ensures after.cache.heap[e] == Measuring(after.callers[l].workspace, after.callers[l].fingerprint)
      ensures l == k <==> e == added
    {
      if l != k {
        assert IsMeasurer(s, l, e);
      }
    }
    forall l, m, e: nat | IsMeasurer(after, l, e) && IsMeasurer(after, m, e) ensures l == m {
      assert l != k && m != k ==> IsMeasurer(s, l, e) && IsMeasurer(s, m, e);
    }
    forall e: nat | e < |after.cache.heap| && after.cache.heap[e].Measuring? ensures exists l :: IsMeasurer(after, l, e) {
      if e == added {
        assert IsMeasurer(after, k, e);
      } else {
        var l :| IsMeasurer(s, l, e);
        assert IsMeasurer(after, l, e);
      }
    }
  }

  lemma FinishKeepsMeasurers(s: System, after: System, k: nat, outcome: Outcome, now: int)
    requires Inv(s) && Enabled(s, Finish(k, outcome, now)) && after == Apply(s, Finish(k, outcome, now))
    ensures MeasurersOk(after)
  {
    var entry := s.callers[k].entry;
    assert IsMeasurer(s, k, entry);
    forall l, e: nat | IsMeasurer(after, l, e)
      ensures e < |after.cache.heap|
      ensures after.cache.heap[e] == Measuring(after.callers[l].workspace, after.callers[l].fingerprint)
      ensures IsMeasurer(s, l, e)
    {
      assert IsMeasurer(s, l, e);
    }
    forall e: nat | e < |after.cache.heap| && after.cache.heap[e].Measuring? ensures exists l :: IsMeasurer(after, l, e) {
      var l :| IsMeasurer(s, l, e);
      assert IsMeasurer(after, l, e);
    }
  }

  lemma FinishKeepsCached(c: Cache, measured: set<Measurement>, entry: nat, outcome: Outcome, now: int)
    requires ValidCache(c) && CachedOk(c, measured) && entry < |c.heap| && c.heap[entry].Measuring?
    ensures var after, e := FinishSpec(c, entry, outcome, now), c.heap[entry];
            && ValidCache(after) && CachedOk(after, measured + {Measurement(e.workspace, e.fingerprint, outcome, now)})
            && |after.heap| == |c.heap| && |after.cached| <= |c.cached| && |Active(after)| <= |Active(c)|
  {
    var after := FinishSpec(c, entry, outcome, now);
    assert Active(after) == Active(c) - {entry};
    assert after.cached.Keys <= c.cached.Keys;
    SubsetSize(after.cached.Keys, c.cached.Keys);
  }

  lemma FinishKeepsCache(s: System, after: System, k: nat, outcome: Outcome, now: int)
    requires Inv(s) && Enabled(s, Finish(k, outcome, now)) && after == Apply(s, Finish(k, outcome, now))
    ensures ValidCache(after.cache) && CachedOk(after.cache, after.measured) && WaitersOk(after)
    ensures ClosedOnce(after) && SizeOk(after)
  {
    assert IsMeasurer(s, k, s.callers[k].entry);
    FinishKeepsCached(s.cache, s.measured, s.callers[k].entry, outcome, now);
  }

  lemma SubsetSize(a: set<string>, b: set<string>)
    requires a <= b
    ensures |a| <= |b|
  {
    assert a + (b - a) == b;
  }

  lemma OtherCallerKeepsMeasurers(s: System, after: System, k: nat)
    requires MeasurersOk(s) && after.cache == s.cache && !(k in s.callers && s.callers[k].Measures?)
    requires k in after.callers && after.callers == s.callers[k := after.callers[k]] && !after.callers[k].Measures?
    ensures MeasurersOk(after)
  {
    forall l, e: nat ensures IsMeasurer(after, l, e) <==> IsMeasurer(s, l, e) {
    }
  }

  lemma StepKeepsInv(s: System, step: Step)
    requires Inv(s) && Enabled(s, step)
    ensures Inv(Apply(s, step))
  {
    var after := Apply(s, step);
    match step
    case Look(k, now, order) =>
      if LookSpec(s.cache, s.callers[k].workspace, s.callers[k].fingerprint, now, order).1.MustMeasure? {
        MeasureKeepsInv(s, k, now, order);
      } else {
        OtherCallerKeepsMeasurers(s, after, k);
      }
    case Finish(k, outcome, now) =>
      FinishKeepsMeasurers(s, after, k, outcome, now);
      FinishKeepsCache(s, after, k, outcome, now);
    case _ => OtherCallerKeepsMeasurers(s, after, step.caller);
  }

  /** A result taken from the cache was measured for the caller's own workspace
      and fingerprint, is younger than its lifetime and was not cancelled. */
  lemma ServedIsFresh(s: System, k: nat, now: int, order: seq<string>)
    requires Inv(s) && Enabled(s, Look(k, now, order))
    requires LookSpec(s.cache, s.callers[k].workspace, s.callers[k].fingerprint, now, order).1.Served?
    ensures var w, f := s.callers[k].workspace, s.callers[k].fingerprint;
            var outcome := LookSpec(s.cache, w, f, now, order).1.outcome;
            && outcome != Cancelled && Fresh(s, w, f, outcome, now)
            && exists at :: Measurement(w, f, outcome, at) in s.measured && now - at < if outcome.Usage? then 30 else 5
  {
    var w, f := s.callers[k].workspace, s.callers[k].fingerprint;
    var e := s.cache.heap[s.cache.cached[w]];
    assert Measurement(w, f, e.outcome, e.measuredAt) in s.measured;
  }

  /** A look is answered from the cache exactly when the workspace's entry has the
      fingerprint and is younger than 30 seconds, or 5 for a failure; it waits for
      one under measurement, and otherwise measures under a new entry. */
  lemma LookServesIff(c: Cache, w: string, f: string, now: int, order: seq<string>)
    requires ValidCache(c) && Iterates(order, c)
    ensures var (after, looked) := LookSpec(c, w, f, now, order);
            && (looked.Served? <==>
                  && w in c.cached && c.heap[c.cached[w]].Done? && c.heap[c.cached[w]].fingerprint == f
                  && now - c.heap[c.cached[w]].measuredAt < if c.heap[c.cached[w]].outcome.Usage? then 30 else 5)
            && (looked.Served? ==> looked.outcome == c.heap[c.cached[w]].outcome && after == c)
            && (looked.MustWait? <==> w in c.cached && c.heap[c.cached[w]] == Measuring(w, f))
            && (looked.MustWait? ==> looked.entry == c.cached[w] && after == c)
            && (looked.MustMeasure? ==>
                  && looked.entry == |c.heap| && after.heap == c.heap + [Measuring(w, f)]
                  && w in after.cached && after.cached[w] == |c.heap|)
  {
  }

  /** What was measured is served to the next one who asks with that fingerprint in time. */
  lemma MeasuredIsServed(c: Cache, entry: nat, outcome: Outcome, at: int, now: int, order: seq<string>)
    requires ValidCache(c) && entry < |c.heap| && c.heap[entry].Measuring? && outcome != Cancelled
    requires c.heap[entry].workspace in c.cached && c.cached[c.heap[entry].workspace] == entry
    requires now - at < (if outcome.Usage? then 30 else 5)
    ensures var after := FinishSpec(c, entry, outcome, at);
            ValidCache(after) && (Iterates(order, after) ==>
                                    LookSpec(after, c.heap[entry].workspace, c.heap[entry].fingerprint, now, order) == (after, Served(outcome)))
  {
  }

  lemma StepKeepsReturns(s: System, step: Step)
    requires Inv(s) && ReturnsOk(s) && Enabled(s, step)
    ensures ReturnsOk(Apply(s, step))
  {
    var after := Apply(s, step);
    forall k | k in after.callers && after.callers[k].Returned? && after.callers[k].outcome != Cancelled
      ensures Fresh(after, after.callers[k].workspace, after.callers[k].fingerprint, after.callers[k].outcome, after.callers[k].at)
    {
      var r := after.callers[k];
      if k in s.callers && s.callers[k] == r {
        assert Fresh(s, r.workspace, r.fingerprint, r.outcome, r.at);
        var m :| m in s.measured && m.workspace == r.workspace && m.fingerprint == r.fingerprint && m.outcome == r.outcome && r.at - m.at < Lifetime(r.outcome);
        assert m in after.measured;
      } else if step.Look? {
        ServedIsFresh(s, k, step.now, step.order);
      } else {
        assert Measurement(r.workspace, r.fingerprint, r.outcome, r.at) in after.measured;
      }
    }
  }

  /** In every interleaving of any number of callers: the invariant holds, every
      channel is closed at most once, the cache stays within its bound, and what
      callers get is fresh and their own. */
  lemma RunsKeepCacheSound(trace: seq<System>, steps: seq<Step>)
    requires |trace| == |steps| + 1 && trace[0] == System(Cache(map[], []), map[], {}, [], 0)
    requires forall i :: 0 <= i < |steps| && Inv(trace[i]) ==> Enabled(trace[i], steps[i]) && trace[i + 1] == Apply(trace[i], steps[i])
    ensures forall i :: 0 <= i < |trace| ==> Inv(trace[i]) && ReturnsOk(trace[i]) && |trace[i].cache.cached| <= Max(1024, trace[i].peak)
  {
    assert Active(trace[0].cache) == {};
    for i := 0 to |steps|
      invariant forall k :: 0 <= k <= i ==> Inv(trace[k]) && ReturnsOk(trace[k])
    {
      StepKeepsInv(trace[i], steps[i]);
      StepKeepsReturns(trace[i], steps[i]);
    }
  }

  /** No caller waits for a channel nobody will close: it can go on at once, or
      after one step of the caller that measures its entry. */
  lemma WaitersAreWoken(s: System, k: nat, outcome: Outcome, now: int)
    requires Inv(s) && k in s.callers && s.callers[k].Waiting?
    ensures Enabled(s, Wake(k)) || exists l :: Enabled(s, Finish(l, outcome, now)) && Enabled(Apply(s, Finish(l, outcome, now)), Wake(k))
  {
    var e := s.callers[k].entry;
    if s.cache.heap[e].Measuring? {
      var l :| IsMeasurer(s, l, e);
      assert Enabled(s, Finish(l, outcome, now));
      var after := Apply(s, Finish(l, outcome, now));
      assert after.closed[e] == 1 && after.callers[k] == s.callers[k];
    }
  }

  // ---------------------------------------------------------------------
  // Single flight

  /** Entry `e` is a measurement of `w` that is under way. */
  ghost predicate Flight(c: Cache, w: string, e: nat) {
    e < |c.heap| && c.heap[e].Measuring? && c.heap[e].workspace == w
  }

  /** At most one measurement of `w` is under way, and callers find it in the cache. */
  ghost predicate SingleFlight(c: Cache, w: string) {
    forall e: nat :: Flight(c, w, e) ==> w in c.cached && c.cached[w] == e
  }

  /** A caller asks for `w` with another fingerprint than that of a flight. */
  ghost predicate ChangesDuringFlight(s: System, step: Step, w: string)
    requires Enabled(s, step)
  {
    step.Look? && s.callers[step.caller].workspace == w
    && exists e: nat :: Flight(s.cache, w, e) && s.cache.heap[e].fingerprint != s.callers[step.caller].fingerprint
  }

  lemma LookKeepsOthers(c: Cache, v: string, f: string, now: int, order: seq<string>, w: string)
    requires ValidCache(c) && Iterates(order, c) && v != w && SingleFlight(c, w)
    ensures SingleFlight(LookSpec(c, v, f, now, order).0, w)
  {
    var after := LookSpec(c, v, f, now, order).0;
    forall e: nat | Flight(after, w, e) ensures w in after.cached && after.cached[w] == e {
      assert Flight(c, w, e);
    }
  }

  lemma LookDecides(c: Cache, w: string, f: string, now: int, order: seq<string>)
    requires ValidCache(c) && Iterates(order, c) && SingleFlight(c, w)
    ensures SingleFlight(LookSpec(c, w, f, now, order).0, w) <==> forall e: nat :: Flight(c, w, e) ==> c.heap[e].fingerprint == f
  {
    var after := LookSpec(c, w, f, now, order).0;
    if e: nat :| Flight(c, w, e) && c.heap[e].fingerprint != f {
      assert Flight(after, w, e) && after.cached[w] == |c.heap|;
    } else {
      forall e: nat | Flight(after, w, e) ensures w in after.cached && after.cached[w] == e {
        assert e < |c.heap| ==> Flight(c, w, e);
      }
    }
  }

  lemma FinishKeepsSingle(c: Cache, entry: nat, outcome: Outcome, now: int, w: string)
    requires ValidCache(c) && entry < |c.heap| && c.heap[entry].Measuring? && SingleFlight(c, w)
    ensures SingleFlight(FinishSpec(c, entry, outcome, now), w)
  {
    var after := FinishSpec(c, entry, outcome, now);
    forall e: nat | Flight(after, w, e) ensures w in after.cached && after.cached[w] == e {
      assert Flight(c, w, e);
    }
  }

  /** A step ends the single flight of `w` exactly when it asks for `w` with
      another fingerprint while a measurement is under way. */
  lemma SingleFlightKeptIff(s: System, step: Step, w: string)
    requires Inv(s) && Enabled(s, step) && SingleFlight(s.cache, w)
    ensures SingleFlight(Apply(s, step).cache, w) <==> !ChangesDuringFlight(s, step, w)
  {
    match step
    case Look(k, now, order) =>
      var v, f := s.callers[k].workspace, s.callers[k].fingerprint;
      assert Apply(s, step).cache == LookSpec(s.cache, v, f, now, order).0;
      if v == w {
        LookDecides(s.cache, w, f, now, order);
      } else {
        LookKeepsOthers(s.cache, v, f, now, order, w);
      }
    case Finish(k, outcome, now) =>
      assert IsMeasurer(s, k, s.callers[k].entry);
      FinishKeepsSingle(s.cache, s.callers[k].entry, outcome, now, w);
    case _ =>
  }

  /** Without a change of the fingerprint during a flight at most one measurement
      of a workspace is under way in any state of any run. */
  lemma RunsMeasureOnce(trace: seq<System>, steps: seq<Step>, w: string, i: nat, e: nat, e': nat)
    requires |trace| == |steps| + 1 && trace[0] == System(Cache(map[], []), map[], {}, [], 0) && i < |trace|
    requires forall k :: 0 <= k < |steps| && Inv(trace[k]) ==>
               && Enabled(trace[k], steps[k]) && trace[k + 1] == Apply(trace[k], steps[k]) && !ChangesDuringFlight(trace[k], steps[k], w)
    requires Flight(trace[i].cache, w, e) && Flight(trace[i].cache, w, e')
    ensures e == e'
  {
    assert Active(trace[0].cache) == {};
    for k := 0 to i
      invariant Inv(trace[k]) && SingleFlight(trace[k].cache, w)
    {
      StepKeepsInv(trace[k], steps[k]);
      SingleFlightKeptIff(trace[k], steps[k], w);
    }
  }

  /** The result of entry `e` has expired. */
  ghost predicate Expired(c: Cache, e: nat, now: int)
    requires e < |c.heap|
  {
    c.heap[e].Done? && now - c.heap[e].measuredAt >= Lifetime(c.heap[e].outcome)
  }

  ghost predicate IsFor(c: Cache, e: nat, w: string, f: string) {
    e < |c.heap| && c.heap[e].workspace == w && c.heap[e].fingerprint == f
  }

  /** While entry `e` measures a request the same request is measured a second
      time exactly when the workspace's cached entry is not `e` and no entry that
      could answer: one for another fingerprint or an expired one. When `e` is the
      only entry that could, this is whether the cache still holds `e`. */
  lemma SecondFlightIff(s: System, k: nat, now: int, order: seq<string>, e: nat)
    requires Inv(s) && Enabled(s, Look(k, now, order))
    requires e < |s.cache.heap| && s.cache.heap[e] == Measuring(s.callers[k].workspace, s.callers[k].fingerprint)
    ensures var w, f := s.callers[k].workspace, s.callers[k].fingerprint;
            var after, added := Apply(s, Look(k, now, order)).cache, |s.cache.heap|;
            && (IsFor(after, added, w, f) <==>
                  !(w in s.cache.cached && IsFor(s.cache, s.cache.cached[w], w, f) && !Expired(s.cache, s.cache.cached[w], now)))
            && (IsFor(after, added, w, f) ==> Flight(after, w, e) && Flight(after, w, added))
            && ((forall x: nat :: IsFor(s.cache, x, w, f) && x != e ==> Expired(s.cache, x, now)) ==>
                  (IsFor(after, added, w, f) <==> !(w in s.cache.cached && s.cache.cached[w] == e)))
  {
  }

  /** A request as it runs into this: when the fingerprint changes and changes back
      during a measurement, the same request is measured twice at once. */
  lemma FingerprintChangeOverlapsFlights(c: Cache, workspace: string, a: string, b: string, now: int,
                                         order: seq<string>, order': seq<string>)
    requires ValidCache(c) && Iterates(order, c) && a != b
    requires Matches(c, workspace, a) && c.heap[c.cached[workspace]].Measuring?
    ensures var (changed, first) := LookSpec(c, workspace, b, now, order);
            first.MustMeasure? && ValidCache(changed) &&
            (Iterates(order', changed) ==>
               var (back, second) := LookSpec(changed, workspace, a, now, order');
               && second.MustMeasure? && second.entry != c.cached[workspace]
               && back.heap[second.entry] == Measuring(workspace, a) == back.heap[c.cached[workspace]])
  {
  }
}
