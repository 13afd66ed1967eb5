/**
  Runtime facts of an endpoint, derived from the history of its Collection runs
  (src/sources/repository.ts, src/sources/endpoint-health.ts).
 */
module EndpointRuntime {
  import opened Prelude

  type Id = nat

  datatype RunStatus = Running | Succeeded | FailedRun

  datatype Run = Run(endpoint: Id, status: RunStatus, finishedAt: Option<int>, notModified: bool,
                     etag: Option<string>, lastModified: Option<string>)

  datatype Endpoint = Endpoint(
    pollInterval: int, lastAttemptAt: Option<int>, lastSuccessAt: Option<int>, lastFailureAt: Option<int>,
    consecutiveFailures: nat, cooldownUntil: Option<int>, nextDueAt: Option<int>,
    etag: Option<string>, lastModified: Option<string>, updatedAt: int)

  type Runs = map<Id, Run>

  predicate Terminal(run: Run) { !run.status.Running? && run.finishedAt.Some? }

  // ---------------------------------------------------------------------------
  // The history query

  predicate SucceededBy(runs: Runs, id: Id, endpoint: Id, at: int) {
    id in runs && runs[id].endpoint == endpoint && runs[id].status == Succeeded &&
    runs[id].finishedAt.Some? && runs[id].finishedAt.value <= at
  }

  /** A failed run finished by `at`, and after every success finished by `at`. */
  predicate FailedSince(runs: Runs, id: Id, endpoint: Id, at: int) {
    && id in runs && runs[id].endpoint == endpoint && runs[id].status == FailedRun
    && runs[id].finishedAt.Some? && runs[id].finishedAt.value <= at
    && forall s | s in runs && SucceededBy(runs, s, endpoint, at) :: runs[s].finishedAt.value < runs[id].finishedAt.value
  }

  function CountedFailures(runs: Runs, endpoint: Id, at: int): set<Id> {
    set id | id in runs && FailedSince(runs, id, endpoint, at)
  }

  function FailureCount(runs: Runs, endpoint: Id, at: int): nat { |CountedFailures(runs, endpoint, at)| }

  function Coalesce<T>(a: Option<T>, b: Option<T>): Option<T> { if a.Some? then a else b }

  predicate Applicable(runs: Runs, id: Id, e: Endpoint) {
    id in runs && Terminal(runs[id]) && (e.lastAttemptAt.None? || e.lastAttemptAt.value <= runs[id].finishedAt.value)
  }

  /** `applyTerminalCollectionRunToEndpointRuntime`. */
  function ApplyRun(runs: Runs, id: Id, e: Endpoint): Endpoint {
    if !Applicable(runs, id, e) then e else
    var run := runs[id];
    var at, succeeded := run.finishedAt.value, run.status.Succeeded?;
    e.(lastAttemptAt := Some(at),
       lastSuccessAt := if succeeded then Some(at) else e.lastSuccessAt,
       lastFailureAt := if succeeded then e.lastFailureAt else Some(at),
       consecutiveFailures := if succeeded then 0 else FailureCount(runs, run.endpoint, at),
       cooldownUntil := None,
       nextDueAt := Some(at + e.pollInterval),
       etag := if !succeeded then e.etag else if run.notModified then Coalesce(run.etag, e.etag) else run.etag,
       lastModified := if !succeeded then e.lastModified
                       else if run.notModified then Coalesce(run.lastModified, e.lastModified) else run.lastModified,
       updatedAt := Max(e.updatedAt, at))
  }

  /** `applyCooldownFromFinalCollectionFailure`. */
  function ApplyCooldown(runs: Runs, id: Id, e: Endpoint, minimumSeconds: int, threshold: int): Endpoint {
    if id in runs && runs[id].status == FailedRun && runs[id].finishedAt.Some? &&
       e.lastAttemptAt == runs[id].finishedAt && e.consecutiveFailures >= threshold
    then e.(cooldownUntil := Some(runs[id].finishedAt.value + Max(e.pollInterval, minimumSeconds)),
            updatedAt := Max(e.updatedAt, runs[id].finishedAt.value))
    else e
  }

  // ---------------------------------------------------------------------------
  // The step-by-step counter

  /** The terminal runs of one endpoint in the order they finished, at distinct times. */
  ghost predicate IsHistory(runs: Runs, endpoint: Id, history: seq<Id>) {
    && (forall i | 0 <= i < |history| :: history[i] in runs && runs[history[i]].endpoint == endpoint && Terminal(runs[history[i]]))
    && (forall id | id in runs && runs[id].endpoint == endpoint && Terminal(runs[id]) :: id in history)
    && (forall i, j | 0 <= i < j < |history| ::
          runs[history[i]].finishedAt.value < runs[history[j]].finishedAt.value)
  }

  /** Zero on success, one more on failure. */
  function Counter(runs: Runs, history: seq<Id>): nat
    requires forall i | 0 <= i < |history| :: history[i] in runs
  {
    if history == [] || runs[history[|history| - 1]].status.Succeeded? then 0
    else 1 + Counter(runs, history[..|history| - 1])
  }

  /** The counter is the length of the block of failed runs at the end. */
  lemma {:induction false} CounterIsTrailingBlock(runs: Runs, history: seq<Id>)
    requires forall i | 0 <= i < |history| :: history[i] in runs && Terminal(runs[history[i]])
    ensures Counter(runs, history) <= |history|
    ensures forall i | |history| - Counter(runs, history) <= i < |history| :: runs[history[i]].status == FailedRun
    ensures Counter(runs, history) < |history| ==>
              runs[history[|history| - 1 - Counter(runs, history)]].status == Succeeded
    decreases |history|
  {
    if history != [] && !runs[history[|history| - 1]].status.Succeeded? {
      CounterIsTrailingBlock(runs, history[..|history| - 1]);
    }
  }

  function FinishOf(runs: Runs, history: seq<Id>, k: nat): int
    requires k < |history| && history[k] in runs
  {
    if runs[history[k]].finishedAt.Some? then runs[history[k]].finishedAt.value else 0
  }

  lemma CountAfterSuccess(runs: Runs, endpoint: Id, history: seq<Id>, k: nat)
    requires IsHistory(runs, endpoint, history) && k < |history| && runs[history[k]].status == Succeeded
    ensures FailureCount(runs, endpoint, FinishOf(runs, history, k)) == 0
  {
    var at := FinishOf(runs, history, k);
    assert SucceededBy(runs, history[k], endpoint, at);
    assert CountedFailures(runs, endpoint, at) == {};
  }

  /** What finished by run `k` is run `k` or finished by the one before it. */
  lemma FinishedByThen(runs: Runs, endpoint: Id, history: seq<Id>, k: nat, id: Id)
    requires IsHistory(runs, endpoint, history) && k < |history|
    requires id in runs && runs[id].endpoint == endpoint && Terminal(runs[id])
    ensures runs[id].finishedAt.value <= FinishOf(runs, history, k) <==>
            id == history[k] || (k > 0 && runs[id].finishedAt.value <= FinishOf(runs, history, k - 1))
  {
    assert id in history;
    var i :| 0 <= i < |history| && history[i] == id;
    assert i < k ==> FinishOf(runs, history, i) < FinishOf(runs, history, k);
    assert i > k ==> FinishOf(runs, history, i) > FinishOf(runs, history, k);
    assert 0 < k && i < k - 1 ==> FinishOf(runs, history, i) < FinishOf(runs, history, k - 1);
    assert 0 < k && i == k ==> FinishOf(runs, history, i) > FinishOf(runs, history, k - 1);
  }

  lemma FailedSinceThen(runs: Runs, endpoint: Id, history: seq<Id>, k: nat, id: Id)
    requires IsHistory(runs, endpoint, history) && 0 < k < |history| && runs[history[k]].status == FailedRun
    ensures FailedSince(runs, id, endpoint, FinishOf(runs, history, k)) <==>
            id == history[k] || FailedSince(runs, id, endpoint, FinishOf(runs, history, k - 1))
    ensures !FailedSince(runs, history[k], endpoint, FinishOf(runs, history, k - 1))
  {
    forall s | s in runs && runs[s].endpoint == endpoint && Terminal(runs[s])
      ensures SucceededBy(runs, s, endpoint, FinishOf(runs, history, k)) <==>
              SucceededBy(runs, s, endpoint, FinishOf(runs, history, k - 1))
      ensures SucceededBy(runs, s, endpoint, FinishOf(runs, history, k)) ==> runs[s].finishedAt.value < FinishOf(runs, history, k)
    {
      FinishedByThen(runs, endpoint, history, k, s);
      assert FinishOf(runs, history, k - 1) < FinishOf(runs, history, k);
    }
    if id in runs && runs[id].endpoint == endpoint && Terminal(runs[id]) {
      FinishedByThen(runs, endpoint, history, k, id);
    }
  }

  lemma CountAfterFailure(runs: Runs, endpoint: Id, history: seq<Id>, k: nat)
    requires IsHistory(runs, endpoint, history) && 0 < k < |history| && runs[history[k]].status == FailedRun
    ensures FailureCount(runs, endpoint, FinishOf(runs, history, k)) ==
            1 + FailureCount(runs, endpoint, FinishOf(runs, history, k - 1))
  {
    var before := CountedFailures(runs, endpoint, FinishOf(runs, history, k - 1));
    forall id
      ensures id in CountedFailures(runs, endpoint, FinishOf(runs, history, k)) <==> id in before + {history[k]}
    {
      FailedSinceThen(runs, endpoint, history, k, id);
    }
    assert history[k] !in before by { FailedSinceThen(runs, endpoint, history, k, history[k]); }
    assert CountedFailures(runs, endpoint, FinishOf(runs, history, k)) == before + {history[k]};
  }

  lemma CountAfterFirstFailure(runs: Runs, endpoint: Id, history: seq<Id>)
    requires IsHistory(runs, endpoint, history) && history != [] && runs[history[0]].status == FailedRun
    ensures FailureCount(runs, endpoint, FinishOf(runs, history, 0)) == 1
  {
    forall id | id in runs && runs[id].endpoint == endpoint && Terminal(runs[id])
      ensures runs[id].finishedAt.value <= FinishOf(runs, history, 0) <==> id == history[0]
    {
      FinishedByThen(runs, endpoint, history, 0, id);
    }
    assert CountedFailures(runs, endpoint, FinishOf(runs, history, 0)) == {history[0]};
  }

  /** The count the query computes for run `k` is the counter over the runs up to it, whatever finished later. */
  lemma {:induction false} CountIsCounter(runs: Runs, endpoint: Id, history: seq<Id>, k: nat)
    requires IsHistory(runs, endpoint, history) && k < |history|
    ensures FailureCount(runs, endpoint, FinishOf(runs, history, k)) == Counter(runs, history[..k + 1])
  {
    assert history[..k + 1][..k] == history[..k];
    if runs[history[k]].status == Succeeded {
      CountAfterSuccess(runs, endpoint, history, k);
    } else {
      if k > 0 {
        CountAfterFailure(runs, endpoint, history, k);
        CountIsCounter(runs, endpoint, history, k - 1);
      } else {
        CountAfterFirstFailure(runs, endpoint, history);
      }
    }
  }

  // ---------------------------------------------------------------------------
  // Applying runs

  /** The endpoint reflects run `k` of the history. */
  ghost predicate Reflects(runs: Runs, history: seq<Id>, e: Endpoint, k: nat)
    requires k < |history| && forall i | 0 <= i < |history| :: history[i] in runs && Terminal(runs[history[i]])
  {
    && e.lastAttemptAt == Some(FinishOf(runs, history, k))
    && e.nextDueAt == Some(FinishOf(runs, history, k) + e.pollInterval)
    && e.consecutiveFailures == Counter(runs, history[..k + 1])
  }

  /** What applying a run does to each column, and when it does nothing. */
  lemma RunEffect(runs: Runs, id: Id, e: Endpoint)
    ensures var after := ApplyRun(runs, id, e);
            if id in runs && runs[id].status in {Succeeded, FailedRun} && runs[id].finishedAt.Some? &&
               (e.lastAttemptAt.None? || e.lastAttemptAt.value <= runs[id].finishedAt.value)
            then
              var run, at := runs[id], runs[id].finishedAt;
              && after.lastAttemptAt == at && after.cooldownUntil == None && after.nextDueAt == Some(at.value + e.pollInterval)
              && after.updatedAt == (if e.updatedAt < at.value then at.value else e.updatedAt) && after.pollInterval == e.pollInterval
              && (run.status == Succeeded ==>
                    && after.lastSuccessAt == at && after.lastFailureAt == e.lastFailureAt && after.consecutiveFailures == 0
                    && after.etag == (if run.notModified && run.etag.None? then e.etag else run.etag)
                    && after.lastModified == (if run.notModified && run.lastModified.None? then e.lastModified else run.lastModified))
              && (run.status == FailedRun ==>
                    && after.lastFailureAt == at && after.lastSuccessAt == e.lastSuccessAt
                    && after.etag == e.etag && after.lastModified == e.lastModified)
            else after == e
  {
  }

  /** A cooldown follows only a failed latest attempt and touches two columns. */
  lemma CooldownEffect(runs: Runs, id: Id, e: Endpoint, minimumSeconds: int, threshold: int)
    ensures ApplyCooldown(runs, id, e, minimumSeconds, threshold) ==
            if id in runs && runs[id].status == FailedRun && runs[id].finishedAt.Some? && e.lastAttemptAt == runs[id].finishedAt &&
               e.consecutiveFailures >= threshold
            then
              var at := runs[id].finishedAt.value;
              e.(cooldownUntil := Some(at + if e.pollInterval < minimumSeconds then minimumSeconds else e.pollInterval),
                 updatedAt := if e.updatedAt < at then at else e.updatedAt)
            else e
  {
  }

  /** Applying a run no older than the last attempt makes the endpoint reflect it. */
  lemma NewerRunIsReflected(runs: Runs, endpoint: Id, history: seq<Id>, e: Endpoint, k: nat)
    requires IsHistory(runs, endpoint, history) && k < |history| && Applicable(runs, history[k], e)
    ensures Reflects(runs, history, ApplyRun(runs, history[k], e), k)
    ensures ApplyRun(runs, history[k], e).cooldownUntil == None
  {
    CountIsCounter(runs, endpoint, history, k);
    if runs[history[k]].status == Succeeded {
      CountAfterSuccess(runs, endpoint, history, k);
    }
  }

  lemma OlderRunChangesNothing(runs: Runs, id: Id, e: Endpoint)
    requires id in runs && Terminal(runs[id]) && e.lastAttemptAt.Some? && runs[id].finishedAt.value < e.lastAttemptAt.value
    ensures ApplyRun(runs, id, e) == e
  {
  }

  /** Applying the same run again is no further change. */
  lemma ReapplyingIsIdempotent(runs: Runs, id: Id, e: Endpoint)
    ensures ApplyRun(runs, id, ApplyRun(runs, id, e)) == ApplyRun(runs, id, e)
  {
  }

  /** After a cooldown, reapplying the run keeps count and due time but lifts the cooldown. */
  lemma ReapplyingLiftsCooldown(runs: Runs, id: Id, e: Endpoint, minimumSeconds: int, threshold: int)
    requires Applicable(runs, id, e)
    ensures var cooled := ApplyCooldown(runs, id, ApplyRun(runs, id, e), minimumSeconds, threshold);
            ApplyRun(runs, id, cooled) == cooled.(cooldownUntil := None)
  {
  }

  function ApplyAll(runs: Runs, ids: seq<Id>, e: Endpoint): Endpoint
    decreases |ids|
  {
    if ids == [] then e else ApplyAll(runs, ids[1..], ApplyRun(runs, ids[0], e))
  }

  lemma ApplyAnyKeepsReflecting(runs: Runs, endpoint: Id, history: seq<Id>, e: Endpoint, k: nat, i: nat)
    requires IsHistory(runs, endpoint, history) && k < |history| && i < |history| && Reflects(runs, history, e, k)
    ensures Reflects(runs, history, ApplyRun(runs, history[i], e), if i <= k then k else i)
  {
    if i >= k {
      assert FinishOf(runs, history, k) <= FinishOf(runs, history, i);
      NewerRunIsReflected(runs, endpoint, history, e, i);
    } else {
      assert FinishOf(runs, history, i) < FinishOf(runs, history, k);
      OlderRunChangesNothing(runs, history[i], e);
    }
  }

  /** The largest index among these. */
  function Latest(indices: seq<nat>, k: nat): (m: nat)
    ensures m >= k
  {
    if indices == [] then k else Latest(indices[1..], if indices[0] <= k then k else indices[0])
  }

  /** In whatever order, and however often, runs are applied, the endpoint ends up reflecting the latest of them. */
  lemma {:induction false} AnyOrderReflectsLatest(runs: Runs, endpoint: Id, history: seq<Id>, e: Endpoint, k: nat,
                                                  indices: seq<nat>, ids: seq<Id>)
    requires IsHistory(runs, endpoint, history) && k < |history| && Reflects(runs, history, e, k)
    requires |ids| == |indices| && forall i | 0 <= i < |indices| :: indices[i] < |history| && ids[i] == history[indices[i]]
    ensures Latest(indices, k) < |history| && Reflects(runs, history, ApplyAll(runs, ids, e), Latest(indices, k))
    decreases |indices|
  {
    if indices != [] {
      ApplyAnyKeepsReflecting(runs, endpoint, history, e, k, indices[0]);
      AnyOrderReflectsLatest(runs, endpoint, history, ApplyRun(runs, ids[0], e), if indices[0] <= k then k else indices[0],
                             indices[1..], ids[1..]);
    }
  }

  // ---------------------------------------------------------------------------
  // Health and cooldown

  datatype Health = Unknown | Healthy | Delayed | Degraded | Unhealthy

  /** `deriveEndpointHealth`; times are in the unit of the poll interval. */
  function DeriveHealth(e: Endpoint, scheduleEligible: bool, now: int): Health {
    if e.lastAttemptAt.None? then Unknown
    else if e.consecutiveFailures >= 3 then Unhealthy
    else if e.consecutiveFailures >= 1 then Degraded
    else if scheduleEligible && e.nextDueAt.Some? && now > e.nextDueAt.value + e.pollInterval then Delayed
    else Healthy
  }

  lemma NeverAttemptedIsUnknown(e: Endpoint, scheduleEligible: bool, now: int)
    ensures DeriveHealth(e, scheduleEligible, now) == Unknown <==> e.lastAttemptAt.None?
  {
  }

  /** Health reads off the trailing block, and lateness off the last run. */
  lemma HealthIsTrailingBlock(runs: Runs, history: seq<Id>, e: Endpoint, k: nat, scheduleEligible: bool, now: int)
    requires k < |history| && forall i | 0 <= i < |history| :: history[i] in runs && Terminal(runs[history[i]])
    requires Reflects(runs, history, e, k)
    ensures DeriveHealth(e, scheduleEligible, now) == Unhealthy <==>
              k >= 2 && forall i | k - 2 <= i <= k :: runs[history[i]].status == FailedRun
    ensures DeriveHealth(e, scheduleEligible, now) == Degraded <==>
              runs[history[k]].status == FailedRun && !(k >= 2 && forall i | k - 2 <= i <= k :: runs[history[i]].status == FailedRun)
    ensures DeriveHealth(e, scheduleEligible, now) in {Healthy, Delayed} <==> runs[history[k]].status == Succeeded
    ensures DeriveHealth(e, scheduleEligible, now) == Delayed <==>
              runs[history[k]].status == Succeeded && scheduleEligible && now > FinishOf(runs, history, k) + 2 * e.pollInterval
  {
    var up := history[..k + 1];
    CounterIsTrailingBlock(runs, up);
    assert forall i | 0 <= i <= k :: up[i] == history[i];
  }

  /** A cooldown is set exactly for the latest attempt, when enough runs in a row have failed. */
  lemma CooldownExactlyWhen(runs: Runs, endpoint: Id, history: seq<Id>, e: Endpoint, k: nat, i: nat, minimumSeconds: int, threshold: nat)
    requires IsHistory(runs, endpoint, history) && k < |history| && i < |history| && threshold >= 1
    requires Reflects(runs, history, e, k) && e.cooldownUntil.None?
    ensures ApplyCooldown(runs, history[i], e, minimumSeconds, threshold).cooldownUntil ==
            if i == k && Counter(runs, history[..k + 1]) >= threshold
            then Some(FinishOf(runs, history, k) + Max(e.pollInterval, minimumSeconds)) else None
  {
    if i < k {
      assert FinishOf(runs, history, i) < FinishOf(runs, history, k);
    } else if k < i {
      assert FinishOf(runs, history, k) < FinishOf(runs, history, i);
    }
    CounterIsTrailingBlock(runs, history[..k + 1]);
  }

  // ---------------------------------------------------------------------------
  // The tables

  class EndpointRuntimeStore {
    var runs: Runs
    var endpoints: map<Id, Endpoint>

    constructor (r: Runs, e: map<Id, Endpoint>)
      ensures runs == r && endpoints == e
    {
      runs, endpoints := r, e;
    }

    method LatestSuccess(endpoint: Id, at: int) returns (latest: Option<int>)
      ensures latest.None? ==> forall s | s in runs :: !SucceededBy(runs, s, endpoint, at)
      ensures latest.Some? ==>
                && (exists s :: s in runs && SucceededBy(runs, s, endpoint, at) && runs[s].finishedAt == latest)
                && forall s | s in runs && SucceededBy(runs, s, endpoint, at) :: runs[s].finishedAt.value <= latest.value
    {
      var rest := set s | s in runs && SucceededBy(runs, s, endpoint, at);
      latest := None;
      while rest != {}
        invariant forall s | s in rest :: s in runs && SucceededBy(runs, s, endpoint, at)
        invariant latest.None? ==> forall s | s in runs && SucceededBy(runs, s, endpoint, at) :: s in rest
        invariant latest.Some? ==>
                    && (exists s :: s in runs && SucceededBy(runs, s, endpoint, at) && runs[s].finishedAt == latest)
                    && forall s | s in runs && SucceededBy(runs, s, endpoint, at) && s !in rest :: runs[s].finishedAt.value <= latest.value
        decreases rest
      {
        var s :| s in rest;
        rest := rest - {s};
        if latest.None? || latest.value < runs[s].finishedAt.value {
          latest := runs[s].finishedAt;
        }
      }
    }

    method CountFailures(endpoint: Id, at: int) returns (count: nat)
      ensures count == FailureCount(runs, endpoint, at)
    {
      var success := LatestSuccess(endpoint, at);
      var failed := set id | id in runs && runs[id].endpoint == endpoint && runs[id].status == FailedRun &&
                             runs[id].finishedAt.Some? && runs[id].finishedAt.value <= at &&
                             (success.None? || success.value < runs[id].finishedAt.value);
      assert failed == CountedFailures(runs, endpoint, at);
      count := |failed|;
    }

    method ApplyTerminalCollectionRun(id: Id) returns (applied: bool)
      modifies this`endpoints
      ensures applied <==> id in runs && runs[id].endpoint in old(endpoints) && Applicable(runs, id, old(endpoints)[runs[id].endpoint])
      ensures endpoints == if applied
                           then old(endpoints)[runs[id].endpoint := ApplyRun(runs, id, old(endpoints)[runs[id].endpoint])]
                           else old(endpoints)
    {
      if id !in runs || runs[id].status.Running? || runs[id].finishedAt.None? || runs[id].endpoint !in endpoints { return false; }
      var run := runs[id];
      var at, e := run.finishedAt.value, endpoints[run.endpoint];
      if e.lastAttemptAt.Some? && at < e.lastAttemptAt.value { return false; }
      var count := CountFailures(run.endpoint, at);
      e := e.(lastAttemptAt := Some(at), cooldownUntil := None, nextDueAt := Some(at + e.pollInterval),
              updatedAt := if e.updatedAt >= at then e.updatedAt else at);
      if run.status.Succeeded? {
        e := e.(lastSuccessAt := Some(at), consecutiveFailures := 0,
                etag := if run.notModified && run.etag.None? then e.etag else run.etag,
                lastModified := if run.notModified && run.lastModified.None? then e.lastModified else run.lastModified);
      } else {
        e := e.(lastFailureAt := Some(at), consecutiveFailures := count);
      }
      endpoints := endpoints[run.endpoint := e];
      return true;
    }

    method ApplyCooldownFromFinalFailure(id: Id, minimumSeconds: int, threshold: int)
      modifies this`endpoints
      ensures endpoints == if id in runs && runs[id].endpoint in old(endpoints)
                           then old(endpoints)[runs[id].endpoint :=
                                  ApplyCooldown(runs, id, old(endpoints)[runs[id].endpoint], minimumSeconds, threshold)]
                           else old(endpoints)
    {
      if id !in runs || runs[id].endpoint !in endpoints { return; }
      var run, e := runs[id], endpoints[runs[id].endpoint];
      if run.status != FailedRun || run.finishedAt.None? || e.lastAttemptAt != run.finishedAt || e.consecutiveFailures < threshold {
        assert endpoints == endpoints[run.endpoint := e];
        return;
      }
      var at := run.finishedAt.value;
      endpoints := endpoints[run.endpoint := e.(
        cooldownUntil := Some(at + (if e.pollInterval >= minimumSeconds then e.pollInterval else minimumSeconds)),
        updatedAt := if e.updatedAt >= at then e.updatedAt else at)];
    }
  }
}
