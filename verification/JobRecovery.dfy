/**
  What recovery makes of the Collection run of an expired job, and that the claim it takes can be
  finalized (src/jobs/execute-endpoint-collection-job.ts, src/collection/runs/repository.ts).
 */
module JobRecovery {
  import opened Prelude
  import opened JobPolicy
  import opened Jobs
  import opened JobRuns

  datatype RunStatus = RunRunning | RunSucceeded | RunFailed

  /** The columns of a Collection run that a result is made of. */
  datatype PersistedRun = PersistedRun(
    status: RunStatus, startedAt: int, outcomeCode: Option<string>, errorCode: Option<string>, retry: Option<Retry>,
    notModified: bool, parserFailed: bool, normalizationFailed: bool, processingFailed: bool)

  /** A run still running when its worker's lease is gone is closed as interrupted. */
  function ReconcileInterrupted(run: PersistedRun, at: int): PersistedRun {
    if run.status == RunRunning && run.startedAt <= at
    then run.(status := RunFailed, outcomeCode := Some("worker_interrupted"), errorCode := Some("worker_interrupted"),
              retry := Some(Transient))
    else run
  }

  function InferOutcome(run: PersistedRun): string {
    if run.status == RunSucceeded then (if run.notModified then "not_modified" else "content")
    else if run.parserFailed then "parser_failed"
    else if run.normalizationFailed then "normalization_failed"
    else if run.processingFailed then "processing_failed"
    else "fetch_failed"
  }

  /** Absent when the claim or the end of the run is missing. */
  function ResultFromPersistedRun(id: Id, job: Job, run: PersistedRun): Option<Execution> {
    if job.token.None? || run.status == RunRunning then None
    else Some(Execution(id, job.token.value, job.endpoint, job.trigger, job.collectionRun,
                        Outcome(job.attempt, true, if run.status == RunSucceeded then CategorySucceeded else CategoryFailed,
                                if run.outcomeCode.Some? then run.outcomeCode.value else InferOutcome(run),
                                run.errorCode, run.retry)))
  }

  /** What becomes of a job whose run has ended this way. */
  function Fate(run: PersistedRun, attempt: int): Disposition {
    if run.status == RunSucceeded then Terminal(StatusSucceeded)
    else if run.retry == Some(Transient) && attempt < MAX_ATTEMPTS then Retrying
    else Terminal(if run.outcomeCode == Some("worker_interrupted") then StatusAbandoned else StatusFailed)
  }

  /** The job and the run a recovery leaves behind. */
  lemma RecoveredJob(t: Tables, id: Id, worker: string, token: Id, expiredAt: int, at: int, lease: int, availableAt: int)
    requires Inv(t) && Reconcile(t, id, worker, token, expiredAt, at, lease, availableAt).1 == Reconciled && at < lease
    ensures id in t.jobs && t.jobs[id].collectionRun.Some?
    ensures var t1 := Reconcile(t, id, worker, token, expiredAt, at, lease, availableAt).0;
            && id in t1.jobs && HoldsClaim(t1, id, token, at) && t1.jobs[id].leaseExpiresAt == Some(lease)
            && t1.jobs[id].attempt == t.jobs[id].attempt && t1.jobs[id].collectionRun == t.jobs[id].collectionRun
  {
  }

  /**
    The claim a recovery takes is always good for a finalization until its lease ends: the result
    made of the run is accepted, never deferred, and the job is closed or retried as the run ended.
   */
  lemma RecoveredIsFinalized(t: Tables, id: Id, worker: string, token: Id, expiredAt: int, at: int, lease: int,
                             availableAt: int, run: PersistedRun, later: int, random: real, successor: Id)
    requires Inv(t) && at <= t.clock <= later < lease && token !in t.issued && run.startedAt <= at
    requires Reconcile(t, id, worker, token, expiredAt, at, lease, availableAt).1 == Reconciled
    requires 0.0 <= random <= 1.0 && successor !in t.jobs
    ensures var t1 := Reconcile(t, id, worker, token, expiredAt, at, lease, availableAt).0;
            var ended := ReconcileInterrupted(run, at);
            && id in t1.jobs && ResultFromPersistedRun(id, t1.jobs[id], ended).Some?
            && var e := ResultFromPersistedRun(id, t1.jobs[id], ended).value;
               var (t2, r) := Finalize(t1, e, later, random, successor);
               var fate := Fate(ended, t.jobs[id].attempt);
               && id in t2.jobs
               && (fate.Retrying? ==> r == RetryEnqueued(successor) && t2.jobs[id].status == Finished(FailureStatus(e.decision)))
               && (fate.Terminal? ==> r == TerminalResult && t2.jobs[id].status == Finished(fate.status))
               && !fate.Deferring?
  {
    var t1 := Reconcile(t, id, worker, token, expiredAt, at, lease, availableAt).0;
    var ended := ReconcileInterrupted(run, at);
    RecoveredJob(t, id, worker, token, expiredAt, at, lease, availableAt);
    ReconcileKeepsInv(t, id, worker, token, expiredAt, at, lease, availableAt);
    var e := ResultFromPersistedRun(id, t1.jobs[id], ended).value;
    ResultDecides(id, t1.jobs[id], ended, e);
    if Decide(e.decision).Retrying? {
      RetryAlwaysEnqueued(t1, e, later, random, successor);
    }
  }

  lemma ResultDecides(id: Id, job: Job, run: PersistedRun, e: Execution)
    requires ResultFromPersistedRun(id, job, run) == Some(e)
    ensures Decide(e.decision) == Fate(run, job.attempt)
  {
  }

  /** A job whose worker died is retried while attempts are left and abandoned after the last. */
  lemma InterruptedIsRetriedOrAbandoned(run: PersistedRun, at: int, attempt: int)
    requires run.status == RunRunning && run.startedAt <= at
    ensures Fate(ReconcileInterrupted(run, at), attempt) ==
            if attempt < MAX_ATTEMPTS then Retrying else Terminal(StatusAbandoned)
  {
  }
}
