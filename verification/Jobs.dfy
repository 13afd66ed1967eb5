/**
  Durable collection jobs: what each statement on the jobs table does
  (src/jobs/endpoint-collection-job-repository.ts), and what every run of them keeps.

  Times are integers on one clock that never runs backwards; claim tokens and job ids are
  random and never repeat.
 */
module Jobs {
  import opened Prelude
  import opened JobPolicy

  type Id = nat

  datatype Trigger = Scheduled | ManualTrigger

  datatype Status = Queued | Running | Finished(terminal: TerminalStatus)

  datatype Job = Job(
    endpoint: Id,
    trigger: Trigger,
    status: Status,
    enqueuedAt: int,
    availableAt: int,
    attempt: int,
    previous: Option<Id>,
    worker: Option<string>,
    token: Option<Id>,
    claimedAt: Option<int>,
    leaseExpiresAt: Option<int>,
    collectionRun: Option<Id>,
    terminalAt: Option<int>,
    outcome: Option<string>,
    reason: Option<string>,
    updatedAt: int)
  {
    predicate Outstanding() { status.Queued? || status.Running? }
  }

  /** The columns of a Collection run that tie it to its job. */
  datatype CollectionRun = CollectionRun(endpoint: Id, execution: Id, trigger: Trigger)

  datatype Tables = Tables(
    endpoints: set<Id>,
    jobs: map<Id, Job>,
    runs: map<Id, CollectionRun>,
    clock: int,
    issued: set<Id>)

  // ---------------------------------------------------------------------------
  // The shape every stored job has

  /** `validateMappedState`. */
  predicate ValidShape(id: Id, job: Job) {
    && ((job.attempt == 1 && job.previous.None?) || (job.attempt > 1 && job.previous.Some?))
    && job.previous != Some(id)
    && var noTerminalDiagnostics := job.terminalAt.None? && job.outcome.None? && job.reason.None?;
       match job.status
       case Queued =>
         job.worker.None? && job.token.None? && job.claimedAt.None? && job.leaseExpiresAt.None? &&
         job.collectionRun.None? && noTerminalDiagnostics
       case Running =>
         job.worker.Some? && job.token.Some? && job.claimedAt.Some? && job.leaseExpiresAt.Some? &&
         job.claimedAt.value < job.leaseExpiresAt.value && noTerminalDiagnostics
       case Finished(_) =>
         job.worker.Some? && job.token.None? && job.claimedAt.Some? && job.leaseExpiresAt.None? &&
         job.terminalAt.Some? && job.claimedAt.value <= job.terminalAt.value && job.outcome.Some?
  }

  // ---------------------------------------------------------------------------
  // Statements

  /** Running, claimed with this token, and the lease still open. */
  predicate HoldsClaim(t: Tables, id: Id, token: Id, at: int) {
    && id in t.jobs && t.jobs[id].status.Running? && t.jobs[id].token == Some(token)
    && t.jobs[id].leaseExpiresAt.Some? && at < t.jobs[id].leaseExpiresAt.value
  }

  predicate Expired(t: Tables, id: Id, boundary: int) {
    && id in t.jobs && t.jobs[id].status.Running?
    && t.jobs[id].leaseExpiresAt.Some? && t.jobs[id].leaseExpiresAt.value <= boundary
  }

  predicate OwnsRun(t: Tables, id: Id, run: Id) {
    && id in t.jobs && run in t.runs
    && t.runs[run] == CollectionRun(t.jobs[id].endpoint, id, t.jobs[id].trigger)
  }

  function Put(t: Tables, id: Id, job: Job): Tables { t.(jobs := t.jobs[id := job]) }

  predicate SlotTaken(t: Tables, endpoint: Id) {
    exists id :: id in t.jobs && t.jobs[id].endpoint == endpoint && t.jobs[id].Outstanding()
  }

  datatype EnqueueResult = NotEnqueued | AlreadyOutstanding | Created(id: Id)

  /** Inserts unless the endpoint has an outstanding job; a retry needs its predecessor. */
  function Enqueue(t: Tables, id: Id, endpoint: Id, trigger: Trigger, availableAt: int, attempt: int, previous: Option<Id>)
    : (Tables, EnqueueResult)
  {
    if attempt < 1 || (attempt == 1) != previous.None? then (t, NotEnqueued)
    else if endpoint !in t.endpoints then (t, NotEnqueued)
    else if previous.Some? && !(previous.value in t.jobs && t.jobs[previous.value].endpoint == endpoint &&
                                t.jobs[previous.value].trigger == trigger) then (t, NotEnqueued)
    else if SlotTaken(t, endpoint) then (t, AlreadyOutstanding)
    else (Put(t, id, Job(endpoint, trigger, Queued, t.clock, availableAt, attempt, previous,
                         None, None, None, None, None, None, None, None, t.clock)), Created(id))
  }

  predicate ClaimOrder(t: Tables, a: Id, b: Id)
    requires a in t.jobs && b in t.jobs
  {
    var x, y := t.jobs[a], t.jobs[b];
    x.availableAt < y.availableAt ||
    (x.availableAt == y.availableAt && (x.enqueuedAt < y.enqueuedAt || (x.enqueuedAt == y.enqueuedAt && a <= b)))
  }

  predicate Claimable(t: Tables, id: Id, at: int) {
    id in t.jobs && t.jobs[id].status.Queued? && t.jobs[id].availableAt <= at
  }

  /** The first claimable job in claim order. */
  predicate NextJob(t: Tables, id: Id, at: int) {
    Claimable(t, id, at) && forall other | other in t.jobs && Claimable(t, other, at) :: ClaimOrder(t, id, other)
  }

  function Claimed(t: Tables, id: Id, worker: string, token: Id, at: int, lease: int): Tables
    requires id in t.jobs
  {
    Put(t, id, t.jobs[id].(status := Running, worker := Some(worker), token := Some(token), claimedAt := Some(at),
                           leaseExpiresAt := Some(lease), updatedAt := at))
      .(issued := t.issued + {token})
  }

  function Renew(t: Tables, id: Id, token: Id, at: int, lease: int): (Tables, bool) {
    if HoldsClaim(t, id, token, at) && t.jobs[id].leaseExpiresAt.value < lease
    then (Put(t, id, t.jobs[id].(leaseExpiresAt := Some(lease), updatedAt := at)), true)
    else (t, false)
  }

  function Attach(t: Tables, id: Id, token: Id, run: Id, at: int): (Tables, bool) {
    if HoldsClaim(t, id, token, at) && OwnsRun(t, id, run) && t.jobs[id].collectionRun in {None, Some(run)}
    then (Put(t, id, t.jobs[id].(collectionRun := Some(run),
                                 updatedAt := if t.jobs[id].updatedAt < at then at else t.jobs[id].updatedAt)), true)
    else (t, false)
  }

  function Terminalize(t: Tables, id: Id, token: Id, status: TerminalStatus, at: int,
                       outcome: string, reason: Option<string>): (Tables, bool) {
    if HoldsClaim(t, id, token, at)
    then (Put(t, id, t.jobs[id].(status := Finished(status), token := None, leaseExpiresAt := None,
                                 terminalAt := Some(at), outcome := Some(outcome), reason := reason, updatedAt := at)), true)
    else (t, false)
  }

  function Unclaimed(job: Job, at: int, availableAt: int): Job {
    job.(status := Queued, availableAt := availableAt, worker := None, token := None, claimedAt := None,
         leaseExpiresAt := None, updatedAt := at)
  }

  function Defer(t: Tables, id: Id, token: Id, at: int, availableAt: int): (Tables, bool) {
    if HoldsClaim(t, id, token, at) && t.jobs[id].collectionRun.None?
    then (Put(t, id, Unclaimed(t.jobs[id], at, availableAt)), true)
    else (t, false)
  }

  function RequeueExpired(t: Tables, id: Id, expiredAt: int, availableAt: int): (Tables, bool) {
    if Expired(t, id, expiredAt) && t.jobs[id].collectionRun.None?
    then (Put(t, id, Unclaimed(t.jobs[id], expiredAt, availableAt)), true)
    else (t, false)
  }

  function RecoverExpired(t: Tables, id: Id, worker: string, token: Id, expiredAt: int, at: int, lease: int): (Tables, bool) {
    if Expired(t, id, expiredAt) && t.jobs[id].collectionRun.Some? && OwnsRun(t, id, t.jobs[id].collectionRun.value)
    then (Put(t, id, t.jobs[id].(worker := Some(worker), token := Some(token), claimedAt := Some(at),
                                 leaseExpiresAt := Some(lease), updatedAt := at)).(issued := t.issued + {token}), true)
    else (t, false)
  }

  // ---------------------------------------------------------------------------
  // Finalization

  datatype Execution = Execution(jobId: Id, token: Id, endpoint: Id, trigger: Trigger,
                                 collectionRun: Option<Id>, decision: Outcome)

  predicate MatchesCurrentJob(t: Tables, e: Execution) {
    && e.jobId in t.jobs && t.jobs[e.jobId].status.Running? && t.jobs[e.jobId].token == Some(e.token)
    && t.jobs[e.jobId].endpoint == e.endpoint && t.jobs[e.jobId].trigger == e.trigger
    && t.jobs[e.jobId].attempt == e.decision.attemptNumber && t.jobs[e.jobId].collectionRun == e.collectionRun
  }

  predicate ConsistentRun(e: Execution) {
    && (e.decision.collectionRunOccurred <==> e.collectionRun.Some?)
    && (e.decision.category.CategoryFailed? ==> e.decision.collectionRunOccurred)
  }

  datatype FinalizeResult =
    | RandomSourceInvalid | OwnershipLost | InconsistentRun | SuccessorSlotTaken
    | Deferred | TerminalResult | RetryEnqueued(successor: Id)

  function FinalizeDeferral(t: Tables, e: Execution, at: int, random: real): (Tables, FinalizeResult) {
    var delay := EqualJitter(CONTENTION_DEFERRAL, random);
    if delay.None? then (t, RandomSourceInvalid) else
    var (t', done) := Defer(t, e.jobId, e.token, at, at + delay.value);
    if done then (t', Deferred) else (t, OwnershipLost)
  }

  /** The failed attempt is closed and its successor enqueued, or neither. */
  function FinalizeRetry(t: Tables, e: Execution, at: int, random: real, successor: Id): (Tables, FinalizeResult) {
    var delay := RetryDelay(e.decision.attemptNumber, random);
    if delay.None? then (t, RandomSourceInvalid) else
    if !MatchesCurrentJob(t, e) then (t, OwnershipLost) else
    if !ConsistentRun(e) then (t, InconsistentRun) else
    if !HoldsClaim(t, e.jobId, e.token, at) then (t, OwnershipLost) else
    CloseAndEnqueue(t, e, at, at + delay.value, successor)
  }

  function Closed(t: Tables, e: Execution, at: int): Tables {
    Terminalize(t, e.jobId, e.token, FailureStatus(e.decision), at, e.decision.outcome, e.decision.reason).0
  }

  function CloseAndEnqueue(t: Tables, e: Execution, at: int, availableAt: int, successor: Id): (Tables, FinalizeResult)
    requires e.jobId in t.jobs
  {
    var (t2, r) := EnqueueAfter(Closed(t, e, at), e.jobId, successor, availableAt);
    if r.Created? then (t2, RetryEnqueued(successor)) else (t, SuccessorSlotTaken)
  }

  function EnqueueAfter(t: Tables, id: Id, successor: Id, availableAt: int): (Tables, EnqueueResult)
    requires id in t.jobs
  {
    var job := t.jobs[id];
    Enqueue(t, successor, job.endpoint, job.trigger, availableAt, job.attempt + 1, Some(id))
  }

  function FinalizeTerminal(t: Tables, e: Execution, at: int, status: TerminalStatus): (Tables, FinalizeResult) {
    if !MatchesCurrentJob(t, e) then (t, OwnershipLost) else
    if !ConsistentRun(e) then (t, InconsistentRun) else
    var (t1, done) := Terminalize(t, e.jobId, e.token, status, at, e.decision.outcome, e.decision.reason);
    if done then (t1, TerminalResult) else (t, OwnershipLost)
  }

  /** One finalization, which commits in full or leaves everything as it was. */
  function Finalize(t: Tables, e: Execution, at: int, random: real, successor: Id): (Tables, FinalizeResult) {
    match Decide(e.decision)
    case Deferring => FinalizeDeferral(t, e, at, random)
    case Retrying => FinalizeRetry(t, e, at, random, successor)
    case Terminal(status) => FinalizeTerminal(t, e, at, status)
  }

  datatype ReconcileResult = NotRecoverable | RunOwnershipInvalid | Requeued | Reconciled

  /** Recovery of one expired job: back to the queue, or claimed anew to be finalized. */
  function Reconcile(t: Tables, id: Id, worker: string, token: Id, expiredAt: int, at: int, lease: int, availableAt: int)
    : (Tables, ReconcileResult)
  {
    if !Expired(t, id, expiredAt) then (t, NotRecoverable)
    else if t.jobs[id].collectionRun.None? then (RequeueExpired(t, id, expiredAt, availableAt).0, Requeued)
    else if !OwnsRun(t, id, t.jobs[id].collectionRun.value) then (t, RunOwnershipInvalid)
    else (RecoverExpired(t, id, worker, token, expiredAt, at, lease).0, Reconciled)
  }

  // ---------------------------------------------------------------------------
  // The invariant

  ghost predicate ShapesValid(t: Tables) { forall id | id in t.jobs :: ValidShape(id, t.jobs[id]) }

  ghost predicate OneOutstanding(t: Tables) {
    forall a, b {:trigger t.jobs[a].Outstanding(), t.jobs[b].Outstanding()} |
      a in t.jobs && b in t.jobs && t.jobs[a].Outstanding() && t.jobs[b].Outstanding() &&
      t.jobs[a].endpoint == t.jobs[b].endpoint :: a == b
  }

  ghost predicate TokensUnique(t: Tables) {
    && (forall a {:trigger t.jobs[a].token} | a in t.jobs && t.jobs[a].token.Some? :: t.jobs[a].token.value in t.issued)
    && (forall a, b {:trigger t.jobs[a].token, t.jobs[b].token} | a in t.jobs && b in t.jobs && t.jobs[a].token.Some? && t.jobs[a].token == t.jobs[b].token :: a == b)
  }

  ghost predicate ClaimsPast(t: Tables) {
    forall a {:trigger t.jobs[a].claimedAt} | a in t.jobs && t.jobs[a].claimedAt.Some? :: t.jobs[a].claimedAt.value <= t.clock
  }

  ghost predicate RunsOwned(t: Tables) {
    forall a {:trigger t.jobs[a].collectionRun} |
      a in t.jobs && t.jobs[a].collectionRun.Some? :: OwnsRun(t, a, t.jobs[a].collectionRun.value)
  }

  /** A retry follows one finished job of the same endpoint and trigger, and is its only successor. */
  ghost predicate FollowsPredecessor(t: Tables, a: Id)
    requires a in t.jobs && t.jobs[a].previous.Some?
  {
    var p := t.jobs[a].previous.value;
    && p in t.jobs && t.jobs[p].status.Finished?
    && t.jobs[p].endpoint == t.jobs[a].endpoint && t.jobs[p].trigger == t.jobs[a].trigger
    && t.jobs[a].attempt == t.jobs[p].attempt + 1
  }

  ghost predicate ChainsSound(t: Tables) {
    && (forall a | a in t.jobs :: 1 <= t.jobs[a].attempt <= MAX_ATTEMPTS && t.jobs[a].endpoint in t.endpoints)
    && (forall a {:trigger FollowsPredecessor(t, a)} | a in t.jobs && t.jobs[a].previous.Some? :: FollowsPredecessor(t, a))
    && (forall a, b {:trigger t.jobs[a].previous, t.jobs[b].previous} | a in t.jobs && b in t.jobs && t.jobs[a].previous.Some? &&
                      t.jobs[a].previous == t.jobs[b].previous :: a == b)
  }

  ghost predicate Inv(t: Tables) {
    && ShapesValid(t) && OneOutstanding(t) && TokensUnique(t) && ClaimsPast(t) && RunsOwned(t) && ChainsSound(t)
  }

  // ---------------------------------------------------------------------------
  // One changed job

  /** What a changed version of a job may never alter. */
  predicate KeepsIdentity(before: Job, after: Job) {
    && after.endpoint == before.endpoint && after.trigger == before.trigger
    && after.attempt == before.attempt && after.previous == before.previous
  }

  /** A changed version of an outstanding job that keeps every invariant. */
  ghost predicate GoodChange(t: Tables, id: Id, job: Job, issued: set<Id>) {
    && id in t.jobs && t.jobs[id].Outstanding() && KeepsIdentity(t.jobs[id], job)
    && ValidShape(id, job)
    && (job.claimedAt.Some? ==> job.claimedAt.value <= t.clock)
    && (job.collectionRun.Some? ==> OwnsRun(t, id, job.collectionRun.value))
    && t.issued <= issued
    && (job.token.Some? ==> job.token.value in issued)
    && (job.token.Some? && job.token != t.jobs[id].token ==> job.token.value !in t.issued)
  }

  lemma ChangeKeepsOne(t: Tables, id: Id, job: Job, issued: set<Id>)
    requires OneOutstanding(t) && id in t.jobs && t.jobs[id].Outstanding() && KeepsIdentity(t.jobs[id], job)
    ensures OneOutstanding(Put(t, id, job).(issued := issued))
  {
    var t' := Put(t, id, job).(issued := issued);
    forall a, b | a in t'.jobs && b in t'.jobs && t'.jobs[a].Outstanding() && t'.jobs[b].Outstanding() &&
                  t'.jobs[a].endpoint == t'.jobs[b].endpoint
      ensures a == b
    {
      assert t.jobs[a].Outstanding() && t.jobs[b].Outstanding() && t.jobs[a].endpoint == t.jobs[b].endpoint;
    }
  }

  lemma ChangeKeepsChains(t: Tables, id: Id, job: Job, issued: set<Id>)
    requires ChainsSound(t) && id in t.jobs && t.jobs[id].Outstanding() && KeepsIdentity(t.jobs[id], job)
    ensures ChainsSound(Put(t, id, job).(issued := issued))
  {
    var t' := Put(t, id, job).(issued := issued);
    forall a | a in t'.jobs && t'.jobs[a].previous.Some?
      ensures FollowsPredecessor(t', a)
    {
      assert FollowsPredecessor(t, a);
    }
    assert forall a | a in t'.jobs :: t'.jobs[a].previous == t.jobs[a].previous;
  }

  lemma ChangeKeepsTokens(t: Tables, id: Id, job: Job, issued: set<Id>)
    requires TokensUnique(t) && id in t.jobs && t.issued <= issued
    requires job.token.Some? ==> job.token.value in issued
    requires job.token.Some? && job.token != t.jobs[id].token ==> job.token.value !in t.issued
    ensures TokensUnique(Put(t, id, job).(issued := issued))
  {
  }

  lemma ChangeKeepsRuns(t: Tables, id: Id, job: Job, issued: set<Id>)
    requires RunsOwned(t) && id in t.jobs && KeepsIdentity(t.jobs[id], job)
    requires job.collectionRun.Some? ==> OwnsRun(t, id, job.collectionRun.value)
    ensures RunsOwned(Put(t, id, job).(issued := issued))
  {
  }

  lemma ChangeKeepsInv(t: Tables, id: Id, job: Job, issued: set<Id>)
    requires Inv(t) && GoodChange(t, id, job, issued)
    ensures Inv(Put(t, id, job).(issued := issued))
  {
    ChangeKeepsOne(t, id, job, issued);
    ChangeKeepsChains(t, id, job, issued);
    ChangeKeepsTokens(t, id, job, issued);
    ChangeKeepsRuns(t, id, job, issued);
  }

  lemma RenewKeepsInv(t: Tables, id: Id, token: Id, at: int, lease: int)
    requires Inv(t)
    ensures Inv(Renew(t, id, token, at, lease).0)
  {
    if Renew(t, id, token, at, lease).1 {
      ChangeKeepsInv(t, id, Renew(t, id, token, at, lease).0.jobs[id], t.issued);
    }
  }

  lemma AttachKeepsInv(t: Tables, id: Id, token: Id, run: Id, at: int)
    requires Inv(t)
    ensures Inv(Attach(t, id, token, run, at).0)
  {
    if Attach(t, id, token, run, at).1 {
      ChangeKeepsInv(t, id, Attach(t, id, token, run, at).0.jobs[id], t.issued);
    }
  }

  lemma TerminalizeKeepsInv(t: Tables, id: Id, token: Id, status: TerminalStatus, at: int,
                            outcome: string, reason: Option<string>)
    requires Inv(t) && t.clock <= at
    ensures Inv(Terminalize(t, id, token, status, at, outcome, reason).0)
  {
    var (t', done) := Terminalize(t, id, token, status, at, outcome, reason);
    if done {
      ChangeKeepsInv(t, id, t'.jobs[id], t.issued);
    }
  }

  lemma DeferKeepsInv(t: Tables, id: Id, token: Id, at: int, availableAt: int)
    requires Inv(t)
    ensures Inv(Defer(t, id, token, at, availableAt).0)
  {
    if Defer(t, id, token, at, availableAt).1 {
      ChangeKeepsInv(t, id, Unclaimed(t.jobs[id], at, availableAt), t.issued);
    }
  }

  lemma RequeueKeepsInv(t: Tables, id: Id, expiredAt: int, availableAt: int)
    requires Inv(t)
    ensures Inv(RequeueExpired(t, id, expiredAt, availableAt).0)
  {
    if RequeueExpired(t, id, expiredAt, availableAt).1 {
      ChangeKeepsInv(t, id, Unclaimed(t.jobs[id], expiredAt, availableAt), t.issued);
    }
  }

  lemma ClaimKeepsInv(t: Tables, id: Id, worker: string, token: Id, at: int, lease: int)
    requires Inv(t) && id in t.jobs && t.jobs[id].status.Queued?
    requires token !in t.issued && at <= t.clock && at < lease
    ensures Inv(Claimed(t, id, worker, token, at, lease))
  {
    ChangeKeepsInv(t, id, Claimed(t, id, worker, token, at, lease).jobs[id], t.issued + {token});
  }

  lemma RecoverKeepsInv(t: Tables, id: Id, worker: string, token: Id, expiredAt: int, at: int, lease: int)
    requires Inv(t) && token !in t.issued && at <= t.clock && at < lease
    ensures Inv(RecoverExpired(t, id, worker, token, expiredAt, at, lease).0)
  {
    var (t', done) := RecoverExpired(t, id, worker, token, expiredAt, at, lease);
    if done {
      ChangeKeepsInv(t, id, t'.jobs[id], t.issued + {token});
    }
  }

  /** A new queued job whose predecessor, if any, is finished and has no successor. */
  ghost predicate GoodInsert(t: Tables, id: Id, job: Job) {
    && id !in t.jobs && ValidShape(id, job) && job.status.Queued?
    && !SlotTaken(t, job.endpoint) && job.endpoint in t.endpoints && job.attempt <= MAX_ATTEMPTS
    && (job.previous.Some? ==>
          && job.previous.value in t.jobs && t.jobs[job.previous.value].status.Finished?
          && t.jobs[job.previous.value].endpoint == job.endpoint && t.jobs[job.previous.value].trigger == job.trigger
          && job.attempt == t.jobs[job.previous.value].attempt + 1
          && forall a | a in t.jobs :: t.jobs[a].previous != job.previous)
  }

  lemma InsertKeepsChains(t: Tables, id: Id, job: Job)
    requires ChainsSound(t) && GoodInsert(t, id, job)
    ensures ChainsSound(Put(t, id, job))
  {
    var t' := Put(t, id, job);
    forall a | a in t'.jobs && t'.jobs[a].previous.Some?
      ensures FollowsPredecessor(t', a)
    {
      if a != id {
        assert FollowsPredecessor(t, a);
      }
    }
  }

  lemma InsertKeepsInv(t: Tables, id: Id, job: Job)
    requires Inv(t) && GoodInsert(t, id, job)
    ensures Inv(Put(t, id, job))
  {
    InsertKeepsChains(t, id, job);
    var t' := Put(t, id, job);
    assert OneOutstanding(t');
    assert forall a | a in t.jobs :: t'.jobs[a] == t.jobs[a];
    assert RunsOwned(t');
  }

  lemma EnqueueKeepsInv(t: Tables, id: Id, endpoint: Id, trigger: Trigger, availableAt: int, attempt: int, previous: Option<Id>)
    requires Inv(t) && id !in t.jobs
    requires previous.Some? ==>
               && previous.value in t.jobs && t.jobs[previous.value].status.Finished?
               && attempt == t.jobs[previous.value].attempt + 1 && attempt <= MAX_ATTEMPTS
               && forall a | a in t.jobs :: t.jobs[a].previous != previous
    ensures Inv(Enqueue(t, id, endpoint, trigger, availableAt, attempt, previous).0)
  {
    var (t', r) := Enqueue(t, id, endpoint, trigger, availableAt, attempt, previous);
    if r.Created? {
      InsertKeepsInv(t, id, t'.jobs[id]);
    }
  }
}
