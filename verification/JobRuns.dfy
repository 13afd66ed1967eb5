/** Safety of the job table over whole runs: tokens, terminal jobs, runs and retry chains. */
module JobRuns {
  import opened Prelude
  import opened JobPolicy
  import opened Jobs

  datatype Command =
    | AddEndpoint(endpoint: Id)
    | StartRun(run: Id, row: CollectionRun)
    | EnqueueFirst(id: Id, endpoint: Id, trigger: Trigger, availableAt: int)
    | ClaimNext(id: Id, worker: string, token: Id, at: int, lease: int)
    | RenewLease(id: Id, token: Id, at: int, lease: int)
    | AttachRun(id: Id, token: Id, run: Id, at: int)
    | TerminalizeJob(id: Id, token: Id, status: TerminalStatus, at: int, outcome: string, reason: Option<string>)
    | DeferJob(id: Id, token: Id, at: int, availableAt: int)
    | FinalizeJob(execution: Execution, at: int, random: real, successor: Id)
    | ReconcileJob(id: Id, worker: string, token: Id, expiredAt: int, at: int, lease: int, availableAt: int)

  function TimeOf(t: Tables, k: Command): int {
    match k
    case AddEndpoint(_) => t.clock
    case StartRun(_, _) => t.clock
    case EnqueueFirst(_, _, _, _) => t.clock
    case ClaimNext(_, _, _, at, _) => at
    case RenewLease(_, _, at, _) => at
    case AttachRun(_, _, _, at) => at
    case TerminalizeJob(_, _, _, at, _, _) => at
    case DeferJob(_, _, at, _) => at
    case FinalizeJob(_, at, _, _) => at
    case ReconcileJob(_, _, _, _, at, _, _) => at
  }

  /** The clock does not run backwards and random identifiers are new. */
  predicate Possible(t: Tables, k: Command) {
    && t.clock <= TimeOf(t, k)
    && match k
       case StartRun(run, _) => run !in t.runs
       case EnqueueFirst(id, _, _, _) => id !in t.jobs
       case ClaimNext(_, _, token, at, lease) => token !in t.issued && at < lease
       case FinalizeJob(_, _, _, successor) => successor !in t.jobs
       case ReconcileJob(_, _, token, expiredAt, at, lease, _) => token !in t.issued && at < lease && expiredAt <= at
       case _ => true
  }

  function Apply(t0: Tables, k: Command): Tables {
    if !Possible(t0, k) then t0 else
    var t := t0.(clock := TimeOf(t0, k));
    match k
    case AddEndpoint(e) => t.(endpoints := t.endpoints + {e})
    case StartRun(run, row) => t.(runs := t.runs[run := row])
    case EnqueueFirst(id, e, trigger, availableAt) => Enqueue(t, id, e, trigger, availableAt, 1, None).0
    case ClaimNext(id, worker, token, at, lease) =>
      if NextJob(t, id, at) then Claimed(t, id, worker, token, at, lease) else t
    case RenewLease(id, token, at, lease) => Renew(t, id, token, at, lease).0
    case AttachRun(id, token, run, at) => Attach(t, id, token, run, at).0
    case TerminalizeJob(id, token, status, at, outcome, reason) => Terminalize(t, id, token, status, at, outcome, reason).0
    case DeferJob(id, token, at, availableAt) => Defer(t, id, token, at, availableAt).0
    case FinalizeJob(e, at, random, successor) => Finalize(t, e, at, random, successor).0
    case ReconcileJob(id, worker, token, expiredAt, at, lease, availableAt) =>
      Reconcile(t, id, worker, token, expiredAt, at, lease, availableAt).0
  }

  function Run(t: Tables, commands: seq<Command>): Tables
    decreases |commands|
  {
    if commands == [] then t else Run(Apply(t, commands[0]), commands[1..])
  }

  const Empty := Tables({}, map[], map[], 0, {})

  // ---------------------------------------------------------------------------
  // Retries

  /** Once a job is terminal nothing else holds its endpoint's slot. */
  lemma SlotFreed(t: Tables, id: Id, token: Id, status: TerminalStatus, at: int, outcome: string, reason: Option<string>)
    requires Inv(t) && HoldsClaim(t, id, token, at)
    ensures var t1 := Terminalize(t, id, token, status, at, outcome, reason).0;
            && t1.jobs[id].status.Finished?
            && !SlotTaken(t1, t.jobs[id].endpoint)
            && forall a | a in t1.jobs :: t1.jobs[a].previous != Some(id)
  {
    var t1 := Terminalize(t, id, token, status, at, outcome, reason).0;
    assert forall a | a in t.jobs && t.jobs[a].previous.Some? :: FollowsPredecessor(t, a);
    forall a | a in t1.jobs && t1.jobs[a].endpoint == t.jobs[id].endpoint
      ensures !t1.jobs[a].Outstanding()
    {
      assert t.jobs[id].Outstanding();
    }
  }

  lemma EnqueueAfterKeepsInv(t: Tables, id: Id, successor: Id, availableAt: int)
    requires Inv(t) && id in t.jobs && t.jobs[id].status.Finished? && successor !in t.jobs
    requires t.jobs[id].attempt < MAX_ATTEMPTS && !SlotTaken(t, t.jobs[id].endpoint)
    requires forall a | a in t.jobs :: t.jobs[a].previous != Some(id)
    ensures var (t2, r) := EnqueueAfter(t, id, successor, availableAt);
            Inv(t2) && r == Created(successor)
  {
    EnqueueKeepsInv(t, successor, t.jobs[id].endpoint, t.jobs[id].trigger, availableAt, t.jobs[id].attempt + 1, Some(id));
  }

  /** The two writes of a retry, seen from the terminal state between them. */
  lemma SuccessorEnqueued(t: Tables, e: Execution, at: int, availableAt: int, successor: Id)
    requires Inv(t) && t.clock <= at && successor !in t.jobs
    requires HoldsClaim(t, e.jobId, e.token, at) && t.jobs[e.jobId].attempt < MAX_ATTEMPTS
    ensures Inv(CloseAndEnqueue(t, e, at, availableAt, successor).0)
    ensures CloseAndEnqueue(t, e, at, availableAt, successor).1 == RetryEnqueued(successor)
  {
    SlotFreed(t, e.jobId, e.token, FailureStatus(e.decision), at, e.decision.outcome, e.decision.reason);
    TerminalizeKeepsInv(t, e.jobId, e.token, FailureStatus(e.decision), at, e.decision.outcome, e.decision.reason);
    EnqueueAfterKeepsInv(Closed(t, e, at), e.jobId, successor, availableAt);
  }

  /** What the two writes leave behind. */
  lemma SuccessorIs(t: Tables, e: Execution, at: int, availableAt: int, successor: Id)
    requires HoldsClaim(t, e.jobId, e.token, at) && successor !in t.jobs
    requires CloseAndEnqueue(t, e, at, availableAt, successor).1.RetryEnqueued?
    ensures var job, t' := t.jobs[e.jobId], CloseAndEnqueue(t, e, at, availableAt, successor).0;
            && e.jobId in t'.jobs && t'.jobs[e.jobId].status == Finished(FailureStatus(e.decision))
            && successor in t'.jobs
            && var next := t'.jobs[successor];
               && next.status.Queued? && next.previous == Some(e.jobId) && next.availableAt == availableAt
               && next.endpoint == job.endpoint && next.trigger == job.trigger && next.attempt == job.attempt + 1
  {
  }

  /**
    A retry whose claim still holds always gets the endpoint's slot: its successor repeats the
    endpoint and trigger with the next attempt number, after a delay in the jitter range.
   */
  lemma RetryAlwaysEnqueued(t: Tables, e: Execution, at: int, random: real, successor: Id)
    requires Inv(t) && t.clock <= at && successor !in t.jobs
    requires Decide(e.decision).Retrying? && 0.0 <= random <= 1.0
    requires MatchesCurrentJob(t, e) && ConsistentRun(e) && HoldsClaim(t, e.jobId, e.token, at)
    ensures var (t', r) := Finalize(t, e, at, random, successor);
            && r == RetryEnqueued(successor)
            && e.jobId in t'.jobs && t'.jobs[e.jobId].status == Finished(FailureStatus(e.decision))
            && successor in t'.jobs
            && var next := t'.jobs[successor];
               && next.status.Queued? && next.previous == Some(e.jobId)
               && next.endpoint == t.jobs[e.jobId].endpoint && next.trigger == t.jobs[e.jobId].trigger
               && next.attempt == t.jobs[e.jobId].attempt + 1 <= MAX_ATTEMPTS
               && at + HalfUp(Nominal(e.decision.attemptNumber)) <= next.availableAt
               && next.availableAt <= at + Nominal(e.decision.attemptNumber)
  {
    AttemptAtLeastOne(t, e.jobId);
    var delay := RetryDelay(e.decision.attemptNumber, random);
    SuccessorEnqueued(t, e, at, at + delay.value, successor);
    SuccessorIs(t, e, at, at + delay.value, successor);
  }

  lemma AttemptAtLeastOne(t: Tables, id: Id)
    requires Inv(t) && id in t.jobs
    ensures 1 <= t.jobs[id].attempt <= MAX_ATTEMPTS
  {
  }

  predicate RetryCommits(t: Tables, e: Execution, at: int, random: real) {
    RetryDelay(e.decision.attemptNumber, random).Some? && MatchesCurrentJob(t, e) && ConsistentRun(e) &&
    HoldsClaim(t, e.jobId, e.token, at)
  }

  lemma RetryIs(t: Tables, e: Execution, at: int, random: real, successor: Id)
    requires RetryCommits(t, e, at, random)
    ensures FinalizeRetry(t, e, at, random, successor) ==
            CloseAndEnqueue(t, e, at, at + RetryDelay(e.decision.attemptNumber, random).value, successor)
  {
  }

  lemma RefusedRetry(t: Tables, e: Execution, at: int, random: real, successor: Id)
    requires !RetryCommits(t, e, at, random)
    ensures FinalizeRetry(t, e, at, random, successor).0 == t
    ensures FinalizeRetry(t, e, at, random, successor).1 != SuccessorSlotTaken
  {
  }

  lemma CommittedRetryKeepsInv(t: Tables, e: Execution, at: int, random: real, successor: Id)
    requires Inv(t) && t.clock <= at && successor !in t.jobs && e.decision.attemptNumber < MAX_ATTEMPTS
    requires RetryCommits(t, e, at, random)
    ensures Inv(FinalizeRetry(t, e, at, random, successor).0)
    ensures FinalizeRetry(t, e, at, random, successor).1 != SuccessorSlotTaken
  {
    var availableAt := at + RetryDelay(e.decision.attemptNumber, random).value;
    RetryIs(t, e, at, random, successor);
    SuccessorEnqueued(t, e, at, availableAt, successor);
    SameTables(FinalizeRetry(t, e, at, random, successor).0, CloseAndEnqueue(t, e, at, availableAt, successor).0);
  }

  lemma SameTables(t: Tables, u: Tables)
    requires t == u && Inv(u)
    ensures Inv(t)
  {
  }

  lemma RetryKeepsInv(t: Tables, e: Execution, at: int, random: real, successor: Id)
    requires Inv(t) && t.clock <= at && successor !in t.jobs && e.decision.attemptNumber < MAX_ATTEMPTS
    ensures Inv(FinalizeRetry(t, e, at, random, successor).0)
    ensures FinalizeRetry(t, e, at, random, successor).1 != SuccessorSlotTaken
  {
    if RetryCommits(t, e, at, random) {
      CommittedRetryKeepsInv(t, e, at, random, successor);
    } else {
      RefusedRetry(t, e, at, random, successor);
    }
  }

  lemma DeferralKeepsInv(t: Tables, e: Execution, at: int, random: real)
    requires Inv(t)
    ensures Inv(FinalizeDeferral(t, e, at, random).0)
    ensures FinalizeDeferral(t, e, at, random).1 != SuccessorSlotTaken
  {
    var delay := EqualJitter(CONTENTION_DEFERRAL, random);
    if delay.Some? {
      DeferKeepsInv(t, e.jobId, e.token, at, at + delay.value);
      DeferralIs(t, e, at, random);
    }
  }

  lemma DeferralIs(t: Tables, e: Execution, at: int, random: real)
    requires EqualJitter(CONTENTION_DEFERRAL, random).Some?
    ensures FinalizeDeferral(t, e, at, random).0 ==
            Defer(t, e.jobId, e.token, at, at + EqualJitter(CONTENTION_DEFERRAL, random).value).0
  {
  }

  lemma TerminalKeepsInv(t: Tables, e: Execution, at: int, status: TerminalStatus)
    requires Inv(t) && t.clock <= at
    ensures Inv(FinalizeTerminal(t, e, at, status).0)
    ensures FinalizeTerminal(t, e, at, status).1 != SuccessorSlotTaken
  {
    TerminalizeKeepsInv(t, e.jobId, e.token, status, at, e.decision.outcome, e.decision.reason);
  }

  /** The error for a taken slot is unreachable. */
  lemma SlotNeverTaken(t: Tables, e: Execution, at: int, random: real, successor: Id)
    requires Inv(t) && t.clock <= at && successor !in t.jobs
    ensures Finalize(t, e, at, random, successor).1 != SuccessorSlotTaken
    ensures Inv(Finalize(t, e, at, random, successor).0)
  {
    match Decide(e.decision)
    case Deferring => DeferralKeepsInv(t, e, at, random);
    case Retrying => RetryKeepsInv(t, e, at, random, successor);
    case Terminal(status) => TerminalKeepsInv(t, e, at, status);
  }

  lemma ReconcileKeepsInv(t: Tables, id: Id, worker: string, token: Id, expiredAt: int, at: int, lease: int, availableAt: int)
    requires Inv(t) && token !in t.issued && at <= t.clock && at < lease
    ensures Inv(Reconcile(t, id, worker, token, expiredAt, at, lease, availableAt).0)
  {
    RequeueKeepsInv(t, id, expiredAt, availableAt);
    RecoverKeepsInv(t, id, worker, token, expiredAt, at, lease);
  }

  // ---------------------------------------------------------------------------
  // The invariant over runs

  lemma LaterKeepsInv(t: Tables, clock: int)
    requires Inv(t) && t.clock <= clock
    ensures Inv(t.(clock := clock))
  {
    var t' := t.(clock := clock);
    assert forall a, run | OwnsRun(t, a, run) :: OwnsRun(t', a, run);
    assert forall a | a in t.jobs && t.jobs[a].previous.Some? :: FollowsPredecessor(t, a) && FollowsPredecessor(t', a);
  }

  lemma NewRowsKeepInv(t: Tables, endpoints: set<Id>, runs: map<Id, CollectionRun>)
    requires Inv(t) && t.endpoints <= endpoints
    requires forall run | run in t.runs :: run in runs && runs[run] == t.runs[run]
    ensures Inv(t.(endpoints := endpoints, runs := runs))
  {
    var t' := t.(endpoints := endpoints, runs := runs);
    assert forall a, run | OwnsRun(t, a, run) :: OwnsRun(t', a, run);
    assert forall a | a in t.jobs && t.jobs[a].previous.Some? :: FollowsPredecessor(t, a) && FollowsPredecessor(t', a);
  }

  lemma ApplyKeepsInv(t0: Tables, k: Command)
    requires Inv(t0)
    ensures Inv(Apply(t0, k))
  {
    if Possible(t0, k) {
      LaterKeepsInv(t0, TimeOf(t0, k));
      var t := t0.(clock := TimeOf(t0, k));
      match k
      case AddEndpoint(e) => NewRowsKeepInv(t, t.endpoints + {e}, t.runs);
      case StartRun(run, row) => NewRowsKeepInv(t, t.endpoints, t.runs[run := row]);
      case EnqueueFirst(id, e, trigger, availableAt) => EnqueueKeepsInv(t, id, e, trigger, availableAt, 1, None);
      case ClaimNext(id, worker, token, at, lease) =>
        if NextJob(t, id, at) {
          ClaimKeepsInv(t, id, worker, token, at, lease);
        }
      case RenewLease(id, token, at, lease) => RenewKeepsInv(t, id, token, at, lease);
      case AttachRun(id, token, run, at) => AttachKeepsInv(t, id, token, run, at);
      case TerminalizeJob(id, token, status, at, outcome, reason) =>
        TerminalizeKeepsInv(t, id, token, status, at, outcome, reason);
      case DeferJob(id, token, at, availableAt) => DeferKeepsInv(t, id, token, at, availableAt);
      case FinalizeJob(e, at, random, successor) => SlotNeverTaken(t, e, at, random, successor);
      case ReconcileJob(id, worker, token, expiredAt, at, lease, availableAt) =>
        ReconcileKeepsInv(t, id, worker, token, expiredAt, at, lease, availableAt);
    }
  }

  /** Shape, slots, tokens, runs and chains hold in every state any commands lead to. */
  lemma {:induction false} EveryReachableState(t: Tables, commands: seq<Command>)
    requires Inv(t)
    ensures Inv(Run(t, commands)) && Inv(Empty)
    decreases |commands|
  {
    if commands != [] {
      ApplyKeepsInv(t, commands[0]);
      EveryReachableState(Apply(t, commands[0]), commands[1..]);
    }
  }

  // ---------------------------------------------------------------------------
  // Fencing

  /** Issued once, and now either replaced or past its lease. */
  ghost predicate Dead(t: Tables, token: Id) {
    token in t.issued &&
    forall id | id in t.jobs && t.jobs[id].token == Some(token) ::
      t.jobs[id].leaseExpiresAt.Some? && t.jobs[id].leaseExpiresAt.value <= t.clock
  }

  /** A dead token can do nothing: every statement it is offered to leaves the table alone. */
  lemma DeadTokenIsPowerless(t: Tables, token: Id, id: Id, at: int)
    requires Dead(t, token) && t.clock <= at
    ensures forall lease :: Renew(t, id, token, at, lease) == (t, false)
    ensures forall run :: Attach(t, id, token, run, at) == (t, false)
    ensures forall status, outcome, reason :: Terminalize(t, id, token, status, at, outcome, reason) == (t, false)
    ensures forall availableAt :: Defer(t, id, token, at, availableAt) == (t, false)
    ensures forall e: Execution, random, successor | e.jobId == id && e.token == token ::
              Finalize(t, e, at, random, successor).0 == t
  {
    assert !HoldsClaim(t, id, token, at);
  }

  /** A later version of a job. */
  ghost predicate Evolves(before: Job, after: Job) {
    && KeepsIdentity(before, after)
    && (before.status.Finished? ==> after == before)
    && (before.collectionRun.Some? ==> after.collectionRun == before.collectionRun && !after.status.Queued?)
  }

  /** What one step may make of a job: the token is kept, replaced by a new one, or dropped. */
  ghost predicate SafeJob(t: Tables, id: Id, job: Job, clock: int) {
    if id in t.jobs then
      && Evolves(t.jobs[id], job)
      && (job.token.Some? ==>
            || (job.token == t.jobs[id].token &&
                (job.leaseExpiresAt == t.jobs[id].leaseExpiresAt || HoldsClaim(t, id, job.token.value, clock)))
            || job.token.value !in t.issued)
    else job.token.None?
  }

  ghost predicate SafeStep(t: Tables, t': Tables) {
    && t.issued <= t'.issued && t.clock <= t'.clock && t.jobs.Keys <= t'.jobs.Keys
    && forall id | id in t'.jobs :: SafeJob(t, id, t'.jobs[id], t'.clock)
  }

  lemma NoChangeIsSafe(t: Tables, t': Tables)
    requires ShapesValid(t) && t'.jobs == t.jobs && t.issued <= t'.issued && t.clock <= t'.clock
    ensures SafeStep(t, t')
  {
    forall id | id in t.jobs
      ensures SafeJob(t, id, t.jobs[id], t'.clock)
    {
      assert ValidShape(id, t.jobs[id]);
    }
  }

  lemma ChangeIsSafe(t: Tables, id: Id, job: Job, t': Tables)
    requires ShapesValid(t) && t'.jobs == t.jobs[id := job] && t.issued <= t'.issued && t.clock <= t'.clock
    requires SafeJob(t, id, job, t'.clock)
    ensures SafeStep(t, t')
  {
    forall a | a in t.jobs
      ensures SafeJob(t, a, t'.jobs[a], t'.clock)
    {
      assert ValidShape(a, t.jobs[a]);
    }
  }

  lemma TerminalizeIsSafe(t: Tables, at: int, id: Id, token: Id, status: TerminalStatus, outcome: string, reason: Option<string>)
    requires Inv(t) && t.clock <= at
    ensures SafeStep(t, Terminalize(t.(clock := at), id, token, status, at, outcome, reason).0)
  {
    var (t', done) := Terminalize(t.(clock := at), id, token, status, at, outcome, reason);
    if done { ChangeIsSafe(t, id, t'.jobs[id], t'); } else { NoChangeIsSafe(t, t'); }
  }

  lemma DeferIsSafe(t: Tables, at: int, id: Id, token: Id, availableAt: int)
    requires Inv(t) && t.clock <= at
    ensures SafeStep(t, Defer(t.(clock := at), id, token, at, availableAt).0)
  {
    var (t', done) := Defer(t.(clock := at), id, token, at, availableAt);
    if done { ChangeIsSafe(t, id, t'.jobs[id], t'); } else { NoChangeIsSafe(t, t'); }
  }

  lemma LeaseStepsAreSafe(t: Tables, at: int, id: Id, token: Id)
    requires Inv(t) && t.clock <= at
    ensures forall lease :: SafeStep(t, Renew(t.(clock := at), id, token, at, lease).0)
    ensures forall run :: SafeStep(t, Attach(t.(clock := at), id, token, run, at).0)
  {
    forall lease
      ensures SafeStep(t, Renew(t.(clock := at), id, token, at, lease).0)
    {
      var (t', done) := Renew(t.(clock := at), id, token, at, lease);
      if done { ChangeIsSafe(t, id, t'.jobs[id], t'); } else { NoChangeIsSafe(t, t'); }
    }
    forall run
      ensures SafeStep(t, Attach(t.(clock := at), id, token, run, at).0)
    {
      var (t', done) := Attach(t.(clock := at), id, token, run, at);
      if done { ChangeIsSafe(t, id, t'.jobs[id], t'); } else { NoChangeIsSafe(t, t'); }
    }
  }

  lemma ReconcileIsSafe(t: Tables, id: Id, worker: string, token: Id, expiredAt: int, at: int, lease: int, availableAt: int)
    requires Inv(t) && t.clock <= at && token !in t.issued
    ensures SafeStep(t, Reconcile(t.(clock := at), id, worker, token, expiredAt, at, lease, availableAt).0)
  {
    var (t', r) := Reconcile(t.(clock := at), id, worker, token, expiredAt, at, lease, availableAt);
    if r.Requeued? || r.Reconciled? { ChangeIsSafe(t, id, t'.jobs[id], t'); } else { NoChangeIsSafe(t, t'); }
  }

  lemma ClaimIsSafe(t: Tables, id: Id, worker: string, token: Id, at: int, lease: int)
    requires Inv(t) && t.clock <= at && token !in t.issued && id in t.jobs && t.jobs[id].status.Queued?
    ensures SafeStep(t, Claimed(t.(clock := at), id, worker, token, at, lease))
  {
    assert ValidShape(id, t.jobs[id]);
    var t' := Claimed(t.(clock := at), id, worker, token, at, lease);
    ChangeIsSafe(t, id, t'.jobs[id], t');
  }

  /** A new job without a token, beside an otherwise safe step. */
  lemma InsertIsSafe(t: Tables, t': Tables, id: Id, job: Job)
    requires SafeStep(t, t') && id !in t'.jobs && job.token.None?
    ensures SafeStep(t, Put(t', id, job))
  {
  }

  lemma EnqueueIsSafe(t: Tables, t': Tables, id: Id, endpoint: Id, trigger: Trigger, availableAt: int, attempt: int, previous: Option<Id>)
    requires SafeStep(t, t') && id !in t'.jobs
    ensures SafeStep(t, Enqueue(t', id, endpoint, trigger, availableAt, attempt, previous).0)
  {
    var (t2, r) := Enqueue(t', id, endpoint, trigger, availableAt, attempt, previous);
    if r.Created? { InsertIsSafe(t, t', id, t2.jobs[id]); }
  }

  lemma RetryIsSafe(t: Tables, e: Execution, at: int, random: real, successor: Id)
    requires Inv(t) && t.clock <= at && successor !in t.jobs
    ensures SafeStep(t, FinalizeRetry(t.(clock := at), e, at, random, successor).0)
  {
    var u := t.(clock := at);
    NoChangeIsSafe(t, u);
    var delay := RetryDelay(e.decision.attemptNumber, random);
    if RetryCommits(u, e, at, random) {
      RetryIs(u, e, at, random, successor);
      TerminalizeIsSafe(t, at, e.jobId, e.token, FailureStatus(e.decision), e.decision.outcome, e.decision.reason);
      var t1 := Closed(u, e, at);
      var job := t1.jobs[e.jobId];
      EnqueueIsSafe(t, t1, successor, job.endpoint, job.trigger, at + delay.value, job.attempt + 1, Some(e.jobId));
    } else {
      RefusedRetry(u, e, at, random, successor);
    }
  }

  lemma FinalizeIsSafe(t: Tables, e: Execution, at: int, random: real, successor: Id)
    requires Inv(t) && t.clock <= at && successor !in t.jobs
    ensures SafeStep(t, Finalize(t.(clock := at), e, at, random, successor).0)
  {
    NoChangeIsSafe(t, t.(clock := at));
    match Decide(e.decision)
    case Deferring =>
      var delay := EqualJitter(CONTENTION_DEFERRAL, random);
      if delay.Some? { DeferIsSafe(t, at, e.jobId, e.token, at + delay.value); }
    case Retrying => RetryIsSafe(t, e, at, random, successor);
    case Terminal(status) => TerminalizeIsSafe(t, at, e.jobId, e.token, status, e.decision.outcome, e.decision.reason);
  }

  lemma StepIsSafe(t: Tables, k: Command)
    requires Inv(t)
    ensures SafeStep(t, Apply(t, k))
  {
    NoChangeIsSafe(t, t);
    if Possible(t, k) {
      var u := t.(clock := TimeOf(t, k));
      NoChangeIsSafe(t, u);
      match k
      case AddEndpoint(e) => NoChangeIsSafe(t, Apply(t, k));
      case StartRun(run, row) => NoChangeIsSafe(t, Apply(t, k));
      case EnqueueFirst(id, e, trigger, availableAt) => EnqueueIsSafe(t, u, id, e, trigger, availableAt, 1, None);
      case ClaimNext(id, worker, token, at, lease) =>
        if NextJob(u, id, at) { ClaimIsSafe(t, id, worker, token, at, lease); }
      case RenewLease(id, token, at, lease) => LeaseStepsAreSafe(t, at, id, token);
      case AttachRun(id, token, run, at) => LeaseStepsAreSafe(t, at, id, token);
      case TerminalizeJob(id, token, status, at, outcome, reason) =>
        TerminalizeIsSafe(t, at, id, token, status, outcome, reason);
      case DeferJob(id, token, at, availableAt) => DeferIsSafe(t, at, id, token, availableAt);
      case FinalizeJob(e, at, random, successor) => FinalizeIsSafe(t, e, at, random, successor);
      case ReconcileJob(id, worker, token, expiredAt, at, lease, availableAt) =>
        ReconcileIsSafe(t, id, worker, token, expiredAt, at, lease, availableAt);
    }
  }

  lemma DeadStaysDead(t: Tables, t': Tables, token: Id)
    requires SafeStep(t, t') && Dead(t, token)
    ensures Dead(t', token)
  {
  }

  /** Once dead, a token is powerless for the rest of every run. */
  lemma {:induction false} DeadForever(t: Tables, commands: seq<Command>, token: Id)
    requires Inv(t) && Dead(t, token)
    ensures Dead(Run(t, commands), token)
    decreases |commands|
  {
    if commands != [] {
      StepIsSafe(t, commands[0]);
      DeadStaysDead(t, Apply(t, commands[0]), token);
      ApplyKeepsInv(t, commands[0]);
      DeadForever(Apply(t, commands[0]), commands[1..], token);
    }
  }

  /** Whatever takes a token away from its job, or lets its lease run out, kills it. */
  lemma SupersededIsDead(t: Tables, k: Command, id: Id, token: Id)
    requires Inv(t) && id in t.jobs && t.jobs[id].token == Some(token)
    requires var t' := Apply(t, k);
             id in t'.jobs && (t'.jobs[id].token != Some(token) ||
                               (t'.jobs[id].leaseExpiresAt.Some? && t'.jobs[id].leaseExpiresAt.value <= t'.clock))
    ensures Dead(Apply(t, k), token)
  {
    ApplyKeepsInv(t, k);
    StepIsSafe(t, k);
    var t' := Apply(t, k);
    forall a | a in t'.jobs && t'.jobs[a].token == Some(token)
      ensures a == id
    {
      assert t.jobs[a].token == Some(token);
    }
  }

  // ---------------------------------------------------------------------------
  // What never changes about a job

  ghost predicate AllEvolve(t: Tables, t': Tables) {
    forall id | id in t.jobs :: id in t'.jobs && Evolves(t.jobs[id], t'.jobs[id])
  }

  lemma EvolvesTransitive(t: Tables, u: Tables, v: Tables)
    requires SafeStep(t, u) && AllEvolve(u, v)
    ensures AllEvolve(t, v)
  {
    forall id | id in t.jobs
      ensures id in v.jobs && Evolves(t.jobs[id], v.jobs[id])
    {
      assert SafeJob(t, id, u.jobs[id], u.clock);
      assert Evolves(u.jobs[id], v.jobs[id]);
    }
  }

  /**
    Over any run a terminal job never changes, an attached Collection run is never replaced,
    a job with one is never queued again, and no job changes endpoint, trigger or attempt.
   */
  lemma {:induction false} JobsEvolve(t: Tables, commands: seq<Command>)
    requires Inv(t)
    ensures AllEvolve(t, Run(t, commands))
    decreases |commands|
  {
    if commands == [] {
      NoChangeIsSafe(t, t);
    } else {
      StepIsSafe(t, commands[0]);
      ApplyKeepsInv(t, commands[0]);
      JobsEvolve(Apply(t, commands[0]), commands[1..]);
      EvolvesTransitive(t, Apply(t, commands[0]), Run(t, commands));
    }
  }
}
