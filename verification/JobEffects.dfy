/**
  What each statement on the jobs table does, told by the rows alone
  (src/jobs/endpoint-collection-job-repository.ts).
 */
module JobEffects {
  import opened Prelude
  import opened JobPolicy
  import opened Jobs
  import opened JobRuns

  /** Running under this token, with the lease still open. */
  predicate HeldBy(job: Job, token: Id, at: int) {
    && job.status == Running && job.token == Some(token)
    && job.leaseExpiresAt.Some? && at < job.leaseExpiresAt.value
  }

  predicate PastLease(job: Job, boundary: int) {
    job.status == Running && job.leaseExpiresAt.Some? && job.leaseExpiresAt.value <= boundary
  }

  predicate Waiting(job: Job, at: int) { job.status == Queued && job.availableAt <= at }

  /** Available first, or enqueued first, or of the smaller id. */
  predicate ComesFirst(a: Id, x: Job, b: Id, y: Job) {
    if x.availableAt != y.availableAt then x.availableAt < y.availableAt
    else if x.enqueuedAt != y.enqueuedAt then x.enqueuedAt < y.enqueuedAt
    else a <= b
  }

  /** Exactly one row changes, and to this. */
  ghost predicate OnlyRow(t: Tables, t': Tables, id: Id, row: Job) {
    && t'.jobs.Keys == t.jobs.Keys + {id} && t'.jobs[id] == row
    && (forall other | other in t.jobs && other != id :: t'.jobs[other] == t.jobs[other])
    && t'.endpoints == t.endpoints && t'.runs == t.runs
  }

  lemma EnqueueEffect(t: Tables, id: Id, endpoint: Id, trigger: Trigger, availableAt: int, attempt: int, previous: Option<Id>)
    requires id !in t.jobs
    ensures var (t', r) := Enqueue(t, id, endpoint, trigger, availableAt, attempt, previous);
            var known := endpoint in t.endpoints && attempt >= 1 && (attempt == 1 <==> previous.None?) &&
                         (previous.Some? ==> previous.value in t.jobs && t.jobs[previous.value].endpoint == endpoint &&
                                             t.jobs[previous.value].trigger == trigger);
            var taken := exists a :: a in t.jobs && t.jobs[a].endpoint == endpoint && t.jobs[a].status in {Queued, Running};
            && (r == NotEnqueued <==> !known) && (r == AlreadyOutstanding <==> known && taken)
            && (r == Created(id) <==> known && !taken) && (r != Created(id) ==> t' == t)
            && (r == Created(id) ==>
                  t'.issued == t.issued &&
                  OnlyRow(t, t', id, Job(endpoint, trigger, Queued, t.clock, availableAt, attempt, previous,
                                         None, None, None, None, None, None, None, None, t.clock)))
  {
    assert SlotTaken(t, endpoint) <==>
      exists a :: a in t.jobs && t.jobs[a].endpoint == endpoint && (t.jobs[a].status.Queued? || t.jobs[a].status.Running?);
  }

  /** The first waiting job, and no other, goes to the worker, who holds it until the lease ends. */
  lemma ClaimEffect(t: Tables, id: Id, worker: string, token: Id, at: int, lease: int)
    requires t.clock <= at < lease && token !in t.issued
    ensures var t' := Apply(t, ClaimNext(id, worker, token, at, lease));
            if id in t.jobs && Waiting(t.jobs[id], at) &&
               forall other | other in t.jobs && Waiting(t.jobs[other], at) :: ComesFirst(id, t.jobs[id], other, t.jobs[other])
            then
              && OnlyRow(t, t', id, t.jobs[id].(status := Running, worker := Some(worker), token := Some(token),
                                                claimedAt := Some(at), leaseExpiresAt := Some(lease), updatedAt := at))
              && t'.issued == t.issued + {token}
              && (forall later | later < lease :: HeldBy(t'.jobs[id], token, later))
            else t'.jobs == t.jobs && t'.issued == t.issued
  {
    if id in t.jobs {
      assert forall other | other in t.jobs :: ComesFirst(id, t.jobs[id], other, t.jobs[other]) <==> ClaimOrder(t, id, other);
    }
  }

  lemma RenewEffect(t: Tables, id: Id, token: Id, at: int, lease: int)
    ensures var (t', done) := Renew(t, id, token, at, lease);
            && (done <==> id in t.jobs && HeldBy(t.jobs[id], token, at) && t.jobs[id].leaseExpiresAt.value < lease)
            && (!done ==> t' == t)
            && (done ==> t'.issued == t.issued &&
                         OnlyRow(t, t', id, t.jobs[id].(leaseExpiresAt := Some(lease), updatedAt := at)))
  {
  }

  lemma AttachEffect(t: Tables, id: Id, token: Id, run: Id, at: int)
    ensures var (t', done) := Attach(t, id, token, run, at);
            && (done <==>
                  && id in t.jobs && HeldBy(t.jobs[id], token, at) && (t.jobs[id].collectionRun.None? || t.jobs[id].collectionRun == Some(run))
                  && run in t.runs && t.runs[run].endpoint == t.jobs[id].endpoint && t.runs[run].execution == id
                  && t.runs[run].trigger == t.jobs[id].trigger)
            && (!done ==> t' == t)
            && (done ==> t'.issued == t.issued &&
                         OnlyRow(t, t', id, t.jobs[id].(collectionRun := Some(run), updatedAt := Max(t.jobs[id].updatedAt, at))))
  {
  }

  lemma TerminalizeEffect(t: Tables, id: Id, token: Id, status: TerminalStatus, at: int, outcome: string, reason: Option<string>)
    ensures var (t', done) := Terminalize(t, id, token, status, at, outcome, reason);
            && (done <==> id in t.jobs && HeldBy(t.jobs[id], token, at))
            && (!done ==> t' == t)
            && (done ==> t'.issued == t.issued &&
                         OnlyRow(t, t', id, t.jobs[id].(status := Finished(status), token := None, leaseExpiresAt := None,
                                                        terminalAt := Some(at), outcome := Some(outcome), reason := reason,
                                                        updatedAt := at)))
  {
  }

  lemma DeferEffect(t: Tables, id: Id, token: Id, at: int, availableAt: int)
    ensures var (t', done) := Defer(t, id, token, at, availableAt);
            && (done <==> id in t.jobs && HeldBy(t.jobs[id], token, at) && t.jobs[id].collectionRun.None?)
            && (!done ==> t' == t)
            && (done ==> t'.issued == t.issued &&
                         OnlyRow(t, t', id, t.jobs[id].(status := Queued, availableAt := availableAt, worker := None, token := None,
                                                        claimedAt := None, leaseExpiresAt := None, updatedAt := at)))
  {
  }

  /** An expired job goes back to the queue, or to the recovering worker with its own run, or stays. */
  lemma ReconcileEffect(t: Tables, id: Id, worker: string, token: Id, expiredAt: int, at: int, lease: int, availableAt: int)
    ensures var (t', r) := Reconcile(t, id, worker, token, expiredAt, at, lease, availableAt);
            var lost := id in t.jobs && PastLease(t.jobs[id], expiredAt);
            && (r == NotRecoverable <==> !lost)
            && (lost ==>
                  var run := t.jobs[id].collectionRun;
                  var own := run.Some? && run.value in t.runs && t.runs[run.value].endpoint == t.jobs[id].endpoint &&
                             t.runs[run.value].execution == id && t.runs[run.value].trigger == t.jobs[id].trigger;
                  && (r == Requeued <==> run.None?) && (r == RunOwnershipInvalid <==> run.Some? && !own)
                  && (r == Reconciled <==> own))
            && (r in {NotRecoverable, RunOwnershipInvalid} ==> t' == t)
            && (r == Requeued ==>
                  t'.issued == t.issued &&
                  OnlyRow(t, t', id, t.jobs[id].(status := Queued, availableAt := availableAt, worker := None, token := None,
                                                 claimedAt := None, leaseExpiresAt := None, updatedAt := expiredAt)))
            && (r == Reconciled ==>
                  t'.issued == t.issued + {token} &&
                  OnlyRow(t, t', id, t.jobs[id].(worker := Some(worker), token := Some(token), claimedAt := Some(at),
                                                 leaseExpiresAt := Some(lease), updatedAt := at)))
  {
  }

  // ---------------------------------------------------------------------------
  // One claim at a time

  /** The commands that can put a claimed job back into the queue or give it to another worker. */
  predicate HandsBack(k: Command, id: Id) {
    || (k.DeferJob? && k.id == id)
    || (k.ReconcileJob? && k.id == id)
    || (k.FinalizeJob? && k.execution.jobId == id && Decide(k.execution.decision).Deferring?)
  }

  /** Still under the token it was claimed with, or finished. */
  predicate Taken(t: Tables, id: Id, token: Id) {
    id in t.jobs && ((t.jobs[id].status == Running && t.jobs[id].token == Some(token)) || t.jobs[id].status.Finished?)
  }

  lemma StaysTaken(t: Tables, k: Command, id: Id, token: Id)
    requires Taken(t, id, token) && !HandsBack(k, id)
    ensures Taken(Apply(t, k), id, token)
  {
    if k.FinalizeJob? && Possible(t, k) {
      FinalizeStaysTaken(t.(clock := k.at), k.execution, k.at, k.random, k.successor, id, token);
    }
  }

  lemma FinalizeStaysTaken(t: Tables, e: Execution, at: int, random: real, successor: Id, id: Id, token: Id)
    requires Taken(t, id, token) && successor !in t.jobs && !(e.jobId == id && Decide(e.decision).Deferring?)
    ensures Taken(Finalize(t, e, at, random, successor).0, id, token)
  {
  }

  /** A claimed job is not claimed again in any run that does not defer or recover it. */
  lemma {:induction false} ClaimedOnce(t: Tables, commands: seq<Command>, id: Id, token: Id)
    requires Taken(t, id, token) && forall k | k in commands :: !HandsBack(k, id)
    ensures Taken(Run(t, commands), id, token)
    ensures forall worker, other, at, lease :: Apply(Run(t, commands), ClaimNext(id, worker, other, at, lease)).jobs == Run(t, commands).jobs
    decreases |commands|
  {
    if commands != [] {
      StaysTaken(t, commands[0], id, token);
      ClaimedOnce(Apply(t, commands[0]), commands[1..], id, token);
    }
  }

  // ---------------------------------------------------------------------------
  // Finalization

  /** The result is about the job as it stands. */
  predicate About(e: Execution, job: Job) {
    && job.status == Running && job.token == Some(e.token) && job.endpoint == e.endpoint && job.trigger == e.trigger
    && job.attempt == e.decision.attemptNumber && job.collectionRun == e.collectionRun
  }

  predicate TellsOfRun(e: Execution) {
    (e.decision.collectionRunOccurred <==> e.collectionRun.Some?) &&
    (e.decision.category.CategoryFailed? ==> e.decision.collectionRunOccurred)
  }

  lemma ClosingEffect(t: Tables, e: Execution, at: int, random: real, successor: Id)
    requires Decide(e.decision).Terminal?
    ensures var (t', r) := Finalize(t, e, at, random, successor);
            var about := e.jobId in t.jobs && About(e, t.jobs[e.jobId]);
            var held := e.jobId in t.jobs && HeldBy(t.jobs[e.jobId], e.token, at);
            && (r == InconsistentRun <==> about && !TellsOfRun(e))
            && (r == TerminalResult <==> about && TellsOfRun(e) && held)
            && (r == OwnershipLost <==> !about || (TellsOfRun(e) && !held))
            && (r != TerminalResult ==> t' == t)
            && (r == TerminalResult ==>
                  OnlyRow(t, t', e.jobId, t.jobs[e.jobId].(
                    status := Finished(Decide(e.decision).status), token := None, leaseExpiresAt := None, terminalAt := Some(at),
                    outcome := Some(e.decision.outcome), reason := e.decision.reason, updatedAt := at)))
  {
  }

  /** A deferral waits between half of five seconds and five seconds. */
  lemma DeferringEffect(t: Tables, e: Execution, at: int, random: real, successor: Id)
    requires Decide(e.decision).Deferring?
    ensures var (t', r) := Finalize(t, e, at, random, successor);
            var valid := 0.0 <= random <= 1.0;
            var held := e.jobId in t.jobs && HeldBy(t.jobs[e.jobId], e.token, at) && t.jobs[e.jobId].collectionRun.None?;
            && (r == RandomSourceInvalid <==> !valid) && (r == Deferred <==> valid && held) && (r == OwnershipLost <==> valid && !held)
            && (r != Deferred ==> t' == t)
            && (r == Deferred ==>
                  && e.jobId in t'.jobs && at + 2_500 <= t'.jobs[e.jobId].availableAt <= at + 5_000
                  && OnlyRow(t, t', e.jobId, t.jobs[e.jobId].(
                       status := Queued, availableAt := t'.jobs[e.jobId].availableAt, worker := None, token := None,
                       claimedAt := None, leaseExpiresAt := None, updatedAt := at)))
  {
  }

  lemma RetryingAnswers(t: Tables, e: Execution, at: int, random: real, successor: Id)
    requires Inv(t) && t.clock <= at && successor !in t.jobs && Decide(e.decision).Retrying?
    ensures var (t', r) := Finalize(t, e, at, random, successor);
            var valid := 0.0 <= random <= 1.0 && e.decision.attemptNumber >= 1;
            var about := e.jobId in t.jobs && About(e, t.jobs[e.jobId]);
            var held := e.jobId in t.jobs && HeldBy(t.jobs[e.jobId], e.token, at);
            && (r == RandomSourceInvalid <==> !valid)
            && (r == InconsistentRun <==> valid && about && !TellsOfRun(e))
            && (r == RetryEnqueued(successor) <==> valid && about && TellsOfRun(e) && held)
            && (r == OwnershipLost <==> valid && (!about || (TellsOfRun(e) && !held)))
            && (r != RetryEnqueued(successor) ==> t' == t)
  {
    var held := e.jobId in t.jobs && HeldBy(t.jobs[e.jobId], e.token, at);
    if 0.0 <= random <= 1.0 && MatchesCurrentJob(t, e) && ConsistentRun(e) && held {
      RetryAlwaysEnqueued(t, e, at, random, successor);
    }
  }
}
