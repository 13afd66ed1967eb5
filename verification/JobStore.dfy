/**
  The job statements and the finalization transaction as updates of the jobs table.
  Every method states its whole effect as one of the steps of `JobRuns.Apply`.
 */
module JobStore {
  import opened Prelude
  import opened JobPolicy
  import opened Jobs
  import opened JobRuns

  class JobQueue {
    var endpoints: set<Id>
    var jobs: map<Id, Job>
    var runs: map<Id, CollectionRun>
    var clock: int
    ghost var issued: set<Id>

    ghost function State(): Tables
      reads this
    {
      Tables(endpoints, jobs, runs, clock, issued)
    }

    ghost predicate Valid()
      reads this
    {
      Inv(State())
    }

    constructor ()
      ensures Valid() && State() == Empty
    {
      endpoints, jobs, runs, clock, issued := {}, map[], map[], 0, {};
    }

    method Enqueue(id: Id, endpoint: Id, trigger: Trigger, availableAt: int, attempt: int, previous: Option<Id>)
      returns (r: EnqueueResult)
      modifies this`jobs
      ensures (State(), r) == Jobs.Enqueue(old(State()), id, endpoint, trigger, availableAt, attempt, previous)
    {
      if attempt < 1 || (attempt == 1) != previous.None? { return NotEnqueued; }
      if endpoint !in endpoints { return NotEnqueued; }
      if previous.Some? {
        if previous.value !in jobs || jobs[previous.value].endpoint != endpoint || jobs[previous.value].trigger != trigger {
          return NotEnqueued;
        }
      }
      if exists other :: other in jobs && jobs[other].endpoint == endpoint && jobs[other].Outstanding() {
        return AlreadyOutstanding;
      }
      jobs := jobs[id := Job(endpoint, trigger, Queued, clock, availableAt, attempt, previous,
                             None, None, None, None, None, None, None, None, clock)];
      return Created(id);
    }

    /** Takes the first claimable job in claim order, if there is one. */
    method ClaimNextJob(worker: string, token: Id, at: int, lease: int) returns (claimed: Option<Id>)
      requires Valid() && clock <= at < lease && token !in issued
      modifies this`jobs, this`clock, this`issued
      ensures Valid()
      ensures claimed.None? ==>
                State() == old(State()).(clock := at) && forall id | id in jobs :: !Claimable(State(), id, at)
      ensures claimed.Some? ==>
                NextJob(old(State()), claimed.value, at) &&
                State() == Apply(old(State()), ClaimNext(claimed.value, worker, token, at, lease))
    {
      ghost var s := State();
      LaterKeepsInv(s, at);
      var next := FindNextJob(at);
      clock := at;
      if next.None? { return None; }
      var id := next.value;
      ApplyKeepsInv(s, ClaimNext(id, worker, token, at, lease));
      SameNextJob(s, State(), id, at);
      jobs := jobs[id := jobs[id].(status := Running, worker := Some(worker), token := Some(token), claimedAt := Some(at),
                                   leaseExpiresAt := Some(lease), updatedAt := at)];
      issued := issued + {token};
      return Some(id);
    }

    method FindNextJob(at: int) returns (next: Option<Id>)
      ensures next.Some? ==> NextJob(State(), next.value, at)
      ensures next.None? ==> forall id | id in jobs :: !Claimable(State(), id, at)
    {
      var waiting := set id | id in jobs && jobs[id].status.Queued? && jobs[id].availableAt <= at;
      if waiting == {} {
        assert forall id | id in jobs :: Claimable(State(), id, at) ==> id in waiting;
        return None;
      }
      var id := FirstInClaimOrder(waiting);
      assert forall other | other in jobs && Claimable(State(), other, at) :: other in waiting;
      return Some(id);
    }

    static lemma SameNextJob(t: Tables, u: Tables, id: Id, at: int)
      requires NextJob(t, id, at) && t.jobs == u.jobs
      ensures NextJob(u, id, at)
    {
      assert forall other | other in u.jobs && Claimable(u, other, at) :: Claimable(t, other, at);
    }

    method FirstInClaimOrder(waiting: set<Id>) returns (best: Id)
      requires waiting != {} && forall id | id in waiting :: id in jobs
      ensures best in waiting && forall other | other in waiting :: ClaimOrder(State(), best, other)
    {
      best :| best in waiting;
      var rest := waiting - {best};
      while rest != {}
        invariant rest <= waiting && best in waiting
        invariant forall other | other in waiting - rest :: ClaimOrder(State(), best, other)
      {
        var id :| id in rest;
        ghost var first, seen := best, waiting - rest;
        rest := rest - {id};
        var x, y := jobs[best], jobs[id];
        if !(x.availableAt < y.availableAt ||
             (x.availableAt == y.availableAt &&
              (x.enqueuedAt < y.enqueuedAt || (x.enqueuedAt == y.enqueuedAt && best <= id)))) {
          best := id;
        }
        forall other | other in waiting - rest
          ensures ClaimOrder(State(), best, other)
        {
          assert other == id || other in seen;
          assert ClaimOrder(State(), best, first) && ClaimOrder(State(), best, id);
        }
      }
    }

    method ClaimIsOpen(id: Id, token: Id, at: int) returns (open: bool)
      ensures open == HoldsClaim(State(), id, token, at)
    {
      if id !in jobs || !jobs[id].status.Running? || jobs[id].token != Some(token) { return false; }
      match jobs[id].leaseExpiresAt
      case None => return false;
      case Some(lease) => return at < lease;
    }

    method RenewJobLease(id: Id, token: Id, at: int, lease: int) returns (done: bool)
      requires Valid() && clock <= at
      modifies this`jobs, this`clock
      ensures Valid() && State() == Apply(old(State()), RenewLease(id, token, at, lease))
      ensures done == Renew(old(State()), id, token, at, lease).1
    {
      ApplyKeepsInv(State(), RenewLease(id, token, at, lease));
      clock := at;
      done := ClaimIsOpen(id, token, at);
      if done { done := jobs[id].leaseExpiresAt.value < lease; }
      if done { jobs := jobs[id := jobs[id].(leaseExpiresAt := Some(lease), updatedAt := at)]; }
    }

    method AttachCollectionRun(id: Id, token: Id, run: Id, at: int) returns (done: bool)
      requires Valid() && clock <= at
      modifies this`jobs, this`clock
      ensures Valid() && State() == Apply(old(State()), AttachRun(id, token, run, at))
      ensures done == Attach(old(State()), id, token, run, at).1
    {
      ApplyKeepsInv(State(), AttachRun(id, token, run, at));
      clock := at;
      done := ClaimIsOpen(id, token, at);
      if !done { return; }
      var job := jobs[id];
      done := run in runs && runs[run] == CollectionRun(job.endpoint, id, job.trigger) &&
              (job.collectionRun == None || job.collectionRun == Some(run));
      if done {
        jobs := jobs[id := job.(collectionRun := Some(run), updatedAt := if job.updatedAt < at then at else job.updatedAt)];
      }
    }

    method TerminalizeClaimed(id: Id, token: Id, status: TerminalStatus, at: int, outcome: string, reason: Option<string>)
      returns (done: bool)
      modifies this`jobs
      ensures (State(), done) == Terminalize(old(State()), id, token, status, at, outcome, reason)
    {
      done := ClaimIsOpen(id, token, at);
      if done {
        jobs := jobs[id := jobs[id].(status := Finished(status), token := None, leaseExpiresAt := None,
                                     terminalAt := Some(at), outcome := Some(outcome), reason := reason, updatedAt := at)];
      }
    }

    method DeferClaimed(id: Id, token: Id, at: int, availableAt: int) returns (done: bool)
      modifies this`jobs
      ensures (State(), done) == Defer(old(State()), id, token, at, availableAt)
    {
      done := ClaimIsOpen(id, token, at);
      if done { done := jobs[id].collectionRun.None?; }
      if done {
        jobs := jobs[id := jobs[id].(status := Queued, availableAt := availableAt, worker := None, token := None,
                                     claimedAt := None, leaseExpiresAt := None, updatedAt := at)];
      }
    }

    // -------------------------------------------------------------------------
    // Finalization

    method CheckCurrentJob(e: Execution) returns (refusal: Option<FinalizeResult>)
      ensures refusal == if !MatchesCurrentJob(State(), e) then Some(OwnershipLost)
                         else if !ConsistentRun(e) then Some(InconsistentRun) else None
    {
      if e.jobId !in jobs { return Some(OwnershipLost); }
      var job := jobs[e.jobId];
      if !job.status.Running? || job.token != Some(e.token) || job.endpoint != e.endpoint || job.trigger != e.trigger ||
         job.attempt != e.decision.attemptNumber || job.collectionRun != e.collectionRun {
        return Some(OwnershipLost);
      }
      if (e.decision.collectionRunOccurred && e.collectionRun.None?) ||
         (!e.decision.collectionRunOccurred && e.collectionRun.Some?) ||
         (e.decision.category.CategoryFailed? && !e.decision.collectionRunOccurred) {
        return Some(InconsistentRun);
      }
      return None;
    }

    /** One transaction; the branch for a taken slot is proved dead. */
    method FinalizeExecution(e: Execution, at: int, random: real, successor: Id) returns (r: FinalizeResult)
      requires Valid() && clock <= at && successor !in jobs
      modifies this`jobs, this`clock
      ensures Valid() && State() == Apply(old(State()), FinalizeJob(e, at, random, successor))
      ensures r == Finalize(old(State()).(clock := at), e, at, random, successor).1
      ensures !r.SuccessorSlotTaken?
    {
      ApplyKeepsInv(State(), FinalizeJob(e, at, random, successor));
      LaterKeepsInv(State(), at);
      clock := at;
      ghost var s := State();
      SlotNeverTaken(s, e, at, random, successor);
      match Decide(e.decision)
      case Deferring => r := FinalizeByDeferral(e, at, random);
      case Retrying => r := FinalizeByRetry(e, at, random, successor);
      case Terminal(status) => r := FinalizeByClosing(e, at, status);
    }

    method FinalizeByDeferral(e: Execution, at: int, random: real) returns (r: FinalizeResult)
      modifies this`jobs
      ensures (State(), r) == FinalizeDeferral(old(State()), e, at, random)
    {
      var delay := EqualJitter(CONTENTION_DEFERRAL, random);
      if delay.None? { return RandomSourceInvalid; }
      var done := DeferClaimed(e.jobId, e.token, at, at + delay.value);
      return if done then Deferred else OwnershipLost;
    }

    method FinalizeByClosing(e: Execution, at: int, status: TerminalStatus) returns (r: FinalizeResult)
      modifies this`jobs
      ensures (State(), r) == FinalizeTerminal(old(State()), e, at, status)
    {
      var refusal := CheckCurrentJob(e);
      if refusal.Some? { return refusal.value; }
      var done := TerminalizeClaimed(e.jobId, e.token, status, at, e.decision.outcome, e.decision.reason);
      return if done then TerminalResult else OwnershipLost;
    }

    method FinalizeByRetry(e: Execution, at: int, random: real, successor: Id) returns (r: FinalizeResult)
      requires Valid() && clock <= at && successor !in jobs && Decide(e.decision).Retrying?
      modifies this`jobs
      ensures (State(), r) == FinalizeRetry(old(State()), e, at, random, successor)
    {
      ghost var s := State();
      RetryKeepsInv(s, e, at, random, successor);
      var delay := RetryDelay(e.decision.attemptNumber, random);
      if delay.None? { return RandomSourceInvalid; }
      var refusal := CheckCurrentJob(e);
      if refusal.Some? { return refusal.value; }
      var done := TerminalizeClaimed(e.jobId, e.token, FailureStatus(e.decision), at, e.decision.outcome, e.decision.reason);
      if !done { return OwnershipLost; }
      RetryIs(s, e, at, random, successor);
      SuccessorEnqueued(s, e, at, at + delay.value, successor);
      var closed := jobs[e.jobId];
      var enqueued := Enqueue(successor, closed.endpoint, closed.trigger, at + delay.value, closed.attempt + 1, Some(e.jobId));
      if !enqueued.Created? {
        assert false;
      }
      return RetryEnqueued(successor);
    }

    // -------------------------------------------------------------------------
    // Recovery

    method ReconcileExpiredJob(id: Id, worker: string, token: Id, expiredAt: int, at: int, lease: int, availableAt: int)
      returns (r: ReconcileResult)
      requires Valid() && clock <= at < lease && expiredAt <= at && token !in issued
      modifies this`jobs, this`clock, this`issued
      ensures Valid() && State() == Apply(old(State()), ReconcileJob(id, worker, token, expiredAt, at, lease, availableAt))
      ensures r == Reconcile(old(State()), id, worker, token, expiredAt, at, lease, availableAt).1
    {
      ApplyKeepsInv(State(), ReconcileJob(id, worker, token, expiredAt, at, lease, availableAt));
      clock := at;
      if id !in jobs { return NotRecoverable; }
      var job := jobs[id];
      if !job.status.Running? || job.leaseExpiresAt.None? || expiredAt < job.leaseExpiresAt.value { return NotRecoverable; }
      match job.collectionRun
      case None =>
        jobs := jobs[id := job.(status := Queued, availableAt := availableAt, worker := None, token := None,
                                claimedAt := None, leaseExpiresAt := None, updatedAt := expiredAt)];
        return Requeued;
      case Some(run) =>
        if run !in runs || runs[run] != CollectionRun(job.endpoint, id, job.trigger) { return RunOwnershipInvalid; }
        jobs := jobs[id := job.(worker := Some(worker), token := Some(token), claimedAt := Some(at),
                                leaseExpiresAt := Some(lease), updatedAt := at)];
        issued := issued + {token};
        return Reconciled;
    }
  }
}
