/** Disposition of an execution result, and retry delays (src/jobs/endpoint-collection-job-policy.ts). */
module JobPolicy {
  import opened Prelude

  const MAX_ATTEMPTS := 3
  const INITIAL_RETRY_DELAY := 30_000
  const MAX_RETRY_DELAY := 300_000
  const CONTENTION_DEFERRAL := 5_000

  datatype Category = CategorySucceeded | CategoryFailed | CategoryBlocked

  datatype Retry = Transient | Permanent

  datatype TerminalStatus = StatusSucceeded | StatusFailed | StatusSkipped | StatusAbandoned

  datatype Disposition = Retrying | Deferring | Terminal(status: TerminalStatus)

  /** The part of an execution result that decides what becomes of the job. */
  datatype Outcome = Outcome(
    attemptNumber: int,
    collectionRunOccurred: bool,
    category: Category,
    outcome: string,
    reason: Option<string>,
    retryClassification: Option<Retry>)

  function Decide(result: Outcome): (d: Disposition)
    ensures d.Retrying? ==> result.category.CategoryFailed? && result.attemptNumber < MAX_ATTEMPTS
  {
    if result.category == CategorySucceeded then Terminal(StatusSucceeded)
    else if result.category == CategoryBlocked then
      if result.reason == Some("endpoint_locked") || result.reason == Some("collection_capacity_limited")
      then Deferring else Terminal(StatusSkipped)
    else if result.collectionRunOccurred && result.retryClassification == Some(Transient) &&
            result.attemptNumber < MAX_ATTEMPTS then Retrying
    else Terminal(FailureStatus(result))
  }

  /** For each disposition exactly when it is taken. */
  lemma DecideExactly(result: Outcome)
    ensures var d := Decide(result);
            var wait := result.reason in {Some("endpoint_locked"), Some("collection_capacity_limited")};
            var again := result.collectionRunOccurred && result.retryClassification == Some(Transient) && result.attemptNumber < 3;
            && (d == Terminal(StatusSucceeded) <==> result.category.CategorySucceeded?)
            && (d == Deferring <==> result.category.CategoryBlocked? && wait)
            && (d == Terminal(StatusSkipped) <==> result.category.CategoryBlocked? && !wait)
            && (d == Retrying <==> result.category.CategoryFailed? && again)
            && (d == Terminal(StatusAbandoned) <==>
                  result.category.CategoryFailed? && !again && result.outcome == "worker_interrupted")
            && (d == Terminal(StatusFailed) <==>
                  result.category.CategoryFailed? && !again && result.outcome != "worker_interrupted")
  {
  }

  function FailureStatus(result: Outcome): TerminalStatus {
    if result.outcome == "worker_interrupted" then StatusAbandoned else StatusFailed
  }

  /** The capped exponential delay before jitter. */
  function Nominal(failedAttemptNumber: int): (n: nat)
    requires failedAttemptNumber >= 1
    ensures n <= MAX_RETRY_DELAY
  {
    Min(INITIAL_RETRY_DELAY * PowerOfTwo(Min(failedAttemptNumber - 1, 30)), MAX_RETRY_DELAY)
  }

  /** `Math.ceil(nominal / 2)`. */
  function HalfUp(nominal: nat): nat { (nominal + 1) / 2 }

  /** Absent when the random value is not between zero and one. */
  function EqualJitter(nominal: nat, random: real): (delay: Option<int>)
    ensures delay.Some? <==> 0.0 <= random <= 1.0
    ensures delay.Some? ==> HalfUp(nominal) <= delay.value <= nominal
  {
    if random < 0.0 || random > 1.0 then None
    else if random == 1.0 then Some(nominal)
    else
      FloorBelow(random, nominal - HalfUp(nominal) + 1);
      Some(HalfUp(nominal) + (random * (nominal - HalfUp(nominal) + 1) as real).Floor)
  }

  /** The whole delays from half the nominal on share the random values equally; the largest value gives the nominal. */
  lemma JitterIsEqual(nominal: nat, random: real, k: nat)
    requires 0.0 <= random <= 1.0 && (nominal + 1) / 2 + k <= nominal
    ensures var share := 1.0 / (nominal - (nominal + 1) / 2 + 1) as real;
            EqualJitter(nominal, random) == Some((nominal + 1) / 2 + k) <==>
              if random == 1.0 then (nominal + 1) / 2 + k == nominal
              else k as real * share <= random < (k + 1) as real * share
  {
    var width := nominal - (nominal + 1) / 2 + 1;
    if random < 1.0 {
      FloorIs(random, width, k);
    }
  }

  lemma FloorIs(random: real, width: nat, k: nat)
    requires width >= 1
    ensures (random * width as real).Floor == k <==> k as real * (1.0 / width as real) <= random < (k + 1) as real * (1.0 / width as real)
  {
    var w, share := width as real, 1.0 / width as real;
    assert share * w == 1.0;
    Scales(k as real, share, random, w);
    Scales((k + 1) as real, share, random, w);
  }

  lemma Scales(k: real, share: real, random: real, w: real)
    requires w > 0.0 && share * w == 1.0
    ensures k * share <= random <==> k <= random * w
  {
    assert k * share * w == k;
    if k * share <= random {
      assert k * share * w <= random * w;
    } else {
      assert random * w < k * share * w;
    }
  }

  lemma FloorBelow(random: real, width: int)
    requires 0.0 <= random < 1.0 && width >= 1
    ensures 0 <= (random * width as real).Floor < width
  {
    var x := random * width as real;
    assert 0.0 <= x < width as real;
  }

  function RetryDelay(failedAttemptNumber: int, random: real): Option<int> {
    if failedAttemptNumber < 1 then None else EqualJitter(Nominal(failedAttemptNumber), random)
  }

  /** The nominal delay doubles from the initial one until the cap and never falls. */
  lemma NominalGrows(n: int)
    requires n >= 1
    ensures Nominal(1) == 30_000
    ensures Nominal(n + 1) == if 2 * Nominal(n) < 300_000 then 2 * Nominal(n) else 300_000
  {
    assert PowerOfTwo(0) == 1;
    if n <= 30 {
      assert PowerOfTwo(n) == 2 * PowerOfTwo(n - 1);
    } else {
      PowerOfTwoAtLeast(30);
    }
  }

  lemma {:induction false} PowerOfTwoAtLeast(k: nat)
    requires k >= 4
    ensures PowerOfTwo(k) >= 16
  {
    if k == 4 {
      assert PowerOfTwo(1) == 2 && PowerOfTwo(2) == 4 && PowerOfTwo(3) == 8;
    } else {
      PowerOfTwoAtLeast(k - 1);
    }
  }
}
