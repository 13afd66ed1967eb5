/**
  The counters of one collection attempt (src/collection/collect-endpoint.ts). What the
  dependencies do with each item is given with the item, exceptions included.
 */
module CollectionAccounting {
  import opened Prelude

  datatype Relevance = Included | Excluded | RelevanceThrows

  datatype ExclusionResult = ExclusionStored | ExclusionFailed | ExclusionThrows

  datatype StoredOutcome = Created | Updated | Unchanged

  datatype InclusionResult =
    | InclusionStored(outcome: StoredOutcome, reviews: nat, grouped: nat)
    | InclusionFailed
    | InclusionInvalid
    | InclusionThrows

  datatype LinkDecision = LinkAccepted | LinkRejected | PolicyThrows

  datatype Candidate = Candidate(link: LinkDecision, relevance: Relevance, clockThrows: bool,
                                 exclusion: ExclusionResult, inclusion: InclusionResult)

  datatype RawItem = Filtered | Normalized(candidate: Candidate) | NotNormalized | NormalizerThrows

  /** A response that stops before normalization, or the items of a parsed one. */
  datatype Response = Stopped(reason: string) | NotModified | Parsed(items: seq<RawItem>, relevanceLoads: bool)

  datatype Status = NotRun | Succeeded | Failed

  datatype Counters = Counters(created: nat, updated: nat, unchanging: nat, rejected: nat, excluded: nat, failed: nat,
                               reviews: nat, grouped: nat)

  datatype Attempt = Attempt(
    runSucceeded: bool, raw: nat, normalization: Status, filtered: nat, normalized: nat, normalizationFailures: nat,
    linkRejections: nat, processing: Status, counters: Counters, error: Option<string>)

  const NoCounters := Counters(0, 0, 0, 0, 0, 0, 0, 0)

  // ---------------------------------------------------------------------------
  // What the counters should be

  /** What becomes of a candidate, and the error it stops the attempt with. */
  datatype Verdict = StoredAs(outcome: StoredOutcome, reviews: nat, grouped: nat) | IsExcluded | IsFailed | Breaks(error: string)

  function VerdictOf(c: Candidate): Verdict {
    if c.relevance.RelevanceThrows? then Breaks("relevance_execution_failed")
    else if c.clockThrows then Breaks("observation_clock_execution_failed")
    else if c.relevance.Excluded? then
      match c.exclusion
      case ExclusionStored => IsExcluded
      case ExclusionFailed => IsFailed
      case ExclusionThrows => Breaks("relevance_exclusion_persistence_execution_failed")
    else
      match c.inclusion
      case InclusionStored(outcome, reviews, grouped) => StoredAs(outcome, reviews, grouped)
      case InclusionFailed => IsFailed
      case InclusionInvalid => Breaks("included_article_processing_result_invalid")
      case InclusionThrows => Breaks("article_persistence_execution_failed")
  }

  /** The first candidate that stops the attempt, or how many there are. */
  function FirstBreak(candidates: seq<Candidate>): (n: nat)
    ensures n <= |candidates|
  {
    if candidates == [] || VerdictOf(candidates[0]).Breaks? then 0 else 1 + FirstBreak(candidates[1..])
  }

  function CountOf(candidates: seq<Candidate>, v: Verdict -> bool): nat {
    if candidates == [] then 0
    else CountOf(candidates[..|candidates| - 1], v) + if v(VerdictOf(candidates[|candidates| - 1])) then 1 else 0
  }

  function Reviews(candidates: seq<Candidate>): nat {
    if candidates == [] then 0 else
    var v := VerdictOf(candidates[|candidates| - 1]);
    Reviews(candidates[..|candidates| - 1]) + if v.StoredAs? then v.reviews else 0
  }

  function Grouped(candidates: seq<Candidate>): nat {
    if candidates == [] then 0 else
    var v := VerdictOf(candidates[|candidates| - 1]);
    Grouped(candidates[..|candidates| - 1]) + if v.StoredAs? then v.grouped else 0
  }

  predicate IsCreated(v: Verdict) { v.StoredAs? && v.outcome.Created? }

  predicate IsUpdated(v: Verdict) { v.StoredAs? && v.outcome.Updated? }

  predicate IsUnchanged(v: Verdict) { v.StoredAs? && v.outcome.Unchanged? }

  predicate WasExcluded(v: Verdict) { v.IsExcluded? }

  predicate WasFailed(v: Verdict) { v.IsFailed? }

  /** The counters over processed candidates, before anything is added for those never reached. */
  function Tally(processed: seq<Candidate>, linkRejections: nat): Counters {
    Counters(CountOf(processed, IsCreated), CountOf(processed, IsUpdated), CountOf(processed, IsUnchanged), linkRejections,
             CountOf(processed, WasExcluded), CountOf(processed, WasFailed),
             Reviews(processed), Grouped(processed))
  }

  function WithUnaccounted(c: Counters, count: nat): Counters { c.(failed := c.failed + count) }

  function Sum(c: Counters): nat { c.created + c.updated + c.unchanging + c.rejected + c.excluded + c.failed }

  /** The database's two arithmetic constraints on a terminal run. */
  predicate Balanced(a: Attempt) {
    && (a.normalization.Succeeded? ==> a.raw == a.filtered + a.normalized + a.normalizationFailures)
    && (!a.processing.NotRun? ==> Sum(a.counters) == a.normalized && a.counters.rejected == a.linkRejections)
    && (a.processing.NotRun? ==> a.counters == NoCounters)
    && (a.normalization.NotRun? ==> a.filtered == a.normalized == a.normalizationFailures == a.linkRejections == 0)
    && (a.runSucceeded <==> a.error.None?) && (a.processing.Failed? || a.normalization.Failed? ==> !a.runSucceeded)
  }

  // ---------------------------------------------------------------------------
  // Tallies add up

  /** One more candidate with this verdict. */
  function Counted(t: Counters, v: Verdict): Counters {
    match v
    case StoredAs(Created, reviews, grouped) =>
      t.(created := t.created + 1, reviews := t.reviews + reviews, grouped := t.grouped + grouped)
    case StoredAs(Updated, reviews, grouped) =>
      t.(updated := t.updated + 1, reviews := t.reviews + reviews, grouped := t.grouped + grouped)
    case StoredAs(Unchanged, reviews, grouped) =>
      t.(unchanging := t.unchanging + 1, reviews := t.reviews + reviews, grouped := t.grouped + grouped)
    case IsExcluded => t.(excluded := t.excluded + 1)
    case IsFailed => t.(failed := t.failed + 1)
    case Breaks(_) => t
  }

  lemma TallySnoc(processed: seq<Candidate>, c: Candidate, linkRejections: nat)
    ensures Tally(processed + [c], linkRejections) == Counted(Tally(processed, linkRejections), VerdictOf(c))
  {
    assert (processed + [c])[..|processed|] == processed;
  }

  lemma {:induction false} TallySum(processed: seq<Candidate>, linkRejections: nat)
    requires forall i | 0 <= i < |processed| :: !VerdictOf(processed[i]).Breaks?
    ensures Sum(Tally(processed, linkRejections)) == |processed| + linkRejections
    decreases |processed|
  {
    if processed != [] {
      var before, c := processed[..|processed| - 1], processed[|processed| - 1];
      TallySum(before, linkRejections);
      TallySnoc(before, c, linkRejections);
      assert processed == before + [c];
    }
  }

  lemma {:induction false} NoBreakBefore(candidates: seq<Candidate>, i: nat)
    requires i < FirstBreak(candidates)
    ensures !VerdictOf(candidates[i]).Breaks?
  {
    if i > 0 {
      NoBreakBefore(candidates[1..], i - 1);
    }
  }

  lemma {:induction false} BreakAt(candidates: seq<Candidate>, i: nat)
    requires i <= |candidates| && forall j | 0 <= j < i :: !VerdictOf(candidates[j]).Breaks?
    requires i < |candidates| ==> VerdictOf(candidates[i]).Breaks?
    ensures FirstBreak(candidates) == i
    decreases i
  {
    if i > 0 {
      assert forall j | 0 <= j < i - 1 :: candidates[1..][j] == candidates[j + 1];
      BreakAt(candidates[1..], i - 1);
    }
  }

  /** For each verdict exactly when it is reached. */
  lemma VerdictExactly(c: Candidate)
    ensures var v, runs := VerdictOf(c), !c.relevance.RelevanceThrows? && !c.clockThrows;
            && (forall outcome, reviews, grouped ::
                  v == StoredAs(outcome, reviews, grouped) <==>
                  runs && c.relevance == Included && c.inclusion == InclusionStored(outcome, reviews, grouped))
            && (v == IsExcluded <==> runs && c.relevance == Excluded && c.exclusion == ExclusionStored)
            && (v == IsFailed <==> runs && ((c.relevance == Excluded && c.exclusion == ExclusionFailed) ||
                                            (c.relevance == Included && c.inclusion == InclusionFailed)))
            && (v.Breaks? <==> !runs || (c.relevance == Excluded && c.exclusion == ExclusionThrows) ||
                               (c.relevance == Included && c.inclusion in {InclusionInvalid, InclusionThrows}))
  {
  }

  /** A counter is the number of candidates with its verdict. */
  lemma {:induction false} CountIsNumber(candidates: seq<Candidate>, v: Verdict -> bool)
    ensures CountOf(candidates, v) == |set i | 0 <= i < |candidates| && v(VerdictOf(candidates[i]))|
    decreases |candidates|
  {
    if candidates != [] {
      var n := |candidates| - 1;
      var before := candidates[..n];
      CountIsNumber(before, v);
      var fewer := set i | 0 <= i < |before| && v(VerdictOf(before[i]));
      var all := set i | 0 <= i < |candidates| && v(VerdictOf(candidates[i]));
      assert all == fewer + if v(VerdictOf(candidates[n])) then {n} else {};
    }
  }

  /** How many of the first `n` candidates have a verdict. */
  lemma CountOfFirst(candidates: seq<Candidate>, n: nat, v: Verdict -> bool, those: set<int>)
    requires n <= |candidates| && those == set i | 0 <= i < n && v(VerdictOf(candidates[i]))
    ensures CountOf(candidates[..n], v) == |those|
  {
    CountIsNumber(candidates[..n], v);
    assert those == set i | 0 <= i < |candidates[..n]| && v(VerdictOf(candidates[..n][i]));
  }

  /** The first candidate that breaks stops the attempt with its error, and it and all after it count as failed. */
  lemma StoppedAtFirstBreak(candidates: seq<Candidate>, linkRejections: nat, n: nat)
    requires n < |candidates| && VerdictOf(candidates[n]).Breaks? && forall j | 0 <= j < n :: !VerdictOf(candidates[j]).Breaks?
    ensures var (status, counters, error) := Processed(candidates, linkRejections, true);
            && status == Failed && error == Some(VerdictOf(candidates[n]).error)
            && counters == WithUnaccounted(Tally(candidates[..n], linkRejections), |candidates| - n)
  {
    BreakAt(candidates, n);
  }

  /** Each counter of a tally is the number of candidates stored, excluded or failed that way. */
  lemma TallyExactly(candidates: seq<Candidate>, n: nat, linkRejections: nat)
    requires n <= |candidates|
    ensures var t := Tally(candidates[..n], linkRejections);
            && t.rejected == linkRejections
            && t.created == |set i | 0 <= i < n && VerdictOf(candidates[i]).StoredAs? && VerdictOf(candidates[i]).outcome.Created?|
            && t.updated == |set i | 0 <= i < n && VerdictOf(candidates[i]).StoredAs? && VerdictOf(candidates[i]).outcome.Updated?|
            && t.unchanging == |set i | 0 <= i < n && VerdictOf(candidates[i]).StoredAs? && VerdictOf(candidates[i]).outcome.Unchanged?|
            && t.excluded == |set i | 0 <= i < n && VerdictOf(candidates[i]) == IsExcluded|
            && t.failed == |set i | 0 <= i < n && VerdictOf(candidates[i]) == IsFailed|
  {
    CountOfFirst(candidates, n, IsCreated,
                 set i | 0 <= i < n && VerdictOf(candidates[i]).StoredAs? && VerdictOf(candidates[i]).outcome.Created?);
    CountOfFirst(candidates, n, IsUpdated,
                 set i | 0 <= i < n && VerdictOf(candidates[i]).StoredAs? && VerdictOf(candidates[i]).outcome.Updated?);
    CountOfFirst(candidates, n, IsUnchanged,
                 set i | 0 <= i < n && VerdictOf(candidates[i]).StoredAs? && VerdictOf(candidates[i]).outcome.Unchanged?);
    CountOfFirst(candidates, n, WasExcluded, set i | 0 <= i < n && VerdictOf(candidates[i]) == IsExcluded);
    CountOfFirst(candidates, n, WasFailed, set i | 0 <= i < n && VerdictOf(candidates[i]) == IsFailed);
  }

  /** What processing should report, as one value. */
  function Processed(candidates: seq<Candidate>, linkRejections: nat, relevanceLoads: bool): (Status, Counters, Option<string>) {
    if candidates == [] then (Succeeded, Tally([], linkRejections), None)
    else if !relevanceLoads then
      (Failed, WithUnaccounted(Tally([], linkRejections), |candidates|), Some("relevance_configuration_load_execution_failed"))
    else
      var n := FirstBreak(candidates);
      if n == |candidates| then (Succeeded, Tally(candidates, linkRejections), None)
      else (Failed, WithUnaccounted(Tally(candidates[..n], linkRejections), |candidates| - n), Some(ErrorOf(candidates[n])))
  }

  function ErrorOf(c: Candidate): string {
    var v := VerdictOf(c);
    if v.Breaks? then v.error else ""
  }

  /** However processing ends, every candidate and every link rejection is counted exactly once. */
  lemma ProcessedBalances(candidates: seq<Candidate>, linkRejections: nat, relevanceLoads: bool)
    ensures Sum(Processed(candidates, linkRejections, relevanceLoads).1) == |candidates| + linkRejections
  {
    var n := FirstBreak(candidates);
    var processed := if candidates == [] || !relevanceLoads then [] else candidates[..n];
    forall i | 0 <= i < |processed|
      ensures !VerdictOf(processed[i]).Breaks?
    {
      NoBreakBefore(candidates, i);
    }
    TallySum(processed, linkRejections);
    if n == |candidates| {
      assert candidates[..n] == candidates;
    }
  }

  // ---------------------------------------------------------------------------
  // The loops

  method ProcessCandidates(candidates: seq<Candidate>, linkRejections: nat, relevanceLoads: bool)
    returns (status: Status, counters: Counters, error: Option<string>)
    ensures (status, counters, error) == Processed(candidates, linkRejections, relevanceLoads)
    ensures Sum(counters) == |candidates| + linkRejections
  {
    ProcessedBalances(candidates, linkRejections, relevanceLoads);
    counters := NoCounters.(rejected := linkRejections);
    if |candidates| == 0 { return Succeeded, counters, None; }
    if !relevanceLoads {
      return Failed, counters.(failed := counters.failed + |candidates|), Some("relevance_configuration_load_execution_failed");
    }
    TallyEmpty(linkRejections);
    status, counters, error := ProcessEach(candidates, counters, linkRejections);
  }

  lemma TallyEmpty(linkRejections: nat)
    ensures Tally([], linkRejections) == NoCounters.(rejected := linkRejections)
  {
  }

  method ProcessEach(candidates: seq<Candidate>, start: Counters, linkRejections: nat)
    returns (status: Status, counters: Counters, error: Option<string>)
    requires candidates != [] && start == Tally([], linkRejections)
    ensures (status, counters, error) == Processed(candidates, linkRejections, true)
  {
    counters := start;
    var index := 0;
    assert candidates[..0] == [];
    while index < |candidates|
      invariant 0 <= index <= |candidates| && counters == Tally(candidates[..index], linkRejections)
      invariant forall j | 0 <= j < index :: !VerdictOf(candidates[j]).Breaks?
    {
      assert candidates[..index + 1] == candidates[..index] + [candidates[index]];
      TallySnoc(candidates[..index], candidates[index], linkRejections);
      counters, error := ProcessCandidate(candidates[index], counters);
      if error.Some? {
        BreakAt(candidates, index);
        return Failed, counters.(failed := counters.failed + |candidates| - index), error;
      }
      index := index + 1;
    }
    BreakAt(candidates, index);
    assert candidates[..index] == candidates;
    return Succeeded, counters, None;
  }

  /** The steps of one candidate, in order; an error leaves the counters alone. */
  method ProcessCandidate(c: Candidate, before: Counters) returns (counters: Counters, error: Option<string>)
    ensures counters == Counted(before, VerdictOf(c))
    ensures error == if VerdictOf(c).Breaks? then Some(VerdictOf(c).error) else None
  {
    counters := before;
    if c.relevance.RelevanceThrows? { return counters, Some("relevance_execution_failed"); }
    if c.clockThrows { return counters, Some("observation_clock_execution_failed"); }
    if c.relevance.Excluded? {
      match c.exclusion
      case ExclusionThrows => return counters, Some("relevance_exclusion_persistence_execution_failed");
      case ExclusionStored => return counters.(excluded := counters.excluded + 1), None;
      case ExclusionFailed => return counters.(failed := counters.failed + 1), None;
    }
    match c.inclusion
    case InclusionThrows => return counters, Some("article_persistence_execution_failed");
    case InclusionInvalid => return counters, Some("included_article_processing_result_invalid");
    case InclusionFailed => return counters.(failed := counters.failed + 1), None;
    case InclusionStored(outcome, reviews, grouped) =>
      counters := counters.(reviews := counters.reviews + reviews, grouped := counters.grouped + grouped);
      match outcome {
        case Created => counters := counters.(created := counters.created + 1);
        case Updated => counters := counters.(updated := counters.updated + 1);
        case Unchanged => counters := counters.(unchanging := counters.unchanging + 1);
      }
      error := None;
  }

  predicate NoThrow(items: seq<RawItem>) { forall i | 0 <= i < |items| :: !items[i].NormalizerThrows? }

  function CandidatesOf(items: seq<RawItem>): seq<Candidate> {
    if items == [] then [] else
    var last := items[|items| - 1];
    CandidatesOf(items[..|items| - 1]) + if last.Normalized? then [last.candidate] else []
  }

  method NormalizeItems(items: seq<RawItem>)
    returns (ok: bool, filtered: nat, candidates: seq<Candidate>, failures: nat)
    ensures ok <==> NoThrow(items)
    ensures ok ==> |items| == filtered + |candidates| + failures && candidates == CandidatesOf(items)
    ensures filtered <= |items|
  {
    filtered, candidates, failures := 0, [], 0;
    for i := 0 to |items|
      invariant i == filtered + |candidates| + failures && candidates == CandidatesOf(items[..i])
      invariant NoThrow(items[..i])
    {
      assert items[..i + 1][..i] == items[..i];
      match items[i]
      case Filtered => filtered := filtered + 1;
      case NormalizerThrows => return false, filtered, candidates, failures;
      case Normalized(c) => candidates := candidates + [c];
      case NotNormalized => failures := failures + 1;
    }
    assert items[..|items|] == items;
    ok := true;
  }

  predicate PolicyRuns(candidates: seq<Candidate>) { forall i | 0 <= i < |candidates| :: !candidates[i].link.PolicyThrows? }

  function AcceptedOf(candidates: seq<Candidate>): seq<Candidate> {
    if candidates == [] then [] else
    var last := candidates[|candidates| - 1];
    AcceptedOf(candidates[..|candidates| - 1]) + if last.link.LinkAccepted? then [last] else []
  }

  method ApplyLinkPolicy(candidates: seq<Candidate>) returns (ok: bool, accepted: seq<Candidate>, rejections: nat)
    ensures ok <==> PolicyRuns(candidates)
    ensures ok ==> |candidates| == |accepted| + rejections && accepted == AcceptedOf(candidates)
    ensures rejections <= |candidates|
  {
    accepted, rejections := [], 0;
    for i := 0 to |candidates|
      invariant i == |accepted| + rejections && accepted == AcceptedOf(candidates[..i])
      invariant PolicyRuns(candidates[..i])
    {
      assert candidates[..i + 1][..i] == candidates[..i];
      match candidates[i].link
      case PolicyThrows => return false, accepted, rejections;
      case LinkAccepted => accepted := accepted + [candidates[i]];
      case LinkRejected => rejections := rejections + 1;
    }
    assert candidates[..|candidates|] == candidates;
    ok := true;
  }

  /** Whatever the response and whatever fails on the way, the terminal attempt balances. */
  method ExecuteAttempt(response: Response) returns (a: Attempt)
    ensures Balanced(a)
    ensures response.Parsed? ==> a.raw == |response.items|
    ensures response.Parsed? && NoThrow(response.items) ==>
              a.normalization == Succeeded && a.normalized == |CandidatesOf(response.items)|
    ensures response.Parsed? && NoThrow(response.items) ==>
              var candidates := CandidatesOf(response.items);
              if PolicyRuns(candidates)
              then (a.processing, a.counters, a.error) == Processed(AcceptedOf(candidates), a.linkRejections, response.relevanceLoads)
              else a.processing == NotRun
    ensures !response.Parsed? ==> a.normalization == NotRun && a.processing == NotRun
  {
    match response
    case Stopped(reason) => return Attempt(false, 0, NotRun, 0, 0, 0, 0, NotRun, NoCounters, Some(reason));
    case NotModified => return Attempt(true, 0, NotRun, 0, 0, 0, 0, NotRun, NoCounters, None);
    case Parsed(items, relevanceLoads) =>
      var normalizedAll, filtered, candidates, failures := NormalizeItems(items);
      if !normalizedAll {
        return Attempt(false, |items|, Failed, filtered, 0, 0, 0, NotRun, NoCounters, Some("normalization_execution_failed"));
      }
      var policyRan, accepted, rejections := ApplyLinkPolicy(candidates);
      if !policyRan {
        return Attempt(false, |items|, Succeeded, filtered, |candidates|, failures, rejections, NotRun, NoCounters,
                       Some("article_link_policy_execution_failed"));
      }
      var status, counters, error := ProcessCandidates(accepted, rejections, relevanceLoads);
      return Attempt(error.None?, |items|, Succeeded, filtered, |candidates|, failures, rejections, status, counters, error);
  }
}
