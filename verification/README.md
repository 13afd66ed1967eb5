# Verification model of the news collection and distribution service

The service collects Articles from approved Sources, groups duplicates of one story, and hands a
Profile's Articles to PHP sites that keep the last good copy on disk. This project models the parts
of it that carry state or exact formats, and proves what they keep.

| part | modules | main results |
|---|---|---|
| duplicate groups | `Evidence`, `Primary`, `Topology`, `TopologyRuns`, `TopologyEffects`, `TopologyComponents`, `TopologyStore` | every sequence of detecting, grouping, merging, splitting, dismissing and choosing, while Articles and priorities change, keeps groups disjoint, of at least two members, headed by one of them and free of separated pairs, and manual Primaries in place; automatic grouping computes connected components in any order |
| collection jobs | `JobPolicy`, `Jobs`, `JobRuns`, `JobEffects`, `JobRecovery`, `JobStore` | stored shape, one outstanding job per endpoint and bounded retry chains over every run; a replaced or expired claim token stays powerless for ever; a recovered claim can always be finalized |
| PHP state store | `PhpDigest`, `PhpSnapshot`, `StoppedRuns`, `PhpStore` | over every sequence of operations, each whole or stopped between any two file operations, what loads is exactly what the operations committed by then left, for a reader across one activation too |
| Article identity | `ArticleIdentity`, `ArticleOutcomes`, `IdentityLocks` | under every interleaving of lock, read and write steps the unique indexes are never violated; reprocessing is `unchanged` |
| integration archive | `Crc32`, `CrcDivision`, `ArchiveLayout`, `StoredZip`, `ArchiveFields`, `ZipPackage` | a reader gets back exactly the entries; the checksum is the remainder of the polynomial division that RFC 1952 defines and notices every change within 32 bits |
| distribution | `FeedOrder`, `ProfileSnapshot`, `Base64Url`, `Cursor`, `Paging` | per-Source reads give the first of the full order; following cursors gives every Article once; keyset and index pages agree |
| endpoint runtime | `EndpointRuntime` | the failure count queried from history is the trailing block of failures, in any order of application |
| administration | `DomainRules`, `Administration`, `AdministrationEffects`, `AdministrationStore` | narrowing is refused exactly when it widens; commands are refused exactly when they would break a policy |
| collection accounting | `CollectionAccounting` | every attempt's counters balance, whatever fails |

Tables are maps in a class, exported functions are its methods, and a transaction is one step,
except for Article identity, where every lock, read and commit is a step of its own, and for the PHP
store, where every file operation is. Methods are tied to functions on the table values; the lemmas
are about those functions and about runs of them; for each of them lemmas say, by the rows alone,
when it answers what and which columns it changes. Random ids and tokens, times, and what a parser,
a network call or a person answers are parameters.

## Assumptions

- SHA-256 is injective, so a digest is modelled by the text it is taken of.
- Random ids, claim tokens and temporary names do not repeat, and the clock does not run backwards.
- Renaming a file is atomic, and a crash is the death of the process.
- Each duplicate command sees one catalog of Articles and Source priorities. Between commands Articles are added and
  rewritten and priorities change, but no Article is deleted. Only "an automatic Primary is the least member" assumes
  that no comparison between known Articles changes meanwhile.
- UUIDs are numbers below 2^128: their lower-case text sorts as they do. Canonical timestamps sort as text.
- The identity lock key is an arbitrary function: collisions are allowed. A transaction sees what was
  committed before each of its reads, and its writes appear at its commit.
- Host names have been normalised already and may have any length.
- Unicode normalisation and case folding, and PHP's URL and timestamp checks, are function parameters.

## Where the code does less than it seems to

- `splitDuplicateGroup` chooses a new Primary only for a removed manual one
  (src/deduplication/moderation.ts:119-124). Removing an automatic Primary from a group that keeps two
  members leaves a head that is no member, and the deferred foreign key of
  migrations/0012_duplicate_persistence_foundation.sql:94-98 then fails the whole transaction.
  `TopologyRuns.SplitFailsExactlyWhen` gives the exact condition; as nothing is committed, "the
  Primary is a member" holds for automatic Primaries too.
- `decodeDistributionCursor` accepts the six fields in any order, so a cursor has other accepted
  encodings than the one it is written with (`Cursor.SwappedFieldsAreAccepted`). An accepted text is
  the canonical one exactly when its fields are in order (`Cursor.AcceptedIsCanonicalExactlyWhenOrdered`).
- `activate` commits activations that `load` then refuses: another API version than `v1`, a Profile
  document of another key, an empty revision or key, negative counts. `PhpStore.CommitLoads` gives the exact
  condition, and `PhpStore.ActivationRecovers` says when the next activation puts it right; a digest outside its limits is dropped (`PhpDigest.DigestRoundTrip`), and the time of
  the last success keeps whole seconds only.
- A reader that overlaps two activations finds its generation deleted once the second one's pruning has
  reached it (`PhpStore.ReaderOverlappingTwo`), so the guarantee for readers covers one.
- A merged candidate that is grouped again has its automatic Primary chosen anew, so the Primary may change
  although the answer is `already_merged` and no count rises (src/deduplication/grouping.ts:136-144).
- Applying a terminal run again lifts a cooldown it had led to (`EndpointRuntime.ReapplyingLiftsCooldown`).

## Model

| member | source | states |
|---|---|---|
| Evidence.CanonicalPair | src/deduplication/evidence.ts:43-63 | the pair holds the two ids, smaller first, whichever was given first |
| Evidence.EvaluateDuplicateEvidence | src/deduplication/evidence.ts:65-107 | evidence is always filed under the canonical pair of its two Articles |
| Evidence.EncodeInjective | src/deduplication/evidence.ts:109-126 | the length-prefixed, joined text names exactly one list of values, whatever separators the values contain |
| Evidence.FingerprintInjective | src/deduplication/evidence.ts:109-126 | fingerprints are equal if and only if pair and sorted material are |
| Evidence.EvidenceSymmetric | src/deduplication/evidence.ts:65-107 | evidence does not depend on which Article is named first |
| Evidence.EvidenceShows | src/deduplication/evidence.ts:65-107 | evidence exists exactly for two Sources with an equal identity URL or an equal title; the URL alone makes it strong; confidence and signals follow |
| Evidence.UnchangedExactlyWhenSameEvidence | src/deduplication/repository.ts:231-249 | a stored fingerprint matches a new one exactly when the same pair matches on the same URL and title, and then confidence and signals agree as well |
| Primary.PrecedesIsTotal | src/deduplication/primary.ts:8-33 | of two different Articles exactly one precedes the other |
| Primary.PrecedesIsTransitive | src/deduplication/primary.ts:8-33 | the preference is transitive, missing publication times included |
| Primary.PrecedesIsPreferred | src/deduplication/primary.ts:8-33 | one precedes the other if and only if it has the higher Source priority, then more of author, summary, image and language, then https, then the earlier parsed publication time before none, then earlier sighting, creation and id |
| Primary.SelectPrimaryIsPreferred | src/deduplication/primary.ts:35-51 | the selected Article is one of the given, preferred in that order to every other, and none has a higher priority |
| Primary.SelectPrimaryIsLeast | src/deduplication/primary.ts:35-51 | the reduction picks the member that precedes all others, whatever the order of the rows |
| Primary.LeastUnique | src/deduplication/primary.ts:35-51 | there is only one such member |
| Topology.UniteKeepsInv | src/deduplication/grouping.ts:136-219 | uniting whole groups under one id joins exactly their members and keeps every invariant, if no separation lies inside |
| Topology.GroupedMeans | src/deduplication/grouping.ts:88-168 | a candidate reported as grouped had no separation and no two manual Primaries among the resulting members, and the result is their union headed by the manual or the least Primary |
| Topology.GroupKeepsInv | src/deduplication/grouping.ts:88-233 | automatic grouping keeps every invariant, on each of its refusals too, and the error for a merged candidate without a shared group never occurs |
| Topology.GroupHeads | src/deduplication/grouping.ts:408-492 | whatever headed the groups before, the group just united or confirmed holds the pair under the answered Primary, the least member now if automatic; every other group is untouched |
| Topology.GroupKeepsLeast | src/deduplication/grouping.ts:408-492 | if every automatic Primary was least before a grouping, every one is after it |
| Topology.MergeKeepsInv | src/deduplication/moderation.ts:294-401 | a manual merge keeps every invariant, forgetting the separations it overrules |
| Topology.MergeHeads | src/deduplication/moderation.ts:331-373 | the merged group is exactly the union of the selected groups, headed as chosen or, if automatic, by its least member now; every other group is untouched |
| Topology.MergeKeepsLeast | src/deduplication/moderation.ts:331-373 | if every automatic Primary was least before a merge, every one is after it |
| TopologyRuns.SplitTogether | src/deduplication/moderation.ts:105-124 | a split separates the removed members and leaves exactly the rest together, if two or more remain |
| TopologyRuns.SplitKeepsInv | src/deduplication/moderation.ts:85-151 | a split keeps every invariant: separations hold and no merged candidate is torn apart |
| TopologyRuns.SplitKeepsLeast | src/deduplication/moderation.ts:106-124 | an automatic Primary that is least stays least after a split |
| TopologyRuns.ChooseKeepsInv | src/deduplication/moderation.ts:153-204 | choosing a Primary keeps every invariant |
| TopologyRuns.DismissKeepsInv | src/deduplication/moderation.ts:34-68 | dismissing a review keeps every invariant |
| TopologyRuns.DetectKeepsInv | src/deduplication/repository.ts:187-272 | recording evidence keeps every invariant: merged pairs stay together |
| TopologyRuns.EveryReachableState | src/deduplication/grouping.ts:88-233 | after any sequence of the six commands, each on a later catalog of Articles and priorities: at least two members a group, the Primary one of them, separated pairs apart, merged pairs together |
| TopologyRuns.GroupingNeverFails | src/deduplication/grouping.ts:136-141 | in no reachable state, whatever the Articles have become, does a grouping find a merged candidate without a shared group |
| TopologyRuns.SteadyRunKeepsLeast | src/deduplication/primary.ts:8-51 | as long as no comparison between known Articles changes, every automatic Primary stays the least of its group over any commands |
| TopologyRuns.GroupingKeepsManualPrimary | src/deduplication/grouping.ts:235-255 | a manual Primary still heads its Article's group manually after any grouping, merges of groups included |
| TopologyRuns.AutomaticRunKeepsManualPrimary | src/deduplication/grouping.ts:465-492 | no sequence of detections and groupings displaces a manual Primary, however Articles and priorities change between them |
| TopologyRuns.PrimariesDiffer | src/deduplication/grouping.ts:528-546 | two groups never share a Primary, so comparing manual Primaries finds every pair of manual groups |
| TopologyRuns.SplitFailsExactlyWhen | src/deduplication/moderation.ts:95-150 | the transaction aborts if and only if an automatic Primary is removed and two or more members remain |
| TopologyRuns.DetectionRefreshesEvidence | src/deduplication/repository.ts:231-272 | after detection every candidate that is not superseded stores the evidence just computed |
| TopologyRuns.EveryStoredEvidence | src/deduplication/repository.ts:187-272 | in every reachable state a candidate stores evidence its two Articles showed at some time, and none is superseded |
| TopologyRuns.DetectionInReachableState | src/deduplication/repository.ts:231-272 | in every reachable state detection records what the pair shows now, leaves the candidate as it is exactly when that is what it stores, and revives a dismissed one exactly when it is not |
| TopologyEffects.GroupingAnswers | src/deduplication/grouping.ts:95-168 | for each answer of a grouping exactly when it is given: grouped if and only if the candidate is pending, the Sources differ, strong evidence shows now and is what is stored, no separation lies inside the two groups and they are not two manual ones |
| TopologyEffects.GroupingEffect | src/deduplication/grouping.ts:164-233 | a grouping joins exactly the two groups under the least id, keeps a manual head or takes the most preferred, merges the one candidate and touches nothing else |
| TopologyEffects.ConfirmingEffect | src/deduplication/grouping.ts:136-144 | confirming a merged candidate changes at most the Primary of its automatic group, to the most preferred member |
| TopologyEffects.MergeAnswers | src/deduplication/moderation.ts:294-373 | a merge conflicts exactly when two selected Articles are in different manual groups or the chosen one is outside, and fails exactly when an Article is unknown |
| TopologyEffects.MergeEffects | src/deduplication/moderation.ts:331-401 | a merge joins exactly the selected groups, forgets exactly the separations inside, merges exactly the candidates inside, and heads the group as chosen, by its manual Primary or by the most preferred |
| TopologyEffects.SplitAnswers | src/deduplication/moderation.ts:95-150 | for each answer of a split exactly when it is given |
| TopologyEffects.SplitEffects | src/deduplication/moderation.ts:106-140 | a split separates exactly the former pairs of which one was removed, dismisses exactly the merged candidates among them, drops a group left with one, and replaces a removed manual Primary by the most preferred |
| TopologyEffects.ChooseEffects | src/deduplication/moderation.ts:153-204 | for each answer exactly when it is given; a chosen member heads the group manually and nothing else changes |
| TopologyEffects.DismissEffects | src/deduplication/moderation.ts:34-68 | for each answer exactly when it is given; a pending candidate is dismissed and nothing else changes |
| TopologyEffects.DetectsEvidence | src/deduplication/repository.ts:187-272 | detection touches the candidate of the pair only and opens it as pending with what is shown if there was none |
| TopologyEffects.DetectsNothing | src/deduplication/repository.ts:74-124 | without evidence detection changes nothing |
| TopologyComponents.GroupAllIsConnectedness | src/collection/included-article-processing.ts:76-93 | with no separations and no manual Primaries, two Articles end in one group if and only if the old groups and the given pairs connect them |
| TopologyComponents.GroupAllPrimaries | src/deduplication/grouping.ts:408-456 | whatever the Primaries were before, that of each touched group is the least of its connected component, and every other group keeps its members and Primary |
| TopologyComponents.GroupAllCounts | src/collection/included-article-processing.ts:76-93 | the summed count is the drop in the number of components, ungrouped Articles counted as one each |
| TopologyComponents.OrderDoesNotMatter | src/collection/included-article-processing.ts:76-93 | any two lists of the same pairs give the same groups, Primaries and count |
| TopologyStore.DuplicateTopology.ReselectPrimary | src/deduplication/grouping.ts:408-456 | the least member becomes Primary and the origin stays as it was |
| TopologyStore.DuplicateTopology.RetainOrReselectPrimary | src/deduplication/grouping.ts:465-492 | a manual member Primary stays, otherwise the least member is chosen |
| TopologyStore.DuplicateTopology.RetainManualPrimaryAcrossMerge | src/deduplication/grouping.ts:235-255 | the losing group's manual Primary is carried over to a group without one |
| TopologyStore.DuplicateTopology.JoinGroups | src/deduplication/grouping.ts:169-210 | one group ends up holding both Articles and all members of their groups, and the change is reported if they were apart |
| TopologyStore.DuplicateTopology.ConfirmMerged | src/deduplication/grouping.ts:136-144 | for a merged candidate the two Articles share a group, the inconsistency error is dead, and only that group's automatic Primary may change |
| TopologyStore.DuplicateTopology.RefuseTopology | src/deduplication/grouping.ts:514-546 | refused for a separation or for two manual Primaries among the resulting members, in that order |
| TopologyStore.DuplicateTopology.GroupStrongDuplicateCandidate | src/deduplication/grouping.ts:88-233 | the rows and the answer are those of the grouping step that the invariants are proved of |
| TopologyStore.DuplicateTopology.GroupStrongCandidates | src/collection/included-article-processing.ts:76-93 | the loop's rows and sum are those whose components and counts are characterised |
| TopologyStore.DuplicateTopology.PersistReviewEvidence | src/deduplication/repository.ts:187-272 | one candidate is inserted, refreshed or left; all others stay |
| TopologyStore.DuplicateTopology.MergeDuplicateArticles | src/deduplication/moderation.ts:294-401 | rows and answer of the merge step: union of the selected groups under the least id, conflicts refused |
| TopologyStore.DuplicateTopology.SplitDuplicateGroup | src/deduplication/moderation.ts:85-151 | rows and answer of the split step, rolled back when the commit fails |
| TopologyStore.DuplicateTopology.FormerlyTogetherPairs | src/deduplication/moderation.ts:423-436 | the nested loops give exactly the pairs of former members of which one was removed |
| TopologyStore.DuplicateTopology.ChooseDuplicatePrimary | src/deduplication/moderation.ts:153-204 | rows and answer of the choosing step, a non-member refused |
| TopologyStore.DuplicateTopology.DismissDuplicateReview | src/deduplication/moderation.ts:34-68 | rows and answer of the dismissing step |
| TopologyStore.ManualPrimariesCount | src/deduplication/moderation.ts:331-373 | counting manual Primaries counts manual groups, so the merge check is the grouping check |
| JobPolicy.Decide | src/jobs/endpoint-collection-job-policy.ts:28-55 | only a failed collection with attempts left is retried |
| JobPolicy.DecideExactly | src/jobs/endpoint-collection-job-policy.ts:28-55 | for each disposition exactly when it is taken, deferral against skipping and abandonment against failure included |
| JobPolicy.Nominal | src/jobs/endpoint-collection-job-policy.ts:57-69 | the nominal delay never exceeds the cap |
| JobPolicy.EqualJitter | src/jobs/endpoint-collection-job-policy.ts:99-119 | a delay exists exactly for a random value in [0, 1] and lies between half the nominal, rounded up, and the nominal |
| JobPolicy.JitterIsEqual | src/jobs/endpoint-collection-job-policy.ts:99-119 | the whole delays from half the nominal on share the random values equally |
| JobPolicy.NominalGrows | src/jobs/endpoint-collection-job-policy.ts:57-69 | the nominal delay starts at 30 seconds and doubles until the cap |
| JobRuns.EveryReachableState | src/jobs/endpoint-collection-job-repository.ts:581-630 | over every run: stored shape, one outstanding job per endpoint, unique tokens, runs owned by one job, chains with rising attempt numbers up to three and one successor each |
| JobRuns.RetryAlwaysEnqueued | src/jobs/finalize-endpoint-collection-job.ts:77-109 | a retry whose claim holds always gets the slot; endpoint and trigger are kept, the attempt number rises by one, the delay is in the jitter range |
| JobRuns.SlotNeverTaken | src/jobs/finalize-endpoint-collection-job.ts:99-103 | the error for a taken slot cannot be reached, for any finalisation in any valid state |
| JobRuns.DeadTokenIsPowerless | src/jobs/endpoint-collection-job-repository.ts:211-347 | an expired or replaced token changes nothing in renew, attach, terminalize, defer or finalisation |
| JobRuns.DeadForever | src/jobs/endpoint-collection-job-repository.ts:175-347 | a dead token stays dead over every run |
| JobRuns.SupersededIsDead | src/jobs/endpoint-collection-job-repository.ts:392-458 | any step that takes the token from its job or lets its lease end kills it |
| JobRuns.JobsEvolve | src/jobs/endpoint-collection-job-repository.ts:240-316 | over every run terminal jobs never change, an attached run is never replaced, a job with a run is never queued, endpoint, trigger and attempt never change |
| JobEffects.EnqueueEffect | src/jobs/endpoint-collection-job-repository.ts:118-173 | each answer exactly when it is given; the inserted row is queued as asked and no other changes |
| JobEffects.ClaimEffect | src/jobs/endpoint-collection-job-repository.ts:175-209 | the first waiting job and no other gets worker, token, claim time and lease, all else staying, and is held under that token until the lease ends |
| JobEffects.ClaimedOnce | src/jobs/endpoint-collection-job-repository.ts:175-209 | no run that does not defer or recover a claimed job claims it again |
| JobEffects.RenewEffect | src/jobs/endpoint-collection-job-repository.ts:211-238 | done exactly while held and for a later lease; then only that lease changes |
| JobEffects.AttachEffect | src/jobs/endpoint-collection-job-repository.ts:240-277 | done exactly while held and for an own run with none or this one attached; then only the run changes |
| JobEffects.TerminalizeEffect | src/jobs/endpoint-collection-job-repository.ts:279-316 | done exactly while held; then the job is closed with this status, outcome and reason |
| JobEffects.DeferEffect | src/jobs/endpoint-collection-job-repository.ts:318-347 | done exactly while held without a run; then the job is queued again for the given time |
| JobEffects.ReconcileEffect | src/jobs/execute-endpoint-collection-job.ts:125-171 | for each answer exactly when it is given; the job is queued again, or held by the recovering worker |
| JobEffects.ClosingEffect | src/jobs/finalize-endpoint-collection-job.ts:111-142 | for each answer of a closing finalisation exactly when it is given, and the closed row |
| JobEffects.DeferringEffect | src/jobs/finalize-endpoint-collection-job.ts:144-165 | for each answer of a deferral exactly when it is given; the job waits between 2.5 and 5 seconds |
| JobEffects.RetryingAnswers | src/jobs/finalize-endpoint-collection-job.ts:77-109 | for each answer of a retry exactly when it is given |
| JobStore.JobQueue.Enqueue | src/jobs/endpoint-collection-job-repository.ts:118-173 | inserted, already outstanding or unknown endpoint, and exactly that row |
| JobStore.JobQueue.ClaimNextJob | src/jobs/endpoint-collection-job-repository.ts:175-209 | claims the first claimable job in claim order; without one nothing is claimable and nothing changes |
| JobStore.JobQueue.FirstInClaimOrder | src/jobs/endpoint-collection-job-repository.ts:175-209 | the chosen job comes before or equals every waiting one |
| JobStore.JobQueue.RenewJobLease | src/jobs/endpoint-collection-job-repository.ts:211-238 | extends the lease under the guard, keeping validity |
| JobStore.JobQueue.AttachCollectionRun | src/jobs/endpoint-collection-job-repository.ts:240-277 | attaches an own, unattached run under the guard, keeping validity |
| JobStore.JobQueue.TerminalizeClaimed | src/jobs/endpoint-collection-job-repository.ts:279-316 | closes the job under the guard, else leaves the table alone |
| JobStore.JobQueue.DeferClaimed | src/jobs/endpoint-collection-job-repository.ts:318-347 | requeues a run-less job under the guard, else leaves the table alone |
| JobStore.JobQueue.CheckCurrentJob | src/jobs/finalize-endpoint-collection-job.ts:167-192 | refuses a lost claim and an inconsistent run, in that order |
| JobStore.JobQueue.FinalizeExecution | src/jobs/finalize-endpoint-collection-job.ts:61-142 | one transaction: retry, close or defer as decided; the taken-slot answer never occurs |
| JobStore.JobQueue.ReconcileExpiredJob | src/jobs/execute-endpoint-collection-job.ts:125-171 | requeues a job without a run, claims one with its own run anew, or reports why not, keeping validity |
| JobRecovery.RecoveredIsFinalized | src/jobs/execute-endpoint-collection-job.ts:163-215 | the claim a recovery takes is always good for a finalization until its lease ends: the result made of the ended run is accepted, never deferred, and the job is retried or closed as the run ended |
| JobRecovery.InterruptedIsRetriedOrAbandoned | src/collection/runs/repository.ts:394-424 | a job whose worker died is retried while attempts are left and abandoned after the last |
| PhpDigest.DigestRoundTrip | integrations/php/src/Digest.php:62-129 | a digest comes back from its array form if and only if it is within all limits, otherwise nothing does |
| PhpDigest.DigestLimits | integrations/php/src/Digest.php:62-106 | the limits of every part of a digest in numbers |
| PhpDigest.AcceptedDigest | integrations/php/src/Digest.php:62-106 | whatever is accepted is within all limits and is accepted again unchanged |
| PhpDigest.MapHighlights | integrations/php/src/Digest.php:62-106 | the loop with its running prose total is the recursive reading that the round trip is proved of |
| PhpDigest.MapDigest | integrations/php/src/Digest.php:62-106 | the whole mapping is the reading that the round trip is proved of |
| PhpSnapshot.ArticlesRoundTrip | integrations/php/src/FilesystemStateStore.php:227-230 | Articles come back from their array form, absent fields included |
| PhpSnapshot.FactsColumns | integrations/php/src/FilesystemStateStore.php:165-176 | facts replace what the manifest says of the last attempt and keep what it says of the snapshot |
| PhpSnapshot.ActivatedColumns | integrations/php/src/FilesystemStateStore.php:96-104 | an activation replaces what the manifest says of the snapshot and moves the old generation back |
| PhpSnapshot.GenerationRoundTrip | integrations/php/src/FilesystemStateStore.php:153-163 | a generation reads back as its activation's snapshot, and reads at all exactly when the activation is consistent |
| PhpStore.SoundGrows | integrations/php/src/FilesystemStateStore.php:85-106 | a file operation that keeps manifest and both named generations, or commits over the active one, keeps the whole history sound |
| StoppedRuns.EveryMoment | integrations/php/src/FilesystemStateStore.php:85-128 | for operations that log their steps and commit at one of them, run one after another, each whole or stopped anywhere: every moment shows exactly what the operations committed by then leave behind |
| PhpStore.CrashAnywhere | integrations/php/src/FilesystemStateStore.php:58-186 | after any sequence of activate, recordUnchanged, markDisabled and recordFailure, each whole or stopped between any two file operations and gone on from by a new process, every moment loads exactly the state of the operations committed by then, digest included |
| PhpStore.HistoryGrows | integrations/php/src/FilesystemStateStore.php:85-128 | what a store performs, cut off anywhere, extends such a sequence |
| PhpStore.StoppedIsSound | integrations/php/src/FilesystemStateStore.php:58-65 | after such a sequence a new process can go on, unless what was committed last could not be stored |
| PhpStore.ReaderAnywhere | integrations/php/src/FilesystemStateStore.php:209-219 | a reader that overlaps at most one committed activation of such a sequence gets exactly the state committed when it read the manifest |
| PhpStore.ReaderSeesWholeSnapshot | integrations/php/src/FilesystemStateStore.php:209-219 | a manifest read at one moment and its generation at a later one, at most one activation on, give what was committed at the first |
| PhpStore.ReaderOverlappingTwo | integrations/php/src/FilesystemStateStore.php:209-219 | a reader that overlaps two activations, the second stopped anywhere after its commit, gets what it came for exactly when pruning has not reached its generation, and nothing otherwise |
| PhpStore.CommitLoads | integrations/php/src/FilesystemStateStore.php:85-106 | after a committed activation exactly its snapshot loads, digest included, or nothing does; which one is a condition on the activation |
| PhpStore.RecordLoads | integrations/php/src/FilesystemStateStore.php:117-128 | recording facts changes what loads only in the flag and the time |
| PhpStore.UnchangedLoads | integrations/php/src/FilesystemStateStore.php:108-115 | recording an unchanged attempt changes what loads only in etag, flag and time |
| PhpStore.PrunedPointers | integrations/php/src/FilesystemStateStore.php:85-106 | however far pruning got, the old active generation is the previous one and the new snapshot loads |
| PhpStore.CompletedKeeps | integrations/php/src/FilesystemStateStore.php:209-219 | a complete activation keeps its own generation and the one it replaced, and no other |
| PhpStore.ActivationRecovers | integrations/php/src/FilesystemStateStore.php:85-106 | an activation that cannot be stored leaves a readable manifest exactly when only its generation is at fault, and over a readable manifest a storable activation loads again |
| PhpStore.FilesystemProfileStateStore.WriteExclusive | integrations/php/src/FilesystemStateStore.php:22-38 | two moments, incomplete and complete, on both of which everything loads as before |
| PhpStore.FilesystemProfileStateStore.CommitManifest | integrations/php/src/FilesystemStateStore.php:178-186 | every moment before the rename loads as before; the rename swaps the manifest in one step |
| PhpStore.FilesystemProfileStateStore.Activate | integrations/php/src/FilesystemStateStore.php:85-106 | before the manifest's rename every moment loads the old snapshot, from it on every moment the new one, or nothing if it cannot be stored, wherever pruning stops |
| PhpStore.FilesystemProfileStateStore.Perform | integrations/php/src/Synchronizer.php:249-323 | each of the four operations a synchronisation ends in has one commit point, before which everything loads as it did and from which on as after it |
| PhpStore.FilesystemProfileStateStore.PruneGenerations | integrations/php/src/FilesystemStateStore.php:209-219 | removes all generations but the active and the previous, loading unchanged at every moment, also when a deletion fails |
| PhpStore.FilesystemProfileStateStore.RecordUnchanged | integrations/php/src/FilesystemStateStore.php:108-115 | refused without an active generation; otherwise only etag, flag and time change |
| PhpStore.FilesystemProfileStateStore.MarkDisabled | integrations/php/src/FilesystemStateStore.php:117-122 | sets the flag and keeps the snapshot |
| PhpStore.FilesystemProfileStateStore.RecordFailure | integrations/php/src/FilesystemStateStore.php:124-128 | keeps flag and snapshot |
| PhpStore.FilesystemProfileStateStore.AfterCrash | integrations/php/src/FilesystemStateStore.php:53-65 | a new store over any prefix of a history is valid and loads what that prefix's last disk holds |
| ArticleIdentity.PersistedRow | src/articles/repository.ts:556-655 | the named Article carries the candidate's identity and details, its seen interval includes the time, and no other Article changes |
| ArticleIdentity.ResolvedRow | src/articles/repository.ts:451-511 | what resolution finds belongs to the Source and matches, and only an Article without an external id is promoted |
| ArticleOutcomes.PersistOutcomes | src/articles/repository.ts:302-332 | conflict, creation and each existing Article exactly when they are answered, `unchanged` exactly when nothing material differs, and the whole table afterwards |
| ArticleOutcomes.FallbackIsPromoted | src/articles/repository.ts:471-487 | when no Article bears the external id and exactly one, without an external id, has the URL, that one is updated, carries the id and no row is added |
| ArticleIdentity.ReprocessingIsUnchanged | src/articles/repository.ts:302-332 | persisting the same candidate again finds the same Article, reports `unchanged` and only widens its seen interval |
| ArticleIdentity.RefusedAgain | src/articles/repository.ts:451-511 | a conflict changes nothing and is reported again |
| IdentityLocks.EveryInterleaving | src/articles/identity-lock.ts:48-66 | in every interleaving, with colliding lock keys too, both uniqueness rules hold and every pending resolution stays right |
| IdentityLocks.ConstraintsNeverFire | migrations/0001_initial_schema.sql:322-328 | no write in a reachable state violates a unique index or misses its row |
| IdentityLocks.IdentityIsPermanent | src/articles/repository.ts:556-655 | no run removes an Article, moves it to another Source or changes an external id it has |
| IdentityLocks.AloneIsPersist | src/articles/repository.ts:302-332 | the interleaved steps of one transaction alone are the sequential operation |
| IdentityLocks.OthersStayRight | src/articles/identity-lock.ts:18-66 | a write never makes wrong what a transaction with other locks resolved |
| IdentityLocks.PersistKeepsUnique | migrations/0001_initial_schema.sql:322-328 | the sequential operation keeps both unique indexes |
| IdentityLocks.ArticleRepository.ResolveIdentity | src/articles/repository.ts:451-511 | the branches on what the two lookups find are the resolution that the lemmas are about |
| IdentityLocks.ArticleRepository.PersistResolvedArticle | src/articles/repository.ts:556-655 | inserts, promotes, rewrites or only touches the row, and names the outcome accordingly |
| IdentityLocks.ArticleRepository.PersistIncludedArticle | src/articles/repository.ts:302-332 | resolves and writes, keeping the unique indexes |
| Crc32.CalculateChecksum | src/integrations/php-integration-package.ts:453-462 | the nested loops compute the bit-serial checksum |
| Crc32.BitwiseIsTableDriven | src/integrations/php-integration-package.ts:453-462 | on every byte string the table-driven form of section 8 of RFC 1952 gives the same checksum |
| CrcDivision.ChecksumIsRemainder | src/integrations/php-integration-package.ts:453-462 | a 32-bit number is the checksum if and only if its complement is the remainder of the complemented, bit-reversed data divided by x^32 + x^26 + x^23 + ... + x + 1 |
| CrcDivision.RemainderUnique | src/integrations/php-integration-package.ts:453-462 | that division has only one remainder |
| Crc32.BurstChangesChecksum | src/integrations/php-integration-package.ts:453-462 | buffers that differ only within 32 consecutive bits have different checksums |
| Crc32.BytesChangeChecksum | src/integrations/php-integration-package.ts:453-462 | so do buffers that differ within four consecutive bytes |
| Crc32.OneByteChangesChecksum | src/integrations/php-integration-package.ts:453-462 | so do buffers of equal length that differ in one byte |
| Crc32.ChecksumFits | src/integrations/php-integration-package.ts:453-462 | the checksum fits its four bytes |
| ArchiveLayout.Layout | src/integrations/php-integration-package.ts:372-423 | each local record lies at the running offset its central record names, and each central record after those before it |
| StoredZip.RecordRoundTrip | src/integrations/php-integration-package.ts:385-422 | little-endian fields that fit their width read back as written |
| StoredZip.TwoBytes | src/integrations/php-integration-package.ts:385-438 | a 16-bit field is its two bytes, the low one first |
| StoredZip.FourBytes | src/integrations/php-integration-package.ts:385-438 | a 32-bit field is its four bytes, the lowest first |
| StoredZip.LocalTotal | src/integrations/php-integration-package.ts:385-396 | the local header fields make up 30 bytes |
| StoredZip.CentralTotal | src/integrations/php-integration-package.ts:399-417 | the central header fields make up 46 bytes |
| StoredZip.EndTotal | src/integrations/php-integration-package.ts:430-438 | the end record fields make up 22 bytes |
| StoredZip.MakeLocalHeader | src/integrations/php-integration-package.ts:385-396 | the buffer writes at fixed positions give exactly the header of section 4.3.7 of APPNOTE.TXT |
| StoredZip.MakeCentralHeader | src/integrations/php-integration-package.ts:399-417 | the same for the central header of section 4.3.12 |
| StoredZip.MakeEndRecord | src/integrations/php-integration-package.ts:430-438 | the same for the end record of section 4.3.16 |
| ArchiveFields.LocalHeaderBytes | src/integrations/php-integration-package.ts:385-396 | every field of the local header, its value and its position in the 30 bytes |
| ArchiveFields.CentralHeaderBytes | src/integrations/php-integration-package.ts:399-417 | every field of the central header, its value and its position in the 46 bytes |
| ArchiveFields.EndRecordBytes | src/integrations/php-integration-package.ts:430-438 | every field of the end record, its value and its position in the 22 bytes |
| StoredZip.ArchiveReads | src/integrations/php-integration-package.ts:367-440 | a reader going from the end record through the directory to the local records gets every entry with its checksum, in order |
| ZipPackage.OrdinaryNamesStayBelow | src/integrations/php-integration-package.ts:442-451 | the parts of a name are accepted exactly when following them from any folder appends them literally |
| ZipPackage.SafeExactly | src/integrations/php-integration-package.ts:442-451 | a name is safe if and only if it is normalised, has no backslash, and no stretch between slashes is empty, `.` or `..` |
| ZipPackage.CreateStoredZip | src/integrations/php-integration-package.ts:367-440 | an archive results if and only if all names and sizes are acceptable, and it is the specified one; each error has its cause |
| ZipPackage.AcceptedIsWithinFields | src/integrations/php-integration-package.ts:376-429 | the checks made are enough for every length and offset to fit its field |
| ZipPackage.ArchiveRoundTrip | src/integrations/php-integration-package.ts:367-440 | extracting gives exactly the input names and data in order, checksums matching |
| ZipPackage.DamageIsNoticed | src/integrations/php-integration-package.ts:367-462 | overwriting up to four bytes of an entry's data always makes extraction fail while the directory still reads |
| FeedOrder.BeforeTotal | src/distribution/profile-snapshot.ts:132-145 | the order of feed date, first seen and id is total and strict |
| FeedOrder.BeforeTransitive | src/distribution/profile-snapshot.ts:132-145 | the feed order is transitive |
| FeedOrder.BeforeExactly | src/distribution/profile-snapshot.ts:132-145 | the later feed date first, on the same one the later sighting, on the same again the smaller id |
| FeedOrder.TextBeforeExactly | src/distribution/profile-snapshot.ts:132-145 | texts compare by their first difference, an end before any character |
| FeedOrder.ListUnique | src/distribution/canonical-outward-articles.ts:133-139 | a set of Articles has one ordered list |
| FeedOrder.FirstOfPart | src/distribution/profile-snapshot.ts:89-96 | leaving out Articles beyond the first `k` does not change the first `k` |
| ProfileSnapshot.SnapshotIsFirstOfAll | src/distribution/profile-snapshot.ts:89-96 | per-Source limits, merging, sorting and cutting give the first `resultLimit` of the ordered list of all eligible Articles |
| ProfileSnapshot.OutwardExactly | src/distribution/canonical-outward-articles.ts:155-168 | an Article is outward for a Source exactly when it is visible, the Primary or ungrouped, of an approved active Source, in a wanted category, and says a wanted phrase and no unwanted one |
| ProfileSnapshot.FirstOfAllIsRead | src/distribution/canonical-outward-articles.ts:162-175 | whatever is among the first of all is among the first of its Source |
| Base64Url.DecodeEncode | src/distribution/cursor.ts:118-125 | unpadded base64url of section 5 of RFC 4648 decodes to the bytes encoded |
| Base64Url.EncodeExactly | src/distribution/cursor.ts:118-125 | four symbols are three bytes as one number, the last one or two bytes filled up with zero bits |
| Base64Url.EncodeInjective | src/distribution/cursor.ts:118-125 | different bytes have different encodings |
| Cursor.ObjectRoundTrip | src/distribution/cursor.ts:67-80 | on escape-free objects writing and parsing are inverse, both ways |
| Cursor.PayloadText | src/distribution/cursor.ts:36-53 | the JSON text of a cursor, field by field |
| Cursor.DecodeInvertsEncode | src/distribution/cursor.ts:36-116 | every valid cursor encodes within the length limit and decodes to itself |
| Cursor.DecodedIsValid | src/distribution/cursor.ts:55-116 | only valid cursors of the expected Profile are accepted |
| Cursor.EncodeInjective | src/distribution/cursor.ts:36-53 | different cursors have different encodings |
| Cursor.AcceptedIsCanonicalExactlyWhenOrdered | src/distribution/cursor.ts:55-116 | an accepted text is the encoding of its cursor if and only if its fields are in canonical order |
| Cursor.SwappedFieldsAreAccepted | src/distribution/cursor.ts:55-116 | every cursor has another accepted text, with two fields swapped |
| Paging.ContinuesAfter | src/distribution/profile-page.ts:136-201 | the cursor of an item continues right after it |
| Paging.OtherSnapshotIsNoticed | src/distribution/profile-page.ts:190-201 | a cursor of another revision is answered with a changed snapshot |
| Paging.PageRefusals | src/distribution/profile-page.ts:92-143 | a changed snapshot and invalid input exactly when they are answered; otherwise the page after the named position |
| Paging.PageHolds | src/distribution/profile-page.ts:143-173 | a page holds the next hundred items and has a cursor, to its last one, exactly when more are left |
| Paging.PagesForIs | src/distribution/profile-page.ts:136-173 | the number of pages is max(1, ceil(n / 100)) |
| Paging.FollowingGivesEverythingOnce | src/distribution/profile-page.ts:136-201 | following the encoded cursors of an unchanged snapshot gives the whole list, each Article once and in order, in that many pages |
| Paging.ContinuesIsBefore | src/distribution/canonical-outward-articles.ts:127-132 | the keyset condition selects exactly what comes after the position in feed order |
| Paging.KeysetPagesAreIndexPages | src/public-feed/repository.ts:347-403 | reading limit plus one by key gives the page, and the next cursor, that cutting the list by index gives |
| Paging.PagesAgree | src/public-feed/repository.ts:347-403 | a Profile page and a keyset page after the same item agree item for item and in whether they go on |
| EndpointRuntime.CounterIsTrailingBlock | src/sources/repository.ts:768-790 | the step-by-step counter is the length of the block of failed runs at the end |
| EndpointRuntime.CountIsCounter | src/sources/repository.ts:768-790 | the count queried for a run is the counter over the runs up to it, whatever finished later |
| EndpointRuntime.NewerRunIsReflected | src/sources/repository.ts:738-811 | applying a run no older than the last attempt makes the endpoint reflect it and lifts a cooldown |
| EndpointRuntime.RunEffect | src/sources/repository.ts:738-811 | what applying a run does to each column, success against failure and not-modified included, and exactly when it does nothing |
| EndpointRuntime.CooldownEffect | src/sources/repository.ts:813-850 | a cooldown follows only a failed latest attempt at the threshold and touches two columns |
| EndpointRuntime.OlderRunChangesNothing | src/sources/repository.ts:738-811 | an older run changes nothing |
| EndpointRuntime.ReapplyingIsIdempotent | src/sources/repository.ts:738-811 | applying a run twice is applying it once |
| EndpointRuntime.ReapplyingLiftsCooldown | src/sources/repository.ts:813-850 | after a cooldown, reapplying keeps count and due time but lifts the cooldown |
| EndpointRuntime.AnyOrderReflectsLatest | src/sources/repository.ts:738-811 | in any order and however often applied, the endpoint reflects the latest run |
| EndpointRuntime.HealthIsTrailingBlock | src/sources/endpoint-health.ts:54-72 | unhealthy exactly when the last three runs failed, degraded exactly when the last failed otherwise, healthy or late exactly when the last succeeded |
| EndpointRuntime.CooldownExactlyWhen | src/sources/repository.ts:813-850 | a cooldown is set exactly for the latest run, when the trailing block reaches the threshold |
| EndpointRuntime.EndpointRuntimeStore.LatestSuccess | src/sources/repository.ts:768-790 | the latest finish of a success up to the time, absent exactly when there is none |
| EndpointRuntime.EndpointRuntimeStore.CountFailures | src/sources/repository.ts:768-790 | the number of failures up to the time with no success since |
| EndpointRuntime.EndpointRuntimeStore.ApplyTerminalCollectionRun | src/sources/repository.ts:738-811 | updates the run's endpoint exactly when the run is terminal and not older than the last attempt |
| EndpointRuntime.EndpointRuntimeStore.ApplyCooldownFromFinalFailure | src/sources/repository.ts:813-850 | updates only the run's endpoint, as the cooldown rule says |
| DomainRules.CheckNarrowing | src/sources/configuration.ts:207-228 | the loop accepts exactly the lists whose every rule narrows a Source rule |
| DomainRules.EffectiveExactly | src/sources/configuration.ts:207-228 | no narrowing leaves the Source's rules, an accepted one replaces them |
| DomainRules.NormalizeRules | src/sources/configuration.ts:165-183 | the loop refuses exactly the lists naming a host twice |
| DomainRules.SuffixMatchingIsLabelMatching | src/sources/configuration.ts:185-195 | matching by text suffix is matching by trailing labels |
| DomainRules.AcceptedNeverWidens | src/sources/configuration.ts:197-228 | accepted rules admit no host that the Source's rules reject |
| DomainRules.RejectedExactlyWhenWidening | src/sources/configuration.ts:197-228 | a list is accepted if and only if it admits nothing beyond the Source's rules |
| DomainRules.WideningWitness | src/sources/configuration.ts:197-205 | for a refused rule, the host it would add |
| Administration.GuardIsExact | src/admin/source-administration.ts:216-366 | a command is refused if and only if carrying it out would break a policy |
| Administration.SourceGuardExact | src/admin/source-administration.ts:410-433 | the check on active Profiles passes exactly when all of them stay usable |
| Administration.RulesGuardExact | src/admin/source-administration.ts:533-560 | the check on retained endpoints passes exactly when their policy survives the new rules |
| Administration.EveryReachableState | src/admin/distribution-profile-administration.ts:157-298 | after any commands each active Profile has an approved, active Source and each approved endpoint's host is inside its effective rules |
| AdministrationEffects.SourceEffects | src/admin/source-administration.ts:182-366 | each Source command carried out exactly when the rows allow it, with the row it writes |
| AdministrationEffects.EndpointEffects | src/admin/endpoint-administration.ts:365-475 | each endpoint command carried out exactly when the rows allow it, with the row it writes |
| AdministrationEffects.ProfileEffects | src/admin/distribution-profile-administration.ts:115-298 | each Profile command carried out exactly when the rows allow it, with the row it writes |
| AdministrationEffects.PoliciesInRows | src/admin/distribution-profile-administration.ts:157-298 | after any commands, by the columns: active Profiles have an approved, unarchived Source, and endpoints stay inside their Source's rules |
| Administration.ApprovedHostAdmitted | src/admin/endpoint-administration.ts:365-475 | after any commands an approved endpoint's host is admitted by its Source's own rules |
| AdministrationStore.AdministrationTables.ValidateEndpointPolicy | src/admin/endpoint-administration.ts:1081-1101 | decides whether an endpoint is inside the policy of the given Source rules |
| AdministrationStore.AdministrationTables.ValidateRetainedEndpointPolicies | src/admin/source-administration.ts:533-560 | decides whether every endpoint of the Source stays inside its policy |
| AdministrationStore.AdministrationTables.RequireActiveProfilesRemainUsable | src/admin/source-administration.ts:410-433 | decides whether every active Profile keeps a usable Source |
| AdministrationStore.AdministrationTables.CreateNewSource | src/admin/source-administration.ts:182-214 | carried out or refused as the command is defined, keeping the policies |
| AdministrationStore.AdministrationTables.ReplaceSourceConfiguration | src/admin/source-administration.ts:216-275 | the new rules are stored only if every endpoint stays inside them |
| AdministrationStore.AdministrationTables.ChangeSourceApproval | src/admin/source-administration.ts:277-305 | unapproving is refused when it would leave an active Profile without a usable Source |
| AdministrationStore.AdministrationTables.ChangeSourceLifecycle | src/admin/source-administration.ts:329-366 | archiving is refused when it would leave an active Profile without a usable Source |
| AdministrationStore.AdministrationTables.CreateNewEndpoint | src/admin/endpoint-administration.ts:365-406 | stored only inside the Source's policy |
| AdministrationStore.AdministrationTables.ReplaceEndpointConfiguration | src/admin/endpoint-administration.ts:408-450 | the new host and narrowing are stored only inside the Source's policy |
| AdministrationStore.AdministrationTables.ChangeEndpointApproval | src/admin/endpoint-administration.ts:452-475 | approved only inside the Source's policy |
| AdministrationStore.AdministrationTables.CreateNewProfile | src/admin/distribution-profile-administration.ts:115-131 | a Profile starts as a draft without Sources |
| AdministrationStore.AdministrationTables.ReplaceSourceAssociation | src/admin/distribution-profile-administration.ts:157-203 | associated as the command is defined, keeping the policies |
| AdministrationStore.AdministrationTables.RemoveSourceAssociation | src/admin/distribution-profile-administration.ts:205-257 | removing an active Profile's last usable Source is refused |
| AdministrationStore.AdministrationTables.ChangeProfileLifecycle | src/admin/distribution-profile-administration.ts:259-298 | activation needs a usable Source, and only the three allowed changes are made |
| CollectionAccounting.TallySum | src/collection/collect-endpoint.ts:479-631 | with no early stop the six counters sum to the candidates and link rejections |
| CollectionAccounting.TallyExactly | src/collection/collect-endpoint.ts:479-631 | each counter is the number of candidates stored, excluded or failed that way |
| CollectionAccounting.VerdictExactly | src/collection/collect-endpoint.ts:505-625 | for each fate of a candidate exactly when it is met |
| CollectionAccounting.StoppedAtFirstBreak | src/collection/collect-endpoint.ts:668-684 | the first candidate that breaks stops the attempt with its error, and it and all after it count as failed |
| CollectionAccounting.ProcessedBalances | src/collection/collect-endpoint.ts:668-684 | wherever processing stops, every candidate is counted exactly once |
| CollectionAccounting.ProcessCandidate | src/collection/collect-endpoint.ts:505-625 | one candidate raises one counter or stops the attempt with the error of the failing step |
| CollectionAccounting.ProcessCandidates | src/collection/collect-endpoint.ts:479-631 | status, counters and first error are those of the candidates, and the sum balances |
| CollectionAccounting.NormalizeItems | src/collection/collect-endpoint.ts:374-412 | raw items are filtered, normalized or failed, each once, unless the normalizer throws |
| CollectionAccounting.ApplyLinkPolicy | src/collection/collect-endpoint.ts:414-440 | normalized candidates are accepted or rejected, each once, unless the policy throws |
| CollectionAccounting.ExecuteAttempt | migrations/0001_initial_schema.sql:222-242 | every terminal attempt satisfies the database's arithmetic constraints, on every early exit |

## Left out

- HTTP fetching, DNS, feed parsing, Gemini calls, routers, page templates and scripts: inputs and presentation.
- SQL text, row mapping and checks of input shape: the table effect of each statement is modelled.
- Row locks and deadlocks: transactions are single steps, apart from the identity locks.
- Audit events, reasons given by moderators, error details and timestamps no decision depends on.
- `Synchronizer.php` and `Runtime.php` but for the four store operations they end in: activations and facts are arbitrary inputs.
- Operations of the PHP store on a manifest that cannot be read: they throw; over a readable manifest whose generation is at fault only activations are covered (`PhpStore.ActivationRecovers`).
- PHP directories, links and permissions; one store object stands for one Profile's directory.
- JSON documents where a list is expected and an object is given: lists are sequences of the value tree.
- JSON text with escapes, numbers other than 1 or white space: the cursor's alphabets need none.
- `html_listing` endpoints in the approval command are always refused there; their listing profiles are not modelled.
- Operational state and endpoint lifecycle commands, descriptions, categories of Sources: no modelled policy reads them.
- Backup, migrations, credentials, publication settings, editorial changes of Articles: wrappers or simple rows.
- Public feed filters: the keyset pages are proved over any ordered list, whatever filter made it.
- Observation rows, relevance reasons and Article categories: written beside the Article and read by no identity decision.
