/**
  What each duplicate command answers and leaves behind, told by the rows alone
  (src/deduplication/grouping.ts, moderation.ts and repository.ts).
 */
module TopologyEffects {
  import opened Prelude
  import opened Evidence
  import opened Primary
  import opened Topology
  import opened TopologyRuns

  // ---------------------------------------------------------------------------
  // Automatic grouping

  /** One of the pair, or grouped with one of the pair. */
  ghost predicate Beside(s: Rows, p: Pair, a: Uuid) {
    a == p.low || a == p.high ||
    (a in s.member && ((p.low in s.member && s.member[a] == s.member[p.low]) ||
                       (p.high in s.member && s.member[a] == s.member[p.high])))
  }

  ghost predicate SeparatedBeside(s: Rows, p: Pair) {
    exists q :: q in s.separations && Beside(s, p, q.low) && Beside(s, p, q.high)
  }

  ghost predicate TwoManualGroups(s: Rows, p: Pair) {
    && p.low in s.member && p.high in s.member && s.member[p.low] != s.member[p.high]
    && s.member[p.low] in s.groups && s.groups[s.member[p.low]].origin == Manual
    && s.member[p.high] in s.groups && s.groups[s.member[p.high]].origin == Manual
  }

  /** Strong evidence is what the two Articles show now, and what is stored. */
  ghost predicate ShowsStrongly(x: Article, y: Article, stored: StoredEvidence) {
    && x.id != y.id
    && var now := EvaluateDuplicateEvidence(x, y);
       && now.Some? && now.value.strength == Strong
       && stored == StoredEvidence(now.value.confidence, now.value.fingerprint, now.value.signals)
  }

  /** For each answer exactly when it is given. */
  lemma GroupingAnswers(c: Catalog, s: Rows, p: Pair, spare: Uuid)
    requires Inv(c, s) && spare !in s.groups
    ensures var r := GroupStep(c, s, p, spare).1;
            && (r == NotActionable(CandidateNotFound) <==> p !in s.candidates)
            && (p in s.candidates ==>
                  var state, x, y := s.candidates[p].state, c.articles[p.low], c.articles[p.high];
                  var open, apart := state in {Pending, Merged}, x.sourceId != y.sourceId;
                  var current := ShowsStrongly(x, y, s.candidates[p].evidence);
                  && (r == NotActionable(CandidateNotActionable) <==> state in {Dismissed, Superseded})
                  && (r == NotActionable(SameSource) <==> open && !apart)
                  && (r == NotActionable(StaleEvidence) <==> open && apart && !current)
                  && (r.AlreadyMerged? <==> state == Merged && apart && current)
                  && (r == NotActionable(ManualSeparation) <==> state == Pending && apart && current && SeparatedBeside(s, p))
                  && (r == NotActionable(ManualPrimaryConflict) <==>
                        state == Pending && apart && current && !SeparatedBeside(s, p) && TwoManualGroups(s, p))
                  && (r.Grouped? <==>
                        state == Pending && apart && current && !SeparatedBeside(s, p) && !TwoManualGroups(s, p)))
  {
    if p in s.candidates {
      BesideIsPairArticles(s, p);
      ManualGroupsConflict(c, s, p);
      if s.candidates[p].state == Merged {
        MergedMeans(c, s, p, spare);
      }
    }
  }

  lemma BesideIsPairArticles(s: Rows, p: Pair)
    ensures forall a :: Beside(s, p, a) <==> a in PairArticles(s, p)
    ensures SeparatedBeside(s, p) <==> exists q :: q in s.separations && Within(q, PairArticles(s, p))
  {
  }

  lemma ManualGroupsConflict(c: Catalog, s: Rows, p: Pair)
    requires Inv(c, s) && p in s.candidates
    ensures TwoManualGroups(s, p) <==> ManualConflict(s, PairArticles(s, p))
  {
    ComponentClosed(c, s, p.low, p.high);
    if TwoManualGroups(s, p) {
      assert HasManual(s, PairArticles(s, p), s.member[p.low]) && HasManual(s, PairArticles(s, p), s.member[p.high]);
    }
  }

  /** An automatically headed set of Articles: the head is one of them and preferred to each other one. */
  ghost predicate HeadedByBest(c: Catalog, primary: Uuid, articles: set<Uuid>)
    requires c.Valid() && articles <= c.articles.Keys
  {
    primary in articles &&
    forall a | a in articles && a != primary :: Preferred(c.articles[primary], c.articles[a], c.priorities)
  }

  lemma LeastIsBest(c: Catalog, x: Uuid, articles: set<Uuid>)
    requires c.Valid() && articles <= c.articles.Keys && IsLeast(c, x, articles)
    ensures HeadedByBest(c, x, articles)
  {
    forall a | a in articles && a != x
      ensures Preferred(c.articles[x], c.articles[a], c.priorities)
    {
      PrecedesIsPreferred(c.articles[x], c.articles[a], c.priorities);
    }
  }

  /** The one of two ids of groups that stays, when some Articles have none. */
  ghost predicate Survives(s: Rows, articles: set<Uuid>, spare: Uuid, gid: Uuid) {
    if forall a | a in articles :: a !in s.member then gid == spare
    else (exists a :: a in articles && InGroup(s, a, gid)) && forall a | a in articles && a in s.member :: gid <= s.member[a]
  }

  /** The manual head among the groups of some Articles, or else the best of them. */
  ghost predicate HeadOf(c: Catalog, s: Rows, articles: set<Uuid>, head: Group)
    requires c.Valid() && articles <= c.articles.Keys
  {
    if exists a :: a in articles && InManualGroup(s, a) then
      exists a :: a in articles && InManualGroup(s, a) && head == s.groups[s.member[a]]
    else
      head.origin == Automatic && HeadedByBest(c, head.primary, articles)
  }

  ghost predicate InManualGroup(s: Rows, a: Uuid) {
    a in s.member && s.member[a] in s.groups && s.groups[s.member[a]].origin == Manual
  }

  lemma SurvivorSurvives(c: Catalog, s: Rows, articles: set<Uuid>, spare: Uuid)
    requires MembershipsSound(c, s)
    ensures Survives(s, articles, spare, SurvivingGroup(s, articles, spare))
  {
    if a :| a in articles && a in s.member {
      assert s.member[a] in GroupsOf(s, articles);
      assert forall b | b in articles && b in s.member :: s.member[b] in GroupsOf(s, articles);
    }
  }

  lemma UnitedHeads(c: Catalog, s: Rows, articles: set<Uuid>)
    requires Inv(c, s) && articles <= c.articles.Keys && articles != {} && Closed(s, articles)
    ensures HeadOf(c, s, articles, UnitedGroup(c, s, articles))
  {
    var head := UnitedGroup(c, s, articles);
    if exists g :: HasManual(s, articles, g) {
      var g :| HasManual(s, articles, g) && head == Group(s.groups[g].primary, Manual);
      var a :| a in articles && a in s.member && s.member[a] == g;
      assert InManualGroup(s, a) && head == s.groups[s.member[a]];
    } else {
      forall a | a in articles
        ensures !InManualGroup(s, a)
      {
        assert a in s.member ==> !HasManual(s, articles, s.member[a]);
      }
      LeastIsBest(c, head.primary, articles);
    }
  }

  /** What a grouping leaves behind. */
  lemma GroupingEffect(c: Catalog, s: Rows, p: Pair, spare: Uuid)
    requires Inv(c, s) && spare !in s.groups && GroupStep(c, s, p, spare).1.Grouped?
    ensures var (s', r) := GroupStep(c, s, p, spare); var articles := PairArticles(s, p);
            && (forall a :: Beside(s, p, a) <==> a in articles) && articles <= c.articles.Keys
            && r.topologyChanged == !Together(s, p.low, p.high)
            && (forall x, y :: Together(s', x, y) <==> Together(s, x, y) || (Beside(s, p, x) && Beside(s, p, y)))
            && s'.separations == s.separations
            && p in s.candidates && s'.candidates == s.candidates[p := Candidate(Merged, s.candidates[p].evidence)]
            && Survives(s, articles, spare, r.groupId) && r.groupId in s'.groups
            && HeadOf(c, s, articles, s'.groups[r.groupId]) && r.primary == s'.groups[r.groupId].primary
            && InGroup(s', p.low, r.groupId) && OthersUntouched(s, s', r.groupId)
  {
    var (s', r) := GroupStep(c, s, p, spare);
    var refusal := CandidateRefusal(c, s, p);
    var articles := PairArticles(s, p);
    BesideIsPairArticles(s, p);
    GroupedMeans(c, s, p, spare, refusal);
    GroupHeads(c, s, p, spare, refusal);
    var gid, group := SurvivingGroup(s, articles, spare), UnitedGroup(c, s, articles);
    CombinedKeepsInv(c, s, p, gid, group);
    SurvivorSurvives(c, s, articles, spare);
    UnitedHeads(c, s, articles);
  }

  /** A merged candidate that is grouped again: at most the Primary of an automatic group changes. */
  lemma ConfirmingEffect(c: Catalog, s: Rows, p: Pair, spare: Uuid)
    requires Inv(c, s) && spare !in s.groups && GroupStep(c, s, p, spare).1.AlreadyMerged?
    ensures var (s', r) := GroupStep(c, s, p, spare);
            && InGroup(s, p.low, r.groupId) && InGroup(s, p.high, r.groupId) && r.groupId in s.groups
            && s'.member == s.member && s'.separations == s.separations && s'.candidates == s.candidates
            && Members(s, r.groupId) <= c.articles.Keys
            && (s.groups[r.groupId].origin == Manual ==> s' == s && r.primary == s.groups[r.groupId].primary)
            && (s.groups[r.groupId].origin == Automatic ==>
                  s'.groups == s.groups[r.groupId := Group(r.primary, Automatic)] &&
                  HeadedByBest(c, r.primary, Members(s, r.groupId)))
  {
    ConfirmedIsMerged(c, s, p, spare);
    MergedMeans(c, s, p, spare);
    RetainedHead(c, s, s.member[p.low]);
  }

  lemma ConfirmedIsMerged(c: Catalog, s: Rows, p: Pair, spare: Uuid)
    requires Inv(c, s) && spare !in s.groups && GroupStep(c, s, p, spare).1.AlreadyMerged?
    ensures p in s.candidates && s.candidates[p].state == Merged
    ensures GroupStep(c, s, p, spare) == GroupJudged(c, s, p, spare, None)
  {
  }

  lemma RetainedHead(c: Catalog, s: Rows, gid: Uuid)
    requires Inv(c, s) && gid in s.groups && Members(s, gid) <= c.articles.Keys && Members(s, gid) != {}
    ensures var head := Retained(c, s, gid);
            && (s.groups[gid].origin == Manual ==> head == s.groups[gid] && s.(groups := s.groups[gid := head]) == s)
            && (s.groups[gid].origin == Automatic ==> head.origin == Automatic && HeadedByBest(c, head.primary, Members(s, gid)))
  {
    assert InGroup(s, s.groups[gid].primary, gid);
    if s.groups[gid].origin == Automatic {
      LeastIsBest(c, Retained(c, s, gid).primary, Members(s, gid));
    } else {
      assert s.groups[gid := s.groups[gid]] == s.groups;
    }
  }

  // ---------------------------------------------------------------------------
  // Manual merges

  /** Selected, or grouped with a selected Article. */
  ghost predicate Reached(s: Rows, selected: set<Uuid>, a: Uuid) {
    a in selected || exists b :: b in selected && Together(s, b, a)
  }

  ghost predicate TwoManualSelected(s: Rows, selected: set<Uuid>) {
    exists a, b :: a in selected && b in selected && InManualGroup(s, a) && InManualGroup(s, b) && s.member[a] != s.member[b]
  }

  lemma ReachedIsUnion(s: Rows, selected: set<Uuid>)
    ensures forall a :: Reached(s, selected, a) <==> a in UnionOfComponents(s, selected)
  {
  }

  lemma ManualSelectedConflict(c: Catalog, s: Rows, selected: set<Uuid>)
    requires MembershipsSound(c, s)
    ensures ManualConflict(s, UnionOfComponents(s, selected)) <==> TwoManualSelected(s, selected)
  {
    var articles := UnionOfComponents(s, selected);
    UnionClosed(c, s, selected);
    assert forall g :: HasManual(s, articles, g) <==> HasManual(s, selected, g);
    if TwoManualSelected(s, selected) {
      var a, b :| a in selected && b in selected && InManualGroup(s, a) && InManualGroup(s, b) && s.member[a] != s.member[b];
      assert HasManual(s, selected, s.member[a]) && HasManual(s, selected, s.member[b]);
    }
    if ManualConflict(s, selected) {
      var g, h :| g != h && HasManual(s, selected, g) && HasManual(s, selected, h);
      var a :| a in selected && a in s.member && s.member[a] == g;
      var b :| b in selected && b in s.member && s.member[b] == h;
      assert InManualGroup(s, a) && InManualGroup(s, b);
    }
  }

  /** For each answer exactly when it is given. */
  lemma MergeAnswers(c: Catalog, s: Rows, selected: set<Uuid>, chosen: Option<Uuid>, spare: Uuid)
    requires Inv(c, s) && spare !in s.groups && |selected| >= 2
    ensures var r := MergeStep(c, s, selected, chosen, spare).1;
            var refused := if chosen.None? then TwoManualSelected(s, selected) else !Reached(s, selected, chosen.value);
            && (r == Conflict <==> refused)
            && (r == TransactionFailed <==> !refused && exists a :: a in selected && a !in c.articles)
            && (r.Changed? <==> !refused && forall a | a in selected :: a in c.articles)
            && (!r.Changed? ==> MergeStep(c, s, selected, chosen, spare).0 == s)
  {
    ReachedIsUnion(s, selected);
    ManualSelectedConflict(c, s, selected);
    MergeOutcome(c, s, selected, chosen, spare, UnionOfComponents(s, selected));
  }

  lemma MergeOutcome(c: Catalog, s: Rows, selected: set<Uuid>, chosen: Option<Uuid>, spare: Uuid, articles: set<Uuid>)
    requires Inv(c, s) && |selected| >= 2 && articles == UnionOfComponents(s, selected)
    ensures var (s', r) := MergeStep(c, s, selected, chosen, spare);
            var refused := if chosen.None? then ManualConflict(s, articles) else chosen.value !in articles;
            && (r == Conflict <==> refused)
            && (r == TransactionFailed <==> !refused && !(selected <= c.articles.Keys))
            && (r.Changed? <==> !refused && selected <= c.articles.Keys)
            && (!r.Changed? ==> s' == s)
  {
  }

  /** What a merge leaves behind. */
  lemma MergeEffects(c: Catalog, s: Rows, selected: set<Uuid>, chosen: Option<Uuid>, spare: Uuid)
    requires Inv(c, s) && spare !in s.groups && |selected| >= 2 && MergeStep(c, s, selected, chosen, spare).1.Changed?
    ensures var (s', r) := MergeStep(c, s, selected, chosen, spare); var articles := UnionOfComponents(s, selected);
            && (forall a :: Reached(s, selected, a) <==> a in articles) && articles <= c.articles.Keys
            && (forall x, y :: Together(s', x, y) <==>
                  Together(s, x, y) || (Reached(s, selected, x) && Reached(s, selected, y)))
            && (forall q :: q in s'.separations <==>
                  q in s.separations && !(Reached(s, selected, q.low) && Reached(s, selected, q.high)))
            && s'.candidates.Keys == s.candidates.Keys
            && (forall q | q in s.candidates ::
                  s'.candidates[q] == if Reached(s, selected, q.low) && Reached(s, selected, q.high)
                                      then Candidate(Merged, s.candidates[q].evidence) else s.candidates[q])
            && r.groupId.Some? && Survives(s, articles, spare, r.groupId.value) && r.groupId.value in s'.groups
            && r.primary == Some(s'.groups[r.groupId.value].primary)
            && Members(s', r.groupId.value) == articles && OthersUntouched(s, s', r.groupId.value)
            && (if chosen.Some? then s'.groups[r.groupId.value] == Group(chosen.value, Manual)
                else HeadOf(c, s, articles, s'.groups[r.groupId.value]))
  {
    var articles := UnionOfComponents(s, selected);
    ReachedIsUnion(s, selected);
    MergeTogether(c, s, selected, chosen, spare);
    MergedRows(c, s, selected, chosen, spare);
    MergedHead(c, s, selected, chosen, spare);
  }

  lemma MergedRows(c: Catalog, s: Rows, selected: set<Uuid>, chosen: Option<Uuid>, spare: Uuid)
    requires Inv(c, s) && |selected| >= 2 && MergeStep(c, s, selected, chosen, spare).1.Changed?
    ensures var s', articles := MergeStep(c, s, selected, chosen, spare).0, UnionOfComponents(s, selected);
            && (forall q :: q in s'.separations <==> q in s.separations && !(q.low in articles && q.high in articles))
            && s'.candidates.Keys == s.candidates.Keys
            && (forall q | q in s.candidates ::
                  s'.candidates[q] == if q.low in articles && q.high in articles
                                      then Candidate(Merged, s.candidates[q].evidence) else s.candidates[q])
  {
  }

  lemma MergedHead(c: Catalog, s: Rows, selected: set<Uuid>, chosen: Option<Uuid>, spare: Uuid)
    requires Inv(c, s) && spare !in s.groups && |selected| >= 2 && MergeStep(c, s, selected, chosen, spare).1.Changed?
    ensures var (s', r) := MergeStep(c, s, selected, chosen, spare); var articles := UnionOfComponents(s, selected);
            && articles <= c.articles.Keys
            && r.groupId.Some? && Survives(s, articles, spare, r.groupId.value) && r.groupId.value in s'.groups
            && r.primary == Some(s'.groups[r.groupId.value].primary)
            && Members(s', r.groupId.value) == articles && OthersUntouched(s, s', r.groupId.value)
            && (if chosen.Some? then s'.groups[r.groupId.value] == Group(chosen.value, Manual)
                else HeadOf(c, s, articles, s'.groups[r.groupId.value]))
  {
    var articles := UnionOfComponents(s, selected);
    MergeMeans(c, s, selected, chosen, spare);
    MergeHeads(c, s, selected, chosen, spare);
    SurvivorSurvives(c, s, articles, spare);
    if chosen.None? {
      UnitedHeads(c, s, articles);
    }
  }

  lemma MergeTogether(c: Catalog, s: Rows, selected: set<Uuid>, chosen: Option<Uuid>, spare: Uuid)
    requires Inv(c, s) && spare !in s.groups && |selected| >= 2 && MergeStep(c, s, selected, chosen, spare).1.Changed?
    ensures var s', articles := MergeStep(c, s, selected, chosen, spare).0, UnionOfComponents(s, selected);
            forall x, y :: Together(s', x, y) <==> Together(s, x, y) || (x in articles && y in articles)
  {
    var articles := UnionOfComponents(s, selected);
    MergeMeans(c, s, selected, chosen, spare);
    var gid, group := SurvivingGroup(s, articles, spare), MergedGroup(c, s, articles, chosen);
    GroupIdUnused(c, s, articles, gid);
    UniteMembers(s, articles, gid, group);
    SameMembership(Unite(s, articles, gid, group), MergeStep(c, s, selected, chosen, spare).0);
  }

  lemma SameMembership(u: Rows, s: Rows)
    requires s.member == u.member
    ensures forall x, y :: Together(s, x, y) <==> Together(u, x, y)
  {
  }

  // ---------------------------------------------------------------------------
  // Splits, choices, dismissals, detections

  lemma SplitAnswers(c: Catalog, s: Rows, gid: Uuid, ids: set<Uuid>)
    requires Inv(c, s)
    ensures var (s', r) := SplitStep(c, s, gid, ids);
            var hits := exists a :: a in ids && InGroup(s, a, gid);
            && (r == NotFound <==> gid !in s.groups)
            && (r == Conflict <==> gid in s.groups && !hits)
            && (r == TransactionFailed <==>
                  gid in s.groups && s.groups[gid].origin == Automatic && s.groups[gid].primary in ids &&
                  |Members(s, gid) - ids| >= 2)
            && (!r.Changed? ==> s' == s)
            && (r.Changed? ==> r == Changed(if |Members(s, gid) - ids| >= 2 then Some(gid) else None, None))
            && r in {NotFound, Conflict, TransactionFailed, Changed(Some(gid), None), Changed(None, None)}
  {
    if gid in s.groups {
      SplitFailsExactlyWhen(c, s, gid, ids);
      assert Members(s, gid) - ids * Members(s, gid) == Members(s, gid) - ids;
      if a :| a in ids && InGroup(s, a, gid) {
        assert a in ids * Members(s, gid);
      }
    }
  }

  /** What a split leaves behind. */
  lemma SplitEffects(c: Catalog, s: Rows, gid: Uuid, ids: set<Uuid>)
    requires Inv(c, s) && SplitStep(c, s, gid, ids).1.Changed?
    ensures var s' := SplitStep(c, s, gid, ids).0;
            var remaining := Members(s, gid) - ids;
            && gid in s.groups && remaining <= c.articles.Keys
            && (forall x, y :: Together(s', x, y) <==>
                  Together(s, x, y) && (InGroup(s, x, gid) ==> x !in ids && y !in ids && |remaining| >= 2))
            && (forall q: Pair | q.low < q.high :: q in s'.separations <==>
                  q in s.separations || (InGroup(s, q.low, gid) && InGroup(s, q.high, gid) && (q.low in ids || q.high in ids)))
            && s'.candidates.Keys == s.candidates.Keys
            && (forall q | q in s.candidates ::
                  s'.candidates[q] ==
                  if s.candidates[q].state == Merged && InGroup(s, q.low, gid) && InGroup(s, q.high, gid) &&
                     (q.low in ids || q.high in ids)
                  then Candidate(Dismissed, s.candidates[q].evidence) else s.candidates[q])
            && s'.groups.Keys == (if |remaining| >= 2 then s.groups.Keys else s.groups.Keys - {gid})
            && (forall g | g in s'.groups && g != gid :: s'.groups[g] == s.groups[g])
            && (|remaining| >= 2 ==>
                  if s.groups[gid].primary in ids
                  then s'.groups[gid].origin == Manual && HeadedByBest(c, s'.groups[gid].primary, remaining)
                  else s'.groups[gid] == s.groups[gid])
  {
    SplitTogether(c, s, gid, ids);
    SplitRows(c, s, gid, ids);
    var s', remaining := SplitStep(c, s, gid, ids).0, Members(s, gid) - ids;
    if |remaining| >= 2 && s.groups[gid].primary in ids {
      LeastIsBest(c, s'.groups[gid].primary, remaining);
    }
  }

  lemma SplitRows(c: Catalog, s: Rows, gid: Uuid, ids: set<Uuid>)
    requires Inv(c, s) && SplitStep(c, s, gid, ids).1.Changed?
    ensures gid in s.groups && Members(s, gid) - ids * Members(s, gid) == Members(s, gid) - ids <= c.articles.Keys
    ensures var s' := SplitStep(c, s, gid, ids).0; var members := Members(s, gid); var removed := ids * members;
            && (forall q: Pair | q.low < q.high :: q in s'.separations <==>
                  q in s.separations || (q.low in members && q.high in members && (q.low in removed || q.high in removed)))
            && s'.candidates.Keys == s.candidates.Keys
            && (forall q | q in s.candidates ::
                  s'.candidates[q] ==
                  if s.candidates[q].state == Merged && q.low in members && q.high in members && (q.low in removed || q.high in removed)
                  then Candidate(Dismissed, s.candidates[q].evidence) else s.candidates[q])
            && s'.groups == if |members - ids| < 2 then s.groups - {gid}
                            else if s.groups[gid].primary in removed then s.groups[gid := Group(LeastOf(c, members - ids), Manual)]
                            else s.groups
  {
    var members := Members(s, gid);
    var removed := ids * members;
    assert members - removed == members - ids;
    forall q: Pair | q.low < q.high
      ensures q in PairsOf(removed, members) <==> q.low in members && q.high in members && (q.low in removed || q.high in removed)
    {
      PairsOfContains(removed, members, q);
    }
  }

  lemma ChooseEffects(s: Rows, gid: Uuid, a: Uuid)
    ensures var (s', r) := ChooseStep(s, gid, a);
            && (r == NotFound <==> gid !in s.groups)
            && (r == Conflict <==> gid in s.groups && !InGroup(s, a, gid))
            && (r == NoOp <==> gid in s.groups && InGroup(s, a, gid) && s.groups[gid] == Group(a, Manual))
            && (gid in s.groups && InGroup(s, a, gid) ==>
                  s'.groups.Keys == s.groups.Keys && s'.groups[gid].primary == a && s'.groups[gid].origin == Manual)
            && (r in {NotFound, Conflict, NoOp} || r == Changed(Some(gid), Some(a)))
            && (!r.Changed? ==> s' == s)
            && s'.member == s.member && s'.separations == s.separations && s'.candidates == s.candidates
            && forall g | g in s.groups && g != gid :: g in s'.groups && s'.groups[g] == s.groups[g]
  {
  }

  lemma DismissEffects(s: Rows, p: Pair)
    ensures var (s', r) := DismissStep(s, p);
            && (r == NotFound <==> p !in s.candidates)
            && (p in s.candidates ==>
                  && (r == NoOp <==> s.candidates[p].state == Dismissed)
                  && (r == Conflict <==> s.candidates[p].state in {Merged, Superseded})
                  && (r == Changed(None, None) <==> s.candidates[p].state == Pending)
                  && p in s'.candidates
                  && s'.candidates[p] == if s.candidates[p].state == Pending then Candidate(Dismissed, s.candidates[p].evidence)
                                         else s.candidates[p])
            && s'.groups == s.groups && s'.member == s.member && s'.separations == s.separations
            && s'.candidates.Keys == s.candidates.Keys
            && forall q | q in s.candidates && q != p :: s'.candidates[q] == s.candidates[q]
  {
  }

  /** Without evidence detection does nothing. */
  lemma DetectsNothing(c: Catalog, s: Rows, a: Uuid, b: Uuid)
    requires c.Valid() && a in c.articles && b in c.articles && a != b
    requires EvaluateDuplicateEvidence(c.articles[a], c.articles[b]).None?
    ensures DetectPairStep(c, s, a, b) == s
  {
  }

  /** With evidence it touches the candidate of the pair and no other, and opens it if there was none. */
  lemma DetectsEvidence(c: Catalog, s: Rows, a: Uuid, b: Uuid, e: DuplicateEvidence)
    requires c.Valid() && a in c.articles && b in c.articles && a != b
    requires EvaluateDuplicateEvidence(c.articles[a], c.articles[b]) == Some(e)
    ensures var s' := DetectPairStep(c, s, a, b);
            && e.pair in s'.candidates && s' == s.(candidates := s.candidates[e.pair := s'.candidates[e.pair]])
            && (e.pair !in s.candidates ==>
                  s'.candidates[e.pair] == Candidate(Pending, StoredEvidence(e.confidence, e.fingerprint, e.signals)))
  {
    DetectPersists(c, s, a, b, e);
    UpsertedPair(s, e, DetectPairStep(c, s, a, b));
  }

  lemma UpsertedPair(s: Rows, e: DuplicateEvidence, s': Rows)
    requires s' == s.(candidates := s.candidates[e.pair := Upsert(Stored(s.candidates, e.pair), e)])
    ensures s' == s.(candidates := s.candidates[e.pair := s'.candidates[e.pair]])
    ensures e.pair !in s.candidates ==>
              s'.candidates[e.pair] == Candidate(Pending, StoredEvidence(e.confidence, e.fingerprint, e.signals))
  {
  }
}
