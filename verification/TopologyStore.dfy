/**
  The duplicate commands as the statements that change the tables. Each method is one
  committed transaction; advisory locks serialise them.
 */
module TopologyStore {
  import opened Prelude
  import opened Evidence
  import opened Primary
  import opened Topology
  import opened TopologyRuns
  import opened TopologyComponents

  class DuplicateTopology {
    var catalog: Catalog
    var groups: map<Uuid, Group>
    var member: map<Uuid, Uuid>
    var separations: set<Pair>
    var candidates: map<Pair, Candidate>

    function Tables(): Rows
      reads this
    {
      Rows(groups, member, separations, candidates)
    }

    ghost predicate Valid()
      reads this
    {
      Inv(catalog, Tables())
    }

    constructor (c: Catalog)
      requires c.Valid()
      ensures Valid() && catalog == c && Tables() == Empty
    {
      catalog := c;
      groups, member, separations, candidates := map[], map[], {}, map[];
    }

    /** Between commands Articles are collected and rewritten, and priorities administered. */
    method ChangeCatalog(later: Catalog)
      requires Valid() && Later(catalog, later)
      modifies this`catalog
      ensures Valid() && catalog == later
    {
      LaterKeepsInv(catalog, later, Tables());
      catalog := later;
    }

    // -------------------------------------------------------------------------
    // Primaries

    /** The members of a group, in some order; the choice of a Primary does not depend on it. */
    method MemberIds(gid: Uuid) returns (ids: seq<Uuid>)
      ensures forall a :: a in ids <==> a in Members(Tables(), gid)
      ensures forall i, j :: 0 <= i < j < |ids| ==> ids[i] != ids[j]
    {
      var rest := set a | a in member && member[a] == gid;
      ids := [];
      while rest != {}
        invariant forall a :: a in Members(Tables(), gid) <==> a in rest || a in ids
        invariant forall a :: a in ids ==> a !in rest
        invariant forall i, j :: 0 <= i < j < |ids| ==> ids[i] != ids[j]
        decreases rest
      {
        var a :| a in rest;
        ids := ids + [a];
        rest := rest - {a};
      }
    }

    ghost predicate Choosable(gid: Uuid)
      reads this
    {
      && catalog.Valid() && MembershipsSound(catalog, Tables())
      && gid in groups && Members(Tables(), gid) != {}
    }

    method ReselectPrimary(gid: Uuid) returns (primary: Uuid)
      requires Choosable(gid)
      modifies this`groups
      ensures primary == LeastOf(catalog, Members(old(Tables()), gid))
      ensures groups == old(groups)[gid := old(groups)[gid].(primary := primary)]
    {
      var ids := MemberIds(gid);
      ghost var members := Members(Tables(), gid);
      assert ids != [] by { var a :| a in members; assert a in ids; }
      SelectPrimaryIsLeast(catalog, ids, members);
      primary := SelectPrimary(ArticleRows(catalog, ids), catalog.priorities).id;
      LeastUnique(catalog, primary, LeastOf(catalog, members), members);
      groups := groups[gid := groups[gid].(primary := primary)];
    }

    method RetainOrReselectPrimary(gid: Uuid) returns (primary: Uuid)
      requires Choosable(gid)
      modifies this`groups
      ensures var group := old(groups)[gid];
              if group.origin == Manual && InGroup(old(Tables()), group.primary, gid)
              then groups == old(groups) && primary == group.primary
              else primary == LeastOf(catalog, Members(old(Tables()), gid)) &&
                   groups == old(groups)[gid := group.(primary := primary)]
    {
      var group := groups[gid];
      if group.origin == Manual && group.primary in member && member[group.primary] == gid {
        return group.primary;
      }
      primary := ReselectPrimary(gid);
    }

    method RetainManualPrimaryAcrossMerge(surviving: Uuid, losing: Uuid)
      requires surviving in groups && losing in groups && surviving != losing
      modifies this`groups
      ensures groups == ManualRetained(old(groups), surviving, losing)
    {
      var manual := (if groups[surviving].origin == Manual then [groups[surviving].primary] else []) +
                    (if groups[losing].origin == Manual then [groups[losing].primary] else []);
      if |manual| != 1 { return; }
      groups := groups[surviving := Group(manual[0], Manual)];
    }

    /** A manual Primary of exactly one of two groups becomes the survivor's. */
    static function ManualRetained(table: map<Uuid, Group>, surviving: Uuid, losing: Uuid): map<Uuid, Group>
      requires surviving in table && losing in table
    {
      if table[surviving].origin == Automatic && table[losing].origin == Manual
      then table[surviving := table[losing]] else table
    }

    // -------------------------------------------------------------------------
    // Automatic grouping

    /** Inserts, extends, keeps or merges groups until one group holds both Articles. */
    method JoinGroups(p: Pair, spare: Uuid) returns (gid: Uuid, topologyChanged: bool)
      requires Valid() && spare !in groups && p in candidates
      modifies this`groups, this`member
      ensures topologyChanged == !Together(old(Tables()), p.low, p.high)
      ensures JoinsPair(old(Tables()), p, spare, gid, member, groups)
    {
      ghost var s := Tables();
      var low, high := p.low, p.high;
      if low !in member && high !in member {
        gid, topologyChanged := spare, true;
        groups := groups[gid := Group(low, Automatic)];
        member := member[low := gid][high := gid];
        CreatedJoins(catalog, s, p, spare);
      } else if low !in member || high !in member {
        gid, topologyChanged := if low in member then member[low] else member[high], true;
        member := member[(if low in member then high else low) := gid];
        ExtendedJoins(catalog, s, p, spare);
      } else if member[low] == member[high] {
        gid, topologyChanged := member[low], false;
        KeptJoins(catalog, s, p, spare);
      } else {
        gid, topologyChanged := if member[low] < member[high] then member[low] else member[high], true;
        var losing := if member[low] < member[high] then member[high] else member[low];
        member := map a | a in member :: if member[a] == losing then gid else member[a];
        RetainManualPrimaryAcrossMerge(gid, losing);
        groups := groups - {losing};
        MergedJoins(catalog, s, p, spare, gid, losing, groups);
      }
    }

    /** The members that would share one group with the pair. */
    method ResultingMembers(p: Pair) returns (articles: set<Uuid>)
      ensures articles == PairArticles(Tables(), p)
    {
      articles := {p.low, p.high} +
                  set a | a in member && ((p.low in member && member[a] == member[p.low]) ||
                                          (p.high in member && member[a] == member[p.high]));
    }

    method GroupStrongDuplicateCandidate(p: Pair, spare: Uuid) returns (r: GroupingResult)
      requires Valid() && spare !in groups
      modifies this`groups, this`member, this`separations, this`candidates
      ensures Valid()
      ensures (Tables(), r) == GroupStep(catalog, old(Tables()), p, spare)
      ensures groups.Keys <= old(groups).Keys + {spare}
    {
      ghost var s := Tables();
      if p !in candidates { return NotActionable(CandidateNotFound); }
      var k := candidates[p];
      if k.state == Dismissed || k.state == Superseded { return NotActionable(CandidateNotActionable); }
      if catalog.articles[p.low].sourceId == catalog.articles[p.high].sourceId { return NotActionable(SameSource); }
      if !EvidenceCurrent(catalog, k.evidence, p) { return NotActionable(StaleEvidence); }
      if k.state == Merged {
        r := ConfirmMerged(p, spare);
        return;
      }
      r := GroupPending(p, spare);
    }

    /** A merged candidate always finds its two Articles in one group, whose Primary is retained or chosen anew. */
    method ConfirmMerged(p: Pair, ghost spare: Uuid) returns (r: GroupingResult)
      requires Valid() && p in candidates && candidates[p].state == Merged
      modifies this`groups
      ensures Valid()
      ensures (Tables(), r) == GroupJudged(catalog, old(Tables()), p, spare, None)
      ensures groups.Keys == old(groups).Keys
    {
      ghost var s := Tables();
      MergedMeans(catalog, s, p, spare);
      if p.low !in member || p.high !in member || member[p.low] != member[p.high] {
        assert false;
      }
      var gid := member[p.low];
      HeadChangeKeepsInv(catalog, s, gid, Retained(catalog, s, gid));
      var primary := RetainOrReselectPrimary(gid);
      assert groups == s.groups[gid := Retained(catalog, s, gid)];
      r := AlreadyMerged(gid, primary);
    }

    /** The checks on separations and manual Primaries. */
    method RefuseTopology(p: Pair) returns (refusal: Option<NoopReason>)
      requires Valid() && p in candidates
      ensures refusal == TopologyRefusal(Tables(), PairArticles(Tables(), p))
    {
      var articles := ResultingMembers(p);
      if exists q :: q in separations && q.low in articles && q.high in articles {
        return Some(ManualSeparation);
      }
      ConflictOfTwo(catalog, Tables(), p);
      if p.low in member && p.high in member && member[p.low] != member[p.high] &&
         groups[member[p.low]].origin == Manual && groups[member[p.high]].origin == Manual &&
         groups[member[p.low]].primary != groups[member[p.high]].primary {
        return Some(ManualPrimaryConflict);
      }
      refusal := None;
    }

    method GroupPending(p: Pair, spare: Uuid) returns (r: GroupingResult)
      requires Valid() && spare !in groups && p in candidates && candidates[p].state == Pending
      modifies this`groups, this`member, this`separations, this`candidates
      ensures Valid()
      ensures (Tables(), r) == GroupJudged(catalog, old(Tables()), p, spare, None)
      ensures groups.Keys <= old(groups).Keys + {spare}
    {
      var refusal := RefuseTopology(p);
      if refusal.Some? { return NotActionable(refusal.value); }
      PendingUnrefused(catalog, Tables(), p, spare);
      GroupKeepsInv(catalog, Tables(), p, spare, None);
      r := CombineComponents(p, spare);
      assert Inv(catalog, Tables());
    }

    method CombineComponents(p: Pair, spare: Uuid) returns (r: GroupingResult)
      requires Valid() && spare !in groups && p in candidates
      requires GroupJudged(catalog, Tables(), p, spare, None).1.Grouped?
      modifies this`groups, this`member, this`separations, this`candidates
      ensures (Tables(), r) == GroupJudged(catalog, old(Tables()), p, spare, None)
      ensures groups.Keys <= old(groups).Keys + {spare}
    {
      ghost var s := Tables();
      ghost var united := UnitedBy(catalog, s, p, spare);
      var gid, topologyChanged := JoinGroups(p, spare);
      JoinedMembers(catalog, s, p, spare, gid, Tables());
      var primary := HeadJoinedGroup(gid, PairArticles(s, p), united);
      candidates := candidates[p := candidates[p].(state := Merged)];
      CombinedIsJudged(catalog, s, p, spare, gid, Tables());
      r := Grouped(gid, primary, topologyChanged);
    }

    /** Retaining or reselecting, when it is known what heads the group in either case. */
    method HeadJoinedGroup(gid: Uuid, ghost articles: set<Uuid>, ghost united: Group) returns (primary: Uuid)
      requires catalog.Valid() && MembershipsSound(catalog, Tables()) && gid in groups
      requires Members(Tables(), gid) == articles && articles != {} && articles <= catalog.articles.Keys
      requires groups[gid].origin == Manual ==> InGroup(Tables(), groups[gid].primary, gid) && groups[gid] == united
      requires groups[gid].origin == Automatic ==> united == Group(LeastOf(catalog, articles), Automatic)
      modifies this`groups
      ensures groups == old(groups)[gid := united] && primary == united.primary
    {
      primary := RetainOrReselectPrimary(gid);
    }

    /** Groups every strong candidate in turn and sums what they add. */
    method GroupStrongCandidates(pairs: seq<Pair>, spares: seq<Uuid>) returns (duplicateGroupedCount: nat)
      requires Valid() && |spares| == |pairs|
      requires Unused(spares, 0, groups.Keys)
      modifies this`groups, this`member, this`separations, this`candidates
      ensures Valid()
      ensures (Tables(), duplicateGroupedCount) == GroupAll(catalog, old(Tables()), pairs, spares)
    {
      ghost var s := Tables();
      duplicateGroupedCount := 0;
      assert pairs[0..] == pairs && spares[0..] == spares;
      for i := 0 to |pairs|
        invariant Valid()
        invariant Unused(spares, i, groups.Keys)
        invariant Remaining(catalog, s, pairs, spares, i, Tables(), duplicateGroupedCount)
      {
        RemainingStep(catalog, s, pairs, spares, i, Tables(), duplicateGroupedCount);
        ghost var known := groups.Keys;
        var grouping := GroupStrongDuplicateCandidate(pairs[i], spares[i]);
        StillUnused(spares, i, known, groups.Keys);
        duplicateGroupedCount := duplicateGroupedCount + grouping.DuplicateGroupedCount();
      }
    }

    // -------------------------------------------------------------------------
    // Review evidence

    method PersistReviewEvidence(e: DuplicateEvidence) returns (created: bool)
      requires Valid()
      requires e.pair.low < e.pair.high && e.pair.low in catalog.articles && e.pair.high in catalog.articles
      modifies this`candidates
      ensures Valid()
      ensures created == (e.pair !in old(candidates))
      ensures candidates == old(candidates)[e.pair := Upsert(Stored(old(candidates), e.pair), e)]
    {
      UpsertKeepsInv(catalog, Tables(), e);
      if e.pair !in candidates {
        candidates := candidates[e.pair := Candidate(Pending, EvidenceColumns(e))];
        return true;
      }
      var existing := candidates[e.pair];
      var sameEvidence := existing.evidence.fingerprint == e.fingerprint;
      created := false;
      if existing.state == Superseded || sameEvidence {
        assert candidates == candidates[e.pair := existing];
        return;
      }
      var nextState := if existing.state == Dismissed then Pending else existing.state;
      candidates := candidates[e.pair := Candidate(nextState, EvidenceColumns(e))];
    }

    // -------------------------------------------------------------------------
    // Manual commands

    /** Puts the selected Articles and all their groups under one group id. */
    method Reassign(selected: set<Uuid>, articles: set<Uuid>, gids: set<Uuid>, spare: Uuid) returns (gid: Uuid)
      requires MembershipsSound(catalog, Tables()) && spare !in groups && selected != {}
      requires gids == GroupsOf(Tables(), selected)
      requires articles == selected + InGroups(Tables(), gids)
      modifies this`groups, this`member
      ensures gid == if gids == {} then spare else LeastId(gids)
      ensures Reassigned(old(Tables()), articles, gids, gid, member, groups)
    {
      ghost var s := Tables();
      if gids == {} {
        gid := spare;
        var first :| first in selected;
        groups := groups[gid := Group(first, Automatic)];
        member := member + map a | a in selected :: gid;
        ReassignedNew(s, selected, gid, first);
      } else {
        LeastIdExists(gids);
        gid :| gid in gids && forall h | h in gids :: gid <= h;
        assert IsLeastId(gid, gids);
        member := member + map a | a in selected && a !in member :: gid;
        var losing := gids - {gid};
        if losing != {} {
          member := map a | a in member :: if member[a] in losing then gid else member[a];
          groups := groups - losing;
        }
        ReassignedKept(s, selected, gids, gid, member, groups);
      }
    }

    /** The conflicts that leave everything as it was. */
    method RefuseMerge(articles: set<Uuid>, gids: set<Uuid>, chosen: Option<Uuid>)
      returns (refused: bool, manual: set<Uuid>)
      requires Valid() && gids == GroupsOf(Tables(), articles)
      ensures manual == ManualPrimaries(Tables(), articles)
      ensures refused <==> if chosen.None? then ManualConflict(Tables(), articles) else chosen.value !in articles
    {
      manual := set g | g in gids && g in groups && groups[g].origin == Manual :: groups[g].primary;
      ManualPrimariesCount(catalog, Tables(), articles);
      refused := (chosen.None? && |manual| > 1) || (chosen.Some? && chosen.value !in articles);
    }

    method MergeDuplicateArticles(selected: set<Uuid>, chosen: Option<Uuid>, spare: Uuid) returns (r: ModerationResult)
      requires Valid() && spare !in groups && |selected| >= 2
      modifies this`groups, this`member, this`separations, this`candidates
      ensures Valid()
      ensures (Tables(), r) == MergeStep(catalog, old(Tables()), selected, chosen, spare)
    {
      ghost var s := Tables();
      var gids := set a | a in selected && a in member :: member[a];
      var articles := selected + set a | a in member && member[a] in gids;
      UnionOfGroups(catalog, s, selected);
      MergeKeepsInv(catalog, s, selected, chosen, spare);
      var refused, manual := RefuseMerge(articles, gids, chosen);
      if refused { return Conflict; }
      if !(selected <= catalog.articles.Keys) { return TransactionFailed; }
      var gid, primary := MergeComponents(selected, articles, gids, manual, chosen, spare);
      MarkMerged(articles);
      MergeEffect(catalog, s, selected, chosen, spare, gid, Tables());
      r := Changed(Some(gid), Some(primary));
    }

    method MergeComponents(selected: set<Uuid>, articles: set<Uuid>, gids: set<Uuid>, manual: set<Uuid>,
                           chosen: Option<Uuid>, spare: Uuid) returns (gid: Uuid, primary: Uuid)
      requires Valid() && spare !in groups && selected != {} && selected <= catalog.articles.Keys
      requires articles == UnionOfComponents(Tables(), selected) && gids == GroupsOf(Tables(), selected)
      requires manual == ManualPrimaries(Tables(), articles)
      requires if chosen.None? then !ManualConflict(Tables(), articles) else chosen.value in articles
      modifies this`groups, this`member
      ensures var s := old(Tables());
              && gid == SurvivingGroup(s, articles, spare)
              && member == UnitedMembership(s, articles, gid)
              && groups == Unite(s, articles, gid, MergeHead(catalog, s, selected, chosen)).groups
              && primary == MergeHead(catalog, s, selected, chosen).primary
    {
      ghost var s := Tables();
      ghost var group := MergeHead(catalog, s, selected, chosen);
      UnionOfGroups(catalog, s, selected);
      gid := Reassign(selected, articles, gids, spare);
      ReassignedMembers(catalog, s, articles, gids, gid, Tables(), group);
      primary := HeadMerged(gid, articles, manual, chosen, group);
    }

    /** Forgets separations inside the merged Articles and marks their candidates. */
    method MarkMerged(articles: set<Uuid>)
      modifies this`separations, this`candidates
      ensures separations == set q | q in old(separations) && !Within(q, articles)
      ensures candidates == map q | q in old(candidates) ::
                if Within(q, articles) then old(candidates)[q].(state := Merged) else old(candidates)[q]
    {
      separations := set q | q in separations && !(q.low in articles && q.high in articles);
      candidates := map q | q in candidates ::
        if q.low in articles && q.high in articles then candidates[q].(state := Merged) else candidates[q];
    }

    /** The choice that heads the merged group. */
    method HeadMerged(gid: Uuid, ghost articles: set<Uuid>, manual: set<Uuid>, chosen: Option<Uuid>, ghost group: Group)
      returns (primary: Uuid)
      requires catalog.Valid() && MembershipsSound(catalog, Tables()) && gid in groups
      requires Members(Tables(), gid) == articles && articles != {} && articles <= catalog.articles.Keys
      requires chosen.Some? ==> group == Group(chosen.value, Manual)
      requires chosen.None? && |manual| == 1 ==> group.origin == Manual && manual == {group.primary}
      requires chosen.None? && |manual| != 1 ==>
                 group == Group(LeastOf(catalog, articles), Automatic) && groups[gid].origin == Automatic
      modifies this`groups
      ensures primary == group.primary && groups == old(groups)[gid := group]
    {
      if chosen.Some? || |manual| == 1 {
        if chosen.Some? {
          primary := chosen.value;
        } else {
          primary :| primary in manual;
        }
        groups := groups[gid := Group(primary, Manual)];
      } else {
        primary := ReselectPrimary(gid);
      }
    }

    method ChooseDuplicatePrimary(gid: Uuid, a: Uuid) returns (r: ModerationResult)
      requires Valid()
      modifies this`groups
      ensures Valid()
      ensures (Tables(), r) == ChooseStep(old(Tables()), gid, a)
    {
      ChooseKeepsInv(catalog, Tables(), gid, a);
      if gid !in groups { return NotFound; }
      if !(a in member && member[a] == gid) { return Conflict; }
      if groups[gid].primary == a && groups[gid].origin == Manual { return NoOp; }
      groups := groups[gid := Group(a, Manual)];
      r := Changed(Some(gid), Some(a));
    }

    method DismissDuplicateReview(p: Pair) returns (r: ModerationResult)
      requires Valid()
      modifies this`candidates
      ensures Valid()
      ensures (Tables(), r) == DismissStep(old(Tables()), p)
    {
      DismissKeepsInv(catalog, Tables(), p);
      if p !in candidates { return NotFound; }
      if candidates[p].state == Dismissed { return NoOp; }
      if candidates[p].state != Pending { return Conflict; }
      candidates := candidates[p := candidates[p].(state := Dismissed)];
      r := Changed(None, None);
    }

    /** The deferred constraint that a group's Primary is one of its members. */
    predicate PrimariesAreMembers()
      reads this
    {
      forall g | g in groups :: groups[g].primary in member && member[groups[g].primary] == g
    }

    method SplitDuplicateGroup(gid: Uuid, ids: set<Uuid>) returns (r: ModerationResult)
      requires Valid()
      modifies this`groups, this`member, this`separations, this`candidates
      ensures Valid()
      ensures (Tables(), r) == SplitStep(catalog, old(Tables()), gid, ids)
    {
      var before := Tables();
      SplitKeepsInv(catalog, before, gid, ids);
      if gid !in groups { return NotFound; }
      var members := set a | a in member && member[a] == gid;
      var removed := ids * members;
      if removed == {} { return Conflict; }
      var remaining := members - removed;
      RemoveMembers(gid, members, removed);
      SeparateRemoved(members, removed);
      SplitCommits(catalog, before, gid, removed, Tables());
      SplitEffect(catalog, before, gid, ids, Tables());
      if !PrimariesAreMembers() {
        groups, member, separations, candidates := before.groups, before.member, before.separations, before.candidates;
        return TransactionFailed;
      }
      r := Changed(if |remaining| >= 2 then Some(gid) else None, None);
    }

    /** Records the separations and dismisses the merged candidates of the removed members. */
    method SeparateRemoved(members: set<Uuid>, removed: set<Uuid>)
      requires removed <= members
      modifies this`separations, this`candidates
      ensures separations == old(separations) + PairsOf(removed, members)
      ensures candidates == map q | q in old(candidates) ::
                if old(candidates)[q].state == Merged &&
                   ((q.low in removed && q.high in members) || (q.high in removed && q.low in members))
                then old(candidates)[q].(state := Dismissed) else old(candidates)[q]
    {
      var pairs := FormerlyTogetherPairs(removed, members - removed);
      assert removed + (members - removed) == members;
      separations := separations + pairs;
      candidates := map q | q in candidates ::
        if candidates[q].state == Merged &&
           ((q.low in removed && q.high in members) || (q.high in removed && q.low in members))
        then candidates[q].(state := Dismissed) else candidates[q];
    }

    method RemoveMembers(gid: Uuid, members: set<Uuid>, removed: set<Uuid>)
      requires catalog.Valid() && MembershipsSound(catalog, Tables()) && gid in groups
      requires members == Members(Tables(), gid) && removed <= members
      modifies this`groups, this`member
      ensures var kept := |members - removed| >= 2;
              && member == old(member) - (if kept then removed else members)
              && groups == if !kept then old(groups) - {gid}
                           else if old(groups)[gid].origin == Manual && old(groups)[gid].primary in removed
                           then old(groups)[gid := Group(LeastOf(catalog, members - removed), Manual)]
                           else old(groups)
    {
      var remaining := members - removed;
      member := member - removed;
      if |remaining| < 2 {
        member := map a | a in member && member[a] != gid :: member[a];
        groups := groups - {gid};
      } else if groups[gid].origin == Manual && groups[gid].primary in removed {
        assert Members(Tables(), gid) == remaining;
        var primary := ReselectPrimary(gid);
      }
    }

    /** Every pair of former members of which at least one was removed. */
    method FormerlyTogetherPairs(removed: set<Uuid>, remaining: set<Uuid>) returns (pairs: set<Pair>)
      requires removed !! remaining
      ensures pairs == PairsOf(removed, removed + remaining)
    {
      var all := Listed(removed + remaining);
      pairs := {};
      for i := 0 to |all|
        invariant forall q :: q in pairs <==> FromPositions(all, removed, q, i, i)
      {
        for j := i + 1 to |all|
          invariant forall q :: q in pairs <==> FromPositions(all, removed, q, i, j)
        {
          if all[i] in removed || all[j] in removed {
            pairs := pairs + {CanonicalPair(all[i], all[j])};
          }
        }
      }
      AllPositions(all, removed, removed + remaining, pairs);
    }

    static method Listed(ids: set<Uuid>) returns (all: seq<Uuid>)
      ensures forall a :: a in all <==> a in ids
      ensures forall i, j :: 0 <= i < j < |all| ==> all[i] != all[j]
    {
      var rest := ids;
      all := [];
      while rest != {}
        invariant forall a :: a in ids <==> a in rest || a in all
        invariant forall a :: a in all ==> a !in rest
        invariant forall i, j :: 0 <= i < j < |all| ==> all[i] != all[j]
        decreases rest
      {
        var a :| a in rest;
        all := all + [a];
        rest := rest - {a};
      }
    }
  }

  // ---------------------------------------------------------------------------
  // Merging

  ghost function InGroups(s: Rows, gids: set<Uuid>): set<Uuid> { set a | a in s.member && s.member[a] in gids }

  ghost function ManualPrimaries(s: Rows, articles: set<Uuid>): set<Uuid> {
    set g | g in GroupsOf(s, articles) && g in s.groups && s.groups[g].origin == Manual :: s.groups[g].primary
  }

  ghost predicate Reassigned(s: Rows, articles: set<Uuid>, gids: set<Uuid>, gid: Uuid,
                             membership: map<Uuid, Uuid>, table: map<Uuid, Group>) {
    && membership == UnitedMembership(s, articles, gid)
    && table.Keys == (s.groups.Keys - gids) + {gid}
    && (forall h | h in table && h in s.groups :: table[h] == s.groups[h])
    && (gid !in s.groups ==> table[gid].origin == Automatic)
  }

  lemma UnionOfGroups(c: Catalog, s: Rows, selected: set<Uuid>)
    requires MembershipsSound(c, s)
    ensures UnionOfComponents(s, selected) == selected + InGroups(s, GroupsOf(s, selected))
    ensures GroupsOf(s, UnionOfComponents(s, selected)) == GroupsOf(s, selected)
  {
    UnionClosed(c, s, selected);
    forall b | b in InGroups(s, GroupsOf(s, selected))
      ensures b in UnionOfComponents(s, selected)
    {
      var a :| a in selected && a in s.member && s.member[a] == s.member[b];
      assert Together(s, a, b);
    }
  }

  /** Two manual groups have two Primaries, so counting Primaries counts manual groups. */
  lemma ManualPrimariesCount(c: Catalog, s: Rows, articles: set<Uuid>)
    requires GroupsSound(s)
    ensures ManualConflict(s, articles) <==> |ManualPrimaries(s, articles)| > 1
    ensures ManualPrimaries(s, articles) == {} <==> forall g :: !HasManual(s, articles, g)
  {
    var manual := ManualPrimaries(s, articles);
    if ManualConflict(s, articles) {
      var g, h :| g != h && HasManual(s, articles, g) && HasManual(s, articles, h);
      PrimariesDiffer(s, g, h);
      SubsetCardinality({s.groups[g].primary, s.groups[h].primary}, manual);
    }
    if |manual| > 1 {
      var x :| x in manual;
      TwoMembers(manual, x);
      var y :| y in manual && y != x;
      var g :| HasManual(s, articles, g) && s.groups[g].primary == x;
      var h :| HasManual(s, articles, h) && s.groups[h].primary == y;
    }
    assert forall g | HasManual(s, articles, g) :: s.groups[g].primary in manual;
    if manual != {} {
      var x :| x in manual;
      var g :| HasManual(s, articles, g) && s.groups[g].primary == x;
    }
  }

  ghost function MergeHead(c: Catalog, s: Rows, selected: set<Uuid>, chosen: Option<Uuid>): (group: Group)
    requires Inv(c, s) && selected != {} && selected <= c.articles.Keys
    requires chosen.Some? || !ManualConflict(s, UnionOfComponents(s, selected))
    ensures UnionOfComponents(s, selected) <= c.articles.Keys && UnionOfComponents(s, selected) != {}
    ensures Closed(s, UnionOfComponents(s, selected))
    ensures var articles, manual := UnionOfComponents(s, selected), ManualPrimaries(s, UnionOfComponents(s, selected));
            && group == MergedGroup(c, s, articles, chosen)
            && (chosen.None? && |manual| == 1 ==> group.origin == Manual && manual == {group.primary})
            && (chosen.None? && |manual| != 1 ==>
                  group == Group(LeastOf(c, articles), Automatic) && forall g :: !HasManual(s, articles, g))
  {
    UnionClosed(c, s, selected);
    var articles := UnionOfComponents(s, selected);
    ManualPrimariesCount(c, s, articles);
    OneManualPrimary(s, articles, ManualPrimaries(s, articles));
    MergedGroup(c, s, articles, chosen)
  }

  lemma OneManualPrimary(s: Rows, articles: set<Uuid>, manual: set<Uuid>)
    requires manual == ManualPrimaries(s, articles)
    ensures |manual| == 1 ==> exists g :: HasManual(s, articles, g)
    ensures |manual| == 1 ==> forall g | HasManual(s, articles, g) :: manual == {s.groups[g].primary}
  {
    if |manual| == 1 {
      var x :| x in manual;
      var g :| HasManual(s, articles, g) && s.groups[g].primary == x;
      assert manual == {x} by {
        assert |manual - {x}| == 0;
      }
      assert forall h | HasManual(s, articles, h) :: s.groups[h].primary in manual;
    }
  }

  lemma ReassignedNew(s: Rows, selected: set<Uuid>, gid: Uuid, first: Uuid)
    requires GroupsOf(s, selected) == {} && gid !in s.groups
    ensures InGroups(s, {}) == {}
    ensures Reassigned(s, selected, {}, gid, s.member + (map a | a in selected :: gid), s.groups[gid := Group(first, Automatic)])
  {
    assert forall a | a in selected && a in s.member :: s.member[a] in GroupsOf(s, selected);
  }

  lemma ReassignedKept(s: Rows, selected: set<Uuid>, gids: set<Uuid>, gid: Uuid,
                       membership: map<Uuid, Uuid>, table: map<Uuid, Group>)
    requires gids == GroupsOf(s, selected) && gid in gids && gids <= s.groups.Keys
    requires table == s.groups - (gids - {gid})
    requires membership.Keys == s.member.Keys + selected
    requires forall a | a in membership ::
               membership[a] == if a !in s.member || s.member[a] in gids then gid else s.member[a]
    ensures Reassigned(s, selected + InGroups(s, gids), gids, gid, membership, table)
  {
    assert table.Keys == (s.groups.Keys - gids) + {gid};
    assert forall a | a in s.member && a in selected :: s.member[a] in gids;
  }

  lemma ReassignedMembers(c: Catalog, s: Rows, articles: set<Uuid>, gids: set<Uuid>, gid: Uuid, t: Rows, group: Group)
    requires MembershipsSound(c, s) && Closed(s, articles) && articles != {} && articles <= c.articles.Keys
    requires gids == GroupsOf(s, articles) && (gid in gids || gid !in s.groups)
    requires Reassigned(s, articles, gids, gid, t.member, t.groups)
    ensures MembershipsSound(c, t) && Members(t, gid) == articles && gid in t.groups
    ensures (forall g :: !HasManual(s, articles, g)) ==> t.groups[gid].origin == Automatic
    ensures t.groups[gid := group] == Unite(s, articles, gid, group).groups
  {
    HeadedMembers(c, s, articles, gid, t);
    if gid in s.groups && s.groups[gid].origin == Manual {
      assert HasManual(s, articles, gid);
    }
  }

  lemma MergeEffect(c: Catalog, s: Rows, selected: set<Uuid>, chosen: Option<Uuid>, spare: Uuid, gid: Uuid, t: Rows)
    requires Inv(c, s) && |selected| >= 2 && selected <= c.articles.Keys
    requires var articles := UnionOfComponents(s, selected);
             if chosen.None? then !ManualConflict(s, articles) else chosen.value in articles
    requires gid == SurvivingGroup(s, UnionOfComponents(s, selected), spare)
    requires t.member == UnitedMembership(s, UnionOfComponents(s, selected), gid)
    requires t.groups == Unite(s, UnionOfComponents(s, selected), gid, MergeHead(c, s, selected, chosen)).groups
    requires t.separations == set q | q in s.separations && !Within(q, UnionOfComponents(s, selected))
    requires t.candidates == map q | q in s.candidates ::
               if Within(q, UnionOfComponents(s, selected)) then s.candidates[q].(state := Merged) else s.candidates[q]
    ensures MergeStep(c, s, selected, chosen, spare) ==
            (t, Changed(Some(gid), Some(MergeHead(c, s, selected, chosen).primary)))
  {
  }

  // ---------------------------------------------------------------------------
  // Splitting

  ghost predicate FromPositions(all: seq<Uuid>, removed: set<Uuid>, q: Pair, i: nat, j: nat) {
    exists x, y :: 0 <= x < y < |all| && (x < i || (x == i && y < j)) && all[x] != all[y] &&
      (all[x] in removed || all[y] in removed) && q == CanonicalPair(all[x], all[y])
  }

  lemma AllPositions(all: seq<Uuid>, removed: set<Uuid>, members: set<Uuid>, pairs: set<Pair>)
    requires forall a :: a in all <==> a in members
    requires removed <= members
    requires forall q :: q in pairs <==> FromPositions(all, removed, q, |all|, |all|)
    ensures pairs == PairsOf(removed, members)
  {
    forall q | q in PairsOf(removed, members)
      ensures q in pairs
    {
      var a, b :| a in removed && b in members && a != b && q == CanonicalPair(a, b);
      var x :| 0 <= x < |all| && all[x] == a;
      var y :| 0 <= y < |all| && all[y] == b;
      assert q == CanonicalPair(all[if x < y then x else y], all[if x < y then y else x]);
      assert FromPositions(all, removed, q, |all|, |all|);
    }
    forall q | q in pairs
      ensures q in PairsOf(removed, members)
    {
      var x, y :| 0 <= x < y < |all| && all[x] != all[y] &&
        (all[x] in removed || all[y] in removed) && q == CanonicalPair(all[x], all[y]);
      assert q == CanonicalPair(all[y], all[x]);
    }
  }

  lemma SplitEffect(c: Catalog, s: Rows, gid: Uuid, ids: set<Uuid>, t: Rows)
    requires c.Valid() && MembershipsSound(c, s) && gid in s.groups && ids * Members(s, gid) != {}
    requires var members := Members(s, gid);
             var removed := ids * members;
             var kept := |members - removed| >= 2;
             && t.member == s.member - (if kept then removed else members)
             && t.groups == (if !kept then s.groups - {gid}
                             else if s.groups[gid].origin == Manual && s.groups[gid].primary in removed
                             then s.groups[gid := Group(LeastOf(c, members - removed), Manual)]
                             else s.groups)
             && t.separations == s.separations + PairsOf(removed, members)
             && t.candidates == map q | q in s.candidates ::
                  if s.candidates[q].state == Merged &&
                     ((q.low in removed && q.high in members) || (q.high in removed && q.low in members))
                  then s.candidates[q].(state := Dismissed) else s.candidates[q]
    ensures SplitStep(c, s, gid, ids) ==
            if SplitRefused(s, gid, ids * Members(s, gid)) then (s, TransactionFailed)
            else (t, Changed(if |Members(s, gid) - ids * Members(s, gid)| >= 2 then Some(gid) else None, None))
  {
  }

  /** The deferred constraint refuses exactly the splits that lose an automatic Primary. */
  lemma SplitCommits(c: Catalog, s: Rows, gid: Uuid, removed: set<Uuid>, t: Rows)
    requires c.Valid() && MembershipsSound(c, s) && GroupsSound(s) && gid in s.groups && removed <= Members(s, gid)
    requires var kept := |Members(s, gid) - removed| >= 2;
             && t.member == s.member - (if kept then removed else Members(s, gid))
             && t.groups == if !kept then s.groups - {gid}
                            else if s.groups[gid].origin == Manual && s.groups[gid].primary in removed
                            then s.groups[gid := Group(LeastOf(c, Members(s, gid) - removed), Manual)]
                            else s.groups
    ensures SplitRefused(s, gid, removed) <==>
              !forall g | g in t.groups :: t.groups[g].primary in t.member && t.member[t.groups[g].primary] == g
  {
    assert InGroup(s, s.groups[gid].primary, gid);
    forall g | g in t.groups && g != gid
      ensures InGroup(t, t.groups[g].primary, g)
    {
      assert InGroup(s, s.groups[g].primary, g);
    }
  }

  /** The random ids from position `first` on are distinct and name no group yet. */
  ghost predicate Unused(spares: seq<Uuid>, first: nat, known: set<Uuid>) {
    && (forall j | first <= j < |spares| :: spares[j] !in known)
    && (forall j, k | first <= j < k < |spares| :: spares[j] != spares[k])
  }

  lemma StillUnused(spares: seq<Uuid>, i: nat, known: set<Uuid>, later: set<Uuid>)
    requires i < |spares| && Unused(spares, i, known) && later <= known + {spares[i]}
    ensures Unused(spares, i + 1, later)
  {
  }

  /** What is left of the loop leads from here to the same end. */
  ghost predicate Remaining(c: Catalog, s: Rows, pairs: seq<Pair>, spares: seq<Uuid>, i: nat, t: Rows, n: nat)
    requires Inv(c, s) && Inv(c, t) && i <= |pairs| == |spares|
  {
    && GroupAll(c, s, pairs, spares).0 == GroupAll(c, t, pairs[i..], spares[i..]).0
    && GroupAll(c, s, pairs, spares).1 == n + GroupAll(c, t, pairs[i..], spares[i..]).1
  }

  lemma RemainingStep(c: Catalog, s: Rows, pairs: seq<Pair>, spares: seq<Uuid>, i: nat, t: Rows, n: nat)
    requires Inv(c, s) && Inv(c, t) && i < |pairs| == |spares| && spares[i] !in t.groups
    requires Remaining(c, s, pairs, spares, i, t, n)
    ensures var (t1, r) := GroupStep(c, t, pairs[i], spares[i]);
            Inv(c, t1) && Remaining(c, s, pairs, spares, i + 1, t1, n + r.DuplicateGroupedCount())
  {
    GroupStepKeepsInv(c, t, pairs[i], spares[i]);
    assert pairs[i..][1..] == pairs[i + 1..] && spares[i..][1..] == spares[i + 1..];
    assert pairs[i..][0] == pairs[i] && spares[i..][0] == spares[i];
  }

  ghost function UnitedBy(c: Catalog, s: Rows, p: Pair, spare: Uuid): (group: Group)
    requires Inv(c, s) && spare !in s.groups && p in s.candidates
    requires GroupJudged(c, s, p, spare, None).1.Grouped?
    ensures PairArticles(s, p) <= c.articles.Keys && PairArticles(s, p) != {}
    ensures group == UnitedGroup(c, s, PairArticles(s, p))
  {
    GroupedMeans(c, s, p, spare, None);
    UnitedGroup(c, s, PairArticles(s, p))
  }

  lemma CombinedIsJudged(c: Catalog, s: Rows, p: Pair, spare: Uuid, gid: Uuid, t: Rows)
    requires Inv(c, s) && spare !in s.groups && p in s.candidates
    requires GroupJudged(c, s, p, spare, None).1.Grouped?
    requires gid == SurvivingGroup(s, PairArticles(s, p), spare)
    requires t.member == UnitedMembership(s, PairArticles(s, p), gid)
    requires t.groups == Unite(s, PairArticles(s, p), gid, UnitedBy(c, s, p, spare)).groups
    requires t.separations == s.separations
    requires t.candidates == s.candidates[p := s.candidates[p].(state := Merged)]
    ensures GroupJudged(c, s, p, spare, None) ==
            (t, Grouped(gid, UnitedBy(c, s, p, spare).primary, !Together(s, p.low, p.high)))
    ensures t.groups.Keys <= s.groups.Keys + {spare}
  {
    GroupedMeans(c, s, p, spare, None);
    assert t == Combined(s, p, gid, UnitedBy(c, s, p, spare));
    ComponentClosed(c, s, p.low, p.high);
    assert gid in s.groups || gid == spare;
  }

  lemma PendingUnrefused(c: Catalog, s: Rows, p: Pair, spare: Uuid)
    requires Inv(c, s) && p in s.candidates && s.candidates[p].state == Pending
    requires TopologyRefusal(s, PairArticles(s, p)).None?
    ensures GroupJudged(c, s, p, spare, None).1.Grouped?
  {
  }

  // ---------------------------------------------------------------------------
  // The four ways of joining give one result

  /** The groups table once one group stands for all the groups of `articles`. */
  ghost predicate Headed(s: Rows, articles: set<Uuid>, gid: Uuid, table: map<Uuid, Group>) {
    && table.Keys == (s.groups.Keys - GroupsOf(s, articles)) + {gid}
    && (forall h | h in table && h != gid :: table[h] == s.groups[h])
    && ((exists g :: HasManual(s, articles, g)) ==> table[gid].origin == Manual)
    && (table[gid].origin == Manual ==>
          exists g :: HasManual(s, articles, g) && s.groups[g].primary == table[gid].primary)
  }

  ghost predicate JoinsPair(s: Rows, p: Pair, spare: Uuid, gid: Uuid,
                            membership: map<Uuid, Uuid>, table: map<Uuid, Group>) {
    && gid == SurvivingGroup(s, PairArticles(s, p), spare)
    && membership == UnitedMembership(s, PairArticles(s, p), gid)
    && Headed(s, PairArticles(s, p), gid, table)
  }

  lemma SurvivorIsLeast(s: Rows, articles: set<Uuid>, spare: Uuid, gid: Uuid)
    requires IsLeastId(gid, GroupsOf(s, articles))
    ensures gid == SurvivingGroup(s, articles, spare)
  {
  }

  lemma CreatedJoins(c: Catalog, s: Rows, p: Pair, spare: Uuid)
    requires MembershipsSound(c, s) && p.low in c.articles && p.high in c.articles
    requires p.low !in s.member && p.high !in s.member && spare !in s.groups
    ensures JoinsPair(s, p, spare, spare, s.member[p.low := spare][p.high := spare],
                      s.groups[spare := Group(p.low, Automatic)])
  {
    ComponentClosed(c, s, p.low, p.high);
    assert GroupsOf(s, PairArticles(s, p)) == {};
    assert PairArticles(s, p) == {p.low, p.high};
  }

  lemma ExtendedJoins(c: Catalog, s: Rows, p: Pair, spare: Uuid)
    requires MembershipsSound(c, s) && p.low in c.articles && p.high in c.articles
    requires (p.low in s.member) != (p.high in s.member)
    ensures var grouped, single := if p.low in s.member then p.low else p.high, if p.low in s.member then p.high else p.low;
            JoinsPair(s, p, spare, s.member[grouped], s.member[single := s.member[grouped]], s.groups)
  {
    var grouped := if p.low in s.member then p.low else p.high;
    var single := if p.low in s.member then p.high else p.low;
    ComponentClosed(c, s, p.low, p.high);
    var articles := PairArticles(s, p);
    assert GroupsOf(s, articles) == {s.member[grouped]};
    assert articles == Members(s, s.member[grouped]) + {single};
    SurvivorIsLeast(s, articles, spare, s.member[grouped]);
    OneGroupHeaded(s, articles, s.member[grouped]);
  }

  lemma OneGroupHeaded(s: Rows, articles: set<Uuid>, gid: Uuid)
    requires GroupsOf(s, articles) == {gid} && gid in s.groups
    ensures Headed(s, articles, gid, s.groups)
  {
    assert s.groups.Keys == (s.groups.Keys - {gid}) + {gid};
    if s.groups[gid].origin == Manual {
      assert HasManual(s, articles, gid);
    }
  }

  lemma KeptJoins(c: Catalog, s: Rows, p: Pair, spare: Uuid)
    requires MembershipsSound(c, s) && Together(s, p.low, p.high)
    ensures JoinsPair(s, p, spare, s.member[p.low], s.member, s.groups)
  {
    ComponentClosed(c, s, p.low, p.high);
    var articles := PairArticles(s, p);
    assert GroupsOf(s, articles) == {s.member[p.low]};
    assert articles == Members(s, s.member[p.low]);
    SurvivorIsLeast(s, articles, spare, s.member[p.low]);
    OneGroupHeaded(s, articles, s.member[p.low]);
  }

  lemma MergedJoins(c: Catalog, s: Rows, p: Pair, spare: Uuid, gid: Uuid, losing: Uuid, table: map<Uuid, Group>)
    requires MembershipsSound(c, s) && p.low in s.member && p.high in s.member && gid < losing
    requires {gid, losing} == {s.member[p.low], s.member[p.high]}
    requires table == DuplicateTopology.ManualRetained(s.groups, gid, losing) - {losing}
    ensures JoinsPair(s, p, spare, gid, map a | a in s.member :: if s.member[a] == losing then gid else s.member[a], table)
  {
    ComponentClosed(c, s, p.low, p.high);
    var articles := PairArticles(s, p);
    assert GroupsOf(s, articles) == {gid, losing};
    assert articles == Members(s, gid) + Members(s, losing);
    SurvivorIsLeast(s, articles, spare, gid);
    TwoGroupsHeaded(s, articles, gid, losing);
  }

  /** Two manual groups among the groups of a pair are the groups of its two Articles. */
  lemma ConflictOfTwo(c: Catalog, s: Rows, p: Pair)
    requires Inv(c, s) && p in s.candidates
    ensures ManualConflict(s, PairArticles(s, p)) <==>
              && p.low in s.member && p.high in s.member && s.member[p.low] != s.member[p.high]
              && s.groups[s.member[p.low]].origin == Manual && s.groups[s.member[p.high]].origin == Manual
              && s.groups[s.member[p.low]].primary != s.groups[s.member[p.high]].primary
  {
    ComponentClosed(c, s, p.low, p.high);
    if p.low in s.member && p.high in s.member && s.member[p.low] != s.member[p.high] {
      PrimariesDiffer(s, s.member[p.low], s.member[p.high]);
      if s.groups[s.member[p.low]].origin == Manual && s.groups[s.member[p.high]].origin == Manual {
        assert HasManual(s, PairArticles(s, p), s.member[p.low]);
        assert HasManual(s, PairArticles(s, p), s.member[p.high]);
      }
    }
  }

  /** The joined group holds exactly the Articles of both components, under a fitting head. */
  lemma JoinedMembers(c: Catalog, s: Rows, p: Pair, spare: Uuid, gid: Uuid, t: Rows)
    requires Inv(c, s) && spare !in s.groups && p in s.candidates
    requires JoinsPair(s, p, spare, gid, t.member, t.groups)
    requires GroupJudged(c, s, p, spare, None).1.Grouped?
    ensures MembershipsSound(c, t) && gid in t.groups && Members(t, gid) == PairArticles(s, p)
    ensures PairArticles(s, p) != {} && PairArticles(s, p) <= c.articles.Keys
    ensures t.groups[gid].origin == Manual ==>
              InGroup(t, t.groups[gid].primary, gid) && t.groups[gid] == UnitedGroup(c, s, PairArticles(s, p))
    ensures t.groups[gid].origin == Automatic ==>
              UnitedGroup(c, s, PairArticles(s, p)) == Group(LeastOf(c, PairArticles(s, p)), Automatic)
    ensures t.groups[gid := UnitedGroup(c, s, PairArticles(s, p))] ==
            Unite(s, PairArticles(s, p), gid, UnitedGroup(c, s, PairArticles(s, p))).groups
  {
    GroupedMeans(c, s, p, spare, None);
    ComponentClosed(c, s, p.low, p.high);
    HeadedMembers(c, s, PairArticles(s, p), gid, t);
    HeadedUnited(c, s, PairArticles(s, p), gid, t.groups);
  }

  lemma HeadedMembers(c: Catalog, s: Rows, articles: set<Uuid>, gid: Uuid, t: Rows)
    requires MembershipsSound(c, s) && Closed(s, articles) && articles <= c.articles.Keys
    requires gid in GroupsOf(s, articles) || gid !in s.groups
    requires t.member == UnitedMembership(s, articles, gid)
    requires t.groups.Keys == (s.groups.Keys - GroupsOf(s, articles)) + {gid}
    ensures MembershipsSound(c, t) && Members(t, gid) == articles
  {
    var group := Group(0, Automatic);
    GroupIdUnused(c, s, articles, gid);
    UniteMembers(s, articles, gid, group);
    UniteKeepsMemberships(c, s, articles, gid, group);
    assert Members(t, gid) == Members(Unite(s, articles, gid, group), gid);
    assert Unite(s, articles, gid, group).groups.Keys == t.groups.Keys;
  }

  lemma HeadedUnited(c: Catalog, s: Rows, articles: set<Uuid>, gid: Uuid, table: map<Uuid, Group>)
    requires c.Valid() && GroupsSound(s) && articles != {} && articles <= c.articles.Keys && Closed(s, articles)
    requires !ManualConflict(s, articles) && Headed(s, articles, gid, table)
    ensures var group := UnitedGroup(c, s, articles);
            && (table[gid].origin == Manual ==> group == table[gid] && table[gid].primary in articles)
            && (table[gid].origin == Automatic ==> group == Group(LeastOf(c, articles), Automatic))
            && table[gid := group] == Unite(s, articles, gid, group).groups
  {
    if table[gid].origin == Manual {
      var g :| HasManual(s, articles, g) && s.groups[g].primary == table[gid].primary;
      assert forall h :: HasManual(s, articles, h) ==> h == g;
      var a :| a in articles && a in s.member && s.member[a] == g;
      assert InGroup(s, s.groups[g].primary, g);
      assert Together(s, a, s.groups[g].primary);
    }
  }

  lemma TwoGroupsHeaded(s: Rows, articles: set<Uuid>, gid: Uuid, losing: Uuid)
    requires GroupsOf(s, articles) == {gid, losing} && gid in s.groups && losing in s.groups && gid != losing
    ensures Headed(s, articles, gid, DuplicateTopology.ManualRetained(s.groups, gid, losing) - {losing})
  {
    var table := DuplicateTopology.ManualRetained(s.groups, gid, losing) - {losing};
    assert table.Keys == (s.groups.Keys - {gid, losing}) + {gid};
    assert forall g :: HasManual(s, articles, g) <==> g in {gid, losing} && s.groups[g].origin == Manual;
    if s.groups[gid].origin == Manual {
      assert HasManual(s, articles, gid);
    } else if s.groups[losing].origin == Manual {
      assert HasManual(s, articles, losing);
    }
  }
}
