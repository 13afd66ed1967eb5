/**
  Duplicate groups, manual separations and review candidates, with the state change of each
  command as a function (src/deduplication/grouping.ts, moderation.ts and repository.ts).

  The memberships table is a map because (article_id) is unique
  (migrations/0012_duplicate_persistence_foundation.sql:82-89).
 */
module Topology {
  import opened Prelude
  import opened Evidence
  import opened Primary

  datatype Origin = Automatic | Manual

  datatype Group = Group(primary: Uuid, origin: Origin)

  datatype CandidateState = Pending | Dismissed | Merged | Superseded

  datatype StoredEvidence = StoredEvidence(confidence: nat, fingerprint: string, signals: seq<Signal>)

  datatype Candidate = Candidate(state: CandidateState, evidence: StoredEvidence)

  datatype Rows = Rows(
    groups: map<Uuid, Group>,
    member: map<Uuid, Uuid>,
    separations: set<Pair>,
    candidates: map<Pair, Candidate>)

  datatype NoopReason =
    | CandidateNotFound | CandidateNotActionable | StaleEvidence | SameSource
    | ManualSeparation | ManualPrimaryConflict

  datatype GroupingResult =
    | NotActionable(reason: NoopReason)
    | AlreadyMerged(groupId: Uuid, primary: Uuid)
    | Grouped(groupId: Uuid, primary: Uuid, topologyChanged: bool)
    | GroupingFailed
  {
    function DuplicateGroupedCount(): nat { if Grouped? && topologyChanged then 1 else 0 }
  }

  datatype ModerationResult =
    | Changed(groupId: Option<Uuid>, primary: Option<Uuid>)
    | NoOp | Conflict | NotFound | TransactionFailed

  // ---------------------------------------------------------------------------
  // Membership

  ghost predicate InGroup(s: Rows, a: Uuid, g: Uuid) { a in s.member && s.member[a] == g }

  ghost predicate Together(s: Rows, a: Uuid, b: Uuid) {
    a in s.member && b in s.member && s.member[a] == s.member[b]
  }

  ghost function Members(s: Rows, g: Uuid): set<Uuid> { set a | a in s.member && s.member[a] == g }

  /** An Article with everything grouped with it. */
  ghost function Component(s: Rows, a: Uuid): set<Uuid> {
    if a in s.member then Members(s, s.member[a]) else {a}
  }

  ghost function GroupsOf(s: Rows, articles: set<Uuid>): set<Uuid> {
    set a | a in articles && a in s.member :: s.member[a]
  }

  /** No group is partly inside `articles`. */
  ghost predicate Closed(s: Rows, articles: set<Uuid>) {
    forall a, b | a in articles && Together(s, a, b) :: b in articles
  }

  // ---------------------------------------------------------------------------
  // What every committed state satisfies

  ghost predicate MembershipsSound(c: Catalog, s: Rows) {
    forall a | a in s.member :: a in c.articles && s.member[a] in s.groups
  }

  /** The Primary is a member and is not alone. */
  ghost predicate GroupsSound(s: Rows) {
    forall g | g in s.groups ::
      InGroup(s, s.groups[g].primary, g) &&
      exists b :: b != s.groups[g].primary && InGroup(s, b, g)
  }

  /** Kept only while Articles and priorities do not change; not part of `Inv`. */
  ghost predicate AutomaticPrimariesLeast(c: Catalog, s: Rows)
    requires c.Valid() && MembershipsSound(c, s)
  {
    forall g | g in s.groups && s.groups[g].origin == Automatic ::
      IsLeast(c, s.groups[g].primary, Members(s, g))
  }

  ghost predicate SeparationsKept(s: Rows) {
    forall p | p in s.separations :: !Together(s, p.low, p.high)
  }

  ghost predicate MergedTogether(s: Rows) {
    forall p | p in s.candidates && s.candidates[p].state == Merged :: Together(s, p.low, p.high)
  }

  ghost predicate PairsSound(c: Catalog, s: Rows) {
    && (forall p | p in s.candidates :: p.low < p.high && p.low in c.articles && p.high in c.articles)
    && (forall p | p in s.separations :: p.low < p.high)
  }

  ghost predicate Inv(c: Catalog, s: Rows) {
    && c.Valid() && MembershipsSound(c, s) && GroupsSound(s)
    && SeparationsKept(s) && MergedTogether(s) && PairsSound(c, s)
  }

  const Empty := Rows(map[], map[], {}, map[])

  // ---------------------------------------------------------------------------
  // Making one group of several components

  ghost function LeastId(ids: set<Uuid>): (g: Uuid)
    requires ids != {}
    ensures IsLeastId(g, ids)
  {
    LeastIdExists(ids);
    var g :| IsLeastId(g, ids);
    g
  }

  ghost predicate IsLeastId(g: Uuid, ids: set<Uuid>) { g in ids && forall h | h in ids :: g <= h }

  lemma {:induction false} LeastIdExists(ids: set<Uuid>)
    requires ids != {}
    ensures exists g :: IsLeastId(g, ids)
  {
    var x :| x in ids;
    if ids == {x} {
      assert IsLeastId(x, ids);
    } else {
      LeastIdExists(ids - {x});
      var y :| IsLeastId(y, ids - {x});
      assert forall h | h in ids :: h == x || h in ids - {x};
      assert IsLeastId(if x < y then x else y, ids);
    }
  }

  ghost function SurvivingGroup(s: Rows, articles: set<Uuid>, spare: Uuid): Uuid {
    if GroupsOf(s, articles) == {} then spare else LeastId(GroupsOf(s, articles))
  }

  ghost predicate HasManual(s: Rows, articles: set<Uuid>, g: Uuid) {
    g in GroupsOf(s, articles) && g in s.groups && s.groups[g].origin == Manual
  }

  ghost predicate ManualConflict(s: Rows, articles: set<Uuid>) {
    exists g, h :: g != h && HasManual(s, articles, g) && HasManual(s, articles, h)
  }

  /** The only manual Primary among the groups, or else the least of all the Articles. */
  ghost function UnitedGroup(c: Catalog, s: Rows, articles: set<Uuid>): Group
    requires c.Valid() && articles <= c.articles.Keys && articles != {}
  {
    if exists g :: HasManual(s, articles, g) then
      var g :| HasManual(s, articles, g);
      Group(s.groups[g].primary, Manual)
    else
      Group(LeastOf(c, articles), Automatic)
  }

  ghost function UnitedMembership(s: Rows, articles: set<Uuid>, gid: Uuid): map<Uuid, Uuid> {
    map a | a in s.member.Keys + articles :: if a in articles then gid else s.member[a]
  }

  ghost function Unite(s: Rows, articles: set<Uuid>, gid: Uuid, group: Group): Rows {
    s.(member := UnitedMembership(s, articles, gid),
       groups := (map h | h in (s.groups.Keys - GroupsOf(s, articles)) + {gid} ::
                    if h == gid then group else s.groups[h]))
  }

  ghost predicate Untouched(s: Rows, s': Rows, h: Uuid) {
    h in s.groups && h in s'.groups && s'.groups[h] == s.groups[h] && Members(s', h) == Members(s, h)
  }

  ghost predicate OthersUntouched(s: Rows, s': Rows, gid: Uuid) {
    forall h {:trigger Untouched(s, s', h)} | h in s'.groups && h != gid :: Untouched(s, s', h)
  }

  ghost predicate Within(p: Pair, articles: set<Uuid>) { p.low in articles && p.high in articles }

  // ---------------------------------------------------------------------------
  // Commands

  function EvidenceColumns(e: DuplicateEvidence): StoredEvidence {
    StoredEvidence(e.confidence, e.fingerprint, e.signals)
  }

  /** The stored evidence is strong and is what the Articles show now. */
  predicate EvidenceCurrent(c: Catalog, stored: StoredEvidence, p: Pair)
    requires p.low in c.articles && p.high in c.articles
  {
    var first, second := c.articles[p.low], c.articles[p.high];
    && first.id != second.id
    && var evidence := EvaluateDuplicateEvidence(first, second);
       evidence.Some? && evidence.value.strength == Strong && stored == EvidenceColumns(evidence.value)
  }

  ghost function PairArticles(s: Rows, p: Pair): set<Uuid> { Component(s, p.low) + Component(s, p.high) }

  /** Why a pending, strong and current candidate may still not be grouped. */
  ghost function TopologyRefusal(s: Rows, articles: set<Uuid>): Option<NoopReason> {
    if exists q :: q in s.separations && Within(q, articles) then Some(ManualSeparation)
    else if ManualConflict(s, articles) then Some(ManualPrimaryConflict)
    else None
  }

  ghost function CandidateRefusal(c: Catalog, s: Rows, p: Pair): Option<NoopReason>
    requires c.Valid() && PairsSound(c, s)
  {
    if p !in s.candidates then Some(CandidateNotFound)
    else if s.candidates[p].state in {Dismissed, Superseded} then Some(CandidateNotActionable)
    else if c.articles[p.low].sourceId == c.articles[p.high].sourceId then Some(SameSource)
    else if !EvidenceCurrent(c, s.candidates[p].evidence, p) then Some(StaleEvidence)
    else None
  }

  /** What heads a group once its Primary was retained or reselected. */
  ghost function Retained(c: Catalog, s: Rows, g: Uuid): Group
    requires c.Valid() && Members(s, g) <= c.articles.Keys && Members(s, g) != {} && g in s.groups
  {
    var group := s.groups[g];
    if group.origin == Manual && InGroup(s, group.primary, g) then group
    else group.(primary := LeastOf(c, Members(s, g)))
  }

  /** The effect of a grouping once the candidate itself has been judged. */
  ghost function GroupJudged(c: Catalog, s: Rows, p: Pair, spare: Uuid, refusal: Option<NoopReason>)
    : (Rows, GroupingResult)
    requires c.Valid() && PairsSound(c, s) && MembershipsSound(c, s)
    requires refusal.None? ==> p in s.candidates
  {
    if refusal.Some? then (s, NotActionable(refusal.value))
    else if s.candidates[p].state == Merged then
      if !Together(s, p.low, p.high) then (s, GroupingFailed) else
      var gid := s.member[p.low];
      assert p.low in Members(s, gid);
      var group := Retained(c, s, gid);
      (s.(groups := s.groups[gid := group]), AlreadyMerged(gid, group.primary))
    else
      var articles := PairArticles(s, p);
      var topologyRefusal := TopologyRefusal(s, articles);
      if topologyRefusal.Some? then (s, NotActionable(topologyRefusal.value))
      else
        ComponentClosed(c, s, p.low, p.high);
        var gid, group := SurvivingGroup(s, articles, spare), UnitedGroup(c, s, articles);
        (Unite(s, articles, gid, group).(candidates := s.candidates[p := s.candidates[p].(state := Merged)]),
         Grouped(gid, group.primary, !Together(s, p.low, p.high)))
  }

  /** One automatic grouping of a review candidate. */
  ghost function GroupStep(c: Catalog, s: Rows, p: Pair, spare: Uuid): (Rows, GroupingResult)
    requires c.Valid() && PairsSound(c, s) && MembershipsSound(c, s)
  {
    GroupJudged(c, s, p, spare, CandidateRefusal(c, s, p))
  }

  ghost function UnionOfComponents(s: Rows, selected: set<Uuid>): set<Uuid> {
    selected + set a, b | a in selected && b in s.member && Together(s, a, b) :: b
  }

  ghost function MergedGroup(c: Catalog, s: Rows, articles: set<Uuid>, chosen: Option<Uuid>): Group
    requires c.Valid() && articles <= c.articles.Keys && articles != {}
  {
    if chosen.Some? then Group(chosen.value, Manual) else UnitedGroup(c, s, articles)
  }

  /** A manual merge of at least two Articles, with their groups. */
  ghost function MergeStep(c: Catalog, s: Rows, selected: set<Uuid>, chosen: Option<Uuid>, spare: Uuid)
    : (Rows, ModerationResult)
    requires c.Valid() && MembershipsSound(c, s) && |selected| >= 2
  {
    var articles := UnionOfComponents(s, selected);
    if chosen.None? && ManualConflict(s, articles) then (s, Conflict) else
    if chosen.Some? && chosen.value !in articles then (s, Conflict) else
    if !(selected <= c.articles.Keys) then (s, TransactionFailed) else
    UnionClosed(c, s, selected);
    var gid, group := SurvivingGroup(s, articles, spare), MergedGroup(c, s, articles, chosen);
    (Unite(s, articles, gid, group).(
       separations := (set q | q in s.separations && !Within(q, articles)),
       candidates := (map q | q in s.candidates ::
                        if Within(q, articles) then s.candidates[q].(state := Merged) else s.candidates[q])),
     Changed(Some(gid), Some(group.primary)))
  }

  ghost function PairsOf(removed: set<Uuid>, members: set<Uuid>): set<Pair> {
    set a, b | a in removed && b in members && a != b :: CanonicalPair(a, b)
  }

  /**
    The deferred foreign key on (id, primary_article_id) refuses the commit exactly here
    (migrations/0012_duplicate_persistence_foundation.sql:94-98).
   */
  ghost predicate SplitRefused(s: Rows, gid: Uuid, removed: set<Uuid>)
    requires gid in s.groups
  {
    && s.groups[gid].origin == Automatic
    && s.groups[gid].primary in removed
    && |Members(s, gid) - removed| >= 2
  }

  ghost function SplitStep(c: Catalog, s: Rows, gid: Uuid, ids: set<Uuid>): (Rows, ModerationResult)
    requires c.Valid() && MembershipsSound(c, s)
  {
    if gid !in s.groups then (s, NotFound) else
    var members := Members(s, gid);
    var removed := ids * members;
    if removed == {} then (s, Conflict) else
    if SplitRefused(s, gid, removed) then (s, TransactionFailed) else
    var remaining := members - removed;
    var kept := |remaining| >= 2;
    var s' := s.(
      separations := s.separations + PairsOf(removed, members),
      candidates := (map q | q in s.candidates ::
                       if s.candidates[q].state == Merged &&
                          ((q.low in removed && q.high in members) || (q.high in removed && q.low in members))
                       then s.candidates[q].(state := Dismissed) else s.candidates[q]),
      member := s.member - (if kept then removed else members),
      groups := if !kept then s.groups - {gid}
                else if s.groups[gid].primary in removed
                then s.groups[gid := Group(LeastOf(c, remaining), Manual)]
                else s.groups);
    (s', Changed(if kept then Some(gid) else None, None))
  }

  ghost function ChooseStep(s: Rows, gid: Uuid, a: Uuid): (Rows, ModerationResult) {
    if gid !in s.groups then (s, NotFound) else
    if !InGroup(s, a, gid) then (s, Conflict) else
    if s.groups[gid] == Group(a, Manual) then (s, NoOp) else
    (s.(groups := s.groups[gid := Group(a, Manual)]), Changed(Some(gid), Some(a)))
  }

  ghost function DismissStep(s: Rows, p: Pair): (Rows, ModerationResult) {
    if p !in s.candidates then (s, NotFound) else
    if s.candidates[p].state == Dismissed then (s, NoOp) else
    if s.candidates[p].state != Pending then (s, Conflict) else
    (s.(candidates := s.candidates[p := s.candidates[p].(state := Dismissed)]), Changed(None, None))
  }

  /** The stored candidate after its evidence is persisted. */
  function Upsert(existing: Option<Candidate>, e: DuplicateEvidence): Candidate {
    if existing.None? then Candidate(Pending, EvidenceColumns(e))
    else if existing.value.state == Superseded || existing.value.evidence.fingerprint == e.fingerprint
    then existing.value
    else Candidate(if existing.value.state == Dismissed then Pending else existing.value.state, EvidenceColumns(e))
  }

  function Stored(candidates: map<Pair, Candidate>, p: Pair): Option<Candidate> {
    if p in candidates then Some(candidates[p]) else None
  }

  ghost function DetectPairStep(c: Catalog, s: Rows, a: Uuid, b: Uuid): Rows
    requires c.Valid()
  {
    if a in c.articles && b in c.articles && a != b then
      var e := EvaluateDuplicateEvidence(c.articles[a], c.articles[b]);
      if e.None? then s
      else s.(candidates := s.candidates[e.value.pair := Upsert(Stored(s.candidates, e.value.pair), e.value)])
    else s
  }

  // ---------------------------------------------------------------------------
  // Facts about uniting components

  lemma UniteMembers(s: Rows, articles: set<Uuid>, gid: Uuid, group: Group)
    requires Closed(s, articles)
    requires gid in s.member.Values ==> gid in GroupsOf(s, articles)
    ensures var s' := Unite(s, articles, gid, group);
            && Members(s', gid) == articles
            && (forall h | h != gid && h !in GroupsOf(s, articles) :: Members(s', h) == Members(s, h))
            && (forall x, y :: Together(s', x, y) <==> Together(s, x, y) || (x in articles && y in articles))
  {
    var s' := Unite(s, articles, gid, group);
    forall a | a in s.member && s.member[a] in GroupsOf(s, articles)
      ensures a in articles
    {
      var b :| b in articles && b in s.member && s.member[b] == s.member[a];
      assert Together(s, b, a);
    }
    assert forall a | a in s'.member :: s'.member[a] == gid <==> a in articles;
    assert forall a | a in s.member && a !in articles :: s'.member[a] == s.member[a];
    forall x, y
      ensures Together(s', x, y) <==> Together(s, x, y) || (x in articles && y in articles)
    {
      if Together(s, x, y) {
        assert Together(s, y, x);
        assert x in articles <==> y in articles;
      }
    }
  }

  ghost predicate Unitable(c: Catalog, s: Rows, articles: set<Uuid>, gid: Uuid, group: Group) {
    && Inv(c, s) && Closed(s, articles) && articles <= c.articles.Keys
    && (gid in GroupsOf(s, articles) || gid !in s.groups)
    && group.primary in articles
    && (exists b :: b in articles && b != group.primary)
    && (group.origin == Automatic ==> IsLeast(c, group.primary, articles))
  }

  lemma UniteKeepsMemberships(c: Catalog, s: Rows, articles: set<Uuid>, gid: Uuid, group: Group)
    requires MembershipsSound(c, s) && Closed(s, articles) && articles <= c.articles.Keys
    ensures MembershipsSound(c, Unite(s, articles, gid, group))
  {
    forall a | a in s.member && a !in articles
      ensures s.member[a] !in GroupsOf(s, articles)
    {
      if s.member[a] in GroupsOf(s, articles) {
        var d :| d in articles && d in s.member && s.member[d] == s.member[a];
        assert Together(s, d, a);
      }
    }
  }

  lemma GroupIdUnused(c: Catalog, s: Rows, articles: set<Uuid>, gid: Uuid)
    requires MembershipsSound(c, s) && (gid in GroupsOf(s, articles) || gid !in s.groups)
    ensures gid in s.member.Values ==> gid in GroupsOf(s, articles)
  {
  }

  lemma UniteKeepsGroups(c: Catalog, s: Rows, articles: set<Uuid>, gid: Uuid, group: Group)
    requires MembershipsSound(c, s) && GroupsSound(s) && Closed(s, articles)
    requires gid in GroupsOf(s, articles) || gid !in s.groups
    requires group.primary in articles && exists b :: b in articles && b != group.primary
    ensures GroupsSound(Unite(s, articles, gid, group))
  {
    var s' := Unite(s, articles, gid, group);
    GroupIdUnused(c, s, articles, gid);
    UniteMembers(s, articles, gid, group);
    var b :| b in articles && b != group.primary;
    assert InGroup(s', b, gid) && InGroup(s', group.primary, gid);
    forall h | h in s'.groups && h != gid
      ensures InGroup(s', s'.groups[h].primary, h)
      ensures exists x :: x != s'.groups[h].primary && InGroup(s', x, h)
    {
      assert Members(s', h) == Members(s, h);
      assert InGroup(s, s.groups[h].primary, h);
      assert s.groups[h].primary in Members(s', h);
      var x :| x != s.groups[h].primary && InGroup(s, x, h);
      assert x in Members(s', h);
      assert InGroup(s', x, h);
    }
  }

  /** The united group has the given head, and every other group is as it was. */
  lemma UniteHeads(c: Catalog, s: Rows, articles: set<Uuid>, gid: Uuid, group: Group, s': Rows)
    requires MembershipsSound(c, s) && Closed(s, articles) && articles <= c.articles.Keys
    requires gid in GroupsOf(s, articles) || gid !in s.groups
    requires s'.groups == Unite(s, articles, gid, group).groups && s'.member == Unite(s, articles, gid, group).member
    ensures MembershipsSound(c, s')
    ensures gid in s'.groups && s'.groups[gid] == group && Members(s', gid) == articles
    ensures OthersUntouched(s, s', gid)
  {
    var u := Unite(s, articles, gid, group);
    GroupIdUnused(c, s, articles, gid);
    UniteMembers(s, articles, gid, group);
    UniteKeepsMemberships(c, s, articles, gid, group);
    assert s'.member == u.member && s'.groups == u.groups;
    assert Members(s', gid) == Members(u, gid);
    forall h | h in s'.groups && h != gid
      ensures Untouched(s, s', h)
    {
      assert Members(s', h) == Members(u, h);
    }
  }

  /** Any state with the united topology that adds no offending separation or merged pair. */
  lemma UniteKeepsInv(c: Catalog, s: Rows, articles: set<Uuid>, gid: Uuid, group: Group, s': Rows)
    requires Unitable(c, s, articles, gid, group)
    requires s'.groups == Unite(s, articles, gid, group).groups && s'.member == Unite(s, articles, gid, group).member
    requires s'.separations <= s.separations && forall q | q in s'.separations :: !Within(q, articles)
    requires s'.candidates.Keys == s.candidates.Keys
    requires forall q | q in s'.candidates && s'.candidates[q].state == Merged ::
               s.candidates[q].state == Merged || Within(q, articles)
    ensures Inv(c, s')
    ensures forall x, y :: Together(s', x, y) <==> Together(s, x, y) || (x in articles && y in articles)
  {
    var u := Unite(s, articles, gid, group);
    UniteKeepsGroups(c, s, articles, gid, group);
    UniteKeepsMemberships(c, s, articles, gid, group);
    SameTopology(c, u, s');
    GroupIdUnused(c, s, articles, gid);
    UniteMembers(s, articles, gid, group);
  }

  lemma ComponentClosed(c: Catalog, s: Rows, a: Uuid, b: Uuid)
    requires MembershipsSound(c, s) && a in c.articles && b in c.articles
    ensures var articles := Component(s, a) + Component(s, b);
            && Closed(s, articles) && articles <= c.articles.Keys && a in articles && b in articles
            && GroupsOf(s, articles) ==
               (if a in s.member then {s.member[a]} else {}) + (if b in s.member then {s.member[b]} else {})
  {
    var articles := Component(s, a) + Component(s, b);
    assert forall x | x in articles :: x == a || x == b || Together(s, a, x) || Together(s, b, x);
    assert forall g | g in GroupsOf(s, articles) :: InGroup(s, a, g) || InGroup(s, b, g);
    assert a in articles && b in articles;
  }

  lemma UnionClosed(c: Catalog, s: Rows, selected: set<Uuid>)
    requires MembershipsSound(c, s)
    ensures var articles := UnionOfComponents(s, selected);
            && Closed(s, articles) && selected <= articles
            && (selected <= c.articles.Keys ==> articles <= c.articles.Keys)
            && GroupsOf(s, articles) == GroupsOf(s, selected)
  {
    var articles := UnionOfComponents(s, selected);
    forall x, y | x in articles && Together(s, x, y)
      ensures y in articles
    {
      if x in selected {
        assert Together(s, x, y);
      } else {
        var a :| a in selected && Together(s, a, x);
        assert Together(s, a, y);
      }
    }
    forall g | g in GroupsOf(s, articles)
      ensures g in GroupsOf(s, selected)
    {
      var x :| x in articles && x in s.member && s.member[x] == g;
      if x !in selected {
        var a :| a in selected && Together(s, a, x);
      }
    }
  }

  lemma TwoMembers(articles: set<Uuid>, x: Uuid)
    requires |articles| >= 2
    ensures exists b :: b in articles && b != x
  {
    if forall b | b in articles :: b == x {
      assert articles <= {x};
      SubsetCardinality(articles, {x});
      assert false;
    }
  }

  lemma {:induction false} SubsetCardinality<T>(a: set<T>, b: set<T>)
    requires a <= b
    ensures |a| <= |b|
  {
    if a != {} {
      var x :| x in a;
      SubsetCardinality(a - {x}, b - {x});
    }
  }

  /** What `UnitedGroup` yields is fit to head the united group. */
  lemma UnitedGroupFits(c: Catalog, s: Rows, articles: set<Uuid>, spare: Uuid)
    requires Inv(c, s) && Closed(s, articles) && articles <= c.articles.Keys && |articles| >= 2
    requires spare !in s.groups
    ensures Unitable(c, s, articles, SurvivingGroup(s, articles, spare), UnitedGroup(c, s, articles))
  {
    var group := UnitedGroup(c, s, articles);
    if group.origin == Manual {
      var g :| HasManual(s, articles, g) && s.groups[g].primary == group.primary;
      var a :| a in articles && a in s.member && s.member[a] == g;
      assert Together(s, a, group.primary);
    }
    TwoMembers(articles, group.primary);
  }

  lemma PairHasTwo(c: Catalog, s: Rows, p: Pair)
    requires Inv(c, s) && p in s.candidates
    ensures |Component(s, p.low) + Component(s, p.high)| >= 2
  {
    ComponentClosed(c, s, p.low, p.high);
    assert {p.low, p.high} <= Component(s, p.low) + Component(s, p.high);
    SubsetCardinality({p.low, p.high}, Component(s, p.low) + Component(s, p.high));
  }

  // ---------------------------------------------------------------------------
  // Every command keeps the invariant

  /** The invariants of groups depend on groups and memberships only. */
  lemma SameTopology(c: Catalog, u: Rows, s: Rows)
    requires MembershipsSound(c, u) && GroupsSound(u)
    requires s.groups == u.groups && s.member == u.member
    ensures MembershipsSound(c, s) && GroupsSound(s)
    ensures forall x, y :: Together(s, x, y) <==> Together(u, x, y)
    ensures forall g :: Members(s, g) == Members(u, g)
  {
    forall g | g in s.groups
      ensures InGroup(s, s.groups[g].primary, g) && exists b :: b != s.groups[g].primary && InGroup(s, b, g)
    {
      var b :| b != u.groups[g].primary && InGroup(u, b, g);
      assert InGroup(s, b, g);
    }
    assert forall g :: Members(s, g) == Members(u, g);
  }

  /** Any member may head a group. */
  lemma HeadChangeKeepsInv(c: Catalog, s: Rows, g: Uuid, group: Group)
    requires Inv(c, s) && g in s.groups && InGroup(s, group.primary, g)
    ensures var s' := s.(groups := s.groups[g := group]);
            Inv(c, s') && forall h :: Members(s', h) == Members(s, h)
  {
    var s' := s.(groups := s.groups[g := group]);
    assert forall x, y :: Together(s', x, y) <==> Together(s, x, y);
    forall h | h in s'.groups
      ensures InGroup(s', s'.groups[h].primary, h) && exists b :: b != s'.groups[h].primary && InGroup(s', b, h)
    {
      assert InGroup(s, s.groups[h].primary, h);
      var b :| b != s.groups[h].primary && InGroup(s, b, h);
      var other := if s'.groups[h].primary == b then s.groups[h].primary else b;
      assert InGroup(s', other, h);
    }
  }

  /** What a merged candidate that is grouped again leaves behind. */
  lemma MergedMeans(c: Catalog, s: Rows, p: Pair, spare: Uuid)
    requires Inv(c, s) && p in s.candidates && s.candidates[p].state == Merged
    ensures Together(s, p.low, p.high) && s.member[p.low] in s.groups
    ensures var gid := s.member[p.low];
            && p.low in Members(s, gid) && Members(s, gid) <= c.articles.Keys
            && InGroup(s, Retained(c, s, gid).primary, gid)
            && GroupJudged(c, s, p, spare, None) ==
               (s.(groups := s.groups[gid := Retained(c, s, gid)]), AlreadyMerged(gid, Retained(c, s, gid).primary))
  {
    assert Together(s, p.low, p.high);
    var gid := s.member[p.low];
    assert p.low in Members(s, gid);
    assert Retained(c, s, gid).primary in Members(s, gid);
  }

  ghost function Combined(s: Rows, p: Pair, gid: Uuid, group: Group): Rows
    requires p in s.candidates
  {
    Unite(s, PairArticles(s, p), gid, group).(candidates := s.candidates[p := s.candidates[p].(state := Merged)])
  }

  lemma CombinedKeepsInv(c: Catalog, s: Rows, p: Pair, gid: Uuid, group: Group)
    requires p in s.candidates && Unitable(c, s, PairArticles(s, p), gid, group)
    requires Within(p, PairArticles(s, p))
    requires forall q | q in s.separations :: !Within(q, PairArticles(s, p))
    ensures Inv(c, Combined(s, p, gid, group))
    ensures forall x, y :: Together(Combined(s, p, gid, group), x, y) <==>
              Together(s, x, y) || (x in PairArticles(s, p) && y in PairArticles(s, p))
  {
    UniteKeepsInv(c, s, PairArticles(s, p), gid, group, Combined(s, p, gid, group));
  }

  /** What a candidate that is grouped tells about the state it is grouped in. */
  lemma GroupedMeans(c: Catalog, s: Rows, p: Pair, spare: Uuid, refusal: Option<NoopReason>)
    requires Inv(c, s) && spare !in s.groups && (refusal.None? ==> p in s.candidates)
    requires GroupJudged(c, s, p, spare, refusal).1.Grouped?
    ensures p in s.candidates && Within(p, PairArticles(s, p)) && PairArticles(s, p) <= c.articles.Keys
    ensures forall q | q in s.separations :: !Within(q, PairArticles(s, p))
    ensures !ManualConflict(s, PairArticles(s, p))
    ensures PairArticles(s, p) != {}
    ensures var gid, group := SurvivingGroup(s, PairArticles(s, p), spare), UnitedGroup(c, s, PairArticles(s, p));
            && Unitable(c, s, PairArticles(s, p), gid, group)
            && GroupJudged(c, s, p, spare, refusal) ==
               (Combined(s, p, gid, group), Grouped(gid, group.primary, !Together(s, p.low, p.high)))
  {
    ComponentClosed(c, s, p.low, p.high);
    PairHasTwo(c, s, p);
    UnitedGroupFits(c, s, PairArticles(s, p), spare);
  }

  lemma GroupKeepsInv(c: Catalog, s: Rows, p: Pair, spare: Uuid, refusal: Option<NoopReason>)
    requires Inv(c, s) && spare !in s.groups && (refusal.None? ==> p in s.candidates)
    ensures Inv(c, GroupJudged(c, s, p, spare, refusal).0)
    ensures !GroupJudged(c, s, p, spare, refusal).1.GroupingFailed?
  {
    var r := GroupJudged(c, s, p, spare, refusal).1;
    if r.Grouped? {
      GroupedMeans(c, s, p, spare, refusal);
      CombinedKeepsInv(c, s, p, SurvivingGroup(s, PairArticles(s, p), spare), UnitedGroup(c, s, PairArticles(s, p)));
    } else if refusal.None? && s.candidates[p].state == Merged {
      MergedMeans(c, s, p, spare);
      HeadChangeKeepsInv(c, s, s.member[p.low], Retained(c, s, s.member[p.low]));
    }
  }

  /** The group of an answer holds the pair under the answered Primary, every other group is untouched. */
  ghost predicate HeadsPair(c: Catalog, s: Rows, p: Pair, s': Rows, gid: Uuid, primary: Uuid)
    requires c.Valid()
  {
    && MembershipsSound(c, s')
    && InGroup(s', p.low, gid) && InGroup(s', p.high, gid) && gid in s'.groups && s'.groups[gid].primary == primary
    && (s'.groups[gid].origin == Automatic ==> IsLeast(c, primary, Members(s', gid)))
    && OthersUntouched(s, s', gid)
  }

  /** Whatever headed the groups before, the group just united or confirmed is headed as it should be now. */
  lemma GroupHeads(c: Catalog, s: Rows, p: Pair, spare: Uuid, refusal: Option<NoopReason>)
    requires Inv(c, s) && spare !in s.groups && (refusal.None? ==> p in s.candidates)
    ensures var (s', r) := GroupJudged(c, s, p, spare, refusal);
            && (r.Grouped? || r.AlreadyMerged? ==> HeadsPair(c, s, p, s', r.groupId, r.primary))
            && (r.NotActionable? ==> s' == s)
  {
    var (s', r) := GroupJudged(c, s, p, spare, refusal);
    if r.Grouped? {
      GroupedMeans(c, s, p, spare, refusal);
      var gid, group := SurvivingGroup(s, PairArticles(s, p), spare), UnitedGroup(c, s, PairArticles(s, p));
      UniteHeads(c, s, PairArticles(s, p), gid, group, s');
      assert p.low in Members(s', gid) && p.high in Members(s', gid);
    } else if r.AlreadyMerged? {
      MergedMeans(c, s, p, spare);
      HeadChangeKeepsInv(c, s, s.member[p.low], Retained(c, s, s.member[p.low]));
      assert forall h | h in s'.groups && h != s.member[p.low] :: Untouched(s, s', h);
    }
  }

  lemma OthersKeepLeast(c: Catalog, s: Rows, s': Rows, gid: Uuid)
    requires c.Valid() && MembershipsSound(c, s) && AutomaticPrimariesLeast(c, s) && MembershipsSound(c, s')
    requires OthersUntouched(s, s', gid)
    requires gid in s'.groups && s'.groups[gid].origin == Automatic ==> IsLeast(c, s'.groups[gid].primary, Members(s', gid))
    ensures AutomaticPrimariesLeast(c, s')
  {
    assert forall h | h in s'.groups && h != gid :: Untouched(s, s', h);
  }

  lemma GroupKeepsLeast(c: Catalog, s: Rows, p: Pair, spare: Uuid, refusal: Option<NoopReason>)
    requires Inv(c, s) && spare !in s.groups && (refusal.None? ==> p in s.candidates) && AutomaticPrimariesLeast(c, s)
    ensures var s' := GroupJudged(c, s, p, spare, refusal).0;
            MembershipsSound(c, s') && AutomaticPrimariesLeast(c, s')
  {
    var (s', r) := GroupJudged(c, s, p, spare, refusal);
    GroupHeads(c, s, p, spare, refusal);
    GroupKeepsInv(c, s, p, spare, refusal);
    if r.Grouped? || r.AlreadyMerged? {
      OthersKeepLeast(c, s, s', r.groupId);
    }
  }

  /** A merge that goes through unites what `MergedGroup` may head. */
  lemma MergeMeans(c: Catalog, s: Rows, selected: set<Uuid>, chosen: Option<Uuid>, spare: Uuid)
    requires Inv(c, s) && spare !in s.groups && |selected| >= 2 && MergeStep(c, s, selected, chosen, spare).1.Changed?
    ensures UnionOfComponents(s, selected) <= c.articles.Keys && UnionOfComponents(s, selected) != {}
    ensures var articles := UnionOfComponents(s, selected);
            Unitable(c, s, articles, SurvivingGroup(s, articles, spare), MergedGroup(c, s, articles, chosen))
  {
    var articles := UnionOfComponents(s, selected);
    UnionClosed(c, s, selected);
    SubsetCardinality(selected, articles);
    UnitedGroupFits(c, s, articles, spare);
    TwoMembers(articles, MergedGroup(c, s, articles, chosen).primary);
  }

  lemma MergeKeepsInv(c: Catalog, s: Rows, selected: set<Uuid>, chosen: Option<Uuid>, spare: Uuid)
    requires Inv(c, s) && spare !in s.groups && |selected| >= 2
    ensures Inv(c, MergeStep(c, s, selected, chosen, spare).0)
  {
    var (s', r) := MergeStep(c, s, selected, chosen, spare);
    if r.Changed? {
      MergeMeans(c, s, selected, chosen, spare);
      var articles := UnionOfComponents(s, selected);
      UniteKeepsInv(c, s, articles, SurvivingGroup(s, articles, spare), MergedGroup(c, s, articles, chosen), s');
    }
  }

  /** The merged group is exactly the union, headed as chosen or as it should be now; every other group is untouched. */
  lemma MergeHeads(c: Catalog, s: Rows, selected: set<Uuid>, chosen: Option<Uuid>, spare: Uuid)
    requires Inv(c, s) && spare !in s.groups && |selected| >= 2 && MergeStep(c, s, selected, chosen, spare).1.Changed?
    ensures var articles, gid := UnionOfComponents(s, selected), SurvivingGroup(s, UnionOfComponents(s, selected), spare);
            var s' := MergeStep(c, s, selected, chosen, spare).0;
            && MembershipsSound(c, s') && gid in s'.groups && Members(s', gid) == articles
            && (chosen.Some? ==> s'.groups[gid] == Group(chosen.value, Manual))
            && (s'.groups[gid].origin == Automatic ==> IsLeast(c, s'.groups[gid].primary, Members(s', gid)))
            && OthersUntouched(s, s', gid)
  {
    MergeMeans(c, s, selected, chosen, spare);
    var articles := UnionOfComponents(s, selected);
    UniteHeads(c, s, articles, SurvivingGroup(s, articles, spare), MergedGroup(c, s, articles, chosen),
               MergeStep(c, s, selected, chosen, spare).0);
  }

  lemma MergeKeepsLeast(c: Catalog, s: Rows, selected: set<Uuid>, chosen: Option<Uuid>, spare: Uuid)
    requires Inv(c, s) && spare !in s.groups && |selected| >= 2 && AutomaticPrimariesLeast(c, s)
    ensures var s' := MergeStep(c, s, selected, chosen, spare).0;
            MembershipsSound(c, s') && AutomaticPrimariesLeast(c, s')
  {
    var (s', r) := MergeStep(c, s, selected, chosen, spare);
    if r.Changed? {
      MergeHeads(c, s, selected, chosen, spare);
      OthersKeepLeast(c, s, s', SurvivingGroup(s, UnionOfComponents(s, selected), spare));
    }
  }
}
