/** What every sequence of duplicate commands keeps. */
module TopologyRuns {
  import opened Prelude
  import opened Evidence
  import opened Primary
  import opened Topology

  // ---------------------------------------------------------------------------
  // The remaining commands keep the invariant

  ghost predicate SplitApplies(s: Rows, gid: Uuid, ids: set<Uuid>) {
    && gid in s.groups
    && ids * Members(s, gid) != {}
    && !SplitRefused(s, gid, ids * Members(s, gid))
  }

  /** After a split exactly the remaining members, if at least two, are still together. */
  lemma SplitTogether(c: Catalog, s: Rows, gid: Uuid, ids: set<Uuid>)
    requires c.Valid() && MembershipsSound(c, s) && SplitApplies(s, gid, ids)
    ensures var s' := SplitStep(c, s, gid, ids).0;
            var remaining := Members(s, gid) - ids;
            && (forall h | h != gid :: Members(s', h) == Members(s, h))
            && Members(s', gid) == (if |remaining| >= 2 then remaining else {})
            && (forall x, y :: Together(s', x, y) <==>
                  Together(s, x, y) && (x in Members(s, gid) ==> x in remaining && y in remaining && |remaining| >= 2))
  {
    var members := Members(s, gid);
    var removed := ids * members;
    assert members - removed == members - ids;
    var s' := SplitStep(c, s, gid, ids).0;
    assert forall a | a in s.member && a !in members :: a in s'.member && s'.member[a] == s.member[a];
  }

  lemma SplitKeepsGroups(c: Catalog, s: Rows, gid: Uuid, ids: set<Uuid>)
    requires Inv(c, s) && SplitApplies(s, gid, ids)
    ensures MembershipsSound(c, SplitStep(c, s, gid, ids).0) && GroupsSound(SplitStep(c, s, gid, ids).0)
  {
    var s' := SplitStep(c, s, gid, ids).0;
    SplitTogether(c, s, gid, ids);
    var members := Members(s, gid);
    var remaining := members - ids;
    assert members - ids * members == remaining;
    forall h | h in s'.groups
      ensures InGroup(s', s'.groups[h].primary, h)
      ensures exists b :: b != s'.groups[h].primary && InGroup(s', b, h)
    {
      if h == gid {
        assert s.groups[gid].primary in members;
        assert s'.groups[h].primary in remaining;
        TwoMembers(remaining, s'.groups[h].primary);
        var b :| b in remaining && b != s'.groups[h].primary;
        assert b in Members(s', h) && s'.groups[h].primary in Members(s', h);
        assert InGroup(s', b, h);
      } else {
        assert s.groups[h].primary in Members(s', h);
        var b :| b != s.groups[h].primary && InGroup(s, b, h);
        assert b in Members(s', h);
        assert InGroup(s', b, h);
      }
    }
  }

  lemma SplitKeepsLeast(c: Catalog, s: Rows, gid: Uuid, ids: set<Uuid>)
    requires Inv(c, s) && AutomaticPrimariesLeast(c, s) && SplitApplies(s, gid, ids)
    requires MembershipsSound(c, SplitStep(c, s, gid, ids).0)
    ensures AutomaticPrimariesLeast(c, SplitStep(c, s, gid, ids).0)
  {
    var s' := SplitStep(c, s, gid, ids).0;
    SplitTogether(c, s, gid, ids);
    var members := Members(s, gid);
    var remaining := members - ids;
    assert members - ids * members == remaining;
    forall h | h in s'.groups && s'.groups[h].origin == Automatic
      ensures IsLeast(c, s'.groups[h].primary, Members(s', h))
    {
      assert s'.groups[h] == s.groups[h];
      if h == gid {
        assert s.groups[gid].primary in members;
        LeastOfSubset(c, s.groups[gid].primary, members, remaining);
      }
    }
  }

  lemma PairsOfContains(removed: set<Uuid>, members: set<Uuid>, q: Pair)
    requires q.low < q.high && removed <= members
    ensures q in PairsOf(removed, members) <==>
              q.low in members && q.high in members && (q.low in removed || q.high in removed)
  {
    if q.low in removed && q.high in members {
      assert q == CanonicalPair(q.low, q.high);
    } else if q.high in removed && q.low in members {
      assert q == CanonicalPair(q.high, q.low);
    }
  }

  lemma SplitKeepsSeparations(c: Catalog, s: Rows, gid: Uuid, ids: set<Uuid>)
    requires Inv(c, s) && SplitApplies(s, gid, ids)
    ensures SeparationsKept(SplitStep(c, s, gid, ids).0) && PairsSound(c, SplitStep(c, s, gid, ids).0)
  {
    var s' := SplitStep(c, s, gid, ids).0;
    SplitTogether(c, s, gid, ids);
    var members := Members(s, gid);
    var removed := ids * members;
    forall q | q in PairsOf(removed, members)
      ensures q.low < q.high && !Together(s', q.low, q.high)
    {
      PairsOfContains(removed, members, q);
    }
  }

  lemma SplitKeepsMerged(c: Catalog, s: Rows, gid: Uuid, ids: set<Uuid>)
    requires c.Valid() && MembershipsSound(c, s) && MergedTogether(s) && PairsSound(c, s) && SplitApplies(s, gid, ids)
    ensures MergedTogether(SplitStep(c, s, gid, ids).0)
  {
    var s' := SplitStep(c, s, gid, ids).0;
    SplitTogether(c, s, gid, ids);
    var remaining := Members(s, gid) - ids;
    forall q | q in s'.candidates && s'.candidates[q].state == Merged
      ensures Together(s', q.low, q.high)
    {
      assert Together(s, q.low, q.high);
      if q.low in Members(s, gid) {
        assert {q.low, q.high} <= remaining;
        SubsetCardinality({q.low, q.high}, remaining);
      }
    }
  }

  lemma SplitKeepsInv(c: Catalog, s: Rows, gid: Uuid, ids: set<Uuid>)
    requires Inv(c, s)
    ensures Inv(c, SplitStep(c, s, gid, ids).0)
  {
    if SplitApplies(s, gid, ids) {
      SplitKeepsGroups(c, s, gid, ids);
      SplitKeepsSeparations(c, s, gid, ids);
      SplitKeepsMerged(c, s, gid, ids);
    }
  }

  lemma ChooseKeepsInv(c: Catalog, s: Rows, gid: Uuid, a: Uuid)
    requires Inv(c, s)
    ensures Inv(c, ChooseStep(s, gid, a).0)
  {
    if ChooseStep(s, gid, a).1.Changed? {
      HeadChangeKeepsInv(c, s, gid, Group(a, Manual));
    }
  }

  lemma ChooseKeepsLeast(c: Catalog, s: Rows, gid: Uuid, a: Uuid)
    requires Inv(c, s) && AutomaticPrimariesLeast(c, s)
    ensures var s' := ChooseStep(s, gid, a).0;
            MembershipsSound(c, s') && AutomaticPrimariesLeast(c, s')
  {
    var s' := ChooseStep(s, gid, a).0;
    forall h | h in s'.groups && s'.groups[h].origin == Automatic
      ensures IsLeast(c, s'.groups[h].primary, Members(s', h))
    {
      assert s'.groups[h] == s.groups[h] && Members(s', h) == Members(s, h);
    }
  }

  /** A change of candidates alone that creates no merged pair. */
  lemma CandidatesKeepInv(c: Catalog, s: Rows, candidates: map<Pair, Candidate>)
    requires Inv(c, s)
    requires forall q | q in candidates :: q.low < q.high && q.low in c.articles && q.high in c.articles
    requires forall q | q in candidates && candidates[q].state == Merged ::
               q in s.candidates && s.candidates[q].state == Merged
    ensures Inv(c, s.(candidates := candidates))
  {
    SameTopology(c, s, s.(candidates := candidates));
  }

  lemma DismissKeepsInv(c: Catalog, s: Rows, p: Pair)
    requires Inv(c, s)
    ensures Inv(c, DismissStep(s, p).0)
  {
    var (s', r) := DismissStep(s, p);
    if r.Changed? {
      CandidatesKeepInv(c, s, s'.candidates);
    }
  }

  lemma UpsertKeepsInv(c: Catalog, s: Rows, e: DuplicateEvidence)
    requires Inv(c, s) && e.pair.low < e.pair.high && e.pair.low in c.articles && e.pair.high in c.articles
    ensures Inv(c, s.(candidates := s.candidates[e.pair := Upsert(Stored(s.candidates, e.pair), e)]))
  {
    CandidatesKeepInv(c, s, s.candidates[e.pair := Upsert(Stored(s.candidates, e.pair), e)]);
  }

  lemma DetectKeepsInv(c: Catalog, s: Rows, a: Uuid, b: Uuid)
    requires Inv(c, s)
    ensures Inv(c, DetectPairStep(c, s, a, b))
  {
    if a in c.articles && b in c.articles && a != b {
      var e := EvaluateDuplicateEvidence(c.articles[a], c.articles[b]);
      if e.Some? {
        UpsertKeepsInv(c, s, e.value);
      }
    }
  }

  // ---------------------------------------------------------------------------
  // Runs

  datatype Command =
    | Detect(a: Uuid, b: Uuid)
    | GroupPair(pair: Pair, spare: Uuid)
    | Merge(selected: set<Uuid>, chosen: Option<Uuid>, spare: Uuid)
    | Split(groupId: Uuid, ids: set<Uuid>)
    | Choose(groupId: Uuid, article: Uuid)
    | Dismiss(pair: Pair)

  lemma UnusedExists(used: set<Uuid>)
    ensures exists g: Uuid :: g !in used
  {
    var bound := UpperBound(used);
    assert bound !in used;
  }

  lemma {:induction false} UpperBound(used: set<Uuid>) returns (bound: Uuid)
    ensures forall g | g in used :: g < bound
  {
    if used == {} {
      bound := 0;
    } else {
      var x :| x in used;
      var b := UpperBound(used - {x});
      bound := if b <= x then x + 1 else b;
      assert forall g | g in used :: g == x || g in used - {x};
    }
  }

  /** A random identifier is never one in use. */
  ghost function UnusedId(s: Rows, spare: Uuid): (g: Uuid)
    ensures g !in s.groups
  {
    if spare !in s.groups then spare
    else
      UnusedExists(s.groups.Keys);
      var g: Uuid :| g !in s.groups;
      g
  }

  ghost function Apply(c: Catalog, s: Rows, command: Command): Rows
    requires c.Valid() && PairsSound(c, s) && MembershipsSound(c, s)
  {
    match command
    case Detect(a, b) => DetectPairStep(c, s, a, b)
    case GroupPair(p, spare) => GroupStep(c, s, p, UnusedId(s, spare)).0
    case Merge(selected, chosen, spare) =>
      if |selected| < 2 then s else MergeStep(c, s, selected, chosen, UnusedId(s, spare)).0
    case Split(gid, ids) => SplitStep(c, s, gid, ids).0
    case Choose(gid, a) => ChooseStep(s, gid, a).0
    case Dismiss(p) => DismissStep(s, p).0
  }

  lemma GroupStepKeepsInv(c: Catalog, s: Rows, p: Pair, spare: Uuid)
    requires Inv(c, s) && spare !in s.groups
    ensures Inv(c, GroupStep(c, s, p, spare).0)
  {
    GroupKeepsInv(c, s, p, spare, CandidateRefusal(c, s, p));
  }

  lemma ApplyKeepsInv(c: Catalog, s: Rows, command: Command)
    requires Inv(c, s)
    ensures Inv(c, Apply(c, s, command))
  {
    match command
    case Detect(a, b) => DetectKeepsInv(c, s, a, b);
    case GroupPair(p, spare) => GroupStepKeepsInv(c, s, p, UnusedId(s, spare));
    case Merge(selected, chosen, spare) =>
      if |selected| >= 2 {
        MergeKeepsInv(c, s, selected, chosen, UnusedId(s, spare));
      }
    case Split(gid, ids) => SplitKeepsInv(c, s, gid, ids);
    case Choose(gid, a) => ChooseKeepsInv(c, s, gid, a);
    case Dismiss(p) => DismissKeepsInv(c, s, p);
  }

  /** A command, and the Articles and priorities it finds. */
  datatype Step = Step(catalog: Catalog, command: Command)

  /** Articles are added and rewritten and priorities change, but no Article goes. */
  ghost predicate Later(c: Catalog, d: Catalog) { d.Valid() && c.articles.Keys <= d.articles.Keys }

  ghost predicate Chronological(c: Catalog, steps: seq<Step>)
    decreases |steps|
  {
    steps == [] || (Later(c, steps[0].catalog) && Chronological(steps[0].catalog, steps[1..]))
  }

  ghost function Final(c: Catalog, steps: seq<Step>): Catalog
    decreases |steps|
  {
    if steps == [] then c else Final(steps[0].catalog, steps[1..])
  }

  lemma LaterKeepsInv(c: Catalog, d: Catalog, s: Rows)
    requires Inv(c, s) && Later(c, d)
    ensures Inv(d, s)
  {
  }

  /** The state after a list of commands, each one committed transaction on the catalog of its time. */
  ghost function Run(c: Catalog, s: Rows, steps: seq<Step>): (s': Rows)
    requires Inv(c, s) && Chronological(c, steps)
    ensures Inv(Final(c, steps), s')
    decreases |steps|
  {
    if steps == [] then s
    else
      var d := steps[0].catalog;
      LaterKeepsInv(c, d, s);
      ApplyKeepsInv(d, s, steps[0].command);
      Run(d, Apply(d, s, steps[0].command), steps[1..])
  }

  /** For every state any commands lead to, however Articles and priorities change in between. */
  lemma EveryReachableState(c: Catalog, steps: seq<Step>)
    requires c.Valid() && Chronological(c, steps)
    ensures Inv(c, Empty)
    ensures var s := Run(c, Empty, steps);
            && (forall g | g in s.groups ::
                  |Members(s, g)| >= 2 && s.groups[g].primary in Members(s, g) && Members(s, g) <= Final(c, steps).articles.Keys)
            && (forall a | a in s.member :: s.member[a] in s.groups)
            && (forall q | q in s.separations :: !Together(s, q.low, q.high))
            && (forall q | q in s.candidates && s.candidates[q].state == Merged :: Together(s, q.low, q.high))
  {
    InvMeans(Final(c, steps), Run(c, Empty, steps));
  }

  lemma InvMeans(c: Catalog, s: Rows)
    requires Inv(c, s)
    ensures forall g | g in s.groups ::
              |Members(s, g)| >= 2 && s.groups[g].primary in Members(s, g) && Members(s, g) <= c.articles.Keys
  {
    forall g | g in s.groups
      ensures |Members(s, g)| >= 2
    {
      var a := s.groups[g].primary;
      var b :| b != a && InGroup(s, b, g);
      SubsetCardinality({a, b}, Members(s, g));
    }
  }

  /** In no reachable state does a grouping find a merged candidate without a shared group. */
  lemma GroupingNeverFails(c: Catalog, steps: seq<Step>, d: Catalog, p: Pair, spare: Uuid)
    requires c.Valid() && Chronological(c, steps) && Later(Final(c, steps), d)
    requires spare !in Run(c, Empty, steps).groups
    ensures Inv(d, Run(c, Empty, steps)) && !GroupStep(d, Run(c, Empty, steps), p, spare).1.GroupingFailed?
  {
    var s := Run(c, Empty, steps);
    LaterKeepsInv(Final(c, steps), d, s);
    GroupKeepsInv(d, s, p, spare, CandidateRefusal(d, s, p));
  }

  // ---------------------------------------------------------------------------
  // Automatic Primaries, while the preferences among known Articles stay

  ghost predicate Prefers(c: Catalog, a: Uuid, b: Uuid)
    requires c.Valid() && a in c.articles && b in c.articles
  {
    Precedes(c.articles[a], c.articles[b], c.priorities)
  }

  /** Articles may come, and may change where no comparison sees it. */
  ghost predicate SamePreferences(c: Catalog, d: Catalog) {
    && c.Valid() && Later(c, d)
    && forall a, b | a in c.articles && b in c.articles :: Prefers(c, a, b) <==> Prefers(d, a, b)
  }

  ghost predicate Steady(c: Catalog, steps: seq<Step>)
    decreases |steps|
  {
    steps == [] || (SamePreferences(c, steps[0].catalog) && Steady(steps[0].catalog, steps[1..]))
  }

  lemma LaterKeepsLeast(c: Catalog, d: Catalog, s: Rows)
    requires c.Valid() && MembershipsSound(c, s) && AutomaticPrimariesLeast(c, s) && SamePreferences(c, d)
    ensures MembershipsSound(d, s) && AutomaticPrimariesLeast(d, s)
  {
    forall g | g in s.groups && s.groups[g].origin == Automatic
      ensures IsLeast(d, s.groups[g].primary, Members(s, g))
    {
      var x := s.groups[g].primary;
      assert IsLeast(c, x, Members(s, g));
      forall y | y in Members(s, g) && y != x
        ensures Prefers(d, x, y)
      {
        assert Prefers(c, x, y);
      }
    }
  }

  lemma CandidateCommandsKeepLeast(c: Catalog, s: Rows, k: Command)
    requires c.Valid() && PairsSound(c, s) && MembershipsSound(c, s) && AutomaticPrimariesLeast(c, s)
    requires k.Detect? || k.Dismiss?
    ensures MembershipsSound(c, Apply(c, s, k)) && AutomaticPrimariesLeast(c, Apply(c, s, k))
  {
    SameGroupsKeepLeast(c, s, Apply(c, s, k));
  }

  lemma SameGroupsKeepLeast(c: Catalog, s: Rows, s': Rows)
    requires c.Valid() && MembershipsSound(c, s) && AutomaticPrimariesLeast(c, s)
    requires s'.groups == s.groups && s'.member == s.member
    ensures MembershipsSound(c, s') && AutomaticPrimariesLeast(c, s')
  {
    assert forall g :: Members(s', g) == Members(s, g);
  }

  lemma ApplyKeepsLeast(c: Catalog, s: Rows, k: Command)
    requires Inv(c, s) && AutomaticPrimariesLeast(c, s)
    ensures MembershipsSound(c, Apply(c, s, k)) && AutomaticPrimariesLeast(c, Apply(c, s, k))
  {
    ApplyKeepsInv(c, s, k);
    match k
    case Detect(_, _) => CandidateCommandsKeepLeast(c, s, k);
    case GroupPair(p, spare) => GroupKeepsLeast(c, s, p, UnusedId(s, spare), CandidateRefusal(c, s, p));
    case Merge(selected, chosen, spare) =>
      if |selected| >= 2 {
        MergeKeepsLeast(c, s, selected, chosen, UnusedId(s, spare));
      }
    case Split(gid, ids) =>
      if SplitApplies(s, gid, ids) {
        SplitKeepsLeast(c, s, gid, ids);
      }
    case Choose(gid, a) => ChooseKeepsLeast(c, s, gid, a);
    case Dismiss(_) => CandidateCommandsKeepLeast(c, s, k);
  }

  /** As long as no comparison between known Articles changes, every automatic Primary stays the least of its group. */
  lemma {:induction false} SteadyRunKeepsLeast(c: Catalog, s: Rows, steps: seq<Step>)
    requires Inv(c, s) && AutomaticPrimariesLeast(c, s) && Steady(c, steps)
    ensures Chronological(c, steps)
    ensures AutomaticPrimariesLeast(Final(c, steps), Run(c, s, steps))
    decreases |steps|
  {
    SteadyIsChronological(c, steps);
    if steps != [] {
      var d := steps[0].catalog;
      LaterKeepsInv(c, d, s);
      LaterKeepsLeast(c, d, s);
      ApplyKeepsInv(d, s, steps[0].command);
      ApplyKeepsLeast(d, s, steps[0].command);
      SteadyRunKeepsLeast(d, Apply(d, s, steps[0].command), steps[1..]);
    }
  }

  lemma {:induction false} SteadyIsChronological(c: Catalog, steps: seq<Step>)
    requires Steady(c, steps)
    ensures Chronological(c, steps)
    decreases |steps|
  {
    if steps != [] {
      SteadyIsChronological(steps[0].catalog, steps[1..]);
    }
  }

  // ---------------------------------------------------------------------------
  // Manual Primaries

  ghost predicate ManualPrimary(s: Rows, a: Uuid) {
    a in s.member && s.member[a] in s.groups && s.groups[s.member[a]] == Group(a, Manual)
  }

  /** Grouping never displaces a manual Primary, even when it makes two groups one. */
  lemma GroupingKeepsManualPrimary(c: Catalog, s: Rows, p: Pair, spare: Uuid, refusal: Option<NoopReason>, a: Uuid)
    requires Inv(c, s) && spare !in s.groups && ManualPrimary(s, a)
    requires refusal.None? ==> p in s.candidates
    ensures ManualPrimary(GroupJudged(c, s, p, spare, refusal).0, a)
  {
    if GroupJudged(c, s, p, spare, refusal).1.Grouped? {
      GroupedMeans(c, s, p, spare, refusal);
      var articles := PairArticles(s, p);
      ComponentClosed(c, s, p.low, p.high);
      if a in articles {
        assert HasManual(s, articles, s.member[a]);
        assert UnitedGroup(c, s, articles) == Group(a, Manual);
      } else if s.member[a] in GroupsOf(s, articles) {
        var b :| b in articles && b in s.member && s.member[b] == s.member[a];
        assert Together(s, b, a);
        assert false;
      }
    }
  }

  predicate AutomaticCommand(command: Command) {
    command.Detect? || command.GroupPair?
  }

  lemma AutomaticStepKeepsManualPrimary(c: Catalog, s: Rows, k: Command, a: Uuid)
    requires Inv(c, s) && ManualPrimary(s, a) && AutomaticCommand(k)
    ensures ManualPrimary(Apply(c, s, k), a)
  {
    if k.GroupPair? {
      GroupingKeepsManualPrimary(c, s, k.pair, UnusedId(s, k.spare), CandidateRefusal(c, s, k.pair), a);
    }
  }

  /** No number of automatic detections and groupings displaces a manual Primary, whatever changes meanwhile. */
  lemma {:induction false} AutomaticRunKeepsManualPrimary(c: Catalog, s: Rows, steps: seq<Step>, a: Uuid)
    requires Inv(c, s) && ManualPrimary(s, a) && Chronological(c, steps)
    requires forall k | k in steps :: AutomaticCommand(k.command)
    ensures ManualPrimary(Run(c, s, steps), a)
    decreases |steps|
  {
    if steps != [] {
      var d := steps[0].catalog;
      LaterKeepsInv(c, d, s);
      AutomaticStepKeepsManualPrimary(d, s, steps[0].command, a);
      ApplyKeepsInv(d, s, steps[0].command);
      AutomaticRunKeepsManualPrimary(d, Apply(d, s, steps[0].command), steps[1..], a);
    }
  }

  /** Distinct groups never share a Primary, so two manual groups always conflict. */
  lemma PrimariesDiffer(s: Rows, g: Uuid, h: Uuid)
    requires GroupsSound(s) && g in s.groups && h in s.groups && g != h
    ensures s.groups[g].primary != s.groups[h].primary
  {
    assert InGroup(s, s.groups[g].primary, g) && InGroup(s, s.groups[h].primary, h);
  }

  /**
    A split fails exactly when it removes an automatically chosen Primary and leaves a group
    behind: only a manual Primary is chosen anew, and the commit refuses a group whose
    Primary is not a member.
   */
  lemma SplitFailsExactlyWhen(c: Catalog, s: Rows, gid: Uuid, ids: set<Uuid>)
    requires Inv(c, s) && gid in s.groups
    ensures SplitStep(c, s, gid, ids).1 == TransactionFailed <==>
              && s.groups[gid].origin == Automatic
              && s.groups[gid].primary in ids
              && |Members(s, gid) - ids| >= 2
  {
    assert Members(s, gid) - ids * Members(s, gid) == Members(s, gid) - ids;
    assert InGroup(s, s.groups[gid].primary, gid);
    assert s.groups[gid].primary in Members(s, gid);
    if s.groups[gid].primary in ids {
      assert s.groups[gid].primary in ids * Members(s, gid);
    }
  }

  // ---------------------------------------------------------------------------
  // From detection to grouping

  /** Stored evidence is what some pair of Articles with these ids once showed. */
  ghost predicate Genuine(stored: StoredEvidence, p: Pair) {
    exists x: Article, y: Article :: x.id != y.id && CanonicalPair(x.id, y.id) == p && ShowsEvidence(x, y, stored)
  }

  ghost predicate ShowsEvidence(x: Article, y: Article, stored: StoredEvidence)
    requires x.id != y.id
  {
    var e := EvaluateDuplicateEvidence(x, y);
    e.Some? && stored == EvidenceColumns(e.value)
  }

  lemma SameFingerprintSameEvidence(u: Article, v: Article, x: Article, y: Article, stored: StoredEvidence)
    requires u.id != v.id && x.id != y.id && IsUuid(u.id) && IsUuid(v.id) && IsUuid(x.id) && IsUuid(y.id)
    requires ShowsEvidence(u, v, stored) && EvaluateDuplicateEvidence(x, y).Some?
    requires stored.fingerprint == EvaluateDuplicateEvidence(x, y).value.fingerprint
    ensures ShowsEvidence(x, y, stored)
  {
    UnchangedExactlyWhenSameEvidence(u, v, x, y);
  }

  lemma UpsertRefreshes(existing: Candidate, e: DuplicateEvidence)
    requires Upsert(Some(existing), e).state != Superseded
    ensures Upsert(Some(existing), e).evidence == EvidenceColumns(e) ||
              (Upsert(Some(existing), e) == existing && existing.evidence.fingerprint == e.fingerprint)
  {
  }

  /**
    Equal fingerprints are the same evidence, so after detection the stored evidence of every
    candidate that is not superseded is the evidence just computed.
   */
  lemma DetectionRefreshesEvidence(existing: Candidate, x: Article, y: Article)
    requires x.id != y.id && IsUuid(x.id) && IsUuid(y.id) && EvaluateDuplicateEvidence(x, y).Some?
    requires Genuine(existing.evidence, CanonicalPair(x.id, y.id))
    ensures var k := Upsert(Some(existing), EvaluateDuplicateEvidence(x, y).value);
            k.state != Superseded ==> ShowsEvidence(x, y, k.evidence)
  {
    var e := EvaluateDuplicateEvidence(x, y).value;
    var k := Upsert(Some(existing), e);
    if k.state != Superseded {
      UpsertRefreshes(existing, e);
      if k.evidence != EvidenceColumns(e) {
        var u: Article, v: Article :| u.id != v.id && CanonicalPair(u.id, v.id) == CanonicalPair(x.id, y.id) &&
          ShowsEvidence(u, v, existing.evidence);
        assert {u.id, v.id} == {x.id, y.id};
        SameFingerprintSameEvidence(u, v, x, y, existing.evidence);
      }
    }
  }

  /** A property of single candidates that detection establishes and changes of state keep. */
  ghost predicate Recording(holds: (Candidate, Pair) -> bool) {
    && (forall k, p, state {:trigger holds(k.(state := state), p)} | holds(k, p) && state != Superseded :: holds(k.(state := state), p))
    && (forall x: Article, y: Article, evidence, state {:trigger ShowsEvidence(x, y, evidence), Candidate(state, evidence)} | x.id != y.id && ShowsEvidence(x, y, evidence) && state != Superseded ::
          holds(Candidate(state, evidence), CanonicalPair(x.id, y.id)))
  }

  ghost predicate AllCandidates(holds: (Candidate, Pair) -> bool, s: Rows) {
    forall p | p in s.candidates :: holds(s.candidates[p], p)
  }

  /** Only states of known candidates change, and none to superseded. */
  ghost predicate StatesChange(s: Rows, s': Rows) {
    forall p | p in s'.candidates ::
      p in s.candidates &&
      (s'.candidates[p] == s.candidates[p] ||
       (s'.candidates[p].state != Superseded && s'.candidates[p] == s.candidates[p].(state := s'.candidates[p].state)))
  }

  lemma OtherCommandsChangeStates(c: Catalog, s: Rows, k: Command)
    requires c.Valid() && PairsSound(c, s) && MembershipsSound(c, s) && !k.Detect?
    ensures StatesChange(s, Apply(c, s, k))
  {
    if k.GroupPair? {
      GroupingChangesStates(c, s, k.pair, UnusedId(s, k.spare), CandidateRefusal(c, s, k.pair));
    }
  }

  lemma GroupingChangesStates(c: Catalog, s: Rows, p: Pair, spare: Uuid, refusal: Option<NoopReason>)
    requires c.Valid() && PairsSound(c, s) && MembershipsSound(c, s) && (refusal.None? ==> p in s.candidates)
    ensures StatesChange(s, GroupJudged(c, s, p, spare, refusal).0)
  {
  }

  lemma StatesChangeKeepsAll(holds: (Candidate, Pair) -> bool, s: Rows, s': Rows)
    requires Recording(holds) && AllCandidates(holds, s) && StatesChange(s, s')
    ensures AllCandidates(holds, s')
  {
  }

  lemma DetectKeepsAll(holds: (Candidate, Pair) -> bool, c: Catalog, s: Rows, a: Uuid, b: Uuid)
    requires c.Valid() && Recording(holds) && AllCandidates(holds, s)
    requires a in c.articles && b in c.articles && a != b
    ensures AllCandidates(holds, DetectPairStep(c, s, a, b))
  {
    var x, y, s' := c.articles[a], c.articles[b], DetectPairStep(c, s, a, b);
    match EvaluateDuplicateEvidence(x, y)
    case None =>
    case Some(e) =>
      DetectPersists(c, s, a, b, e);
      PersistKeepsAll(holds, s, x, y, e, s');
  }

  lemma DetectPersists(c: Catalog, s: Rows, a: Uuid, b: Uuid, e: DuplicateEvidence)
    requires c.Valid() && a in c.articles && b in c.articles && a != b
    requires EvaluateDuplicateEvidence(c.articles[a], c.articles[b]) == Some(e)
    ensures DetectPairStep(c, s, a, b) ==
            s.(candidates := s.candidates[e.pair := Upsert(Stored(s.candidates, e.pair), e)])
  {
  }

  lemma PersistKeepsAll(holds: (Candidate, Pair) -> bool, s: Rows, x: Article, y: Article, e: DuplicateEvidence, s': Rows)
    requires Recording(holds) && AllCandidates(holds, s) && x.id != y.id && EvaluateDuplicateEvidence(x, y) == Some(e)
    requires s'.candidates == s.candidates[e.pair := Upsert(Stored(s.candidates, e.pair), e)]
    ensures AllCandidates(holds, s')
  {
    var k := Upsert(Stored(s.candidates, e.pair), e);
    UpsertHolds(holds, Stored(s.candidates, e.pair), x, y, e, k);
    InsertKeepsAll(holds, s, e.pair, k, s');
  }

  lemma UpsertHolds(holds: (Candidate, Pair) -> bool, existing: Option<Candidate>, x: Article, y: Article,
                    e: DuplicateEvidence, k: Candidate)
    requires Recording(holds) && x.id != y.id && EvaluateDuplicateEvidence(x, y) == Some(e) && k == Upsert(existing, e)
    requires existing.Some? ==> holds(existing.value, e.pair)
    ensures holds(k, e.pair)
  {
    assert ShowsEvidence(x, y, EvidenceColumns(e));
    if existing.None? || k != existing.value {
      assert k == Candidate(k.state, EvidenceColumns(e));
    }
  }

  lemma InsertKeepsAll(holds: (Candidate, Pair) -> bool, s: Rows, p: Pair, k: Candidate, s': Rows)
    requires AllCandidates(holds, s) && holds(k, p) && s'.candidates == s.candidates[p := k]
    ensures AllCandidates(holds, s')
  {
  }

  lemma ApplyKeepsAll(holds: (Candidate, Pair) -> bool, c: Catalog, s: Rows, k: Command)
    requires Inv(c, s) && Recording(holds) && AllCandidates(holds, s)
    ensures AllCandidates(holds, Apply(c, s, k))
  {
    if k.Detect? {
      if k.a in c.articles && k.b in c.articles && k.a != k.b {
        DetectKeepsAll(holds, c, s, k.a, k.b);
      }
    } else {
      OtherCommandsChangeStates(c, s, k);
      StatesChangeKeepsAll(holds, s, Apply(c, s, k));
    }
  }

  lemma {:induction false} RunKeepsAll(holds: (Candidate, Pair) -> bool, c: Catalog, s: Rows, steps: seq<Step>)
    requires Inv(c, s) && Recording(holds) && AllCandidates(holds, s) && Chronological(c, steps)
    ensures AllCandidates(holds, Run(c, s, steps))
    decreases |steps|
  {
    if steps != [] {
      var d := steps[0].catalog;
      LaterKeepsInv(c, d, s);
      ApplyKeepsInv(d, s, steps[0].command);
      ApplyKeepsAll(holds, d, s, steps[0].command);
      RunKeepsAll(holds, d, Apply(d, s, steps[0].command), steps[1..]);
    }
  }

  ghost predicate Recorded(k: Candidate, p: Pair) { k.state != Superseded && Genuine(k.evidence, p) }

  ghost function IsRecorded(): (holds: (Candidate, Pair) -> bool)
    ensures forall k, p :: holds(k, p) <==> Recorded(k, p)
  {
    (k, p) => Recorded(k, p)
  }

  lemma RecordedIsRecording()
    ensures Recording(IsRecorded())
  {
  }

  /** In every reachable state each candidate stores evidence its two Articles once showed, and none is superseded. */
  lemma EveryStoredEvidence(c: Catalog, steps: seq<Step>, p: Pair)
    requires c.Valid() && Chronological(c, steps) && p in Run(c, Empty, steps).candidates
    ensures Recorded(Run(c, Empty, steps).candidates[p], p)
  {
    RecordedIsRecording();
    RunKeepsAll(IsRecorded(), c, Empty, steps);
  }

  /** What detecting a pair does to its stored candidate, when the Articles show `x` and `y` now. */
  ghost predicate Redetected(existing: Candidate, x: Article, y: Article, k: Candidate)
    requires x.id != y.id
  {
    var shown := ShowsEvidence(x, y, existing.evidence);
    && ShowsEvidence(x, y, k.evidence)
    && (k == existing <==> shown)
    && k.state == if existing.state == Dismissed && !shown then Pending else existing.state
  }

  lemma UpsertRedetects(existing: Candidate, x: Article, y: Article)
    requires x.id != y.id && IsUuid(x.id) && IsUuid(y.id) && EvaluateDuplicateEvidence(x, y).Some?
    requires Recorded(existing, CanonicalPair(x.id, y.id))
    ensures Redetected(existing, x, y, Upsert(Some(existing), EvaluateDuplicateEvidence(x, y).value))
  {
    DetectionRefreshesEvidence(existing, x, y);
    var e := EvaluateDuplicateEvidence(x, y).value;
    var k := Upsert(Some(existing), e);
    if existing.evidence.fingerprint == e.fingerprint {
      assert k == existing;
    } else {
      assert existing.evidence != EvidenceColumns(e);
    }
  }

  /**
    In every reachable state, whatever the Articles have become: detection records what the pair
    shows now, leaves a candidate as it is exactly when nothing changed in its evidence, and revives
    a dismissed one exactly when something did.
   */
  lemma DetectionInReachableState(c: Catalog, steps: seq<Step>, d: Catalog, a: Uuid, b: Uuid)
    requires c.Valid() && Chronological(c, steps) && Later(Final(c, steps), d)
    requires a in d.articles && b in d.articles && a != b && IsUuid(a) && IsUuid(b)
    requires EvaluateDuplicateEvidence(d.articles[a], d.articles[b]).Some?
    ensures var s, p, x, y := Run(c, Empty, steps), CanonicalPair(a, b), d.articles[a], d.articles[b];
            var s' := DetectPairStep(d, s, a, b);
            && p in s'.candidates
            && (p !in s.candidates ==> s'.candidates[p].state == Pending && ShowsEvidence(x, y, s'.candidates[p].evidence))
            && (p in s.candidates ==> Redetected(s.candidates[p], x, y, s'.candidates[p]))
  {
    var s, p := Run(c, Empty, steps), CanonicalPair(a, b);
    if p in s.candidates {
      EveryStoredEvidence(c, steps, p);
    }
    DetectsPair(d, s, a, b);
  }

  lemma DetectsPair(c: Catalog, s: Rows, a: Uuid, b: Uuid)
    requires c.Valid() && a in c.articles && b in c.articles && a != b && IsUuid(a) && IsUuid(b)
    requires EvaluateDuplicateEvidence(c.articles[a], c.articles[b]).Some?
    requires CanonicalPair(a, b) in s.candidates ==> Recorded(s.candidates[CanonicalPair(a, b)], CanonicalPair(a, b))
    ensures var s', p, x, y := DetectPairStep(c, s, a, b), CanonicalPair(a, b), c.articles[a], c.articles[b];
            && p in s'.candidates
            && (p !in s.candidates ==> s'.candidates[p].state == Pending && ShowsEvidence(x, y, s'.candidates[p].evidence))
            && (p in s.candidates ==> Redetected(s.candidates[p], x, y, s'.candidates[p]))
  {
    var p := CanonicalPair(a, b);
    if p in s.candidates {
      UpsertRedetects(s.candidates[p], c.articles[a], c.articles[b]);
    }
  }
}
