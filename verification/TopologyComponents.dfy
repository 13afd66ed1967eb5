/**
  Automatic grouping computes connected components: whatever the order of the pairs, the
  groups, their Primaries and the summed count are the same.
 */
module TopologyComponents {
  import opened Prelude
  import opened Evidence
  import opened Primary
  import opened Topology
  import opened TopologyRuns

  // ---------------------------------------------------------------------------
  // Connectedness

  ghost predicate Same(s: Rows, a: Uuid, b: Uuid) { a == b || Together(s, a, b) }

  /** One step: already grouped, or joined by a pair. */
  ghost predicate Link(s: Rows, edges: set<Pair>, a: Uuid, b: Uuid) {
    Same(s, a, b) || Pair(a, b) in edges || Pair(b, a) in edges
  }

  ghost predicate IsPath(s: Rows, edges: set<Pair>, path: seq<Uuid>, a: Uuid, b: Uuid) {
    && |path| > 0 && path[0] == a && path[|path| - 1] == b
    && forall i | 0 <= i < |path| - 1 :: Link(s, edges, path[i], path[i + 1])
  }

  ghost predicate Connected(s: Rows, edges: set<Pair>, a: Uuid, b: Uuid) {
    exists path :: IsPath(s, edges, path, a, b)
  }

  ghost function ConnectedTo(c: Catalog, s: Rows, edges: set<Pair>, a: Uuid): set<Uuid> {
    set b | b in c.articles && Connected(s, edges, a, b)
  }

  lemma LinkConnects(s: Rows, edges: set<Pair>, a: Uuid, b: Uuid)
    requires Link(s, edges, a, b)
    ensures Connected(s, edges, a, b)
  {
    assert IsPath(s, edges, [a, b], a, b);
  }

  lemma ConnectedTransitive(s: Rows, edges: set<Pair>, a: Uuid, b: Uuid, d: Uuid)
    requires Connected(s, edges, a, b) && Connected(s, edges, b, d)
    ensures Connected(s, edges, a, d)
  {
    var p :| IsPath(s, edges, p, a, b);
    var q :| IsPath(s, edges, q, b, d);
    var r := p + q[1..];
    forall i | 0 <= i < |r| - 1
      ensures Link(s, edges, r[i], r[i + 1])
    {
      if i >= |p| - 1 {
        assert r[i] == q[i - (|p| - 1)] && r[i + 1] == q[i - (|p| - 1) + 1];
      }
    }
    assert IsPath(s, edges, r, a, d);
  }

  /** If every link of one relation is a connection of another, so is every path. */
  lemma {:induction false} PathTransfers(s: Rows, edges: set<Pair>, t: Rows, others: set<Pair>,
                                        path: seq<Uuid>, a: Uuid, b: Uuid)
    requires IsPath(s, edges, path, a, b)
    requires forall x, y | Link(s, edges, x, y) :: Connected(t, others, x, y)
    ensures Connected(t, others, a, b)
    decreases |path|
  {
    if |path| == 1 {
      LinkConnects(t, others, a, b);
    } else {
      assert Link(s, edges, path[0], path[1]);
      assert IsPath(s, edges, path[1..], path[1], b);
      PathTransfers(s, edges, t, others, path[1..], path[1], b);
      ConnectedTransitive(t, others, a, path[1], b);
    }
  }

  /** A path whose links all stay inside one state's groups stays inside one group. */
  lemma {:induction false} PathCollapses(s: Rows, edges: set<Pair>, t: Rows, path: seq<Uuid>, a: Uuid, b: Uuid)
    requires IsPath(s, edges, path, a, b)
    requires forall x, y | Link(s, edges, x, y) :: Same(t, x, y)
    ensures Same(t, a, b)
    decreases |path|
  {
    if |path| > 1 {
      assert Link(s, edges, path[0], path[1]);
      assert IsPath(s, edges, path[1..], path[1], b);
      PathCollapses(s, edges, t, path[1..], path[1], b);
    }
  }

  // ---------------------------------------------------------------------------
  // One grouping

  /** Nothing stands in the way of the candidate itself. */
  ghost predicate Actionable(c: Catalog, s: Rows, p: Pair)
    requires c.Valid() && PairsSound(c, s)
  {
    && p in s.candidates && s.candidates[p].state in {Pending, Merged}
    && CandidateRefusal(c, s, p).None?
  }

  ghost predicate Unmoderated(s: Rows) {
    s.separations == {} && forall g | g in s.groups :: s.groups[g].origin == Automatic
  }

  ghost predicate Joined(s: Rows, p: Pair, x: Uuid) { Same(s, x, p.low) || Same(s, x, p.high) }

  /** What a grouping must leave behind for the next one. */
  ghost predicate GroupedInto(c: Catalog, s: Rows, p: Pair, s': Rows) {
    && Inv(c, s') && Unmoderated(s')
    && s'.candidates.Keys == s.candidates.Keys
    && (forall q | q in s.candidates :: s'.candidates[q] == s.candidates[q] ||
          (s.candidates[q].state == Pending && s'.candidates[q] == s.candidates[q].(state := Merged)))
    && JoinedBy(s, p, s')
  }

  ghost predicate JoinedBy(s: Rows, p: Pair, s': Rows) {
    forall x, y :: Same(s', x, y) <==> Same(s, x, y) || (Joined(s, p, x) && Joined(s, p, y))
  }

  lemma NoManualConflict(s: Rows, articles: set<Uuid>)
    requires Unmoderated(s)
    ensures TopologyRefusal(s, articles).None?
    ensures forall g :: !HasManual(s, articles, g)
  {
  }

  lemma JoinedArticles(s: Rows, p: Pair, x: Uuid)
    ensures x in PairArticles(s, p) <==> Joined(s, p, x)
  {
  }

  lemma TogetherIsJoined(s: Rows, p: Pair, s': Rows)
    requires forall x, y :: Together(s', x, y) <==>
               Together(s, x, y) || (x in PairArticles(s, p) && y in PairArticles(s, p))
    ensures JoinedBy(s, p, s')
  {
    forall x, y
      ensures Same(s', x, y) <==> Same(s, x, y) || (Joined(s, p, x) && Joined(s, p, y))
    {
      JoinedArticles(s, p, x);
      JoinedArticles(s, p, y);
    }
  }

  lemma CombinedJoins(c: Catalog, s: Rows, p: Pair, gid: Uuid, group: Group)
    requires p in s.candidates && Unitable(c, s, PairArticles(s, p), gid, group)
    requires Within(p, PairArticles(s, p)) && s.separations == {}
    ensures Inv(c, Combined(s, p, gid, group)) && JoinedBy(s, p, Combined(s, p, gid, group))
  {
    CombinedKeepsInv(c, s, p, gid, group);
    TogetherIsJoined(s, p, Combined(s, p, gid, group));
  }

  lemma CombinedUnmoderated(s: Rows, p: Pair, gid: Uuid, group: Group)
    requires p in s.candidates && Unmoderated(s) && group.origin == Automatic
    ensures Unmoderated(Combined(s, p, gid, group))
  {
  }

  lemma CombinedIsGroupedInto(c: Catalog, s: Rows, p: Pair, s': Rows)
    requires Inv(c, s') && Unmoderated(s') && JoinedBy(s, p, s')
    requires p in s.candidates && s.candidates[p].state == Pending
    requires s'.candidates == s.candidates[p := s.candidates[p].(state := Merged)]
    ensures GroupedInto(c, s, p, s')
  {
  }

  lemma GroupingJoins(c: Catalog, s: Rows, p: Pair, spare: Uuid)
    requires Inv(c, s) && Unmoderated(s) && spare !in s.groups
    requires p in s.candidates && s.candidates[p].state in {Pending, Merged}
    ensures GroupedInto(c, s, p, GroupJudged(c, s, p, spare, None).0)
  {
    if s.candidates[p].state == Merged {
      MergedIsGroupedInto(c, s, p, spare);
    } else {
      var articles := PairArticles(s, p);
      PendingIsGrouped(c, s, p, spare);
      GroupedMeans(c, s, p, spare, None);
      var gid, group := SurvivingGroup(s, articles, spare), UnitedGroup(c, s, articles);
      CombinedJoins(c, s, p, gid, group);
      CombinedUnmoderated(s, p, gid, group);
      CombinedIsGroupedInto(c, s, p, Combined(s, p, gid, group));
    }
  }

  lemma PendingIsGrouped(c: Catalog, s: Rows, p: Pair, spare: Uuid)
    requires Inv(c, s) && Unmoderated(s) && p in s.candidates && s.candidates[p].state == Pending
    ensures GroupJudged(c, s, p, spare, None).1.Grouped?
    ensures forall g :: !HasManual(s, PairArticles(s, p), g)
  {
    NoManualConflict(s, PairArticles(s, p));
  }

  lemma MergedIsGroupedInto(c: Catalog, s: Rows, p: Pair, spare: Uuid)
    requires Inv(c, s) && Unmoderated(s) && p in s.candidates && s.candidates[p].state == Merged
    ensures GroupedInto(c, s, p, GroupJudged(c, s, p, spare, None).0)
  {
    MergedMeans(c, s, p, spare);
    var gid := s.member[p.low];
    HeadChangeKeepsInv(c, s, gid, Retained(c, s, gid));
    MergedStaysJoined(s, p, GroupJudged(c, s, p, spare, None).0);
  }

  lemma MergedStaysJoined(s: Rows, p: Pair, s': Rows)
    requires Together(s, p.low, p.high) && s'.member == s.member
    ensures JoinedBy(s, p, s')
  {
  }

  /** An Article whose group has the Primary it should have now. */
  ghost predicate HeadedNow(c: Catalog, s: Rows, a: Uuid)
    requires c.Valid()
  {
    && a in s.member && s.member[a] in s.groups && Members(s, s.member[a]) <= c.articles.Keys
    && IsLeast(c, s.groups[s.member[a]].primary, Members(s, s.member[a]))
  }

  /** An Article whose group has the members and the Primary it had. */
  ghost predicate AsBefore(s: Rows, s': Rows, a: Uuid) {
    && a in s.member && a in s'.member && s.member[a] in s.groups && s'.member[a] in s'.groups
    && s'.groups[s'.member[a]] == s.groups[s.member[a]]
    && forall b :: Same(s', a, b) <==> Same(s, a, b)
  }

  ghost predicate HeadAt(c: Catalog, s: Rows, p: Pair, s': Rows, a: Uuid)
    requires c.Valid()
  {
    if Joined(s, p, a) then HeadedNow(c, s', a) else AsBefore(s, s', a)
  }

  ghost predicate HeadsAfter(c: Catalog, s: Rows, p: Pair, s': Rows)
    requires c.Valid()
  {
    forall a {:trigger HeadAt(c, s, p, s', a)} | a in s'.member :: HeadAt(c, s, p, s', a)
  }

  lemma GroupingHeads(c: Catalog, s: Rows, p: Pair, spare: Uuid)
    requires Inv(c, s) && Unmoderated(s) && spare !in s.groups
    requires p in s.candidates && s.candidates[p].state in {Pending, Merged}
    ensures HeadsAfter(c, s, p, GroupJudged(c, s, p, spare, None).0)
  {
    var (s', r) := GroupJudged(c, s, p, spare, None);
    GroupingJoins(c, s, p, spare);
    GroupHeads(c, s, p, spare, None);
    GroupKeepsInv(c, s, p, spare, None);
    NoManualConflict(s, PairArticles(s, p));
    HeadedAfter(c, s, p, s', r.groupId, r.primary);
  }

  lemma HeadedAfter(c: Catalog, s: Rows, p: Pair, s': Rows, gid: Uuid, primary: Uuid)
    requires c.Valid() && MembershipsSound(c, s) && Unmoderated(s')
    requires JoinedBy(s, p, s') && HeadsPair(c, s, p, s', gid, primary)
    ensures HeadsAfter(c, s, p, s')
  {
    forall a | a in s'.member
      ensures HeadAt(c, s, p, s', a)
    {
      assert Joined(s, p, p.low);
      assert Same(s', a, p.low) <==> Joined(s, p, a);
      if !Joined(s, p, a) {
        var h := s'.member[a];
        assert h != gid && Untouched(s, s', h);
        assert a in Members(s, h);
      }
    }
  }

  /** Only the evidence of a candidate and its being pending or merged matter. */
  lemma StaysActionable(c: Catalog, s: Rows, s': Rows, q: Pair)
    requires c.Valid() && PairsSound(c, s) && PairsSound(c, s') && Actionable(c, s, q)
    requires q in s'.candidates && s'.candidates[q].state in {Pending, Merged}
    requires s'.candidates[q].evidence == s.candidates[q].evidence
    ensures Actionable(c, s', q)
  {
  }

  // ---------------------------------------------------------------------------
  // Counting components

  /** Groups, and every Article that is in none. */
  ghost function ComponentCount(c: Catalog, s: Rows): nat {
    |s.groups.Keys| + |c.articles.Keys - s.member.Keys|
  }

  lemma CountLoose(articles: set<Uuid>, member: set<Uuid>, low: Uuid, high: Uuid)
    requires low != high && low in articles && high in articles
    ensures |articles - (member + {low, high})| ==
            |articles - member| - (if low in member then 0 else 1) - (if high in member then 0 else 1)
  {
    var loose := articles - member;
    assert articles - (member + {low, high}) == loose - {low} - {high};
  }

  lemma CountGroups(groups: set<Uuid>, joined: set<Uuid>, gid: Uuid)
    requires joined <= groups && (gid in joined || (joined == {} && gid !in groups))
    ensures |(groups - joined) + {gid}| == |groups| - |joined| + 1
  {
    assert gid !in groups - joined;
    assert groups == (groups - joined) + joined;
  }

  lemma JoinKeys(c: Catalog, s: Rows, p: Pair, gid: Uuid, group: Group)
    requires MembershipsSound(c, s) && p in s.candidates && p.low in c.articles && p.high in c.articles
    ensures var s' := Combined(s, p, gid, group);
            && s'.member.Keys == s.member.Keys + {p.low, p.high}
            && s'.groups.Keys == (s.groups.Keys - GroupsOf(s, PairArticles(s, p))) + {gid}
            && GroupsOf(s, PairArticles(s, p)) <= s.groups.Keys
            && |GroupsOf(s, PairArticles(s, p))| ==
               (if p.low in s.member then 1 else 0) +
               (if p.high in s.member && !Together(s, p.low, p.high) then 1 else 0)
  {
    ComponentClosed(c, s, p.low, p.high);
  }

  lemma JoinDropsCount(c: Catalog, s: Rows, p: Pair, gid: Uuid, group: Group)
    requires MembershipsSound(c, s) && PairsSound(c, s) && p in s.candidates
    requires gid in GroupsOf(s, PairArticles(s, p)) || (GroupsOf(s, PairArticles(s, p)) == {} && gid !in s.groups)
    ensures ComponentCount(c, Combined(s, p, gid, group)) ==
            ComponentCount(c, s) - (if Together(s, p.low, p.high) then 0 else 1)
  {
    JoinKeys(c, s, p, gid, group);
    CountLoose(c.articles.Keys, s.member.Keys, p.low, p.high);
    CountGroups(s.groups.Keys, GroupsOf(s, PairArticles(s, p)), gid);
  }

  lemma GroupingCounts(c: Catalog, s: Rows, p: Pair, spare: Uuid)
    requires Inv(c, s) && Unmoderated(s) && spare !in s.groups
    requires p in s.candidates && s.candidates[p].state in {Pending, Merged}
    ensures var (s', r) := GroupJudged(c, s, p, spare, None);
            r.DuplicateGroupedCount() == ComponentCount(c, s) - ComponentCount(c, s')
  {
    var (s', r) := GroupJudged(c, s, p, spare, None);
    NoManualConflict(s, PairArticles(s, p));
    if r.Grouped? {
      GroupedMeans(c, s, p, spare, None);
      JoinDropsCount(c, s, p, SurvivingGroup(s, PairArticles(s, p), spare), UnitedGroup(c, s, PairArticles(s, p)));
    }
  }

  // ---------------------------------------------------------------------------
  // All strong candidates of one Article

  /** The loop over strong candidates: the final state and the summed count. */
  ghost function GroupAll(c: Catalog, s: Rows, pairs: seq<Pair>, spares: seq<Uuid>): (result: (Rows, nat))
    requires Inv(c, s) && |spares| == |pairs|
    ensures Inv(c, result.0)
    decreases |pairs|
  {
    if pairs == [] then (s, 0)
    else
      var spare := UnusedId(s, spares[0]);
      GroupStepKeepsInv(c, s, pairs[0], spare);
      var (s1, r) := GroupStep(c, s, pairs[0], spare);
      var (s2, n) := GroupAll(c, s1, pairs[1..], spares[1..]);
      (s2, r.DuplicateGroupedCount() + n)
  }

  ghost predicate AllActionable(c: Catalog, s: Rows, pairs: seq<Pair>)
    requires c.Valid() && PairsSound(c, s)
  {
    forall p | p in pairs :: Actionable(c, s, p)
  }

  ghost function Edges(pairs: seq<Pair>): set<Pair> { set p | p in pairs }

  /** The first pair of the loop, for the induction over the rest. */
  lemma FirstGrouping(c: Catalog, s: Rows, pairs: seq<Pair>, spares: seq<Uuid>) returns (s1: Rows, n1: nat)
    requires Inv(c, s) && Unmoderated(s) && |spares| == |pairs| > 0 && AllActionable(c, s, pairs)
    ensures GroupedInto(c, s, pairs[0], s1) && AllActionable(c, s1, pairs[1..]) && HeadsAfter(c, s, pairs[0], s1)
    ensures n1 == ComponentCount(c, s) - ComponentCount(c, s1)
    ensures GroupAll(c, s, pairs, spares).0 == GroupAll(c, s1, pairs[1..], spares[1..]).0
    ensures GroupAll(c, s, pairs, spares).1 == n1 + GroupAll(c, s1, pairs[1..], spares[1..]).1
  {
    var p := pairs[0];
    var spare := UnusedId(s, spares[0]);
    assert Actionable(c, s, p);
    GroupingJoins(c, s, p, spare);
    GroupingCounts(c, s, p, spare);
    GroupingHeads(c, s, p, spare);
    s1 := GroupStep(c, s, p, spare).0;
    n1 := GroupStep(c, s, p, spare).1.DuplicateGroupedCount();
    RestStaysActionable(c, s, pairs, s1);
  }

  lemma RestStaysActionable(c: Catalog, s: Rows, pairs: seq<Pair>, s1: Rows)
    requires c.Valid() && PairsSound(c, s) && |pairs| > 0 && AllActionable(c, s, pairs)
    requires GroupedInto(c, s, pairs[0], s1)
    ensures AllActionable(c, s1, pairs[1..])
  {
    forall q | q in pairs[1..]
      ensures Actionable(c, s1, q)
    {
      assert q in pairs;
      assert s1.candidates[q].evidence == s.candidates[q].evidence;
      StaysActionable(c, s, s1, q);
    }
  }

  lemma {:induction false} GroupAllCounts(c: Catalog, s: Rows, pairs: seq<Pair>, spares: seq<Uuid>)
    requires Inv(c, s) && Unmoderated(s) && |spares| == |pairs| && AllActionable(c, s, pairs)
    ensures var (s', n) := GroupAll(c, s, pairs, spares);
            Unmoderated(s') && n == ComponentCount(c, s) - ComponentCount(c, s')
    decreases |pairs|
  {
    if pairs != [] {
      var s1, n1 := FirstGrouping(c, s, pairs, spares);
      GroupAllCounts(c, s1, pairs[1..], spares[1..]);
    }
  }

  lemma {:induction false} GroupAllContains(c: Catalog, s: Rows, pairs: seq<Pair>, spares: seq<Uuid>)
    requires Inv(c, s) && Unmoderated(s) && |spares| == |pairs| && AllActionable(c, s, pairs)
    ensures var s' := GroupAll(c, s, pairs, spares).0;
            && (forall x, y | Same(s, x, y) :: Same(s', x, y))
            && (forall p | p in pairs :: Same(s', p.low, p.high))
    decreases |pairs|
  {
    if pairs != [] {
      var s1, n1 := FirstGrouping(c, s, pairs, spares);
      GroupAllContains(c, s1, pairs[1..], spares[1..]);
      assert Joined(s, pairs[0], pairs[0].low) && Joined(s, pairs[0], pairs[0].high);
      assert Same(s1, pairs[0].low, pairs[0].high);
      assert forall p | p in pairs :: p == pairs[0] || p in pairs[1..];
    }
  }

  lemma JoinedConnects(s: Rows, edges: set<Pair>, p: Pair, x: Uuid, y: Uuid)
    requires p in edges && Joined(s, p, x) && Joined(s, p, y)
    ensures Connected(s, edges, x, y)
  {
    var u := if Same(s, x, p.low) then p.low else p.high;
    var v := if Same(s, y, p.low) then p.low else p.high;
    assert Pair(p.low, p.high) == p;
    LinkConnects(s, edges, x, u);
    LinkConnects(s, edges, u, v);
    LinkConnects(s, edges, v, y);
    ConnectedTransitive(s, edges, x, u, v);
    ConnectedTransitive(s, edges, x, v, y);
  }

  lemma {:induction false} GroupAllWithin(c: Catalog, s: Rows, pairs: seq<Pair>, spares: seq<Uuid>, a: Uuid, b: Uuid)
    requires Inv(c, s) && Unmoderated(s) && |spares| == |pairs| && AllActionable(c, s, pairs)
    requires Same(GroupAll(c, s, pairs, spares).0, a, b)
    ensures Connected(s, Edges(pairs), a, b)
    decreases |pairs|
  {
    if pairs == [] {
      LinkConnects(s, Edges(pairs), a, b);
    } else {
      var s1, n1 := FirstGrouping(c, s, pairs, spares);
      GroupAllWithin(c, s1, pairs[1..], spares[1..], a, b);
      var path :| IsPath(s1, Edges(pairs[1..]), path, a, b);
      forall x, y | Link(s1, Edges(pairs[1..]), x, y)
        ensures Connected(s, Edges(pairs), x, y)
      {
        assert Edges(pairs[1..]) <= Edges(pairs);
        if Link(s, Edges(pairs), x, y) {
          LinkConnects(s, Edges(pairs), x, y);
        } else {
          assert Same(s1, x, y);
          JoinedConnects(s, Edges(pairs), pairs[0], x, y);
        }
      }
      PathTransfers(s1, Edges(pairs[1..]), s, Edges(pairs), path, a, b);
    }
  }

  /**
    With no separations and no manual Primaries the loop ends with exactly the connected
    components of the earlier groups and the given pairs.
   */
  lemma GroupAllIsConnectedness(c: Catalog, s: Rows, pairs: seq<Pair>, spares: seq<Uuid>)
    requires Inv(c, s) && Unmoderated(s) && |spares| == |pairs| && AllActionable(c, s, pairs)
    ensures var s' := GroupAll(c, s, pairs, spares).0;
            forall a, b :: Same(s', a, b) <==> Connected(s, Edges(pairs), a, b)
  {
    var s' := GroupAll(c, s, pairs, spares).0;
    GroupAllContains(c, s, pairs, spares);
    forall a, b
      ensures Same(s', a, b) <==> Connected(s, Edges(pairs), a, b)
    {
      if Same(s', a, b) {
        GroupAllWithin(c, s, pairs, spares, a, b);
      }
      if Connected(s, Edges(pairs), a, b) {
        var path :| IsPath(s, Edges(pairs), path, a, b);
        PathCollapses(s, Edges(pairs), s', path, a, b);
      }
    }
  }

  lemma MembersAreSame(s: Rows, a: Uuid, b: Uuid)
    requires a in s.member
    ensures b in Members(s, s.member[a]) <==> Same(s, a, b)
  {
  }

  ghost predicate TouchedIn(s: Rows, pairs: seq<Pair>, a: Uuid) { exists p :: p in pairs && Same(s, a, p.low) }

  /** In touched groups the Primary is the least now, all other groups are as they were. */
  lemma {:induction false} GroupAllHeads(c: Catalog, s: Rows, pairs: seq<Pair>, spares: seq<Uuid>, a: Uuid)
    requires Inv(c, s) && Unmoderated(s) && |spares| == |pairs| && AllActionable(c, s, pairs)
    requires a in GroupAll(c, s, pairs, spares).0.member
    ensures var s' := GroupAll(c, s, pairs, spares).0;
            if TouchedIn(s', pairs, a) then HeadedNow(c, s', a) else AsBefore(s, s', a)
    decreases |pairs|
  {
    if pairs != [] {
      var s1, n1 := FirstGrouping(c, s, pairs, spares);
      GroupAllHeads(c, s1, pairs[1..], spares[1..], a);
      GroupAllContains(c, s1, pairs[1..], spares[1..]);
      HeadsCombine(c, s, pairs, s1, GroupAll(c, s1, pairs[1..], spares[1..]).0, a);
    }
  }

  lemma HeadsCombine(c: Catalog, s: Rows, pairs: seq<Pair>, s1: Rows, s': Rows, a: Uuid)
    requires c.Valid() && pairs != [] && HeadsAfter(c, s, pairs[0], s1) && JoinedBy(s, pairs[0], s1)
    requires forall x, y | Same(s1, x, y) :: Same(s', x, y)
    requires if TouchedIn(s', pairs[1..], a) then HeadedNow(c, s', a) else AsBefore(s1, s', a)
    ensures if TouchedIn(s', pairs, a) then HeadedNow(c, s', a) else AsBefore(s, s', a)
  {
    var p := pairs[0];
    if TouchedIn(s', pairs[1..], a) {
      var q :| q in pairs[1..] && Same(s', a, q.low);
      assert q in pairs;
    } else {
      assert forall q | q in pairs :: q == p || q in pairs[1..];
      assert HeadAt(c, s, p, s1, a);
      assert Joined(s, p, p.low);
      assert Same(s', a, p.low) <==> Same(s1, a, p.low);
      assert Same(s1, a, p.low) <==> Joined(s, p, a);
      assert p in pairs;
      if Joined(s, p, a) {
        HeadedStays(c, s1, s', a);
      }
    }
  }

  lemma HeadedStays(c: Catalog, s: Rows, s': Rows, a: Uuid)
    requires c.Valid() && HeadedNow(c, s, a) && AsBefore(s, s', a)
    ensures HeadedNow(c, s', a)
  {
    forall b
      ensures b in Members(s', s'.member[a]) <==> b in Members(s, s.member[a])
    {
      MembersAreSame(s, a, b);
      MembersAreSame(s', a, b);
    }
    assert Members(s', s'.member[a]) == Members(s, s.member[a]);
  }

  lemma LeastOfComponent(c: Catalog, s: Rows, edges: set<Pair>, s': Rows, a: Uuid)
    requires c.Valid() && HeadedNow(c, s', a)
    requires forall b :: Same(s', a, b) <==> Connected(s, edges, a, b)
    ensures IsLeast(c, s'.groups[s'.member[a]].primary, ConnectedTo(c, s, edges, a))
  {
    forall b
      ensures b in Members(s', s'.member[a]) <==> Connected(s, edges, a, b)
    {
      MembersAreSame(s', a, b);
    }
    assert Members(s', s'.member[a]) == ConnectedTo(c, s, edges, a);
  }

  /** Connected to one of the pairs. */
  ghost predicate Touched(s: Rows, pairs: seq<Pair>, a: Uuid) {
    exists p :: p in pairs && Connected(s, Edges(pairs), a, p.low)
  }

  /**
    Whatever the Primaries were before: the Primary of every touched group is the least Article
    connected to its members, and every other group keeps its members and its Primary.
   */
  lemma GroupAllPrimaries(c: Catalog, s: Rows, pairs: seq<Pair>, spares: seq<Uuid>, a: Uuid)
    requires Inv(c, s) && Unmoderated(s) && |spares| == |pairs| && AllActionable(c, s, pairs)
    requires a in GroupAll(c, s, pairs, spares).0.member
    ensures var s' := GroupAll(c, s, pairs, spares).0;
            && s'.member[a] in s'.groups
            && if Touched(s, pairs, a)
               then IsLeast(c, s'.groups[s'.member[a]].primary, ConnectedTo(c, s, Edges(pairs), a))
               else AsBefore(s, s', a)
  {
    var s' := GroupAll(c, s, pairs, spares).0;
    GroupAllHeads(c, s, pairs, spares, a);
    GroupAllIsConnectedness(c, s, pairs, spares);
    TouchedMeans(s, pairs, s', a);
    if Touched(s, pairs, a) {
      LeastOfComponent(c, s, Edges(pairs), s', a);
    }
  }

  lemma TouchedMeans(s: Rows, pairs: seq<Pair>, s': Rows, a: Uuid)
    requires forall x, y :: Same(s', x, y) <==> Connected(s, Edges(pairs), x, y)
    ensures Touched(s, pairs, a) <==> TouchedIn(s', pairs, a)
  {
    if Touched(s, pairs, a) {
      var p :| p in pairs && Connected(s, Edges(pairs), a, p.low);
      assert Same(s', a, p.low);
    }
    if TouchedIn(s', pairs, a) {
      var p :| p in pairs && Same(s', a, p.low);
      assert Connected(s, Edges(pairs), a, p.low);
    }
  }

  // ---------------------------------------------------------------------------
  // The order of the pairs does not matter

  ghost function Primaries(s: Rows): set<Uuid> { set g | g in s.groups :: s.groups[g].primary }

  /** There are as many groups as Primaries. */
  lemma PrimariesCountGroups(s: Rows)
    requires GroupsSound(s)
    ensures |Primaries(s)| == |s.groups.Keys|
  {
    forall g, h | g in s.groups && h in s.groups && g != h
      ensures s.groups[g].primary != s.groups[h].primary
    {
      PrimariesDiffer(s, g, h);
    }
    InjectiveImage(s.groups, s.groups.Keys);
    assert Primaries(s) == set g | g in s.groups.Keys :: s.groups[g].primary;
  }

  lemma {:induction false} InjectiveImage(groups: map<Uuid, Group>, keys: set<Uuid>)
    requires keys <= groups.Keys
    requires forall g, h | g in keys && h in keys && g != h :: groups[g].primary != groups[h].primary
    ensures |set g | g in keys :: groups[g].primary| == |keys|
  {
    var image := set g | g in keys :: groups[g].primary;
    if keys != {} {
      var k :| k in keys;
      InjectiveImage(groups, keys - {k});
      var rest := set g | g in keys - {k} :: groups[g].primary;
      assert image == rest + {groups[k].primary};
      assert groups[k].primary !in rest;
    }
  }

  ghost predicate SamePrimaryAt(s: Rows, t: Rows, a: Uuid) {
    && a in s.member && a in t.member && s.member[a] in s.groups && t.member[a] in t.groups
    && s.groups[s.member[a]].primary == t.groups[t.member[a]].primary
  }

  /** Every Article grouped in one state is grouped in the other, under the same Primary. */
  ghost predicate SamePrimaries(s: Rows, t: Rows) {
    forall a {:trigger SamePrimaryAt(s, t, a)} | a in s.member :: SamePrimaryAt(s, t, a)
  }

  ghost predicate SameGroups(s: Rows, t: Rows) { forall a, b :: Same(s, a, b) <==> Same(t, a, b) }

  lemma SameArticlesGrouped(s: Rows, t: Rows)
    requires SamePrimaries(s, t) && SamePrimaries(t, s)
    ensures s.member.Keys == t.member.Keys
  {
    assert forall a :: a in s.member ==> SamePrimaryAt(s, t, a);
    assert forall a :: a in t.member ==> SamePrimaryAt(t, s, a);
  }

  lemma SamePrimarySets(s: Rows, t: Rows)
    requires GroupsSound(s) && GroupsSound(t) && SamePrimaries(s, t) && SamePrimaries(t, s)
    ensures Primaries(s) == Primaries(t)
  {
    PrimariesWithin(s, t);
    PrimariesWithin(t, s);
  }

  lemma SameCount(c: Catalog, s: Rows, t: Rows)
    requires GroupsSound(s) && GroupsSound(t) && SamePrimaries(s, t) && SamePrimaries(t, s)
    ensures ComponentCount(c, s) == ComponentCount(c, t)
  {
    SameArticlesGrouped(s, t);
    SamePrimarySets(s, t);
    PrimariesCountGroups(s);
    PrimariesCountGroups(t);
  }

  lemma GroupedToo(c: Catalog, s: Rows, t: Rows, a: Uuid)
    requires GroupsSound(s) && MembershipsSound(c, s) && SameGroups(s, t) && a in s.member
    ensures a in t.member
  {
    var g := s.member[a];
    var p := s.groups[g].primary;
    var b :| b != p && InGroup(s, b, g);
    var other := if a == p then b else p;
    assert InGroup(s, p, g);
    assert Same(s, a, other);
    assert Same(t, a, other);
  }

  lemma PrimariesAgree(c: Catalog, t: Rows, u: Rows, a: Uuid)
    requires c.Valid() && HeadedNow(c, t, a) && HeadedNow(c, u, a) && SameGroups(t, u)
    ensures SamePrimaryAt(t, u, a)
  {
    var m, n := Members(t, t.member[a]), Members(u, u.member[a]);
    forall b
      ensures b in m <==> b in n
    {
      MembersAreSame(t, a, b);
      MembersAreSame(u, a, b);
    }
    assert m == n;
    LeastUnique(c, t.groups[t.member[a]].primary, u.groups[u.member[a]].primary, m);
  }

  lemma PrimariesWithin(s: Rows, t: Rows)
    requires GroupsSound(s) && SamePrimaries(s, t)
    ensures Primaries(s) <= Primaries(t)
  {
    forall g | g in s.groups
      ensures s.groups[g].primary in Primaries(t)
    {
      var a := s.groups[g].primary;
      assert InGroup(s, a, g);
      assert SamePrimaryAt(s, t, a);
    }
  }

  lemma SameOutcome(c: Catalog, s: Rows, pairs: seq<Pair>, spares: seq<Uuid>, others: seq<Pair>, otherSpares: seq<Uuid>)
    requires Inv(c, s) && Unmoderated(s) && |spares| == |pairs| && |otherSpares| == |others|
    requires AllActionable(c, s, pairs) && AllActionable(c, s, others) && Edges(pairs) == Edges(others)
    requires SameGroups(GroupAll(c, s, pairs, spares).0, GroupAll(c, s, others, otherSpares).0)
    ensures SamePrimaries(GroupAll(c, s, pairs, spares).0, GroupAll(c, s, others, otherSpares).0)
  {
    var t, u := GroupAll(c, s, pairs, spares).0, GroupAll(c, s, others, otherSpares).0;
    forall a | a in t.member
      ensures SamePrimaryAt(t, u, a)
    {
      GroupedToo(c, t, u, a);
      GroupAllHeads(c, s, pairs, spares, a);
      GroupAllHeads(c, s, others, otherSpares, a);
      SameTouched(t, u, pairs, others, a);
      if TouchedIn(t, pairs, a) {
        PrimariesAgree(c, t, u, a);
      }
    }
  }

  lemma SameTouched(t: Rows, u: Rows, pairs: seq<Pair>, others: seq<Pair>, a: Uuid)
    requires SameGroups(t, u) && Edges(pairs) == Edges(others)
    ensures TouchedIn(t, pairs, a) <==> TouchedIn(u, others, a)
  {
    assert forall p :: p in pairs <==> p in Edges(pairs);
    assert forall p :: p in others <==> p in Edges(others);
  }

  lemma SameConnectedness(s: Rows, edges: set<Pair>, t: Rows, u: Rows)
    requires forall a, b :: Same(t, a, b) <==> Connected(s, edges, a, b)
    requires forall a, b :: Same(u, a, b) <==> Connected(s, edges, a, b)
    ensures SameGroups(t, u)
  {
  }

  lemma SameEdgesActionable(c: Catalog, s: Rows, pairs: seq<Pair>, others: seq<Pair>)
    requires c.Valid() && PairsSound(c, s) && AllActionable(c, s, pairs) && Edges(pairs) == Edges(others)
    ensures AllActionable(c, s, others)
  {
    forall p | p in others
      ensures Actionable(c, s, p)
    {
      assert p in Edges(others);
    }
  }

  /** Two orders of the same pairs: same groups, same Primaries, same count. */
  lemma OrderDoesNotMatter(c: Catalog, s: Rows, pairs: seq<Pair>, spares: seq<Uuid>,
                           others: seq<Pair>, otherSpares: seq<Uuid>)
    requires Inv(c, s) && Unmoderated(s) && |spares| == |pairs| && |otherSpares| == |others|
    requires AllActionable(c, s, pairs) && Edges(pairs) == Edges(others)
    ensures AllActionable(c, s, others)
    ensures var (t, n) := GroupAll(c, s, pairs, spares);
            var (u, m) := GroupAll(c, s, others, otherSpares);
            && SameGroups(t, u)
            && SamePrimaries(t, u)
            && n == m
  {
    SameEdgesActionable(c, s, pairs, others);
    GroupAllIsConnectedness(c, s, pairs, spares);
    GroupAllIsConnectedness(c, s, others, otherSpares);
    GroupAllCounts(c, s, pairs, spares);
    GroupAllCounts(c, s, others, otherSpares);
    var t, u := GroupAll(c, s, pairs, spares).0, GroupAll(c, s, others, otherSpares).0;
    SameConnectedness(s, Edges(pairs), t, u);
    SameOutcome(c, s, pairs, spares, others, otherSpares);
    SameOutcome(c, s, others, otherSpares, pairs, spares);
    SameCount(c, t, u);
  }
}
