/** What each administrative command does, and when, told by the rows alone. */
module AdministrationEffects {
  import opened DomainRules
  import opened Administration

  predicate Approved(s: Source) { s.approved && !s.archived }

  /** The host itself, or a name below it where the rule includes those. */
  predicate Below(host: string, rule: Rule) {
    host == rule.hostname ||
    (rule.includeSubdomains && |host| > |rule.hostname| &&
     host[|host| - |rule.hostname| - 1] == '.' && host[|host| - |rule.hostname|..] == rule.hostname)
  }

  /** Inside some rule, and not wider below it. */
  predicate Inside(narrow: Rule, rules: seq<Rule>) {
    exists j | 0 <= j < |rules| :: Below(narrow.hostname, rules[j]) && (rules[j].includeSubdomains || !narrow.includeSubdomains)
  }

  /** Each narrowing rule lies inside a Source rule, and an approved host inside what then applies. */
  predicate Permitted(rules: seq<Rule>, e: Endpoint) {
    && (forall i, j | 0 <= i < j < |e.narrowing| :: e.narrowing[i].hostname != e.narrowing[j].hostname)
    && (forall i | 0 <= i < |e.narrowing| :: Inside(e.narrowing[i], rules))
    && (e.approved ==>
          if e.narrowing == [] then exists j | 0 <= j < |rules| :: Below(e.host, rules[j])
          else exists i | 0 <= i < |e.narrowing| :: Below(e.host, e.narrowing[i]))
  }

  lemma MatchingIsBelow(host: string, rule: Rule)
    ensures HostMatches(host, rule) <==> Below(host, rule)
  {
    var suffix := "." + rule.hostname;
    if |host| > |rule.hostname| {
      var tail := host[|host| - |suffix|..];
      assert tail[1..] == host[|host| - |rule.hostname|..];
      assert tail == suffix <==> tail[0] == '.' && tail[1..] == rule.hostname;
    }
  }

  lemma PolicyIsPermission(rules: seq<Rule>, e: Endpoint)
    ensures InPolicy(rules, e) <==> Permitted(rules, e)
  {
    forall host, rule
      ensures HostMatches(host, rule) <==> Below(host, rule)
    {
      MatchingIsBelow(host, rule);
    }
    NarrowingIsInside(rules, e.narrowing);
    AdmittedIsBelow(rules, e.host);
    AdmittedIsBelow(e.narrowing, e.host);
  }

  lemma AdmittedIsBelow(rules: seq<Rule>, host: string)
    ensures Admits(rules, host) <==> exists j | 0 <= j < |rules| :: Below(host, rules[j])
  {
    forall rule
      ensures HostMatches(host, rule) <==> Below(host, rule)
    {
      MatchingIsBelow(host, rule);
    }
  }

  lemma NarrowingIsInside(rules: seq<Rule>, narrowing: seq<Rule>)
    ensures NarrowsAll(rules, narrowing) <==> forall i | 0 <= i < |narrowing| :: Inside(narrowing[i], rules)
  {
    if NarrowsAll(rules, narrowing) {
      forall i | 0 <= i < |narrowing|
        ensures Inside(narrowing[i], rules)
      {
        var j :| 0 <= j < |rules| && IsNarrower(rules[j], narrowing[i]);
        MatchingIsBelow(narrowing[i].hostname, rules[j]);
      }
    }
    if forall i | 0 <= i < |narrowing| :: Inside(narrowing[i], rules) {
      forall i | 0 <= i < |narrowing|
        ensures exists j | 0 <= j < |rules| :: IsNarrower(rules[j], narrowing[i])
      {
        assert Inside(narrowing[i], rules);
        var j :| 0 <= j < |rules| && Below(narrowing[i].hostname, rules[j]) &&
          (rules[j].includeSubdomains || !narrowing[i].includeSubdomains);
        MatchingIsBelow(narrowing[i].hostname, rules[j]);
        assert IsNarrower(rules[j], narrowing[i]);
      }
    }
  }

  /** Every active Profile on the Source has another approved and active Source. */
  predicate Dispensable(t: Tables, id: Id) {
    forall p | p in t.profiles && t.profiles[p].lifecycle == Active && id in t.profiles[p].sources ::
      exists s | s in t.profiles[p].sources :: s != id && s in t.sources && Approved(t.sources[s])
  }

  lemma ProfilesRemainExactly(t: Tables, id: Id, proposed: Source)
    requires !Approved(proposed)
    ensures ActiveProfilesRemain(t, id, proposed) <==> Dispensable(t, id)
  {
    forall p | p in t.profiles
      ensures RemainsUsable(t, t.profiles[p], id, proposed) <==>
                exists s | s in t.profiles[p].sources :: s != id && s in t.sources && Approved(t.sources[s])
    {
      if RemainsUsable(t, t.profiles[p], id, proposed) {
        var s :| s in t.profiles[p].sources && if s == id then IsUsable(proposed) else s in t.sources && IsUsable(t.sources[s]);
        assert s != id && s in t.sources && Approved(t.sources[s]);
      }
    }
  }

  /** One Source row is written. */
  ghost predicate SourceWritten(t: Tables, u: Tables, id: Id, row: Source) { u == Tables(t.sources[id := row], t.endpoints, t.profiles) }

  ghost predicate EndpointWritten(t: Tables, u: Tables, id: Id, row: Endpoint) { u == Tables(t.sources, t.endpoints[id := row], t.profiles) }

  ghost predicate ProfileWritten(t: Tables, u: Tables, id: Id, row: Profile) { u == Tables(t.sources, t.endpoints, t.profiles[id := row]) }

  lemma SourceEffects(t: Tables, id: Id, approved: bool, archived: bool, rules: seq<Rule>)
    ensures var u := Apply(t, CreateSource(id, approved, rules));
            if id !in t.sources && DistinctHostnames(rules) then SourceWritten(t, u, id, Source(approved, false, rules)) else u == t
    ensures var u := Apply(t, ReplaceSourceRules(id, rules));
            if id in t.sources && DistinctHostnames(rules) && forall e | e in t.endpoints && t.endpoints[e].source == id :: Permitted(rules, t.endpoints[e])
            then SourceWritten(t, u, id, Source(t.sources[id].approved, t.sources[id].archived, rules)) else u == t
    ensures var u := Apply(t, SetSourceApproval(id, approved));
            if id in t.sources && (approved || !t.sources[id].approved || Dispensable(t, id))
            then SourceWritten(t, u, id, Source(approved, t.sources[id].archived, t.sources[id].rules)) else u == t
    ensures var u := Apply(t, SetSourceLifecycle(id, archived));
            if id in t.sources && (!archived || t.sources[id].archived || Dispensable(t, id))
            then SourceWritten(t, u, id, Source(t.sources[id].approved, archived, t.sources[id].rules)) else u == t
  {
    forall e | e in t.endpoints
      ensures InPolicy(rules, t.endpoints[e]) <==> Permitted(rules, t.endpoints[e])
    {
      PolicyIsPermission(rules, t.endpoints[e]);
    }
    if id in t.sources {
      ProfilesRemainExactly(t, id, t.sources[id].(approved := false));
      ProfilesRemainExactly(t, id, t.sources[id].(archived := true));
    }
  }

  lemma EndpointEffects(t: Tables, id: Id, e: Endpoint, host: string, narrowing: seq<Rule>, approved: bool)
    ensures var u := Apply(t, CreateEndpoint(id, e));
            if id !in t.endpoints && e.source in t.sources && !t.sources[e.source].archived && Permitted(t.sources[e.source].rules, e)
            then EndpointWritten(t, u, id, e) else u == t
    ensures var u := Apply(t, ReplaceEndpoint(id, host, narrowing));
            if id in t.endpoints && t.endpoints[id].source in t.sources &&
               Permitted(t.sources[t.endpoints[id].source].rules, t.endpoints[id].(host := host, narrowing := narrowing))
            then EndpointWritten(t, u, id, t.endpoints[id].(host := host, narrowing := narrowing)) else u == t
    ensures var u := Apply(t, SetEndpointApproval(id, approved));
            if id in t.endpoints && t.endpoints[id].source in t.sources && !t.endpoints[id].htmlListing &&
               Permitted(t.sources[t.endpoints[id].source].rules, t.endpoints[id].(approved := approved))
            then EndpointWritten(t, u, id, t.endpoints[id].(approved := approved)) else u == t
  {
    forall rules, row
      ensures InPolicy(rules, row) <==> Permitted(rules, row)
    {
      PolicyIsPermission(rules, row);
    }
  }

  lemma ProfileEffects(t: Tables, id: Id, source: Id, lifecycle: ProfileLifecycle)
    ensures var u := Apply(t, CreateProfile(id));
            if id !in t.profiles then ProfileWritten(t, u, id, Profile(Draft, {})) else u == t
    ensures var u := Apply(t, AssociateSource(id, source));
            if id in t.profiles && source in t.sources
            then ProfileWritten(t, u, id, Profile(t.profiles[id].lifecycle, t.profiles[id].sources + {source})) else u == t
    ensures var u := Apply(t, RemoveSource(id, source));
            if id in t.profiles && source in t.profiles[id].sources &&
               (t.profiles[id].lifecycle == Active ==>
                  exists s | s in t.profiles[id].sources :: s != source && s in t.sources && Approved(t.sources[s]))
            then ProfileWritten(t, u, id, Profile(t.profiles[id].lifecycle, t.profiles[id].sources - {source})) else u == t
    ensures var u := Apply(t, SetProfileLifecycle(id, lifecycle));
            if id in t.profiles && (t.profiles[id].lifecycle, lifecycle) in {(Draft, Active), (Active, Disabled), (Disabled, Active)} &&
               (lifecycle == Active ==> exists s | s in t.profiles[id].sources :: s in t.sources && Approved(t.sources[s]))
            then ProfileWritten(t, u, id, Profile(lifecycle, t.profiles[id].sources)) else u == t
  {
  }

  /** The two policies in the terms of the rows, after any commands. */
  lemma PoliciesInRows(commands: seq<Command>)
    ensures var t := Run(Empty, commands);
            && (forall p | p in t.profiles && t.profiles[p].lifecycle == Active ::
                  exists s | s in t.profiles[p].sources :: s in t.sources && t.sources[s].approved && !t.sources[s].archived)
            && (forall e | e in t.endpoints :: t.endpoints[e].source in t.sources &&
                                               Permitted(t.sources[t.endpoints[e].source].rules, t.endpoints[e]))
  {
    EveryReachableState(Empty, commands);
    var t := Run(Empty, commands);
    forall e | e in t.endpoints
      ensures t.endpoints[e].source in t.sources && Permitted(t.sources[t.endpoints[e].source].rules, t.endpoints[e])
    {
      PolicyIsPermission(t.sources[t.endpoints[e].source].rules, t.endpoints[e]);
    }
  }
}
