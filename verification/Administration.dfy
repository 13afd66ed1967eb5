/**
  Administrative commands on Sources, endpoints and Profiles: which of them are refused, and the
  two policies no sequence of them can break (src/admin/source-administration.ts,
  src/admin/endpoint-administration.ts, src/admin/distribution-profile-administration.ts).
 */
module Administration {
  import opened DomainRules

  type Id = nat

  datatype Source = Source(approved: bool, archived: bool, rules: seq<Rule>)

  datatype Endpoint = Endpoint(source: Id, host: string, approved: bool, narrowing: seq<Rule>, htmlListing: bool)

  datatype ProfileLifecycle = Draft | Active | Disabled

  datatype Profile = Profile(lifecycle: ProfileLifecycle, sources: set<Id>)

  datatype Tables = Tables(sources: map<Id, Source>, endpoints: map<Id, Endpoint>, profiles: map<Id, Profile>)

  const Empty := Tables(map[], map[], map[])

  datatype Command =
    | CreateSource(id: Id, approved: bool, rules: seq<Rule>)
    | ReplaceSourceRules(id: Id, rules: seq<Rule>)
    | SetSourceApproval(id: Id, approved: bool)
    | SetSourceLifecycle(id: Id, archived: bool)
    | CreateEndpoint(id: Id, endpoint: Endpoint)
    | ReplaceEndpoint(id: Id, host: string, narrowing: seq<Rule>)
    | SetEndpointApproval(id: Id, approved: bool)
    | CreateProfile(id: Id)
    | AssociateSource(id: Id, source: Id)
    | RemoveSource(id: Id, source: Id)
    | SetProfileLifecycle(id: Id, lifecycle: ProfileLifecycle)

  // ---------------------------------------------------------------------------
  // The policies

  /** The narrowing is allowed, and an approved host is inside what it leaves. */
  predicate InPolicy(sourceRules: seq<Rule>, e: Endpoint) {
    && DistinctHostnames(e.narrowing)
    && var effective := EffectiveRules(sourceRules, e.narrowing);
       effective.Some? && (e.approved ==> Admits(effective.value, e.host))
  }

  predicate IsUsable(s: Source) { s.approved && !s.archived }

  predicate HasUsable(sources: map<Id, Source>, p: Profile) {
    exists s | s in p.sources :: s in sources && IsUsable(sources[s])
  }

  ghost predicate References(t: Tables) {
    && (forall e | e in t.endpoints :: t.endpoints[e].source in t.sources)
    && (forall p | p in t.profiles :: t.profiles[p].sources <= t.sources.Keys)
    && (forall s | s in t.sources :: DistinctHostnames(t.sources[s].rules))
  }

  ghost predicate EndpointsInPolicy(t: Tables) {
    forall e | e in t.endpoints ::
      t.endpoints[e].source in t.sources && InPolicy(t.sources[t.endpoints[e].source].rules, t.endpoints[e])
  }

  ghost predicate ActiveProfilesUsable(t: Tables) {
    forall p | p in t.profiles && t.profiles[p].lifecycle == Active :: HasUsable(t.sources, t.profiles[p])
  }

  ghost predicate Inv(t: Tables) { References(t) && EndpointsInPolicy(t) && ActiveProfilesUsable(t) }

  // ---------------------------------------------------------------------------
  // Commands

  predicate Transition(current: ProfileLifecycle, requested: ProfileLifecycle) {
    (current == Draft && requested == Active) || (current == Active && requested == Disabled) ||
    (current == Disabled && requested == Active)
  }

  /** The rows exist, the input is well formed, and nothing stands in the way but a policy. */
  predicate Addressed(t: Tables, k: Command) {
    match k
    case CreateSource(id, _, rules) => id !in t.sources && DistinctHostnames(rules)
    case ReplaceSourceRules(id, rules) => id in t.sources && DistinctHostnames(rules)
    case SetSourceApproval(id, _) => id in t.sources
    case SetSourceLifecycle(id, _) => id in t.sources
    case CreateEndpoint(id, e) => id !in t.endpoints && e.source in t.sources && !t.sources[e.source].archived
    case ReplaceEndpoint(id, _, _) => id in t.endpoints && t.endpoints[id].source in t.sources
    case SetEndpointApproval(id, _) => id in t.endpoints && t.endpoints[id].source in t.sources && !t.endpoints[id].htmlListing
    case CreateProfile(id) => id !in t.profiles
    case AssociateSource(id, source) => id in t.profiles && source in t.sources
    case RemoveSource(id, source) => id in t.profiles && source in t.profiles[id].sources
    case SetProfileLifecycle(id, lifecycle) => id in t.profiles && Transition(t.profiles[id].lifecycle, lifecycle)
  }

  function Update(t: Tables, k: Command): Tables
    requires Addressed(t, k)
  {
    match k
    case CreateSource(id, approved, rules) => t.(sources := t.sources[id := Source(approved, false, rules)])
    case ReplaceSourceRules(id, rules) => t.(sources := t.sources[id := t.sources[id].(rules := rules)])
    case SetSourceApproval(id, approved) => t.(sources := t.sources[id := t.sources[id].(approved := approved)])
    case SetSourceLifecycle(id, archived) => t.(sources := t.sources[id := t.sources[id].(archived := archived)])
    case CreateEndpoint(id, e) => t.(endpoints := t.endpoints[id := e])
    case ReplaceEndpoint(id, host, narrowing) =>
      t.(endpoints := t.endpoints[id := t.endpoints[id].(host := host, narrowing := narrowing)])
    case SetEndpointApproval(id, approved) => t.(endpoints := t.endpoints[id := t.endpoints[id].(approved := approved)])
    case CreateProfile(id) => t.(profiles := t.profiles[id := Profile(Draft, {})])
    case AssociateSource(id, source) =>
      t.(profiles := t.profiles[id := t.profiles[id].(sources := t.profiles[id].sources + {source})])
    case RemoveSource(id, source) =>
      t.(profiles := t.profiles[id := t.profiles[id].(sources := t.profiles[id].sources - {source})])
    case SetProfileLifecycle(id, lifecycle) => t.(profiles := t.profiles[id := t.profiles[id].(lifecycle := lifecycle)])
  }

  /** Some other usable Source, or this one as proposed. */
  predicate RemainsUsable(t: Tables, p: Profile, target: Id, proposed: Source) {
    exists s | s in p.sources ::
      if s == target then IsUsable(proposed) else s in t.sources && IsUsable(t.sources[s])
  }

  predicate ActiveProfilesRemain(t: Tables, target: Id, proposed: Source) {
    forall p | p in t.profiles && t.profiles[p].lifecycle == Active && target in t.profiles[p].sources ::
      RemainsUsable(t, t.profiles[p], target, proposed)
  }

  predicate RetainedInPolicy(t: Tables, id: Id, rules: seq<Rule>) {
    forall e | e in t.endpoints && t.endpoints[e].source == id :: InPolicy(rules, t.endpoints[e])
  }

  /** The checks a command makes before it writes. */
  predicate Guard(t: Tables, k: Command)
    requires Addressed(t, k)
  {
    match k
    case ReplaceSourceRules(id, rules) => RetainedInPolicy(t, id, rules)
    case SetSourceApproval(id, approved) =>
      t.sources[id].approved && !approved ==> ActiveProfilesRemain(t, id, t.sources[id].(approved := false))
    case SetSourceLifecycle(id, archived) =>
      !t.sources[id].archived && archived ==> ActiveProfilesRemain(t, id, t.sources[id].(archived := true))
    case CreateEndpoint(_, e) => InPolicy(t.sources[e.source].rules, e)
    case ReplaceEndpoint(id, host, narrowing) =>
      InPolicy(t.sources[t.endpoints[id].source].rules, t.endpoints[id].(host := host, narrowing := narrowing))
    case SetEndpointApproval(id, approved) =>
      InPolicy(t.sources[t.endpoints[id].source].rules, t.endpoints[id].(approved := approved))
    case RemoveSource(id, source) =>
      t.profiles[id].lifecycle == Active ==>
        exists s | s in t.profiles[id].sources :: s != source && s in t.sources && IsUsable(t.sources[s])
    case SetProfileLifecycle(id, lifecycle) => lifecycle == Active ==> HasUsable(t.sources, t.profiles[id])
    case _ => true
  }

  function Apply(t: Tables, k: Command): Tables {
    if Addressed(t, k) && Guard(t, k) then Update(t, k) else t
  }

  function Run(t: Tables, commands: seq<Command>): Tables
    decreases |commands|
  {
    if commands == [] then t else Run(Apply(t, commands[0]), commands[1..])
  }

  // ---------------------------------------------------------------------------
  // The checks are exact

  lemma SourceGuardExact(t: Tables, id: Id, proposed: Source)
    requires Inv(t) && id in t.sources
    ensures ActiveProfilesRemain(t, id, proposed) <==> ActiveProfilesUsable(t.(sources := t.sources[id := proposed]))
  {
    var u := t.(sources := t.sources[id := proposed]);
    forall p | p in t.profiles && t.profiles[p].lifecycle == Active
      ensures id in t.profiles[p].sources ==>
                (RemainsUsable(t, t.profiles[p], id, proposed) <==> HasUsable(u.sources, u.profiles[p]))
      ensures id !in t.profiles[p].sources ==> HasUsable(u.sources, u.profiles[p])
    {
      var profile := t.profiles[p];
      assert HasUsable(t.sources, profile);
      if id in profile.sources && RemainsUsable(t, profile, id, proposed) {
        var s :| s in profile.sources && (if s == id then IsUsable(proposed) else s in t.sources && IsUsable(t.sources[s]));
        assert s in u.sources && IsUsable(u.sources[s]);
      }
      if HasUsable(u.sources, profile) {
        var s :| s in profile.sources && s in u.sources && IsUsable(u.sources[s]);
        assert if s == id then IsUsable(proposed) else s in t.sources && IsUsable(t.sources[s]);
      }
      if id !in profile.sources {
        var s :| s in profile.sources && s in t.sources && IsUsable(t.sources[s]);
        assert s in u.sources && IsUsable(u.sources[s]);
      }
    }
  }

  lemma RulesUnchangedKeepEndpoints(t: Tables, id: Id, proposed: Source)
    requires Inv(t) && id in t.sources && proposed.rules == t.sources[id].rules
    ensures var u := t.(sources := t.sources[id := proposed]); References(u) && EndpointsInPolicy(u)
  {
    var u := t.(sources := t.sources[id := proposed]);
    assert u.sources.Keys == t.sources.Keys;
  }

  lemma RulesGuardExact(t: Tables, id: Id, rules: seq<Rule>)
    requires Inv(t) && id in t.sources && DistinctHostnames(rules)
    ensures RetainedInPolicy(t, id, rules) <==> Inv(t.(sources := t.sources[id := t.sources[id].(rules := rules)]))
  {
    var proposed := t.sources[id].(rules := rules);
    var u := t.(sources := t.sources[id := proposed]);
    assert u.sources.Keys == t.sources.Keys;
    forall p | p in t.profiles && t.profiles[p].lifecycle == Active
      ensures HasUsable(u.sources, u.profiles[p])
    {
      assert HasUsable(t.sources, t.profiles[p]);
      var s :| s in t.profiles[p].sources && s in t.sources && IsUsable(t.sources[s]);
      assert s in u.sources && IsUsable(u.sources[s]);
    }
    if EndpointsInPolicy(u) {
      forall e | e in t.endpoints && t.endpoints[e].source == id
        ensures InPolicy(rules, t.endpoints[e])
      {
        assert InPolicy(u.sources[u.endpoints[e].source].rules, u.endpoints[e]);
      }
    }
  }

  lemma EndpointGuardExact(t: Tables, id: Id, e: Endpoint)
    requires Inv(t) && e.source in t.sources
    ensures InPolicy(t.sources[e.source].rules, e) <==> Inv(t.(endpoints := t.endpoints[id := e]))
  {
    var u := t.(endpoints := t.endpoints[id := e]);
    assert u.endpoints[id] == e;
    assert ActiveProfilesUsable(u);
    assert References(u);
  }

  lemma ProfileGuardExact(t: Tables, id: Id, p: Profile)
    requires Inv(t) && p.sources <= t.sources.Keys
    ensures (p.lifecycle == Active ==> HasUsable(t.sources, p)) <==> Inv(t.(profiles := t.profiles[id := p]))
  {
    var u := t.(profiles := t.profiles[id := p]);
    assert u.profiles[id] == p;
    assert EndpointsInPolicy(u) && References(u);
  }

  lemma MoreSourcesStillUsable(sources: map<Id, Source>, p: Profile, q: Profile)
    requires HasUsable(sources, p) && p.sources <= q.sources
    ensures HasUsable(sources, q)
  {
    var s :| s in p.sources && s in sources && IsUsable(sources[s]);
    assert s in q.sources;
  }

  lemma OtherUsable(sources: map<Id, Source>, p: Profile, source: Id)
    ensures HasUsable(sources, p.(sources := p.sources - {source})) <==>
              exists s | s in p.sources :: s != source && s in sources && IsUsable(sources[s])
  {
    var q := p.(sources := p.sources - {source});
    if HasUsable(sources, q) {
      var s :| s in q.sources && s in sources && IsUsable(sources[s]);
      assert s in p.sources && s != source;
    }
    if s :| s in p.sources && s != source && s in sources && IsUsable(sources[s]) {
      assert s in q.sources;
    }
  }

  lemma NewSourceKeepsInv(t: Tables, id: Id, s: Source)
    requires Inv(t) && id !in t.sources && DistinctHostnames(s.rules)
    ensures Inv(t.(sources := t.sources[id := s]))
  {
    var u := t.(sources := t.sources[id := s]);
    forall p | p in t.profiles && t.profiles[p].lifecycle == Active
      ensures HasUsable(u.sources, u.profiles[p])
    {
      assert HasUsable(t.sources, t.profiles[p]);
      var x :| x in t.profiles[p].sources && x in t.sources && IsUsable(t.sources[x]);
      assert x in u.sources && IsUsable(u.sources[x]);
    }
  }

  /** A change to a Source's states, guarded only in the direction that could take usability away. */
  lemma StateGuardExact(t: Tables, id: Id, proposed: Source, guarded: bool)
    requires Inv(t) && id in t.sources && proposed.rules == t.sources[id].rules
    requires !guarded ==> IsUsable(t.sources[id]) ==> IsUsable(proposed)
    ensures (guarded ==> ActiveProfilesRemain(t, id, proposed)) <==> Inv(t.(sources := t.sources[id := proposed]))
  {
    SourceGuardExact(t, id, proposed);
    RulesUnchangedKeepEndpoints(t, id, proposed);
    if !guarded {
      forall p | p in t.profiles && t.profiles[p].lifecycle == Active
        ensures RemainsUsable(t, t.profiles[p], id, proposed)
      {
        assert HasUsable(t.sources, t.profiles[p]);
        var s :| s in t.profiles[p].sources && s in t.sources && IsUsable(t.sources[s]);
        assert if s == id then IsUsable(proposed) else s in t.sources && IsUsable(t.sources[s]);
      }
    }
  }

  /**
    A command that reaches its rows is refused exactly when carrying it out would break a policy:
    nothing harmful passes and nothing harmless is refused.
   */
  lemma GuardIsExact(t: Tables, k: Command)
    requires Inv(t) && Addressed(t, k)
    ensures Guard(t, k) <==> Inv(Update(t, k))
  {
    match k
    case CreateSource(id, approved, rules) => NewSourceKeepsInv(t, id, Source(approved, false, rules));
    case ReplaceSourceRules(id, rules) => RulesGuardExact(t, id, rules);
    case SetSourceApproval(id, approved) =>
      StateGuardExact(t, id, t.sources[id].(approved := approved), t.sources[id].approved && !approved);
    case SetSourceLifecycle(id, archived) =>
      StateGuardExact(t, id, t.sources[id].(archived := archived), !t.sources[id].archived && archived);
    case CreateEndpoint(id, e) => EndpointGuardExact(t, id, e);
    case ReplaceEndpoint(id, host, narrowing) =>
      EndpointGuardExact(t, id, t.endpoints[id].(host := host, narrowing := narrowing));
    case SetEndpointApproval(id, approved) => EndpointGuardExact(t, id, t.endpoints[id].(approved := approved));
    case CreateProfile(id) => ProfileGuardExact(t, id, Profile(Draft, {}));
    case AssociateSource(id, source) =>
      var q := t.profiles[id].(sources := t.profiles[id].sources + {source});
      ProfileGuardExact(t, id, q);
      if t.profiles[id].lifecycle == Active {
        MoreSourcesStillUsable(t.sources, t.profiles[id], q);
      }
    case RemoveSource(id, source) =>
      ProfileGuardExact(t, id, t.profiles[id].(sources := t.profiles[id].sources - {source}));
      OtherUsable(t.sources, t.profiles[id], source);
    case SetProfileLifecycle(id, lifecycle) =>
      ProfileGuardExact(t, id, t.profiles[id].(lifecycle := lifecycle));
  }

  /** In every reachable state approved hosts are inside their effective rules and active Profiles have a usable Source. */
  lemma {:induction false} EveryReachableState(t: Tables, commands: seq<Command>)
    requires Inv(t)
    ensures Inv(Run(t, commands)) && Inv(Empty)
    decreases |commands|
  {
    if commands != [] {
      if Addressed(t, commands[0]) {
        GuardIsExact(t, commands[0]);
      }
      EveryReachableState(Apply(t, commands[0]), commands[1..]);
    }
  }

  /** What this means for a host: an approved endpoint's host is admitted by its Source's own rules. */
  lemma ApprovedHostAdmitted(commands: seq<Command>, e: Id)
    requires var t := Run(Empty, commands); e in t.endpoints && t.endpoints[e].approved
    ensures var t := Run(Empty, commands);
            t.endpoints[e].source in t.sources && Admits(t.sources[t.endpoints[e].source].rules, t.endpoints[e].host)
  {
    EveryReachableState(Empty, commands);
    var t := Run(Empty, commands);
    var endpoint := t.endpoints[e];
    assert InPolicy(t.sources[endpoint.source].rules, endpoint);
    AcceptedNeverWidens(t.sources[endpoint.source].rules, endpoint.narrowing, endpoint.host);
  }
}
