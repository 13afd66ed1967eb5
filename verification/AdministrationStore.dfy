/** The administrative commands as updates of the tables behind their guard loops. */
module AdministrationStore {
  import opened DomainRules
  import opened Administration

  class AdministrationTables {
    var sources: map<Id, Source>
    var endpoints: map<Id, Endpoint>
    var profiles: map<Id, Profile>

    function State(): Tables
      reads this
    {
      Tables(sources, endpoints, profiles)
    }

    ghost predicate Valid()
      reads this
    {
      Inv(State())
    }

    constructor ()
      ensures Valid() && State() == Empty
    {
      sources, endpoints, profiles := map[], map[], map[];
    }

    // -------------------------------------------------------------------------
    // Guards

    method ValidateEndpointPolicy(sourceRules: seq<Rule>, e: Endpoint) returns (ok: bool)
      ensures ok == InPolicy(sourceRules, e)
    {
      var narrowing := NormalizeRules(e.narrowing);
      if narrowing.None? { return false; }
      var effective := CheckNarrowing(sourceRules, e.narrowing);
      if effective.None? { return false; }
      return !e.approved || Admits(effective.value, e.host);
    }

    method ValidateRetainedEndpointPolicies(id: Id, rules: seq<Rule>) returns (ok: bool)
      ensures ok == RetainedInPolicy(State(), id, rules)
    {
      var rest := set e | e in endpoints && endpoints[e].source == id;
      while rest != {}
        invariant forall e | e in rest :: e in endpoints && endpoints[e].source == id
        invariant forall e | e in endpoints && endpoints[e].source == id && e !in rest :: InPolicy(rules, endpoints[e])
        decreases rest
      {
        var e :| e in rest;
        rest := rest - {e};
        var retained := ValidateEndpointPolicy(rules, endpoints[e]);
        if !retained { return false; }
      }
      return true;
    }

    method RequireActiveProfilesRemainUsable(target: Id, proposed: Source) returns (ok: bool)
      ensures ok == ActiveProfilesRemain(State(), target, proposed)
    {
      var rest := set p | p in profiles && profiles[p].lifecycle == Active && target in profiles[p].sources;
      while rest != {}
        invariant forall p | p in rest :: p in profiles && profiles[p].lifecycle == Active && target in profiles[p].sources
        invariant forall p | p in profiles && profiles[p].lifecycle == Active && target in profiles[p].sources && p !in rest ::
                    RemainsUsable(State(), profiles[p], target, proposed)
        decreases rest
      {
        var p :| p in rest;
        rest := rest - {p};
        if !RemainsUsable(State(), profiles[p], target, proposed) { return false; }
      }
      return true;
    }

    ghost predicate Carries(before: Tables, k: Command, done: bool)
      reads this
    {
      && Inv(State()) && State() == Administration.Apply(before, k)
      && (done <==> Addressed(before, k) && Guard(before, k))
    }

    // -------------------------------------------------------------------------
    // Sources

    method CreateNewSource(id: Id, approved: bool, rules: seq<Rule>) returns (done: bool)
      requires Valid()
      modifies this`sources
      ensures Carries(old(State()), CreateSource(id, approved, rules), done)
    {
      var normalized := NormalizeRules(rules);
      if id in sources || normalized.None? { return false; }
      GuardIsExact(State(), CreateSource(id, approved, rules));
      sources := sources[id := Source(approved, false, rules)];
      return true;
    }

    method ReplaceSourceConfiguration(id: Id, rules: seq<Rule>) returns (done: bool)
      requires Valid()
      modifies this`sources
      ensures Carries(old(State()), ReplaceSourceRules(id, rules), done)
    {
      var normalized := NormalizeRules(rules);
      if normalized.None? || id !in sources { return false; }
      done := ValidateRetainedEndpointPolicies(id, rules);
      GuardIsExact(State(), ReplaceSourceRules(id, rules));
      if done { sources := sources[id := sources[id].(rules := rules)]; }
    }

    method ChangeSourceApproval(id: Id, approved: bool) returns (done: bool)
      requires Valid()
      modifies this`sources
      ensures Carries(old(State()), SetSourceApproval(id, approved), done)
    {
      if id !in sources { return false; }
      var proposed := sources[id].(approved := approved);
      done := true;
      if sources[id].approved && !approved { done := RequireActiveProfilesRemainUsable(id, proposed); }
      GuardIsExact(State(), SetSourceApproval(id, approved));
      if done { sources := sources[id := proposed]; }
    }

    method ChangeSourceLifecycle(id: Id, archived: bool) returns (done: bool)
      requires Valid()
      modifies this`sources
      ensures Carries(old(State()), SetSourceLifecycle(id, archived), done)
    {
      if id !in sources { return false; }
      var proposed := sources[id].(archived := archived);
      done := true;
      if !sources[id].archived && archived { done := RequireActiveProfilesRemainUsable(id, proposed); }
      GuardIsExact(State(), SetSourceLifecycle(id, archived));
      if done { sources := sources[id := proposed]; }
    }

    // -------------------------------------------------------------------------
    // Endpoints

    method CreateNewEndpoint(id: Id, e: Endpoint) returns (done: bool)
      requires Valid()
      modifies this`endpoints
      ensures Carries(old(State()), CreateEndpoint(id, e), done)
    {
      if e.source !in sources || sources[e.source].archived || id in endpoints { return false; }
      done := ValidateEndpointPolicy(sources[e.source].rules, e);
      GuardIsExact(State(), CreateEndpoint(id, e));
      if done { endpoints := endpoints[id := e]; }
    }

    method ReplaceEndpointConfiguration(id: Id, host: string, narrowing: seq<Rule>) returns (done: bool)
      requires Valid()
      modifies this`endpoints
      ensures Carries(old(State()), ReplaceEndpoint(id, host, narrowing), done)
    {
      if id !in endpoints || endpoints[id].source !in sources { return false; }
      var proposed := endpoints[id].(host := host, narrowing := narrowing);
      done := ValidateEndpointPolicy(sources[proposed.source].rules, proposed);
      GuardIsExact(State(), ReplaceEndpoint(id, host, narrowing));
      if done { endpoints := endpoints[id := proposed]; }
    }

    method ChangeEndpointApproval(id: Id, approved: bool) returns (done: bool)
      requires Valid()
      modifies this`endpoints
      ensures Carries(old(State()), SetEndpointApproval(id, approved), done)
    {
      if id !in endpoints || endpoints[id].source !in sources || endpoints[id].htmlListing { return false; }
      var proposed := endpoints[id].(approved := approved);
      done := ValidateEndpointPolicy(sources[proposed.source].rules, proposed);
      GuardIsExact(State(), SetEndpointApproval(id, approved));
      if done { endpoints := endpoints[id := proposed]; }
    }

    // -------------------------------------------------------------------------
    // Profiles

    method CreateNewProfile(id: Id) returns (done: bool)
      requires Valid()
      modifies this`profiles
      ensures Carries(old(State()), CreateProfile(id), done)
    {
      if id in profiles { return false; }
      GuardIsExact(State(), CreateProfile(id));
      profiles := profiles[id := Profile(Draft, {})];
      return true;
    }

    method ReplaceSourceAssociation(id: Id, source: Id) returns (done: bool)
      requires Valid()
      modifies this`profiles
      ensures Carries(old(State()), AssociateSource(id, source), done)
    {
      if id !in profiles || source !in sources { return false; }
      GuardIsExact(State(), AssociateSource(id, source));
      profiles := profiles[id := profiles[id].(sources := profiles[id].sources + {source})];
      return true;
    }

    method RemoveSourceAssociation(id: Id, source: Id) returns (done: bool)
      requires Valid()
      modifies this`profiles
      ensures Carries(old(State()), RemoveSource(id, source), done)
    {
      if id !in profiles || source !in profiles[id].sources { return false; }
      GuardIsExact(State(), RemoveSource(id, source));
      if profiles[id].lifecycle == Active &&
         !exists s :: s in profiles[id].sources && s != source && s in sources && IsUsable(sources[s]) {
        return false;
      }
      profiles := profiles[id := profiles[id].(sources := profiles[id].sources - {source})];
      return true;
    }

    method ChangeProfileLifecycle(id: Id, requested: ProfileLifecycle) returns (done: bool)
      requires Valid()
      modifies this`profiles
      ensures Carries(old(State()), SetProfileLifecycle(id, requested), done)
    {
      if id !in profiles || !Transition(profiles[id].lifecycle, requested) { return false; }
      GuardIsExact(State(), SetProfileLifecycle(id, requested));
      if requested == Active && !HasUsable(sources, profiles[id]) { return false; }
      profiles := profiles[id := profiles[id].(lifecycle := requested)];
      return true;
    }
  }
}
