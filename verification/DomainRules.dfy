/** Approved domain rules and their narrowing (src/sources/configuration.ts). Hostnames are already normalised. */
module DomainRules {
  import opened Prelude

  /** `includeSubdomains` admits every name below the host as well. */
  datatype Rule = Rule(hostname: string, includeSubdomains: bool)

  predicate EndsWith(s: string, suffix: string) {
    |suffix| <= |s| && s[|s| - |suffix|..] == suffix
  }

  predicate HostMatches(host: string, rule: Rule) {
    host == rule.hostname || (rule.includeSubdomains && EndsWith(host, "." + rule.hostname))
  }

  predicate IsNarrower(sourceRule: Rule, endpointRule: Rule) {
    HostMatches(endpointRule.hostname, sourceRule) && (sourceRule.includeSubdomains || !endpointRule.includeSubdomains)
  }

  predicate Admits(rules: seq<Rule>, host: string) {
    exists i | 0 <= i < |rules| :: HostMatches(host, rules[i])
  }

  predicate NarrowsAll(sourceRules: seq<Rule>, narrowing: seq<Rule>) {
    forall i | 0 <= i < |narrowing| :: exists j | 0 <= j < |sourceRules| :: IsNarrower(sourceRules[j], narrowing[i])
  }

  /** Absent when a rule would widen the Source's policy. */
  function EffectiveRules(sourceRules: seq<Rule>, narrowing: seq<Rule>): Option<seq<Rule>> {
    if narrowing == [] then Some(sourceRules)
    else if NarrowsAll(sourceRules, narrowing) then Some(narrowing) else None
  }

  /** No narrowing leaves the Source's rules; an accepted narrowing replaces them. */
  lemma EffectiveExactly(sourceRules: seq<Rule>, narrowing: seq<Rule>)
    ensures EffectiveRules(sourceRules, []) == Some(sourceRules)
    ensures narrowing != [] && EffectiveRules(sourceRules, narrowing).Some? ==> EffectiveRules(sourceRules, narrowing) == Some(narrowing)
  {
  }

  method CheckNarrowing(sourceRules: seq<Rule>, narrowing: seq<Rule>) returns (r: Option<seq<Rule>>)
    ensures r == EffectiveRules(sourceRules, narrowing)
  {
    if narrowing == [] { return Some(sourceRules); }
    for i := 0 to |narrowing|
      invariant NarrowsAll(sourceRules, narrowing[..i])
    {
      if !exists j :: 0 <= j < |sourceRules| && IsNarrower(sourceRules[j], narrowing[i]) { return None; }
      assert forall k | 0 <= k < i :: narrowing[..i + 1][k] == narrowing[..i][k];
    }
    assert narrowing[..|narrowing|] == narrowing;
    return Some(narrowing);
  }

  predicate DistinctHostnames(rules: seq<Rule>) {
    forall i, j | 0 <= i < j < |rules| :: rules[i].hostname != rules[j].hostname
  }

  /** Refuses a list that names a host twice. */
  method NormalizeRules(input: seq<Rule>) returns (rules: Option<seq<Rule>>)
    ensures rules == if DistinctHostnames(input) then Some(input) else None
  {
    var accepted: seq<Rule> := [];
    var hostnames: set<string> := {};
    for i := 0 to |input|
      invariant accepted == input[..i] && DistinctHostnames(accepted)
      invariant forall k | 0 <= k < i :: input[k].hostname in hostnames
      invariant forall h | h in hostnames :: exists k | 0 <= k < i :: input[k].hostname == h
    {
      if input[i].hostname in hostnames { return None; }
      hostnames := hostnames + {input[i].hostname};
      accepted := accepted + [input[i]];
    }
    assert input[..|input|] == input;
    return Some(accepted);
  }

  // ---------------------------------------------------------------------------
  // Labels

  predicate DotFree(name: string) { name != "" && '.' !in name }

  predicate AllLabels(labels: seq<string>) { labels != [] && forall i | 0 <= i < |labels| :: DotFree(labels[i]) }

  function Text(labels: seq<string>): string
    requires labels != []
  {
    if |labels| == 1 then labels[0] else labels[0] + "." + Text(labels[1..])
  }

  lemma DotsComeAfter(a: string, x: string, k: nat)
    requires '.' !in a && k < |a + x| && (a + x)[k] == '.'
    ensures k >= |a|
  {
  }

  /** Two dot-free beginnings followed by a dot or nothing are the same. */
  lemma FirstLabelUnique(a: string, b: string, x: string, y: string)
    requires '.' !in a && '.' !in b && a + x == b + y
    requires (x == "" || x[0] == '.') && (y == "" || y[0] == '.')
    ensures a == b && x == y
  {
    if x != "" {
      DotsComeAfter(b, y, |a|);
    }
    if y != "" {
      DotsComeAfter(a, x, |b|);
    }
    assert a == (a + x)[..|a|] && b == (b + y)[..|b|];
    assert x == (a + x)[|a|..] && y == (b + y)[|b|..];
  }

  lemma {:induction false} TextInjective(a: seq<string>, b: seq<string>)
    requires AllLabels(a) && AllLabels(b) && Text(a) == Text(b)
    ensures a == b
    decreases |a|
  {
    var x := if |a| == 1 then "" else "." + Text(a[1..]);
    var y := if |b| == 1 then "" else "." + Text(b[1..]);
    assert Text(a) == a[0] + x && Text(b) == b[0] + y;
    assert DotFree(a[0]) && DotFree(b[0]);
    FirstLabelUnique(a[0], b[0], x, y);
    if |a| > 1 && |b| > 1 {
      assert x[1..] == Text(a[1..]) && y[1..] == Text(b[1..]);
      assert AllLabels(a[1..]) && AllLabels(b[1..]) by {
        assert forall i | 0 <= i < |a[1..]| :: a[1..][i] == a[i + 1];
        assert forall i | 0 <= i < |b[1..]| :: b[1..][i] == b[i + 1];
      }
      TextInjective(a[1..], b[1..]);
    }
    assert a == [a[0]] + a[1..] && b == [b[0]] + b[1..];
  }

  /** The labels of a rule, at the end of more labels. */
  predicate BelowLabels(host: seq<string>, rule: seq<string>) {
    |rule| < |host| && host[|host| - |rule|..] == rule
  }

  lemma {:induction false} SuffixOfLabels(host: seq<string>, rule: seq<string>)
    requires AllLabels(host) && AllLabels(rule) && BelowLabels(host, rule)
    ensures EndsWith(Text(host), "." + Text(rule))
    decreases |host|
  {
    assert AllLabels(host[1..]) by {
      assert forall i | 0 <= i < |host[1..]| :: host[1..][i] == host[i + 1];
    }
    var tail := "." + Text(host[1..]);
    assert Text(host) == host[0] + tail;
    if |host| == |rule| + 1 {
      assert host[1..] == rule;
      SuffixKept(host[0], tail, tail);
    } else {
      assert host[1..][|host[1..]| - |rule|..] == rule;
      SuffixOfLabels(host[1..], rule);
      SuffixKept(".", Text(host[1..]), "." + Text(rule));
      SuffixKept(host[0], tail, "." + Text(rule));
    }
  }

  lemma SuffixKept(before: string, s: string, suffix: string)
    requires EndsWith(s, suffix)
    ensures EndsWith(before + s, suffix)
  {
    assert (before + s)[|before + s| - |suffix|..] == s[|s| - |suffix|..];
  }

  /** A name that ends with a dot and another name has that name's labels at its end. */
  lemma {:induction false} LabelsOfSuffix(host: seq<string>, rule: seq<string>)
    requires AllLabels(host) && AllLabels(rule) && EndsWith(Text(host), "." + Text(rule))
    ensures BelowLabels(host, rule)
    decreases |host|
  {
    var suffix := "." + Text(rule);
    var tail := if |host| == 1 then "" else "." + Text(host[1..]);
    assert Text(host) == host[0] + tail && DotFree(host[0]);
    var cut := |Text(host)| - |suffix|;
    assert Text(host)[cut] == suffix[0] == '.';
    DotsComeAfter(host[0], tail, cut);
    assert AllLabels(host[1..]) by {
      assert forall i | 0 <= i < |host[1..]| :: host[1..][i] == host[i + 1];
    }
    assert tail[cut - |host[0]|..] == suffix;
    if cut == |host[0]| {
      assert tail == suffix && tail[1..] == Text(host[1..]) && suffix[1..] == Text(rule);
      TextInjective(host[1..], rule);
    } else {
      assert Text(host[1..])[cut - |host[0]| - 1..] == suffix;
      LabelsOfSuffix(host[1..], rule);
      assert host[|host| - |rule|..] == host[1..][|host[1..]| - |rule|..];
    }
  }

  /** Matching by string suffix is matching by labels. */
  lemma SuffixMatchingIsLabelMatching(host: seq<string>, rule: seq<string>, includeSubdomains: bool)
    requires AllLabels(host) && AllLabels(rule)
    ensures HostMatches(Text(host), Rule(Text(rule), includeSubdomains)) <==>
              host == rule || (includeSubdomains && BelowLabels(host, rule))
  {
    if Text(host) == Text(rule) {
      TextInjective(host, rule);
    }
    if EndsWith(Text(host), "." + Text(rule)) {
      LabelsOfSuffix(host, rule);
    }
    if BelowLabels(host, rule) {
      SuffixOfLabels(host, rule);
    }
  }

  // ---------------------------------------------------------------------------
  // Narrowing admits nothing new, and refuses only what would

  lemma SuffixTransitive(a: string, b: string, c: string)
    requires EndsWith(a, b) && EndsWith(b, c)
    ensures EndsWith(a, c)
  {
    assert a[|a| - |c|..] == a[|a| - |b|..][|b| - |c|..];
  }

  lemma NarrowerAdmitsLess(sourceRule: Rule, endpointRule: Rule, host: string)
    requires IsNarrower(sourceRule, endpointRule) && HostMatches(host, endpointRule)
    ensures HostMatches(host, sourceRule)
  {
    if host != endpointRule.hostname {
      var below := "." + endpointRule.hostname;
      if endpointRule.hostname != sourceRule.hostname {
        SuffixKept(".", endpointRule.hostname, "." + sourceRule.hostname);
        SuffixTransitive(host, below, "." + sourceRule.hostname);
      }
    }
  }

  /** Accepted rules never admit a host the Source's rules reject. */
  lemma AcceptedNeverWidens(sourceRules: seq<Rule>, narrowing: seq<Rule>, host: string)
    requires EffectiveRules(sourceRules, narrowing).Some?
    ensures Admits(EffectiveRules(sourceRules, narrowing).value, host) ==> Admits(sourceRules, host)
  {
    if narrowing != [] && Admits(narrowing, host) {
      var i :| 0 <= i < |narrowing| && HostMatches(host, narrowing[i]);
      var j :| 0 <= j < |sourceRules| && IsNarrower(sourceRules[j], narrowing[i]);
      NarrowerAdmitsLess(sourceRules[j], narrowing[i], host);
    }
  }

  function Repeated(n: nat): (s: string)
    ensures |s| == n && forall i | 0 <= i < n :: s[i] == 'a'
  {
    if n == 0 then "" else "a" + Repeated(n - 1)
  }

  function LongestName(rules: seq<Rule>): (n: nat)
    ensures forall i | 0 <= i < |rules| :: |rules[i].hostname| <= n
  {
    if rules == [] then 0 else
    var rest := LongestName(rules[1..]);
    assert forall i | 0 < i < |rules| :: rules[i] == rules[1..][i - 1];
    if |rules[0].hostname| >= rest then |rules[0].hostname| else rest
  }

  /** A name below `hostname` that no rule names. */
  function FreshBelow(rules: seq<Rule>, hostname: string): string {
    Repeated(LongestName(rules) + 1) + "." + hostname
  }

  /** What a fresh name matches besides itself, its parent matches too. */
  lemma FreshMatchesLikeParent(rules: seq<Rule>, j: nat, hostname: string)
    requires j < |rules| && HostMatches(FreshBelow(rules, hostname), rules[j])
    ensures rules[j].includeSubdomains && HostMatches(hostname, rules[j])
  {
    var name, rule := Repeated(LongestName(rules) + 1), rules[j];
    var host, suffix := FreshBelow(rules, hostname), "." + rule.hostname;
    assert |host| > |rule.hostname|;
    assert host == name + ("." + hostname);
    var cut := |host| - |suffix|;
    assert host[cut..] == suffix;
    assert host[cut] == suffix[0] == '.';
    DotsComeAfter(name, "." + hostname, cut);
    if cut == |name| {
      assert ("." + hostname) == host[|name|..] == suffix;
      assert ("." + hostname)[1..] == hostname && suffix[1..] == rule.hostname;
    } else {
      assert hostname == host[|name| + 1..];
      assert hostname[cut - |name| - 1..] == host[cut..];
    }
  }

  /**
    A narrowing list is accepted exactly when everything it admits, whatever its length, the
    Source's rules admit as well.
   */
  lemma RejectedExactlyWhenWidening(sourceRules: seq<Rule>, narrowing: seq<Rule>)
    requires narrowing != []
    ensures EffectiveRules(sourceRules, narrowing).Some? <==>
              forall host | Admits(narrowing, host) :: Admits(sourceRules, host)
  {
    if EffectiveRules(sourceRules, narrowing).Some? {
      forall host | Admits(narrowing, host)
        ensures Admits(sourceRules, host)
      {
        AcceptedNeverWidens(sourceRules, narrowing, host);
      }
    } else {
      var i :| 0 <= i < |narrowing| && !exists j | 0 <= j < |sourceRules| :: IsNarrower(sourceRules[j], narrowing[i]);
      var host := WideningWitness(sourceRules, narrowing[i]);
      assert Admits(narrowing, host) && !Admits(sourceRules, host);
    }
  }

  /** For a rule that narrows no Source rule, a name it admits and the Source's rules do not. */
  lemma WideningWitness(sourceRules: seq<Rule>, rule: Rule) returns (host: string)
    requires !exists j | 0 <= j < |sourceRules| :: IsNarrower(sourceRules[j], rule)
    ensures HostMatches(host, rule) && !Admits(sourceRules, host)
    ensures host == if rule.includeSubdomains then FreshBelow(sourceRules, rule.hostname) else rule.hostname
  {
    if rule.includeSubdomains {
      host := FreshBelow(sourceRules, rule.hostname);
      assert host == Repeated(LongestName(sourceRules) + 1) + ("." + rule.hostname);
      assert host[|host| - |"." + rule.hostname|..] == "." + rule.hostname;
      forall j | 0 <= j < |sourceRules|
        ensures !HostMatches(host, sourceRules[j])
      {
        if HostMatches(host, sourceRules[j]) {
          FreshMatchesLikeParent(sourceRules, j, rule.hostname);
        }
      }
    } else {
      host := rule.hostname;
    }
  }
}
