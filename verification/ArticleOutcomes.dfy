/**
  When persisting a candidate creates, finds, promotes or refuses, and what it leaves behind, told
  by the rows alone (src/articles/repository.ts).
 */
module ArticleOutcomes {
  import opened Prelude
  import opened ArticleIdentity

  /** Of the candidate's Source, with its external id. */
  predicate Bears(t: Articles, c: Candidate, a: Id) {
    a in t && t[a].source == c.source && c.externalId.Some? && t[a].externalId == c.externalId
  }

  /** Of the candidate's Source, at its URL. */
  predicate AtUrl(t: Articles, c: Candidate, a: Id) { a in t && t[a].source == c.source && t[a].url == c.url }

  ghost predicate OnlyBearer(t: Articles, c: Candidate, a: Id) { Bears(t, c, a) && forall b | Bears(t, c, b) :: b == a }

  ghost predicate OnlyAtUrl(t: Articles, c: Candidate, a: Id) { AtUrl(t, c, a) && forall b | AtUrl(t, c, b) :: b == a }

  /** The one Article at the URL has no external id yet, and no Article has the candidate's. */
  ghost predicate Promotable(t: Articles, c: Candidate, a: Id) {
    && c.externalId.Some? && (forall b :: !Bears(t, c, b))
    && OnlyAtUrl(t, c, a) && t[a].externalId.None?
  }

  ghost predicate Belongs(t: Articles, c: Candidate, a: Id) {
    if c.externalId.Some? then OnlyBearer(t, c, a) || Promotable(t, c, a) else OnlyAtUrl(t, c, a)
  }

  ghost predicate Ambiguous(t: Articles, c: Candidate) {
    exists a, b :: a != b && if c.externalId.Some? then Bears(t, c, a) && Bears(t, c, b) else AtUrl(t, c, a) && AtUrl(t, c, b)
  }

  ghost predicate OnlyElement(s: set<Id>, a: Id) { a in s && forall b | b in s :: b == a }

  ghost predicate TwoElements(s: set<Id>) { exists a, b :: a in s && b in s && a != b }

  lemma CountsOne(s: set<Id>)
    ensures |s| == 1 ==> OnlyElement(s, The(s))
    ensures forall a: Id :: OnlyElement(s, a) ==> |s| == 1 && The(s) == a
  {
    forall a: Id | OnlyElement(s, a)
      ensures |s| == 1 && The(s) == a
    {
      assert s == {a};
    }
  }

  lemma CountsMore(s: set<Id>)
    ensures |s| > 1 <==> TwoElements(s)
  {
    if |s| > 1 {
      var a :| a in s;
      var rest := s - {a};
      assert |rest| == |s| - 1;
      var b :| b in rest;
      assert b in s && a != b;
    }
    if TwoElements(s) {
      var a, b :| a in s && b in s && a != b;
      assert |s - {a}| == |s| - 1 && b in s - {a};
    }
  }

  /** What a resolution is, in the terms of the rows. */
  ghost predicate Resolved(t: Articles, c: Candidate, r: Resolution) {
    && (r.Conflict? <==> Ambiguous(t, c))
    && (r.NewArticle? ==> !Ambiguous(t, c) && forall a :: !Belongs(t, c, a))
    && (r.Existing? ==>
          && !Ambiguous(t, c) && Belongs(t, c, r.id) && (forall a | Belongs(t, c, a) :: a == r.id)
          && r == Existing(r.id, t[r.id], Promotable(t, c, r.id)))
  }

  lemma ResolvesExactly(t: Articles, c: Candidate)
    ensures Resolved(t, c, Resolve(t, c))
  {
    if c.externalId.None? {
      ResolvesByUrl(t, c);
    } else if WithExternal(t, c.source, c.externalId.value) == {} {
      ResolvesFallback(t, c);
    } else {
      ResolvesByExternal(t, c);
    }
  }

  lemma ResolvesByExternal(t: Articles, c: Candidate)
    requires c.externalId.Some? && WithExternal(t, c.source, c.externalId.value) != {}
    ensures Resolved(t, c, Resolve(t, c))
  {
    var found := WithExternal(t, c.source, c.externalId.value);
    CountsOne(found);
    CountsMore(found);
    assert forall a :: Bears(t, c, a) <==> a in found;
    var x :| x in found;
    assert Bears(t, c, x);
  }

  lemma ResolvesFallback(t: Articles, c: Candidate)
    requires c.externalId.Some? && WithExternal(t, c.source, c.externalId.value) == {}
    ensures Resolved(t, c, Resolve(t, c))
  {
    var exact, fallback := WithUrl(t, c.source, c.url), Fallbacks(t, c.source, c.url);
    assert forall a :: Bears(t, c, a) <==> a in WithExternal(t, c.source, c.externalId.value);
    CountsOne(fallback);
    forall a: Id
      ensures Promotable(t, c, a) <==> OnlyElement(fallback, a) && exact == fallback
    {
      PromotableIs(t, c, a);
    }
  }

  lemma PromotableIs(t: Articles, c: Candidate, a: Id)
    requires c.externalId.Some? && forall b :: !Bears(t, c, b)
    ensures Promotable(t, c, a) <==>
              OnlyElement(Fallbacks(t, c.source, c.url), a) && WithUrl(t, c.source, c.url) == Fallbacks(t, c.source, c.url)
  {
    var exact, fallback := WithUrl(t, c.source, c.url), Fallbacks(t, c.source, c.url);
    assert forall b :: AtUrl(t, c, b) <==> b in exact;
    if Promotable(t, c, a) {
      assert exact == {a} && fallback == {a};
    }
  }

  lemma ResolvesByUrl(t: Articles, c: Candidate)
    requires c.externalId.None?
    ensures Resolved(t, c, Resolve(t, c))
  {
    var exact := WithUrl(t, c.source, c.url);
    CountsOne(exact);
    CountsMore(exact);
    assert forall a :: AtUrl(t, c, a) <==> a in exact;
  }

  /** For each answer exactly when it is given, and the whole table afterwards. */
  lemma PersistOutcomes(t: Articles, c: Candidate, spare: Id, at: int)
    requires spare !in t
    ensures var (u, r) := Persist(t, c, spare, at);
            && (r == IdentityConflict <==> Ambiguous(t, c))
            && (r == Persisted(Created, spare) <==> !Ambiguous(t, c) && forall a :: !Belongs(t, c, a))
            && (forall a | a in t :: r.Persisted? && r.article == a <==> !Ambiguous(t, c) && Belongs(t, c, a))
            && (r.IdentityConflict? ==> u == t)
            && (r == Persisted(Created, spare) ==>
                  u == t[spare := Row(c.source, c.externalId, c.url, c.details, at, at)])
            && (r.Persisted? && r.article in t ==>
                  var row := t[r.article];
                  && r.outcome == (if row.url == c.url && row.details == c.details && !Promotable(t, c, r.article)
                                   then Unchanged else Updated)
                  && u == t[r.article := Row(row.source, if c.externalId.Some? then c.externalId else row.externalId, c.url, c.details,
                                             if at < row.firstSeen then at else row.firstSeen,
                                             if at > row.lastSeen then at else row.lastSeen)])
            && (r.Persisted? ==> r.article in t || r == Persisted(Created, spare))
  {
    ResolvesExactly(t, c);
    var r := Resolve(t, c);
    if r.Existing? {
      ExistingWritten(t, c, r, spare, at);
    }
  }

  lemma ExistingWritten(t: Articles, c: Candidate, r: Resolution, spare: Id, at: int)
    requires r.Existing? && r.id in t && r.seen == t[r.id] && Belongs(t, c, r.id) && r.promoteFallback == Promotable(t, c, r.id)
    ensures Writable(t, c, r)
    ensures var row := t[r.id];
            && Write(t, c, r, spare, at) ==
               t[r.id := Row(row.source, if c.externalId.Some? then c.externalId else row.externalId, c.url, c.details,
                             if at < row.firstSeen then at else row.firstSeen, if at > row.lastSeen then at else row.lastSeen)]
            && OutcomeOf(c, r, spare) ==
               Persisted(if row.url == c.url && row.details == c.details && !Promotable(t, c, r.id) then Unchanged else Updated, r.id)
  {
  }

  /** A fallback is promoted whenever it can be: its Article is updated and carries the external id, and no row is added. */
  lemma FallbackIsPromoted(t: Articles, c: Candidate, a: Id, spare: Id, at: int)
    requires spare !in t && Promotable(t, c, a)
    ensures var (u, r) := Persist(t, c, spare, at);
            r == Persisted(Updated, a) && u.Keys == t.Keys && u[a].externalId == c.externalId && u[a].url == c.url
  {
    PersistOutcomes(t, c, spare, at);
  }
}
