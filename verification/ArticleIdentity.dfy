/**
  Which Article a candidate belongs to, and what persisting it does to the Articles table
  (src/articles/repository.ts). SHA-256 is injective, so a digest lookup finds exact matches.
 */
module ArticleIdentity {
  import opened Prelude

  type Id = nat

  datatype Timestamp = Parsed(time: int) | Missing | InvalidTimestamp

  /** The columns that do not take part in identity. */
  datatype Details = Details(
    originalUrl: string, displayTitle: string, normalizedTitle: string, author: Option<string>, summary: Option<string>,
    imageUrl: Option<string>, language: Option<string>, publishedAt: Timestamp, sourceUpdatedAt: Timestamp)

  datatype Row = Row(source: Id, externalId: Option<string>, url: string, details: Details, firstSeen: int, lastSeen: int)

  type Articles = map<Id, Row>

  datatype Candidate = Candidate(source: Id, externalId: Option<string>, url: string, details: Details)

  /** An Article found keeps the row as it was read. */
  datatype Resolution = Conflict | NewArticle | Existing(id: Id, seen: Row, promoteFallback: bool)

  datatype Outcome = Created | Updated | Unchanged

  datatype Result = IdentityConflict | Persisted(outcome: Outcome, article: Id)

  // ---------------------------------------------------------------------------
  // Lookups

  function WithExternal(t: Articles, source: Id, externalId: string): set<Id> {
    set a | a in t && t[a].source == source && t[a].externalId == Some(externalId)
  }

  function WithUrl(t: Articles, source: Id, url: string): set<Id> {
    set a | a in t && t[a].source == source && t[a].url == url
  }

  function Fallbacks(t: Articles, source: Id, url: string): set<Id> {
    set a | a in t && t[a].source == source && t[a].url == url && t[a].externalId.None?
  }

  /** The only element. */
  ghost function The(s: set<Id>): (a: Id)
    requires |s| == 1
    ensures s == {a}
  {
    var a :| a in s;
    Single(s, a);
    a
  }

  lemma Single(s: set<Id>, a: Id)
    requires |s| == 1 && a in s
    ensures s == {a}
  {
    assert |s - {a}| == 0;
  }

  /** Absent when no Article has the external id. */
  ghost function ResolveByExternalId(t: Articles, c: Candidate): Option<Resolution>
    requires c.externalId.Some?
  {
    var found := WithExternal(t, c.source, c.externalId.value);
    if |found| == 0 then None
    else if |found| == 1 then Some(Existing(The(found), t[The(found)], false))
    else Some(Conflict)
  }

  ghost function ResolveByUrl(t: Articles, c: Candidate): Resolution {
    var exact, fallback := WithUrl(t, c.source, c.url), Fallbacks(t, c.source, c.url);
    if c.externalId.Some? then
      if |fallback| == 1 && exact == fallback then Existing(The(fallback), t[The(fallback)], true) else NewArticle
    else if |exact| == 1 then Existing(The(exact), t[The(exact)], false)
    else if |exact| > 1 then Conflict
    else NewArticle
  }

  ghost function Resolve(t: Articles, c: Candidate): Resolution {
    if c.externalId.Some? && ResolveByExternalId(t, c).Some? then ResolveByExternalId(t, c).value
    else ResolveByUrl(t, c)
  }

  // ---------------------------------------------------------------------------
  // Writing

  function DesiredExternalId(c: Candidate, seen: Row): Option<string> {
    if c.externalId.Some? then c.externalId else seen.externalId
  }

  predicate MaterialChange(c: Candidate, seen: Row, promoteFallback: bool) {
    promoteFallback || DesiredExternalId(c, seen) != seen.externalId || c.url != seen.url || c.details != seen.details
  }

  function Widened(row: Row, at: int): Row {
    row.(firstSeen := Min(row.firstSeen, at), lastSeen := Max(row.lastSeen, at))
  }

  function Rewritten(row: Row, c: Candidate, seen: Row, at: int): Row {
    Widened(row, at).(externalId := DesiredExternalId(c, seen), url := c.url, details := c.details)
  }

  /** The row found by id and Source; a resolution whose row is gone is an error. */
  predicate Writable(t: Articles, c: Candidate, r: Resolution) {
    !r.Conflict? && (r.Existing? ==> r.id in t && t[r.id].source == c.source)
  }

  function Write(t: Articles, c: Candidate, r: Resolution, spare: Id, at: int): Articles
    requires Writable(t, c, r)
  {
    if r.NewArticle? then t[spare := Row(c.source, c.externalId, c.url, c.details, at, at)]
    else if MaterialChange(c, r.seen, r.promoteFallback) then t[r.id := Rewritten(t[r.id], c, r.seen, at)]
    else t[r.id := Widened(t[r.id], at)]
  }

  function OutcomeOf(c: Candidate, r: Resolution, spare: Id): Result {
    if r.Conflict? then IdentityConflict
    else if r.NewArticle? then Persisted(Created, spare)
    else Persisted(if MaterialChange(c, r.seen, r.promoteFallback) then Updated else Unchanged, r.id)
  }

  /** Resolve and write with nothing in between. */
  ghost function Persist(t: Articles, c: Candidate, spare: Id, at: int): (Articles, Result) {
    var r := Resolve(t, c);
    (if r.Conflict? then t else Write(t, c, r, spare, at), OutcomeOf(c, r, spare))
  }

  // ---------------------------------------------------------------------------
  // The unique indexes

  /** At most one Article for a Source and external id. */
  ghost predicate ExternalIdsUnique(t: Articles) {
    forall a, b {:trigger t[a].externalId, t[b].externalId} |
      a in t && b in t && t[a].source == t[b].source && t[a].externalId.Some? && t[a].externalId == t[b].externalId :: a == b
  }

  /** At most one Article without external id for a Source and URL. */
  ghost predicate FallbacksUnique(t: Articles) {
    forall a, b {:trigger t[a].externalId, t[b].externalId} |
      a in t && b in t && t[a].source == t[b].source && t[a].externalId.None? && t[b].externalId.None? &&
      t[a].url == t[b].url :: a == b
  }

  ghost predicate UniqueIndexes(t: Articles) { ExternalIdsUnique(t) && FallbacksUnique(t) }

  // ---------------------------------------------------------------------------
  // Processing the same candidate again

  lemma SameSet(s: set<Id>, a: Id)
    requires s == {a}
    ensures |s| == 1 && The(s) == a
  {
  }

  /** What the Article that was persisted looks like afterwards. */
  lemma PersistedRow(t: Articles, c: Candidate, spare: Id, at: int)
    requires spare !in t && Resolve(t, c) != Conflict
    ensures var (u, r) := Persist(t, c, spare, at);
            && r.Persisted? && r.article in u && u[r.article].source == c.source && u[r.article].url == c.url
            && u[r.article].details == c.details && (c.externalId.Some? ==> u[r.article].externalId == c.externalId)
            && u[r.article].firstSeen <= at <= u[r.article].lastSeen
            && (forall a | a in u && a != r.article :: a in t && u[a] == t[a])
  {
    var r := Resolve(t, c);
    if r.Existing? {
      ResolvedRow(t, c);
    }
  }

  lemma ResolvedRow(t: Articles, c: Candidate)
    requires Resolve(t, c).Existing?
    ensures var r := Resolve(t, c);
            && r.id in t && r.seen == t[r.id] && r.seen.source == c.source
            && (c.externalId.Some? && !r.promoteFallback ==> r.seen.externalId == c.externalId)
            && (r.promoteFallback ==> c.externalId.Some? && r.seen.externalId.None? && r.seen.url == c.url)
            && (c.externalId.None? ==> r.seen.url == c.url)
  {
    if c.externalId.Some? && ResolveByExternalId(t, c).Some? {
      assert The(WithExternal(t, c.source, c.externalId.value)) in WithExternal(t, c.source, c.externalId.value);
    } else {
      assert Resolve(t, c).id in WithUrl(t, c.source, c.url);
    }
  }

  lemma FoundAgainByExternalId(t: Articles, c: Candidate, spare: Id, at: int)
    requires spare !in t && Resolve(t, c) != Conflict && c.externalId.Some? && ExternalIdsUnique(t)
    ensures var (u, r) := Persist(t, c, spare, at);
            WithExternal(u, c.source, c.externalId.value) == {r.article}
  {
    PersistedRow(t, c, spare, at);
    var (u, r) := Persist(t, c, spare, at);
    var found := WithExternal(t, c.source, c.externalId.value);
    forall a | a in WithExternal(u, c.source, c.externalId.value)
      ensures a == r.article
    {
      assert a != r.article ==> a in found;
    }
  }

  lemma FoundAgainByUrl(t: Articles, c: Candidate, spare: Id, at: int)
    requires spare !in t && Resolve(t, c) != Conflict && c.externalId.None?
    ensures var (u, r) := Persist(t, c, spare, at);
            WithUrl(u, c.source, c.url) == {r.article}
  {
    PersistedRow(t, c, spare, at);
    var (u, r) := Persist(t, c, spare, at);
    var exact := WithUrl(t, c.source, c.url);
    forall a | a in WithUrl(u, c.source, c.url)
      ensures a == r.article
    {
      assert a != r.article ==> a in exact;
    }
  }

  /**
    Whatever persisting a candidate did, persisting it again right after finds the same Article,
    changes nothing and only widens the interval it was seen in.
   */
  lemma ReprocessingIsUnchanged(t: Articles, c: Candidate, spare: Id, at: int, nextSpare: Id, later: int)
    requires UniqueIndexes(t) && spare !in t && Resolve(t, c) != Conflict
    ensures var (u, r) := Persist(t, c, spare, at);
            Persist(u, c, nextSpare, later) == (u[r.article := Widened(u[r.article], later)], Persisted(Unchanged, r.article))
  {
    PersistedRow(t, c, spare, at);
    var (u, r) := Persist(t, c, spare, at);
    if c.externalId.Some? {
      FoundAgainByExternalId(t, c, spare, at);
      SameSet(WithExternal(u, c.source, c.externalId.value), r.article);
    } else {
      FoundAgainByUrl(t, c, spare, at);
      SameSet(WithUrl(u, c.source, c.url), r.article);
    }
    assert Resolve(u, c) == Existing(r.article, u[r.article], false);
  }

  /** A refused candidate changes nothing, so it is refused again. */
  lemma RefusedAgain(t: Articles, c: Candidate, spare: Id, at: int, nextSpare: Id, later: int)
    requires Resolve(t, c) == Conflict
    ensures Persist(t, c, spare, at) == (t, IdentityConflict)
    ensures Persist(Persist(t, c, spare, at).0, c, nextSpare, later) == (t, IdentityConflict)
  {
  }
}
