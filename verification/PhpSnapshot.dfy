/**
  What the local store keeps of one Profile: the generation document, the manifest and what a
  reader makes of the two (integrations/php/src/FilesystemStateStore.php).
 */
module PhpSnapshot {
  import opened Prelude
  import opened PhpDigest

  datatype Named = Named(configKey: string, displayName: string)

  datatype Article = Article(
    articleId: string, headline: string, originalUrl: string, effectiveFeedDate: string, feedDateSource: string,
    publishedAt: Option<string>, author: Option<string>, summary: Option<string>, imageUrl: Option<string>,
    source: Named, categories: seq<Named>)

  /** Instants are in microseconds; a stored instant keeps whole seconds. */
  datatype Facts = Facts(
    outcome: string, attemptedAt: int, durationSeconds: real, itemCount: Option<int>, pageCount: Option<int>,
    notModified: bool, failureCategory: Option<string>, lastSuccessfulSyncAt: Option<int>, adapterVersion: string)

  datatype Activation = Activation(
    profileKey: string, profile: Named, publication: string, apiVersion: string, snapshotRevision: string,
    etag: Option<string>, generatedAt: string, items: seq<Article>, facts: Facts, digest: Option<Digest>)

  datatype Snapshot = Snapshot(
    profileKey: string, profile: Named, publication: string, apiVersion: string, snapshotRevision: string,
    etag: Option<string>, generatedAt: string, items: seq<Article>, digest: Option<Digest>)

  // ---------------------------------------------------------------------------
  // The generation document

  function NamedValue(n: Named): Value {
    Dict(map[ConfigKey := Text(n.configKey), DisplayName := Text(n.displayName)])
  }

  function Optional(s: Option<string>): Value {
    if s.Some? then Text(s.value) else Null
  }

  function NamedValues(names: seq<Named>): seq<Value> {
    if names == [] then [] else [NamedValue(names[0])] + NamedValues(names[1..])
  }

  function ArticleValue(a: Article): Value {
    Dict(map[ArticleId := Text(a.articleId), Headline := Text(a.headline), OriginalUrl := Text(a.originalUrl),
             EffectiveFeedDate := Text(a.effectiveFeedDate), FeedDateSource := Text(a.feedDateSource),
             PublishedAt := Optional(a.publishedAt), Author := Optional(a.author), Summary := Optional(a.summary),
             ImageUrl := Optional(a.imageUrl), SourceField := NamedValue(a.source),
             Categories := List(NamedValues(a.categories))])
  }

  function ArticleValues(articles: seq<Article>): seq<Value> {
    if articles == [] then [] else [ArticleValue(articles[0])] + ArticleValues(articles[1..])
  }

  function EncodeGeneration(a: Activation): Value {
    Dict(map[ProfileKey := Text(a.profileKey), Profile := NamedValue(a.profile),
             Publication := Dict(map[Name := Text(a.publication)]), ApiVersion := Text(a.apiVersion),
             SnapshotRevision := Text(a.snapshotRevision), GeneratedAt := Text(a.generatedAt),
             Items := List(ArticleValues(a.items)),
             DigestField := if a.digest.None? then Null else ToArray(a.digest.value)])
  }

  function ReadNamed(v: Value): Option<Named> {
    if v.Get(ConfigKey).Text? && v.Get(DisplayName).Text?
    then Some(Named(v.Get(ConfigKey).text, v.Get(DisplayName).text)) else None
  }

  function ReadAllNamed(items: seq<Value>): Option<seq<Named>> {
    if items == [] then Some([]) else
    var first := ReadNamed(items[0]);
    if first.None? then None else After([first.value], ReadAllNamed(items[1..]))
  }

  predicate TextOrNull(v: Value, field: Field) {
    v.Dict? && field in v.entries && (v.entries[field].Null? || v.entries[field].Text?)
  }

  function TextIn(v: Value, field: Field): Option<string> {
    if v.Get(field).Text? then Some(v.Get(field).text) else None
  }

  function ReadArticle(v: Value): Option<Article> {
    if !v.Get(ArticleId).Text? || !v.Get(Headline).Text? || !v.Get(OriginalUrl).Text? ||
       !v.Get(EffectiveFeedDate).Text? || !v.Get(FeedDateSource).Text? then None
    else if !TextOrNull(v, PublishedAt) || !TextOrNull(v, Author) || !TextOrNull(v, Summary) ||
            !TextOrNull(v, ImageUrl) then None
    else if ReadNamed(v.Get(SourceField)).None? || !v.Get(Categories).List? ||
            ReadAllNamed(v.Get(Categories).items).None? then None
    else Some(Article(v.Get(ArticleId).text, v.Get(Headline).text, v.Get(OriginalUrl).text,
                      v.Get(EffectiveFeedDate).text, v.Get(FeedDateSource).text,
                      TextIn(v, PublishedAt), TextIn(v, Author), TextIn(v, Summary), TextIn(v, ImageUrl),
                      ReadNamed(v.Get(SourceField)).value, ReadAllNamed(v.Get(Categories).items).value))
  }

  function ReadArticles(items: seq<Value>): Option<seq<Article>> {
    if items == [] then Some([]) else
    var first := ReadArticle(items[0]);
    if first.None? then None else After([first.value], ReadArticles(items[1..]))
  }

  // ---------------------------------------------------------------------------
  // The manifest

  type Generation = nat

  datatype Manifest = Manifest(
    profileKey: string, activeGeneration: Option<Generation>, previousGeneration: Option<Generation>,
    snapshotRevision: Option<string>, etag: Option<string>, apiVersion: Option<string>, generatedAt: Option<string>,
    lastAttemptAt: int, lastSuccessfulSyncAt: Option<int>, syncResult: string, durationSeconds: real,
    itemCount: Option<int>, pageCount: Option<int>, notModified: bool, failureCategory: Option<string>,
    disabled: bool, adapterVersion: string)

  /** A file holds a whole document, or less than one while it is being written. */
  datatype Content = Incomplete | ManifestFile(manifest: Manifest) | GenerationFile(document: Value)

  function WholeSeconds(microseconds: int): int { microseconds - microseconds % 1_000_000 }

  function WholeSecondsOf(t: Option<int>): Option<int> {
    if t.Some? then Some(WholeSeconds(t.value)) else None
  }

  /** Facts over whatever the manifest said about the active snapshot. */
  function ManifestForFacts(key: string, current: Option<Manifest>, facts: Facts, disabled: bool): Manifest {
    var c := if current.Some? then current.value
             else Manifest(key, None, None, None, None, None, None, 0, None, "", 0.0, None, None, false, None, false, "");
    Manifest(key, c.activeGeneration, c.previousGeneration, c.snapshotRevision, c.etag, c.apiVersion, c.generatedAt,
             WholeSeconds(facts.attemptedAt), WholeSecondsOf(facts.lastSuccessfulSyncAt), facts.outcome,
             facts.durationSeconds, facts.itemCount, facts.pageCount, facts.notModified, facts.failureCategory,
             disabled, facts.adapterVersion)
  }

  function ActivatedManifest(current: Option<Manifest>, a: Activation, g: Generation): Manifest {
    ManifestForFacts(a.profileKey, current, a.facts, false)
      .(activeGeneration := Some(g),
        previousGeneration := if current.Some? then current.value.activeGeneration else None,
        snapshotRevision := Some(a.snapshotRevision), etag := a.etag, apiVersion := Some(a.apiVersion),
        generatedAt := Some(a.generatedAt))
  }

  /** Facts replace what the manifest says of the last attempt and keep what it says of the snapshot. */
  lemma FactsColumns(key: string, current: Option<Manifest>, facts: Facts, disabled: bool)
    ensures var m := ManifestForFacts(key, current, facts, disabled);
            && m.profileKey == key && m.disabled == disabled
            && m.syncResult == facts.outcome && m.durationSeconds == facts.durationSeconds && m.itemCount == facts.itemCount
            && m.pageCount == facts.pageCount && m.notModified == facts.notModified && m.failureCategory == facts.failureCategory
            && m.adapterVersion == facts.adapterVersion
            && m.lastAttemptAt <= facts.attemptedAt < m.lastAttemptAt + 1_000_000 && m.lastAttemptAt % 1_000_000 == 0
            && (facts.lastSuccessfulSyncAt.None? <==> m.lastSuccessfulSyncAt.None?)
            && (current.Some? ==>
                  && m.activeGeneration == current.value.activeGeneration && m.previousGeneration == current.value.previousGeneration
                  && m.snapshotRevision == current.value.snapshotRevision && m.etag == current.value.etag
                  && m.apiVersion == current.value.apiVersion && m.generatedAt == current.value.generatedAt)
            && (current.None? ==> m.activeGeneration.None? && m.previousGeneration.None? && m.snapshotRevision.None? &&
                                  m.etag.None? && m.apiVersion.None? && m.generatedAt.None?)
  {
  }

  /** An activation replaces what the manifest says of the snapshot and moves the old generation back. */
  lemma ActivatedColumns(current: Option<Manifest>, a: Activation, g: Generation)
    ensures var m := ActivatedManifest(current, a, g);
            && m.activeGeneration == Some(g) && !m.disabled && m.syncResult == a.facts.outcome && m.profileKey == a.profileKey
            && m.previousGeneration == (if current.Some? then current.value.activeGeneration else None)
            && m.snapshotRevision == Some(a.snapshotRevision) && m.etag == a.etag && m.apiVersion == Some(a.apiVersion)
            && m.generatedAt == Some(a.generatedAt)
  {
  }

  predicate AcceptedManifest(key: string, m: Manifest) {
    && m.profileKey == key && m.durationSeconds >= 0.0
    && (m.itemCount.Some? ==> m.itemCount.value >= 0) && (m.pageCount.Some? ==> m.pageCount.value >= 0)
    && (m.activeGeneration.Some? ==> m.apiVersion == Some("v1") && m.snapshotRevision.Some?)
  }

  datatype ManifestRead = NoManifest | CurrentManifest(manifest: Manifest) | InvalidManifest

  function ReadManifest(key: string, file: Option<Content>): ManifestRead {
    match file
    case None => NoManifest
    case Some(ManifestFile(m)) => if AcceptedManifest(key, m) then CurrentManifest(m) else InvalidManifest
    case Some(_) => InvalidManifest
  }

  // ---------------------------------------------------------------------------
  // Loading

  datatype LocalState = LocalState(active: Option<Snapshot>, disabled: bool, lastSuccessfulSyncAt: Option<int>)

  datatype Loaded = Ok(state: LocalState) | Invalid

  /** The constructor of an active snapshot refuses an inconsistent one. */
  function ReadGeneration(f: Formats, key: string, m: Manifest, file: Content): Option<Snapshot> {
    if !file.GenerationFile? then None else
    var v := file.document;
    if v.Get(ProfileKey) != Text(key) || v.Get(ApiVersion) != Optional(m.apiVersion) ||
       v.Get(SnapshotRevision) != Optional(m.snapshotRevision) || v.Get(GeneratedAt) != Optional(m.generatedAt) ||
       !v.Get(Items).List? then None else
    var profile := ReadNamed(v.Get(Profile));
    var items := ReadArticles(v.Get(Items).items);
    if profile.None? || !v.Get(Publication).Get(Name).Text? || items.None? || m.apiVersion.None? ||
       m.snapshotRevision.None? || m.generatedAt.None? then None else
    if key == "" || profile.value.configKey != key || m.apiVersion.value != "v1" || m.snapshotRevision.value == "" then None
    else Some(Snapshot(key, profile.value, v.Get(Publication).Get(Name).text, m.apiVersion.value, m.snapshotRevision.value,
                       m.etag, m.generatedAt.value, items.value, FromArray(f, v.Get(DigestField))))
  }

  function Load(f: Formats, key: string, manifest: Option<Content>, generations: map<Generation, Content>): Loaded {
    match ReadManifest(key, manifest)
    case InvalidManifest => Invalid
    case NoManifest => Ok(LocalState(None, false, None))
    case CurrentManifest(m) =>
      if m.activeGeneration.None? then Ok(LocalState(None, m.disabled, m.lastSuccessfulSyncAt)) else
      if m.activeGeneration.value !in generations then Invalid else
      var active := ReadGeneration(f, key, m, generations[m.activeGeneration.value]);
      if active.None? then Invalid else Ok(LocalState(active, m.disabled, m.lastSuccessfulSyncAt))
  }

  // ---------------------------------------------------------------------------
  // What an activation becomes

  /** An unusable digest is dropped, everything else is kept. */
  function SnapshotOf(f: Formats, a: Activation): Snapshot {
    Snapshot(a.profileKey, a.profile, a.publication, a.apiVersion, a.snapshotRevision, a.etag, a.generatedAt, a.items,
             if a.digest.Some? && GoodDigest(f, a.digest.value) then a.digest else None)
  }

  predicate ConsistentActivation(a: Activation) {
    a.profileKey != "" && a.profile.configKey == a.profileKey && a.apiVersion == "v1" && a.snapshotRevision != ""
  }

  predicate GoodFacts(facts: Facts) {
    && facts.durationSeconds >= 0.0 && (facts.itemCount.Some? ==> facts.itemCount.value >= 0)
    && (facts.pageCount.Some? ==> facts.pageCount.value >= 0)
  }

  lemma NamedRoundTrip(n: Named)
    ensures ReadNamed(NamedValue(n)) == Some(n)
  {
  }

  lemma {:induction false} AllNamedRoundTrip(names: seq<Named>)
    ensures ReadAllNamed(NamedValues(names)) == Some(names)
  {
    if names != [] {
      NamedRoundTrip(names[0]);
      AllNamedRoundTrip(names[1..]);
      assert NamedValues(names)[1..] == NamedValues(names[1..]);
      assert [names[0]] + names[1..] == names;
    }
  }

  lemma ArticleRoundTrip(a: Article)
    ensures ReadArticle(ArticleValue(a)) == Some(a)
  {
    NamedRoundTrip(a.source);
    AllNamedRoundTrip(a.categories);
    var v := ArticleValue(a);
    assert v.Get(SourceField) == NamedValue(a.source) && v.Get(Categories) == List(NamedValues(a.categories));
    assert TextIn(v, PublishedAt) == a.publishedAt && TextIn(v, Author) == a.author;
    assert TextIn(v, Summary) == a.summary && TextIn(v, ImageUrl) == a.imageUrl;
  }

  lemma {:induction false} ArticlesRoundTrip(articles: seq<Article>)
    ensures ReadArticles(ArticleValues(articles)) == Some(articles)
  {
    if articles != [] {
      var v := ArticleValue(articles[0]);
      assert ReadArticle(v) == Some(articles[0]) by { ArticleRoundTrip(articles[0]); }
      ArticlesRoundTrip(articles[1..]);
      ReadArticlesFirst(v, ArticleValues(articles[1..]), articles[0]);
      assert [articles[0]] + articles[1..] == articles;
    }
  }

  lemma ReadArticlesFirst(v: Value, rest: seq<Value>, first: Article)
    requires ReadArticle(v) == Some(first)
    ensures ReadArticles([v] + rest) == After([first], ReadArticles(rest))
  {
    assert ([v] + rest)[1..] == rest;
  }

  lemma GenerationFields(a: Activation)
    ensures var v := EncodeGeneration(a);
            && v.Get(ProfileKey) == Text(a.profileKey) && v.Get(Profile) == NamedValue(a.profile)
            && v.Get(Publication).Get(Name) == Text(a.publication) && v.Get(ApiVersion) == Text(a.apiVersion)
            && v.Get(SnapshotRevision) == Text(a.snapshotRevision) && v.Get(GeneratedAt) == Text(a.generatedAt)
            && v.Get(Items) == List(ArticleValues(a.items))
            && v.Get(DigestField) == if a.digest.None? then Null else ToArray(a.digest.value)
  {
  }

  /** A generation reads back as its activation, and reads at all exactly when that was consistent. */
  lemma GenerationRoundTrip(f: Formats, a: Activation, m: Manifest)
    requires m.apiVersion == Some(a.apiVersion) && m.snapshotRevision == Some(a.snapshotRevision)
    requires m.generatedAt == Some(a.generatedAt) && m.etag == a.etag
    ensures ReadGeneration(f, a.profileKey, m, GenerationFile(EncodeGeneration(a))) ==
            if ConsistentActivation(a) then Some(SnapshotOf(f, a)) else None
  {
    GenerationFields(a);
    NamedRoundTrip(a.profile);
    ArticlesRoundTrip(a.items);
    if a.digest.Some? {
      DigestRoundTrip(f, a.digest.value);
    }
  }
}
