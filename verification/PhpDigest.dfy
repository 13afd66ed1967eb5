/**
  The AI digest of a distribution snapshot and its array form (integrations/php/src/Digest.php).
  A decoded JSON document is a value tree; an empty PHP array is a list.
 */
module PhpDigest {
  import opened Prelude

  datatype Field =
    | GeneratedAt | Freshness | InputArticleCount | Provider | Model | Overview | Highlights
    | Title | Explanation | SupportingArticles
    | ArticleId | Headline | SourceField | DisplayName | EffectiveFeedDate | OriginalUrl
    | ProfileKey | Profile | Publication | Name | ApiVersion | SnapshotRevision | Items | DigestField | ConfigKey
    | FeedDateSource | PublishedAt | Author | Summary | ImageUrl | Categories
    | Unknown(name: string)

  datatype Value =
    | Null | Flag(flag: bool) | Number(number: int) | Text(text: string)
    | List(items: seq<Value>) | Dict(entries: map<Field, Value>)
  {
    /** `$value[$field] ?? null`. */
    function Get(field: Field): Value {
      if Dict? && field in entries then entries[field] else Null
    }
  }

  datatype Support = Support(articleId: string, headline: string, sourceDisplayName: string,
                             effectiveFeedDate: string, originalUrl: string)

  datatype Highlight = Highlight(title: string, explanation: string, supportingArticles: seq<Support>)

  datatype Digest = Digest(generatedAt: string, freshness: string, inputArticleCount: int, provider: string,
                           model: string, overview: string, highlights: seq<Highlight>)

  /** PHP's own judgement of timestamps and of http or https URLs. */
  datatype Formats = Formats(timestamp: string -> bool, url: string -> bool)

  const MAX_ARTICLE_ID := 512
  const MAX_HEADLINE := 8_192
  const MAX_SOURCE_NAME := 2_000
  const MAX_PROVIDER_OR_MODEL := 100
  const MAX_OVERVIEW := 2_000
  const MAX_TITLE := 200
  const MAX_EXPLANATION := 500
  const MAX_URL := 8_192
  const MAX_GENERATED_PROSE := 4_000

  // ---------------------------------------------------------------------------
  // What a digest has to satisfy

  predicate Bounded(s: string, maximum: nat) { 1 <= |s| <= maximum }

  predicate GoodSupport(f: Formats, s: Support) {
    && Bounded(s.articleId, MAX_ARTICLE_ID) && Bounded(s.headline, MAX_HEADLINE)
    && Bounded(s.sourceDisplayName, MAX_SOURCE_NAME) && f.timestamp(s.effectiveFeedDate)
    && Bounded(s.originalUrl, MAX_URL) && f.url(s.originalUrl)
  }

  predicate GoodSupports(f: Formats, supports: seq<Support>) {
    supports == [] || (GoodSupport(f, supports[0]) && GoodSupports(f, supports[1..]))
  }

  predicate GoodHighlight(f: Formats, h: Highlight) {
    && Bounded(h.title, MAX_TITLE) && Bounded(h.explanation, MAX_EXPLANATION)
    && |h.supportingArticles| <= 3 && GoodSupports(f, h.supportingArticles)
  }

  predicate GoodHighlights(f: Formats, highlights: seq<Highlight>) {
    highlights == [] || (GoodHighlight(f, highlights[0]) && GoodHighlights(f, highlights[1..]))
  }

  function Prose(highlights: seq<Highlight>): nat {
    if highlights == [] then 0
    else |highlights[0].title| + |highlights[0].explanation| + Prose(highlights[1..])
  }

  /** Every part within its limits and all generated prose together within one more. */
  predicate GoodDigest(f: Formats, d: Digest) {
    && f.timestamp(d.generatedAt) && d.freshness in {"current", "older"} && 1 <= d.inputArticleCount <= 20
    && Bounded(d.provider, MAX_PROVIDER_OR_MODEL) && Bounded(d.model, MAX_PROVIDER_OR_MODEL)
    && Bounded(d.overview, MAX_OVERVIEW)
    && |d.highlights| <= 3 && GoodHighlights(f, d.highlights)
    && |d.overview| + Prose(d.highlights) <= MAX_GENERATED_PROSE
  }

  predicate SupportWithin(f: Formats, s: Support) {
    && 1 <= |s.articleId| <= 512 && 1 <= |s.headline| <= 8192 && 1 <= |s.sourceDisplayName| <= 2000
    && f.timestamp(s.effectiveFeedDate) && 1 <= |s.originalUrl| <= 8192 && f.url(s.originalUrl)
  }

  predicate HighlightWithin(f: Formats, h: Highlight) {
    && 1 <= |h.title| <= 200 && 1 <= |h.explanation| <= 500 && |h.supportingArticles| <= 3
    && forall i | 0 <= i < |h.supportingArticles| :: SupportWithin(f, h.supportingArticles[i])
  }

  lemma {:induction false} GoodSupportsExactly(f: Formats, supports: seq<Support>)
    ensures GoodSupports(f, supports) <==> forall i | 0 <= i < |supports| :: SupportWithin(f, supports[i])
  {
    if supports != [] {
      GoodSupportsExactly(f, supports[1..]);
      assert forall i | 0 < i < |supports| :: supports[i] == supports[1..][i - 1];
    }
  }

  lemma {:induction false} GoodHighlightsExactly(f: Formats, highlights: seq<Highlight>)
    ensures GoodHighlights(f, highlights) <==> forall i | 0 <= i < |highlights| :: HighlightWithin(f, highlights[i])
  {
    if highlights != [] {
      GoodSupportsExactly(f, highlights[0].supportingArticles);
      GoodHighlightsExactly(f, highlights[1..]);
      assert forall i | 0 < i < |highlights| :: highlights[i] == highlights[1..][i - 1];
    }
  }

  /** The limits in numbers. */
  lemma DigestLimits(f: Formats, d: Digest)
    ensures GoodDigest(f, d) <==>
              && f.timestamp(d.generatedAt) && d.freshness in {"current", "older"} && 1 <= d.inputArticleCount <= 20
              && 1 <= |d.provider| <= 100 && 1 <= |d.model| <= 100 && 1 <= |d.overview| <= 2000 && |d.highlights| <= 3
              && (forall i | 0 <= i < |d.highlights| :: HighlightWithin(f, d.highlights[i]))
              && |d.overview| + Prose(d.highlights) <= 4000
  {
    GoodHighlightsExactly(f, d.highlights);
  }

  // ---------------------------------------------------------------------------
  // The mapper

  function TextWithin(v: Value, maximum: nat): (s: Option<string>)
    ensures s.Some? <==> v.Text? && Bounded(v.text, maximum)
    ensures s.Some? ==> s.value == v.text
  {
    if v.Text? && 1 <= |v.text| <= maximum then Some(v.text) else None
  }

  function Timestamp(f: Formats, v: Value): Option<string> {
    if v.Text? && f.timestamp(v.text) then Some(v.text) else None
  }

  function Url(f: Formats, v: Value): Option<string> {
    if TextWithin(v, MAX_URL).Some? && f.url(v.text) then Some(v.text) else None
  }

  function ReadSupport(f: Formats, v: Value): Option<Support> {
    if !v.Dict? || !v.Get(SourceField).Dict? then None else
    var articleId := TextWithin(v.Get(ArticleId), MAX_ARTICLE_ID);
    var headline := TextWithin(v.Get(Headline), MAX_HEADLINE);
    var source := TextWithin(v.Get(SourceField).Get(DisplayName), MAX_SOURCE_NAME);
    var date := Timestamp(f, v.Get(EffectiveFeedDate));
    var url := Url(f, v.Get(OriginalUrl));
    if articleId.None? || headline.None? || source.None? || date.None? || url.None? then None
    else Some(Support(articleId.value, headline.value, source.value, date.value, url.value))
  }

  /** What reading a whole list gives, once everything in `read` was accepted. */
  function After<T>(read: seq<T>, rest: Option<seq<T>>): Option<seq<T>> {
    if rest.None? then None else Some(read + rest.value)
  }

  function ReadSupports(f: Formats, items: seq<Value>): Option<seq<Support>> {
    if items == [] then Some([]) else
    var first := ReadSupport(f, items[0]);
    if first.None? then None else After([first.value], ReadSupports(f, items[1..]))
  }

  function ReadHighlight(f: Formats, v: Value): Option<Highlight> {
    if !v.Dict? then None else
    var title := TextWithin(v.Get(Title), MAX_TITLE);
    var explanation := TextWithin(v.Get(Explanation), MAX_EXPLANATION);
    var supports := v.Get(SupportingArticles);
    if title.None? || explanation.None? || !supports.List? || |supports.items| > 3 then None else
    var articles := ReadSupports(f, supports.items);
    if articles.None? then None else Some(Highlight(title.value, explanation.value, articles.value))
  }

  /** Stops as soon as the prose read so far passes the limit. */
  function ReadHighlights(f: Formats, items: seq<Value>, prose: nat): Option<seq<Highlight>>
    decreases |items|
  {
    if items == [] then Some([]) else
    var first := ReadHighlight(f, items[0]);
    if first.None? then None else
    var read := prose + |first.value.title| + |first.value.explanation|;
    if read > MAX_GENERATED_PROSE then None else After([first.value], ReadHighlights(f, items[1..], read))
  }

  /** Optional data: anything malformed reads as no digest. */
  function FromArray(f: Formats, v: Value): Option<Digest> {
    if !v.Dict? then None else
    var generatedAt := Timestamp(f, v.Get(GeneratedAt));
    var freshness := v.Get(Freshness);
    var count := v.Get(InputArticleCount);
    var provider := TextWithin(v.Get(Provider), MAX_PROVIDER_OR_MODEL);
    var model := TextWithin(v.Get(Model), MAX_PROVIDER_OR_MODEL);
    var overview := TextWithin(v.Get(Overview), MAX_OVERVIEW);
    var data := v.Get(Highlights);
    if generatedAt.None? || !freshness.Text? || freshness.text !in {"current", "older"} ||
       !count.Number? || count.number < 1 || count.number > 20 ||
       provider.None? || model.None? || overview.None? || !data.List? || |data.items| > 3 then None else
    var highlights := ReadHighlights(f, data.items, |overview.value|);
    if highlights.None? then None
    else Some(Digest(generatedAt.value, freshness.text, count.number, provider.value, model.value, overview.value,
                     highlights.value))
  }

  function SupportValue(s: Support): Value {
    Dict(map[ArticleId := Text(s.articleId), Headline := Text(s.headline),
             SourceField := Dict(map[DisplayName := Text(s.sourceDisplayName)]),
             EffectiveFeedDate := Text(s.effectiveFeedDate), OriginalUrl := Text(s.originalUrl)])
  }

  function SupportValues(supports: seq<Support>): (r: seq<Value>)
    ensures |r| == |supports|
  {
    if supports == [] then [] else [SupportValue(supports[0])] + SupportValues(supports[1..])
  }

  function HighlightValue(h: Highlight): Value {
    Dict(map[Title := Text(h.title), Explanation := Text(h.explanation),
             SupportingArticles := List(SupportValues(h.supportingArticles))])
  }

  function HighlightValues(highlights: seq<Highlight>): (r: seq<Value>)
    ensures |r| == |highlights|
  {
    if highlights == [] then [] else [HighlightValue(highlights[0])] + HighlightValues(highlights[1..])
  }

  function ToArray(d: Digest): Value {
    Dict(map[GeneratedAt := Text(d.generatedAt), Freshness := Text(d.freshness),
             InputArticleCount := Number(d.inputArticleCount), Provider := Text(d.provider), Model := Text(d.model),
             Overview := Text(d.overview), Highlights := List(HighlightValues(d.highlights))])
  }

  // ---------------------------------------------------------------------------
  // Round trips

  lemma SupportRoundTrip(f: Formats, s: Support)
    ensures ReadSupport(f, SupportValue(s)) == if GoodSupport(f, s) then Some(s) else None
  {
  }

  lemma {:induction false} SupportsRoundTrip(f: Formats, supports: seq<Support>)
    ensures ReadSupports(f, SupportValues(supports)) ==
            if GoodSupports(f, supports) then Some(supports) else None
  {
    if supports != [] {
      SupportRoundTrip(f, supports[0]);
      SupportsRoundTrip(f, supports[1..]);
      var values := SupportValues(supports);
      assert values[1..] == SupportValues(supports[1..]);
      assert supports == [supports[0]] + supports[1..];
    }
  }

  lemma HighlightRoundTrip(f: Formats, h: Highlight)
    ensures ReadHighlight(f, HighlightValue(h)) == if GoodHighlight(f, h) then Some(h) else None
  {
    SupportsRoundTrip(f, h.supportingArticles);
    assert HighlightValue(h).Get(SupportingArticles) == List(SupportValues(h.supportingArticles));
  }

  predicate Within(f: Formats, highlights: seq<Highlight>, prose: nat) {
    GoodHighlights(f, highlights) && prose + Prose(highlights) <= MAX_GENERATED_PROSE
  }

  lemma WithinFirst(f: Formats, highlights: seq<Highlight>, prose: nat)
    requires highlights != []
    ensures var read := prose + |highlights[0].title| + |highlights[0].explanation|;
            Within(f, highlights, prose) <==>
              GoodHighlight(f, highlights[0]) && read <= MAX_GENERATED_PROSE && Within(f, highlights[1..], read)
  {
  }

  /** One unfolding of `ReadHighlights`. */
  lemma ReadHighlightsFirst(f: Formats, v: Value, rest: seq<Value>, prose: nat, first: Option<Highlight>)
    requires ReadHighlight(f, v) == first
    ensures ReadHighlights(f, [v] + rest, prose) ==
            if first.None? then None else
            var read := prose + |first.value.title| + |first.value.explanation|;
            if read > MAX_GENERATED_PROSE then None else After([first.value], ReadHighlights(f, rest, read))
  {
    assert ([v] + rest)[1..] == rest;
  }

  lemma RoundTripStep(f: Formats, highlights: seq<Highlight>, v: Value, rest: seq<Value>, prose: nat, read: nat)
    requires highlights != [] && read == prose + |highlights[0].title| + |highlights[0].explanation|
    requires ReadHighlight(f, v) == if GoodHighlight(f, highlights[0]) then Some(highlights[0]) else None
    requires read <= MAX_GENERATED_PROSE ==>
               ReadHighlights(f, rest, read) == if Within(f, highlights[1..], read) then Some(highlights[1..]) else None
    ensures ReadHighlights(f, [v] + rest, prose) == if Within(f, highlights, prose) then Some(highlights) else None
  {
    WithinFirst(f, highlights, prose);
    ReadHighlightsFirst(f, v, rest, prose, ReadHighlight(f, v));
    assert highlights == [highlights[0]] + highlights[1..];
  }

  lemma {:induction false} HighlightsRoundTrip(f: Formats, highlights: seq<Highlight>, prose: nat)
    requires prose <= MAX_GENERATED_PROSE
    ensures ReadHighlights(f, HighlightValues(highlights), prose) ==
            if Within(f, highlights, prose) then Some(highlights) else None
    decreases |highlights|
  {
    if highlights != [] {
      HighlightRoundTrip(f, highlights[0]);
      var read := prose + |highlights[0].title| + |highlights[0].explanation|;
      if read <= MAX_GENERATED_PROSE {
        HighlightsRoundTrip(f, highlights[1..], read);
      }
      RoundTripStep(f, highlights, HighlightValue(highlights[0]), HighlightValues(highlights[1..]), prose, read);
    }
  }

  /** A digest survives the array form exactly when it is within every limit. */
  lemma DigestRoundTrip(f: Formats, d: Digest)
    ensures FromArray(f, ToArray(d)) == if GoodDigest(f, d) then Some(d) else None
  {
    ArrayFields(d);
    if |d.overview| <= MAX_OVERVIEW {
      HighlightsRoundTrip(f, d.highlights, |d.overview|);
    }
  }

  lemma ArrayFields(d: Digest)
    ensures var v := ToArray(d);
            && v.Get(GeneratedAt) == Text(d.generatedAt) && v.Get(Freshness) == Text(d.freshness)
            && v.Get(InputArticleCount) == Number(d.inputArticleCount) && v.Get(Provider) == Text(d.provider)
            && v.Get(Model) == Text(d.model) && v.Get(Overview) == Text(d.overview)
            && v.Get(Highlights) == List(HighlightValues(d.highlights))
  {
  }

  lemma {:induction false} AcceptedSupports(f: Formats, items: seq<Value>)
    requires ReadSupports(f, items).Some?
    ensures GoodSupports(f, ReadSupports(f, items).value) && |ReadSupports(f, items).value| == |items|
  {
    if items != [] {
      AcceptedSupports(f, items[1..]);
    }
  }

  lemma AcceptedHighlight(f: Formats, v: Value)
    requires ReadHighlight(f, v).Some?
    ensures GoodHighlight(f, ReadHighlight(f, v).value)
  {
    AcceptedSupports(f, v.Get(SupportingArticles).items);
  }

  lemma {:induction false} AcceptedHighlights(f: Formats, items: seq<Value>, prose: nat)
    requires ReadHighlights(f, items, prose).Some? && prose <= MAX_GENERATED_PROSE
    ensures var r := ReadHighlights(f, items, prose).value;
            |r| == |items| && Within(f, r, prose)
    decreases |items|
  {
    if items != [] {
      AcceptedHighlight(f, items[0]);
      var first := ReadHighlight(f, items[0]).value;
      AcceptedHighlights(f, items[1..], prose + |first.title| + |first.explanation|);
      WithinFirst(f, ReadHighlights(f, items, prose).value, prose);
    }
  }

  /** Whatever is accepted is within every limit, so it is accepted again unchanged. */
  lemma AcceptedDigest(f: Formats, v: Value)
    requires FromArray(f, v).Some?
    ensures GoodDigest(f, FromArray(f, v).value)
    ensures FromArray(f, ToArray(FromArray(f, v).value)) == FromArray(f, v)
  {
    AcceptedHighlights(f, v.Get(Highlights).items, |v.Get(Overview).text|);
    DigestRoundTrip(f, FromArray(f, v).value);
  }

  // ---------------------------------------------------------------------------
  // The mapper's loops

  lemma AfterNext<T>(read: seq<T>, next: T, rest: Option<seq<T>>)
    ensures After(read, After([next], rest)) == After(read + [next], rest)
  {
    if rest.Some? {
      assert read + ([next] + rest.value) == (read + [next]) + rest.value;
    }
  }

  lemma AfterAll<T>(read: seq<T>, rest: Option<seq<T>>)
    ensures After(read, Some([])) == Some(read) && After([], rest) == rest
  {
    if rest.Some? {
      assert [] + rest.value == rest.value;
    }
    assert read + [] == read;
  }

  method MapSupports(f: Formats, items: seq<Value>) returns (r: Option<seq<Support>>)
    ensures r == ReadSupports(f, items)
  {
    var supports := [];
    var k := 0;
    assert items[0..] == items;
    AfterAll(supports, ReadSupports(f, items));
    while k < |items|
      invariant 0 <= k <= |items|
      invariant ReadSupports(f, items) == After(supports, ReadSupports(f, items[k..]))
    {
      assert items[k..][1..] == items[k + 1..];
      var next := ReadSupport(f, items[k]);
      if next.None? { return None; }
      AfterNext(supports, next.value, ReadSupports(f, items[k + 1..]));
      supports := supports + [next.value];
      k := k + 1;
    }
    AfterAll(supports, None);
    return Some(supports);
  }

  method MapHighlight(f: Formats, v: Value) returns (r: Option<Highlight>)
    ensures r == ReadHighlight(f, v)
  {
    if !v.Dict? { return None; }
    var title := TextWithin(v.Get(Title), MAX_TITLE);
    var explanation := TextWithin(v.Get(Explanation), MAX_EXPLANATION);
    var supports := v.Get(SupportingArticles);
    if title.None? || explanation.None? || !supports.List? || |supports.items| > 3 { return None; }
    var articles := MapSupports(f, supports.items);
    if articles.None? { return None; }
    return Some(Highlight(title.value, explanation.value, articles.value));
  }

  lemma NextHighlight(f: Formats, items: seq<Value>, k: nat, prose: nat, before: seq<Highlight>, next: Option<Highlight>)
    requires k < |items| && ReadHighlight(f, items[k]) == next
    ensures var all := After(before, ReadHighlights(f, items[k..], prose));
            if next.None? then all.None? else
            var read := prose + |next.value.title| + |next.value.explanation|;
            if read > MAX_GENERATED_PROSE then all.None?
            else all == After(before + [next.value], ReadHighlights(f, items[k + 1..], read))
  {
    assert items[k..] == [items[k]] + items[k + 1..];
    ReadHighlightsFirst(f, items[k], items[k + 1..], prose, next);
    if next.Some? {
      AfterNext(before, next.value, ReadHighlights(f, items[k + 1..], prose + |next.value.title| + |next.value.explanation|));
    }
  }

  method MapHighlights(f: Formats, items: seq<Value>, overviewLength: nat) returns (r: Option<seq<Highlight>>)
    ensures r == ReadHighlights(f, items, overviewLength)
  {
    var highlights := [];
    var generatedProse: nat := overviewLength;
    var k := 0;
    assert items[0..] == items;
    AfterAll(highlights, ReadHighlights(f, items, overviewLength));
    while k < |items|
      invariant 0 <= k <= |items|
      invariant ReadHighlights(f, items, overviewLength) == After(highlights, ReadHighlights(f, items[k..], generatedProse))
    {
      var next := MapHighlight(f, items[k]);
      NextHighlight(f, items, k, generatedProse, highlights, next);
      if next.None? { return None; }
      generatedProse := generatedProse + |next.value.title| + |next.value.explanation|;
      if generatedProse > MAX_GENERATED_PROSE { return None; }
      highlights := highlights + [next.value];
      k := k + 1;
    }
    AfterAll(highlights, None);
    return Some(highlights);
  }

  method MapDigest(f: Formats, v: Value) returns (r: Option<Digest>)
    ensures r == FromArray(f, v)
  {
    if !v.Dict? { return None; }
    var generatedAt := Timestamp(f, v.Get(GeneratedAt));
    var freshness := v.Get(Freshness);
    var count := v.Get(InputArticleCount);
    var provider := TextWithin(v.Get(Provider), MAX_PROVIDER_OR_MODEL);
    var model := TextWithin(v.Get(Model), MAX_PROVIDER_OR_MODEL);
    var overview := TextWithin(v.Get(Overview), MAX_OVERVIEW);
    var data := v.Get(Highlights);
    if generatedAt.None? || !freshness.Text? || (freshness.text != "current" && freshness.text != "older") ||
       !count.Number? || count.number < 1 || count.number > 20 ||
       provider.None? || model.None? || overview.None? || !data.List? || |data.items| > 3 {
      return None;
    }
    var highlights := MapHighlights(f, data.items, |overview.value|);
    if highlights.None? { return None; }
    return Some(Digest(generatedAt.value, freshness.text, count.number, provider.value, model.value, overview.value,
                       highlights.value));
  }
}
