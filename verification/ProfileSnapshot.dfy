/** The snapshot of an active Profile: per-Source reads, merged and cut. */
module ProfileSnapshot {
  import opened Prelude
  import opened FeedOrder

  datatype Article = Article(
    position: Position, source: string, visible: bool, shadowedDuplicate: bool, categories: set<string>,
    headline: string, author: Option<string>, summary: Option<string>)

  datatype Association = Association(source: string, includeAny: set<string>, excludeAny: set<string>, categories: set<string>)

  /** The tables a snapshot is read from; `lower` is the database's case folding. */
  datatype World = World(articles: set<Article>, usableSources: set<string>, lower: string -> string)

  predicate Contains(text: string, phrase: string) {
    exists i | 0 <= i <= |text| :: phrase <= text[i..]
  }

  predicate Mentions(w: World, a: Article, phrase: string) {
    || Contains(w.lower(a.headline), w.lower(phrase))
    || (a.author.Some? && Contains(w.lower(a.author.value), w.lower(phrase)))
    || (a.summary.Some? && Contains(w.lower(a.summary.value), w.lower(phrase)))
  }

  predicate Eligible(w: World, a: Article, s: Association) {
    && a in w.articles && a.source in w.usableSources && a.visible && !a.shadowedDuplicate && a.source == s.source
    && (s.categories == {} || exists c | c in s.categories :: c in a.categories)
    && (s.includeAny == {} || exists p | p in s.includeAny :: Mentions(w, a, p))
    && (forall p | p in s.excludeAny :: !Mentions(w, a, p))
  }

  /** The texts a phrase is looked for in. */
  function Texts(a: Article): set<string> {
    {a.headline} + (if a.author.Some? then {a.author.value} else {}) + (if a.summary.Some? then {a.summary.value} else {})
  }

  /** Somewhere in one of the texts, whatever the case. */
  ghost predicate Says(w: World, a: Article, phrase: string) {
    exists text, before, after :: text in Texts(a) && w.lower(text) == before + w.lower(phrase) + after
  }

  /** A position is outward for a Source exactly when it is that of a visible, unshadowed Article that passes the filters. */
  lemma OutwardExactly(w: World, s: Association, p: Position)
    ensures p in Outward(w, s) <==>
              exists a :: a in w.articles && a.position == p && a.visible && !a.shadowedDuplicate &&
                a.source == s.source && s.source in w.usableSources &&
                (s.categories == {} || s.categories * a.categories != {}) &&
                (s.includeAny == {} || exists phrase :: phrase in s.includeAny && Says(w, a, phrase)) &&
                forall phrase :: phrase in s.excludeAny ==> !Says(w, a, phrase)
  {
    forall a, phrase
      ensures Mentions(w, a, phrase) <==> Says(w, a, phrase)
    {
      MentionsIsSaying(w, a, phrase);
    }
    forall a: Article
      ensures s.categories * a.categories != {} <==> exists c | c in s.categories :: c in a.categories
    {
      if c :| c in s.categories && c in a.categories {
        assert c in s.categories * a.categories;
      }
    }
  }

  lemma MentionsIsSaying(w: World, a: Article, phrase: string)
    ensures Mentions(w, a, phrase) <==> Says(w, a, phrase)
  {
    forall text
      ensures Contains(w.lower(text), w.lower(phrase)) <==>
                exists before, after :: w.lower(text) == before + w.lower(phrase) + after
    {
      ContainsExactly(w.lower(text), w.lower(phrase));
    }
  }

  lemma ContainsExactly(text: string, phrase: string)
    ensures Contains(text, phrase) <==> exists before, after :: text == before + phrase + after
  {
    if Contains(text, phrase) {
      var i :| 0 <= i <= |text| && phrase <= text[i..];
      assert text == text[..i] + phrase + text[i..][|phrase|..];
    }
    if before, after :| text == before + phrase + after {
      assert text[|before|..] == phrase + after;
    }
  }

  ghost predicate WorldValid(w: World) {
    forall a, b | a in w.articles && b in w.articles && a.position.articleId == b.position.articleId :: a == b
  }

  predicate SourcesDistinct(sources: seq<Association>) {
    forall i, j | 0 <= i < j < |sources| :: sources[i].source != sources[j].source
  }

  ghost function Outward(w: World, s: Association): set<Position> {
    set a | a in w.articles && Eligible(w, a, s) :: a.position
  }

  /** Every Article eligible through any of the Sources. */
  ghost function AllOutward(w: World, sources: seq<Association>): set<Position> {
    if sources == [] then {} else Outward(w, sources[0]) + AllOutward(w, sources[1..])
  }

  ghost function ReadSource(w: World, s: Association, limit: nat): seq<Position> {
    Take(OrderedList(Outward(w, s)), limit)
  }

  ghost function ReadSources(w: World, sources: seq<Association>, limit: nat): seq<Position> {
    if sources == [] then [] else ReadSource(w, sources[0], limit) + ReadSources(w, sources[1..], limit)
  }

  ghost function Snapshot(w: World, sources: seq<Association>, resultLimit: nat): seq<Position> {
    Take(Sort(ReadSources(w, sources, resultLimit)), resultLimit)
  }

  lemma {:induction false} AllOutwardHas(w: World, sources: seq<Association>, p: Position)
    ensures p in AllOutward(w, sources) <==> exists i | 0 <= i < |sources| :: p in Outward(w, sources[i])
  {
    if sources != [] {
      AllOutwardHas(w, sources[1..], p);
      if p in AllOutward(w, sources[1..]) {
        var i :| 0 <= i < |sources[1..]| && p in Outward(w, sources[1..][i]);
        assert p in Outward(w, sources[i + 1]);
      }
      if i :| 0 < i < |sources| && p in Outward(w, sources[i]) {
        assert sources[i] == sources[1..][i - 1];
      }
    }
  }

  lemma OneSource(w: World, s: Association, t: Association, p: Position)
    requires WorldValid(w) && p in Outward(w, s) && p in Outward(w, t)
    ensures s.source == t.source
  {
    var a :| a in w.articles && Eligible(w, a, s) && a.position == p;
    var b :| b in w.articles && Eligible(w, b, t) && b.position == p;
    assert a == b;
  }

  /** No Article is read through two Sources. */
  lemma FirstApart(w: World, sources: seq<Association>, p: Position)
    requires WorldValid(w) && SourcesDistinct(sources) && sources != [] && p in Outward(w, sources[0])
    ensures p !in AllOutward(w, sources[1..])
  {
    AllOutwardHas(w, sources[1..], p);
    forall i | 0 <= i < |sources[1..]|
      ensures p !in Outward(w, sources[1..][i])
    {
      if p in Outward(w, sources[1..][i]) {
        OneSource(w, sources[0], sources[i + 1], p);
      }
    }
  }

  lemma ReadSourceSound(w: World, s: Association, limit: nat)
    ensures Distinct(ReadSource(w, s, limit)) && forall p | p in ReadSource(w, s, limit) :: p in Outward(w, s)
  {
    var l := OrderedList(Outward(w, s));
    OrderedDistinct(l);
    assert forall p | p in Take(l, limit) :: p in l;
  }

  lemma {:induction false} ReadSourcesSound(w: World, sources: seq<Association>, limit: nat)
    requires WorldValid(w) && SourcesDistinct(sources)
    ensures Distinct(ReadSources(w, sources, limit))
    ensures forall p | p in ReadSources(w, sources, limit) :: p in AllOutward(w, sources)
    decreases |sources|
  {
    if sources != [] {
      var first, rest := ReadSource(w, sources[0], limit), ReadSources(w, sources[1..], limit);
      assert SourcesDistinct(sources[1..]) by {
        assert forall i | 0 <= i < |sources[1..]| :: sources[1..][i] == sources[i + 1];
      }
      ReadSourcesSound(w, sources[1..], limit);
      ReadSourceSound(w, sources[0], limit);
      forall p | p in first
        ensures p !in rest
      {
        FirstApart(w, sources, p);
      }
      DistinctAppend(first, rest);
    }
  }

  lemma DistinctAppend(a: seq<Position>, b: seq<Position>)
    requires Distinct(a) && Distinct(b) && forall p | p in a :: p !in b
    ensures Distinct(a + b)
  {
    forall i, j | 0 <= i < j < |a + b|
      ensures (a + b)[i] != (a + b)[j]
    {
      if i < |a| <= j {
        assert (a + b)[i] in a && (a + b)[j] in b;
      }
    }
  }

  /** Whatever is among the first of all is among the first of its own Source. */
  lemma FirstOfAllIsRead(w: World, sources: seq<Association>, limit: nat, p: Position)
    requires p in Take(OrderedList(AllOutward(w, sources)), limit)
    ensures p in ReadSources(w, sources, limit)
  {
    var all := AllOutward(w, sources);
    var l := OrderedList(all);
    assert p in l;
    AllOutwardHas(w, sources, p);
    var i :| 0 <= i < |sources| && p in Outward(w, sources[i]);
    var part := Outward(w, sources[i]);
    forall q | q in part
      ensures q in all
    {
      AllOutwardHas(w, sources, q);
    }
    KeptEarlier(l, part, p, limit);
    KeepLists(l, all, part);
    ListUnique(OrderedList(part), Keep(l, part), part);
    ReadThrough(w, sources, limit, i, p);
  }

  lemma {:induction false} ReadThrough(w: World, sources: seq<Association>, limit: nat, i: nat, p: Position)
    requires i < |sources| && p in ReadSource(w, sources[i], limit)
    ensures p in ReadSources(w, sources, limit)
    decreases |sources|
  {
    if i > 0 {
      assert sources[1..][i - 1] == sources[i];
      ReadThrough(w, sources[1..], limit, i - 1, p);
    }
  }

  /**
    Reading only each Source's first Articles, then merging, sorting and cutting, gives the first
    of the full ordered list of everything eligible.
   */
  lemma SnapshotIsFirstOfAll(w: World, sources: seq<Association>, resultLimit: nat)
    requires WorldValid(w) && SourcesDistinct(sources)
    ensures Snapshot(w, sources, resultLimit) == Take(OrderedList(AllOutward(w, sources)), resultLimit)
  {
    var all, read := AllOutward(w, sources), ReadSources(w, sources, resultLimit);
    ReadSourcesSound(w, sources, resultLimit);
    SortLists(read);
    forall p | p in Take(OrderedList(all), resultLimit)
      ensures p in Elements(read)
    {
      FirstOfAllIsRead(w, sources, resultLimit, p);
    }
    FirstOfPart(OrderedList(all), all, Sort(read), Elements(read), resultLimit);
  }
}
