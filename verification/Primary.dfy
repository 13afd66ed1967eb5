/** Choice of the Primary among the members of a group (src/deduplication/primary.ts). */
module Primary {
  import opened Prelude
  import opened Evidence

  /** Articles and Source priorities, fixed while Primaries are compared. */
  datatype Catalog = Catalog(articles: map<Uuid, Article>, priorities: map<Uuid, int>) {
    ghost predicate Valid() {
      forall id | id in articles :: articles[id].id == id && articles[id].sourceId in priorities
    }
  }

  function MetadataCompleteness(article: Article): nat {
    (if article.author.Some? then 1 else 0) + (if article.summary.Some? then 1 else 0) +
    (if article.imageUrl.Some? then 1 else 0) + (if article.language.Some? then 1 else 0)
  }

  function HttpsQuality(article: Article): nat { if article.originalUrlIsHttps then 1 else 0 }

  function CrediblePublicationTime(article: Article): Option<int> {
    if article.publishedAtParsed then article.publishedAt else None
  }

  function ComparePublicationTime(left: Article, right: Article): int {
    match (CrediblePublicationTime(left), CrediblePublicationTime(right))
    case (Some(l), Some(r)) => l - r
    case (None, None) => 0
    case (None, Some(_)) => 1
    case (Some(_), None) => -1
  }

  /** Negative when `left` is the preferred Primary. */
  function ComparePrimaryCandidates(left: Article, right: Article, priorities: map<Uuid, int>): int
    requires left.sourceId in priorities && right.sourceId in priorities
  {
    var sourcePriority := priorities[right.sourceId] - priorities[left.sourceId];
    if sourcePriority != 0 then sourcePriority else
    var completeness := MetadataCompleteness(right) - MetadataCompleteness(left);
    if completeness != 0 then completeness else
    var destination := HttpsQuality(right) - HttpsQuality(left);
    if destination != 0 then destination else
    var publication := ComparePublicationTime(left, right);
    if publication != 0 then publication else
    var firstSeen := left.firstSeenAt - right.firstSeenAt;
    if firstSeen != 0 then firstSeen else
    var created := left.createdAt - right.createdAt;
    if created != 0 then created else
    if left.id < right.id then -1 else if left.id > right.id then 1 else 0
  }

  /** The reduction that keeps the first of equally preferred Articles. */
  function SelectPrimaryFrom(preferred: Article, rest: seq<Article>, priorities: map<Uuid, int>): Article
    requires preferred.sourceId in priorities
    requires forall x | x in rest :: x.sourceId in priorities
    decreases |rest|
  {
    if rest == [] then preferred
    else SelectPrimaryFrom(
           if ComparePrimaryCandidates(rest[0], preferred, priorities) < 0 then rest[0] else preferred,
           rest[1..], priorities)
  }

  function SelectPrimary(articles: seq<Article>, priorities: map<Uuid, int>): Article
    requires articles != []
    requires forall x | x in articles :: x.sourceId in priorities
  {
    SelectPrimaryFrom(articles[0], articles[1..], priorities)
  }

  // ---------------------------------------------------------------------------
  // The comparison is a total order on Articles with distinct ids

  /** Strictly preferred. */
  ghost predicate Precedes(a: Article, b: Article, priorities: map<Uuid, int>)
    requires a.sourceId in priorities && b.sourceId in priorities
  {
    ComparePrimaryCandidates(a, b, priorities) < 0
  }

  /** A publication time that was parsed. */
  predicate Dated(a: Article) { a.publishedAtParsed && a.publishedAt.Some? }

  predicate PublishedBefore(a: Article, b: Article) {
    Dated(a) && (!Dated(b) || a.publishedAt.value < b.publishedAt.value)
  }

  datatype Column = Author | Summary | Image | Language

  function FilledColumns(a: Article): set<Column> {
    (if a.author.Some? then {Author} else {}) + (if a.summary.Some? then {Summary} else {}) +
    (if a.imageUrl.Some? then {Image} else {}) + (if a.language.Some? then {Language} else {})
  }

  predicate Preferred(a: Article, b: Article, priorities: map<Uuid, int>)
    requires a.sourceId in priorities && b.sourceId in priorities
  {
    Outranks(a, b, priorities[a.sourceId], priorities[b.sourceId], |FilledColumns(a)|, |FilledColumns(b)|)
  }

  /** Each criterion counts only among Articles that all criteria before it leave equal. */
  predicate Outranks(a: Article, b: Article, p: int, q: int, m: nat, n: nat) {
    p > q || (p == q && (
      m > n || (m == n && (
        (a.originalUrlIsHttps && !b.originalUrlIsHttps) || (a.originalUrlIsHttps == b.originalUrlIsHttps && (
          PublishedBefore(a, b) || (!PublishedBefore(b, a) && (
            a.firstSeenAt < b.firstSeenAt || (a.firstSeenAt == b.firstSeenAt && (
              a.createdAt < b.createdAt || (a.createdAt == b.createdAt &&
                a.id < b.id)))))))))))
  }

  /**
    Highest Source priority, then most of author, summary, image and language, then https, then
    the earliest parsed publication time before none, then earliest sighting, creation and id.
   */
  lemma PrecedesIsPreferred(a: Article, b: Article, priorities: map<Uuid, int>)
    requires a.sourceId in priorities && b.sourceId in priorities
    ensures Precedes(a, b, priorities) <==> Preferred(a, b, priorities)
  {
    PrecedesIsOutranking(a, b, priorities);
    FilledIsCompleteness(a);
    FilledIsCompleteness(b);
  }

  lemma PrecedesIsOutranking(a: Article, b: Article, priorities: map<Uuid, int>)
    requires a.sourceId in priorities && b.sourceId in priorities
    ensures Precedes(a, b, priorities) <==>
            Outranks(a, b, priorities[a.sourceId], priorities[b.sourceId], MetadataCompleteness(a), MetadataCompleteness(b))
  {
  }

  lemma FilledIsCompleteness(a: Article)
    ensures |FilledColumns(a)| == MetadataCompleteness(a)
  {
    var author: set<Column> := if a.author.Some? then {Author} else {};
    var summary: set<Column> := if a.summary.Some? then {Summary} else {};
    var image: set<Column> := if a.imageUrl.Some? then {Image} else {};
    var language: set<Column> := if a.language.Some? then {Language} else {};
    assert author !! summary && (author + summary) !! image && (author + summary + image) !! language;
  }

  /** The selected Article is one of the given ones and preferred to every other one. */
  lemma SelectPrimaryIsPreferred(articles: seq<Article>, priorities: map<Uuid, int>)
    requires articles != [] && forall x | x in articles :: x.sourceId in priorities
    requires forall x, y | x in articles && y in articles && x.id == y.id :: x == y
    ensures var p := SelectPrimary(articles, priorities);
            && p in articles
            && (forall x | x in articles && x != p :: Preferred(p, x, priorities))
            && (forall x | x in articles :: priorities[x.sourceId] <= priorities[p.sourceId])
  {
    SelectPrimaryFromLeast(articles[0], articles[1..], priorities);
    var p := SelectPrimary(articles, priorities);
    assert articles == [articles[0]] + articles[1..];
    forall x | x in articles && x != p
      ensures Preferred(p, x, priorities) && priorities[x.sourceId] <= priorities[p.sourceId]
    {
      PrecedesIsTotal(p, x, priorities);
      PrecedesIsPreferred(p, x, priorities);
    }
  }

  lemma PrecedesIsTotal(a: Article, b: Article, priorities: map<Uuid, int>)
    requires a.sourceId in priorities && b.sourceId in priorities
    ensures a.id != b.id ==> Precedes(a, b, priorities) || Precedes(b, a, priorities)
    ensures !(Precedes(a, b, priorities) && Precedes(b, a, priorities))
    ensures !Precedes(a, a, priorities)
  {
  }

  lemma PrecedesIsTransitive(a: Article, b: Article, c: Article, priorities: map<Uuid, int>)
    requires a.sourceId in priorities && b.sourceId in priorities && c.sourceId in priorities
    requires Precedes(a, b, priorities) && Precedes(b, c, priorities)
    ensures Precedes(a, c, priorities)
  {
  }

  // ---------------------------------------------------------------------------
  // The least member of a set of Articles

  /** `x` is a member that precedes every other member. */
  ghost predicate IsLeast(c: Catalog, x: Uuid, members: set<Uuid>)
    requires c.Valid() && members <= c.articles.Keys
  {
    x in members &&
    forall y | y in members && y != x :: Precedes(c.articles[x], c.articles[y], c.priorities)
  }

  lemma LeastUnique(c: Catalog, x: Uuid, y: Uuid, members: set<Uuid>)
    requires c.Valid() && members <= c.articles.Keys
    requires IsLeast(c, x, members) && IsLeast(c, y, members)
    ensures x == y
  {
    PrecedesIsTotal(c.articles[x], c.articles[y], c.priorities);
  }

  lemma LeastOfSubset(c: Catalog, x: Uuid, members: set<Uuid>, fewer: set<Uuid>)
    requires c.Valid() && members <= c.articles.Keys
    requires IsLeast(c, x, members) && fewer <= members && x in fewer
    ensures IsLeast(c, x, fewer)
  {
  }

  /** The rows read for `ids`, in that order. */
  function ArticleRows(c: Catalog, ids: seq<Uuid>): (rows: seq<Article>)
    requires forall a | a in ids :: a in c.articles
    ensures |rows| == |ids|
  {
    seq(|ids|, i requires 0 <= i < |ids| => c.articles[ids[i]])
  }

  lemma {:induction false} SelectPrimaryFromLeast(preferred: Article, rest: seq<Article>, priorities: map<Uuid, int>)
    requires preferred.sourceId in priorities
    requires forall x | x in rest :: x.sourceId in priorities
    ensures var p := SelectPrimaryFrom(preferred, rest, priorities);
            && (p == preferred || p in rest)
            && !Precedes(preferred, p, priorities)
            && forall x | x in rest :: !Precedes(x, p, priorities)
    decreases |rest|
  {
    if rest != [] {
      var next := if ComparePrimaryCandidates(rest[0], preferred, priorities) < 0 then rest[0] else preferred;
      SelectPrimaryFromLeast(next, rest[1..], priorities);
      var p := SelectPrimaryFrom(next, rest[1..], priorities);
      forall x | x == preferred || x == rest[0]
        ensures !Precedes(x, p, priorities)
      {
        if Precedes(x, p, priorities) && x != next {
          if Precedes(next, x, priorities) {
            PrecedesIsTransitive(next, x, p, priorities);
          } else {
            NotPrecedingTransfers(x, next, p, priorities);
          }
        }
      }
      assert rest == [rest[0]] + rest[1..];
    }
  }

  /** If neither of two Articles precedes the other they precede the same Articles. */
  lemma NotPrecedingTransfers(x: Article, y: Article, p: Article, priorities: map<Uuid, int>)
    requires x.sourceId in priorities && y.sourceId in priorities && p.sourceId in priorities
    requires !Precedes(x, y, priorities) && !Precedes(y, x, priorities) && Precedes(x, p, priorities)
    ensures Precedes(y, p, priorities)
  {
  }

  /** Whatever the order of the rows, the choice is the unique least member. */
  lemma SelectPrimaryIsLeast(c: Catalog, ids: seq<Uuid>, members: set<Uuid>)
    requires c.Valid() && members <= c.articles.Keys && ids != []
    requires forall a :: a in ids <==> a in members
    ensures var rows := ArticleRows(c, ids);
            && (forall x | x in rows :: x.sourceId in c.priorities)
            && IsLeast(c, SelectPrimary(rows, c.priorities).id, members)
  {
    var rows := ArticleRows(c, ids);
    assert forall i | 0 <= i < |rows| :: rows[i] == c.articles[ids[i]] && ids[i] in members;
    SelectPrimaryFromLeast(rows[0], rows[1..], c.priorities);
    var p := SelectPrimary(rows, c.priorities);
    assert rows == [rows[0]] + rows[1..];
    assert p in rows;
    forall y | y in members && y != p.id
      ensures Precedes(p, c.articles[y], c.priorities)
    {
      var i :| 0 <= i < |ids| && ids[i] == y;
      assert rows[i] in rows;
      PrecedesIsTotal(p, c.articles[y], c.priorities);
    }
  }

  lemma {:induction false} SequenceOfSet(members: set<Uuid>) returns (ids: seq<Uuid>)
    ensures forall a :: a in ids <==> a in members
    ensures |ids| == |members|
  {
    if members == {} {
      ids := [];
    } else {
      var a :| a in members;
      var rest := SequenceOfSet(members - {a});
      ids := [a] + rest;
    }
  }

  lemma LeastExists(c: Catalog, members: set<Uuid>)
    requires c.Valid() && members <= c.articles.Keys && members != {}
    ensures exists x :: IsLeast(c, x, members)
  {
    var ids := SequenceOfSet(members);
    assert ids != [] by { var a :| a in members; assert a in ids; }
    SelectPrimaryIsLeast(c, ids, members);
  }

  ghost function LeastOf(c: Catalog, members: set<Uuid>): (x: Uuid)
    requires c.Valid() && members <= c.articles.Keys && members != {}
    ensures IsLeast(c, x, members)
  {
    LeastExists(c, members);
    var x :| IsLeast(c, x, members);
    x
  }
}
