/**
  The outward order of Articles and the Profile snapshot taken from it
  (src/distribution/profile-snapshot.ts, src/distribution/canonical-outward-articles.ts).
  Canonical timestamps and UUIDs sort as their texts.
 */
module FeedOrder {
  datatype Position = Position(effectiveFeedDate: string, firstSeenAt: string, articleId: string)

  // ---------------------------------------------------------------------------
  // The order

  predicate TextBefore(a: string, b: string) {
    b != [] && (a == [] || a[0] < b[0] || (a[0] == b[0] && TextBefore(a[1..], b[1..])))
  }

  /** At the first difference the smaller character decides, and the end of a text comes before any character. */
  lemma {:induction false} TextBeforeExactly(a: string, b: string)
    ensures TextBefore(a, b) <==> exists k {:trigger a[..k]} | 0 <= k <= |a| && k < |b| :: a[..k] == b[..k] && (k == |a| || a[k] < b[k])
  {
    if a == "" {
      assert b != "" ==> a[..0] == b[..0];
    } else if b != "" && a[0] == b[0] {
      var x, y := a[1..], b[1..];
      TextBeforeExactly(x, y);
      if TextBefore(x, y) {
        var k :| 0 <= k <= |x| && k < |y| && x[..k] == y[..k] && (k == |x| || x[k] < y[k]);
        assert a[..k + 1] == [a[0]] + x[..k] && b[..k + 1] == [b[0]] + y[..k];
      }
      if k :| 0 <= k <= |a| && k < |b| && a[..k] == b[..k] && (k == |a| || a[k] < b[k]) {
        assert k > 0;
        assert x[..k - 1] == a[..k][1..] && y[..k - 1] == b[..k][1..];
      }
    } else if b != "" {
      if a[0] < b[0] {
        assert a[..0] == b[..0];
      }
      forall k | 0 < k <= |a| && k < |b|
        ensures a[..k] != b[..k]
      {
        FirstDiffers(a, b, k);
      }
    }
  }

  lemma FirstDiffers(a: string, b: string, k: nat)
    requires 0 < k <= |a| && k <= |b| && a[0] != b[0]
    ensures a[..k] != b[..k]
  {
    assert a[..k][0] == a[0] && b[..k][0] == b[0];
  }

  lemma {:induction false} TextTotal(a: string, b: string)
    ensures a == b || TextBefore(a, b) || TextBefore(b, a)
    ensures TextBefore(a, b) ==> a != b && !TextBefore(b, a)
  {
    if a != [] && b != [] && a[0] == b[0] {
      TextTotal(a[1..], b[1..]);
      assert a == [a[0]] + a[1..] && b == [b[0]] + b[1..];
    }
  }

  lemma {:induction false} TextTransitive(a: string, b: string, c: string)
    requires TextBefore(a, b) && TextBefore(b, c)
    ensures TextBefore(a, c)
  {
    if a != [] && a[0] == b[0] && b[0] == c[0] {
      TextTransitive(a[1..], b[1..], c[1..]);
    }
  }

  /** Newest feed date first, then newest first sighting, then Article id. */
  predicate Before(p: Position, q: Position) {
    if p.effectiveFeedDate != q.effectiveFeedDate then TextBefore(q.effectiveFeedDate, p.effectiveFeedDate)
    else if p.firstSeenAt != q.firstSeenAt then TextBefore(q.firstSeenAt, p.firstSeenAt)
    else TextBefore(p.articleId, q.articleId)
  }

  /** The later feed date first; on the same one the later first sighting; on the same again the smaller id. */
  lemma BeforeExactly(p: Position, q: Position)
    ensures Before(p, q) <==>
              || TextBefore(q.effectiveFeedDate, p.effectiveFeedDate)
              || (p.effectiveFeedDate == q.effectiveFeedDate && TextBefore(q.firstSeenAt, p.firstSeenAt))
              || (p.effectiveFeedDate == q.effectiveFeedDate && p.firstSeenAt == q.firstSeenAt && TextBefore(p.articleId, q.articleId))
  {
    TextTotal(p.effectiveFeedDate, q.effectiveFeedDate);
    TextTotal(p.firstSeenAt, q.firstSeenAt);
  }

  lemma BeforeTotal(p: Position, q: Position)
    ensures p == q || Before(p, q) || Before(q, p)
    ensures Before(p, q) ==> p != q && !Before(q, p)
  {
    TextTotal(p.effectiveFeedDate, q.effectiveFeedDate);
    TextTotal(p.firstSeenAt, q.firstSeenAt);
    TextTotal(p.articleId, q.articleId);
  }

  lemma BeforeTransitive(p: Position, q: Position, r: Position)
    requires Before(p, q) && Before(q, r)
    ensures Before(p, r)
  {
    TextTotal(p.effectiveFeedDate, q.effectiveFeedDate);
    TextTotal(p.firstSeenAt, q.firstSeenAt);
    if p.effectiveFeedDate != q.effectiveFeedDate && q.effectiveFeedDate != r.effectiveFeedDate {
      TextTransitive(r.effectiveFeedDate, q.effectiveFeedDate, p.effectiveFeedDate);
      TextTotal(r.effectiveFeedDate, p.effectiveFeedDate);
    }
    if p.effectiveFeedDate == q.effectiveFeedDate == r.effectiveFeedDate {
      if p.firstSeenAt != q.firstSeenAt && q.firstSeenAt != r.firstSeenAt {
        TextTransitive(r.firstSeenAt, q.firstSeenAt, p.firstSeenAt);
        TextTotal(r.firstSeenAt, p.firstSeenAt);
      }
      if p.firstSeenAt == q.firstSeenAt == r.firstSeenAt {
        TextTransitive(p.articleId, q.articleId, r.articleId);
      }
    }
  }

  // ---------------------------------------------------------------------------
  // Ordered lists

  ghost predicate Ordered(l: seq<Position>) {
    forall i, j | 0 <= i < j < |l| :: Before(l[i], l[j])
  }

  /** The ordered list of exactly these Articles. */
  ghost predicate Lists(l: seq<Position>, s: set<Position>) {
    Ordered(l) && forall p :: p in l <==> p in s
  }

  lemma OrderedTail(l: seq<Position>, s: set<Position>)
    requires Lists(l, s) && l != []
    ensures Lists(l[1..], s - {l[0]}) && l[0] in s && forall p | p in s && p != l[0] :: Before(l[0], p)
  {
    forall p
      ensures p in l[1..] <==> p in s - {l[0]}
    {
      BeforeTotal(l[0], l[0]);
      assert p in l <==> p == l[0] || p in l[1..];
      if p in l[1..] {
        var k :| 0 <= k < |l[1..]| && l[1..][k] == p;
        assert Before(l[0], l[k + 1]);
      }
    }
    forall p | p in s && p != l[0]
      ensures Before(l[0], p)
    {
      assert p in l;
      var k :| 0 <= k < |l| && l[k] == p;
    }
  }

  lemma EmptyList(l: seq<Position>, s: set<Position>)
    requires Lists(l, s)
    ensures l == [] <==> s == {}
  {
    if l != [] {
      assert l[0] in s;
    }
  }

  /** There is only one. */
  lemma {:induction false} ListUnique(l: seq<Position>, m: seq<Position>, s: set<Position>)
    requires Lists(l, s) && Lists(m, s)
    ensures l == m
    decreases |l|
  {
    EmptyList(l, s);
    EmptyList(m, s);
    if l != [] {
      OrderedTail(l, s);
      OrderedTail(m, s);
      BeforeTotal(l[0], m[0]);
      ListUnique(l[1..], m[1..], s - {l[0]});
      assert l == [l[0]] + l[1..] && m == [m[0]] + m[1..];
    }
  }

  function Insert(p: Position, l: seq<Position>): seq<Position> {
    if l == [] || Before(p, l[0]) then [p] + l else [l[0]] + Insert(p, l[1..])
  }

  function Sort(l: seq<Position>): seq<Position> {
    if l == [] then [] else Insert(l[0], Sort(l[1..]))
  }

  lemma {:induction false} InsertLists(p: Position, l: seq<Position>, s: set<Position>)
    requires Lists(l, s) && p !in s
    ensures Lists(Insert(p, l), s + {p})
    decreases |l|
  {
    if l != [] {
      OrderedTail(l, s);
      BeforeTotal(p, l[0]);
      if Before(p, l[0]) {
        forall q | q in s && q != l[0]
          ensures Before(p, q)
        {
          BeforeTransitive(p, l[0], q);
        }
        PrependLists(p, l, s);
      } else {
        InsertLists(p, l[1..], s - {l[0]});
        PrependLists(l[0], Insert(p, l[1..]), s - {l[0]} + {p});
        assert s - {l[0]} + {p} + {l[0]} == s + {p};
      }
    }
  }

  lemma PrependLists(p: Position, l: seq<Position>, s: set<Position>)
    requires Lists(l, s) && p !in s && forall q | q in s :: Before(p, q)
    ensures Lists([p] + l, s + {p})
  {
    var m := [p] + l;
    forall i, j | 0 <= i < j < |m|
      ensures Before(m[i], m[j])
    {
      assert m[j] == l[j - 1] && l[j - 1] in s;
      if i > 0 {
        assert Before(l[i - 1], l[j - 1]);
      }
    }
  }

  predicate Distinct(l: seq<Position>) {
    forall i, j | 0 <= i < j < |l| :: l[i] != l[j]
  }

  ghost function Elements(l: seq<Position>): set<Position> { set p | p in l }

  lemma {:induction false} SortLists(l: seq<Position>)
    requires Distinct(l)
    ensures Lists(Sort(l), Elements(l))
    decreases |l|
  {
    if l != [] {
      assert Distinct(l[1..]) by {
        assert forall i | 0 <= i < |l[1..]| :: l[1..][i] == l[i + 1];
      }
      SortLists(l[1..]);
      assert l[0] !in l[1..];
      InsertLists(l[0], Sort(l[1..]), Elements(l[1..]));
      assert Elements(l[1..]) + {l[0]} == Elements(l);
    }
  }

  lemma OrderedDistinct(l: seq<Position>)
    requires Ordered(l)
    ensures Distinct(l)
  {
    forall i, j | 0 <= i < j < |l|
      ensures l[i] != l[j]
    {
      BeforeTotal(l[i], l[j]);
    }
  }

  function Take(l: seq<Position>, k: nat): seq<Position> { if k < |l| then l[..k] else l }

  // ---------------------------------------------------------------------------
  // The first of a part that holds the first of the whole

  function Keep(l: seq<Position>, s: set<Position>): seq<Position> {
    if l == [] then [] else (if l[0] in s then [l[0]] else []) + Keep(l[1..], s)
  }

  lemma {:induction false} KeepLists(l: seq<Position>, all: set<Position>, s: set<Position>)
    requires Lists(l, all) && s <= all
    ensures Lists(Keep(l, s), s)
    decreases |l|
  {
    if l == [] {
      assert s == {};
    } else {
      OrderedTail(l, all);
      KeepLists(l[1..], all - {l[0]}, s - {l[0]});
      KeepSame(l[1..], s, l[0]);
      if l[0] in s {
        PrependLists(l[0], Keep(l[1..], s), s - {l[0]});
        assert s - {l[0]} + {l[0]} == s;
      } else {
        assert s - {l[0]} == s;
        assert [] + Keep(l[1..], s) == Keep(l[1..], s);
      }
    }
  }

  lemma {:induction false} KeepSame(l: seq<Position>, s: set<Position>, p: Position)
    requires p !in l
    ensures Keep(l, s - {p}) == Keep(l, s)
  {
    if l != [] {
      KeepSame(l[1..], s, p);
    }
  }

  lemma {:induction false} KeepPrefix(l: seq<Position>, s: set<Position>, k: nat)
    requires forall p | p in Take(l, k) :: p in s
    ensures Take(Keep(l, s), k) == Take(l, k)
    decreases |l|
  {
    if l != [] && k > 0 {
      assert l[0] == Take(l, k)[0];
      assert forall p | p in Take(l[1..], k - 1) :: p in Take(l, k);
      KeepPrefix(l[1..], s, k - 1);
      assert Take(l, k) == [l[0]] + Take(l[1..], k - 1);
      assert Take(Keep(l, s), k) == [l[0]] + Take(Keep(l[1..], s), k - 1);
    }
  }

  /** Narrowing to any part that still holds the first `k` leaves the first `k` as they are. */
  lemma FirstOfPart(l: seq<Position>, all: set<Position>, m: seq<Position>, part: set<Position>, k: nat)
    requires Lists(l, all) && Lists(m, part) && part <= all && forall p | p in Take(l, k) :: p in part
    ensures Take(m, k) == Take(l, k)
  {
    KeepLists(l, all, part);
    ListUnique(m, Keep(l, part), part);
    KeepPrefix(l, part, k);
  }

  lemma {:induction false} KeptEarlier(l: seq<Position>, s: set<Position>, p: Position, k: nat)
    requires p in Take(l, k) && p in s
    ensures p in Take(Keep(l, s), k)
    decreases |l|
  {
    if p != l[0] {
      assert Take(l, k) == [l[0]] + Take(l[1..], k - 1);
      KeptEarlier(l[1..], s, p, k - 1);
      if l[0] in s {
        assert Take(Keep(l, s), k) == [l[0]] + Take(Keep(l[1..], s), k - 1);
      } else {
        assert Keep(l, s) == Keep(l[1..], s);
        TakeMore(Keep(l[1..], s), k - 1);
      }
    } else {
      assert k > 0 && Keep(l, s)[0] == p;
    }
  }

  lemma TakeMore(l: seq<Position>, k: nat)
    ensures forall p | p in Take(l, k) :: p in Take(l, k + 1)
  {
    assert Take(l, k + 1)[..|Take(l, k)|] == Take(l, k);
  }

  /** What the database returns for `ORDER BY`. */
  ghost function OrderedList(s: set<Position>): (l: seq<Position>)
    ensures Lists(l, s)
  {
    if s == {} then [] else
    var p :| p in s;
    var rest := OrderedList(s - {p});
    InsertLists(p, rest, s - {p});
    assert s - {p} + {p} == s;
    Insert(p, rest)
  }
}
