/**
  Pages of one snapshot: by index through an encoded cursor (src/distribution/profile-page.ts)
  and by key with one row more than a page (src/public-feed/repository.ts).
 */
module Paging {
  import opened Prelude
  import opened FeedOrder
  import Cursor

  const PAGE_SIZE := 100

  datatype Outcome =
    | InvalidInput
    | SnapshotChanged
    | ReadFailed
    | Page(items: seq<Position>, nextCursor: Option<string>)

  function FindIndex(list: seq<Position>, p: Position): (i: Option<nat>)
    ensures i.Some? ==> i.value < |list| && list[i.value] == p
    ensures i.None? ==> p !in list
  {
    if list == [] then None else
    if list[0] == p then Some(0) else
    var rest := FindIndex(list[1..], p);
    if rest.None? then None else Some(rest.value + 1)
  }

  function PageFrom(key: string, revision: string, list: seq<Position>, start: nat): Outcome
    requires start <= |list|
  {
    var items := Take(list[start..], PAGE_SIZE);
    if start + |items| >= |list| then Page(items, None) else
    var next := Cursor.Encode(Cursor.Cursor(key, revision, items[|items| - 1]));
    if next.None? then ReadFailed else Page(items, next)
  }

  function ReadPage(key: string, revision: string, list: seq<Position>, encodedCursor: Option<string>): Outcome {
    if !Cursor.IsConfigKey(key) then InvalidInput else
    if encodedCursor.None? then PageFrom(key, revision, list, 0) else
    var cursor := Cursor.Decode(encodedCursor.value, key);
    if cursor.None? then InvalidInput else
    if cursor.value.snapshotRevision != revision then SnapshotChanged else
    var index := FindIndex(list, cursor.value.position);
    if index.None? then InvalidInput else PageFrom(key, revision, list, index.value + 1)
  }

  /** A page holds the next hundred items, and has a cursor exactly when more are left. */
  lemma PageHolds(key: string, revision: string, list: seq<Position>, start: nat)
    requires start <= |list| && PageFrom(key, revision, list, start).Page?
    ensures var page := PageFrom(key, revision, list, start);
            && page.items == (if start + 100 < |list| then list[start..start + 100] else list[start..])
            && (page.nextCursor.Some? <==> start + 100 < |list|)
            && (page.nextCursor.Some? ==> page.nextCursor == Cursor.Encode(Cursor.Cursor(key, revision, list[start + 99])))
  {
  }

  /** For each answer that is not a page exactly when it is given. */
  lemma PageRefusals(key: string, revision: string, list: seq<Position>, encoded: string)
    ensures var r, c := ReadPage(key, revision, list, Some(encoded)), Cursor.Decode(encoded, key);
            && (r == SnapshotChanged <==> Cursor.IsConfigKey(key) && c.Some? && c.value.snapshotRevision != revision)
            && (r == InvalidInput <==>
                  !Cursor.IsConfigKey(key) || c.None? || (c.value.snapshotRevision == revision && c.value.position !in list))
            && (r.Page? ==>
                  exists i | 0 <= i < |list| :: list[i] == c.value.position && r == PageFrom(key, revision, list, i + 1))
  {
  }

  /** What the pages of a snapshot are about: a valid key and revision over distinct valid positions. */
  ghost predicate Readable(key: string, revision: string, list: seq<Position>) {
    && Cursor.IsConfigKey(key) && Cursor.IsRevision(revision) && Distinct(list)
    && forall i | 0 <= i < |list| :: Cursor.IsPosition(list[i])
  }

  lemma {:induction false} IndexOf(list: seq<Position>, i: nat)
    requires Distinct(list) && i < |list|
    ensures FindIndex(list, list[i]) == Some(i)
  {
    if i > 0 {
      assert list[0] != list[i];
      assert forall k | 0 <= k < |list[1..]| :: list[1..][k] == list[k + 1];
      IndexOf(list[1..], i - 1);
    }
  }

  lemma ReadPageAt(key: string, revision: string, list: seq<Position>, encoded: string, p: Position, i: nat)
    requires Cursor.IsConfigKey(key) && Cursor.Decode(encoded, key) == Some(Cursor.Cursor(key, revision, p))
    requires FindIndex(list, p) == Some(i) && i < |list|
    ensures ReadPage(key, revision, list, Some(encoded)) == PageFrom(key, revision, list, i + 1)
  {
  }

  /** The cursor of a position is accepted and continues right after it. */
  lemma ContinuesAfter(key: string, revision: string, list: seq<Position>, i: nat)
    requires Readable(key, revision, list) && i < |list|
    ensures var cursor := Cursor.Encode(Cursor.Cursor(key, revision, list[i]));
            cursor.Some? && ReadPage(key, revision, list, cursor) == PageFrom(key, revision, list, i + 1)
  {
    var c := Cursor.Cursor(key, revision, list[i]);
    Cursor.DecodeInvertsEncode(c);
    IndexOf(list, i);
    ReadPageAt(key, revision, list, Cursor.Encode(c).value, list[i], i);
  }

  /** A cursor of another snapshot never continues in this one. */
  lemma OtherSnapshotIsNoticed(key: string, revision: string, list: seq<Position>, encoded: string, c: Cursor.Cursor)
    requires Cursor.Decode(encoded, key) == Some(c) && c.snapshotRevision != revision
    ensures ReadPage(key, revision, list, Some(encoded)) == SnapshotChanged
  {
    Cursor.DecodedIsValid(encoded, key);
  }

  // ---------------------------------------------------------------------------
  // Following cursors

  datatype Collected = Failed | Complete(items: seq<Position>, pages: nat)

  /** A client that follows every cursor it is given, up to a number of requests. */
  function Follow(read: Option<string> -> Outcome, cursor: Option<string>, requests: nat): Collected
    decreases requests
  {
    if requests == 0 then Failed else
    match read(cursor)
    case Page(items, None) => Complete(items, 1)
    case Page(items, Some(next)) =>
      var rest := Follow(read, Some(next), requests - 1);
      if rest.Failed? then Failed else Complete(items + rest.items, 1 + rest.pages)
    case _ => Failed
  }

  /** `max(1, ceil(n / 100))`. */
  function PagesFor(n: nat): nat { if n <= PAGE_SIZE then 1 else 1 + PagesFor(n - PAGE_SIZE) }

  lemma {:induction false} PagesForIs(n: nat)
    ensures PagesFor(n) == if n == 0 then 1 else (n + 99) / 100
  {
    if n > PAGE_SIZE {
      PagesForIs(n - PAGE_SIZE);
    }
  }

  /** The cursor a client holds when the next Article it needs is `list[start]`. */
  function CursorAt(key: string, revision: string, list: seq<Position>, start: nat): Option<string> {
    if start == 0 || start > |list| then None else Cursor.Encode(Cursor.Cursor(key, revision, list[start - 1]))
  }

  predicate ServesAt(read: Option<string> -> Outcome, list: seq<Position>, at: nat -> Option<string>, start: nat)
    requires start <= |list|
  {
    read(at(start)) ==
      if |list| - start > PAGE_SIZE then Page(list[start..start + PAGE_SIZE], at(start + PAGE_SIZE)) else Page(list[start..], None)
  }

  lemma {:induction false} FollowFrom(read: Option<string> -> Outcome, list: seq<Position>, at: nat -> Option<string>,
                                      start: nat, requests: nat)
    requires start <= |list| && requests >= PagesFor(|list| - start)
    requires forall i | start <= i <= |list| :: ServesAt(read, list, at, i)
    requires forall i | 0 < i <= |list| :: at(i).Some?
    ensures Follow(read, at(start), requests) == Complete(list[start..], PagesFor(|list| - start))
    decreases |list| - start
  {
    assert ServesAt(read, list, at, start);
    if |list| - start > PAGE_SIZE {
      var next := start + PAGE_SIZE;
      FollowFrom(read, list, at, next, requests - 1);
      assert list[start..] == list[start..next] + list[next..];
    }
  }

  lemma PageFromServes(key: string, revision: string, list: seq<Position>, start: nat)
    requires Readable(key, revision, list) && start <= |list|
    ensures PageFrom(key, revision, list, start) ==
            if |list| - start > PAGE_SIZE
            then Page(list[start..start + PAGE_SIZE], CursorAt(key, revision, list, start + PAGE_SIZE))
            else Page(list[start..], None)
  {
    if |list| - start > PAGE_SIZE {
      assert Take(list[start..], PAGE_SIZE) == list[start..start + PAGE_SIZE];
      assert list[start..start + PAGE_SIZE][PAGE_SIZE - 1] == list[start + PAGE_SIZE - 1];
      ContinuesAfter(key, revision, list, start + PAGE_SIZE - 1);
    } else {
      assert Take(list[start..], PAGE_SIZE) == list[start..];
    }
  }

  lemma FirstRequest(key: string, revision: string, list: seq<Position>)
    requires Cursor.IsConfigKey(key)
    ensures ReadPage(key, revision, list, None) == PageFrom(key, revision, list, 0)
  {
  }

  lemma NextRequest(key: string, revision: string, list: seq<Position>, start: nat)
    requires Readable(key, revision, list) && 0 < start <= |list|
    ensures CursorAt(key, revision, list, start).Some?
    ensures ReadPage(key, revision, list, CursorAt(key, revision, list, start)) == PageFrom(key, revision, list, start)
  {
    ContinuesAfter(key, revision, list, start - 1);
  }

  function Service(key: string, revision: string, list: seq<Position>): Option<string> -> Outcome {
    encoded => ReadPage(key, revision, list, encoded)
  }

  function Cursors(key: string, revision: string, list: seq<Position>): nat -> Option<string> {
    (start: nat) => CursorAt(key, revision, list, start)
  }

  lemma ServiceServes(key: string, revision: string, list: seq<Position>, start: nat)
    requires Readable(key, revision, list) && start <= |list|
    ensures ServesAt(Service(key, revision, list), list, Cursors(key, revision, list), start)
  {
    if start == 0 {
      FirstRequest(key, revision, list);
    } else {
      NextRequest(key, revision, list, start);
    }
    PageFromServes(key, revision, list, start);
  }

  /** Following the cursors of an unchanged snapshot gives every Article once, in order, in as few pages as fit. */
  lemma FollowingGivesEverythingOnce(key: string, revision: string, list: seq<Position>, requests: nat)
    requires Readable(key, revision, list) && requests >= PagesFor(|list|)
    ensures Follow(Service(key, revision, list), None, requests) == Complete(list, PagesFor(|list|))
  {
    var read, at := Service(key, revision, list), Cursors(key, revision, list);
    forall i | 0 <= i <= |list|
      ensures ServesAt(read, list, at, i)
    {
      ServiceServes(key, revision, list, i);
    }
    forall i | 0 < i <= |list|
      ensures at(i).Some?
    {
      NextRequest(key, revision, list, i);
    }
    FollowFrom(read, list, at, 0, requests);
    assert list[0..] == list && at(0) == None;
  }

  // ---------------------------------------------------------------------------
  // Continuation by key

  /** The condition of the continued query. */
  predicate Continues(p: Position, after: Position) {
    || TextBefore(p.effectiveFeedDate, after.effectiveFeedDate)
    || (p.effectiveFeedDate == after.effectiveFeedDate && TextBefore(p.firstSeenAt, after.firstSeenAt))
    || (p.effectiveFeedDate == after.effectiveFeedDate && p.firstSeenAt == after.firstSeenAt &&
        TextBefore(after.articleId, p.articleId))
  }

  lemma ContinuesIsBefore(p: Position, after: Position)
    ensures Continues(p, after) <==> Before(after, p)
  {
    TextTotal(p.effectiveFeedDate, after.effectiveFeedDate);
    TextTotal(p.firstSeenAt, after.firstSeenAt);
  }

  function Continued(list: seq<Position>, after: Option<Position>): seq<Position> {
    if list == [] then [] else
    (if after.None? || Continues(list[0], after.value) then [list[0]] else []) + Continued(list[1..], after)
  }

  datatype KeysetPage = KeysetPage(items: seq<Position>, next: Option<Position>)

  /** Reads one row more than a page to learn whether there is a next one. */
  function ReadKeysetPage(list: seq<Position>, after: Option<Position>): KeysetPage {
    var rows := Take(Continued(list, after), PAGE_SIZE + 1);
    var hasNextPage := |rows| > PAGE_SIZE;
    var returned := if hasNextPage then rows[..PAGE_SIZE] else rows;
    KeysetPage(returned, if hasNextPage then Some(returned[|returned| - 1]) else None)
  }

  /** The page that starts at an index, and the position its cursor stands for. */
  function IndexPage(list: seq<Position>, start: nat): KeysetPage
    requires start <= |list|
  {
    var items := Take(list[start..], PAGE_SIZE);
    KeysetPage(items, if start + |items| < |list| then Some(items[|items| - 1]) else None)
  }

  lemma {:induction false} ContinuedAll(list: seq<Position>, after: Option<Position>)
    requires after.Some? ==> forall i | 0 <= i < |list| :: Before(after.value, list[i])
    ensures Continued(list, after) == list
  {
    if list != [] {
      if after.Some? {
        ContinuesIsBefore(list[0], after.value);
      }
      assert forall i | 0 <= i < |list[1..]| :: list[1..][i] == list[i + 1];
      ContinuedAll(list[1..], after);
      assert list == [list[0]] + list[1..];
    }
  }

  lemma {:induction false} ContinuedFrom(list: seq<Position>, i: nat)
    requires Ordered(list) && i < |list|
    ensures Continued(list, Some(list[i])) == list[i + 1..]
    decreases |list|
  {
    var tail := list[1..];
    assert forall k | 0 <= k < |tail| :: tail[k] == list[k + 1];
    BeforeTotal(list[0], list[i]);
    ContinuesIsBefore(list[0], list[i]);
    if i == 0 {
      BeforeTotal(list[0], list[0]);
      ContinuedAll(tail, Some(list[0]));
      assert [] + tail == tail;
    } else {
      assert Before(list[0], list[i]);
      assert tail[i - 1] == list[i] && Ordered(tail);
      ContinuedFrom(tail, i - 1);
      assert tail[i..] == list[i + 1..];
      assert [] + Continued(tail, Some(list[i])) == Continued(tail, Some(list[i]));
    }
  }

  lemma SamePage(list: seq<Position>, start: nat, rest: seq<Position>)
    requires start <= |list| && rest == list[start..]
    ensures var rows := Take(rest, PAGE_SIZE + 1);
            (if |rows| > PAGE_SIZE then rows[..PAGE_SIZE] else rows) == Take(rest, PAGE_SIZE) &&
            (|rows| > PAGE_SIZE <==> start + |Take(rest, PAGE_SIZE)| < |list|)
  {
  }

  /** On an ordered list, continuing by key yields the same pages as continuing by index. */
  lemma KeysetPagesAreIndexPages(list: seq<Position>, i: nat)
    requires Ordered(list)
    ensures ReadKeysetPage(list, None) == IndexPage(list, 0)
    ensures i < |list| ==> ReadKeysetPage(list, Some(list[i])) == IndexPage(list, i + 1)
  {
    ContinuedAll(list, None);
    assert list[0..] == list;
    SamePage(list, 0, list);
    if i < |list| {
      ContinuedFrom(list, i);
      SamePage(list, i + 1, list[i + 1..]);
    }
  }

  /** The two kinds of page agree item for item, and on where they stop. */
  lemma PagesAgree(key: string, revision: string, list: seq<Position>, i: nat)
    requires Readable(key, revision, list) && Ordered(list) && i < |list|
    ensures var page := ReadPage(key, revision, list, Cursor.Encode(Cursor.Cursor(key, revision, list[i])));
            var keyset := ReadKeysetPage(list, Some(list[i]));
            && page.Page? && page.items == keyset.items
            && (page.nextCursor.Some? <==> keyset.next.Some?)
            && (keyset.next.Some? ==> page.nextCursor == Cursor.Encode(Cursor.Cursor(key, revision, keyset.next.value)))
  {
    ContinuesAfter(key, revision, list, i);
    KeysetPagesAreIndexPages(list, i);
    var page := IndexPage(list, i + 1);
    if page.next.Some? {
      assert page.next.value == list[i + |page.items|];
      ContinuesAfter(key, revision, list, i + |page.items|);
    }
  }
}
