/**
  Overlapping persistence transactions, serialised only by the two advisory identity locks
  (src/articles/identity-lock.ts). Reads see the committed Articles; a write is visible, and the
  locks are released, at commit.
 */
module IdentityLocks {
  import opened Prelude
  import opened ArticleIdentity

  type TransactionId = nat

  datatype Kind = ExternalIdKind | CanonicalUrlKind

  /** The 64-bit lock key of an identity. Different identities may share a key. */
  datatype LockKeys = LockKeys(key: (Id, Kind, string) -> int)

  datatype Phase =
    | Starting
    | HoldsExternal
    | HoldsLocks
    | ExternalIdMissing
    | Resolved(resolution: Resolution)

  datatype Transaction = Transaction(candidate: Candidate, at: int, phase: Phase)

  datatype System = System(articles: Articles, active: map<TransactionId, Transaction>)

  function ExternalKey(k: LockKeys, c: Candidate): set<int> {
    if c.externalId.Some? then {k.key(c.source, ExternalIdKind, c.externalId.value)} else {}
  }

  function UrlKey(k: LockKeys, c: Candidate): int { k.key(c.source, CanonicalUrlKind, c.url) }

  function Held(k: LockKeys, x: Transaction): set<int> {
    match x.phase
    case Starting => {}
    case HoldsExternal => ExternalKey(k, x.candidate)
    case _ => ExternalKey(k, x.candidate) + {UrlKey(k, x.candidate)}
  }

  /** Locks are reentrant: only another transaction's lock is in the way. */
  predicate Free(k: LockKeys, s: System, id: TransactionId, keys: set<int>) {
    forall other | other in s.active && other != id :: Held(k, s.active[other]) !! keys
  }

  datatype Move =
    | Begin(id: TransactionId, candidate: Candidate, at: int)
    | LockExternalId(id: TransactionId)
    | LockUrl(id: TransactionId)
    | ReadExternalId(id: TransactionId)
    | ReadUrl(id: TransactionId)
    | Commit(id: TransactionId, spare: Id)
    | Abort(id: TransactionId)

  function To(s: System, id: TransactionId, phase: Phase): System
    requires id in s.active
  {
    s.(active := s.active[id := s.active[id].(phase := phase)])
  }

  ghost predicate Enabled(k: LockKeys, s: System, move: Move) {
    if move.Begin? then move.id !in s.active else
    move.id in s.active &&
    var x := s.active[move.id];
    match move
    case LockExternalId(id) => x.phase.Starting? && x.candidate.externalId.Some? && Free(k, s, id, ExternalKey(k, x.candidate))
    case LockUrl(id) =>
      (x.phase.HoldsExternal? || (x.phase.Starting? && x.candidate.externalId.None?)) && Free(k, s, id, {UrlKey(k, x.candidate)})
    case ReadExternalId(_) => x.phase.HoldsLocks? && x.candidate.externalId.Some?
    case ReadUrl(_) => x.phase.ExternalIdMissing? || (x.phase.HoldsLocks? && x.candidate.externalId.None?)
    case Commit(_, spare) => x.phase.Resolved? && spare !in s.articles
    case _ => true
  }

  /** A commit whose row is gone changes nothing. */
  ghost function Committed(t: Articles, x: Transaction, spare: Id): Articles
    requires x.phase.Resolved?
  {
    if Writable(t, x.candidate, x.phase.resolution) then Write(t, x.candidate, x.phase.resolution, spare, x.at) else t
  }

  ghost function Step(k: LockKeys, s: System, move: Move): System {
    if !Enabled(k, s, move) then s else
    match move
    case Begin(id, c, at) => s.(active := s.active[id := Transaction(c, at, Starting)])
    case LockExternalId(id) => To(s, id, HoldsExternal)
    case LockUrl(id) => To(s, id, HoldsLocks)
    case ReadExternalId(id) =>
      var found := ResolveByExternalId(s.articles, s.active[id].candidate);
      To(s, id, if found.None? then ExternalIdMissing else Resolved(found.value))
    case ReadUrl(id) => To(s, id, Resolved(ResolveByUrl(s.articles, s.active[id].candidate)))
    case Commit(id, spare) => System(Committed(s.articles, s.active[id], spare), s.active - {id})
    case Abort(id) => s.(active := s.active - {id})
  }

  ghost function Run(k: LockKeys, s: System, moves: seq<Move>): System
    decreases |moves|
  {
    if moves == [] then s else Run(k, Step(k, s, moves[0]), moves[1..])
  }

  // ---------------------------------------------------------------------------
  // What a resolution may rely on until it commits

  ghost predicate NoExternal(t: Articles, c: Candidate) {
    c.externalId.Some? && forall a {:trigger t[a].externalId} | a in t && t[a].source == c.source :: t[a].externalId != c.externalId
  }

  ghost predicate NoFallback(t: Articles, c: Candidate) {
    forall a {:trigger t[a].externalId} | a in t && t[a].source == c.source && t[a].url == c.url :: t[a].externalId.Some?
  }

  /** The row is still the candidate's: its external id, and a fallback's URL, are as they were read. */
  ghost predicate StillThere(t: Articles, c: Candidate, r: Resolution)
    requires r.Existing?
  {
    && r.id in t && t[r.id].source == c.source && t[r.id].externalId == r.seen.externalId
    && (r.seen.externalId.None? ==> t[r.id].url == c.url && r.seen.url == c.url)
    && (c.externalId.Some? && !r.promoteFallback ==> r.seen.externalId == c.externalId)
    && (r.promoteFallback ==> c.externalId.Some? && r.seen.externalId.None?)
  }

  ghost predicate StillRight(t: Articles, x: Transaction) {
    match x.phase
    case ExternalIdMissing => NoExternal(t, x.candidate)
    case Resolved(NewArticle) => if x.candidate.externalId.Some? then NoExternal(t, x.candidate) else NoFallback(t, x.candidate)
    case Resolved(Existing(a, seen, promote)) =>
      StillThere(t, x.candidate, x.phase.resolution) && (promote ==> NoExternal(t, x.candidate))
    case _ => true
  }

  ghost predicate LocksExclusive(k: LockKeys, s: System) {
    forall x, y {:trigger s.active[x], s.active[y]} |
      x in s.active && y in s.active && x != y :: Held(k, s.active[x]) !! Held(k, s.active[y])
  }

  ghost predicate Inv(k: LockKeys, s: System) {
    && UniqueIndexes(s.articles) && LocksExclusive(k, s)
    && forall x | x in s.active :: StillRight(s.articles, s.active[x])
  }

  // ---------------------------------------------------------------------------
  // One write

  /** The write of a resolution that is still right violates neither index. */
  lemma WriteKeepsUnique(t: Articles, x: Transaction, spare: Id)
    requires UniqueIndexes(t) && x.phase.Resolved? && StillRight(t, x) && spare !in t
    ensures UniqueIndexes(Committed(t, x, spare))
    ensures !x.phase.resolution.Conflict? ==> Writable(t, x.candidate, x.phase.resolution)
  {
  }

  /** What a write changes: one row, which keeps its Source and any external id it had. */
  lemma WriteChanges(t: Articles, x: Transaction, spare: Id)
    requires x.phase.Resolved? && StillRight(t, x) && spare !in t
    ensures var u := Committed(t, x, spare);
            forall a {:trigger u[a].externalId} | a in u ::
              || (a in t && u[a] == t[a])
              || (u[a].source == x.candidate.source &&
                  (a in t ==> t[a].source == u[a].source && (t[a].externalId.Some? ==> u[a].externalId == t[a].externalId)) &&
                  (a in t && t[a].externalId.None? ==> t[a].url == x.candidate.url) &&
                  (u[a].externalId.None? ==> x.candidate.externalId.None? && u[a].url == x.candidate.url) &&
                  (u[a].externalId.Some? ==> u[a].externalId == x.candidate.externalId || (a in t && t[a].externalId == u[a].externalId)))
    ensures t.Keys <= Committed(t, x, spare).Keys
  {
  }

  /** A write leaves right whatever another transaction with other locks resolved. */
  lemma OthersStayRight(k: LockKeys, t: Articles, x: Transaction, spare: Id, y: Transaction)
    requires x.phase.Resolved? && StillRight(t, x) && spare !in t
    requires StillRight(t, y) && Held(k, x) !! Held(k, y)
    ensures StillRight(Committed(t, x, spare), y)
  {
    var u := Committed(t, x, spare);
    WriteChanges(t, x, spare);
    if !y.phase.Starting? && !y.phase.HoldsExternal? {
      var c, d := x.candidate, y.candidate;
      assert c.source == d.source ==> c.url != d.url by {
        assert UrlKey(k, c) in Held(k, x) && UrlKey(k, d) in Held(k, y);
      }
      assert c.source == d.source && c.externalId == d.externalId ==> c.externalId.None? by {
        assert ExternalKey(k, c) <= Held(k, x) && ExternalKey(k, d) <= Held(k, y);
        assert c.externalId.Some? ==> k.key(c.source, ExternalIdKind, c.externalId.value) in Held(k, x);
      }
    }
  }

  // ---------------------------------------------------------------------------
  // Every interleaving

  lemma ExternalReadIsRight(t: Articles, x: Transaction)
    requires x.candidate.externalId.Some?
    ensures var r := ResolveByExternalId(t, x.candidate);
            StillRight(t, x.(phase := if r.None? then ExternalIdMissing else Resolved(r.value)))
  {
    var c := x.candidate;
    var found := WithExternal(t, c.source, c.externalId.value);
    assert forall a | a in t && t[a].source == c.source && t[a].externalId == c.externalId :: a in found;
    if |found| == 1 {
      assert The(found) in found;
    }
  }

  lemma UrlReadIsRight(t: Articles, x: Transaction)
    requires x.candidate.externalId.Some? ==> NoExternal(t, x.candidate)
    ensures StillRight(t, x.(phase := Resolved(ResolveByUrl(t, x.candidate))))
  {
    var c := x.candidate;
    var exact, fallback := WithUrl(t, c.source, c.url), Fallbacks(t, c.source, c.url);
    assert forall a | a in t && t[a].source == c.source && t[a].url == c.url :: a in exact;
    if |fallback| == 1 {
      assert The(fallback) in fallback;
    }
    if |exact| == 1 {
      assert The(exact) in exact;
    }
  }

  /** A move touches one transaction, which afterwards holds nothing another one holds. */
  lemma MoverStaysApart(k: LockKeys, s: System, move: Move, other: TransactionId)
    requires LocksExclusive(k, s) && Enabled(k, s, move) && other in s.active && other != move.id
    ensures var u := Step(k, s, move);
            && other in u.active && u.active[other] == s.active[other]
            && (move.id in u.active ==> Held(k, u.active[move.id]) !! Held(k, s.active[other]))
  {
    if move.id in s.active {
      assert Held(k, s.active[move.id]) !! Held(k, s.active[other]);
    }
  }

  lemma StepKeepsLocks(k: LockKeys, s: System, move: Move)
    requires LocksExclusive(k, s)
    ensures LocksExclusive(k, Step(k, s, move))
  {
    if Enabled(k, s, move) {
      var u := Step(k, s, move);
      assert u.active.Keys <= s.active.Keys + {move.id};
      forall x, y | x in u.active && y in u.active && x != y
        ensures Held(k, u.active[x]) !! Held(k, u.active[y])
      {
        if x != move.id {
          MoverStaysApart(k, s, move, x);
        }
        if y != move.id {
          MoverStaysApart(k, s, move, y);
        }
      }
    }
  }

  lemma CommitKeepsRight(k: LockKeys, s: System, id: TransactionId, spare: Id)
    requires Inv(k, s) && Enabled(k, s, Commit(id, spare))
    ensures var u := Committed(s.articles, s.active[id], spare);
            UniqueIndexes(u) && forall y | y in s.active && y != id :: StillRight(u, s.active[y])
  {
    WriteKeepsUnique(s.articles, s.active[id], spare);
    forall y | y in s.active && y != id
      ensures StillRight(Committed(s.articles, s.active[id], spare), s.active[y])
    {
      OthersStayRight(k, s.articles, s.active[id], spare, s.active[y]);
    }
  }

  lemma StepKeepsRight(k: LockKeys, s: System, move: Move)
    requires Inv(k, s)
    ensures var u := Step(k, s, move);
            UniqueIndexes(u.articles) && forall y | y in u.active :: StillRight(u.articles, u.active[y])
  {
    if Enabled(k, s, move) {
      match move
      case ReadExternalId(id) => ExternalReadIsRight(s.articles, s.active[id]);
      case ReadUrl(id) => UrlReadIsRight(s.articles, s.active[id]);
      case Commit(id, spare) => CommitKeepsRight(k, s, id, spare);
      case _ =>
    }
  }

  lemma StepKeepsInv(k: LockKeys, s: System, move: Move)
    requires Inv(k, s)
    ensures Inv(k, Step(k, s, move))
  {
    StepKeepsLocks(k, s, move);
    StepKeepsRight(k, s, move);
  }

  /** Under every interleaving both unique indexes hold and every pending resolution stays right. */
  lemma {:induction false} EveryInterleaving(k: LockKeys, s: System, moves: seq<Move>)
    requires Inv(k, s)
    ensures Inv(k, Run(k, s, moves)) && Inv(k, System(map[], map[]))
    decreases |moves|
  {
    if moves != [] {
      StepKeepsInv(k, s, moves[0]);
      EveryInterleaving(k, Step(k, s, moves[0]), moves[1..]);
    }
  }

  /**
    No write in any reachable state can violate an index or miss its row: the constraint
    conflict the caller watches for never comes from these writes.
   */
  lemma ConstraintsNeverFire(k: LockKeys, moves: seq<Move>, id: TransactionId, spare: Id)
    requires var s := Run(k, System(map[], map[]), moves);
             id in s.active && s.active[id].phase.Resolved? && !s.active[id].phase.resolution.Conflict? && spare !in s.articles
    ensures var s := Run(k, System(map[], map[]), moves); var x := s.active[id];
            Writable(s.articles, x.candidate, x.phase.resolution) &&
            UniqueIndexes(Write(s.articles, x.candidate, x.phase.resolution, spare, x.at))
  {
    var s := Run(k, System(map[], map[]), moves);
    EveryInterleaving(k, System(map[], map[]), moves);
    WriteKeepsUnique(s.articles, s.active[id], spare);
  }

  // ---------------------------------------------------------------------------
  // What never changes about an Article

  ghost predicate IdentitiesKept(t: Articles, u: Articles) {
    forall a | a in t ::
      a in u && u[a].source == t[a].source && (t[a].externalId.Some? ==> u[a].externalId == t[a].externalId)
  }

  lemma StepKeepsIdentities(k: LockKeys, s: System, move: Move)
    requires Inv(k, s)
    ensures IdentitiesKept(s.articles, Step(k, s, move).articles)
  {
    if Enabled(k, s, move) && move.Commit? {
      WriteChanges(s.articles, s.active[move.id], move.spare);
    }
  }

  /** No run removes an Article, moves it to another Source or changes its external id once it has one. */
  lemma {:induction false} IdentityIsPermanent(k: LockKeys, s: System, moves: seq<Move>)
    requires Inv(k, s)
    ensures IdentitiesKept(s.articles, Run(k, s, moves).articles)
    decreases |moves|
  {
    if moves != [] {
      var next := Step(k, s, moves[0]);
      StepKeepsInv(k, s, moves[0]);
      StepKeepsIdentities(k, s, moves[0]);
      IdentityIsPermanent(k, next, moves[1..]);
    }
  }

  /** The steps of one whole transaction. */
  ghost function Whole(k: LockKeys, t: Articles, c: Candidate, at: int, id: TransactionId): System {
    var s := Step(k, System(t, map[]), Begin(id, c, at));
    if c.externalId.None? then Step(k, Step(k, s, LockUrl(id)), ReadUrl(id)) else
    var read := Step(k, Step(k, Step(k, s, LockExternalId(id)), LockUrl(id)), ReadExternalId(id));
    if ResolveByExternalId(t, c).Some? then read else Step(k, read, ReadUrl(id))
  }

  function Alone(t: Articles, c: Candidate, at: int, id: TransactionId, phase: Phase): System {
    System(t, map[id := Transaction(c, at, phase)])
  }

  lemma AloneTakesLocks(k: LockKeys, t: Articles, c: Candidate, at: int, id: TransactionId)
    ensures Step(k, System(t, map[]), Begin(id, c, at)) == Alone(t, c, at, id, Starting)
    ensures c.externalId.Some? ==> Step(k, Alone(t, c, at, id, Starting), LockExternalId(id)) == Alone(t, c, at, id, HoldsExternal)
    ensures c.externalId.Some? ==> Step(k, Alone(t, c, at, id, HoldsExternal), LockUrl(id)) == Alone(t, c, at, id, HoldsLocks)
    ensures c.externalId.None? ==> Step(k, Alone(t, c, at, id, Starting), LockUrl(id)) == Alone(t, c, at, id, HoldsLocks)
  {
  }

  lemma AloneResolves(k: LockKeys, t: Articles, c: Candidate, at: int, id: TransactionId)
    ensures Whole(k, t, c, at, id) == Alone(t, c, at, id, Resolved(Resolve(t, c)))
  {
    AloneTakesLocks(k, t, c, at, id);
    if c.externalId.Some? && ResolveByExternalId(t, c).None? {
      assert Step(k, Alone(t, c, at, id, HoldsLocks), ReadExternalId(id)) == Alone(t, c, at, id, ExternalIdMissing);
    }
  }

  /** A transaction that runs alone does what `Persist` does and leaves no lock behind. */
  lemma AloneIsPersist(k: LockKeys, t: Articles, c: Candidate, at: int, id: TransactionId, spare: Id)
    requires UniqueIndexes(t) && spare !in t
    ensures Step(k, Whole(k, t, c, at, id), Commit(id, spare)) == System(Persist(t, c, spare, at).0, map[])
  {
    var s := Alone(t, c, at, id, Resolved(Resolve(t, c)));
    AloneResolves(k, t, c, at, id);
    if Resolve(t, c).Existing? {
      ResolvedRow(t, c);
    }
    assert map[id := s.active[id]] - {id} == map[];
  }

  lemma PersistKeepsUnique(t: Articles, c: Candidate, spare: Id, at: int)
    requires UniqueIndexes(t) && spare !in t
    ensures UniqueIndexes(Persist(t, c, spare, at).0)
  {
    var x := Transaction(c, at, Starting);
    if c.externalId.Some? {
      ExternalReadIsRight(t, x);
    }
    if c.externalId.None? || ResolveByExternalId(t, c).None? {
      UrlReadIsRight(t, x);
    }
    WriteKeepsUnique(t, x.(phase := Resolved(Resolve(t, c))), spare);
  }

  // ---------------------------------------------------------------------------
  // The repository

  class ArticleRepository {
    var articles: Articles

    constructor ()
      ensures articles == map[] && UniqueIndexes(articles)
    {
      articles := map[];
    }

    method FindOnly(found: set<Id>) returns (a: Option<Id>)
      ensures a.Some? <==> |found| == 1
      ensures a.Some? ==> a.value == The(found)
    {
      if |found| != 1 { return None; }
      var id :| id in found;
      Single(found, id);
      return Some(id);
    }

    method ResolveIdentity(c: Candidate) returns (r: Resolution)
      ensures r == Resolve(articles, c)
    {
      if c.externalId.Some? {
        var externalRows := WithExternal(articles, c.source, c.externalId.value);
        var exactExternal := FindOnly(externalRows);
        if exactExternal.Some? { return Existing(exactExternal.value, articles[exactExternal.value], false); }
        if |externalRows| > 1 { return Conflict; }
      }
      var exactCanonical := WithUrl(articles, c.source, c.url);
      if c.externalId.Some? {
        var fallback := Fallbacks(articles, c.source, c.url);
        var only := FindOnly(fallback);
        if only.Some? && exactCanonical - fallback == {} {
          assert exactCanonical == fallback;
          return Existing(only.value, articles[only.value], true);
        }
        assert exactCanonical == fallback ==> exactCanonical - fallback == {};
        return NewArticle;
      }
      var only := FindOnly(exactCanonical);
      if only.Some? { return Existing(only.value, articles[only.value], false); }
      return if |exactCanonical| > 1 then Conflict else NewArticle;
    }

    method PersistResolvedArticle(c: Candidate, at: int, r: Resolution, spare: Id) returns (outcome: Outcome, article: Id)
      requires Writable(articles, c, r)
      modifies this
      ensures articles == Write(old(articles), c, r, spare, at)
      ensures OutcomeOf(c, r, spare) == Persisted(outcome, article)
    {
      if r.NewArticle? {
        articles := articles[spare := Row(c.source, c.externalId, c.url, c.details, at, at)];
        return Created, spare;
      }
      var row, seen := articles[r.id], r.seen;
      var desiredExternalId := if c.externalId.Some? then c.externalId else seen.externalId;
      var materialChange := r.promoteFallback || desiredExternalId != seen.externalId || c.url != seen.url || c.details != seen.details;
      var first := if row.firstSeen <= at then row.firstSeen else at;
      var last := if row.lastSeen >= at then row.lastSeen else at;
      if !materialChange {
        articles := articles[r.id := row.(firstSeen := first, lastSeen := last)];
        return Unchanged, r.id;
      }
      articles := articles[r.id := Row(row.source, desiredExternalId, c.url, c.details, first, last)];
      return Updated, r.id;
    }

    method PersistIncludedArticle(c: Candidate, at: int, spare: Id) returns (r: Result)
      requires UniqueIndexes(articles) && spare !in articles
      modifies this
      ensures (articles, r) == Persist(old(articles), c, spare, at) && UniqueIndexes(articles)
    {
      var resolution := ResolveIdentity(c);
      PersistKeepsUnique(articles, c, spare, at);
      if resolution.Conflict? { return IdentityConflict; }
      if resolution.Existing? {
        ResolvedRow(articles, c);
      }
      var outcome, article := PersistResolvedArticle(c, at, resolution, spare);
      return Persisted(outcome, article);
    }
  }
}
