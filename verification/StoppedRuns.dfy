/**
  Operations that log a moment after each of their steps and take effect at one of them, run one
  after another by processes that may die between any two steps.
 */
module StoppedRuns {

  /** What an operation would have logged, its commit point, and how much of the log there was when its process stopped. */
  datatype Episode<M, O> = Episode(op: O, whole: seq<M>, point: nat, stopped: nat)

  ghost function LogAfter<M, O>(log: seq<M>, episodes: seq<Episode<M, O>>): seq<M>
    requires forall e | e in episodes :: e.stopped <= |e.whole|
  {
    if episodes == [] then log else
    var e := episodes[|episodes| - 1];
    e.whole[..e.stopped]
  }

  /** Each operation extends what the one before left, whole or stopped. */
  ghost predicate Chained<M, O>(log: seq<M>, episodes: seq<Episode<M, O>>) {
    && log != [] && (forall e | e in episodes :: e.stopped <= |e.whole|)
    && (episodes == [] ||
        var earlier, e := episodes[..|episodes| - 1], episodes[|episodes| - 1];
        && Chained(log, earlier)
        && LogAfter(log, earlier) <= e.whole && |LogAfter(log, earlier)| <= e.stopped
        && |LogAfter(log, earlier)| - 1 <= e.point)
  }

  /** The operations whose commit point was reached before their process stopped, and by moment `i`. */
  ghost function CommittedBy<M, O>(episodes: seq<Episode<M, O>>, i: nat): seq<O> {
    if episodes == [] then [] else
    var e := episodes[|episodes| - 1];
    CommittedBy(episodes[..|episodes| - 1], i) + (if e.point < e.stopped && e.point <= i then [e.op] else [])
  }

  lemma {:induction false} LogGrows<M, O>(log: seq<M>, episodes: seq<Episode<M, O>>)
    requires Chained(log, episodes)
    ensures log <= LogAfter(log, episodes)
    decreases |episodes|
  {
    if episodes != [] {
      var earlier, e := episodes[..|episodes| - 1], episodes[|episodes| - 1];
      LogGrows(log, earlier);
      assert log <= e.whole[..e.stopped];
    }
  }

  /** What was committed is so from the last moment on. */
  lemma {:induction false} CommittedOnce<M, O>(log: seq<M>, episodes: seq<Episode<M, O>>, last: nat, i: nat)
    requires Chained(log, episodes) && |LogAfter(log, episodes)| - 1 == last <= i
    ensures CommittedBy(episodes, i) == CommittedBy(episodes, last)
    decreases |episodes|
  {
    if episodes != [] {
      var earlier := episodes[..|episodes| - 1];
      LogGrows(log, earlier);
      var before := |LogAfter(log, earlier)| - 1;
      CommittedOnce(log, earlier, before, i);
      CommittedOnce(log, earlier, before, last);
    }
  }

  // ---------------------------------------------------------------------------
  // What a moment shows

  function Fold<S, O>(after: (S, O) -> S, s: S, ops: seq<O>): S {
    if ops == [] then s else after(Fold(after, s, ops[..|ops| - 1]), ops[|ops| - 1])
  }

  lemma FoldOneMore<S, O>(after: (S, O) -> S, s: S, ops: seq<O>, op: O)
    ensures Fold(after, s, ops + [op]) == after(Fold(after, s, ops), op)
    ensures ops + [] == ops
  {
    assert (ops + [op])[..|ops|] == ops;
  }

  /** Up to its commit point an operation shows what was there before it, from there on its effect. */
  ghost predicate Shows<M, S, O>(show: M -> S, after: (S, O) -> S, before: seq<M>, e: Episode<M, O>)
    requires before != []
  {
    forall i {:trigger e.whole[i]} | |before| - 1 <= i < |e.whole| ::
      show(e.whole[i]) == if i < e.point then show(before[|before| - 1]) else after(show(before[|before| - 1]), e.op)
  }

  ghost predicate AllShow<M, S, O>(show: M -> S, after: (S, O) -> S, log: seq<M>, episodes: seq<Episode<M, O>>)
    requires forall e | e in episodes :: e.stopped <= |e.whole|
  {
    episodes == [] ||
    (var earlier := episodes[..|episodes| - 1];
     && AllShow(show, after, log, earlier)
     && LogAfter(log, earlier) != [] && Shows(show, after, LogAfter(log, earlier), episodes[|episodes| - 1]))
  }

  lemma OwnMoment<M, S, O>(show: M -> S, after: (S, O) -> S, before: seq<M>, e: Episode<M, O>, i: nat, s: S, ops: seq<O>)
    requires before != [] && Shows(show, after, before, e) && |before| - 1 <= i < |e.whole|
    requires show(before[|before| - 1]) == Fold(after, s, ops)
    ensures show(e.whole[i]) == Fold(after, s, ops + if e.point <= i then [e.op] else [])
  {
    FoldOneMore(after, s, ops, e.op);
  }

  /** Moments of earlier operations know nothing of the last one; its own add it from its commit point on. */
  lemma CommittedInEpisode<M, O>(log: seq<M>, episodes: seq<Episode<M, O>>, last: nat, i: nat)
    requires Chained(log, episodes) && episodes != [] && i < |LogAfter(log, episodes)|
    requires last == |LogAfter(log, episodes[..|episodes| - 1])| - 1
    ensures var earlier, e := episodes[..|episodes| - 1], episodes[|episodes| - 1];
            && LogAfter(log, episodes)[i] == e.whole[i]
            && (i <= last ==> e.whole[i] == LogAfter(log, earlier)[i])
            && CommittedBy(episodes, i) ==
               if i < last then CommittedBy(earlier, i)
               else CommittedBy(earlier, last) + if e.point <= i then [e.op] else []
  {
    var earlier, e := episodes[..|episodes| - 1], episodes[|episodes| - 1];
    assert e.whole[..e.stopped][i] == e.whole[i];
    if last <= i {
      CommittedOnce(log, earlier, last, i);
    }
  }

  /** Every moment shows exactly what the operations committed by then leave behind. */
  lemma {:induction false} EveryMoment<M, S, O>(show: M -> S, after: (S, O) -> S, log: seq<M>, episodes: seq<Episode<M, O>>,
                                                i: nat)
    requires Chained(log, episodes) && AllShow(show, after, log, episodes)
    requires |log| - 1 <= i < |LogAfter(log, episodes)|
    ensures show(LogAfter(log, episodes)[i]) == Fold(after, show(log[|log| - 1]), CommittedBy(episodes, i))
    decreases |episodes|
  {
    if episodes != [] {
      var earlier, e := episodes[..|episodes| - 1], episodes[|episodes| - 1];
      var before := LogAfter(log, earlier);
      LogGrows(log, earlier);
      var last := |before| - 1;
      CommittedInEpisode(log, episodes, last, i);
      EveryMoment(show, after, log, earlier, if i < last then i else last);
      if last <= i {
        OwnMoment(show, after, before, e, i, show(log[|log| - 1]), CommittedBy(earlier, last));
      }
    }
  }
}
