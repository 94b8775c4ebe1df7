/**
 * The leaderboard: a `PriorityQueue<PlayerScore>` ordered by the comparator
 * `(a, b) -> b.score - a.score`, so that `poll` returns an entry of highest
 * score. The stored queue is modelled by the sequence of entries in insertion
 * order (only its multiset matters); the order among equal scores is left
 * unspecified, as the queue leaves it.
 */
module Leaderboard {

  datatype PlayerScore = PlayerScore(name: string, score: int)

  /** Scores never increase along `s`. */
  predicate Ranked(s: seq<PlayerScore>) {
    forall i, j :: 0 <= i < j < |s| ==> s[i].score >= s[j].score
  }

  /** The entry `poll` takes from a non-empty queue: one of highest score. */
  function TopIndex(q: seq<PlayerScore>): (k: nat)
    requires |q| > 0
    ensures k < |q|
    ensures forall i :: 0 <= i < |q| ==> q[i].score <= q[k].score
  {
    if |q| == 1 then 0
    else
      var k := TopIndex(q[1..]);
      if q[0].score >= q[k + 1].score then 0 else k + 1
  }

  /** `q` without its `k`-th entry: what is left in the queue after `poll`. */
  function RemoveAt(q: seq<PlayerScore>, k: nat): (r: seq<PlayerScore>)
    requires k < |q|
    ensures multiset(r) + multiset{q[k]} == multiset(q)
  {
    assert q == q[..k] + [q[k]] + q[k + 1..];
    q[..k] + q[k + 1..]
  }

  /**
   * Draining a copy of the queue with `poll` (src/HangmanGame.java:127-131):
   * the result holds every stored entry once and is ranked by score.
   */
  method Enumerate(entries: seq<PlayerScore>) returns (ranked: seq<PlayerScore>)
    ensures Ranked(ranked)
    ensures multiset(ranked) == multiset(entries)
  {
    var copy := entries;
    ranked := [];
    while |copy| > 0
      invariant Ranked(ranked)
      invariant multiset(ranked) + multiset(copy) == multiset(entries)
      invariant forall x, y :: x in ranked && y in copy ==> x.score >= y.score
      decreases |copy|
    {
      var k := TopIndex(copy);
      var top := copy[k];
      var rest := RemoveAt(copy, k);
      forall y | y in rest ensures y in copy {
        assert y in multiset(rest);
      }
      ranked := ranked + [top];
      copy := rest;
    }
  }

  /**
   * Adding an entry whose score beats every stored score puts it first in
   * every ranked enumeration of the new queue.
   */
  lemma NewTopScoreFirst(entries: seq<PlayerScore>, e: PlayerScore, ranked: seq<PlayerScore>)
    requires forall x :: x in entries ==> x.score < e.score
    requires Ranked(ranked) && multiset(ranked) == multiset(entries + [e])
    ensures |ranked| == |entries| + 1 && ranked[0] == e
  {
    assert |ranked| == |multiset(ranked)| == |entries + [e]|;
    assert e in multiset(ranked);
    var j :| 0 <= j < |ranked| && ranked[j] == e;
    assert ranked[0].score >= e.score;
    assert ranked[0] in multiset(entries + [e]);
    assert ranked[0] !in entries;
    assert multiset(entries + [e]) == multiset(entries) + multiset{e};
  }
}
