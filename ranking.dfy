/** The priority sort of the eligible pool: descending by (priority score,
    random draw), as `list.sort(key=..., reverse=True)` does it. The random
    draw is a value the caller supplies per candidate. */
module Ranking {

  /** An eligible faculty member, by position in the roster, with the sort key. */
  datatype Candidate = Candidate(index: nat, score: real, draw: real)

  /** `a` may precede `b` in the descending order of (score, draw). */
  predicate Precedes(a: Candidate, b: Candidate)
  {
    a.score > b.score || (a.score == b.score && a.draw >= b.draw)
  }

  predicate Ranked(s: seq<Candidate>)
  {
    forall i, j :: 0 <= i < j < |s| ==> Precedes(s[i], s[j])
  }

  predicate DistinctIndices(s: seq<Candidate>)
  {
    forall i, j :: 0 <= i < j < |s| ==> s[i].index != s[j].index
  }

  /** Places `x` before the first element it may precede; equal keys keep
      `x` ahead, which keeps the sort stable when `x` came first. */
  function Insert(x: Candidate, s: seq<Candidate>): (r: seq<Candidate>)
    ensures |r| == |s| + 1
    ensures forall y :: y in r <==> y == x || y in s
    ensures multiset(r) == multiset(s) + multiset{x}
  {
    if s == [] || Precedes(x, s[0]) then [x] + s
    else
      assert s == [s[0]] + s[1..];
      [s[0]] + Insert(x, s[1..])
  }

  lemma {:induction false} InsertRanked(x: Candidate, s: seq<Candidate>)
    requires Ranked(s)
    ensures Ranked(Insert(x, s))
    decreases |s|
  {
    if s == [] || Precedes(x, s[0]) {
    } else {
      InsertRanked(x, s[1..]);
      var r := Insert(x, s[1..]);
      assert forall y :: y in r ==> Precedes(s[0], y) by {
        forall y | y in r ensures Precedes(s[0], y) {
          if y != x {
            var k :| 0 <= k < |s[1..]| && s[1..][k] == y;
            assert s[k + 1] == y;
          }
        }
      }
      var t := [s[0]] + r;
      forall i, j | 0 <= i < j < |t| ensures Precedes(t[i], t[j]) {
        if i == 0 {
          assert t[j] == r[j - 1];
          assert t[j] in r;
        } else {
          assert t[i] == r[i - 1] && t[j] == r[j - 1];
        }
      }
    }
  }

  lemma {:induction false} InsertDistinct(x: Candidate, s: seq<Candidate>)
    requires DistinctIndices(s)
    requires forall y :: y in s ==> y.index != x.index
    ensures DistinctIndices(Insert(x, s))
    decreases |s|
  {
    if s == [] || Precedes(x, s[0]) {
      var t := [x] + s;
      forall i, j | 0 <= i < j < |t| ensures t[i].index != t[j].index {
        if i == 0 {
          assert t[j] == s[j - 1];
          assert t[j] in s;
        } else {
          assert t[i] == s[i - 1] && t[j] == s[j - 1];
        }
      }
    } else {
      var tail := s[1..];
      assert forall k :: 0 <= k < |tail| ==> tail[k] == s[k + 1];
      assert DistinctIndices(tail);
      assert forall y :: y in tail ==> y in s;
      InsertDistinct(x, tail);
      var r := Insert(x, tail);
      assert forall y :: y in r ==> y.index != s[0].index by {
        forall y | y in r ensures y.index != s[0].index {
          if y != x {
            var k :| 0 <= k < |tail| && tail[k] == y;
            assert s[k + 1] == y;
          }
        }
      }
      var t := [s[0]] + r;
      forall i, j | 0 <= i < j < |t| ensures t[i].index != t[j].index {
        if i == 0 {
          assert t[j] == r[j - 1];
          assert t[j] in r;
        } else {
          assert t[i] == r[i - 1] && t[j] == r[j - 1];
        }
      }
    }
  }

  /** The pool in descending priority order, ties broken by the draw: a
      reordering of the pool (a permutation of it). */
  function RankByPriority(pool: seq<Candidate>): (r: seq<Candidate>)
    ensures |r| == |pool|
    ensures forall y :: y in r <==> y in pool
    ensures multiset(r) == multiset(pool)
  {
    if pool == [] then []
    else
      assert pool == [pool[0]] + pool[1..];
      Insert(pool[0], RankByPriority(pool[1..]))
  }

  lemma {:induction false} RankByPriorityCorrect(pool: seq<Candidate>)
    requires DistinctIndices(pool)
    ensures Ranked(RankByPriority(pool))
    ensures DistinctIndices(RankByPriority(pool))
    decreases |pool|
  {
    if pool != [] {
      var tail := pool[1..];
      assert forall k :: 0 <= k < |tail| ==> tail[k] == pool[k + 1];
      assert DistinctIndices(tail);
      RankByPriorityCorrect(tail);
      InsertRanked(pool[0], RankByPriority(tail));
      forall y | y in RankByPriority(tail) ensures y.index != pool[0].index {
        var k :| 0 <= k < |tail| && tail[k] == y;
        assert pool[k + 1] == y;
      }
      InsertDistinct(pool[0], RankByPriority(tail));
    }
  }

  /** Taking the first `k` of a ranked pool takes the highest scores: every
      member taken scores at least as high as every member left. */
  lemma TopScoresFirst(r: seq<Candidate>, k: nat)
    requires Ranked(r) && k <= |r|
    ensures forall i, j :: 0 <= i < k <= j < |r| ==> r[i].score >= r[j].score
  {
  }

  /** The roster positions a sequence of candidates stands for. */
  function IndexSet(s: seq<Candidate>): set<nat>
  {
    set j | 0 <= j < |s| :: s[j].index
  }

  /** The roster positions of the candidates, in order. */
  function Indices(s: seq<Candidate>): seq<nat>
  {
    seq(|s|, j requires 0 <= j < |s| => s[j].index)
  }

  /** Candidates with distinct indices stand for as many roster positions
      as there are candidates. */
  lemma {:induction false} IndexSetSize(s: seq<Candidate>)
    requires DistinctIndices(s)
    ensures |IndexSet(s)| == |s|
  {
    if s != [] {
      var t := s[..|s| - 1];
      var x := s[|s| - 1];
      assert s == t + [x];
      assert DistinctIndices(t);
      IndexSetSize(t);
      IndexSetAppend(t, x);
    }
  }

  /** One more candidate adds its index, and nothing else; a fresh index
      grows the set by one. */
  lemma IndexSetAppend(t: seq<Candidate>, x: Candidate)
    requires DistinctIndices(t + [x])
    ensures IndexSet(t + [x]) == IndexSet(t) + {x.index}
    ensures x.index !in IndexSet(t)
  {
    var s := t + [x];
    forall i | i in IndexSet(s) ensures i in IndexSet(t) + {x.index} {
      var j :| 0 <= j < |s| && s[j].index == i;
      if j < |t| {
        assert t[j] == s[j];
      }
    }
    forall i | i in IndexSet(t) ensures i in IndexSet(s) {
      var j :| 0 <= j < |t| && t[j].index == i;
      assert s[j] == t[j];
    }
    assert s[|t|] == x;
    forall j | 0 <= j < |t| ensures t[j].index != x.index {
      assert t[j] == s[j] && x == s[|t|];
    }
  }
}
