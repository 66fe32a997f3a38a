/** The ordering used by both the top recommendation and the per-tier tables: scored results sorted
    by `compositeScore`, highest first, with the stable `Array.prototype.sort` of the runtime (equal
    scores keep their input order). */
module Ranking {
  import opened Types

  /** Non-increasing composite scores. */
  ghost predicate SortedDesc(xs: seq<ScoredResult>) {
    forall i, j :: 0 <= i < j < |xs| ==> xs[i].compositeScore >= xs[j].compositeScore
  }

  /** Places `x` after every element scoring at least as much as it, so it follows its equals. */
  function Insert(x: ScoredResult, sorted: seq<ScoredResult>): (r: seq<ScoredResult>)
    ensures multiset(r) == multiset(sorted) + multiset{x}
    ensures |r| == |sorted| + 1
    decreases |sorted|
  {
    if |sorted| == 0 then [x]
    else
      assert sorted == [sorted[0]] + sorted[1..];
      if sorted[0].compositeScore >= x.compositeScore then [sorted[0]] + Insert(x, sorted[1..])
      else [x] + sorted
  }

  /** The stable descending sort: elements are inserted in input order. */
  function SortDesc(xs: seq<ScoredResult>): (r: seq<ScoredResult>)
    ensures multiset(r) == multiset(xs)
    ensures |r| == |xs|
    decreases |xs|
  {
    if |xs| == 0 then []
    else
      assert xs == xs[..|xs| - 1] + [xs[|xs| - 1]];
      Insert(xs[|xs| - 1], SortDesc(xs[..|xs| - 1]))
  }

  lemma {:induction false} InsertSorted(x: ScoredResult, sorted: seq<ScoredResult>)
    requires SortedDesc(sorted)
    ensures SortedDesc(Insert(x, sorted))
    decreases |sorted|
  {
    if |sorted| > 0 && sorted[0].compositeScore >= x.compositeScore {
      assert SortedDesc(sorted[1..]);
      InsertSorted(x, sorted[1..]);
      var rest := Insert(x, sorted[1..]);
      InsertBounded(x, sorted[1..], sorted[0].compositeScore);
      ConsSorted(sorted[0], rest);
    }
  }

  /** Inserting an element no larger than a bound into a list bounded by it keeps the bound. */
  lemma InsertBounded(x: ScoredResult, sorted: seq<ScoredResult>, bound: real)
    requires x.compositeScore <= bound
    requires forall k :: 0 <= k < |sorted| ==> sorted[k].compositeScore <= bound
    ensures forall y :: y in Insert(x, sorted) ==> y.compositeScore <= bound
  {
    forall y | y in Insert(x, sorted) ensures y.compositeScore <= bound {
      assert y in multiset(Insert(x, sorted));
      assert y in multiset(sorted) + multiset{x};
      if y != x {
        assert y in sorted;
      }
    }
  }

  /** A head at least as large as every element of a sorted tail gives a sorted list. */
  lemma ConsSorted(head: ScoredResult, rest: seq<ScoredResult>)
    requires SortedDesc(rest)
    requires forall y :: y in rest ==> y.compositeScore <= head.compositeScore
    ensures SortedDesc([head] + rest)
  {
    forall i, j | 0 <= i < j < |rest| + 1 ensures ([head] + rest)[i].compositeScore >= ([head] + rest)[j].compositeScore {
      assert ([head] + rest)[j] == rest[j - 1];
      if i == 0 {
        assert rest[j - 1] in rest;
      } else {
        assert ([head] + rest)[i] == rest[i - 1];
      }
    }
  }

  /** The sort yields non-increasing scores and is a permutation of its input. */
  lemma {:induction false} SortDescSorted(xs: seq<ScoredResult>)
    ensures SortedDesc(SortDesc(xs))
    ensures multiset(SortDesc(xs)) == multiset(xs)
    decreases |xs|
  {
    if |xs| > 0 {
      SortDescSorted(xs[..|xs| - 1]);
      InsertSorted(xs[|xs| - 1], SortDesc(xs[..|xs| - 1]));
    }
  }

  /** The best result, found front to back: a later result replaces the current best only when it
      scores strictly more, so among equal maxima the earliest one wins. */
  function FirstMax(xs: seq<ScoredResult>): (best: ScoredResult)
    requires |xs| > 0
    ensures best in xs
    ensures forall k :: 0 <= k < |xs| ==> xs[k].compositeScore <= best.compositeScore
    decreases |xs|
  {
    if |xs| == 1 then xs[0]
    else
      var prev := FirstMax(xs[..|xs| - 1]);
      var last := xs[|xs| - 1];
      assert forall k :: 0 <= k < |xs| - 1 ==> xs[..|xs| - 1][k] == xs[k];
      if last.compositeScore > prev.compositeScore then last else prev
  }

  /** The earliest maximum: no result before it scores as much. */
  lemma {:induction false} FirstMaxIsEarliest(xs: seq<ScoredResult>)
    requires |xs| > 0
    ensures exists k ::
              0 <= k < |xs| && xs[k] == FirstMax(xs)
              && (forall j :: 0 <= j < k ==> xs[j].compositeScore < FirstMax(xs).compositeScore)
    decreases |xs|
  {
    if |xs| == 1 {
      assert xs[0] == FirstMax(xs);
    } else {
      var init := xs[..|xs| - 1];
      FirstMaxIsEarliest(init);
      var k :| 0 <= k < |init| && init[k] == FirstMax(init)
               && (forall j :: 0 <= j < k ==> init[j].compositeScore < FirstMax(init).compositeScore);
      if xs[|xs| - 1].compositeScore > FirstMax(init).compositeScore {
        forall j | 0 <= j < |xs| - 1 ensures xs[j].compositeScore < FirstMax(xs).compositeScore {
          assert xs[j] == init[j];
        }
        assert xs[|xs| - 1] == FirstMax(xs);
        var last := |xs| - 1;
        assert 0 <= last < |xs| && xs[last] == FirstMax(xs)
          && (forall j :: 0 <= j < last ==> xs[j].compositeScore < FirstMax(xs).compositeScore);
      } else {
        assert xs[k] == init[k];
        forall j | 0 <= j < k ensures xs[j].compositeScore < FirstMax(xs).compositeScore {
          assert xs[j] == init[j];
        }
        assert 0 <= k < |xs| && xs[k] == FirstMax(xs)
          && (forall j :: 0 <= j < k ==> xs[j].compositeScore < FirstMax(xs).compositeScore);
      }
    }
  }

  /** The head of the sorted list is the earliest result with the highest score. */
  lemma {:induction false} SortDescHead(xs: seq<ScoredResult>)
    requires |xs| > 0
    ensures SortDesc(xs)[0] == FirstMax(xs)
    decreases |xs|
  {
    if |xs| > 1 {
      var init := xs[..|xs| - 1];
      SortDescHead(init);
      var s := SortDesc(init);
      assert SortDesc(xs) == Insert(xs[|xs| - 1], s);
    }
  }
}
