/** Properties of the split selector, stated about the reference fold that FindBestSplit is proved to equal. */
module SplitProperties {
  import opened Optional
  import opened Scores
  import opened Slices
  import opened SplitModel

  /** Only the head of the shuffled pool is a candidate: at most `maxFeatures` of it, and never more than the pool holds. */
  lemma EvaluationBudget<V, G>(c: Classifier, e: Environment<V, G>)
    requires Valid(c, e)
    ensures Select(c, e).evaluated <= |Pool(c, e)| <= |c.indices|
    ensures c.maxFeatures >= 0 ==> Select(c, e).evaluated <= Min(c.maxFeatures, |c.indices|)
    ensures c.maxFeatures < 0 ==> Select(c, e).evaluated <= |c.indices| - Min(-c.maxFeatures, |c.indices|)
  {
    assert |e.order| == |multiset(e.order)| == |multiset(c.indices)| == |c.indices|;
  }

  /** The returned index, if any, is one of the scored candidates' indices and comes from the classifier's pool. */
  lemma WinnerFromShuffledPool<V, G>(c: Classifier, e: Environment<V, G>)
    requires Valid(c, e)
    ensures var o := Select(c, e);
            o.best.index.Some? ==>
              && o.winner < o.evaluated
              && o.best.index.value == e.order[o.winner]
              && o.best.index.value in Pool(c, e)[..o.evaluated]
              && o.best.index.value in c.indices
  {
  }

  /** The returned threshold is the value, at the returned index, of the row drawn for the kept candidate. */
  lemma ThresholdFromDrawnRow<V, G>(c: Classifier, e: Environment<V, G>)
    requires Valid(c, e)
    ensures var o := Select(c, e);
            o.best.value.Some? ==>
              && o.best.index.Some?
              && e.draws[o.winner] < |e.samples|
              && o.best.value.value == e.samples[e.draws[o.winner]][o.best.index.value]
  {
  }

  /** The returned groups and gini belong to the returned split. */
  lemma GroupsMatchSplit<V, G>(c: Classifier, e: Environment<V, G>)
    requires Valid(c, e)
    ensures var o := Select(c, e);
            o.best == Initial() || Consistent(e, o.best)
  {
  }

  /** The returned gini is at most every scored candidate's gini. */
  lemma BestIsLowest<V, G>(c: Classifier, e: Environment<V, G>, k: nat)
    requires Valid(c, e) && k < Select(c, e).evaluated
    ensures Select(c, e).best.gini.Finite?
    ensures Select(c, e).best.gini.value <= GiniAt(c, e, k)
  {
  }

  /** On a tie the earlier candidate is kept: a later candidate scoring the same is never returned. */
  lemma TiesKeepEarliest<V, G>(c: Classifier, e: Environment<V, G>, i: nat, j: nat)
    requires Valid(c, e) && i < j < Select(c, e).evaluated
    requires GiniAt(c, e, i) == GiniAt(c, e, j)
    ensures Select(c, e).winner != j
  {
  }

  /** Every scored candidate except possibly the last scored above the tolerance. */
  lemma ScoredAboveToleranceBeforeLast<V, G>(c: Classifier, e: Environment<V, G>, k: nat)
    requires Valid(c, e) && k + 1 < Select(c, e).evaluated
    ensures GiniAt(c, e, k) > c.tolerance
  {
  }

  /** Scoring stops right after the first candidate at or below the tolerance. */
  lemma StopsAfterFirstHit<V, G>(c: Classifier, e: Environment<V, G>, p: nat)
    requires Valid(c, e) && p < |Pool(c, e)|
    requires GiniAt(c, e, p) <= c.tolerance
    requires forall k :: 0 <= k < p ==> GiniAt(c, e, k) > c.tolerance
    ensures Select(c, e).evaluated == p + 1
  {
  }

  /** When no candidate reaches the tolerance, every candidate is scored. */
  lemma NoHitScoresAll<V, G>(c: Classifier, e: Environment<V, G>)
    requires Valid(c, e)
    requires forall k :: 0 <= k < |Pool(c, e)| ==> GiniAt(c, e, k) > c.tolerance
    ensures Select(c, e).evaluated == |Pool(c, e)|
  {
  }

  /**
   * Whenever the tolerance break fires, on the slice's last candidate or
   * earlier, the result is exactly the candidate that triggered it: all earlier
   * candidates scored above the tolerance, so the strict-less update was forced.
   */
  lemma EarlyExitReturnsTrigger<V, G>(c: Classifier, e: Environment<V, G>)
    requires Valid(c, e) && Select(c, e).evaluated > 0
    requires GiniAt(c, e, Select(c, e).evaluated - 1) <= c.tolerance
    ensures var o := Select(c, e);
            && o.evaluated > 0
            && o.winner == o.evaluated - 1
            && o.best == CandidateAt(c, e, o.winner)
            && o.best.gini.value <= c.tolerance
  {
  }

  /**
   * With an empty slice, the result is the initial state: null index and value,
   * no groups, `INF` gini. The slice is empty when `maxFeatures` is 0, when the
   * pool is empty, or when a negative `maxFeatures` drops the whole pool.
   */
  lemma NoCandidatesGiveInitial<V, G>(c: Classifier, e: Environment<V, G>)
    requires Valid(c, e)
    ensures Pool(c, e) == [] <==> (c.maxFeatures == 0 || c.indices == [] || -c.maxFeatures >= |c.indices|)
    ensures Pool(c, e) == [] ==> Select(c, e).evaluated == 0
    ensures Pool(c, e) == [] ==> Select(c, e).best == Comparison(None, None, [], Infinite)
  {
    assert |e.order| == |multiset(e.order)| == |multiset(c.indices)| == |c.indices|;
  }
}
