/** The Extremely Randomized Tree split selector (P. Geurts et al., 2005, "Extremely Randomized Trees"). */
module ExtraTreeClassifier {
  import opened Optional
  import opened Scores
  import opened Slices
  import opened SplitModel

  /**
   * findBestSplit: score one random threshold on each of the first
   * `maxFeatures` indices of the freshly shuffled pool, keep the first
   * candidate with the strictly lowest gini, and stop after the first
   * candidate whose gini is at or below the tolerance.
   *
   * `e.order` is the pool after `shuffle`, `e.draws[k]` the row `rand` picks
   * for the k-th candidate. The shuffled order stays in the classifier, so
   * the returned state `next` holds it.
   */
  method FindBestSplit<V, G>(c: Classifier, e: Environment<V, G>)
    returns (best: Comparison<V, G>, winner: nat, evaluated: nat, next: Classifier)
    requires Valid(c, e)
    ensures StopsAt(c, e, evaluated)
    ensures evaluated == 0 <==> Pool(c, e) == []
    ensures evaluated == 0 ==> best == Initial()
    ensures evaluated > 0 ==> winner < evaluated && IsFirstMin(c, e, evaluated, winner)
    ensures evaluated > 0 ==> best.index == Some(Pool(c, e)[winner])
    ensures evaluated > 0 ==> best.value == Some(e.samples[e.draws[winner]][Pool(c, e)[winner]])
    ensures evaluated > 0 ==> Consistent(e, best) && best.gini == Finite(GiniAt(c, e, winner))
    ensures Outcome(best, winner, evaluated) == Select(c, e)
    ensures next.indices == e.order && multiset(next.indices) == multiset(c.indices)
    ensures next.maxFeatures == c.maxFeatures && next.tolerance == c.tolerance
  {
    next := c.(indices := e.order);
    best := Initial();
    winner := 0;
    var pool := Take(e.order, c.maxFeatures);
    var k := 0;
    while k < |pool|
      invariant k <= |pool|
      invariant forall j :: 0 <= j < k ==> GiniAt(c, e, j) > c.tolerance
      invariant k == 0 ==> best == Initial() && winner == 0
      invariant k > 0 ==> IsFirstMin(c, e, k, winner) && best == CandidateAt(c, e, winner)
    {
      var index := pool[k];
      var sample := e.samples[e.draws[k]];
      var value := sample[index];
      var groups := e.partition(index, value);
      var gini := e.gini(groups);
      if Below(gini, best.gini) {
        best := Comparison(Some(index), Some(sample[index]), groups, Finite(gini));
        winner := k;
      }
      if gini <= c.tolerance {
        evaluated := k + 1;
        MeetsIsSelect(c, e, Outcome(best, winner, evaluated));
        return;
      }
      k := k + 1;
    }
    evaluated := k;
    MeetsIsSelect(c, e, Outcome(best, winner, evaluated));
  }
}
