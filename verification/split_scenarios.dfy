/** A worked call in which the early exit is observable. */
module SplitScenarios {
  import opened Optional
  import opened Scores
  import opened SplitModel

  /**
   * Two features, four rows, tolerance 0. The shuffled pool is [1, 0] and the
   * first candidate draws row 1, whose value 20 at column 1 gives a gini of 0:
   * the selector stops after one of its two candidates and returns that split.
   */
  lemma {:induction false} PerfectFirstSplitStopsEarly()
    ensures var c := Classifier([0, 1], 2, 0.0);
            var e := Environment([[1, 10], [2, 20], [3, 30], [4, 40]], [1, 0], [1, 2],
                                 (i: nat, v: int) => [i, v],
                                 (gs: seq<int>) => if gs == [1, 20] then 0.0 else 0.5);
            && Valid(c, e)
            && Select(c, e).evaluated == 1 < |Pool(c, e)|
            && Select(c, e).best == Comparison(Some(1), Some(20), [1, 20], Finite(0.0))
  {
    var c := Classifier([0, 1], 2, 0.0);
    var e := Environment([[1, 10], [2, 20], [3, 30], [4, 40]], [1, 0], [1, 2],
                         (i: nat, v: int) => [i, v],
                         (gs: seq<int>) => if gs == [1, 20] then 0.0 else 0.5);
    assert multiset(e.order) == multiset(c.indices);
    assert Pool(c, e) == [1, 0];
    assert GiniAt(c, e, 0) == 0.0;
  }
}
