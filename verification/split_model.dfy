/**
 * The data findBestSplit works on and a declarative account of what it returns.
 *
 * Everything the method draws from outside itself is an explicit input:
 * the dataset's rows, the order `shuffle` leaves the feature-index pool in,
 * the successive results of `rand(0, numRows - 1)`, and the dataset's
 * `partition` and the classifier's `gini`, which stay uninterpreted.
 */
module SplitModel {
  import opened Optional
  import opened Scores
  import opened Slices

  /** The part of an Extra Tree classifier's state that findBestSplit reads. */
  datatype Classifier = Classifier(indices: seq<nat>, maxFeatures: int, tolerance: real)

  /** The Comparison node findBestSplit builds: split column, threshold, groups and their gini. */
  datatype Comparison<V, G> = Comparison(index: Option<nat>, value: Option<V>, groups: seq<G>, gini: Score)

  /** One call's surroundings: rows, shuffled pool, random row draws, partition and gini. */
  datatype Environment<!V, !G> = Environment(
    samples: seq<seq<V>>,
    order: seq<nat>,
    draws: seq<nat>,
    partition: (nat, V) -> seq<G>,
    gini: seq<G> -> real)

  /** The state before any candidate is kept: null index and value, no groups, `INF` gini. */
  function Initial<V, G>(): Comparison<V, G>
  {
    Comparison(None, None, [], Infinite)
  }

  /** The candidate feature indices: the head of the shuffled pool, `maxFeatures` long. */
  function Pool<V, G>(c: Classifier, e: Environment<V, G>): seq<nat>
  {
    Take(e.order, c.maxFeatures)
  }

  /**
   * What the source relies on: `order` is a shuffle of the pool, there is a
   * draw for every candidate, every draw names a row, and every pool index
   * names a column of every row.
   */
  ghost predicate Valid<V, G>(c: Classifier, e: Environment<V, G>)
  {
    && multiset(e.order) == multiset(c.indices)
    && |Pool(c, e)| <= |e.draws|
    && (forall k :: 0 <= k < |e.draws| ==> e.draws[k] < |e.samples|)
    && (forall j, r :: 0 <= j < |e.order| && 0 <= r < |e.samples| ==> e.order[j] < |e.samples[r]|)
  }

  /** The threshold of candidate `k`: the drawn row's value at the candidate's column. */
  function Threshold<V, G>(c: Classifier, e: Environment<V, G>, k: nat): V
    requires Valid(c, e) && k < |Pool(c, e)|
  {
    e.samples[e.draws[k]][e.order[k]]
  }

  /** The gini score of candidate `k`'s partition. */
  function GiniAt<V, G>(c: Classifier, e: Environment<V, G>, k: nat): real
    requires Valid(c, e) && k < |Pool(c, e)|
  {
    e.gini(e.partition(e.order[k], Threshold(c, e, k)))
  }

  /** A Comparison whose groups and gini are those of its own index and threshold. */
  ghost predicate Consistent<V, G>(e: Environment<V, G>, r: Comparison<V, G>)
  {
    r.index.Some? && r.value.Some?
    && r.groups == e.partition(r.index.value, r.value.value)
    && r.gini == Finite(e.gini(r.groups))
  }

  /** The Comparison that candidate `k` would become if it were kept. */
  function CandidateAt<V, G>(c: Classifier, e: Environment<V, G>, k: nat): (r: Comparison<V, G>)
    requires Valid(c, e) && k < |Pool(c, e)|
    ensures r.index == Some(Pool(c, e)[k]) && r.index.value in c.indices
    ensures r.value == Some(Threshold(c, e, k)) && r.value == Some(e.samples[e.draws[k]][Pool(c, e)[k]])
    ensures Consistent(e, r) && r.gini == Finite(GiniAt(c, e, k))
  {
    var index := e.order[k];
    assert index in multiset(e.order);
    var groups := e.partition(index, Threshold(c, e, k));
    Comparison(Some(index), Some(Threshold(c, e, k)), groups, Finite(e.gini(groups)))
  }

  /**
   * Exactly the first `n` candidates are scored: every one of them before the
   * last scored above the tolerance, and fewer than all are scored only when
   * the last one scored at or below it.
   */
  ghost predicate StopsAt<V, G>(c: Classifier, e: Environment<V, G>, n: nat)
    requires Valid(c, e)
  {
    && n <= |Pool(c, e)|
    && (forall k :: 0 <= k < n - 1 ==> GiniAt(c, e, k) > c.tolerance)
    && (n < |Pool(c, e)| ==> 0 < n && GiniAt(c, e, n - 1) <= c.tolerance)
  }

  /** Among the first `n` candidates, `w` has the lowest score, and no earlier one ties it. */
  ghost predicate IsFirstMin<V, G>(c: Classifier, e: Environment<V, G>, n: nat, w: nat)
    requires Valid(c, e) && n <= |Pool(c, e)|
  {
    && w < n
    && (forall k :: 0 <= k < n ==> GiniAt(c, e, w) <= GiniAt(c, e, k))
    && (forall k :: 0 <= k < w ==> GiniAt(c, e, w) < GiniAt(c, e, k))
  }

  /** What one call produces: the Comparison, the position of the kept candidate, the number scored. */
  datatype Outcome<V, G> = Outcome(best: Comparison<V, G>, winner: nat, evaluated: nat)

  /** The outcome the declarative account allows. */
  ghost predicate Meets<V, G>(c: Classifier, e: Environment<V, G>, o: Outcome<V, G>)
    requires Valid(c, e)
  {
    && StopsAt(c, e, o.evaluated)
    && (o.evaluated == 0 ==> o.best == Initial() && o.winner == 0)
    && (o.evaluated > 0 ==> IsFirstMin(c, e, o.evaluated, o.winner) && o.best == CandidateAt(c, e, o.winner))
  }

  /** At most one outcome meets the declarative account. */
  lemma MeetsIsUnique<V, G>(c: Classifier, e: Environment<V, G>, o1: Outcome<V, G>, o2: Outcome<V, G>)
    requires Valid(c, e) && Meets(c, e, o1) && Meets(c, e, o2)
    ensures o1 == o2
  {
  }

  /**
   * A reference fold over the candidates from position `k`, carrying the best
   * Comparison so far and its position: keep a candidate when its score is
   * strictly below the best, stop after one at or below the tolerance.
   */
  function Scan<V, G>(c: Classifier, e: Environment<V, G>, k: nat, best: Comparison<V, G>, w: nat): Outcome<V, G>
    requires Valid(c, e) && k <= |Pool(c, e)|
    decreases |Pool(c, e)| - k
  {
    if k == |Pool(c, e)| then Outcome(best, w, k)
    else
      var g := GiniAt(c, e, k);
      var kept := Below(g, best.gini);
      var best' := if kept then CandidateAt(c, e, k) else best;
      var w' := if kept then k else w;
      if g <= c.tolerance then Outcome(best', w', k + 1)
      else Scan(c, e, k + 1, best', w')
  }

  /** What holds of the fold's state after the first `k` candidates when none of them stopped it. */
  ghost predicate Progress<V, G>(c: Classifier, e: Environment<V, G>, k: nat, best: Comparison<V, G>, w: nat)
    requires Valid(c, e) && k <= |Pool(c, e)|
  {
    && (forall j :: 0 <= j < k ==> GiniAt(c, e, j) > c.tolerance)
    && (k == 0 ==> best == Initial() && w == 0)
    && (k > 0 ==> IsFirstMin(c, e, k, w) && best == CandidateAt(c, e, w))
  }

  /** One candidate step keeps `Progress`, or stops with an outcome that meets the account. */
  lemma StepKeepsProgress<V, G>(c: Classifier, e: Environment<V, G>, k: nat, best: Comparison<V, G>, w: nat)
    requires Valid(c, e) && k < |Pool(c, e)| && Progress(c, e, k, best, w)
    ensures var g := GiniAt(c, e, k);
            var kept := Below(g, best.gini);
            var best' := if kept then CandidateAt(c, e, k) else best;
            var w' := if kept then k else w;
            && (g <= c.tolerance ==> Meets(c, e, Outcome(best', w', k + 1)))
            && (g > c.tolerance ==> Progress(c, e, k + 1, best', w'))
  {
  }

  /** The fold meets the declarative account from any state that has made progress. */
  lemma {:induction false} ScanMeets<V, G>(c: Classifier, e: Environment<V, G>, k: nat, best: Comparison<V, G>, w: nat)
    requires Valid(c, e) && k <= |Pool(c, e)| && Progress(c, e, k, best, w)
    ensures Meets(c, e, Scan(c, e, k, best, w))
    decreases |Pool(c, e)| - k
  {
    if k < |Pool(c, e)| {
      StepKeepsProgress(c, e, k, best, w);
      var g := GiniAt(c, e, k);
      var kept := Below(g, best.gini);
      var best' := if kept then CandidateAt(c, e, k) else best;
      var w' := if kept then k else w;
      if g > c.tolerance {
        ScanMeets(c, e, k + 1, best', w');
      }
    }
  }

  /** The fold started from the initial state; it produces the one outcome the declarative account allows. */
  function Select<V, G>(c: Classifier, e: Environment<V, G>): (o: Outcome<V, G>)
    requires Valid(c, e)
    ensures Meets(c, e, o)
  {
    ScanMeets(c, e, 0, Initial(), 0);
    Scan(c, e, 0, Initial(), 0)
  }

  /** Any outcome that meets the declarative account is the reference fold's. */
  lemma MeetsIsSelect<V, G>(c: Classifier, e: Environment<V, G>, o: Outcome<V, G>)
    requires Valid(c, e) && Meets(c, e, o)
    ensures o == Select(c, e)
  {
    MeetsIsUnique(c, e, o, Select(c, e));
  }
}
