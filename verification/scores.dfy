/** Gini scores as findBestSplit compares them, including the initial `INF`. */
module Scores {

  /** A running best score: a finite gini value, or `INF` before any candidate was kept. */
  datatype Score = Finite(value: real) | Infinite

  /** `x < s` where `s` may be `INF`: every finite score is below `INF`. */
  predicate Below(x: real, s: Score)
  {
    match s
    case Infinite => true
    case Finite(v) => x < v
  }
}
