# Extra Tree split selection, modelled in Dafny

This project models `ExtraTreeClassifier::findBestSplit` from Rubix ML. It is the
randomized split selector of an Extremely Randomized Tree (P. Geurts et al., 2005).
The selector first shuffles the classifier's feature-index pool and takes the first
`maxFeatures` indices. For each of those indices it draws a random row and uses that
row's value at the index as the threshold. It partitions the dataset with that
threshold and scores the two groups with gini. It keeps the first candidate with the
strictly lowest score, and stops after the first candidate whose score is at or below
the tolerance. The result is a `Comparison(index, value, groups, gini)` node.

Everything the selector gets from outside is an explicit input (`SplitModel.Environment`):

- the dataset's rows (`samples`);
- the order `shuffle` leaves the pool in (`order`), required to be a permutation of
  the classifier's `indices`;
- the successive results of `rand(0, numRows - 1)` (`draws`), each naming a row;
- the dataset's `partition` and the classifier's `gini`, as uninterpreted functions.
  A group is an abstract type `G`, and `partition` returns a sequence of groups.

PHP's `INF` is `Scores.Infinite`. PHP's `null` is `Optional.None`.

Modules:

- `Optional`, `Scores`, `Slices`: `null`, the `INF`-topped score order, and `array_slice`.
- `SplitModel`: the data model, the candidate at each position, and the declarative
  account (`StopsAt`, `IsFirstMin`, `Meets`). Also a reference fold (`Scan`/`Select`),
  proved to produce the one outcome the account allows.
- `ExtraTreeClassifier`: `FindBestSplit`, the loop itself, proved to meet the account
  and to equal `Select`.
- `SplitProperties`: the selector's properties, stated about `Select`.
- `SplitScenarios`: a worked call in which the early exit can be observed.

## Model

| member | source | states |
|---|---|---|
| Slices.Take | src/Classifiers/ExtraTreeClassifier.php:45 | `array_slice($indices, 0, $maxFeatures)` returns a prefix of the pool. A non-negative length keeps `min(length, size)` elements. A negative length drops that many elements from the end. |
| SplitModel.CandidateAt | src/Classifiers/ExtraTreeClassifier.php:45-52 | Candidate `k` uses the k-th index of the slice taken from the shuffled pool, and that index is one of the classifier's indices. Its threshold is the value at that index of the row drawn for candidate `k`. Its groups and gini come from partitioning on that index and threshold. |
| SplitModel.MeetsIsUnique | src/Classifiers/ExtraTreeClassifier.php:54-62 | The strict-less update and the tolerance stop together fix the outcome. At most one (result, winner, count) triple meets the declarative account. |
| SplitModel.ScanMeets | src/Classifiers/ExtraTreeClassifier.php:45-64 | Induction over the loop: from any state where no candidate has yet reached the tolerance and the first lowest score is kept, the rest of the fold meets the declarative account. |
| SplitModel.Select | src/Classifiers/ExtraTreeClassifier.php:37-66 | The reference fold from the `INF`/`null` start yields an outcome that meets the declarative account: stop point, first arg-min, and the returned Comparison is that candidate's. |
| SplitModel.MeetsIsSelect | src/Classifiers/ExtraTreeClassifier.php:35-67 | Every outcome that meets the declarative account equals the reference fold's. |
| ExtraTreeClassifier.FindBestSplit | src/Classifiers/ExtraTreeClassifier.php:35-67 | The loop scores a prefix of the candidates, ending after the first score at or below the tolerance. It returns the initial state exactly when the slice is empty. Otherwise it returns the earliest candidate with the lowest score, with its pool index, its drawn-row threshold and its own groups and gini. The loop agrees with `Select`. The shuffled pool stays in the classifier and `maxFeatures` and `tolerance` do not change. |
| SplitProperties.EvaluationBudget | src/Classifiers/ExtraTreeClassifier.php:43-52 | The number of partition/gini evaluations is at most `min(maxFeatures, count(indices))`, or the shortened length for a negative `maxFeatures`. |
| SplitProperties.WinnerFromShuffledPool | src/Classifiers/ExtraTreeClassifier.php:43-45 | A returned index belongs to an evaluated candidate. It lies in the evaluated part of the slice and is one of the classifier's indices. |
| SplitProperties.ThresholdFromDrawnRow | src/Classifiers/ExtraTreeClassifier.php:46-48 | A returned value is the value, at the returned index, of the row drawn for the winning candidate. |
| SplitProperties.GroupsMatchSplit | src/Classifiers/ExtraTreeClassifier.php:50-58 | The result is either the initial state, or its groups equal `partition(index, value)` and its gini equals `gini(groups)`. |
| SplitProperties.BestIsLowest | src/Classifiers/ExtraTreeClassifier.php:54-59 | The returned gini is finite and at most the gini of every evaluated candidate. |
| SplitProperties.TiesKeepEarliest | src/Classifiers/ExtraTreeClassifier.php:54 | On a tie the earlier candidate is kept, so a later candidate with an equal score is never the winner. |
| SplitProperties.ScoredAboveToleranceBeforeLast | src/Classifiers/ExtraTreeClassifier.php:61-62 | Every evaluated candidate except possibly the last scored above the tolerance. |
| SplitProperties.StopsAfterFirstHit | src/Classifiers/ExtraTreeClassifier.php:61-62 | Evaluation stops right after the first candidate whose gini is at or below the tolerance. |
| SplitProperties.NoHitScoresAll | src/Classifiers/ExtraTreeClassifier.php:45-63 | When no candidate reaches the tolerance, every candidate in the slice is evaluated. |
| SplitProperties.EarlyExitReturnsTrigger | src/Classifiers/ExtraTreeClassifier.php:54-62 | Whenever the tolerance break fires, including on the slice's last candidate, the result is exactly the candidate that triggered it, and its gini is at or below the tolerance. |
| SplitProperties.NoCandidatesGiveInitial | src/Classifiers/ExtraTreeClassifier.php:37-45 | The slice is empty exactly when `maxFeatures` is 0, the pool is empty, or a negative `maxFeatures` drops the whole pool. With an empty slice, nothing is evaluated and the result is a null index, a null value, no groups and an `INF` gini. |
| SplitScenarios.PerfectFirstSplitStopsEarly | src/Classifiers/ExtraTreeClassifier.php:43-66 | Worked example with tolerance 0: a first candidate scoring 0 ends the search after one of two candidates and is returned. |

## Left out

- The random number generator: `shuffle` and `rand` are inputs. The model does not reason about their distributions.
- The bodies of `gini`, `Labeled::partition`, `Labeled::row` and the `Comparison` node class. They are not part of this model, so groups are an abstract type, and partition and gini are uninterpreted. Nothing is assumed about `<=` or categorical comparison semantics.
- Floating-point behaviour of gini: scores are reals. `NAN` and an `INF` returned by `gini` itself are not modelled. Only the orderings at lines 54 and 61 matter.
- An index outside a row (PHP would read `null` with a notice) and a `rand` call on an empty dataset: both are excluded by `SplitModel.Valid`.
- Tree growth, stopping rules and prediction traversal in `ClassificationTree`: they are not part of this model.
- src/Metrics/Distance/Euclidean.php (a floating-point distance) and tests/PersistentModelTest.php (persistence plumbing): unrelated to split selection.
