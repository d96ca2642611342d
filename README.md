# Greedy binary decision-tree induction, modelled in Dafny

This project models the `DecisionTree` class of `src/index.js`. The class
grows a binary classification tree from a numeric feature matrix `x` and a
boolean label column `y`. It has four parts:

- **Split scorer** (`getEntropy`, `_calcEntropy`). It tallies the rows of a
  candidate split into four counters by (predicted side, label) and combines
  the two sides' binary entropies.
- **Per-column search** (`_bestSplit`). It tries every value of a column as
  the threshold `value < cutoff` and keeps the first one with the lowest score.
- **Cross-column search** (`_bestSplitForAll`). It scans the columns in order
  and returns early on a column whose best score is exactly 0.
- **Recursive builder** (`_fit`, `fit`). It stops on depth, on zero rows or on
  a falsy cutoff. Otherwise it partitions the row indices by the chosen
  threshold and grows both children one level deeper.

Modules and files:

- `wrappers.dfy` (`Wrappers`): `Option` and `Result`.
- `config.dfy` (`Config`): the `DecisionTree` object, which holds `maxDepth`
  and the per-class entropy term.
- `dataset.dfy` (`Dataset`): the matrix as a sequence of rows, with column and
  row selection.
- `entropy.dfy` (`Entropy`): the split scorer.
- `split_search.dfy` (`SplitSearch`): both searches.
- `tree_builder.dfy` (`TreeBuilder`): the index partition and the recursive
  builder.

The imperative parts of the source are methods with loops. Each is proved
equal to a specification function:

- the counter loop of `getEntropy` (`GetEntropy` = `Score(Tally(..))`);
- the running minimum of `_bestSplit` (`BestSplit` = `BestSplitOf`);
- the column scan of `_bestSplitForAll` (`BestSplitForAll` = `BestSplitForAllOf`);
- the push loop of `_fit` (`PartitionRows` = `LeftIndices`/`RightIndices`).

The lemmas then state the source's promises about those functions. The
recursive builder `_fit` is a function over the `Tree` datatype
(`Nil | Node(indexCol, entropy, cutoff, left, right)`). `Induce` models its
stopping rules and `Grow` models the node it builds.

Modelling conventions:

- JavaScript's NaN is `None` in an `Option<real>`. `score < entropy` in
  `_bestSplit` (line 61) is false for NaN; `Below` models that comparison.
  The `score === 0` test at line 77 compares `_bestSplit`'s entropy, which
  is never NaN, so the model compares it as a plain real.
- An undefined `cutoff` or `index` is `None`.
- The early-return object `{ i, score, currCutoff }` at line 78 is its own
  variant, `EarlyReturn`. `_fit` destructures the keys `index/entropy/cutoff`,
  so for this variant it sees `cutoff` undefined and returns `Nil`.
- `_entropyFunc(num, total)` (`-num/total * log2(num/total)`) is an
  uninterpreted parameter `entropyFunc: (nat, nat) -> real` of the
  `DecisionTree` value. `_calcEntropy` is modelled exactly on top of it.
- Lemmas that need a sign for the term assume `PositiveTerm`: the term is
  positive for `0 < num < total`, which holds for `-p*log2(p)`.

## Quirks of the code

The model follows the code in each of these cases:

- **Weighting.** Each side's entropy is weighted by that side's fraction of
  TRUE labels, `aTrue/(aTrue+aFalse)` (lines 48-49), not by the side's share
  of all rows, as a reader of a weighted-entropy split would expect. Three
  consequences:
  - A side's contribution scales with how many of its labels are true.
  - Swapping true and false labels changes the score, although each side's
    binary entropy stays the same.
  - The score can exceed 1 even with the real `-p*log2(p)` term. Take a
    column with ten rows of value 0 (7 true, 3 false) and ten rows of value 1
    (7 true, 3 false). Its only defined candidate, threshold 1, scores
    `0.7*H(0.7) + 0.7*H(0.7)`, about 1.234. That is below the sentinel 10, so
    `_bestSplit` picks it and `_fit` builds a node with that entropy.
- **Empty side.** A side with no rows is not treated as contributing 0: it
  makes `0/0`, so the whole score is NaN and that candidate is never chosen.
  So a column holding a single value yields no cutoff at all and the sentinel
  entropy 10 (`ConstantColumnHasNoSplit`). A reader might expect the
  threshold equal to that value with a score of 0; the code gives none.
- **Perfect split.** A column whose best score is exactly 0 triggers the early
  return with differently named keys, so `_fit` builds no node there
  (`PerfectColumnYieldsNil`). The best possible split is thrown away.
- **Cutoff 0.** A cutoff of 0 is falsy, so it also ends the branch
  (`InduceNodeIff`).

## Model

| member | source | states |
|---|---|---|
| `Config.New` | src/index.js:4-6 | an omitted or zero `maxDepth` becomes 3, any other value is kept, and the stored depth is never 0 |
| `Entropy.CalcEntropy` | src/index.js:12-18 | a side with either class count 0 scores exactly 0; with a positive entropy term, a side scores above 0 exactly when both classes are present |
| `Entropy.TallyUpTo` | src/index.js:27-47 | after the loop has visited `k` rows the four counters sum to `k`: every row increments exactly one counter |
| `Entropy.TallyCountsRows` | src/index.js:33-47 | each counter equals the number of rows with its (predicted side, label) combination, counted as the size of that set of rows |
| `Entropy.TallyWitness` | src/index.js:33-47 | a counter is non-zero exactly when some row has its (predicted side, label) combination |
| `Entropy.SidesNonEmptyIff` | src/index.js:33-47 | the left counters sum to non-zero iff some row is predicted left, and the right counters iff some row is predicted right |
| `Entropy.Score` | src/index.js:48-50 | the score is NaN exactly when one side receives no rows (`0/0`) |
| `Entropy.ScoreNonNegative` | src/index.js:48-50 | a defined score is never negative |
| `Entropy.ScoreZeroIffPure` | src/index.js:48-50 | when both sides have rows, the score is exactly 0 iff each side holds a single class |
| `Entropy.ScoreZeroIffPerfectPrediction` | src/index.js:20-50 | when both sides have rows, the score of a prediction is 0 iff every two rows predicted to the same side share a label |
| `Entropy.GetEntropy` | src/index.js:20-51 | throws 'Expect to get array.' when either argument is not an array and 'Array length is inconsistent.' when the lengths differ; otherwise returns the score of exactly the four counts `Tally` computes |
| `SplitSearch.RunningMinIsMinimum` | src/index.js:54-65 | the running minimum is at most the sentinel 10 and at most every non-NaN candidate score seen so far |
| `SplitSearch.RunningMinUndefinedIff` | src/index.js:54-65 | the cutoff stays undefined exactly when no candidate scores below 10, and exactly then the entropy is still 10 |
| `SplitSearch.RunningMinIsFirstFound` | src/index.js:61-64 | a defined cutoff is the value of the first candidate reaching the minimum; every earlier candidate scored NaN or strictly more (ties keep the earlier value) |
| `SplitSearch.BestSplitIsFirstMinimum` | src/index.js:53-67 | `_bestSplit` is a first-found argmin over the column's own values, with the sentinel and undefined-cutoff cases |
| `SplitSearch.CutoffSplitsColumn` | src/index.js:48-64 | a chosen cutoff is one of the column's values and some value lies strictly below it, so the column minimum is never chosen |
| `SplitSearch.EmptyLeftScoresNaN` | src/index.js:48-61 | a threshold that routes no row left scores NaN and fails `score < entropy` for every bound |
| `SplitSearch.ConstantColumnHasNoSplit` | src/index.js:53-67 | a column holding one value yields entropy 10 and an undefined cutoff |
| `SplitSearch.BestSplitNonNegative` | src/index.js:53-67 | with a positive entropy term, `_bestSplit` never reports a negative entropy |
| `SplitSearch.BestSplit` | src/index.js:53-67 | the loop computes exactly the first-found running minimum `BestSplitOf` of the column's candidate scores |
| `SplitSearch.EarlyReturnPersists` | src/index.js:77-78 | once the column scan has returned early, further columns change nothing |
| `SplitSearch.EarlyReturnIffPerfect` | src/index.js:74-78 | the scan returns early exactly when some column's best score is 0, at the first such column, with that column's cutoff |
| `SplitSearch.ScanIsFirstMinimum` | src/index.js:71-85 | without an early return, `index` and `cutoff` are defined together; a defined `index` is the first column with the lowest best score; otherwise no column has a cutoff and the entropy is 10 |
| `SplitSearch.BestSplitForAllIsFirstMinimum` | src/index.js:69-86 | `_bestSplitForAll` on a dataset: early return iff a perfect column exists; otherwise a first-found argmin over the columns' `_bestSplit` results, with `index` in `[0, cols)` |
| `SplitSearch.ChoiceNamesColumn` | src/index.js:79-83 | a defined cutoff comes with a defined column index in range, and is that column's own best split |
| `SplitSearch.ColumnCutoffSeparatesRows` | src/index.js:53-67 | the cutoff taken from a column leaves some row of that column strictly below it and some row equal to it |
| `SplitSearch.BestSplitForAll` | src/index.js:69-86 | the loop with its early return computes exactly `BestSplitForAllOf` |
| `TreeBuilder.LeftIndicesSelect` | src/index.js:103-107 | `leftIndices` is strictly increasing, within `0..r-1`, and holds `i` iff row `i` goes left |
| `TreeBuilder.RightIndicesSelect` | src/index.js:103-107 | `rightIndices` is strictly increasing, within `0..r-1`, and holds `i` iff row `i` does not go left |
| `TreeBuilder.PartitionSizes` | src/index.js:103-107 | the two index lists together have exactly `r` entries |
| `TreeBuilder.PartitionIsOrderedCover` | src/index.js:103-107 | the two lists are ordered, disjoint and together cover exactly `0..r-1`, split by `xCol[i] < cutoff` |
| `TreeBuilder.PartitionRows` | src/index.js:103-107 | the push loop builds exactly `LeftIndices` and `RightIndices` |
| `TreeBuilder.Induce` | src/index.js:88-99 | `_fit` at depth `d` returns a tree of height at most `maxDepth - d` (0 once `d >= maxDepth`) |
| `TreeBuilder.Grow` | src/index.js:100-123 | the node built below depth `d` also keeps within that depth budget |
| `TreeBuilder.Fit` | src/index.js:126-128 | `fit` returns a tree at most `maxDepth` deep, and `null` on a dataset with no rows |
| `TreeBuilder.InduceNodeIff` | src/index.js:89-99 | a node is built exactly when depth < `maxDepth`, there is a row, and the column search made no early return and found a cutoff other than 0 |
| `TreeBuilder.PerfectColumnYieldsNil` | src/index.js:77-98 | if any column splits the rows with score exactly 0, `_fit` returns `null` there |
| `TreeBuilder.SingleRowYieldsNil` | src/index.js:53-98 | a dataset of one row grows `null`: every candidate leaves the left side empty, so no column finds a cutoff |
| `TreeBuilder.NodeRecordsChoice` | src/index.js:96-111 | a node stores the index, entropy and cutoff that `_bestSplitForAll` chose, and its cutoff is not 0 |
| `TreeBuilder.NodeIsBestSplit` | src/index.js:96-111 | a node's column is the first with the lowest best score, its cutoff is that column's cutoff, and its entropy is not 0 and below 10 (above 0 for a positive entropy term) |
| `TreeBuilder.NodeBeatsEveryCandidate` | src/index.js:96-111 | a node's entropy is at most the non-NaN score of every single-column, single-threshold split of its rows |
| `TreeBuilder.SeparatingCutoffShrinksBothSides` | src/index.js:100-107 | a cutoff with a row below it and a row equal to it sends at least one row to each side, so each side has fewer rows than the node |
| `TreeBuilder.InduceRowBound` | src/index.js:88-124 | a tree grown from `n > 0` rows is at most `n - 1` deep, since every node sends rows to both sides |
| `TreeBuilder.InduceWellFormed` | src/index.js:88-124 | every node of a grown tree names an existing column, has a non-zero cutoff, and has an entropy strictly between 0 and 10 |
| `TreeBuilder.ChildWellFormed` | src/index.js:112-121 | a subtree grown from a subset of the rows is well formed for the parent's column count |

## Left out

- `_entropyFunc` and `Math.log2` (src/index.js:8-10) are an uninterpreted
  parameter, not floating-point logarithms. No bound of 1 on a score is
  stated; with the true-label weighting the code has no such bound (see
  "Weighting" under "## Quirks of the code"). The lemmas that need a sign for the term assume it is positive for
  `0 < num < total`.
- Floating point in general: scores are exact reals. NaN appears only as the
  `0/0` of an empty side. No rounding is modelled.
- Feature values are integers. Fractional or NaN feature values are not
  modelled, and so neither is a NaN cutoff being falsy.
- The matrix library (mathjs `matrix`, `subset`, `index`, `map`, `reshape`,
  `clone`, `size`). It is replaced by explicit row and column selection by
  index list (`Column`, `SelectRows`, `Predict`). Three assumptions follow:
  - a selection with an empty index list gives a matrix with no rows;
  - the library's own shape errors (a label column whose length differs from
    the row count, ragged rows) do not occur. The model requires a
    rectangular matrix and one label per row.
  - a selection of one row is still a column of labels. The library may
    squeeze such a selection to a scalar; that is not modelled. In the model
    a one-row subset grows `Nil`: its only candidate threshold leaves the
    left side empty, so no column finds a cutoff (`SingleRowYieldsNil`).
  The first assumption never comes into play: every node sends at least one
  row to each side (`SeparatingCutoffShrinksBothSides`).
- Config.New: `maxDepth` is modelled as an integer, not a JavaScript
  number. A fractional value `m` (say 2.5) is truthy and kept; since
  `depth >= m` first holds at depth `ceil(m)`, it acts as `ceil(m)`, and the
  height bound of `Fit` then reads `ceil(m)`. A falsy argument other than 0
  (`null`, `NaN`, `false`, `''`) is modelled only as the omitted argument
  `None`; other non-number arguments are not modelled.
- Entropy.GetEntropy: array elements are reduced to their truthiness. Any
  non-array argument is one value, `NotArray`.
- `predict` (src/index.js:130-132) is an empty stub with no behaviour.
- The demo script (src/index.js:135-150): it builds a literal 9-row dataset,
  slices it and prints the tree. This is I/O wiring. With the entropy term
  left uninterpreted, the model cannot compute that particular tree.
- Determinism and idempotence of `fit` hold by construction: every operation
  is a function of its inputs. No separate lemma states them.
