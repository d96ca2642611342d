/**
 * The feature matrix as a sequence of rows, and the row and column selection
 * the source delegates to its matrix library (`subset` with an index list).
 */
module Dataset {

  /** Number of feature columns; a matrix with no rows is treated as having none. */
  function Width(x: seq<seq<int>>): nat {
    if |x| == 0 then 0 else |x[0]|
  }

  /** Every row has the same number of columns. */
  predicate Rectangular(x: seq<seq<int>>) {
    forall r :: 0 <= r < |x| ==> |x[r]| == Width(x)
  }

  /** `x.subset(index([0..rows-1], i))`: column `i` read top to bottom. */
  function Column(x: seq<seq<int>>, i: nat): (c: seq<int>)
    requires Rectangular(x) && i < Width(x)
    ensures |c| == |x|
    ensures forall r :: 0 <= r < |x| ==> c[r] == x[r][i]
  {
    seq(|x|, r requires 0 <= r < |x| => x[r][i])
  }

  predicate InRange(idx: seq<nat>, n: nat) {
    forall k :: 0 <= k < |idx| ==> idx[k] < n
  }

  /** `subset(index(idx, ...))` on rows: the rows at the listed positions, in list order. */
  function SelectRows<T>(x: seq<T>, idx: seq<nat>): (s: seq<T>)
    requires InRange(idx, |x|)
    ensures |s| == |idx|
    ensures forall k :: 0 <= k < |idx| ==> s[k] == x[idx[k]]
  {
    seq(|idx|, k requires 0 <= k < |idx| => x[idx[k]])
  }

  /** Selecting whole rows keeps the matrix rectangular and, unless no row is kept, of the same width. */
  lemma SelectRowsRectangular(x: seq<seq<int>>, idx: seq<nat>)
    requires Rectangular(x) && InRange(idx, |x|)
    ensures Rectangular(SelectRows(x, idx))
    ensures |idx| > 0 ==> Width(SelectRows(x, idx)) == Width(x)
  {
  }
}
