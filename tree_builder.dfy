/**
 * Tree induction (`_fit` and `fit`): stop on depth, on an empty dataset or
 * on a falsy cutoff; otherwise split the rows on the best threshold and
 * grow both children one level deeper.
 */
module TreeBuilder {
  import opened Wrappers
  import opened Config
  import opened Dataset
  import opened SplitSearch

  /** A fitted node, or `Nil` for the source's `null`. */
  datatype Tree =
    | Nil
    | Node(indexCol: nat, entropy: real, cutoff: int, left: Tree, right: Tree)

  /** Number of split edges on the longest path from the root; `Nil` has none. */
  function Height(tree: Tree): nat {
    match tree
    case Nil => 0
    case Node(_, _, _, l, r) => 1 + (if Height(l) < Height(r) then Height(r) else Height(l))
  }

  predicate Increasing(s: seq<nat>) {
    forall a, b :: 0 <= a < b < |s| ==> s[a] < s[b]
  }

  /** `leftIndices` once the partition loop has visited rows `0..k-1`. */
  function LeftIndices(goesLeft: seq<bool>, k: nat): seq<nat>
    requires k <= |goesLeft|
  {
    if k == 0 then []
    else if goesLeft[k - 1] then LeftIndices(goesLeft, k - 1) + [k - 1]
    else LeftIndices(goesLeft, k - 1)
  }

  /** `rightIndices` once the partition loop has visited rows `0..k-1`. */
  function RightIndices(goesLeft: seq<bool>, k: nat): seq<nat>
    requires k <= |goesLeft|
  {
    if k == 0 then []
    else if goesLeft[k - 1] then RightIndices(goesLeft, k - 1)
    else RightIndices(goesLeft, k - 1) + [k - 1]
  }

  /** `leftIndices` is ordered, names visited rows only, and holds exactly the rows that go left. */
  lemma {:induction false} LeftIndicesSelect(goesLeft: seq<bool>, k: nat)
    requires k <= |goesLeft|
    ensures var l := LeftIndices(goesLeft, k);
            Increasing(l) && InRange(l, k)
            && forall i :: 0 <= i < k ==> (i in l <==> goesLeft[i])
  {
    if k > 0 {
      LeftIndicesSelect(goesLeft, k - 1);
    }
  }

  /** `rightIndices` is ordered, names visited rows only, and holds exactly the rows that do not go left. */
  lemma {:induction false} RightIndicesSelect(goesLeft: seq<bool>, k: nat)
    requires k <= |goesLeft|
    ensures var r := RightIndices(goesLeft, k);
            Increasing(r) && InRange(r, k)
            && forall i :: 0 <= i < k ==> (i in r <==> !goesLeft[i])
  {
    if k > 0 {
      RightIndicesSelect(goesLeft, k - 1);
    }
  }

  /** Every visited row lands in exactly one of the two lists. */
  lemma {:induction false} PartitionSizes(goesLeft: seq<bool>, k: nat)
    requires k <= |goesLeft|
    ensures |LeftIndices(goesLeft, k)| + |RightIndices(goesLeft, k)| == k
  {
    if k > 0 {
      PartitionSizes(goesLeft, k - 1);
    }
  }

  /**
   * The two index lists are strictly increasing, lie in `0..k-1`, and row
   * `i` is in exactly one of them: in `leftIndices` iff it goes left.
   */
  lemma PartitionIsOrderedCover(goesLeft: seq<bool>, k: nat)
    requires k <= |goesLeft|
    ensures var l, r := LeftIndices(goesLeft, k), RightIndices(goesLeft, k);
            Increasing(l) && Increasing(r)
            && InRange(l, k) && InRange(r, k)
            && |l| + |r| == k
            && forall i :: 0 <= i < k ==> (i in l <==> goesLeft[i]) && (i in r <==> !goesLeft[i])
  {
    LeftIndicesSelect(goesLeft, k);
    RightIndicesSelect(goesLeft, k);
    PartitionSizes(goesLeft, k);
  }

  /** Both index lists name rows that exist. */
  lemma PartitionInRange(goesLeft: seq<bool>)
    ensures InRange(LeftIndices(goesLeft, |goesLeft|), |goesLeft|)
    ensures InRange(RightIndices(goesLeft, |goesLeft|), |goesLeft|)
  {
    LeftIndicesSelect(goesLeft, |goesLeft|);
    RightIndicesSelect(goesLeft, |goesLeft|);
  }

  /**
   * The partition loop of `_fit`: push each row index onto `leftIndices`
   * when the row goes left and onto `rightIndices` otherwise.
   */
  method PartitionRows(goesLeft: seq<bool>) returns (leftIndices: seq<nat>, rightIndices: seq<nat>)
    ensures leftIndices == LeftIndices(goesLeft, |goesLeft|)
    ensures rightIndices == RightIndices(goesLeft, |goesLeft|)
  {
    leftIndices, rightIndices := [], [];
    for i := 0 to |goesLeft|
      invariant leftIndices == LeftIndices(goesLeft, i)
      invariant rightIndices == RightIndices(goesLeft, i)
    {
      if goesLeft[i] {
        leftIndices := leftIndices + [i];
      } else {
        rightIndices := rightIndices + [i];
      }
    }
  }

  /** The bound the depth check at the top of `_fit` puts on a subtree grown at `depth`. */
  function DepthBudget(maxDepth: int, depth: nat): nat {
    if depth >= maxDepth then 0 else maxDepth - depth
  }

  /**
   * `_fit(x, y, depth)`, lines 89-99: the three stopping rules. The
   * early-return object of `_bestSplitForAll` has no `cutoff` key, so it
   * stops like an undefined cutoff; a cutoff of 0 is falsy and stops too.
   * The tree is never deeper than the depth budget left.
   */
  function Induce(t: DecisionTree, x: seq<seq<int>>, y: seq<bool>, depth: nat): (tree: Tree)
    requires Rectangular(x) && |y| == |x|
    ensures Height(tree) <= DepthBudget(t.maxDepth, depth)
    decreases t.maxDepth - depth, 1
  {
    if depth >= t.maxDepth then Nil
    else if |x| == 0 then Nil
    else
      var c := BestSplitForAllOf(t, x, y);
      if c.EarlyReturn? || c.cutoff.None? || c.cutoff.value == 0 then Nil
      else
        ChoiceNamesColumn(t, x, y);
        Grow(t, x, y, depth, c.index.value, c.entropy, c.cutoff.value)
  }

  /**
   * `_fit`, lines 100-123: route each row by `xCol[i] < cutoff`, and build
   * the node whose children are grown one level deeper from the left and
   * right row subsets.
   */
  function Grow(t: DecisionTree, x: seq<seq<int>>, y: seq<bool>, depth: nat, index: nat, entropy: real, cutoff: int)
    : (tree: Tree)
    requires Rectangular(x) && |y| == |x| && index < Width(x) && depth < t.maxDepth
    ensures Height(tree) <= DepthBudget(t.maxDepth, depth)
    decreases t.maxDepth - depth, 0
  {
    var goesLeft := Predict(Column(x, index), cutoff);
    var leftIndices := LeftIndices(goesLeft, |goesLeft|);
    var rightIndices := RightIndices(goesLeft, |goesLeft|);
    PartitionInRange(goesLeft);
    SelectRowsRectangular(x, leftIndices);
    SelectRowsRectangular(x, rightIndices);
    Node(index, entropy, cutoff,
      Induce(t, SelectRows(x, leftIndices), SelectRows(y, leftIndices), depth + 1),
      Induce(t, SelectRows(x, rightIndices), SelectRows(y, rightIndices), depth + 1))
  }

  /** `fit(x, y)`: induction from depth 0, so the tree is at most `maxDepth` deep. */
  function Fit(t: DecisionTree, x: seq<seq<int>>, y: seq<bool>): (tree: Tree)
    requires Rectangular(x) && |y| == |x|
    ensures Height(tree) <= (if t.maxDepth > 0 then t.maxDepth else 0)
    ensures |x| == 0 ==> tree == Nil
  {
    Induce(t, x, y, 0)
  }

  /** A subtree exists exactly when none of the three stopping rules of `_fit` applies. */
  lemma InduceNodeIff(t: DecisionTree, x: seq<seq<int>>, y: seq<bool>, depth: nat)
    requires Rectangular(x) && |y| == |x|
    ensures Induce(t, x, y, depth).Node?
            <==> depth < t.maxDepth && |x| > 0
                 && var c := BestSplitForAllOf(t, x, y);
                    c.Choice? && c.cutoff.Some? && c.cutoff.value != 0
  {
  }

  /**
   * If some column splits the rows perfectly (best score exactly 0), the
   * early return of `_bestSplitForAll` hides the split and no node is built.
   */
  lemma PerfectColumnYieldsNil(t: DecisionTree, x: seq<seq<int>>, y: seq<bool>, depth: nat)
    requires Rectangular(x) && |y| == |x|
    requires exists i :: 0 <= i < Width(x) && BestSplitOf(t, Column(x, i), y).entropy == 0.0
    ensures Induce(t, x, y, depth) == Nil
  {
    BestSplitForAllIsFirstMinimum(t, x, y);
  }

  /**
   * A single row is never split: every candidate threshold of every column
   * leaves the left side empty, so no column finds a cutoff.
   */
  lemma SingleRowYieldsNil(t: DecisionTree, x: seq<seq<int>>, y: seq<bool>, depth: nat)
    requires Rectangular(x) && |y| == |x| == 1
    ensures Induce(t, x, y, depth) == Nil
  {
    var splits := ColumnSplits(t, x, y);
    forall i | 0 <= i < Width(x)
      ensures splits[i] == Split(Sentinel, None)
    {
      ConstantColumnHasNoSplit(t, Column(x, i), y);
    }
    BestSplitForAllIsFirstMinimum(t, x, y);
  }

  /** A node carries the index, entropy and cutoff of the choice `_bestSplitForAll` made on its rows. */
  lemma NodeRecordsChoice(t: DecisionTree, x: seq<seq<int>>, y: seq<bool>, depth: nat)
    requires Rectangular(x) && |y| == |x|
    ensures var tree := Induce(t, x, y, depth);
            tree.Node? ==>
              BestSplitForAllOf(t, x, y) == Choice(Some(tree.indexCol), tree.entropy, Some(tree.cutoff))
              && tree.cutoff != 0
  {
    var tree := Induce(t, x, y, depth);
    if tree.Node? {
      var c := BestSplitForAllOf(t, x, y);
      ChoiceNamesColumn(t, x, y);
      assert tree == Grow(t, x, y, depth, c.index.value, c.entropy, c.cutoff.value);
    }
  }

  /**
   * A node records the split `_bestSplitForAll` chose: the first column
   * with the lowest best score, that column's cutoff, never 0, and an
   * entropy strictly between 0 and the sentinel.
   */
  lemma NodeIsBestSplit(t: DecisionTree, x: seq<seq<int>>, y: seq<bool>, depth: nat)
    requires Rectangular(x) && |y| == |x|
    ensures var tree := Induce(t, x, y, depth);
            var splits := ColumnSplits(t, x, y);
            tree.Node? ==>
              tree.indexCol < Width(x)
              && splits[tree.indexCol] == Split(tree.entropy, Some(tree.cutoff))
              && (forall j :: 0 <= j < Width(x) ==> tree.entropy <= splits[j].entropy)
              && (forall j :: 0 <= j < tree.indexCol ==> splits[j].entropy > tree.entropy)
              && tree.cutoff != 0
              && tree.entropy != 0.0 && tree.entropy < Sentinel
              && (PositiveTerm(t.entropyFunc) ==> tree.entropy > 0.0)
  {
    var tree := Induce(t, x, y, depth);
    if tree.Node? {
      NodeRecordsChoice(t, x, y, depth);
      BestSplitForAllIsFirstMinimum(t, x, y);
      if PositiveTerm(t.entropyFunc) {
        BestSplitNonNegative(t, Column(x, tree.indexCol), y);
      }
    }
  }

  /**
   * A node's entropy is at most the score of every single-column,
   * single-threshold split of its rows that has a defined score.
   */
  lemma NodeBeatsEveryCandidate(t: DecisionTree, x: seq<seq<int>>, y: seq<bool>, depth: nat)
    requires Rectangular(x) && |y| == |x|
    ensures var tree := Induce(t, x, y, depth);
            tree.Node? ==>
              forall j, r :: 0 <= j < Width(x) && 0 <= r < |x| && CandidateScore(t, Column(x, j), y, x[r][j]).Some?
                ==> tree.entropy <= CandidateScore(t, Column(x, j), y, x[r][j]).value
  {
    var tree := Induce(t, x, y, depth);
    if tree.Node? {
      NodeIsBestSplit(t, x, y, depth);
      forall j, r | 0 <= j < Width(x) && 0 <= r < |x| && CandidateScore(t, Column(x, j), y, x[r][j]).Some?
        ensures tree.entropy <= CandidateScore(t, Column(x, j), y, x[r][j]).value
      {
        var col := Column(x, j);
        BestSplitIsFirstMinimum(t, col, y);
        assert CandidateScores(t, col, y)[r] == CandidateScore(t, col, y, col[r]);
      }
    }
  }

  /** Splitting on a cutoff that has rows strictly below it and a row equal to it leaves both sides non-empty. */
  lemma SeparatingCutoffShrinksBothSides(col: seq<int>, cutoff: int)
    requires exists r :: 0 <= r < |col| && col[r] < cutoff
    requires exists r :: 0 <= r < |col| && col[r] == cutoff
    ensures var goesLeft := Predict(col, cutoff);
            0 < |LeftIndices(goesLeft, |goesLeft|)| < |col|
            && 0 < |RightIndices(goesLeft, |goesLeft|)| < |col|
  {
    var goesLeft := Predict(col, cutoff);
    LeftIndicesSelect(goesLeft, |goesLeft|);
    RightIndicesSelect(goesLeft, |goesLeft|);
    PartitionSizes(goesLeft, |goesLeft|);
    var a :| 0 <= a < |col| && col[a] < cutoff;
    var b :| 0 <= b < |col| && col[b] == cutoff;
    assert goesLeft[a] && !goesLeft[b];
    assert a in LeftIndices(goesLeft, |goesLeft|);
    assert b in RightIndices(goesLeft, |goesLeft|);
  }

  /**
   * Each node sends at least one row to each side, so a tree grown from
   * `n > 0` rows is at most `n - 1` deep (and a node needs two rows).
   */
  lemma {:induction false} InduceRowBound(t: DecisionTree, x: seq<seq<int>>, y: seq<bool>, depth: nat)
    requires Rectangular(x) && |y| == |x|
    ensures Height(Induce(t, x, y, depth)) <= if |x| == 0 then 0 else |x| - 1
    decreases t.maxDepth - depth
  {
    var tree := Induce(t, x, y, depth);
    if tree.Node? {
      var c := BestSplitForAllOf(t, x, y);
      ChoiceNamesColumn(t, x, y);
      ColumnCutoffSeparatesRows(t, x, y, c.index.value, c.cutoff.value);
      var col := Column(x, c.index.value);
      var goesLeft := Predict(col, c.cutoff.value);
      var l, r := LeftIndices(goesLeft, |goesLeft|), RightIndices(goesLeft, |goesLeft|);
      SeparatingCutoffShrinksBothSides(col, c.cutoff.value);
      PartitionInRange(goesLeft);
      SelectRowsRectangular(x, l);
      SelectRowsRectangular(x, r);
      InduceRowBound(t, SelectRows(x, l), SelectRows(y, l), depth + 1);
      InduceRowBound(t, SelectRows(x, r), SelectRows(y, r), depth + 1);
    }
  }

  /**
   * Every node of a fitted tree names a column of the data, carries a
   * non-zero cutoff and an entropy strictly between 0 and the sentinel.
   */
  ghost predicate WellFormed(tree: Tree, width: nat) {
    match tree
    case Nil => true
    case Node(i, e, v, l, r) =>
      i < width && v != 0 && 0.0 < e < Sentinel && WellFormed(l, width) && WellFormed(r, width)
  }

  /** Every node `_fit` builds satisfies `WellFormed` for the columns of its data. */
  lemma {:induction false} InduceWellFormed(t: DecisionTree, x: seq<seq<int>>, y: seq<bool>, depth: nat)
    requires Rectangular(x) && |y| == |x| && PositiveTerm(t.entropyFunc)
    ensures WellFormed(Induce(t, x, y, depth), Width(x))
    decreases t.maxDepth - depth, 1
  {
    var tree := Induce(t, x, y, depth);
    if tree.Node? {
      NodeIsBestSplit(t, x, y, depth);
      var c := BestSplitForAllOf(t, x, y);
      ChoiceNamesColumn(t, x, y);
      assert tree == Grow(t, x, y, depth, c.index.value, c.entropy, c.cutoff.value);
      var goesLeft := Predict(Column(x, c.index.value), c.cutoff.value);
      var l, r := LeftIndices(goesLeft, |goesLeft|), RightIndices(goesLeft, |goesLeft|);
      PartitionInRange(goesLeft);
      ChildWellFormed(t, x, y, depth, l);
      ChildWellFormed(t, x, y, depth, r);
      assert tree.left == Induce(t, SelectRows(x, l), SelectRows(y, l), depth + 1);
      assert tree.right == Induce(t, SelectRows(x, r), SelectRows(y, r), depth + 1);
    }
  }

  /** The subtree grown from a subset of the rows is well formed for the parent's width. */
  lemma {:induction false} ChildWellFormed(t: DecisionTree, x: seq<seq<int>>, y: seq<bool>, depth: nat, idx: seq<nat>)
    requires Rectangular(x) && |y| == |x| && PositiveTerm(t.entropyFunc) && InRange(idx, |x|)
    requires depth < t.maxDepth
    ensures Rectangular(SelectRows(x, idx))
    ensures WellFormed(Induce(t, SelectRows(x, idx), SelectRows(y, idx), depth + 1), Width(x))
    decreases t.maxDepth - depth, 0
  {
    SelectRowsRectangular(x, idx);
    if |idx| > 0 {
      InduceWellFormed(t, SelectRows(x, idx), SelectRows(y, idx), depth + 1);
    }
  }
}
