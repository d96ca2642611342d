/**
 * Threshold search: `_bestSplit` over one column and `_bestSplitForAll`
 * over every column, both as running minimums under strict `<`.
 *
 * Both loops are specified by folds over the sequence of their candidates'
 * results (`RunningMin`, `ScanSplits`), so that the search lemmas are
 * proved once, independently of how a candidate is scored.
 */
module SplitSearch {
  import opened Wrappers
  import opened Config
  import opened Dataset
  import opened Entropy

  /** The initial `entropy` of both searches, above any real entropy. */
  const Sentinel: real := 10.0

  /** JavaScript's `score < bound` when `score` may be NaN (`None`): NaN compares false. */
  predicate Below(score: Option<real>, bound: real) {
    score.Some? && score.value < bound
  }

  /** `score <= bound`, NaN again comparing false. */
  predicate AtMost(score: Option<real>, bound: real) {
    score.Some? && score.value <= bound
  }

  /** `{ entropy, cutoff }` of `_bestSplit`; `cutoff` is `None` while undefined. */
  datatype Split = Split(entropy: real, cutoff: Option<int>)

  /**
   * The loop of `_bestSplit` after the first `k` candidates, where
   * candidate `i` is the value `vals[i]` scoring `scores[i]`.
   */
  function RunningMin(vals: seq<int>, scores: seq<Option<real>>, k: nat): Split
    requires |vals| == |scores| && k <= |vals|
  {
    if k == 0 then Split(Sentinel, None)
    else
      var prev := RunningMin(vals, scores, k - 1);
      if Below(scores[k - 1], prev.entropy) then Split(scores[k - 1].value, Some(vals[k - 1])) else prev
  }

  /** The reported entropy is at most the sentinel and at most every defined candidate score. */
  lemma {:induction false} RunningMinIsMinimum(vals: seq<int>, scores: seq<Option<real>>, k: nat)
    requires |vals| == |scores| && k <= |vals|
    ensures RunningMin(vals, scores, k).entropy <= Sentinel
    ensures forall i :: 0 <= i < k && scores[i].Some? ==> RunningMin(vals, scores, k).entropy <= scores[i].value
  {
    if k > 0 {
      RunningMinIsMinimum(vals, scores, k - 1);
    }
  }

  /**
   * The cutoff stays undefined exactly when no candidate scores below the
   * sentinel, and exactly then the entropy is still the sentinel.
   */
  lemma {:induction false} RunningMinUndefinedIff(vals: seq<int>, scores: seq<Option<real>>, k: nat)
    requires |vals| == |scores| && k <= |vals|
    ensures RunningMin(vals, scores, k).cutoff.None?
            <==> forall i :: 0 <= i < k ==> !Below(scores[i], Sentinel)
    ensures RunningMin(vals, scores, k).cutoff.None? <==> RunningMin(vals, scores, k).entropy == Sentinel
  {
    if k > 0 {
      RunningMinUndefinedIff(vals, scores, k - 1);
      RunningMinIsMinimum(vals, scores, k - 1);
    }
  }

  /**
   * A defined cutoff is the value of the FIRST candidate whose score reaches
   * the minimum: every earlier candidate scored NaN or strictly more.
   */
  lemma {:induction false} RunningMinIsFirstFound(vals: seq<int>, scores: seq<Option<real>>, k: nat)
    requires |vals| == |scores| && k <= |vals|
    ensures var s := RunningMin(vals, scores, k);
            s.cutoff.Some? ==>
              exists i :: 0 <= i < k && vals[i] == s.cutoff.value && scores[i] == Some(s.entropy)
                && forall j :: 0 <= j < i ==> !AtMost(scores[j], s.entropy)
  {
    if k > 0 {
      var prev := RunningMin(vals, scores, k - 1);
      var s := RunningMin(vals, scores, k);
      if Below(scores[k - 1], prev.entropy) {
        RunningMinIsMinimum(vals, scores, k - 1);
        assert s == Split(scores[k - 1].value, Some(vals[k - 1]));
        assert forall j :: 0 <= j < k - 1 ==> !AtMost(scores[j], s.entropy);
      } else {
        assert s == prev;
        RunningMinIsFirstFound(vals, scores, k - 1);
        if s.cutoff.Some? {
          var i :| 0 <= i < k - 1 && vals[i] == s.cutoff.value && scores[i] == Some(s.entropy)
                   && forall j :: 0 <= j < i ==> !AtMost(scores[j], s.entropy);
        }
      }
    }
  }

  /** `col.map(c => c < val)`: which rows a threshold `val` routes left. */
  function Predict(col: seq<int>, val: int): seq<bool> {
    seq(|col|, i requires 0 <= i < |col| => col[i] < val)
  }

  /** The score `getEntropy` gives the candidate threshold `val` on this column. */
  function CandidateScore(t: DecisionTree, col: seq<int>, y: seq<bool>, val: int): Option<real>
    requires |col| == |y|
  {
    Score(t, Tally(Predict(col, val), y))
  }

  /** The scores of the column's own values, in column order. */
  function CandidateScores(t: DecisionTree, col: seq<int>, y: seq<bool>): (scores: seq<Option<real>>)
    requires |col| == |y|
    ensures |scores| == |col|
    ensures forall i :: 0 <= i < |col| ==> scores[i] == CandidateScore(t, col, y, col[i])
  {
    seq(|col|, i requires 0 <= i < |col| => CandidateScore(t, col, y, col[i]))
  }

  /** What `_bestSplit(col, y)` returns. */
  function BestSplitOf(t: DecisionTree, col: seq<int>, y: seq<bool>): Split
    requires |col| == |y|
  {
    RunningMin(col, CandidateScores(t, col, y), |col|)
  }

  /**
   * `_bestSplit` is a first-found argmin over the column's values: its
   * entropy is at most the sentinel and every defined candidate score; its
   * cutoff is undefined exactly when no candidate scores below the sentinel
   * (the entropy then being the sentinel); a defined cutoff is the first
   * column value whose score equals the entropy.
   */
  lemma BestSplitIsFirstMinimum(t: DecisionTree, col: seq<int>, y: seq<bool>)
    requires |col| == |y|
    ensures var s := BestSplitOf(t, col, y);
            var scores := CandidateScores(t, col, y);
            s.entropy <= Sentinel
            && (forall i :: 0 <= i < |col| && scores[i].Some? ==> s.entropy <= scores[i].value)
            && (s.cutoff.None? <==> forall i :: 0 <= i < |col| ==> !Below(scores[i], Sentinel))
            && (s.cutoff.None? <==> s.entropy == Sentinel)
            && (s.cutoff.Some? ==>
                  exists i :: 0 <= i < |col| && col[i] == s.cutoff.value && scores[i] == Some(s.entropy)
                    && forall j :: 0 <= j < i ==> !AtMost(scores[j], s.entropy))
  {
    var scores := CandidateScores(t, col, y);
    RunningMinIsMinimum(col, scores, |col|);
    RunningMinUndefinedIff(col, scores, |col|);
    RunningMinIsFirstFound(col, scores, |col|);
  }

  /**
   * A chosen cutoff really splits its column: it is one of the column's
   * values (so that row goes right) and some row lies strictly below it
   * (an empty left side scores NaN and is never chosen). In particular the
   * column's minimum is never chosen.
   */
  lemma CutoffSplitsColumn(t: DecisionTree, col: seq<int>, y: seq<bool>)
    requires |col| == |y|
    ensures var s := BestSplitOf(t, col, y);
            s.cutoff.Some? ==>
              (exists w :: 0 <= w < |col| && col[w] == s.cutoff.value)
              && (exists j :: 0 <= j < |col| && col[j] < s.cutoff.value)
  {
    var s := BestSplitOf(t, col, y);
    if s.cutoff.Some? {
      var scores := CandidateScores(t, col, y);
      RunningMinIsFirstFound(col, scores, |col|);
      var v := s.cutoff.value;
      var w :| 0 <= w < |col| && col[w] == v && scores[w] == Some(s.entropy);
      assert Score(t, Tally(Predict(col, v), y)).Some?;
      SidesNonEmptyIff(Predict(col, v), y);
    }
  }

  /**
   * A threshold that routes no row left leaves the left side empty, so its
   * score is `0/0 * 0`, NaN, and `score < entropy` rejects it.
   */
  lemma EmptyLeftScoresNaN(t: DecisionTree, col: seq<int>, y: seq<bool>, val: int)
    requires |col| == |y|
    requires forall j :: 0 <= j < |col| ==> val <= col[j]
    ensures CandidateScore(t, col, y, val) == None
    ensures forall bound: real :: !Below(CandidateScore(t, col, y, val), bound)
  {
    SidesNonEmptyIff(Predict(col, val), y);
  }

  /** With a positive entropy term, `_bestSplit` never reports a negative entropy. */
  lemma BestSplitNonNegative(t: DecisionTree, col: seq<int>, y: seq<bool>)
    requires |col| == |y| && PositiveTerm(t.entropyFunc)
    ensures BestSplitOf(t, col, y).entropy >= 0.0
  {
    var s := BestSplitOf(t, col, y);
    var scores := CandidateScores(t, col, y);
    RunningMinUndefinedIff(col, scores, |col|);
    if s.cutoff.Some? {
      RunningMinIsFirstFound(col, scores, |col|);
      var w :| 0 <= w < |col| && scores[w] == Some(s.entropy);
      ScoreNonNegative(t, Tally(Predict(col, col[w]), y));
    }
  }

  /**
   * A column holding a single value has no usable candidate: every
   * candidate leaves the left side empty, so `_bestSplit` returns the
   * sentinel and an undefined cutoff.
   */
  lemma ConstantColumnHasNoSplit(t: DecisionTree, col: seq<int>, y: seq<bool>)
    requires |col| == |y|
    requires forall i, j :: 0 <= i < |col| && 0 <= j < |col| ==> col[i] == col[j]
    ensures BestSplitOf(t, col, y) == Split(Sentinel, None)
  {
    CutoffSplitsColumn(t, col, y);
    RunningMinUndefinedIff(col, CandidateScores(t, col, y), |col|);
  }

  /**
   * `_bestSplit(col, y)`: try every value of the column as a threshold and
   * keep the first one whose score is strictly below the best so far.
   */
  method BestSplit(t: DecisionTree, col: seq<int>, y: seq<bool>) returns (s: Split)
    requires |col| == |y|
    ensures s == BestSplitOf(t, col, y)
  {
    ghost var scores := CandidateScores(t, col, y);
    var entropy := Sentinel;
    var cutoff: Option<int> := None;
    for k := 0 to |col|
      invariant Split(entropy, cutoff) == RunningMin(col, scores, k)
    {
      var val := col[k];
      var predict := Predict(col, val);
      var res := GetEntropy(t, BoolArray(predict), BoolArray(y));
      var score := res.value;
      assert score == scores[k];
      if score.Some? && score.value < entropy {
        entropy := score.value;
        cutoff := Some(val);
      }
    }
    s := Split(entropy, cutoff);
  }

  /**
   * What `_bestSplitForAll` returns: the object `{ index, entropy, cutoff }`
   * after the loop, or the object `{ i, score, currCutoff }` of the early
   * return, whose keys differ.
   */
  datatype Choice =
    | Choice(index: Option<nat>, entropy: real, cutoff: Option<int>)
    | EarlyReturn(i: nat, score: real, currCutoff: Option<int>)

  /** The loop of `_bestSplitForAll` after the first `k` columns, column `i` having best split `splits[i]`. */
  function ScanSplits(splits: seq<Split>, k: nat): Choice
    requires k <= |splits|
  {
    if k == 0 then Choice(None, Sentinel, None)
    else
      var prev := ScanSplits(splits, k - 1);
      if prev.EarlyReturn? then prev
      else
        var s := splits[k - 1];
        if s.entropy == 0.0 then EarlyReturn(k - 1, s.entropy, s.cutoff)
        else if s.entropy < prev.entropy then Choice(Some(k - 1), s.entropy, s.cutoff)
        else prev
  }

  /** Once the scan has returned early, further columns change nothing. */
  lemma {:induction false} EarlyReturnPersists(splits: seq<Split>, k: nat, k2: nat)
    requires k <= k2 <= |splits|
    requires ScanSplits(splits, k).EarlyReturn?
    ensures ScanSplits(splits, k2) == ScanSplits(splits, k)
  {
    if k2 > k {
      EarlyReturnPersists(splits, k, k2 - 1);
    }
  }

  /**
   * The scan returns early exactly when some column's best score is 0, and
   * then at the first such column, carrying that column's cutoff.
   */
  lemma {:induction false} EarlyReturnIffPerfect(splits: seq<Split>, k: nat)
    requires k <= |splits|
    ensures ScanSplits(splits, k).EarlyReturn? <==> exists i :: 0 <= i < k && splits[i].entropy == 0.0
    ensures var c := ScanSplits(splits, k);
            c.EarlyReturn? ==>
              c.i < k && c.score == 0.0 && splits[c.i].entropy == 0.0 && c.currCutoff == splits[c.i].cutoff
              && forall j :: 0 <= j < c.i ==> splits[j].entropy != 0.0
  {
    if k > 0 {
      EarlyReturnIffPerfect(splits, k - 1);
    }
  }

  /** A column result as `_bestSplit` produces it: at most the sentinel, and undefined exactly at the sentinel. */
  predicate Coherent(s: Split) {
    s.entropy <= Sentinel && (s.cutoff.None? <==> s.entropy == Sentinel)
  }

  /**
   * Without an early return the scan is a first-found argmin over columns:
   * `index` and `cutoff` are defined together; when defined, `index` names
   * a column whose best score is `entropy`, no column scores lower and every
   * earlier column scores strictly higher; when undefined, no column found
   * a cutoff and `entropy` is the sentinel.
   */
  lemma {:induction false} ScanIsFirstMinimum(splits: seq<Split>, k: nat)
    requires k <= |splits|
    requires forall i :: 0 <= i < |splits| ==> Coherent(splits[i])
    ensures var c := ScanSplits(splits, k);
            c.Choice? ==>
              (c.index.None? <==> c.cutoff.None?)
              && c.entropy <= Sentinel
              && (forall j :: 0 <= j < k ==> c.entropy <= splits[j].entropy)
              && (c.index.None? ==> c.entropy == Sentinel && forall j :: 0 <= j < k ==> splits[j].cutoff.None?)
              && (c.index.Some? ==>
                    c.index.value < k
                    && splits[c.index.value] == Split(c.entropy, c.cutoff)
                    && c.entropy < Sentinel
                    && forall j :: 0 <= j < c.index.value ==> splits[j].entropy > c.entropy)
  {
    if k > 0 {
      ScanIsFirstMinimum(splits, k - 1);
    }
  }

  /** `_bestSplit` applied to each column of `x`, in column order. */
  function ColumnSplits(t: DecisionTree, x: seq<seq<int>>, y: seq<bool>): (splits: seq<Split>)
    requires Rectangular(x) && |y| == |x|
    ensures |splits| == Width(x)
    ensures forall i :: 0 <= i < Width(x) ==> splits[i] == BestSplitOf(t, Column(x, i), y)
  {
    seq(Width(x), i requires 0 <= i < Width(x) => BestSplitOf(t, Column(x, i), y))
  }

  /** What `_bestSplitForAll(x, y)` returns. */
  function BestSplitForAllOf(t: DecisionTree, x: seq<seq<int>>, y: seq<bool>): Choice
    requires Rectangular(x) && |y| == |x|
  {
    ScanSplits(ColumnSplits(t, x, y), Width(x))
  }

  lemma ColumnSplitsCoherent(t: DecisionTree, x: seq<seq<int>>, y: seq<bool>)
    requires Rectangular(x) && |y| == |x|
    ensures forall i :: 0 <= i < Width(x) ==> Coherent(ColumnSplits(t, x, y)[i])
  {
    forall i | 0 <= i < Width(x)
      ensures Coherent(ColumnSplits(t, x, y)[i])
    {
      BestSplitIsFirstMinimum(t, Column(x, i), y);
    }
  }

  /**
   * `_bestSplitForAll` on a dataset: an early return exactly when some
   * column's best score is 0 (at the first such column); otherwise the
   * first column with the lowest best score, `index`, `entropy` and
   * `cutoff` being that column's, or everything undefined and the sentinel
   * when no column has a cutoff.
   */
  lemma BestSplitForAllIsFirstMinimum(t: DecisionTree, x: seq<seq<int>>, y: seq<bool>)
    requires Rectangular(x) && |y| == |x|
    ensures var c := BestSplitForAllOf(t, x, y);
            var splits := ColumnSplits(t, x, y);
            (c.EarlyReturn? <==> exists i :: 0 <= i < Width(x) && splits[i].entropy == 0.0)
            && (c.EarlyReturn? ==>
                  c.i < Width(x) && splits[c.i] == Split(0.0, c.currCutoff)
                  && forall j :: 0 <= j < c.i ==> splits[j].entropy != 0.0)
            && (c.Choice? ==>
                  (c.index.None? <==> c.cutoff.None?)
                  && (forall j :: 0 <= j < Width(x) ==> c.entropy <= splits[j].entropy)
                  && (c.index.None? ==> c.entropy == Sentinel && forall j :: 0 <= j < Width(x) ==> splits[j].cutoff.None?)
                  && (c.index.Some? ==>
                        c.index.value < Width(x)
                        && splits[c.index.value] == Split(c.entropy, c.cutoff)
                        && 0.0 != c.entropy < Sentinel
                        && forall j :: 0 <= j < c.index.value ==> splits[j].entropy > c.entropy))
  {
    var splits := ColumnSplits(t, x, y);
    ColumnSplitsCoherent(t, x, y);
    EarlyReturnIffPerfect(splits, Width(x));
    ScanIsFirstMinimum(splits, Width(x));
  }

  /** A defined cutoff always comes with the index of a real column, whose own best split it is. */
  lemma ChoiceNamesColumn(t: DecisionTree, x: seq<seq<int>>, y: seq<bool>)
    requires Rectangular(x) && |y| == |x|
    ensures var c := BestSplitForAllOf(t, x, y);
            c.Choice? && c.cutoff.Some? ==>
              c.index.Some? && c.index.value < Width(x)
              && ColumnSplits(t, x, y)[c.index.value] == Split(c.entropy, c.cutoff)
  {
    ColumnSplitsCoherent(t, x, y);
    ScanIsFirstMinimum(ColumnSplits(t, x, y), Width(x));
  }

  /**
   * The cutoff `_bestSplitForAll` takes from column `i` splits that
   * column's rows into two non-empty groups: some row lies strictly below
   * it and some row holds it.
   */
  lemma ColumnCutoffSeparatesRows(t: DecisionTree, x: seq<seq<int>>, y: seq<bool>, i: nat, v: int)
    requires Rectangular(x) && |y| == |x| && i < Width(x)
    requires ColumnSplits(t, x, y)[i].cutoff == Some(v)
    ensures var col := Column(x, i);
            (exists r :: 0 <= r < |col| && col[r] < v) && (exists r :: 0 <= r < |col| && col[r] == v)
  {
    CutoffSplitsColumn(t, Column(x, i), y);
  }

  /** One more column scanned without an early return before it. */
  lemma ScanStep(splits: seq<Split>, i: nat)
    requires i < |splits| && ScanSplits(splits, i).Choice?
    ensures var prev := ScanSplits(splits, i);
            var s := splits[i];
            ScanSplits(splits, i + 1)
            == if s.entropy == 0.0 then EarlyReturn(i, s.entropy, s.cutoff)
               else if s.entropy < prev.entropy then Choice(Some(i), s.entropy, s.cutoff)
               else prev
  {
  }

  /**
   * `_bestSplitForAll(x, y)`: scan the columns in order; return at once on a
   * column whose best score is exactly 0, otherwise keep the first column
   * with the strictly lowest score.
   */
  method BestSplitForAll(t: DecisionTree, x: seq<seq<int>>, y: seq<bool>) returns (c: Choice)
    requires Rectangular(x) && |y| == |x|
    ensures c == BestSplitForAllOf(t, x, y)
  {
    ghost var splits := ColumnSplits(t, x, y);
    var entropy := Sentinel;
    var cutoff: Option<int> := None;
    var index: Option<nat> := None;
    for i := 0 to Width(x)
      invariant ScanSplits(splits, i) == Choice(index, entropy, cutoff)
    {
      var column := Column(x, i);
      var s := BestSplit(t, column, y);
      assert s == splits[i];
      ScanStep(splits, i);
      var score, currCutoff := s.entropy, s.cutoff;
      if score == 0.0 {
        EarlyReturnPersists(splits, i + 1, Width(x));
        return EarlyReturn(i, score, currCutoff);
      } else if score < entropy {
        entropy := score;
        cutoff := currCutoff;
        index := Some(i);
      }
    }
    c := Choice(index, entropy, cutoff);
  }
}
