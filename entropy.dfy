/**
 * Split scoring (`_calcEntropy` and `getEntropy`): tally the rows of a
 * candidate split into four counters and combine the two sides' entropies.
 */
module Entropy {
  import opened Wrappers
  import opened Config

  /** The counter object `m`: a = rows predicted left, b = rows predicted right. */
  datatype Counts = Counts(aTrue: nat, aFalse: nat, bTrue: nat, bFalse: nat)

  /** An argument of `getEntropy`: an array (of truthiness values) or anything else. */
  datatype Input = BoolArray(items: seq<bool>) | NotArray

  /** The two errors `getEntropy` throws. */
  datatype EntropyError = ExpectArray | LengthInconsistent

  /**
   * `_calcEntropy(classA, classB)`: a side with either class count 0 (falsy)
   * is pure and scores 0; otherwise the two class terms over their total.
   */
  function CalcEntropy(t: DecisionTree, classA: nat, classB: nat): (h: real)
    ensures classA == 0 || classB == 0 ==> h == 0.0
    ensures PositiveTerm(t.entropyFunc) ==> (h > 0.0 <==> classA > 0 && classB > 0)
  {
    if classA == 0 || classB == 0 then 0.0
    else
      var total := classA + classB;
      t.entropyFunc(classA, total) + t.entropyFunc(classB, total)
  }

  /** The counter one row increments. */
  function Bump(m: Counts, goesLeft: bool, truth: bool): Counts {
    if goesLeft then
      if truth then m.(aTrue := m.aTrue + 1) else m.(aFalse := m.aFalse + 1)
    else
      if truth then m.(bTrue := m.bTrue + 1) else m.(bFalse := m.bFalse + 1)
  }

  /** The counters after the `forEach` has visited the first `k` rows. */
  function TallyUpTo(predict: seq<bool>, actual: seq<bool>, k: nat): (m: Counts)
    requires |predict| == |actual| && k <= |predict|
    ensures m.aTrue + m.aFalse + m.bTrue + m.bFalse == k
  {
    if k == 0 then Counts(0, 0, 0, 0)
    else Bump(TallyUpTo(predict, actual, k - 1), predict[k - 1], actual[k - 1])
  }

  function Tally(predict: seq<bool>, actual: seq<bool>): Counts
    requires |predict| == |actual|
  {
    TallyUpTo(predict, actual, |predict|)
  }

  /** Positions among the first `k` rows predicted to `side` whose label is `truth`. */
  function RowsWhere(predict: seq<bool>, actual: seq<bool>, k: nat, side: bool, truth: bool): set<nat>
    requires |predict| == |actual| && k <= |predict|
  {
    set i: nat | i < k && predict[i] == side && actual[i] == truth
  }

  lemma RowsWhereStep(predict: seq<bool>, actual: seq<bool>, k: nat, side: bool, truth: bool)
    requires |predict| == |actual| && k < |predict|
    ensures |RowsWhere(predict, actual, k + 1, side, truth)|
         == |RowsWhere(predict, actual, k, side, truth)|
            + (if predict[k] == side && actual[k] == truth then 1 else 0)
  {
    var before := RowsWhere(predict, actual, k, side, truth);
    var after := RowsWhere(predict, actual, k + 1, side, truth);
    var added: set<nat> := if predict[k] == side && actual[k] == truth then {k} else {};
    forall i | i in after ensures i in before + added {
    }
    forall i | i in before + added ensures i in after {
    }
    assert after == before + added;
    assert before * added == {};
  }

  /** The counter of rows predicted to `side` with label `truth`. */
  function Counter(m: Counts, side: bool, truth: bool): nat {
    if side then (if truth then m.aTrue else m.aFalse)
    else (if truth then m.bTrue else m.bFalse)
  }

  lemma {:induction false} CounterCountsRows(predict: seq<bool>, actual: seq<bool>, k: nat, side: bool, truth: bool)
    requires |predict| == |actual| && k <= |predict|
    ensures Counter(TallyUpTo(predict, actual, k), side, truth) == |RowsWhere(predict, actual, k, side, truth)|
  {
    if k == 0 {
      assert RowsWhere(predict, actual, 0, side, truth) == {};
    } else {
      CounterCountsRows(predict, actual, k - 1, side, truth);
      RowsWhereStep(predict, actual, k - 1, side, truth);
    }
  }

  /** Each counter counts exactly the rows of its (side, label) combination. */
  lemma TallyCountsRows(predict: seq<bool>, actual: seq<bool>, k: nat)
    requires |predict| == |actual| && k <= |predict|
    ensures TallyUpTo(predict, actual, k).aTrue == |RowsWhere(predict, actual, k, true, true)|
    ensures TallyUpTo(predict, actual, k).aFalse == |RowsWhere(predict, actual, k, true, false)|
    ensures TallyUpTo(predict, actual, k).bTrue == |RowsWhere(predict, actual, k, false, true)|
    ensures TallyUpTo(predict, actual, k).bFalse == |RowsWhere(predict, actual, k, false, false)|
  {
    CounterCountsRows(predict, actual, k, true, true);
    CounterCountsRows(predict, actual, k, true, false);
    CounterCountsRows(predict, actual, k, false, true);
    CounterCountsRows(predict, actual, k, false, false);
  }

  lemma RowsWhereNonEmptyIff(predict: seq<bool>, actual: seq<bool>, side: bool, truth: bool)
    requires |predict| == |actual|
    ensures |RowsWhere(predict, actual, |predict|, side, truth)| > 0
            <==> exists i :: 0 <= i < |predict| && predict[i] == side && actual[i] == truth
  {
    var rows := RowsWhere(predict, actual, |predict|, side, truth);
    if exists i :: 0 <= i < |predict| && predict[i] == side && actual[i] == truth {
      var i :| 0 <= i < |predict| && predict[i] == side && actual[i] == truth;
      assert i in rows;
    }
    if |rows| > 0 {
      var i :| i in rows;
      assert 0 <= i < |predict| && predict[i] == side && actual[i] == truth;
    }
  }

  /** A counter is non-zero exactly when some row has its (side, label) combination. */
  lemma TallyWitness(predict: seq<bool>, actual: seq<bool>)
    requires |predict| == |actual|
    ensures Tally(predict, actual).aTrue > 0 <==> exists i :: 0 <= i < |predict| && predict[i] && actual[i]
    ensures Tally(predict, actual).aFalse > 0 <==> exists i :: 0 <= i < |predict| && predict[i] && !actual[i]
    ensures Tally(predict, actual).bTrue > 0 <==> exists i :: 0 <= i < |predict| && !predict[i] && actual[i]
    ensures Tally(predict, actual).bFalse > 0 <==> exists i :: 0 <= i < |predict| && !predict[i] && !actual[i]
  {
    var n := |predict|;
    TallyCountsRows(predict, actual, n);
    RowsWhereNonEmptyIff(predict, actual, true, true);
    RowsWhereNonEmptyIff(predict, actual, true, false);
    RowsWhereNonEmptyIff(predict, actual, false, true);
    RowsWhereNonEmptyIff(predict, actual, false, false);
  }

  /** The left (a) side is empty exactly when no row is predicted left; likewise the right (b) side. */
  lemma SidesNonEmptyIff(predict: seq<bool>, actual: seq<bool>)
    requires |predict| == |actual|
    ensures Tally(predict, actual).aTrue + Tally(predict, actual).aFalse > 0
            <==> exists i :: 0 <= i < |predict| && predict[i]
    ensures Tally(predict, actual).bTrue + Tally(predict, actual).bFalse > 0
            <==> exists i :: 0 <= i < |predict| && !predict[i]
  {
    TallyWitness(predict, actual);
  }

  /**
   * Lines 48-50: each side's entropy weighted by that side's fraction of
   * TRUE labels, then summed. A side with no rows makes `0 / 0`, so the sum
   * is NaN, modelled as `None`.
   */
  function Score(t: DecisionTree, m: Counts): (s: Option<real>)
    ensures s.None? <==> m.aTrue + m.aFalse == 0 || m.bTrue + m.bFalse == 0
  {
    if m.aTrue + m.aFalse == 0 || m.bTrue + m.bFalse == 0 then None
    else
      var a := (m.aTrue as real) / ((m.aTrue + m.aFalse) as real) * CalcEntropy(t, m.aTrue, m.aFalse);
      var b := (m.bTrue as real) / ((m.bTrue + m.bFalse) as real) * CalcEntropy(t, m.bTrue, m.bFalse);
      Some(a + b)
  }

  lemma WeightedTermSign(w: nat, n: nat, h: real)
    requires 0 < n && w <= n && h >= 0.0
    ensures (w as real) / (n as real) * h >= 0.0
    ensures w > 0 && h > 0.0 ==> (w as real) / (n as real) * h > 0.0
  {
    var q := (w as real) / (n as real);
    assert q >= 0.0;
    assert w > 0 ==> q > 0.0;
  }

  /** A defined score is never negative. */
  lemma ScoreNonNegative(t: DecisionTree, m: Counts)
    requires PositiveTerm(t.entropyFunc)
    ensures Score(t, m).Some? ==> Score(t, m).value >= 0.0
  {
    if Score(t, m).Some? {
      WeightedTermSign(m.aTrue, m.aTrue + m.aFalse, CalcEntropy(t, m.aTrue, m.aFalse));
      WeightedTermSign(m.bTrue, m.bTrue + m.bFalse, CalcEntropy(t, m.bTrue, m.bFalse));
    }
  }

  /** Two sides with rows score exactly 0 iff each side holds only one class. */
  lemma ScoreZeroIffPure(t: DecisionTree, m: Counts)
    requires PositiveTerm(t.entropyFunc)
    requires m.aTrue + m.aFalse > 0 && m.bTrue + m.bFalse > 0
    ensures Score(t, m) == Some(0.0)
            <==> (m.aTrue == 0 || m.aFalse == 0) && (m.bTrue == 0 || m.bFalse == 0)
  {
    WeightedTermSign(m.aTrue, m.aTrue + m.aFalse, CalcEntropy(t, m.aTrue, m.aFalse));
    WeightedTermSign(m.bTrue, m.bTrue + m.bFalse, CalcEntropy(t, m.bTrue, m.bFalse));
  }

  /** Every row predicted to the same side carries the same truth. */
  ghost predicate PerfectPrediction(predict: seq<bool>, actual: seq<bool>)
    requires |predict| == |actual|
  {
    forall i, j :: 0 <= i < |predict| && 0 <= j < |predict| && predict[i] == predict[j] ==> actual[i] == actual[j]
  }

  /**
   * On the rows themselves: when both sides receive rows, the score is 0
   * exactly when the prediction separates the labels perfectly.
   */
  lemma ScoreZeroIffPerfectPrediction(t: DecisionTree, predict: seq<bool>, actual: seq<bool>)
    requires PositiveTerm(t.entropyFunc) && |predict| == |actual|
    requires exists i :: 0 <= i < |predict| && predict[i]
    requires exists i :: 0 <= i < |predict| && !predict[i]
    ensures Score(t, Tally(predict, actual)) == Some(0.0) <==> PerfectPrediction(predict, actual)
  {
    var m := Tally(predict, actual);
    TallyWitness(predict, actual);
    ScoreZeroIffPure(t, m);
  }

  /**
   * `getEntropy(predict, real)`: throws unless both arguments are arrays of
   * one length; otherwise counts every row into one of the four counters
   * and returns the score of those counts.
   */
  method GetEntropy(t: DecisionTree, predict: Input, actual: Input) returns (r: Result<Option<real>, EntropyError>)
    ensures predict.NotArray? || actual.NotArray? ==> r == Err(ExpectArray)
    ensures predict.BoolArray? && actual.BoolArray? && |predict.items| != |actual.items|
            ==> r == Err(LengthInconsistent)
    ensures predict.BoolArray? && actual.BoolArray? && |predict.items| == |actual.items|
            ==> r == Ok(Score(t, Tally(predict.items, actual.items)))
  {
    if predict.NotArray? || actual.NotArray? {
      return Err(ExpectArray);
    }
    if |predict.items| != |actual.items| {
      return Err(LengthInconsistent);
    }
    var p, y := predict.items, actual.items;
    var m := Counts(0, 0, 0, 0);
    var i := 0;
    while i < |p|
      invariant 0 <= i <= |p|
      invariant m == TallyUpTo(p, y, i)
    {
      if p[i] {
        if y[i] {
          m := m.(aTrue := m.aTrue + 1);
        } else {
          m := m.(aFalse := m.aFalse + 1);
        }
      } else {
        if y[i] {
          m := m.(bTrue := m.bTrue + 1);
        } else {
          m := m.(bFalse := m.bFalse + 1);
        }
      }
      i := i + 1;
    }
    r := Ok(Score(t, m));
  }
}
