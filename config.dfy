/**
 * The `DecisionTree` object itself: the depth limit fixed by its constructor,
 * and the per-class entropy term `_entropyFunc`, which the model keeps
 * uninterpreted (it is `-num/total * log2(num/total)` in floating point).
 */
module Config {
  import opened Wrappers

  /** `_entropyFunc(num, total)`: the contribution of one class of `num` rows out of `total`. */
  type EntropyTerm = (nat, nat) -> real

  /**
   * What the lemmas assume of the entropy term: it is strictly positive
   * whenever it is applied by `_calcEntropy`, that is for 0 < num < total
   * (-p * log2(p) > 0 for 0 < p < 1).
   */
  ghost predicate PositiveTerm(f: EntropyTerm) {
    forall num: nat, total: nat :: 0 < num < total ==> f(num, total) > 0.0
  }

  /** `this` of the source class: `maxDepth` and `_entropyFunc`. Never changed after construction. */
  datatype DecisionTree = DecisionTree(maxDepth: int, entropyFunc: EntropyTerm)

  const DefaultMaxDepth: int := 3

  /**
   * `new DecisionTree(maxDepth)`: `this.maxDepth = maxDepth || 3`.
   * `None` stands for an omitted (undefined) argument; 0 is falsy as well.
   */
  function New(maxDepth: Option<int>, entropyFunc: EntropyTerm): (t: DecisionTree)
    ensures t.entropyFunc == entropyFunc
    ensures t.maxDepth != 0
    ensures maxDepth.None? || maxDepth == Some(0) ==> t.maxDepth == DefaultMaxDepth
    ensures maxDepth.Some? && maxDepth.value != 0 ==> t.maxDepth == maxDepth.value
  {
    match maxDepth
    case Some(d) => if d != 0 then DecisionTree(d, entropyFunc) else DecisionTree(DefaultMaxDepth, entropyFunc)
    case None => DecisionTree(DefaultMaxDepth, entropyFunc)
  }
}
