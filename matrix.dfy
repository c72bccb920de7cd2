/**
 * The weights matrix: a 2-D array whose rows are benchmarks and whose columns
 * are events. Only its shape and the order of its entries are modelled.
 */
module Matrices {

  type Matrix<T> = seq<seq<T>>

  /** Every row has `n` entries: the matrix is `|m|` by `n`. */
  ghost predicate HasColumns<T>(m: Matrix<T>, n: nat)
  {
    forall r :: 0 <= r < |m| ==> |m[r]| == n
  }

  /**
   * `np.hstack([a, b])` for two 2-D arrays with the same number of rows:
   * each row of `a` followed by the same row of `b`.
   */
  function HStack<T>(a: Matrix<T>, b: Matrix<T>): (r: Matrix<T>)
    requires |a| == |b|
    ensures |r| == |a|
    ensures forall i :: 0 <= i < |r| ==>
      |r[i]| == |a[i]| + |b[i]| && r[i][..|a[i]|] == a[i] && r[i][|a[i]|..] == b[i]
  {
    seq(|a|, i requires 0 <= i < |a| => a[i] + b[i])
  }

  /** Stacking an `n`-column and an `m`-column matrix side by side gives `n + m` columns. */
  lemma HStackColumns<T>(a: Matrix<T>, b: Matrix<T>, n: nat, m: nat)
    requires |a| == |b| && HasColumns(a, n) && HasColumns(b, m)
    ensures HasColumns(HStack(a, b), n + m)
  {
  }
}
