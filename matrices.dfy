/**
 * Shape properties of recurrence matrices. The source's `number[][]` is modelled as a
 * rectangular `array2<int>`, indexed `m[row, column]`.
 */
module Matrices {

  /** An n-by-n matrix. */
  predicate IsSquare(m: array2<int>, n: int) {
    m.Length0 == n && m.Length1 == n
  }

  /** Every cell is 0 or 1. */
  ghost predicate IsBinary(m: array2<int>)
    reads m
  {
    forall i, j :: 0 <= i < m.Length0 && 0 <= j < m.Length1 ==> m[i, j] == 0 || m[i, j] == 1
  }

  /** Every diagonal cell is 1. */
  ghost predicate HasUnitDiagonal(m: array2<int>)
    reads m
  {
    forall i :: 0 <= i < m.Length0 && i < m.Length1 ==> m[i, i] == 1
  }

  /** A square matrix equal to its transpose. */
  ghost predicate IsSymmetric(m: array2<int>)
    reads m
  {
    m.Length0 == m.Length1 &&
    forall i, j :: 0 <= i < m.Length0 && 0 <= j < m.Length0 ==> m[i, j] == m[j, i]
  }
}
