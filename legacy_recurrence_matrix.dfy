/**
 * The AOI recurrence builder of src/lib/utility/recurrenceMatrix.ts, a second copy of the one
 * in src/lib/utils/recurrenceMatrix.ts. It is specified by the same cell function, so the two
 * copies produce equal matrices for every input.
 */
module LegacyRecurrenceMatrix {
  import opened Fixations
  import opened Matrices
  import RecurrenceMatrix

  /** `computeRecurrenceMatrix`: the n-by-n AOI recurrence matrix, filled row by row. */
  method ComputeRecurrenceMatrix(fixations: seq<Fixation>) returns (matrix: array2<int>)
    ensures fresh(matrix)
    ensures IsSquare(matrix, |fixations|)
    ensures forall i, j :: 0 <= i < |fixations| && 0 <= j < |fixations| ==>
      matrix[i, j] == RecurrenceMatrix.AoiCell(fixations, i, j)
    ensures IsBinary(matrix) && HasUnitDiagonal(matrix) && IsSymmetric(matrix)
  {
    var n := |fixations|;
    matrix := new int[n, n]((i, j) => 0);
    for i := 0 to n
      invariant forall r, c :: 0 <= r < i && 0 <= c < n ==>
        matrix[r, c] == RecurrenceMatrix.AoiCell(fixations, r, c)
    {
      for j := 0 to n
        invariant forall r, c :: 0 <= r < i && 0 <= c < n ==>
          matrix[r, c] == RecurrenceMatrix.AoiCell(fixations, r, c)
        invariant forall c :: 0 <= c < j ==> matrix[i, c] == RecurrenceMatrix.AoiCell(fixations, i, c)
      {
        if i == j {
          matrix[i, j] := 1;
        } else {
          var sharedAoi := RecurrenceMatrix.SharesLabel(fixations[i].aoi, fixations[j].aoi);
          matrix[i, j] := if sharedAoi then 1 else 0;
        }
      }
    }
    forall i, j | 0 <= i < n && 0 <= j < n ensures matrix[i, j] == matrix[j, i] {
      RecurrenceMatrix.AoiCellSymmetric(fixations, i, j);
    }
  }
}
