/**
 * `computeRQAMetrics` of src/lib/utility/recurrenceMetrics.ts: one pass over the matrix that
 * counts 1-cells, 1-cells whose upper-left neighbour is 1 and 1-cells whose upper neighbour
 * is 1, followed by three divisions.
 */
module RecurrenceMetrics {
  import opened Matrices

  /** A JavaScript number produced by dividing two counts. */
  datatype JsNumber = Finite(value: real) | NaN | Infinity

  /** `num / den` in JavaScript for non-negative integers: 0 / 0 is NaN, k / 0 is Infinity. */
  function Divide(num: nat, den: nat): (q: JsNumber)
    ensures q.Finite? <==> den > 0
    ensures q.NaN? <==> num == 0 && den == 0
    ensures q.Finite? ==> q.value * den as real == num as real
  {
    if den > 0 then Finite(num as real / den as real)
    else if num == 0 then NaN
    else Infinity
  }

  /** The object `computeRQAMetrics` returns. */
  datatype RqaMetrics = RqaMetrics(recurrenceRate: JsNumber, determinism: JsNumber, laminarity: JsNumber)

  /** The three kinds of cell the pass counts. */
  datatype Pattern = Recurrent | Diagonal | Vertical

  /** `matrix[i][j] === 1`; a cell beyond the end of its row reads as `undefined`. */
  predicate IsOne(m: array2<int>, i: int, j: int)
    reads m
  {
    0 <= i < m.Length0 && 0 <= j < m.Length1 && m[i, j] == 1
  }

  /** Cell (i, j) is counted for pattern `p` (lines 15, 19 and 24). */
  predicate Matches(m: array2<int>, p: Pattern, i: int, j: int)
    reads m
  {
    IsOne(m, i, j) &&
    match p
    case Recurrent => true
    case Diagonal => i > 0 && j > 0 && IsOne(m, i - 1, j - 1)
    case Vertical => i > 0 && IsOne(m, i - 1, j)
  }

  /** The number of columns c < j of row i that match `p`. */
  function RowCount(m: array2<int>, p: Pattern, i: nat, j: nat): (c: nat)
    reads m
    ensures c <= j
  {
    if j == 0 then 0 else RowCount(m, p, i, j - 1) + (if Matches(m, p, i, j - 1) then 1 else 0)
  }

  /** The number of matching cells in rows 0 .. rows-1, columns 0 .. n-1, where n is the row count. */
  function Count(m: array2<int>, p: Pattern, rows: nat): (c: nat)
    reads m
    ensures c <= rows * m.Length0
  {
    if rows == 0 then 0
    else
      var c := Count(m, p, rows - 1) + RowCount(m, p, rows - 1, m.Length0);
      assert (rows - 1) * m.Length0 + m.Length0 == rows * m.Length0;
      c
  }

  /** The count over the whole matrix. */
  function Total(m: array2<int>, p: Pattern): nat
    reads m
  {
    Count(m, p, m.Length0)
  }

  /**
   * What `computeRQAMetrics` returns for `m`: the recurrence rate is NaN exactly for the
   * empty matrix, determinism and laminarity exactly when no cell is 1.
   */
  function MetricsOf(m: array2<int>): (r: RqaMetrics)
    reads m
    ensures r.recurrenceRate.NaN? <==> m.Length0 == 0
    ensures r.determinism.NaN? <==> Total(m, Recurrent) == 0
    ensures r.laminarity.NaN? <==> Total(m, Recurrent) == 0
  {
    var n := m.Length0;
    CountBelowRecurrent(m, Diagonal, n);
    CountBelowRecurrent(m, Vertical, n);
    RqaMetrics(
      Divide(Total(m, Recurrent), n * n),
      Divide(Total(m, Diagonal), Total(m, Recurrent)),
      Divide(Total(m, Vertical), Total(m, Recurrent)))
  }

  /** A quotient of counts with the numerator at most the positive denominator lies in [0, 1]. */
  lemma DivideInUnitInterval(num: nat, den: nat)
    requires num <= den && den > 0
    ensures Divide(num, den).Finite?
    ensures 0.0 <= Divide(num, den).value <= 1.0
  {
    var q := num as real / den as real;
    assert q * den as real == num as real;
  }

  /** A count restricted to a pattern that implies `Recurrent` never exceeds the recurrent count. */
  lemma {:induction false} RowCountBelowRecurrent(m: array2<int>, p: Pattern, i: nat, j: nat)
    ensures RowCount(m, p, i, j) <= RowCount(m, Recurrent, i, j)
  {
    if j > 0 {
      RowCountBelowRecurrent(m, p, i, j - 1);
    }
  }

  /** `diagonalLines <= recurrenceRate` and `verticalLines <= recurrenceRate` at every row boundary. */
  lemma {:induction false} CountBelowRecurrent(m: array2<int>, p: Pattern, rows: nat)
    ensures Count(m, p, rows) <= Count(m, Recurrent, rows)
  {
    if rows > 0 {
      CountBelowRecurrent(m, p, rows - 1);
      RowCountBelowRecurrent(m, p, rows - 1, m.Length0);
    }
  }

  /** A matching cell before column j makes the row count positive. */
  lemma {:induction false} RowCountPositive(m: array2<int>, p: Pattern, i: nat, j: nat, c: nat)
    requires c < j && Matches(m, p, i, c)
    ensures RowCount(m, p, i, j) >= 1
  {
    if c < j - 1 {
      RowCountPositive(m, p, i, j - 1, c);
    }
  }

  /** With every diagonal cell 1, each row holds at least one 1-cell, so the count is at least n. */
  lemma {:induction false} UnitDiagonalCount(m: array2<int>, rows: nat)
    requires rows <= m.Length0 <= m.Length1
    requires HasUnitDiagonal(m)
    ensures Count(m, Recurrent, rows) >= rows
  {
    if rows > 0 {
      UnitDiagonalCount(m, rows - 1);
      RowCountPositive(m, Recurrent, rows - 1, m.Length0, rows - 1);
    }
  }

  /**
   * Ratios are never Infinity; with n >= 1 the recurrence rate lies in [0, 1]; with at least
   * one 1-cell determinism and laminarity lie in [0, 1]; with n = 0 all three are NaN.
   */
  lemma MetricsRange(m: array2<int>)
    ensures !MetricsOf(m).recurrenceRate.Infinity?
    ensures !MetricsOf(m).determinism.Infinity? && !MetricsOf(m).laminarity.Infinity?
    ensures m.Length0 > 0 ==>
      MetricsOf(m).recurrenceRate.Finite? && 0.0 <= MetricsOf(m).recurrenceRate.value <= 1.0
    ensures Total(m, Recurrent) > 0 ==>
      && MetricsOf(m).determinism.Finite? && 0.0 <= MetricsOf(m).determinism.value <= 1.0
      && MetricsOf(m).laminarity.Finite? && 0.0 <= MetricsOf(m).laminarity.value <= 1.0
    ensures m.Length0 == 0 ==> MetricsOf(m) == RqaMetrics(NaN, NaN, NaN)
  {
    var n := m.Length0;
    var total := Total(m, Recurrent);
    CountBelowRecurrent(m, Diagonal, n);
    CountBelowRecurrent(m, Vertical, n);
    if n > 0 {
      DivideInUnitInterval(total, n * n);
    }
    if total > 0 {
      DivideInUnitInterval(Total(m, Diagonal), total);
      DivideInUnitInterval(Total(m, Vertical), total);
    }
  }

  /** On any matrix with a unit diagonal and n >= 1 (every builder's output) no ratio is NaN. */
  lemma UnitDiagonalMetricsFinite(m: array2<int>)
    requires 0 < m.Length0 <= m.Length1 && HasUnitDiagonal(m)
    ensures MetricsOf(m).recurrenceRate.Finite?
    ensures MetricsOf(m).determinism.Finite? && MetricsOf(m).laminarity.Finite?
  {
    UnitDiagonalCount(m, m.Length0);
    MetricsRange(m);
  }

  /** The n-by-n identity matrix. */
  ghost predicate IsIdentity(m: array2<int>)
    reads m
  {
    m.Length0 == m.Length1 &&
    forall i, j :: 0 <= i < m.Length0 && 0 <= j < m.Length1 ==> m[i, j] == if i == j then 1 else 0
  }

  /** In row i of the identity matrix, column i is the only 1-cell. */
  lemma {:induction false} IdentityRowCounts(m: array2<int>, i: nat, j: nat)
    requires IsIdentity(m) && i < m.Length0 && j <= m.Length0
    ensures RowCount(m, Recurrent, i, j) == if i < j then 1 else 0
    ensures RowCount(m, Diagonal, i, j) == if 0 < i < j then 1 else 0
    ensures RowCount(m, Vertical, i, j) == 0
  {
    if j > 0 {
      IdentityRowCounts(m, i, j - 1);
    }
  }

  /** The identity matrix has n 1-cells, n - 1 of them diagonal continuations, none vertical. */
  lemma {:induction false} IdentityCounts(m: array2<int>, rows: nat)
    requires IsIdentity(m) && 0 < rows <= m.Length0
    ensures Count(m, Recurrent, rows) == rows
    ensures Count(m, Diagonal, rows) == rows - 1
    ensures Count(m, Vertical, rows) == 0
  {
    IdentityRowCounts(m, rows - 1, m.Length0);
    if rows > 1 {
      IdentityCounts(m, rows - 1);
    }
  }

  /** On the n-by-n identity: recurrence rate 1/n, determinism (n-1)/n, laminarity 0. */
  lemma IdentityMetrics(m: array2<int>)
    requires IsIdentity(m) && m.Length0 > 0
    ensures MetricsOf(m) == RqaMetrics(
      Finite(1.0 / m.Length0 as real),
      Finite((m.Length0 - 1) as real / m.Length0 as real),
      Finite(0.0))
  {
    var n := m.Length0;
    IdentityCounts(m, n);
    assert Total(m, Recurrent) == n && Total(m, Diagonal) == n - 1 && Total(m, Vertical) == 0;
    RateOfN(n);
  }

  /** n one-cells out of n * n give a rate of 1 / n. */
  lemma RateOfN(n: nat)
    requires n > 0
    ensures Divide(n, n * n) == Finite(1.0 / n as real)
  {
    assert (n * n) as real == n as real * n as real;
    CancelSquare(n as real);
  }

  /** x / (x * x) == 1 / x for positive x. */
  lemma CancelSquare(x: real)
    requires x > 0.0
    ensures x / (x * x) == 1.0 / x
  {
    assert (1.0 / x) * (x * x) == x;
  }

  /** `computeRQAMetrics`: the counting pass over the matrix, which it only reads. */
  method ComputeRqaMetrics(matrix: array2<int>) returns (metrics: RqaMetrics)
    ensures metrics == MetricsOf(matrix)
    ensures matrix.Length0 > 0 ==>
      metrics.recurrenceRate.Finite? && 0.0 <= metrics.recurrenceRate.value <= 1.0
    ensures Total(matrix, Recurrent) > 0 ==>
      && metrics.determinism.Finite? && 0.0 <= metrics.determinism.value <= 1.0
      && metrics.laminarity.Finite? && 0.0 <= metrics.laminarity.value <= 1.0
    ensures matrix.Length0 == 0 ==> metrics == RqaMetrics(NaN, NaN, NaN)
  {
    var n := matrix.Length0;
    var recurrenceRate, diagonalLines, verticalLines := 0, 0, 0;
    for i := 0 to n
      invariant recurrenceRate == Count(matrix, Recurrent, i)
      invariant diagonalLines == Count(matrix, Diagonal, i)
      invariant verticalLines == Count(matrix, Vertical, i)
    {
      for j := 0 to n
        invariant recurrenceRate == Count(matrix, Recurrent, i) + RowCount(matrix, Recurrent, i, j)
        invariant diagonalLines == Count(matrix, Diagonal, i) + RowCount(matrix, Diagonal, i, j)
        invariant verticalLines == Count(matrix, Vertical, i) + RowCount(matrix, Vertical, i, j)
      {
        if j < matrix.Length1 && matrix[i, j] == 1 {
          recurrenceRate := recurrenceRate + 1;
          if i > 0 && j > 0 && matrix[i - 1, j - 1] == 1 {
            diagonalLines := diagonalLines + 1;
          }
          if i > 0 && matrix[i - 1, j] == 1 {
            verticalLines := verticalLines + 1;
          }
        }
      }
    }
    metrics := RqaMetrics(
      Divide(recurrenceRate, n * n),
      Divide(diagonalLines, recurrenceRate),
      Divide(verticalLines, recurrenceRate));
    MetricsRange(matrix);
  }
}
