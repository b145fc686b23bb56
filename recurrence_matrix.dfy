/**
 * The two recurrence-matrix builders of src/lib/utils/recurrenceMatrix.ts: by shared AOI
 * label, and by spatial proximity between fixations of different contiguous groups.
 */
module RecurrenceMatrix {
  import opened Wrappers
  import opened Fixations
  import opened Matrices

  // ---------------------------------------------------------------------------------------
  // Recurrence by shared AOI label
  // ---------------------------------------------------------------------------------------

  /** `a.some(aoi => aoi !== "" && b.includes(aoi))`. */
  function SharesLabel(a: seq<string>, b: seq<string>): (r: bool)
    ensures r <==> exists k :: 0 <= k < |a| && a[k] != "" && a[k] in b
  {
    if a == [] then false
    else
      assert forall k :: 0 < k < |a| ==> a[k] == a[1..][k - 1];
      (a[0] != "" && a[0] in b) || SharesLabel(a[1..], b)
  }

  /** Sharing a non-empty label is a symmetric relation. */
  lemma SharesLabelSymmetric(a: seq<string>, b: seq<string>)
    ensures SharesLabel(a, b) == SharesLabel(b, a)
  {
    if SharesLabel(a, b) {
      var k :| 0 <= k < |a| && a[k] != "" && a[k] in b;
      var k' :| 0 <= k' < |b| && b[k'] == a[k];
    }
    if SharesLabel(b, a) {
      var k :| 0 <= k < |b| && b[k] != "" && b[k] in a;
      var k' :| 0 <= k' < |a| && a[k'] == b[k];
    }
  }

  /** Cell (i, j) of the AOI recurrence matrix (lines 17-22). */
  function AoiCell(fs: seq<Fixation>, i: nat, j: nat): (c: int)
    requires i < |fs| && j < |fs|
    ensures c == 0 || c == 1
    ensures c == 1 <==> i == j || exists l :: l != "" && l in fs[i].aoi && l in fs[j].aoi
  {
    if i == j then 1 else if SharesLabel(fs[i].aoi, fs[j].aoi) then 1 else 0
  }

  /** The AOI relation is symmetric. */
  lemma AoiCellSymmetric(fs: seq<Fixation>, i: nat, j: nat)
    requires i < |fs| && j < |fs|
    ensures AoiCell(fs, i, j) == AoiCell(fs, j, i)
  {
    SharesLabelSymmetric(fs[i].aoi, fs[j].aoi);
  }

  /** A fixation whose labels are all "" is recurrent with nothing but itself, in its row and column. */
  lemma UnlabelledRecursOnlyWithItself(fs: seq<Fixation>, i: nat, j: nat)
    requires i < |fs| && j < |fs| && i != j
    requires forall k :: 0 <= k < |fs[i].aoi| ==> fs[i].aoi[k] == ""
    ensures AoiCell(fs, i, j) == 0 && AoiCell(fs, j, i) == 0
  {
    AoiCellSymmetric(fs, i, j);
  }

  /** `computeRecurrenceMatrix`: the n-by-n AOI recurrence matrix, filled row by row. */
  method ComputeRecurrenceMatrix(fixations: seq<Fixation>) returns (matrix: array2<int>)
    ensures fresh(matrix)
    ensures IsSquare(matrix, |fixations|)
    ensures forall i, j :: 0 <= i < |fixations| && 0 <= j < |fixations| ==>
      matrix[i, j] == AoiCell(fixations, i, j)
    ensures IsBinary(matrix) && HasUnitDiagonal(matrix) && IsSymmetric(matrix)
  {
    var n := |fixations|;
    matrix := new int[n, n]((i, j) => 0);
    for i := 0 to n
      invariant forall r, c :: 0 <= r < i && 0 <= c < n ==> matrix[r, c] == AoiCell(fixations, r, c)
    {
      for j := 0 to n
        invariant forall r, c :: 0 <= r < i && 0 <= c < n ==> matrix[r, c] == AoiCell(fixations, r, c)
        invariant forall c :: 0 <= c < j ==> matrix[i, c] == AoiCell(fixations, i, c)
      {
        if i == j {
          matrix[i, j] := 1;
        } else {
          var sharedAoi := SharesLabel(fixations[i].aoi, fixations[j].aoi);
          matrix[i, j] := if sharedAoi then 1 else 0;
        }
      }
    }
    forall i, j | 0 <= i < n && 0 <= j < n ensures matrix[i, j] == matrix[j, i] {
      AoiCellSymmetric(fixations, i, j);
    }
  }

  // ---------------------------------------------------------------------------------------
  // Recurrence by proximity
  // ---------------------------------------------------------------------------------------

  /** The distance reported when a coordinate is missing. */
  const SENTINEL_DISTANCE: real := 999.0

  /** The default threshold of `computeEuclideanRecurrenceMatrix`. */
  const DEFAULT_THRESHOLD: real := 100.0

  /** A coordinate that passes JavaScript's truthiness test: present and not 0. */
  predicate Truthy(c: Option<real>) {
    c.Some? && c.value != 0.0
  }

  /** Both coordinates of the fixation are usable by `euclideanDistance`. */
  predicate HasCoordinates(f: Fixation) {
    Truthy(f.x) && Truthy(f.y)
  }

  /**
   * A distance as `euclideanDistance` returns it: the sentinel 999, or the square root of
   * `squared` (kept unevaluated; only comparisons with a threshold are needed).
   */
  datatype Distance = Sentinel | Root(squared: real)

  /**
   * `euclideanDistance` (lines 36-42): the sentinel exactly when one of the four coordinates
   * is missing or 0; otherwise a non-negative squared distance.
   */
  function EuclideanDistance(a: Fixation, b: Fixation): (d: Distance)
    ensures d.Sentinel? <==> !HasCoordinates(a) || !HasCoordinates(b)
    ensures d.Root? ==> d.squared >= 0.0
  {
    if !Truthy(a.x) || !Truthy(a.y) || !Truthy(b.x) || !Truthy(b.y) then Sentinel
    else
      var dx := a.x.value - b.x.value;
      var dy := a.y.value - b.y.value;
      Root(dx * dx + dy * dy)
  }

  /** `distance < threshold`; for a root, sqrt(s) < t holds exactly when 0 <= t and s < t * t. */
  predicate Below(d: Distance, threshold: real) {
    match d
    case Sentinel => SENTINEL_DISTANCE < threshold
    case Root(s) => 0.0 <= threshold && s < threshold * threshold
  }

  /** The two fixations are within the threshold of each other. */
  predicate Close(a: Fixation, b: Fixation, threshold: real) {
    Below(EuclideanDistance(a, b), threshold)
  }

  /**
   * `Below` on a root is the comparison `Math.sqrt(s) < threshold`: whenever `q` is the
   * non-negative square root of `s`, `Below(Root(s), t)` holds exactly when `q < t`.
   */
  lemma BelowMeansRootBelow(s: real, q: real, threshold: real)
    requires q >= 0.0 && q * q == s
    ensures Below(Root(s), threshold) <==> q < threshold
  {
    if q < threshold {
      calc {
        s;
      ==
        q * q;
      <= { assert q * (threshold - q) >= 0.0; }
        q * threshold;
      < { assert (threshold - q) * threshold > 0.0; }
        threshold * threshold;
      }
    } else if 0.0 <= threshold {
      calc {
        threshold * threshold;
      <= { assert threshold * (q - threshold) >= 0.0; }
        threshold * q;
      <= { assert (q - threshold) * q >= 0.0; }
        q * q;
      }
    }
  }

  /** The distance does not depend on the order of its arguments. */
  lemma DistanceSymmetric(a: Fixation, b: Fixation)
    ensures EuclideanDistance(a, b) == EuclideanDistance(b, a)
  {
    if HasCoordinates(a) && HasCoordinates(b) {
      var dx := a.x.value - b.x.value;
      var dy := a.y.value - b.y.value;
      assert (-dx) * (-dx) == dx * dx;
      assert (-dy) * (-dy) == dy * dy;
    }
  }

  /** With a threshold of at most 999, a fixation without usable coordinates is close to nothing. */
  lemma SentinelNeverClose(a: Fixation, b: Fixation, threshold: real)
    requires threshold <= SENTINEL_DISTANCE
    requires !HasCoordinates(a) || !HasCoordinates(b)
    ensures !Close(a, b, threshold)
  {
  }

  /** Fixation k (k >= 1) stays in the group of fixation k - 1 (line 67). */
  predicate Joins(fs: seq<Fixation>, threshold: real, k: nat)
    requires 0 < k < |fs|
  {
    Close(fs[k], fs[k - 1], threshold)
  }

  /** The group index the grouping pass (lines 61-73) gives fixation i. */
  function GroupOf(fs: seq<Fixation>, threshold: real, i: nat): (g: nat)
    requires i < |fs|
    ensures g <= i
  {
    if i == 0 then 0
    else if Joins(fs, threshold, i) then GroupOf(fs, threshold, i - 1)
    else GroupOf(fs, threshold, i - 1) + 1
  }

  /** Group indices never decrease along the sequence. */
  lemma {:induction false} GroupsMonotone(fs: seq<Fixation>, threshold: real, i: nat, j: nat)
    requires i <= j < |fs|
    ensures GroupOf(fs, threshold, i) <= GroupOf(fs, threshold, j)
    decreases j
  {
    if i < j {
      GroupsMonotone(fs, threshold, i, j - 1);
    }
  }

  /**
   * Groups are contiguous runs: fixations i <= j share a group exactly when every fixation
   * after i up to j joined the group of its predecessor.
   */
  lemma {:induction false} SameGroupIff(fs: seq<Fixation>, threshold: real, i: nat, j: nat)
    requires i <= j < |fs|
    ensures GroupOf(fs, threshold, i) == GroupOf(fs, threshold, j) <==>
      forall k :: i < k <= j ==> Joins(fs, threshold, k)
    decreases j
  {
    if i < j {
      SameGroupIff(fs, threshold, i, j - 1);
      GroupsMonotone(fs, threshold, i, j - 1);
    }
  }

  /** A fixation without usable coordinates, or after one, opens a new group when threshold <= 999. */
  lemma SentinelStartsGroup(fs: seq<Fixation>, threshold: real, i: nat)
    requires 0 < i < |fs| && threshold <= SENTINEL_DISTANCE
    requires !HasCoordinates(fs[i]) || !HasCoordinates(fs[i - 1])
    ensures GroupOf(fs, threshold, i) == GroupOf(fs, threshold, i - 1) + 1
  {
    SentinelNeverClose(fs[i], fs[i - 1], threshold);
  }

  /** The grouping pass: `groupIndices` after lines 61-73 (only reached when n > 0). */
  method AssignGroups(fixations: seq<Fixation>, threshold: real) returns (groupIndices: array<int>)
    requires |fixations| > 0
    ensures fresh(groupIndices)
    ensures groupIndices.Length == |fixations|
    ensures forall i :: 0 <= i < |fixations| ==> groupIndices[i] == GroupOf(fixations, threshold, i)
  {
    var n := |fixations|;
    groupIndices := new int[n];
    var currentGroup := 0;
    groupIndices[0] := currentGroup;
    for i := 1 to n
      invariant currentGroup == GroupOf(fixations, threshold, i - 1)
      invariant forall k {:trigger groupIndices[k]} :: 0 <= k < i ==> groupIndices[k] == GroupOf(fixations, threshold, k)
    {
      if Joins(fixations, threshold, i) {
        groupIndices[i] := currentGroup;
      } else {
        currentGroup := currentGroup + 1;
        groupIndices[i] := currentGroup;
      }
    }
  }

  /** Cell (i, j) of the proximity recurrence matrix (lines 78-89). */
  function EuclideanCell(fs: seq<Fixation>, threshold: real, i: nat, j: nat): (c: int)
    requires i < |fs| && j < |fs|
    ensures c == 0 || c == 1
  {
    if i == j then 1
    else if Close(fs[i], fs[j], threshold) then
      (if GroupOf(fs, threshold, i) == GroupOf(fs, threshold, j) then 0 else 1)
    else 0
  }

  /** The proximity relation is symmetric. */
  lemma EuclideanCellSymmetric(fs: seq<Fixation>, threshold: real, i: nat, j: nat)
    requires i < |fs| && j < |fs|
    ensures EuclideanCell(fs, threshold, i, j) == EuclideanCell(fs, threshold, j, i)
  {
    DistanceSymmetric(fs[i], fs[j]);
  }

  /**
   * For i < j, the pair is recurrent exactly when the two fixations are close and some
   * fixation between them, after i and up to j, opened a new group.
   */
  lemma EuclideanCellIff(fs: seq<Fixation>, threshold: real, i: nat, j: nat)
    requires i < j < |fs|
    ensures EuclideanCell(fs, threshold, i, j) == 1 <==>
      Close(fs[i], fs[j], threshold) && exists k :: i < k <= j && !Joins(fs, threshold, k)
  {
    SameGroupIff(fs, threshold, i, j);
  }

  /** Consecutive fixations are never recurrent with each other. */
  lemma ConsecutiveNeverRecurrent(fs: seq<Fixation>, threshold: real, i: nat)
    requires i + 1 < |fs|
    ensures EuclideanCell(fs, threshold, i, i + 1) == 0
    ensures EuclideanCell(fs, threshold, i + 1, i) == 0
  {
    DistanceSymmetric(fs[i], fs[i + 1]);
  }

  /** With threshold <= 999, a fixation without usable coordinates recurs only with itself. */
  lemma SentinelNeverRecurrent(fs: seq<Fixation>, threshold: real, i: nat, j: nat)
    requires i < |fs| && j < |fs| && i != j && threshold <= SENTINEL_DISTANCE
    requires !HasCoordinates(fs[i])
    ensures EuclideanCell(fs, threshold, i, j) == 0 && EuclideanCell(fs, threshold, j, i) == 0
  {
    SentinelNeverClose(fs[i], fs[j], threshold);
    SentinelNeverClose(fs[j], fs[i], threshold);
  }

  /** `computeEuclideanRecurrenceMatrix`: grouping pass, then the n-by-n matrix row by row. */
  method ComputeEuclideanRecurrenceMatrix(fixations: seq<Fixation>, threshold: real)
    returns (matrix: array2<int>)
    ensures fresh(matrix)
    ensures IsSquare(matrix, |fixations|)
    ensures forall i, j :: 0 <= i < |fixations| && 0 <= j < |fixations| ==>
      matrix[i, j] == EuclideanCell(fixations, threshold, i, j)
    ensures IsBinary(matrix) && HasUnitDiagonal(matrix) && IsSymmetric(matrix)
    ensures forall i, j :: 0 <= i && j == i + 1 < |fixations| ==> matrix[i, j] == 0 && matrix[j, i] == 0
  {
    var n := |fixations|;
    matrix := new int[n, n]((i, j) => 0);
    if n == 0 {
      return;
    }
    var groupIndices := AssignGroups(fixations, threshold);
    for i := 0 to n
      modifies matrix
      invariant forall r, c :: 0 <= r < i && 0 <= c < n ==>
        matrix[r, c] == EuclideanCell(fixations, threshold, r, c)
    {
      for j := 0 to n
        modifies matrix
        invariant forall r, c :: 0 <= r < i && 0 <= c < n ==>
          matrix[r, c] == EuclideanCell(fixations, threshold, r, c)
        invariant forall c :: 0 <= c < j ==> matrix[i, c] == EuclideanCell(fixations, threshold, i, c)
      {
        if i == j {
          matrix[i, j] := 1;
        } else {
          var close := Close(fixations[i], fixations[j], threshold);
          if close {
            matrix[i, j] := if groupIndices[i] == groupIndices[j] then 0 else 1;
          } else {
            matrix[i, j] := 0;
          }
        }
      }
    }
    forall i, j | 0 <= i < n && 0 <= j < n ensures matrix[i, j] == matrix[j, i] {
      EuclideanCellSymmetric(fixations, threshold, i, j);
    }
    forall i, j | 0 <= i && j == i + 1 < n ensures matrix[i, j] == 0 && matrix[j, i] == 0 {
      ConsecutiveNeverRecurrent(fixations, threshold, i);
    }
  }

  /** `computeEuclideanRecurrenceMatrix(fixations)` called without a threshold: 100 is used. */
  method ComputeEuclideanRecurrenceMatrixDefault(fixations: seq<Fixation>) returns (matrix: array2<int>)
    ensures fresh(matrix)
    ensures IsSquare(matrix, |fixations|)
    ensures forall i, j :: 0 <= i < |fixations| && 0 <= j < |fixations| ==>
      matrix[i, j] == EuclideanCell(fixations, DEFAULT_THRESHOLD, i, j)
  {
    matrix := ComputeEuclideanRecurrenceMatrix(fixations, DEFAULT_THRESHOLD);
  }
}
