/**
 * The colour helpers of src/lib/utility/colorUtils.ts: a seven-colour cycle with no special
 * case for any label, and the distinct labels in order of first appearance.
 */
module LegacyColorUtils {
  import opened Sequences
  import opened Fixations
  import ColorUtils

  /** The seven-colour palette; its last entry is the grey. */
  const PALETTE: seq<string> := ["#4477AA", "#EE6677", "#228833", "#CCBB44", "#66CCEE", "#AA3377", "#BBBBBB"]

  /** `assignRandomColorToAoi`: the label at position k gets palette entry k mod 7. */
  function AssignRandomColorToAoi(aois: seq<string>): (r: seq<ColorUtils.AoiColor>)
    ensures |r| == |aois|
    ensures forall k :: 0 <= k < |r| ==> r[k].aoi == aois[k] && r[k].color == PALETTE[k % |PALETTE|]
  {
    seq(|aois|, k requires 0 <= k < |aois| => ColorUtils.AoiColor(aois[k], PALETTE[k % |PALETTE|]))
  }

  /**
   * Colours repeat with period 7, differ between entries less than 7 apart, and the grey
   * goes to positions 6, 13, 20, … whatever their label ("No AOI" included).
   */
  lemma ColorCycle(aois: seq<string>, i: nat, j: nat)
    requires i < j < |aois|
    ensures j - i == 7 ==> AssignRandomColorToAoi(aois)[i].color == AssignRandomColorToAoi(aois)[j].color
    ensures j - i < 7 ==> AssignRandomColorToAoi(aois)[i].color != AssignRandomColorToAoi(aois)[j].color
    ensures AssignRandomColorToAoi(aois)[i].color == "#BBBBBB" <==> i % 7 == 6
  {
    var r := AssignRandomColorToAoi(aois);
    assert Distinct(PALETTE);
    assert r[i].color == PALETTE[i % 7] && r[j].color == PALETTE[j % 7];
    ModSeven(i, j);
  }

  /** Positions less than seven apart have different residues; seven apart, the same one. */
  lemma ModSeven(i: nat, j: nat)
    requires i < j
    ensures j - i < 7 ==> i % 7 != j % 7
    ensures j - i == 7 ==> i % 7 == j % 7
  {
    assert i == 7 * (i / 7) + i % 7 && j == 7 * (j / 7) + j % 7;
  }

  /**
   * `getUniqueAois`: every label of every fixation of every group, untrimmed and including "",
   * each once, in the order in which the traversal first meets it.
   */
  function GetUniqueAois(groups: seq<FixationGroup>): (r: seq<string>)
    ensures Distinct(r)
    ensures forall l :: l in r <==> l in GroupLabels(groups)
  {
    Dedup(GroupLabels(groups))
  }

  /** A label is listed exactly when some fixation of some group carries it. */
  lemma GetUniqueAoisMembership(groups: seq<FixationGroup>, l: string)
    ensures l in GetUniqueAois(groups) <==>
      exists g, k :: 0 <= g < |groups| && 0 <= k < |groups[g].fixations| && l in groups[g].fixations[k].aoi
  {
    GroupLabelsMembership(groups, l);
  }

  /** Labels are listed in the order of their first occurrence in the traversal. */
  lemma GetUniqueAoisOrder(groups: seq<FixationGroup>)
    ensures var r := GetUniqueAois(groups);
      forall i, j :: 0 <= i < j < |r| ==>
        FirstIndex(GroupLabels(groups), r[i]) < FirstIndex(GroupLabels(groups), r[j])
  {
    DedupFirstOccurrenceOrder(GroupLabels(groups));
  }
}
