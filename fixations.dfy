/** The records the recurrence builders and the CSV reader share. */
module Fixations {
  import opened Wrappers

  /**
   * One fixation: its id, its timestamp (`None` where `parseInt` gave NaN), its AOI labels
   * ("" means "no AOI"; several labels model overlapping regions) and optional coordinates.
   */
  datatype Fixation = Fixation(
    id: int,
    timestamp: Option<int>,
    aoi: seq<string>,
    x: Option<real>,
    y: Option<real>)

  /** The fixations read from one file; `groupLabel` is the source's `label` field (the file name). */
  datatype FixationGroup = FixationGroup(groupLabel: string, fixations: seq<Fixation>)

  /** `fixations.flatMap(fixation => fixation.aoi)`. */
  function FixationLabels(fs: seq<Fixation>): (labels: seq<string>)
    ensures forall l :: l in labels <==> exists k :: 0 <= k < |fs| && l in fs[k].aoi
  {
    if fs == [] then []
    else
      var rest := FixationLabels(fs[1..]);
      assert forall k :: 0 < k < |fs| ==> fs[k] == fs[1..][k - 1];
      fs[0].aoi + rest
  }

  /** `groups.flatMap(group => group.fixations)`. */
  function AllFixations(gs: seq<FixationGroup>): (fs: seq<Fixation>)
    ensures forall f :: f in fs <==> exists g :: 0 <= g < |gs| && f in gs[g].fixations
  {
    if gs == [] then []
    else
      var rest := AllFixations(gs[1..]);
      assert forall g :: 0 < g < |gs| ==> gs[g] == gs[1..][g - 1];
      gs[0].fixations + rest
  }

  /** One step of `FixationLabels`: the first fixation's labels, then the rest. */
  lemma FixationLabelsCons(f: Fixation, fs: seq<Fixation>)
    ensures FixationLabels([f] + fs) == f.aoi + FixationLabels(fs)
  {
    assert ([f] + fs)[1..] == fs;
  }

  /** Labels come out fixation by fixation: a concatenation yields the two parts' labels in order. */
  lemma {:induction false} FixationLabelsConcat(a: seq<Fixation>, b: seq<Fixation>)
    ensures FixationLabels(a + b) == FixationLabels(a) + FixationLabels(b)
  {
    if a == [] {
      assert a + b == b;
    } else {
      var t := a[1..];
      assert a == [a[0]] + t;
      assert a + b == [a[0]] + (t + b);
      FixationLabelsCons(a[0], t + b);
      FixationLabelsCons(a[0], t);
      FixationLabelsConcat(t, b);
      assert a[0].aoi + (FixationLabels(t) + FixationLabels(b))
          == (a[0].aoi + FixationLabels(t)) + FixationLabels(b);
    }
  }

  /** One step of `AllFixations`: the first group's fixations, then the rest. */
  lemma AllFixationsCons(g: FixationGroup, gs: seq<FixationGroup>)
    ensures AllFixations([g] + gs) == g.fixations + AllFixations(gs)
  {
    assert ([g] + gs)[1..] == gs;
  }

  /** Fixations come out group by group: a concatenation yields the two parts' fixations in order. */
  lemma {:induction false} AllFixationsConcat(a: seq<FixationGroup>, b: seq<FixationGroup>)
    ensures AllFixations(a + b) == AllFixations(a) + AllFixations(b)
  {
    if a == [] {
      assert a + b == b;
    } else {
      var t := a[1..];
      assert a == [a[0]] + t;
      assert a + b == [a[0]] + (t + b);
      AllFixationsCons(a[0], t + b);
      AllFixationsCons(a[0], t);
      AllFixationsConcat(t, b);
      assert a[0].fixations + (AllFixations(t) + AllFixations(b))
          == (a[0].fixations + AllFixations(t)) + AllFixations(b);
    }
  }

  /** Every label of every fixation of every group, in traversal order. */
  function GroupLabels(gs: seq<FixationGroup>): seq<string> {
    FixationLabels(AllFixations(gs))
  }

  /** A label is listed exactly when some fixation of some group carries it. */
  lemma GroupLabelsMembership(gs: seq<FixationGroup>, l: string)
    ensures l in GroupLabels(gs) <==>
      exists g, k :: 0 <= g < |gs| && 0 <= k < |gs[g].fixations| && l in gs[g].fixations[k].aoi
  {
    var fs := AllFixations(gs);
    if l in GroupLabels(gs) {
      var k :| 0 <= k < |fs| && l in fs[k].aoi;
      assert fs[k] in fs;
      var g :| 0 <= g < |gs| && fs[k] in gs[g].fixations;
      var k' :| 0 <= k' < |gs[g].fixations| && gs[g].fixations[k'] == fs[k];
    }
    if exists g, k :: 0 <= g < |gs| && 0 <= k < |gs[g].fixations| && l in gs[g].fixations[k].aoi {
      var g, k :| 0 <= g < |gs| && 0 <= k < |gs[g].fixations| && l in gs[g].fixations[k].aoi;
      var f := gs[g].fixations[k];
      assert f in fs;
      var j :| 0 <= j < |fs| && fs[j] == f;
    }
  }
}
