/**
 * The colour helpers of src/lib/utils/colorUtils.ts: palette assignment, the list of distinct
 * AOI labels shown in the legend, the hex/RGB parser and serialiser, and the gradient loop.
 */
module ColorUtils {
  import opened Wrappers
  import opened Text
  import opened Sequences
  import opened Fixations

  /** The twelve-colour colourblind-friendly palette. */
  const PALETTE: seq<string> := [
    "#4477AA", "#EE6677", "#228833", "#CCBB44", "#66CCEE", "#AA3377",
    "#EE8866", "#44BB99", "#BBCC33", "#99DDFF", "#BB4444", "#99AA77"]

  /** The label of fixations outside every AOI, and the grey it is drawn in. */
  const NO_AOI: string := "No AOI"
  const NO_AOI_COLOR: string := "#BBBBBB"

  /** One `{aoi, color}` entry. */
  datatype AoiColor = AoiColor(aoi: string, color: string)

  /** `assignRandomColorToAoi`: "No AOI" is grey; the label at position k gets palette entry k mod 12. */
  function AssignRandomColorToAoi(aois: seq<string>): (r: seq<AoiColor>)
    ensures |r| == |aois|
    ensures forall k :: 0 <= k < |r| ==> r[k].aoi == aois[k]
    ensures forall k :: 0 <= k < |r| && aois[k] != NO_AOI ==> r[k].color == PALETTE[k % |PALETTE|]
    ensures forall k :: 0 <= k < |r| && aois[k] == NO_AOI ==> r[k].color == NO_AOI_COLOR
  {
    seq(|aois|, k requires 0 <= k < |aois| =>
      AoiColor(aois[k], if aois[k] == NO_AOI then NO_AOI_COLOR else PALETTE[k % |PALETTE|]))
  }

  /** The palette has no repeated colour and does not contain the "No AOI" grey. */
  lemma PaletteDistinct()
    ensures |PALETTE| == 12 && Distinct(PALETTE) && NO_AOI_COLOR !in PALETTE
  {
  }

  /** An entry is grey exactly when its label is "No AOI". */
  lemma GreyOnlyForNoAoi(aois: seq<string>, k: nat)
    requires k < |aois|
    ensures AssignRandomColorToAoi(aois)[k].color == NO_AOI_COLOR <==> aois[k] == NO_AOI
  {
    PaletteDistinct();
  }

  /**
   * Labels other than "No AOI" less than twelve positions apart get different colours, and
   * labels exactly twelve positions apart get the same one.
   */
  lemma PaletteCycle(aois: seq<string>, i: nat, j: nat)
    requires i < j < |aois| && aois[i] != NO_AOI && aois[j] != NO_AOI
    ensures j - i < 12 ==> AssignRandomColorToAoi(aois)[i].color != AssignRandomColorToAoi(aois)[j].color
    ensures j - i == 12 ==> AssignRandomColorToAoi(aois)[i].color == AssignRandomColorToAoi(aois)[j].color
  {
    PaletteDistinct();
    var r := AssignRandomColorToAoi(aois);
    assert r[i].color == PALETTE[i % 12] && r[j].color == PALETTE[j % 12];
    ModTwelve(i, j);
  }

  /** Positions less than twelve apart have different residues; twelve apart, the same one. */
  lemma ModTwelve(i: nat, j: nat)
    requires i < j
    ensures j - i < 12 ==> i % 12 != j % 12
    ensures j - i == 12 ==> i % 12 == j % 12
  {
    var qi, qj := i / 12, j / 12;
    assert i == 12 * qi + i % 12 && j == 12 * qj + j % 12;
  }

  /** Not the empty string. */
  predicate NonEmpty(s: string) {
    s != ""
  }

  /**
   * `getUniqueAois`: the trimmed, non-empty labels of every fixation of every group, without
   * repeats, sorted by the comparator `leq` (the source's `localeCompare`), then "No AOI".
   */
  function GetUniqueAois(groups: seq<FixationGroup>, leq: (string, string) -> bool): (r: seq<string>)
    ensures |r| >= 1 && r[|r| - 1] == NO_AOI
    ensures Distinct(r[..|r| - 1])
    ensures AllNonEmptyTrimmed(r[..|r| - 1])
    ensures forall l :: l in r[..|r| - 1] <==> l != "" && IsTrimmedLabel(GroupLabels(groups), l)
  {
    var labels := UniqueLabels(GroupLabels(groups), leq);
    assert (labels + [NO_AOI])[..|labels|] == labels;
    labels + [NO_AOI]
  }

  /** Every entry is non-empty and has no whitespace at either end. */
  predicate AllNonEmptyTrimmed(labels: seq<string>) {
    forall k :: 0 <= k < |labels| ==> labels[k] != "" && IsTrimmed(labels[k])
  }

  /** `l` is the trimmed form of one of `labels`. */
  ghost predicate IsTrimmedLabel(labels: seq<string>, l: string) {
    exists x :: x in labels && Trim(x) == l
  }

  /** The sorted distinct trimmed non-empty labels, before "No AOI" is appended. */
  function UniqueLabels(labels: seq<string>, leq: (string, string) -> bool): (r: seq<string>)
    ensures Distinct(r)
    ensures AllNonEmptyTrimmed(r)
    ensures forall l :: l in r <==> l != "" && IsTrimmedLabel(labels, l)
  {
    var unique := Dedup(Filter(TrimAll(labels), NonEmpty));
    SortKeepsDistinct(unique, leq);
    SortedLabelsMembership(labels, leq);
    Sort(unique, leq)
  }

  /** Sorting keeps exactly the values of its input. */
  lemma SortMembership<T>(s: seq<T>, leq: (T, T) -> bool, x: T)
    ensures x in Sort(s, leq) <==> x in s
  {
    assert multiset(Sort(s, leq)) == multiset(s);
    assert x in Sort(s, leq) <==> x in multiset(Sort(s, leq));
  }

  /** The trimmed labels are exactly the trimmed forms of the labels, and are trimmed. */
  lemma TrimmedMembership(labels: seq<string>, l: string)
    ensures l in TrimAll(labels) <==> IsTrimmedLabel(labels, l)
    ensures l in TrimAll(labels) ==> IsTrimmed(l)
  {
    var trimmed := TrimAll(labels);
    if l in trimmed {
      var k :| 0 <= k < |trimmed| && trimmed[k] == l;
      assert labels[k] in labels;
    }
    if IsTrimmedLabel(labels, l) {
      var x :| x in labels && Trim(x) == l;
      var k :| 0 <= k < |labels| && labels[k] == x;
      assert trimmed[k] == l;
    }
  }

  /** The sorted list holds the non-empty trimmed labels, each trimmed. */
  lemma SortedLabelsMembership(labels: seq<string>, leq: (string, string) -> bool)
    ensures var r := Sort(Dedup(Filter(TrimAll(labels), NonEmpty)), leq);
      && (forall l :: l in r <==> l != "" && IsTrimmedLabel(labels, l))
      && AllNonEmptyTrimmed(r)
  {
    var trimmed := TrimAll(labels);
    var unique := Dedup(Filter(trimmed, NonEmpty));
    var r := Sort(unique, leq);
    forall l ensures l in r <==> l != "" && IsTrimmedLabel(labels, l) {
      SortMembership(unique, leq, l);
      TrimmedMembership(labels, l);
    }
    forall k | 0 <= k < |r| ensures r[k] != "" && IsTrimmed(r[k]) {
      assert r[k] in r;
      SortMembership(unique, leq, r[k]);
      TrimmedMembership(labels, r[k]);
    }
  }

  /** With a comparator that is a total preorder, the labels before "No AOI" are sorted. */
  lemma GetUniqueAoisSorted(groups: seq<FixationGroup>, leq: (string, string) -> bool)
    requires TotalPreorder(leq)
    ensures var r := GetUniqueAois(groups, leq); SortedBy(r[..|r| - 1], leq)
  {
    var labels := UniqueLabels(GroupLabels(groups), leq);
    SortSorted(Dedup(Filter(TrimAll(GroupLabels(groups)), NonEmpty)), leq);
    assert (labels + [NO_AOI])[..|labels|] == labels;
  }

  /** The characters the regular expression `[a-f\d]` accepts under the `i` flag. */
  predicate IsHexDigit(c: char) {
    '0' <= c <= '9' || 'a' <= c <= 'f' || 'A' <= c <= 'F'
  }

  /** The value of one hexadecimal digit, as `parseInt(_, 16)` reads it. */
  function HexValue(c: char): (v: nat)
    requires IsHexDigit(c)
    ensures v < 16
  {
    if '0' <= c <= '9' then c as int - '0' as int
    else if 'a' <= c <= 'f' then c as int - 'a' as int + 10
    else c as int - 'A' as int + 10
  }

  /** The lower-case digit `Number.prototype.toString(16)` writes for a value below 16. */
  function HexChar(v: nat): (c: char)
    requires v < 16
    ensures IsHexDigit(c) && HexValue(c) == v
  {
    if v < 10 then ('0' as int + v) as char else ('a' as int + v - 10) as char
  }

  /** Reading a digit and writing it back gives the digit in lower case. */
  lemma HexCharOfValue(c: char)
    requires IsHexDigit(c)
    ensures HexChar(HexValue(c)) == LowerChar(c)
  {
  }

  /** Six hexadecimal digits. */
  predicate IsHexDigits(d: string) {
    |d| == 6 && forall k :: 0 <= k < 6 ==> IsHexDigit(d[k])
  }

  /** The six digits that `/^#?([a-f\d]{2})([a-f\d]{2})([a-f\d]{2})$/i` captures, if it matches. */
  function HexDigitsOf(hex: string): (r: Option<string>)
    ensures r.Some? ==> IsHexDigits(r.value) && (hex == r.value || hex == "#" + r.value)
    ensures (IsHexDigits(hex) || (|hex| > 0 && hex[0] == '#' && IsHexDigits(hex[1..]))) <==> r.Some?
  {
    if IsHexDigits(hex) then Some(hex)
    else if |hex| == 7 && hex[0] == '#' && IsHexDigits(hex[1..]) then Some(hex[1..])
    else None
  }

  /** An RGB triple. */
  datatype Rgb = Rgb(r: int, g: int, b: int)

  /** Components between 0 and 255. */
  predicate IsByteTriple(c: Rgb) {
    0 <= c.r <= 255 && 0 <= c.g <= 255 && 0 <= c.b <= 255
  }

  /** `parseInt(pair, 16)` for a two-digit capture group. */
  function PairValue(hi: char, lo: char): (v: nat)
    requires IsHexDigit(hi) && IsHexDigit(lo)
    ensures v <= 255
  {
    16 * HexValue(hi) + HexValue(lo)
  }

  /** `hexToRgb`: the three byte values when the text matches, [0, 0, 0] otherwise. */
  function HexToRgb(hex: string): (c: Rgb)
    ensures IsByteTriple(c)
    ensures HexDigitsOf(hex).None? ==> c == Rgb(0, 0, 0)
  {
    match HexDigitsOf(hex)
    case None => Rgb(0, 0, 0)
    case Some(d) => Rgb(PairValue(d[0], d[1]), PairValue(d[2], d[3]), PairValue(d[4], d[5]))
  }

  /** `n.toString(16)` for a natural number: lower-case digits, most significant first. */
  function NatToHex(n: nat): (s: string)
    ensures |s| >= 1 && forall k :: 0 <= k < |s| ==> IsHexDigit(s[k])
    ensures n < 256 ==> |s| == if n < 16 then 1 else 2
  {
    if n < 16 then [HexChar(n)] else NatToHex(n / 16) + [HexChar(n % 16)]
  }

  /** `x.toString(16)` for an integer: a minus sign before the digits of a negative value. */
  function IntToHex(x: int): (s: string)
    ensures |s| >= 1
    ensures s[0] == '-' <==> x < 0
    ensures x >= 0 ==> forall k :: 0 <= k < |s| ==> IsHexDigit(s[k])
  {
    if x < 0 then "-" + NatToHex(-x) else NatToHex(x)
  }

  /** `s.padStart(2, '0')`. */
  function PadStart2(s: string): (r: string)
    ensures |r| == if |s| < 2 then 2 else |s|
    ensures r[|r| - |s|..] == s
  {
    if |s| == 0 then "00" else if |s| == 1 then "0" + s else s
  }

  /** One component of `rgbToHex`: `Math.round(x).toString(16).padStart(2, '0')` on an integer. */
  function ComponentHex(x: int): (s: string)
    ensures |s| >= 2
    ensures 0 <= x <= 255 ==> |s| == 2 && IsHexDigit(s[0]) && IsHexDigit(s[1])
  {
    PadStart2(IntToHex(x))
  }

  /** `rgbToHex` on integer components. */
  function RgbToHex(r: int, g: int, b: int): (hex: string)
    ensures |hex| >= 7 && hex[0] == '#'
    ensures IsByteTriple(Rgb(r, g, b)) ==> |hex| == 7
  {
    "#" + ComponentHex(r) + ComponentHex(g) + ComponentHex(b)
  }

  /** The two lower-case digits, high digit first, that stand for a byte. */
  function ByteChars(x: int): (s: string)
    requires 0 <= x <= 255
    ensures |s| == 2 && IsHexDigit(s[0]) && IsHexDigit(s[1])
    ensures LowerChar(s[0]) == s[0] && LowerChar(s[1]) == s[1]
  {
    [HexChar(x / 16), HexChar(x % 16)]
  }

  /** A byte component is written as its two digits. */
  lemma ByteHex(x: int)
    requires 0 <= x <= 255
    ensures ComponentHex(x) == ByteChars(x)
  {
    if x >= 16 {
      assert NatToHex(x) == NatToHex(x / 16) + [HexChar(x % 16)];
    }
  }

  /** The seven characters `rgbToHex` writes for a byte triple. */
  lemma RgbToHexChars(r: int, g: int, b: int)
    requires IsByteTriple(Rgb(r, g, b))
    ensures RgbToHex(r, g, b) == "#" + ByteChars(r) + ByteChars(g) + ByteChars(b)
  {
    ByteHex(r);
    ByteHex(g);
    ByteHex(b);
  }

  /** For byte components, `rgbToHex` gives '#' and six lower-case hexadecimal digits. */
  lemma RgbToHexFormat(r: int, g: int, b: int)
    requires IsByteTriple(Rgb(r, g, b))
    ensures var h := RgbToHex(r, g, b);
      |h| == 7 && h[0] == '#' && IsHexDigits(h[1..]) &&
      forall k :: 1 <= k < 7 ==> LowerChar(h[k]) == h[k]
  {
    RgbToHexChars(r, g, b);
    HexPairsFormat(ByteChars(r), ByteChars(g), ByteChars(b));
  }

  /** Digit pairs, each lower-case, behind a '#'. */
  lemma HexPairsFormat(x: string, y: string, z: string)
    requires |x| == 2 && |y| == 2 && |z| == 2
    requires forall k :: 0 <= k < 2 ==> IsHexDigit(x[k]) && LowerChar(x[k]) == x[k]
    requires forall k :: 0 <= k < 2 ==> IsHexDigit(y[k]) && LowerChar(y[k]) == y[k]
    requires forall k :: 0 <= k < 2 ==> IsHexDigit(z[k]) && LowerChar(z[k]) == z[k]
    ensures var h := "#" + x + y + z;
      |h| == 7 && h[0] == '#' && IsHexDigits(h[1..]) &&
      forall k :: 1 <= k < 7 ==> LowerChar(h[k]) == h[k]
  {
    var h := "#" + x + y + z;
    var d := x + y + z;
    assert d == [x[0], x[1], y[0], y[1], z[0], z[1]];
    assert h[1..] == d;
    forall k | 1 <= k < 7 ensures LowerChar(h[k]) == h[k] {
      assert h[k] == d[k - 1];
    }
  }

  /** Reading two digits written for a byte gives the byte. */
  lemma PairValueOfByte(x: int)
    requires 0 <= x <= 255
    ensures PairValue(ByteChars(x)[0], ByteChars(x)[1]) == x
  {
  }

  /** Serialising a byte triple and parsing it back gives the triple. */
  lemma HexToRgbOfRgbToHex(r: int, g: int, b: int)
    requires IsByteTriple(Rgb(r, g, b))
    ensures HexToRgb(RgbToHex(r, g, b)) == Rgb(r, g, b)
  {
    RgbToHexChars(r, g, b);
    HexToRgbOfPairs(ByteChars(r), ByteChars(g), ByteChars(b));
    PairValueOfByte(r);
    PairValueOfByte(g);
    PairValueOfByte(b);
  }

  /** '#' and three digit pairs parse to the values of the pairs. */
  lemma HexToRgbOfPairs(x: string, y: string, z: string)
    requires |x| == 2 && |y| == 2 && |z| == 2
    requires IsHexDigit(x[0]) && IsHexDigit(x[1]) && IsHexDigit(y[0]) && IsHexDigit(y[1])
    requires IsHexDigit(z[0]) && IsHexDigit(z[1])
    ensures HexToRgb("#" + x + y + z) == Rgb(PairValue(x[0], x[1]), PairValue(y[0], y[1]), PairValue(z[0], z[1]))
  {
    var h := "#" + x + y + z;
    var d := x + y + z;
    assert h[1..] == d;
    assert d == [x[0], x[1], y[0], y[1], z[0], z[1]];
    assert IsHexDigits(d);
    assert HexDigitsOf(h) == Some(d);
  }

  /** The two digits of a parsed pair are recovered from its value. */
  lemma PairDigits(hi: char, lo: char)
    requires IsHexDigit(hi) && IsHexDigit(lo)
    ensures PairValue(hi, lo) / 16 == HexValue(hi) && PairValue(hi, lo) % 16 == HexValue(lo)
  {
  }

  /** Writing a parsed pair gives the pair in lower case. */
  lemma PairRoundTrip(hi: char, lo: char)
    requires IsHexDigit(hi) && IsHexDigit(lo)
    ensures ByteChars(PairValue(hi, lo)) == [LowerChar(hi), LowerChar(lo)]
  {
    PairDigits(hi, lo);
    HexCharOfValue(hi);
    HexCharOfValue(lo);
  }

  /** Parsing a well-formed colour and serialising it gives '#' and its digits in lower case. */
  lemma RgbToHexOfHexToRgb(hex: string)
    requires HexDigitsOf(hex).Some?
    ensures var c := HexToRgb(hex); RgbToHex(c.r, c.g, c.b) == "#" + Lower(HexDigitsOf(hex).value)
  {
    var d := HexDigitsOf(hex).value;
    assert IsHexDigit(d[0]) && IsHexDigit(d[1]) && IsHexDigit(d[2]);
    assert IsHexDigit(d[3]) && IsHexDigit(d[4]) && IsHexDigit(d[5]);
    var c := HexToRgb(hex);
    assert c == Rgb(PairValue(d[0], d[1]), PairValue(d[2], d[3]), PairValue(d[4], d[5]));
    PairRoundTrip(d[0], d[1]);
    PairRoundTrip(d[2], d[3]);
    PairRoundTrip(d[4], d[5]);
    RgbToHexChars(c.r, c.g, c.b);
    LowerPairs(d);
  }

  /** Lower-casing six characters, two at a time. */
  lemma LowerPairs(d: string)
    requires |d| == 6
    ensures Lower(d) == [LowerChar(d[0]), LowerChar(d[1])] + [LowerChar(d[2]), LowerChar(d[3])]
      + [LowerChar(d[4]), LowerChar(d[5])]
  {
  }

  /** The blend ratio of step i of a gradient of `steps` colours: `i * (1 / (steps - 1))`. */
  function StepRatio(i: nat, steps: int): real
    requires steps >= 2
  {
    i as real * (1.0 / (steps - 1) as real)
  }

  /** Ratios start at 0, end at 1 and increase strictly in between. */
  lemma StepRatios(i: nat, j: nat, steps: int)
    requires steps >= 2 && i < j < steps
    ensures StepRatio(0, steps) == 0.0 && StepRatio(steps - 1, steps) == 1.0
    ensures 0.0 <= StepRatio(i, steps) < StepRatio(j, steps) <= 1.0
  {
    var u := 1.0 / (steps - 1) as real;
    assert u > 0.0;
    assert (steps - 1) as real * u == 1.0;
    assert i as real * u < j as real * u;
    assert j as real * u <= (steps - 1) as real * u;
  }

  /**
   * `createColorGradient`: one colour for fewer than two steps, otherwise `steps` colours, the
   * i-th blended at ratio i / (steps - 1). `blend` stands for `blendColors` with the chosen mode.
   */
  method CreateColorGradient(startColor: string, endColor: string, steps: int,
                             blend: (string, string, real) -> string)
    returns (gradient: seq<string>)
    ensures steps < 2 ==> gradient == [startColor]
    ensures steps >= 2 ==> |gradient| == steps
    ensures steps >= 2 ==> forall i :: 0 <= i < steps ==>
      gradient[i] == blend(startColor, endColor, StepRatio(i, steps))
  {
    if steps < 2 {
      return [startColor];
    }
    gradient := [];
    var stepSize := 1.0 / (steps - 1) as real;
    for i := 0 to steps
      invariant |gradient| == i
      invariant forall k :: 0 <= k < i ==> gradient[k] == blend(startColor, endColor, StepRatio(k, steps))
    {
      var ratio := i as real * stepSize;
      assert ratio == StepRatio(i, steps);
      var color := blend(startColor, endColor, ratio);
      gradient := gradient + [color];
    }
  }
}
