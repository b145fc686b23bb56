/**
 * The JavaScript string operations the CSV reader and the colour helpers rely on:
 * `trim`, `split` on one character, `includes`, `endsWith`, `replace` of the first
 * occurrence, ASCII `toLowerCase`, and `Array.prototype.findIndex` over header cells.
 */
module Text {

  /** JavaScript's WhiteSpace and LineTerminator code points: what `String.prototype.trim` removes. */
  predicate IsWhitespace(c: char) {
    || c == ' ' || c == '\t' || c == '\n' || c == '\r'
    || c == '\U{000B}' || c == '\U{000C}' || c == '\U{00A0}' || c == '\U{1680}'
    || ('\U{2000}' <= c <= '\U{200A}')
    || c == '\U{2028}' || c == '\U{2029}' || c == '\U{202F}' || c == '\U{205F}'
    || c == '\U{3000}' || c == '\U{FEFF}'
  }

  /** Every character is whitespace (the empty string included). */
  predicate IsBlank(s: string) {
    forall k :: 0 <= k < |s| ==> IsWhitespace(s[k])
  }

  /** Neither end of `s` is whitespace. */
  predicate IsTrimmed(s: string) {
    s == "" || (!IsWhitespace(s[0]) && !IsWhitespace(s[|s| - 1]))
  }

  /** Leading whitespace removed: the longest suffix that does not start with whitespace. */
  function TrimStart(s: string): (r: string)
    ensures |r| <= |s| && r == s[|s| - |r|..]
    ensures forall k :: 0 <= k < |s| - |r| ==> IsWhitespace(s[k])
    ensures r == "" || !IsWhitespace(r[0])
  {
    if s != "" && IsWhitespace(s[0]) then TrimStart(s[1..]) else s
  }

  /** Trailing whitespace removed: the longest prefix that does not end with whitespace. */
  function TrimEnd(s: string): (r: string)
    ensures |r| <= |s| && r == s[..|r|]
    ensures forall k :: |r| <= k < |s| ==> IsWhitespace(s[k])
    ensures r == "" || !IsWhitespace(r[|r| - 1])
  {
    if s != "" && IsWhitespace(s[|s| - 1]) then TrimEnd(s[..|s| - 1]) else s
  }

  /** What `TrimStart` removes is whitespace only. */
  lemma TrimStartDropsBlank(s: string)
    ensures IsBlank(s[..|s| - |TrimStart(s)|])
  {
    var i := |s| - |TrimStart(s)|;
    assert forall k :: 0 <= k < i ==> s[..i][k] == s[k];
  }

  /** What `TrimEnd` removes is whitespace only. */
  lemma TrimEndDropsBlank(t: string)
    ensures IsBlank(t[|TrimEnd(t)|..])
  {
    var n := |TrimEnd(t)|;
    assert forall k :: n <= k < |t| ==> t[n..][k - n] == t[k];
  }

  /** The number of leading whitespace characters of `s`. */
  function LeadingBlanks(s: string): (i: nat)
    ensures i <= |s|
  {
    |s| - |TrimStart(s)|
  }

  /**
   * `String.prototype.trim`: the slice of `s` that starts after its leading whitespace and
   * is followed by whitespace only; it has no whitespace at either end.
   */
  function Trim(s: string): (r: string)
    ensures IsTrimmed(r)
    ensures LeadingBlanks(s) + |r| <= |s|
    ensures r == s[LeadingBlanks(s)..LeadingBlanks(s) + |r|]
    ensures IsBlank(s[..LeadingBlanks(s)]) && IsBlank(s[LeadingBlanks(s) + |r|..])
  {
    var t := TrimStart(s);
    var r := TrimEnd(t);
    var i := LeadingBlanks(s);
    TrimStartDropsBlank(s);
    TrimEndDropsBlank(t);
    assert r != "" ==> r[0] == t[0];
    assert t == s[i..];
    assert r == s[i..i + |r|] && s[i + |r|..] == t[|r|..];
    r
  }

  /** `line.trim().length > 0` holds exactly for the lines that are not whitespace only. */
  lemma TrimEmptyIffBlank(s: string)
    ensures Trim(s) == "" <==> IsBlank(s)
  {
    var t := TrimStart(s);
    if Trim(s) == "" {
      assert t == "";
    } else {
      var r := Trim(s);
      assert r[0] == t[0] == s[|s| - |t|];
      assert !IsWhitespace(s[|s| - |t|]);
    }
  }

  /** Trimming a trimmed string changes nothing. */
  lemma TrimOfTrimmed(s: string)
    requires IsTrimmed(s)
    ensures Trim(s) == s
  {
  }

  /** Trimming is idempotent. */
  lemma TrimIdempotent(s: string)
    ensures Trim(Trim(s)) == Trim(s)
  {
    TrimOfTrimmed(Trim(s));
  }

  /** Trimming only removes characters: one absent from `s` is absent from `Trim(s)`. */
  lemma TrimDropsNothingElse(s: string, c: char)
    requires c !in s
    ensures c !in Trim(s)
  {
    var t := TrimStart(s);
    var r := TrimEnd(t);
    forall i | 0 <= i < |r| ensures r[i] != c {
      assert r[i] == t[i] == s[|s| - |t| + i];
    }
  }

  /** `strings.map(s => s.trim())`. */
  function TrimAll(strings: seq<string>): (r: seq<string>)
    ensures |r| == |strings|
    ensures forall k :: 0 <= k < |r| ==> r[k] == Trim(strings[k])
  {
    seq(|strings|, k requires 0 <= k < |strings| => Trim(strings[k]))
  }

  /** `String.prototype.indexOf` for one character: the first position of `c`, or -1. */
  function IndexOf(s: string, c: char): (k: int)
    ensures -1 <= k < |s|
    ensures k >= 0 ==> s[k] == c && forall i :: 0 <= i < k ==> s[i] != c
    ensures k < 0 ==> forall i :: 0 <= i < |s| ==> s[i] != c
  {
    if s == "" then -1
    else if s[0] == c then 0
    else var k := IndexOf(s[1..], c); if k < 0 then -1 else k + 1
  }

  /** `s.split(sep)` for a one-character separator: the pieces between separators, in order. */
  function Split(s: string, sep: char): (parts: seq<string>)
    ensures |parts| >= 1
    ensures forall k :: 0 <= k < |parts| ==> sep !in parts[k]
    decreases |s|
  {
    var k := IndexOf(s, sep);
    if k < 0 then [s]
    else
      var head := s[..k];
      assert forall i :: 0 <= i < k ==> head[i] == s[i];
      [head] + Split(s[k + 1..], sep)
  }

  /** `parts.join(sep)`: the inverse of `Split`. */
  function Join(parts: seq<string>, sep: char): string {
    if parts == [] then ""
    else if |parts| == 1 then parts[0]
    else parts[0] + [sep] + Join(parts[1..], sep)
  }

  /** Splitting loses nothing: joining the pieces back gives the original text. */
  lemma {:induction false} JoinSplit(s: string, sep: char)
    ensures Join(Split(s, sep), sep) == s
    decreases |s|
  {
    var k := IndexOf(s, sep);
    if k >= 0 {
      var rest := s[k + 1..];
      var parts := Split(rest, sep);
      assert Split(s, sep) == [s[..k]] + parts;
      JoinSplit(rest, sep);
      JoinCons(s[..k], parts, sep);
      Reassemble(s, k);
    }
  }

  /**
   * Joining loses nothing either: pieces free of the separator come back from splitting
   * their join.
   */
  lemma {:induction false} SplitJoin(parts: seq<string>, sep: char)
    requires parts != []
    requires forall k :: 0 <= k < |parts| ==> sep !in parts[k]
    ensures Split(Join(parts, sep), sep) == parts
    decreases |parts|
  {
    var head := parts[0];
    if |parts| == 1 {
      assert IndexOf(head, sep) < 0;
    } else {
      var tail := parts[1..];
      var rest := Join(tail, sep);
      var s := Join(parts, sep);
      assert s == head + [sep] + rest;
      assert s[|head|] == sep;
      assert forall i :: 0 <= i < |head| ==> s[i] == head[i];
      assert IndexOf(s, sep) == |head|;
      assert s[..|head|] == head && s[|head| + 1..] == rest;
      SplitJoin(tail, sep);
      assert parts == [head] + tail;
    }
  }

  /** Cutting a string around position k and gluing the pieces back gives it back. */
  lemma Reassemble(s: string, k: nat)
    requires k < |s|
    ensures s[..k] + [s[k]] + s[k + 1..] == s
  {
  }

  /** Joining a piece in front of a non-empty list puts one separator between them. */
  lemma JoinCons(head: string, parts: seq<string>, sep: char)
    requires parts != []
    ensures Join([head] + parts, sep) == head + [sep] + Join(parts, sep)
  {
    assert ([head] + parts)[1..] == parts;
  }

  /** `sub` occurs in `s` starting at position `k`. */
  predicate OccursAt(s: string, sub: string, k: int) {
    0 <= k && k + |sub| <= |s| && s[k..k + |sub|] == sub
  }

  /** The first occurrence of `sub` at or after `from`, or -1 (`String.prototype.indexOf`). */
  function FirstOccurrenceFrom(s: string, sub: string, from: nat): (k: int)
    ensures k == -1 || (from <= k && OccursAt(s, sub, k))
    ensures forall i :: from <= i && (k < 0 || i < k) ==> !OccursAt(s, sub, i)
    decreases |s| - from
  {
    if from + |sub| > |s| then -1
    else if s[from..from + |sub|] == sub then from
    else FirstOccurrenceFrom(s, sub, from + 1)
  }

  /** The first occurrence of `sub` in `s`, or -1. */
  function FirstOccurrence(s: string, sub: string): int {
    FirstOccurrenceFrom(s, sub, 0)
  }

  /** `s.includes(sub)`. */
  function Contains(s: string, sub: string): (r: bool)
    ensures r <==> exists i :: OccursAt(s, sub, i)
  {
    FirstOccurrence(s, sub) >= 0
  }

  /** `s.endsWith(suffix)`: `s` is some string followed by `suffix`. */
  function EndsWith(s: string, suffix: string): (r: bool)
    ensures r <==> exists base :: s == base + suffix
  {
    if |suffix| <= |s| && s[|s| - |suffix|..] == suffix then
      assert s == s[..|s| - |suffix|] + suffix;
      true
    else
      false
  }

  /** `s.replace(pat, '')` with a string pattern: only the first occurrence is removed. */
  function RemoveFirst(s: string, pat: string): (r: string)
    ensures !Contains(s, pat) ==> r == s
    ensures Contains(s, pat) ==> exists k ::
              && OccursAt(s, pat, k)
              && (forall i :: 0 <= i < k ==> !OccursAt(s, pat, i))
              && r == s[..k] + s[k + |pat|..]
    ensures Contains(s, pat) ==> |r| == |s| - |pat|
  {
    var k := FirstOccurrence(s, pat);
    if k < 0 then s
    else
      assert OccursAt(s, pat, k) && forall i :: 0 <= i < k ==> !OccursAt(s, pat, i);
      s[..k] + s[k + |pat|..]
  }

  /**
   * Removing the first occurrence of a suffix that occurs nowhere earlier leaves the rest:
   * "trial1.csv" becomes "trial1".
   */
  lemma RemoveSuffix(base: string, pat: string)
    requires forall i :: 0 <= i < |base| ==> !OccursAt(base + pat, pat, i)
    ensures RemoveFirst(base + pat, pat) == base
  {
    var s := base + pat;
    assert OccursAt(s, pat, |base|);
    assert s[..|base|] == base;
  }

  /** The first occurrence wins: "a.csv.csv" becomes "a.csv", not "a". */
  lemma RemoveFirstOnlyOnce()
    ensures RemoveFirst("a.csv.csv", ".csv") == "a.csv"
  {
    var s := "a.csv.csv";
    assert s[0..4][0] == 'a';
    assert OccursAt(s, ".csv", 1);
    assert s[..1] + s[5..] == "a.csv";
  }

  /** ASCII upper-case letters to lower case; every other character unchanged. */
  function LowerChar(c: char): char {
    if 'A' <= c <= 'Z' then (c as int + 32) as char else c
  }

  /** `String.prototype.toLowerCase`, restricted to the ASCII letters. */
  function Lower(s: string): (r: string)
    ensures |r| == |s|
    ensures forall k :: 0 <= k < |s| ==> r[k] == LowerChar(s[k])
  {
    seq(|s|, k requires 0 <= k < |s| => LowerChar(s[k]))
  }

  /** `cells.findIndex(col => col.includes(pat))`, searching from position `from`. */
  function FindIndexFrom(cells: seq<string>, pat: string, from: nat): (k: int)
    ensures k == -1 || (from <= k < |cells| && Contains(cells[k], pat))
    ensures forall i :: from <= i < |cells| && (k < 0 || i < k) ==> !Contains(cells[i], pat)
    decreases |cells| - from
  {
    if from >= |cells| then -1
    else if Contains(cells[from], pat) then from
    else FindIndexFrom(cells, pat, from + 1)
  }

  /** `k` is the position of the first cell containing `pat`, or -1 when no cell contains it. */
  predicate FirstContaining(cells: seq<string>, pat: string, k: int) {
    || (k == -1 && forall i :: 0 <= i < |cells| ==> !Contains(cells[i], pat))
    || (0 <= k < |cells| && Contains(cells[k], pat) && forall i :: 0 <= i < k ==> !Contains(cells[i], pat))
  }

  /** `cells.findIndex(col => col.includes(pat))`: the first cell containing `pat`, or -1. */
  function FindIndex(cells: seq<string>, pat: string): (k: int)
    ensures k == -1 || (0 <= k < |cells| && Contains(cells[k], pat))
    ensures forall i :: 0 <= i < |cells| && (k < 0 || i < k) ==> !Contains(cells[i], pat)
    ensures FirstContaining(cells, pat, k)
  {
    FindIndexFrom(cells, pat, 0)
  }
}
