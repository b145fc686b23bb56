/**
 * Generic list operations behind the source's `new Set(...)`, `filter` and `sort` calls:
 * order-preserving de-duplication, filtering, and a sort by a comparator about which
 * nothing is known except, where a property needs it, that it is a total preorder.
 */
module Sequences {

  /** No value occurs twice. */
  predicate Distinct<T(==)>(s: seq<T>) {
    forall i, j :: 0 <= i < j < |s| ==> s[i] != s[j]
  }

  /** The position of the first occurrence of `x` in `s`. */
  function FirstIndex<T(==)>(s: seq<T>, x: T): (k: nat)
    requires x in s
    ensures k < |s| && s[k] == x
    ensures forall i :: 0 <= i < k ==> s[i] != x
  {
    if s[0] == x then 0 else 1 + FirstIndex(s[1..], x)
  }

  /**
   * `[...new Set(s)]`: a JavaScript Set remembers insertion order and ignores repeated
   * insertions, so each value appears once, where it first occurred.
   */
  function Dedup<T(==, !new)>(s: seq<T>): (r: seq<T>)
    ensures Distinct(r)
    ensures forall x :: x in r <==> x in s
  {
    if s == [] then []
    else
      var d := Dedup(s[..|s| - 1]);
      var x := s[|s| - 1];
      assert forall y :: y in s <==> y in s[..|s| - 1] || y == x by {
        assert s == s[..|s| - 1] + [x];
      }
      if x in d then d else d + [x]
  }

  /** Appending values does not move the first occurrence of a value already present. */
  lemma FirstIndexOfPrefix<T>(p: seq<T>, s: seq<T>, y: T)
    requires |p| <= |s| && p == s[..|p|] && y in p
    ensures FirstIndex(s, y) == FirstIndex(p, y)
  {
  }

  /** `Dedup` lists the values in the order of their first occurrence in the input. */
  lemma {:induction false} DedupFirstOccurrenceOrder<T(!new)>(s: seq<T>)
    ensures forall i, j :: 0 <= i < j < |Dedup(s)| ==>
      FirstIndex(s, Dedup(s)[i]) < FirstIndex(s, Dedup(s)[j])
  {
    if s != [] {
      var p := s[..|s| - 1];
      var x := s[|s| - 1];
      var d := Dedup(p);
      var r := Dedup(s);
      DedupFirstOccurrenceOrder(p);
      forall y | y in p ensures FirstIndex(s, y) == FirstIndex(p, y) {
        FirstIndexOfPrefix(p, s, y);
      }
      if x !in d {
        assert r == d + [x];
        assert FirstIndex(s, x) == |p|;
        forall i, j | 0 <= i < j < |r| ensures FirstIndex(s, r[i]) < FirstIndex(s, r[j]) {
          assert r[i] == d[i];
          if j < |d| {
            assert r[j] == d[j];
          }
        }
      }
    }
  }

  /**
   * `s.filter(keep)`: the values satisfying `keep`.
   * Multiplicity is stated by `FilterCount`, order by `FilterConcat` and `FilterFirst`.
   */
  function Filter<T(!new)>(s: seq<T>, keep: T -> bool): (r: seq<T>)
    ensures |r| <= |s|
    ensures forall x :: x in r <==> x in s && keep(x)
  {
    if s == [] then []
    else
      var rest := Filter(s[1..], keep);
      assert forall y :: y in s <==> y == s[0] || y in s[1..];
      if keep(s[0]) then [s[0]] + rest else rest
  }

  /** One step of `Filter`: the head, when it passes, followed by the filtered tail. */
  lemma FilterStep<T(!new)>(s: seq<T>, keep: T -> bool)
    requires s != []
    ensures Filter(s, keep) == (if keep(s[0]) then [s[0]] else []) + Filter(s[1..], keep)
  {
  }

  /** Every passing value is kept as often as it occurs in `s`; no other value is kept. */
  lemma {:induction false} FilterCount<T(!new)>(s: seq<T>, keep: T -> bool, x: T)
    ensures multiset(Filter(s, keep))[x] == if keep(x) then multiset(s)[x] else 0
  {
    if s != [] {
      FilterStep(s, keep);
      FilterCount(s[1..], keep, x);
      assert s == [s[0]] + s[1..];
      assert multiset(s) == multiset([s[0]]) + multiset(s[1..]);
    }
  }

  /** Filtering a concatenation filters each part and keeps them in order. */
  lemma {:induction false} FilterConcat<T(!new)>(s1: seq<T>, s2: seq<T>, keep: T -> bool)
    ensures Filter(s1 + s2, keep) == Filter(s1, keep) + Filter(s2, keep)
  {
    if s1 == [] {
      assert s1 + s2 == s2;
    } else {
      var s := s1 + s2;
      assert s[0] == s1[0] && s[1..] == s1[1..] + s2;
      FilterStep(s, keep);
      FilterStep(s1, keep);
      FilterConcat(s1[1..], s2, keep);
      var head := if keep(s1[0]) then [s1[0]] else [];
      assert head + (Filter(s1[1..], keep) + Filter(s2, keep))
          == (head + Filter(s1[1..], keep)) + Filter(s2, keep);
    }
  }

  /** When no value passes, nothing is kept. */
  lemma {:induction false} FilterNone<T(!new)>(s: seq<T>, keep: T -> bool)
    requires forall i :: 0 <= i < |s| ==> !keep(s[i])
    ensures Filter(s, keep) == []
  {
    if s != [] {
      FilterStep(s, keep);
      FilterNone(s[1..], keep);
    }
  }

  /**
   * When `s[j]` is the first value that passes, `Filter` starts with it and goes on with the
   * filtered remainder: so `Filter(s, keep)[k]` is the k-th passing value of `s`.
   */
  lemma FilterFirst<T(!new)>(s: seq<T>, keep: T -> bool, j: nat)
    requires j < |s| && keep(s[j])
    requires forall i :: 0 <= i < j ==> !keep(s[i])
    ensures Filter(s, keep) == [s[j]] + Filter(s[j + 1..], keep)
  {
    assert s == s[..j] + s[j..];
    FilterConcat(s[..j], s[j..], keep);
    FilterNone(s[..j], keep);
    FilterStep(s[j..], keep);
    assert s[j..][1..] == s[j + 1..];
  }

  /** `leq` is total and transitive: what a sort comparator such as `localeCompare` provides. */
  ghost predicate TotalPreorder<T(!new)>(leq: (T, T) -> bool) {
    && (forall a, b :: leq(a, b) || leq(b, a))
    && (forall a, b, c :: leq(a, b) && leq(b, c) ==> leq(a, c))
  }

  /** Every earlier value is `leq` every later one. */
  ghost predicate SortedBy<T>(s: seq<T>, leq: (T, T) -> bool) {
    forall i, j :: 0 <= i < j < |s| ==> leq(s[i], s[j])
  }

  /** Puts `x` before the first value it is `leq` to. */
  function Insert<T>(x: T, s: seq<T>, leq: (T, T) -> bool): (r: seq<T>)
    ensures multiset(r) == multiset(s) + multiset{x}
  {
    if s == [] then [x]
    else if leq(x, s[0]) then [x] + s
    else
      assert s == [s[0]] + s[1..];
      [s[0]] + Insert(x, s[1..], leq)
  }

  /** `Array.prototype.sort` with comparator `leq`, as the permutation it produces. */
  function Sort<T>(s: seq<T>, leq: (T, T) -> bool): (r: seq<T>)
    ensures multiset(r) == multiset(s)
  {
    if s == [] then []
    else
      assert s == [s[0]] + s[1..];
      Insert(s[0], Sort(s[1..], leq), leq)
  }

  /** Inserting into a sorted list keeps it sorted. */
  lemma {:induction false} InsertSorted<T(!new)>(x: T, s: seq<T>, leq: (T, T) -> bool)
    requires TotalPreorder(leq) && SortedBy(s, leq)
    ensures SortedBy(Insert(x, s, leq), leq)
  {
    if s != [] && !leq(x, s[0]) {
      var rest := Insert(x, s[1..], leq);
      InsertSorted(x, s[1..], leq);
      assert leq(s[0], x);
      forall y | y in rest ensures leq(s[0], y) {
        assert y in multiset(rest);
        if y != x {
          assert y in s[1..];
        }
      }
    }
  }

  /** The sort's result is sorted by `leq`. */
  lemma {:induction false} SortSorted<T(!new)>(s: seq<T>, leq: (T, T) -> bool)
    requires TotalPreorder(leq)
    ensures SortedBy(Sort(s, leq), leq)
  {
    if s != [] {
      SortSorted(s[1..], leq);
      InsertSorted(s[0], Sort(s[1..], leq), leq);
    }
  }

  /** Sorting neither adds nor repeats values: a list without repetitions stays so. */
  lemma {:induction false} SortKeepsDistinct<T>(s: seq<T>, leq: (T, T) -> bool)
    requires Distinct(s)
    ensures Distinct(Sort(s, leq))
  {
    if s != [] {
      SortKeepsDistinct(s[1..], leq);
      HeadNotInTail(s);
      assert s[0] !in multiset(Sort(s[1..], leq));
      InsertKeepsDistinct(s[0], Sort(s[1..], leq), leq);
    }
  }

  /** In a list without repetitions the first value does not recur. */
  lemma HeadNotInTail<T>(s: seq<T>)
    requires Distinct(s) && s != []
    ensures s[0] !in s[1..]
  {
    forall i | 0 <= i < |s| - 1 ensures s[1..][i] != s[0] {
      assert s[1..][i] == s[i + 1];
    }
  }

  /** Inserting a new value into a list without repetitions keeps it so. */
  lemma {:induction false} InsertKeepsDistinct<T>(x: T, s: seq<T>, leq: (T, T) -> bool)
    requires Distinct(s) && x !in s
    ensures Distinct(Insert(x, s, leq))
  {
    if s != [] && !leq(x, s[0]) {
      var rest := Insert(x, s[1..], leq);
      InsertKeepsDistinct(x, s[1..], leq);
      HeadNotInTail(s);
      assert s[0] !in multiset(rest);
    }
  }
}
