/** Properties of sequences shared by the combination generators, and the
    ascending sort that Python's `sorted` performs on a list of numbers. */
module Sequences {

  /** No value occurs twice in `s`. */
  predicate NoDup<T(==)>(s: seq<T>) {
    forall i, j :: 0 <= i < j < |s| ==> s[i] != s[j]
  }

  /** `s` is in ascending order: no element is larger than the next one. */
  predicate Sorted(s: seq<int>) {
    forall i :: 0 < i < |s| ==> s[i - 1] <= s[i]
  }

  /** In an ascending sequence every element is at most every later one. */
  lemma {:induction false} SortedPairwise(s: seq<int>)
    requires Sorted(s)
    ensures forall i, j :: 0 <= i < j < |s| ==> s[i] <= s[j]
  {
    if |s| > 1 {
      var front := s[..|s| - 1];
      assert forall k :: 0 <= k < |front| ==> front[k] == s[k];
      SortedPairwise(front);
      forall i | 0 <= i < |s| - 1 ensures s[i] <= s[|s| - 1] {
        assert s[i] <= s[|s| - 2];
      }
    }
  }

  /** The set of values of `s` (Python's `set(s)`). */
  function Elements(s: seq<int>): (r: set<int>)
    ensures forall x :: x in r <==> x in s
  {
    set x | x in s
  }

  /** A non-empty sequence has no duplicates exactly when its head does not
      recur and its tail has no duplicates. */
  lemma NoDupCons<T>(s: seq<T>)
    requires s != []
    ensures NoDup(s) <==> s[0] !in s[1..] && NoDup(s[1..])
  {
    var t := s[1..];
    assert forall k :: 0 <= k < |t| ==> t[k] == s[k + 1];
    if s[0] in t {
      var k :| 0 <= k < |t| && t[k] == s[0];
      assert s[k + 1] == s[0];
    }
  }

  /** A sequence has no duplicates exactly when no value occurs more than once
      in its multiset. */
  lemma {:induction false} NoDupMultiset<T>(s: seq<T>)
    ensures NoDup(s) <==> forall x :: multiset(s)[x] <= 1
  {
    if s != [] {
      var t := s[1..];
      assert s == [s[0]] + t;
      NoDupMultiset(t);
      NoDupCons(s);
      assert multiset(s)[s[0]] == multiset(t)[s[0]] + 1;
      assert forall x :: x != s[0] ==> multiset(s)[x] == multiset(t)[x];
      assert s[0] in t <==> multiset(t)[s[0]] >= 1;
    }
  }

  /** A prefix of a duplicate-free sequence is duplicate-free. */
  lemma NoDupPrefix<T>(s: seq<T>, n: nat)
    requires NoDup(s) && n <= |s|
    ensures NoDup(s[..n])
  {
    assert forall i :: 0 <= i < n ==> s[..n][i] == s[i];
  }

  /** Rearranging a sequence keeps it free of duplicates. */
  lemma PermutationKeepsNoDup<T>(a: seq<T>, b: seq<T>)
    requires multiset(a) == multiset(b)
    requires NoDup(a)
    ensures NoDup(b)
  {
    NoDupMultiset(a);
    NoDupMultiset(b);
  }

  /** A sequence has no duplicates exactly when its set of values is as large as
      the sequence itself (the test `len(s) != len(set(s))` for duplicates). */
  lemma {:induction false} NoDupIffDistinctCount(s: seq<int>)
    ensures NoDup(s) <==> |Elements(s)| == |s|
    ensures |Elements(s)| <= |s|
  {
    if s == [] {
      assert Elements(s) == {};
    } else {
      var t := s[1..];
      assert s == [s[0]] + t;
      NoDupIffDistinctCount(t);
      NoDupCons(s);
      if s[0] in t {
        assert Elements(s) == Elements(t);
      } else {
        assert Elements(s) == Elements(t) + {s[0]};
      }
    }
  }

  /** Inserts `x` into the ascending sequence `s` before the first element not
      smaller than it. */
  function Insert(x: int, s: seq<int>): (r: seq<int>)
    requires Sorted(s)
    ensures Sorted(r)
    ensures multiset(r) == multiset(s) + multiset{x}
    ensures |r| == |s| + 1
    ensures r[0] == if s == [] || x <= s[0] then x else s[0]
  {
    if s == [] || x <= s[0] then [x] + s
    else
      var rest := Insert(x, s[1..]);
      assert s == [s[0]] + s[1..];
      [s[0]] + rest
  }

  /** Python's `sorted` on a list of numbers: the ascending rearrangement of `s`. */
  function Sort(s: seq<int>): (r: seq<int>)
    ensures Sorted(r)
    ensures multiset(r) == multiset(s)
  {
    if s == [] then []
    else
      assert s == [s[0]] + s[1..];
      Insert(s[0], Sort(s[1..]))
  }

  /** Sorting keeps the length, the values, and freedom from duplicates. */
  lemma SortKeeps(s: seq<int>)
    ensures |Sort(s)| == |s|
    ensures forall x :: x in Sort(s) <==> x in s
    ensures NoDup(s) ==> NoDup(Sort(s))
  {
    var r := Sort(s);
    assert |r| == |multiset(r)| == |multiset(s)| == |s|;
    assert forall x :: x in r <==> x in multiset(r);
    assert forall x :: x in s <==> x in multiset(s);
    if NoDup(s) {
      PermutationKeepsNoDup(s, r);
    }
  }
}
