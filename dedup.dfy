/** Order-preserving removal of duplicates, `list(dict.fromkeys(picks))`
    (m6.py, lines 38 and 57): a dict keeps its keys in insertion order and
    inserting a key that is already present changes nothing, so the result holds
    each picked value once, at the place of its first pick. */
module Dedup {
  import opened Sequences

  /** The values of `s` in order of first occurrence. Defined by adding the
      picks one at a time from the left, as `dict.fromkeys` does. */
  function Unique(s: seq<int>): (r: seq<int>)
    ensures NoDup(r)
    ensures forall x :: x in r <==> x in s
    ensures |r| == |Elements(s)| <= |s|
    decreases |s|
  {
    if s == [] then []
    else
      var front := s[..|s| - 1];
      var last := s[|s| - 1];
      assert s == front + [last];
      var r' := Unique(front);
      var r := if last in r' then r' else r' + [last];
      assert Elements(r) == Elements(s);
      NoDupIffDistinctCount(r);
      NoDupIffDistinctCount(s);
      r
  }

  /** The position of the first occurrence of `x` in `s`. */
  function FirstIndex(s: seq<int>, x: int): (i: nat)
    requires x in s
    ensures i < |s| && s[i] == x
    ensures x !in s[..i]
  {
    if s[0] == x then 0
    else
      assert s == [s[0]] + s[1..];
      var i := 1 + FirstIndex(s[1..], x);
      assert s[..i] == [s[0]] + s[1..][..i - 1];
      i
  }

  /** Any position holding `x` with no earlier `x` is the first index. */
  lemma FirstIndexUnique(s: seq<int>, x: int, i: nat)
    requires i < |s| && s[i] == x && x !in s[..i]
    ensures FirstIndex(s, x) == i
  {
    var k := FirstIndex(s, x);
    assert forall j :: 0 <= j < i ==> s[..i][j] == s[j];
    assert forall j :: 0 <= j < k ==> s[..k][j] == s[j];
  }

  /** Appending a value does not move the first occurrence of a value that is
      already present. */
  lemma FirstIndexExtend(s: seq<int>, y: int, x: int)
    requires x in s
    ensures FirstIndex(s + [y], x) == FirstIndex(s, x)
  {
    var k := FirstIndex(s, x);
    assert (s + [y])[..k] == s[..k];
    FirstIndexUnique(s + [y], x, k);
  }

  /** The deduplicated picks appear in the order of their first occurrence in
      the picks; in particular they form a subsequence of the picks, each taken
      at its first position. */
  lemma {:induction false} UniqueKeepsFirstOccurrenceOrder(s: seq<int>)
    ensures forall i, j :: 0 <= i < j < |Unique(s)| ==>
              FirstIndex(s, Unique(s)[i]) < FirstIndex(s, Unique(s)[j])
    ensures InFirstOccurrenceOrder(s, Unique(s))
  {
    if s != [] {
      var front := s[..|s| - 1];
      var last := s[|s| - 1];
      assert s == front + [last];
      UniqueKeepsFirstOccurrenceOrder(front);
      var r' := Unique(front);
      var r := Unique(s);
      forall k | 0 <= k < |r'|
        ensures FirstIndex(s, r'[k]) == FirstIndex(front, r'[k])
      {
        FirstIndexExtend(front, last, r'[k]);
      }
      if last !in r' {
        assert r == r' + [last];
        assert last !in s[..|s| - 1];
        FirstIndexUnique(s, last, |s| - 1);
      }
    }
  }

  /** Characterisation of `Unique`: it is the one duplicate-free sequence
      holding exactly the values of `s` in order of first occurrence. */
  lemma UniqueIsDeterminedByOrder(s: seq<int>, t: seq<int>)
    ensures InFirstOccurrenceOrder(s, t) <==> t == Unique(s)
  {
    UniqueKeepsFirstOccurrenceOrder(s);
    if InFirstOccurrenceOrder(s, t) {
      OrderedByFirstIndexUnique(s, t, Unique(s));
    }
  }

  /** `t` lists exactly the values of `s`, each once, in order of first
      occurrence in `s`. */
  predicate InFirstOccurrenceOrder(s: seq<int>, t: seq<int>) {
    && NoDup(t)
    && (forall x :: x in t ==> x in s)
    && (forall x :: x in s ==> x in t)
    && (forall i, j :: 0 <= i < j < |t| ==> FirstIndex(s, t[i]) < FirstIndex(s, t[j]))
  }

  /** Two such listings have the same head: the value occurring first in `s`. */
  lemma SameHead(s: seq<int>, t: seq<int>, u: seq<int>)
    requires InFirstOccurrenceOrder(s, t) && InFirstOccurrenceOrder(s, u)
    requires t != [] && u != []
    ensures t[0] == u[0]
  {
    assert u[0] in t && t[0] in u;
    var k :| 0 <= k < |t| && t[k] == u[0];
    var m :| 0 <= m < |u| && u[m] == t[0];
    assert FirstIndex(s, t[0]) <= FirstIndex(s, t[k]);
    assert FirstIndex(s, u[0]) <= FirstIndex(s, u[m]);
  }

  /** Dropping the head of such a listing lists the values of `s` without it. */
  lemma TailInOrder(s: seq<int>, t: seq<int>)
    requires InFirstOccurrenceOrder(s, t) && t != []
    ensures InFirstOccurrenceOrder(RemoveValue(s, t[0]), t[1..])
  {
    var s' := RemoveValue(s, t[0]);
    var t' := t[1..];
    assert forall k :: 0 <= k < |t'| ==> t'[k] == t[k + 1];
    forall x | x in s' ensures x in t' {
      var k :| 0 <= k < |t| && t[k] == x;
    }
    forall i, j | 0 <= i < j < |t'| ensures FirstIndex(s', t'[i]) < FirstIndex(s', t'[j]) {
      RemoveValueKeepsOrder(s, t[0], t'[i], t'[j]);
    }
  }

  /** Two such listings of the values of `s` are equal. */
  lemma {:induction false} OrderedByFirstIndexUnique(s: seq<int>, t: seq<int>, u: seq<int>)
    requires InFirstOccurrenceOrder(s, t) && InFirstOccurrenceOrder(s, u)
    ensures t == u
    decreases |t|
  {
    assert |t| == |u| by {
      assert Elements(t) == Elements(u);
      NoDupIffDistinctCount(t);
      NoDupIffDistinctCount(u);
    }
    if t != [] {
      SameHead(s, t, u);
      TailInOrder(s, t);
      TailInOrder(s, u);
      OrderedByFirstIndexUnique(RemoveValue(s, t[0]), t[1..], u[1..]);
      assert t == [t[0]] + t[1..] && u == [u[0]] + u[1..];
    }
  }

  /** `s` with every occurrence of `v` removed. */
  function RemoveValue(s: seq<int>, v: int): (r: seq<int>)
    ensures forall x :: x in r <==> x in s && x != v
  {
    if s == [] then []
    else if s[0] == v then RemoveValue(s[1..], v)
    else [s[0]] + RemoveValue(s[1..], v)
  }

  /** Removing a value keeps the first-occurrence order of the others. */
  lemma {:induction false} RemoveValueKeepsOrder(s: seq<int>, v: int, a: int, b: int)
    requires a in s && b in s && a != v && b != v
    requires FirstIndex(s, a) < FirstIndex(s, b)
    ensures FirstIndex(RemoveValue(s, v), a) < FirstIndex(RemoveValue(s, v), b)
  {
    assert s == [s[0]] + s[1..];
    if s[0] == a {
    } else {
      assert s[0] != b;
      assert FirstIndex(s, a) == 1 + FirstIndex(s[1..], a);
      assert FirstIndex(s, b) == 1 + FirstIndex(s[1..], b);
      RemoveValueKeepsOrder(s[1..], v, a, b);
    }
  }
}
