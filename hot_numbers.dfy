/** The "top ten hot numbers" panel (m6.py lines 152-155): the table's
    (number, count) pairs sorted by count, highest first, and the first ten
    of them copied into the rows shown. */
module HotNumbers {
  import opened Sequences
  import opened FrequencyTable
  import opened Dedup

  /** Rows shown in the panel (m6.py line 154). */
  const TopCount: nat := 10

  /** The length of `xs[:n]` for a list of length `size`. */
  function PrefixLength(size: nat, n: nat): nat {
    if size < n then size else n
  }

  /** One row: a number and how often it was drawn. */
  type Row = (int, int)

  /** `number_counts.items()`: the (number, count) pairs in key order. */
  function Items(t: Table): (r: seq<Row>)
    requires Valid(t)
  {
    seq(|t.keys|, i requires 0 <= i < |t.keys| =>
      var x := t.keys[i]; assert x in t.keys; (x, t.counts[x]))
  }

  /** No row has a smaller count than the next one. */
  predicate ByCountDescending(rows: seq<Row>) {
    forall i :: 0 < i < |rows| ==> rows[i - 1].1 >= rows[i].1
  }

  /** In rows by descending count, every row's count is at least every later
      row's count. */
  lemma {:induction false} ByCountDescendingPairwise(rows: seq<Row>)
    requires ByCountDescending(rows)
    ensures forall i, j :: 0 <= i < j < |rows| ==> rows[i].1 >= rows[j].1
  {
    if |rows| > 1 {
      var front := rows[..|rows| - 1];
      assert forall k :: 0 <= k < |front| ==> front[k] == rows[k];
      ByCountDescendingPairwise(front);
      forall i | 0 <= i < |rows| - 1 ensures rows[i].1 >= rows[|rows| - 1].1 {
        assert rows[i].1 >= rows[|rows| - 2].1;
      }
    }
  }

  /** Inserts `p` into rows sorted by descending count, before the first row
      whose count is not larger than its own. */
  function InsertByCount(p: Row, rows: seq<Row>): (r: seq<Row>)
    requires ByCountDescending(rows)
    ensures ByCountDescending(r)
    ensures multiset(r) == multiset(rows) + multiset{p}
    ensures |r| == |rows| + 1
    ensures r[0] == if rows == [] || p.1 >= rows[0].1 then p else rows[0]
  {
    if rows == [] || p.1 >= rows[0].1 then [p] + rows
    else
      var rest := InsertByCount(p, rows[1..]);
      assert rows == [rows[0]] + rows[1..];
      assert multiset([rows[0]] + rest) == multiset{rows[0]} + multiset(rest);
      [rows[0]] + rest
  }

  /** `sorted(items, key=count, reverse=True)`: the rows rearranged by
      descending count; rows with equal counts keep their order. */
  function SortByCount(rows: seq<Row>): (r: seq<Row>)
    ensures ByCountDescending(r)
    ensures multiset(r) == multiset(rows)
  {
    if rows == [] then []
    else
      assert rows == [rows[0]] + rows[1..];
      InsertByCount(rows[0], SortByCount(rows[1..]))
  }

  /** `[p]` when `p` has count `c`, otherwise nothing. */
  function Tie(p: Row, c: int): seq<Row> {
    if p.1 == c then [p] else []
  }

  /** The rows whose count is `c`, in their order in `rows`. */
  function WithCount(rows: seq<Row>, c: int): (r: seq<Row>)
    ensures forall p :: p in r <==> p in rows && p.1 == c
  {
    if rows == [] then [] else Tie(rows[0], c) + WithCount(rows[1..], c)
  }

  /** The rows of count `c` in `[p] + rows`. */
  lemma WithCountCons(p: Row, rows: seq<Row>, c: int)
    ensures WithCount([p] + rows, c) == Tie(p, c) + WithCount(rows, c)
  {
    assert ([p] + rows)[1..] == rows;
  }

  /** Two rows of different counts cannot both have count `c`, so their order
      does not matter among the rows of count `c`. */
  lemma TiesCommute(a: Row, b: Row, tail: seq<Row>, c: int)
    requires a.1 != b.1
    ensures Tie(a, c) + (Tie(b, c) + tail) == Tie(b, c) + (Tie(a, c) + tail)
  {
    if a.1 == c {
      assert Tie(b, c) == [];
      assert [] + ([a] + tail) == [a] + tail;
    } else {
      assert Tie(a, c) == [];
      assert [] + (Tie(b, c) + tail) == Tie(b, c) + tail;
    }
  }

  /** Inserting `p` puts it ahead of every row with the same count. */
  lemma {:induction false} InsertByCountKeepsTies(p: Row, rows: seq<Row>, c: int)
    requires ByCountDescending(rows)
    ensures WithCount(InsertByCount(p, rows), c) == Tie(p, c) + WithCount(rows, c)
  {
    if rows == [] || p.1 >= rows[0].1 {
      WithCountCons(p, rows, c);
    } else {
      var rest := InsertByCount(p, rows[1..]);
      assert InsertByCount(p, rows) == [rows[0]] + rest;
      assert rows == [rows[0]] + rows[1..];
      WithCountCons(rows[0], rest, c);
      WithCountCons(rows[0], rows[1..], c);
      InsertByCountKeepsTies(p, rows[1..], c);
      TiesCommute(rows[0], p, WithCount(rows[1..], c), c);
    }
  }

  /** Sorting by count is stable, as Python's `sorted` is: the rows of any one
      count keep their relative order. */
  lemma {:induction false} SortByCountIsStable(rows: seq<Row>, c: int)
    ensures WithCount(SortByCount(rows), c) == WithCount(rows, c)
  {
    if rows != [] {
      SortByCountIsStable(rows[1..], c);
      InsertByCountKeepsTies(rows[0], SortByCount(rows[1..]), c);
    }
  }

  /** `rows` is a top-`n` ranking of the table: `min(n, size)` rows of the
      form (number, its count) for distinct numbers, by descending count, and
      no number left out has a larger count than any number shown. */
  predicate IsTopRanking(t: Table, n: nat, rows: seq<Row>)
    requires Valid(t)
  {
    && |rows| == PrefixLength(|t.keys|, n)
    && ByCountDescending(rows)
    && (forall i :: 0 <= i < |rows| ==> rows[i].0 in t.counts && rows[i].1 == t.counts[rows[i].0])
    && (forall i, j :: 0 <= i < j < |rows| ==> rows[i].0 != rows[j].0)
    && (forall x :: x in t.counts && (forall i :: 0 <= i < |rows| ==> rows[i].0 != x) ==>
          forall i :: 0 <= i < |rows| ==> t.counts[x] <= rows[i].1)
  }

  /** The rows of `rows` are the table's (number, count) pairs, each once, and
      every table entry has its pair among them. */
  predicate AreTableRows(t: Table, rows: seq<Row>)
    requires Valid(t)
  {
    && |rows| == |t.keys|
    && NoDup(rows)
    && (forall p :: p in rows ==> p.0 in t.counts && p.1 == t.counts[p.0])
    && (forall x :: x in t.counts ==> (x, t.counts[x]) in rows)
  }

  /** `Items` lists every entry of the table once. */
  lemma ItemsAreTableRows(t: Table)
    requires Valid(t)
    ensures AreTableRows(t, Items(t))
  {
    var items := Items(t);
    forall p | p in items ensures p.0 in t.counts && p.1 == t.counts[p.0] {
      var j :| 0 <= j < |items| && items[j] == p;
      assert t.keys[j] in t.keys;
    }
    forall x | x in t.counts ensures (x, t.counts[x]) in items {
      assert items[FirstIndex(t.keys, x)] == (x, t.counts[x]);
    }
    forall i, j | 0 <= i < j < |items| ensures items[i] != items[j] {
      assert items[i].0 == t.keys[i] && items[j].0 == t.keys[j];
    }
  }

  /** Sorting keeps the table's pairs. */
  lemma SortedItemsAreTableRows(t: Table)
    requires Valid(t)
    ensures AreTableRows(t, SortByCount(Items(t)))
  {
    var items := Items(t);
    var sorted := SortByCount(items);
    ItemsAreTableRows(t);
    assert |sorted| == |multiset(sorted)| == |items|;
    assert forall p :: p in sorted <==> p in multiset(items);
    PermutationKeepsNoDup(items, sorted);
  }

  /** The first rows of the table's pairs by descending count form a ranking. */
  lemma {:induction false} PrefixIsRanking(t: Table, n: nat, sorted: seq<Row>)
    requires Valid(t)
    requires AreTableRows(t, sorted) && ByCountDescending(sorted)
    ensures IsTopRanking(t, n, sorted[..PrefixLength(|t.keys|, n)])
  {
    var m := PrefixLength(|t.keys|, n);
    var rows := sorted[..m];
    assert forall i :: 0 <= i < m ==> rows[i] == sorted[i];
    forall i | 0 <= i < m ensures rows[i].0 in t.counts && rows[i].1 == t.counts[rows[i].0] {
      assert sorted[i] in sorted;
    }
    forall i, j | 0 <= i < j < m ensures rows[i].0 != rows[j].0 {
      assert sorted[i] in sorted && sorted[j] in sorted;
    }
    LeftOutCountsNotLarger(t, sorted, m);
  }

  /** A number not among the first `m` rows sits later in the rows by
      descending count, so its count is not larger than any shown count. */
  lemma LeftOutCountsNotLarger(t: Table, sorted: seq<Row>, m: nat)
    requires Valid(t)
    requires AreTableRows(t, sorted) && ByCountDescending(sorted)
    requires m <= |sorted|
    ensures forall x :: x in t.counts && (forall i :: 0 <= i < m ==> sorted[i].0 != x) ==>
              forall i :: 0 <= i < m ==> t.counts[x] <= sorted[i].1
  {
    ByCountDescendingPairwise(sorted);
    forall x | x in t.counts && (forall i :: 0 <= i < m ==> sorted[i].0 != x)
      ensures forall i :: 0 <= i < m ==> t.counts[x] <= sorted[i].1
    {
      var q :| 0 <= q < |sorted| && sorted[q] == (x, t.counts[x]);
      assert m <= q;
    }
  }

  /** The first `n` rows of the table's pairs sorted by count form a top-`n`
      ranking. */
  lemma TopOfSortedIsRanking(t: Table, n: nat)
    requires Valid(t)
    ensures IsTopRanking(t, n, SortByCount(Items(t))[..PrefixLength(|t.keys|, n)])
  {
    SortedItemsAreTableRows(t);
    PrefixIsRanking(t, n, SortByCount(Items(t)));
  }

  /** The panel's rows (m6.py lines 152-155): the table's pairs sorted by
      count, highest first, and the first `TopCount` of them appended one by
      one. */
  method TopNumbers(t: Table) returns (freqData: seq<Row>)
    requires Valid(t)
    ensures freqData == SortByCount(Items(t))[..PrefixLength(|t.keys|, TopCount)]
    ensures IsTopRanking(t, TopCount, freqData)
  {
    var sortedNumbers := SortByCount(Items(t));
    assert |sortedNumbers| == |t.keys| by {
      SortedItemsAreTableRows(t);
    }
    var shown := PrefixLength(|sortedNumbers|, TopCount);
    freqData := [];
    for i := 0 to shown
      invariant freqData == sortedNumbers[..i]
    {
      var (num, count) := sortedNumbers[i];
      freqData := freqData + [(num, count)];
      assert sortedNumbers[..i + 1] == sortedNumbers[..i] + [sortedNumbers[i]];
    }
    TopOfSortedIsRanking(t, TopCount);
  }
}
