/** The frequency table the generators read: for each number drawn in past
    results, how many times it was drawn (a `Counter`, m6.py line 22). The
    table keeps its keys in insertion order, as a Python dict does; that order
    is the order of the sampling population (`list(number_counts.keys())`). */
module FrequencyTable {
  import opened Sequences

  datatype Table = Table(keys: seq<int>, counts: map<int, int>)

  /** Each key listed once, the key list and the map agree, counts are not
      negative. */
  predicate Valid(t: Table) {
    && NoDup(t.keys)
    && (forall x :: x in t.keys ==> x in t.counts)
    && (forall x :: x in t.counts ==> x in t.keys)
    && (forall x :: x in t.counts ==> t.counts[x] >= 0)
  }

  /** Python's truth test `not number_counts`: the table has no entry. */
  predicate IsEmpty(t: Table) {
    |t.keys| == 0
  }

  /** A number that weighted sampling can return: a key of the table with a
      positive weight. `random.choices` never returns an element whose weight
      is 0, and it fails when every weight is 0. */
  predicate Drawable(t: Table, x: int) {
    x in t.counts && t.counts[x] > 0
  }

  /** The numbers of `population` that sampling can return. */
  function DrawableIn(t: Table, population: seq<int>): (r: set<int>)
    ensures forall x :: x in r <==> x in population && Drawable(t, x)
  {
    set x | x in population && Drawable(t, x)
  }

  /** One round of `random.choices(population, weights, k=k)`: exactly `k`
      picks, each an element of `population` that has a positive weight. */
  predicate IsDraw(t: Table, population: seq<int>, k: nat, draw: seq<int>) {
    |draw| == k && forall x :: x in draw ==> x in population && Drawable(t, x)
  }

  /** A round never picks more distinct numbers than the population has
      drawable ones. */
  lemma DistinctPicksAtMostDrawable(t: Table, population: seq<int>, k: nat, draw: seq<int>)
    requires IsDraw(t, population, k, draw)
    ensures |Elements(draw)| <= |DrawableIn(t, population)|
  {
    var picked := Elements(draw);
    var drawable := DrawableIn(t, population);
    forall x | x in picked ensures x in drawable {
      assert x in draw;
    }
    assert drawable == picked + (drawable - picked);
  }

  /** The picks of `rounds` successive rounds. */
  predicate AreDraws(t: Table, population: seq<int>, k: nat, rounds: nat, draws: seq<seq<int>>) {
    |draws| == rounds && forall i :: 0 <= i < |draws| ==> IsDraw(t, population, k, draws[i])
  }
}
