/** The two combination generators of m6.py: `generate_weighted_combinations`
    (lines 27-43) and `generate_banker_combinations` (lines 45-64).

    Each round of either generator calls `random.choices` once. The model takes
    the picks of every round as the input `draws`: `draws[i]` is what
    `random.choices` returned in round `i`, a sequence of the right length
    whose picks lie in the sampling population and have a positive weight. */
module Sampler {
  import opened Wrappers
  import opened Sequences
  import opened Dedup
  import opened FrequencyTable

  /** Picks drawn per round by the unrestricted generator (m6.py line 37). */
  const WeightedOversample: nat := 20

  /** Picks drawn per round by the banker generator (m6.py line 56). */
  const BankerOversample: nat := 15

  // ---------------------------------------------------------------------------
  // Unrestricted generator
  // ---------------------------------------------------------------------------

  /** A combination of `size` distinct numbers of the table, in ascending
      order, each one that sampling can return. */
  predicate IsCombination(t: Table, size: nat, c: seq<int>) {
    && |c| == size
    && NoDup(c)
    && Sorted(c)
    && forall x :: x in c ==> Drawable(t, x)
  }

  /** One round of the unrestricted generator on the picks `draw`
      (m6.py lines 38-42): the first `size` distinct picks in ascending order,
      or nothing when the picks hold fewer than `size` distinct numbers. */
  function WeightedRound(draw: seq<int>, size: nat): (r: Option<seq<int>>)
    ensures r.Some? <==> |Elements(draw)| >= size
    ensures r.Some? ==> |r.value| == size && NoDup(r.value) && Sorted(r.value)
    ensures r.Some? ==> forall x :: x in r.value <==> x in Unique(draw)[..size]
  {
    var uniquePicks := Unique(draw);
    if |uniquePicks| >= size then
      var c := Sort(uniquePicks[..size]);
      assert NoDup(uniquePicks[..size]);
      SortKeeps(uniquePicks[..size]);
      Some(c)
    else
      None
  }

  /** The combinations kept over the rounds `draws`, in round order. */
  function WeightedBatch(draws: seq<seq<int>>, size: nat): (r: seq<seq<int>>)
    ensures |r| <= |draws|
  {
    if draws == [] then []
    else
      var earlier := WeightedBatch(draws[..|draws| - 1], size);
      match WeightedRound(draws[|draws| - 1], size)
      case Some(c) => earlier + [c]
      case None => earlier
  }

  /** Every kept combination has `size` distinct drawable numbers of the table
      in ascending order. */
  lemma {:induction false} WeightedBatchCombinations(t: Table, draws: seq<seq<int>>, size: nat)
    requires AreDraws(t, t.keys, WeightedOversample, |draws|, draws)
    ensures forall c :: c in WeightedBatch(draws, size) ==> IsCombination(t, size, c)
  {
    if draws != [] {
      var front := draws[..|draws| - 1];
      var draw := draws[|draws| - 1];
      assert AreDraws(t, t.keys, WeightedOversample, |front|, front) by {
        forall i | 0 <= i < |front| ensures IsDraw(t, t.keys, WeightedOversample, front[i]) {
          assert front[i] == draws[i];
        }
      }
      WeightedBatchCombinations(t, front, size);
      var round := WeightedRound(draw, size);
      if round.Some? {
        assert IsDraw(t, t.keys, WeightedOversample, draw);
        forall x | x in round.value ensures Drawable(t, x) {
          assert x in Unique(draw)[..size];
          assert x in draw;
        }
      }
    }
  }

  /** The picks of a round hold at least `size` distinct numbers. */
  predicate Fills(draw: seq<int>, size: nat) {
    |Elements(draw)| >= size
  }

  /** The last round adds one combination to the batch when it fills one. */
  lemma WeightedBatchGrows(draws: seq<seq<int>>, size: nat)
    requires draws != []
    ensures |WeightedBatch(draws, size)| ==
            |WeightedBatch(draws[..|draws| - 1], size)| +
            (if Fills(draws[|draws| - 1], size) then 1 else 0)
  {
  }

  /** Every requested combination is returned exactly when every round drew at
      least `size` distinct numbers; otherwise the batch comes back short. */
  lemma {:induction false} WeightedBatchFullIff(draws: seq<seq<int>>, size: nat)
    ensures |WeightedBatch(draws, size)| == |draws| <==>
            forall i :: 0 <= i < |draws| ==> Fills(draws[i], size)
  {
    if draws != [] {
      var front := draws[..|draws| - 1];
      WeightedBatchFullIff(front, size);
      WeightedBatchGrows(draws, size);
      AllFillSplit(draws, front, size);
    }
  }

  /** Every round fills a combination exactly when every earlier round and the
      last one do. */
  lemma AllFillSplit(draws: seq<seq<int>>, front: seq<seq<int>>, size: nat)
    requires draws != [] && front == draws[..|draws| - 1]
    ensures (forall i :: 0 <= i < |draws| ==> Fills(draws[i], size)) <==>
            (forall i :: 0 <= i < |front| ==> Fills(front[i], size)) &&
            Fills(draws[|draws| - 1], size)
  {
    assert forall i :: 0 <= i < |front| ==> front[i] == draws[i];
  }

  /** A combination larger than the oversample can never be filled, so the
      batch is empty (for example `num_per_combo > 20`). */
  lemma {:induction false} OversizedCombinationYieldsNothing(t: Table, draws: seq<seq<int>>, size: nat)
    requires AreDraws(t, t.keys, WeightedOversample, |draws|, draws)
    requires size > WeightedOversample
    ensures WeightedBatch(draws, size) == []
  {
    if draws != [] {
      var front := draws[..|draws| - 1];
      var draw := draws[|draws| - 1];
      assert AreDraws(t, t.keys, WeightedOversample, |front|, front) by {
        forall i | 0 <= i < |front| ensures IsDraw(t, t.keys, WeightedOversample, front[i]) {
          assert front[i] == draws[i];
        }
      }
      OversizedCombinationYieldsNothing(t, front, size);
      assert IsDraw(t, t.keys, WeightedOversample, draw);
      NoDupIffDistinctCount(draw);
    }
  }

  /** A table with fewer drawable numbers than `size` can never fill a
      combination, so every round is dropped and the batch is empty. */
  lemma {:induction false} ScarceTableYieldsNothing(t: Table, draws: seq<seq<int>>, size: nat)
    requires AreDraws(t, t.keys, WeightedOversample, |draws|, draws)
    requires |DrawableIn(t, t.keys)| < size
    ensures WeightedBatch(draws, size) == []
  {
    if draws != [] {
      var front := draws[..|draws| - 1];
      var draw := draws[|draws| - 1];
      assert AreDraws(t, t.keys, WeightedOversample, |front|, front) by {
        forall i | 0 <= i < |front| ensures IsDraw(t, t.keys, WeightedOversample, front[i]) {
          assert front[i] == draws[i];
        }
      }
      ScarceTableYieldsNothing(t, front, size);
      DistinctPicksAtMostDrawable(t, t.keys, WeightedOversample, draw);
    }
  }

  /** `generate_weighted_combinations(number_counts, num_combinations,
      num_per_combo)` with the picks of each round given by `draws`. */
  method GenerateWeighted(t: Table, numCombinations: nat, numPerCombo: nat, draws: seq<seq<int>>)
    returns (combinations: seq<seq<int>>)
    requires Valid(t)
    requires !IsEmpty(t) ==> AreDraws(t, t.keys, WeightedOversample, numCombinations, draws)
    ensures IsEmpty(t) ==> combinations == []
    ensures !IsEmpty(t) ==> combinations == WeightedBatch(draws, numPerCombo)
    ensures |combinations| <= numCombinations
    ensures forall c :: c in combinations ==> IsCombination(t, numPerCombo, c)
  {
    if IsEmpty(t) {
      return [];
    }
    combinations := [];
    for i := 0 to numCombinations
      invariant combinations == WeightedBatch(draws[..i], numPerCombo)
    {
      var potentialPicks := draws[i];
      var uniquePicks := Unique(potentialPicks);
      if |uniquePicks| >= numPerCombo {
        var finalCombination := Sort(uniquePicks[..numPerCombo]);
        combinations := combinations + [finalCombination];
      }
      assert draws[..i + 1][..i] == draws[..i];
    }
    assert draws[..numCombinations] == draws;
    WeightedBatchCombinations(t, draws, numPerCombo);
  }

  // ---------------------------------------------------------------------------
  // Banker generator
  // ---------------------------------------------------------------------------

  /** The population of legs (m6.py line 51): the table's keys, in order,
      without the bankers. */
  function LegPopulation(keys: seq<int>, bankers: seq<int>): (r: seq<int>)
    ensures forall x :: x in r <==> x in keys && x !in bankers
    ensures |r| <= |keys|
  {
    if keys == [] then []
    else if keys[0] in bankers then LegPopulation(keys[1..], bankers)
    else [keys[0]] + LegPopulation(keys[1..], bankers)
  }

  /** A banker combination of `size` numbers in ascending order: every banker
      with its own multiplicity, and otherwise only legs (drawable numbers of
      the table that are not bankers), each at most once. */
  predicate IsBankerCombination(t: Table, bankers: seq<int>, size: int, c: seq<int>) {
    && |c| == size
    && Sorted(c)
    && (forall x :: x in bankers ==> x in c && multiset(c)[x] == multiset(bankers)[x])
    && (forall x :: x in c && x !in bankers ==> Drawable(t, x) && multiset(c)[x] == 1)
  }

  /** One round of the banker generator on the picks `draw` (m6.py lines
      57-62): the bankers together with the first `legsNeeded` distinct picks,
      in ascending order, or nothing when the picks hold too few distinct
      numbers. */
  function BankerRound(bankers: seq<int>, legsNeeded: nat, draw: seq<int>): (r: Option<seq<int>>)
    ensures r.Some? <==> |Elements(draw)| >= legsNeeded
    ensures r.Some? ==> Sorted(r.value)
    ensures r.Some? ==> multiset(r.value) == multiset(bankers) + multiset(Unique(draw)[..legsNeeded])
  {
    var uniqueLegs := Unique(draw);
    if |uniqueLegs| >= legsNeeded then
      var finalLegs := uniqueLegs[..legsNeeded];
      Some(Sort(bankers + finalLegs))
    else
      None
  }

  /** The banker combinations kept over the rounds `draws`, in round order. */
  function BankerBatch(bankers: seq<int>, legsNeeded: nat, draws: seq<seq<int>>): (r: seq<seq<int>>)
    ensures |r| <= |draws|
  {
    if draws == [] then []
    else
      var earlier := BankerBatch(bankers, legsNeeded, draws[..|draws| - 1]);
      match BankerRound(bankers, legsNeeded, draws[|draws| - 1])
      case Some(c) => earlier + [c]
      case None => earlier
  }

  /** The bankers plus distinct drawable legs that are not bankers, in
      ascending order, form a banker combination. */
  lemma BankersPlusLegs(t: Table, bankers: seq<int>, legs: seq<int>, c: seq<int>)
    requires multiset(c) == multiset(bankers) + multiset(legs)
    requires Sorted(c)
    requires NoDup(legs)
    requires forall x :: x in legs ==> x !in bankers && Drawable(t, x)
    ensures IsBankerCombination(t, bankers, |bankers| + |legs|, c)
  {
    NoDupMultiset(legs);
    assert |c| == |multiset(c)|;
    forall x | x in bankers ensures x in c && multiset(c)[x] == multiset(bankers)[x] {
      assert multiset(legs)[x] == 0;
      assert x in multiset(c);
    }
    forall x | x in c && x !in bankers ensures Drawable(t, x) && multiset(c)[x] == 1 {
      assert x in multiset(c);
      assert multiset(bankers)[x] == 0;
      assert x in multiset(legs);
    }
  }

  /** The first distinct picks of a round of legs are drawable non-bankers
      without repetition. */
  lemma FirstPicksAreLegs(t: Table, bankers: seq<int>, draw: seq<int>, n: nat)
    requires forall x :: x in draw ==> x !in bankers && Drawable(t, x)
    requires n <= |Unique(draw)|
    ensures NoDup(Unique(draw)[..n])
    ensures forall x :: x in Unique(draw)[..n] ==> x !in bankers && Drawable(t, x)
  {
    NoDupPrefix(Unique(draw), n);
    forall x | x in Unique(draw)[..n] ensures x !in bankers && Drawable(t, x) {
      assert x in Unique(draw);
    }
  }

  /** A successful round over the leg population gives a banker combination
      of `|bankers| + legsNeeded` numbers. */
  lemma BankerRoundCombination(t: Table, bankers: seq<int>, legsNeeded: nat, draw: seq<int>)
    requires forall x :: x in draw ==> x !in bankers && Drawable(t, x)
    requires BankerRound(bankers, legsNeeded, draw).Some?
    ensures IsBankerCombination(t, bankers, |bankers| + legsNeeded, BankerRound(bankers, legsNeeded, draw).value)
  {
    var c := BankerRound(bankers, legsNeeded, draw).value;
    var legs := Unique(draw)[..legsNeeded];
    assert |legs| == legsNeeded;
    FirstPicksAreLegs(t, bankers, draw, legsNeeded);
    BankersPlusLegs(t, bankers, legs, c);
  }

  /** Every kept banker combination is a banker combination of
      `|bankers| + legsNeeded` numbers. */
  lemma {:induction false} BankerBatchCombinations(t: Table, bankers: seq<int>, legsNeeded: nat, draws: seq<seq<int>>)
    requires AreDraws(t, LegPopulation(t.keys, bankers), BankerOversample, |draws|, draws)
    ensures forall c :: c in BankerBatch(bankers, legsNeeded, draws) ==>
              IsBankerCombination(t, bankers, |bankers| + legsNeeded, c)
  {
    if draws != [] {
      var population := LegPopulation(t.keys, bankers);
      var front := draws[..|draws| - 1];
      var draw := draws[|draws| - 1];
      assert AreDraws(t, population, BankerOversample, |front|, front) by {
        forall i | 0 <= i < |front| ensures IsDraw(t, population, BankerOversample, front[i]) {
          assert front[i] == draws[i];
        }
      }
      BankerBatchCombinations(t, bankers, legsNeeded, front);
      if BankerRound(bankers, legsNeeded, draw).Some? {
        assert IsDraw(t, population, BankerOversample, draw);
        assert forall x :: x in draw ==> x in population;
        BankerRoundCombination(t, bankers, legsNeeded, draw);
      }
    }
  }

  /** Extending the rounds by round `i` adds that round's combination, if any. */
  lemma BankerBatchStep(bankers: seq<int>, legsNeeded: nat, draws: seq<seq<int>>, i: nat)
    requires i < |draws|
    ensures BankerRound(bankers, legsNeeded, draws[i]).Some? ==>
              BankerBatch(bankers, legsNeeded, draws[..i + 1]) ==
              BankerBatch(bankers, legsNeeded, draws[..i]) + [BankerRound(bankers, legsNeeded, draws[i]).value]
    ensures BankerRound(bankers, legsNeeded, draws[i]).None? ==>
              BankerBatch(bankers, legsNeeded, draws[..i + 1]) == BankerBatch(bankers, legsNeeded, draws[..i])
  {
    assert draws[..i + 1][..i] == draws[..i];
  }

  /** With fewer drawable legs than `legsNeeded`, no round is kept and the
      batch is empty. */
  lemma {:induction false} ScarceLegsYieldNothing(t: Table, bankers: seq<int>, legsNeeded: nat, draws: seq<seq<int>>)
    requires AreDraws(t, LegPopulation(t.keys, bankers), BankerOversample, |draws|, draws)
    requires |DrawableIn(t, LegPopulation(t.keys, bankers))| < legsNeeded
    ensures BankerBatch(bankers, legsNeeded, draws) == []
  {
    if draws != [] {
      var population := LegPopulation(t.keys, bankers);
      var front := draws[..|draws| - 1];
      var draw := draws[|draws| - 1];
      assert AreDraws(t, population, BankerOversample, |front|, front) by {
        forall i | 0 <= i < |front| ensures IsDraw(t, population, BankerOversample, front[i]) {
          assert front[i] == draws[i];
        }
      }
      ScarceLegsYieldNothing(t, bankers, legsNeeded, front);
      DistinctPicksAtMostDrawable(t, population, BankerOversample, draw);
    }
  }

  /** With distinct bankers, a banker combination has no repeated number. */
  lemma BankerCombinationDistinct(t: Table, bankers: seq<int>, size: int, c: seq<int>)
    requires IsBankerCombination(t, bankers, size, c)
    requires NoDup(bankers)
    ensures NoDup(c)
  {
    NoDupMultiset(bankers);
    forall x ensures multiset(c)[x] <= 1 {
      if x !in c {
        assert x !in multiset(c);
      }
    }
    NoDupMultiset(c);
  }

  /** `generate_banker_combinations(number_counts, bankers, num_combinations,
      num_per_combo)` with the picks of each round given by `draws`. */
  method GenerateBanker(t: Table, bankers: seq<int>, numCombinations: nat, numPerCombo: int, draws: seq<seq<int>>)
    returns (combinations: seq<seq<int>>)
    requires Valid(t)
    requires numPerCombo > |bankers| ==>
               AreDraws(t, LegPopulation(t.keys, bankers), BankerOversample, numCombinations, draws)
    ensures numPerCombo <= |bankers| ==> combinations == []
    ensures numPerCombo > |bankers| ==> combinations == BankerBatch(bankers, numPerCombo - |bankers|, draws)
    ensures |combinations| <= numCombinations
    ensures forall c :: c in combinations ==> IsBankerCombination(t, bankers, numPerCombo, c)
  {
    var legsNeeded := numPerCombo - |bankers|;
    if legsNeeded <= 0 {
      return [];
    }
    combinations := [];
    for i := 0 to numCombinations
      invariant combinations == BankerBatch(bankers, legsNeeded, draws[..i])
    {
      var potentialLegs := draws[i];
      var uniqueLegs := Unique(potentialLegs);
      if |uniqueLegs| >= legsNeeded {
        var finalLegs := uniqueLegs[..legsNeeded];
        var finalCombination := Sort(bankers + finalLegs);
        combinations := combinations + [finalCombination];
      }
      BankerBatchStep(bankers, legsNeeded, draws, i);
    }
    assert draws[..numCombinations] == draws;
    BankerBatchCombinations(t, bankers, legsNeeded, draws);
  }
}
