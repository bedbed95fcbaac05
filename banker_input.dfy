/** The checks the two banker buttons apply to the already-parsed banker list
    (m6.py lines 103-106 and 117-120) before calling the banker generator with
    a batch of 5 (lines 108 and 122). */
module BankerInput {
  import opened Wrappers
  import opened Sequences
  import opened FrequencyTable
  import opened Sampler

  /** Combinations generated per button press (m6.py lines 108 and 122). */
  const BatchSize: nat := 5

  /** The two banker buttons: combinations of six or of seven numbers. */
  datatype Mode = SixNumbers | SevenNumbers

  /** Numbers per combination in each mode. */
  function ComboSize(m: Mode): nat {
    match m
    case SixNumbers => 6
    case SevenNumbers => 7
  }

  /** Most bankers accepted: 5 with six numbers (line 103), 6 with seven
      numbers (line 117). */
  function MaxBankers(m: Mode): nat {
    match m
    case SixNumbers => 5
    case SevenNumbers => 6
  }

  /** The two warnings the buttons show. */
  datatype BankerError =
    | CountOutOfRange   // fewer than 1 or more than MaxBankers bankers
    | DuplicateBanker   // some number entered twice

  /** The checks in their source order: first the count, then duplicates,
      tested as `len(bankers) != len(set(bankers))`. */
  function ValidateBankers(bankers: seq<int>, m: Mode): (r: Result<seq<int>, BankerError>)
    ensures r.Success? <==> 1 <= |bankers| <= MaxBankers(m) && NoDup(bankers)
    ensures r.Success? ==> r.value == bankers
    ensures r == Failure(CountOutOfRange) <==> !(1 <= |bankers| <= MaxBankers(m))
    ensures r == Failure(DuplicateBanker) <==> 1 <= |bankers| <= MaxBankers(m) && !NoDup(bankers)
  {
    NoDupIffDistinctCount(bankers);
    if !(1 <= |bankers| <= MaxBankers(m)) then Failure(CountOutOfRange)
    else if |bankers| != |Elements(bankers)| then Failure(DuplicateBanker)
    else Success(bankers)
  }

  /** With accepted bankers, every combination the banker generator keeps has
      `ComboSize(m)` distinct numbers in ascending order and holds every
      banker. */
  lemma AcceptedBankersGiveDistinctCombinations(t: Table, bankers: seq<int>, m: Mode, draws: seq<seq<int>>)
    requires ValidateBankers(bankers, m).Success?
    requires AreDraws(t, LegPopulation(t.keys, bankers), BankerOversample, |draws|, draws)
    ensures forall c :: c in BankerBatch(bankers, ComboSize(m) - |bankers|, draws) ==>
              |c| == ComboSize(m) && NoDup(c) && Sorted(c) && (forall b :: b in bankers ==> b in c)
  {
    var legsNeeded := ComboSize(m) - |bankers|;
    BankerBatchCombinations(t, bankers, legsNeeded, draws);
    forall c | c in BankerBatch(bankers, legsNeeded, draws)
      ensures NoDup(c)
    {
      BankerCombinationDistinct(t, bankers, ComboSize(m), c);
    }
  }

  /** A press of a banker button on the parsed banker list: the warning, or the
      batch of banker combinations (m6.py lines 103-109 and 117-123). */
  method PressBankerButton(t: Table, bankers: seq<int>, m: Mode, draws: seq<seq<int>>)
    returns (r: Result<seq<seq<int>>, BankerError>)
    requires Valid(t)
    requires ValidateBankers(bankers, m).Success? ==>
               AreDraws(t, LegPopulation(t.keys, bankers), BankerOversample, BatchSize, draws)
    ensures r.Failure? <==> ValidateBankers(bankers, m).Failure?
    ensures r.Failure? ==> r.error == ValidateBankers(bankers, m).error
    ensures r.Success? ==> r.value == BankerBatch(bankers, ComboSize(m) - |bankers|, draws)
    ensures r.Success? ==> |r.value| <= BatchSize
    ensures r.Success? ==> forall c :: c in r.value ==>
              IsBankerCombination(t, bankers, ComboSize(m), c) && NoDup(c)
  {
    var checked := ValidateBankers(bankers, m);
    if checked.Failure? {
      return Failure(checked.error);
    }
    assert |bankers| < ComboSize(m);
    var combinations := GenerateBanker(t, bankers, BatchSize, ComboSize(m), draws);
    AcceptedBankersGiveDistinctCombinations(t, bankers, m, draws);
    return Success(combinations);
  }
}
