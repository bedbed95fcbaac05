# Mark Six combination generator — Dafny model

`m6.py` is a small Streamlit app for the Hong Kong Mark Six lottery. It counts
how often each number appeared in past draws and uses these counts as weights
to suggest combinations. This project models the part of the app that
computes things:

- the frequency table the generators read (`FrequencyTable`). It is a
  `Counter` whose keys keep their insertion order, and that order is the
  sampling population;
- order-preserving removal of duplicates, `list(dict.fromkeys(picks))`
  (`Dedup`);
- `generate_weighted_combinations`: each round draws 20 weighted picks and
  keeps the first `num_per_combo` distinct ones, sorted. A round with too few
  distinct picks is dropped (`Sampler`);
- `generate_banker_combinations`: each round draws 15 weighted legs from the
  keys that are not bankers, then keeps the bankers plus the first
  `num_per_combo - len(bankers)` distinct legs, sorted (`Sampler`);
- the checks the two banker buttons make before generating a batch of five:
  1 to 5 bankers for six numbers, 1 to 6 for seven, and no duplicates
  (`BankerInput`);
- the "top ten hot numbers" panel: the (number, count) pairs sorted by
  descending count, first ten shown (`HotNumbers`).

Randomness is an input. `random.choices` is called once per round, and the
model takes its outputs as `draws`: `draws[i]` holds round `i`'s picks. The
requirement on `draws` (`FrequencyTable.AreDraws`) asks for:

- exactly `k` picks per round;
- each pick taken from the sampling population;
- each pick with a positive weight.

That is what `random.choices` guarantees. When every weight is 0, or when the
leg population is empty, Python raises an exception. In the model the
requirement on `draws` then cannot be met for any round, so those calls fall
outside the contract.

The model works on immutable values (`seq`, `map`, datatypes). So the table
and the banker list that a generator receives are unchanged after the call,
and the caller sees exactly what it passed in. In the source this holds
because `bankers + final_legs` and `sorted(...)` build new lists.

Files: `wrappers.dfy` (Option, Result), `sequences.dfy` (distinctness,
sortedness, insertion sort), `dedup.dfy`, `frequency_table.dfy`,
`sampler.dfy`, `banker_input.dfy`, `hot_numbers.dfy`.

## Model

| member | source | states |
|---|---|---|
| Dedup.Unique | m6.py:38 | `dict.fromkeys` result: no repeated value, exactly the values of the picks, and as many entries as there are distinct picks |
| Dedup.UniqueKeepsFirstOccurrenceOrder | m6.py:38 | the kept values appear in the order of their first pick, so the result is a subsequence of the picks taken at first occurrences |
| Dedup.UniqueIsDeterminedByOrder | m6.py:38 | a list is the dedup result if and only if it lists every picked value once, in order of first occurrence |
| Dedup.RemoveValueKeepsOrder | m6.py:38 | removing one value from the picks keeps the first-occurrence order of the other values |
| Sequences.NoDupIffDistinctCount | m6.py:105 | `len(xs) != len(set(xs))` detects a repeated element exactly: no repeats if and only if the set is as large as the list |
| Sequences.Sort | m6.py:41 | `sorted`: the result is ascending and a permutation of the input |
| Sequences.SortKeeps | m6.py:41 | sorting keeps the length and the values, and a duplicate-free list stays duplicate-free |
| Sampler.WeightedRound | m6.py:37-42 | one round: a combination is kept if and only if the picks hold at least `num_per_combo` distinct numbers; it then has exactly that many numbers, no repeats, ascending, namely the first distinct picks |
| Sampler.WeightedBatchCombinations | m6.py:35-42 | every kept combination has `num_per_combo` distinct numbers in ascending order, each a table key with positive count |
| Sampler.WeightedBatchFullIff | m6.py:35-42 | the batch has one combination per round if and only if every round drew enough distinct numbers; otherwise it is shorter |
| Sampler.OversizedCombinationYieldsNothing | m6.py:37-40 | asking for more than 20 numbers per combination always gives an empty batch |
| FrequencyTable.DistinctPicksAtMostDrawable | m6.py:37-38 | one round's picks never hold more distinct numbers than the population has keys with positive count |
| Sampler.ScarceTableYieldsNothing | m6.py:35-42 | when the table has fewer numbers with positive count than `num_per_combo`, every round is dropped and the batch is empty |
| Sampler.GenerateWeighted | m6.py:27-43 | an empty table gives `[]`; otherwise the loop builds the batch round by round, with at most `num_combinations` combinations, each a valid combination |
| Sampler.LegPopulation | m6.py:51 | the leg population is exactly the keys that are not bankers, never longer than the keys |
| Sampler.BankerRound | m6.py:57-62 | one round: kept if and only if the legs hold at least `legs_needed` distinct numbers; the result is ascending and is, as a multiset, the bankers plus the first `legs_needed` distinct legs |
| Sampler.BankersPlusLegs | m6.py:60-61 | sorted bankers plus distinct non-banker legs contain every banker with its multiplicity, and every other number once and drawable |
| Sampler.FirstPicksAreLegs | m6.py:56-60 | the first distinct legs of a round repeat no number, and none of them is a banker |
| Sampler.BankerRoundCombination | m6.py:56-62 | a kept round over the leg population is a banker combination of `len(bankers) + legs_needed` numbers |
| Sampler.BankerBatchCombinations | m6.py:55-62 | every combination in the batch holds all bankers plus distinct drawable legs, has `num_per_combo` numbers and is ascending |
| Sampler.ScarceLegsYieldNothing | m6.py:51-62 | when fewer non-banker keys have positive count than the legs needed, every round is dropped and the batch is empty |
| Sampler.BankerCombinationDistinct | m6.py:61 | with distinct bankers, a banker combination repeats no number |
| Sampler.GenerateBanker | m6.py:45-64 | `[]` when `len(bankers) >= num_per_combo`; otherwise the loop builds the batch round by round, with at most `num_combinations` banker combinations of `num_per_combo` numbers |
| BankerInput.ValidateBankers | m6.py:103-106 | accepts if and only if there are 1 to 5 bankers in six-number mode (1 to 6 in seven-number mode, lines 117-120) and none is repeated; a count outside the range gives the first warning, a repeat within the range the second |
| BankerInput.AcceptedBankersGiveDistinctCombinations | m6.py:103-108 | after validation, every generated combination has 6 (or 7) distinct numbers in ascending order and contains every banker |
| BankerInput.PressBankerButton | m6.py:100-123 | a button press warns exactly when validation fails, with the same warning; otherwise it returns exactly the banker generator's batch for five rounds and `num_per_combo - len(bankers)` legs: at most 5 combinations, each a banker combination of the mode's size (every banker plus distinct drawable non-banker legs, ascending) with no repeated number |
| HotNumbers.ByCountDescendingPairwise | m6.py:152 | in rows sorted by descending count, every row's count is at least every later row's count |
| HotNumbers.SortByCount | m6.py:152 | `sorted(..., key=count, reverse=True)`: the rows by descending count, a permutation of the input |
| HotNumbers.InsertByCountKeepsTies | m6.py:152 | inserting a row puts it ahead of the rows with the same count that are already in place, and keeps their order |
| HotNumbers.SortByCountIsStable | m6.py:152 | the sort is stable: for every count, the rows with that count appear in the same order as in the input |
| HotNumbers.ItemsAreTableRows | m6.py:152 | `items()` lists each table entry once as its (number, count) pair |
| HotNumbers.SortedItemsAreTableRows | m6.py:152 | the sorted pairs are still exactly the table's entries, each once |
| HotNumbers.PrefixIsRanking | m6.py:152-154 | the first `n` of the rows by descending count form a top-`n` ranking |
| HotNumbers.LeftOutCountsNotLarger | m6.py:152-154 | a number not among the first rows shown has a count no larger than any shown count |
| HotNumbers.TopOfSortedIsRanking | m6.py:152-154 | the first `n` table pairs by descending count form a ranking: `min(n, size)` rows of distinct numbers with their own counts, in non-increasing count order, and nothing left out counts more |
| HotNumbers.TopNumbers | m6.py:152-155 | the panel's loop copies the first ten pairs of the stable sort by descending count (equal counts in table order, by `SortByCountIsStable`); the result has `min(10, table size)` rows and is a top-ten ranking |

## Left out

- The Streamlit interface, session state, the redraw button and the display of results (lines 66-156 apart from the checks and the top-ten rows). The redraw button calls the same generators with a batch of five, and those calls are covered by the generator contracts.
- `analyze_mark_six_data` (lines 9-25): reading `Mark_Six.csv` and counting the first six columns is file I/O. The model starts from the resulting table.
- The probability distribution of `random.choices`. The model takes each round's picks as an input; it proves what holds for every possible outcome, not how likely each outcome is.
- Parsing the banker text with `int()` (line 102) and the `ValueError` warning. The model starts from the parsed list of integers.
- Sampler.GenerateWeighted: a negative `num_per_combo` is not modelled (the parameter is a natural number). Python would then slice from the end of the list.
- Sampler.GenerateWeighted, Sampler.GenerateBanker: a negative `num_combinations` is not modelled (a natural number); Python's `range` would run zero rounds.
- Sampler.GenerateWeighted: when every count in the table is 0, `random.choices` raises `ValueError`. No round of picks can then meet the requirement on `draws`, so the exception path falls outside the contract rather than being modelled as an error result.
- Sampler.GenerateBanker: when every key is a banker, `random.choices` on the empty leg population raises `IndexError` (and `ValueError` when every leg has count 0). No round of picks can then meet the requirement on `draws`, so the exception path falls outside the contract rather than being modelled as an error result.
- Floating-point or non-integer weights: counts are integers here, as a `Counter` built from draw results holds.
