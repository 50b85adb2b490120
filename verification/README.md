# TerroristChecker name search, modelled in Dafny

TerroristChecker screens a full name against a sanctions list of persons. Every word of every listed
name is kept as a *slot* in an n-gram index, and a query is matched word by word by the Sørensen–Dice
coefficient of the words' trigrams. The per-word hits are then joined back into persons. Each word of
the query must be resolved to a distinct word of the person's name. Candidates are ranked by their
average coefficient.

The repository holds two generations of this pipeline, and the model covers both.

* **Current pipeline.**
  * `Tools/NgramIndex.cs` is the generic index. It has a configurable `N`, padding, an upsert `Add`,
    and a `GetMatches` that counts repeated n-grams.
  * `Services/WordStorageService.cs` is the word store. Its `ParseWords` caps a name at 255 words.
  * `Dice/Services/PersonSearcherService.cs` is the searcher. It handles ingestion, per-word search
    with the birth-year filter, the intersection of persons across query words, and the
    first-match / "Simple" / Hungarian resolution of words to name slots. It ends with average
    filtering and ordering.
  * `Dice/HungarianAlgorithm.cs` is the Munkres assignment solver. `HungarianBestMatch` uses it
    (negated, on scaled integer coefficients).
* **Older pipeline.**
  * `Dice/NgramIndex.cs` is the older index.
  * `Dice/Services/WordStorageService.cs` is the older word store.
  * `Dice/Services/PersonCacheService.cs` is the older cache. It has the `sbyte` loop over query
    words and prunes persons word by word.
* **Shared value types.** Both pipelines share the domain models: `PersonNameModel`, the two
  comparers, `NgramComparer`, both `SearchOptions` and the query validator.

Modules follow the source files:

| module | models |
|---|---|
| `Text` | `ToUpperInvariant`, `Trim`, `IsNullOrWhiteSpace`, `new string(c, k)` |
| `Ngrams` | n-grams as spans and `NgramComparer` |
| `WordStorage` | both word stores and `ParseWords` |
| `NgramIndex` | `Tools/NgramIndex.cs` |
| `LegacyNgramIndex` | `Dice/NgramIndex.cs` |
| `Domain` | domain models, comparers and search options |
| `Validation` | the query validator |
| `HungarianSpec` | the assignment problem, what the solver must find |
| `HungarianState` | the solver's marks and their invariants |
| `HungarianSteps` | steps 1, 2 and 4, plus the helpers |
| `HungarianPath` | step 3 (the alternating path) |
| `HungarianAlgorithm` | the driver |
| `BestMatch` | the coefficient matrix and `HungarianBestMatch` |
| `NamesResolution` | `CreateNamesSearchResult` |
| `Ranking` | `OrderByDescending`/`Take`/`Average` |
| `ResultOrdering` | the final ordering of persons |
| `SlotIndex` | name slots in the index |
| `PersonSearcher` | `PersonSearcherService` |
| `PersonCache` | `PersonCacheService` |
| `Wrappers` | `Option`/`Result` |

Services with mutable state are modelled as immutable values. Each operation returns the new state.
Exceptions become `Result.Failure` with the exception kind. `double` becomes exact `real`.

## Model

| member | source | states |
|---|---|---|
| Text.Upper | TerroristChecker.Application/Tools/NgramIndex.cs:171 | invariant upper-casing keeps the length and maps every character independently through the ASCII upper-case map |
| Text.Trim | TerroristChecker.Application/Services/WordStorageService.cs:25 | the trimmed word starts and ends with a non-whitespace character and is the contiguous middle of the input, with only whitespace before it and only whitespace after it |
| Text.Repeat | TerroristChecker.Application/Tools/NgramIndex.cs:43-51 | the padding string has exactly the requested length and holds only the padding character |
| Text.UpperKeepsNonBlank | TerroristChecker.Application/Tools/NgramIndex.cs:167-172 | upper-casing a non-blank word never makes it blank, so a prepared word passes the blank check of `GetMatches` |
| Ngrams.EqualsIffSameContent | TerroristChecker.Domain/Dice/ValueObjects/NgramComparer.cs:9-10 | two n-grams are equal under the ordinal comparer exactly when they denote the same characters, whatever strings back them |
| Ngrams.EqualsIsEquivalence | TerroristChecker.Domain/Dice/ValueObjects/NgramComparer.cs:9-10 | the n-gram comparer is reflexive, symmetric and transitive, as a dictionary key comparer must be |
| Ngrams.EqualNgramsHashEqually | TerroristChecker.Domain/Dice/ValueObjects/NgramComparer.cs:12-13 | equal n-grams have equal hash codes, for any string hash |
| Ngrams.BackingIrrelevant | TerroristChecker.Domain/Dice/ValueObjects/NgramComparer.cs:9-13 | for example, the same characters taken from two different strings at different offsets are one and the same key (one witness of `Ngrams.EqualsIffSameContent`) |
| WordStorage.Segments | TerroristChecker.Application/Services/WordStorageService.cs:25 | `Split` without options yields at least one piece and no piece contains a separator |
| WordStorage.Tokens | TerroristChecker.Application/Dice/Services/WordStorageService.cs:21-24 | `Split` with `RemoveEmptyEntries` and `TrimEntries` yields only non-empty, trimmed tokens free of separators |
| WordStorage.TokensOfJoin | TerroristChecker.Application/Services/WordStorageService.cs:15-25 | round trip: words that are already tokens, joined by spaces, split back into exactly those words |
| WordStorage.ParseWords | TerroristChecker.Application/Services/WordStorageService.cs:23-39 | fails with an arithmetic error exactly when there are more than 255 tokens; otherwise element i carries index i and the prepared i-th token |
| WordStorage.TryGet | TerroristChecker.Application/Services/WordStorageService.cs:46-49 | null exactly when no equal word is stored; otherwise the stored equal word |
| WordStorage.GetOrAdd | TerroristChecker.Application/Services/WordStorageService.cs:56-68 | returns an equal word; the store is unchanged when the word was present and grows by exactly that word otherwise; afterwards `TryGet` finds it |
| WordStorage.GetOrAddIdempotent | TerroristChecker.Application/Dice/Services/WordStorageService.cs:41-53 | a second `GetOrAdd` of the same word changes nothing and answers the same |
| WordStorage.Clear | TerroristChecker.Application/Services/WordStorageService.cs:73-76 | after `Clear` no word is found |
| WordStorage.InternAll | TerroristChecker.Application/Dice/Services/PersonSearcherService.cs:30-31 | interning the words of a name leaves the old store plus exactly those words |
| NgramIndex.Windows | TerroristChecker.Application/Tools/NgramIndex.cs:77-81 | there are `length - (N-1)` windows, and window i is the N characters starting at i |
| NgramIndex.StringToNgramArray | TerroristChecker.Application/Tools/NgramIndex.cs:70-84 | fails exactly when the array length or the span length would be negative; otherwise the windows of the input |
| NgramIndex.NewIndex | TerroristChecker.Application/Tools/NgramIndex.cs:16 | N is the given value, or 3 when none is given; the primary constructor installs no padding |
| NgramIndex.NewIndexWithComparers | TerroristChecker.Application/Tools/NgramIndex.cs:57-68 | fails exactly when N-1 is negative; otherwise N is taken as given and both paddings are installed |
| NgramIndex.SetN | TerroristChecker.Application/Tools/NgramIndex.cs:19-37 | rejects N outside 2..10; a change re-pads; setting the same N leaves the index unchanged |
| NgramIndex.PrepareWord | TerroristChecker.Application/Tools/NgramIndex.cs:167-172 | the prepared word is the beginning padding, the upper-cased word and the ending padding, in that order |
| NgramIndex.PreparedLength | TerroristChecker.Application/Tools/NgramIndex.cs:39-51 | with padding installed, a prepared word is 2(N-1) characters longer, with N-1 `[` in front and N-1 `]` at the end |
| NgramIndex.AddWindows | TerroristChecker.Application/Tools/NgramIndex.cs:90-101 | every window's bucket maps the key to the new value, with the rest of the bucket intact; buckets of other n-grams are untouched |
| NgramIndex.Add | TerroristChecker.Application/Tools/NgramIndex.cs:86-102 | succeeds exactly when N is non-negative and the input has at least N-1 characters (exactly N-1 gives no windows and changes nothing); afterwards every window's bucket maps the key to the value, and every other (bucket, key) entry is unchanged in both directions |
| NgramIndex.Clear | TerroristChecker.Application/Tools/NgramIndex.cs:104-107 | after `Clear` every bucket is empty |
| NgramIndex.Hits | TerroristChecker.Application/Tools/NgramIndex.cs:124-137 | the number of query windows that find the key through the filter is at most the number of windows, and is positive only when some window's bucket holds the key |
| NgramIndex.CountBucket | TerroristChecker.Application/Tools/NgramIndex.cs:131-149 | exactly the keys accepted by the filter gain one match; no other count changes |
| NgramIndex.CountWindows | TerroristChecker.Application/Tools/NgramIndex.cs:124-151 | after the counting loop a key is present exactly when it was already counted or is hit, and its count equals the earlier count plus its hits |
| NgramIndex.Score | TerroristChecker.Application/Tools/NgramIndex.cs:138-149 | every counted key gets its match count and the Dice coefficient 2·matches / (query n-grams + key n-grams) |
| NgramIndex.Threshold | TerroristChecker.Application/Tools/NgramIndex.cs:153-162 | a key is kept exactly when the threshold is at least 1 or its coefficient reaches the threshold, and a kept entry is not altered |
| NgramIndex.GetMatches | TerroristChecker.Application/Tools/NgramIndex.cs:109-165 | fails exactly for a blank input, a negative N, or an input shorter than N-1 characters (exactly N-1 gives no windows and an empty result); otherwise each key appears exactly when hit and above threshold, with the number of hitting windows and its coefficient |
| NgramIndex.HitsAll | TerroristChecker.Application/Tools/NgramIndex.cs:124-151 | when every query window finds the key, the hit count is the number of windows |
| NgramIndex.HitsAfterAdd | TerroristChecker.Application/Tools/NgramIndex.cs:86-151 | a query whose windows are all among the windows added under a key finds that key once per query window |
| NgramIndex.AddThenQueryScoresOne | TerroristChecker.Application/Tools/NgramIndex.cs:86-165 | a word added under a key and queried again finds the key with coefficient exactly 1 and a match for every window |
| NgramIndex.CoefficientCanExceedOne | TerroristChecker.Application/Tools/NgramIndex.cs:138-149 | repeated query n-grams are counted each time: querying "AAAA" against the stored "AAA" gives 6 matches and coefficient 12/11 |
| NgramIndex.ClearedIndexMatchesNothing | TerroristChecker.Application/Tools/NgramIndex.cs:104-165 | after `Clear`, every valid query succeeds with no matches |
| LegacyNgramIndex.SetN | TerroristChecker.Application/Dice/NgramIndex.cs:19-31 | the older setter rejects N outside 2..10 and otherwise takes the value as is |
| LegacyNgramIndex.PrepareWord | TerroristChecker.Application/Dice/NgramIndex.cs:142-147 | the prepared word has N-1 `[`, then the upper-cased word character by character, then N-1 `]` |
| LegacyNgramIndex.SamePreparedWord | TerroristChecker.Application/Dice/NgramIndex.cs:142-147 | once padded, the current index prepares every word exactly as the older index does |
| LegacyNgramIndex.WindowsOfPreparedWord | TerroristChecker.Application/Dice/NgramIndex.cs:46-60 | a prepared word always has windows, `length + N - 1` of them |
| Domain.NameSlot.ToString | TerroristChecker.Domain/Dice/Models/PersonNameModel.cs:26 | a slot prints as its prepared word |
| Domain.NameSlot.GetNgramCount | TerroristChecker.Domain/Dice/Models/PersonNameModel.cs:28 | a slot's n-gram count is two less than its printed length |
| Domain.NewNameSlot | TerroristChecker.Application/Dice/Services/PersonSearcherService.cs:42 | a new slot keeps its person, index and word, and starts with zero rank and zero count |
| Domain.NgramCountIsTrigramCount | TerroristChecker.Domain/Dice/Models/PersonNameModel.cs:28 | the hard-wired `Length - 2` equals the number of trigram windows of the word |
| Domain.PersonEquals | TerroristChecker.Domain/Dice/Models/PersonModelComparer.cs:7 | two persons are equal exactly when both are null or both have the same id |
| Domain.PersonHash | TerroristChecker.Domain/Dice/Models/PersonModelComparer.cs:9 | the hash of a person is the id shared by every person equal to it |
| Domain.PersonEqualsIsEquivalence | TerroristChecker.Domain/Dice/Models/PersonModelComparer.cs:7 | person equality is reflexive, symmetric and transitive |
| Domain.PersonEqualityIgnoresDetails | TerroristChecker.Domain/Dice/Models/PersonModelComparer.cs:7-9 | names, full name and birthday affect neither equality nor hash |
| Domain.NameSlotEquals | TerroristChecker.Domain/Dice/Models/PersonNameModelComparer.cs:7-8 | two slots are equal exactly when both are null or both have the same person id and word index |
| Domain.NameSlotEqualsIsEquivalence | TerroristChecker.Domain/Dice/Models/PersonNameModelComparer.cs:7-8 | slot equality is reflexive, symmetric and transitive |
| Domain.NameSlotEqualityIgnoresDetails | TerroristChecker.Domain/Dice/Models/PersonNameModelComparer.cs:7-8 | the word, rank and count of a slot play no part in its equality |
| Domain.EqualSlotsMayHashDifferently | TerroristChecker.Domain/Dice/Models/PersonNameModelComparer.cs:10-11 | the slot comparer's structural hash is not consistent with its equality; a witness pair of equal slots hashes differently |
| Domain.Occurrences | TerroristChecker.Application/Dice/Services/PersonCacheService.cs:296-301 | the count of a word among a name's words is at most their number and is positive exactly when the word occurs |
| Domain.SameIndex | TerroristChecker.Domain/Dice/Models/PersonNameModel.cs:16-19 | the rank of a word among its identical words lies between 1 and its position plus one |
| Domain.SameCount | TerroristChecker.Domain/Dice/Models/PersonNameModel.cs:21-24 | the number of identical words lies between 1 and the number of words |
| Domain.SameIndexWithinCount | TerroristChecker.Domain/Dice/Models/PersonNameModel.cs:16-24 | a word's rank never exceeds the size of its group |
| Domain.NewDefaultSearchOptions | TerroristChecker.Domain/Dice/Models/SearchOptions.cs:30-45 | the default options have no dates, thresholds 0.39 and 0.75, and average by input count |
| Domain.NewSearchOptions | TerroristChecker.Domain/Dice/Models/SearchOptions.cs:5-23 | the dates are taken as given; each threshold and the flag is replaced only by a non-null argument, and otherwise keeps its default |
| Domain.NullArgumentsGiveDefaults | TerroristChecker.Domain/Dice/Models/SearchOptions.cs:38 | all-null arguments give exactly `SearchOptions.Default` |
| Domain.NewDefaultLegacySearchOptions | TerroristChecker.Domain/Dice/Abstractions/SearchOptions.cs:22-28 | the older defaults have no dates and thresholds 0.41 and 0.80 |
| Domain.NewLegacySearchOptions | TerroristChecker.Domain/Dice/Abstractions/SearchOptions.cs:5-15 | the dates are taken as given; each older threshold is replaced only by a non-null argument |
| Domain.NullArgumentsGiveLegacyDefaults | TerroristChecker.Domain/Dice/Abstractions/SearchOptions.cs:30 | all-null arguments give exactly the older `Default` |
| Validation.Validate | TerroristChecker.Application/Cqrs/Queries/SearchTerrorists/SearchTerroristsQueryValidator.cs:9-20 | each rule is reported exactly when it is broken: a null or blank name, a present minimum coefficient outside (0, 1], or a present minimum average outside (0, 1]; no rule is reported twice |
| Validation.ValidQueryMeetsSearchRanges | TerroristChecker.Application/Cqrs/Queries/SearchTerrorists/SearchTerroristsQueryValidator.cs:9-20 | a query with no errors has a non-blank name, and both thresholds lie in (0, 1] whether the options come with the query or are the defaults |
| Validation.NullOptionsPass | TerroristChecker.Application/Cqrs/Queries/SearchTerrorists/SearchTerroristsQueryValidator.cs:13-20 | absent options never break an option rule |
| HungarianSpec.Negate | TerroristChecker.Application/Dice/HungarianAlgorithm.cs:34-37 | the negated matrix has the same shape, and each cell is the opposite of the original cell |
| HungarianSpec.CostOfNegation | TerroristChecker.Application/Dice/HungarianAlgorithm.cs:34-37 | every assignment costs exactly the opposite in the negated matrix |
| HungarianSpec.MaxIsMinOfNegation | TerroristChecker.Application/Dice/HungarianAlgorithm.cs:15-19 | an assignment is maximal for a matrix exactly when it is minimal for the negated matrix |
| HungarianSpec.DistinctBelowOnto | TerroristChecker.Application/Dice/HungarianAlgorithm.cs:119-120 | n distinct column indices below n cover every column |
| HungarianSpec.SumAtPermutation | TerroristChecker.Application/Dice/HungarianAlgorithm.cs:15-19 | summing a vector over a permutation of its indices is summing the whole vector |
| HungarianSpec.CostWithPotentials | TerroristChecker.Application/Dice/HungarianAlgorithm.cs:28-46 | costs that differ by row and column potentials differ by the same constant on every permutation, so subtracting row minima or adjusting by step 4 keeps the optimum |
| HungarianSpec.ZeroPermutationIsOptimal | TerroristChecker.Application/Dice/HungarianAlgorithm.cs:15-19 | a permutation lying on zeros of a non-negative matrix that differs from the original by potentials is a minimum-cost assignment of the original |
| HungarianState.StarCols | TerroristChecker.Application/Dice/HungarianAlgorithm.cs:111-117 | the starred columns are exactly the columns below n holding a star |
| HungarianState.CoveringIgnoresCosts | TerroristChecker.Application/Dice/HungarianAlgorithm.cs:173-188 | the cover invariants do not depend on the costs, so step 4's cost changes keep them |
| HungarianState.PathOf | TerroristChecker.Application/Dice/HungarianAlgorithm.cs:149-165 | the path array holds 2k-1 cells for k primes: prime, star, prime, and so on |
| HungarianState.PathOfAppend | TerroristChecker.Application/Dice/HungarianAlgorithm.cs:158-164 | extending the path by a row adds the star above the new prime, then the prime |
| HungarianState.FlipPath | TerroristChecker.Application/Dice/HungarianAlgorithm.cs:248-259 | converting the path flips each path cell once and leaves every other cell unchanged |
| HungarianState.FlipKeepsMatching | TerroristChecker.Application/Dice/HungarianAlgorithm.cs:248-259 | flipping an alternating path keeps the stars a matching: at most one per row and one per column |
| HungarianState.FlipAddsStarColumn | TerroristChecker.Application/Dice/HungarianAlgorithm.cs:167 | flipping an alternating path stars exactly one more column, the path's last one, which held no star before |
| HungarianSteps.FindStarInRow | TerroristChecker.Application/Dice/HungarianAlgorithm.cs:205-214 | -1 exactly when the row holds no star; otherwise the first starred column of the row |
| HungarianSteps.FindStarInColumn | TerroristChecker.Application/Dice/HungarianAlgorithm.cs:215-224 | -1 exactly when the column holds no star; otherwise the first starred row of the column |
| HungarianSteps.FindPrimeInRow | TerroristChecker.Application/Dice/HungarianAlgorithm.cs:225-234 | -1 exactly when the row holds no prime; otherwise the first primed column of the row |
| HungarianSteps.FindZero | TerroristChecker.Application/Dice/HungarianAlgorithm.cs:235-247 | (-1, -1) exactly when no uncovered zero exists; otherwise the first uncovered zero in row-major order |
| HungarianSteps.MinOf | TerroristChecker.Application/Dice/HungarianAlgorithm.cs:199 | the running minimum is at most both operands and equals one of them |
| HungarianSteps.FindMinimum | TerroristChecker.Application/Dice/HungarianAlgorithm.cs:190-204 | none exactly when every cell is covered; otherwise a cost of an uncovered cell that no uncovered cost undercuts |
| HungarianSteps.ClearCovers | TerroristChecker.Application/Dice/HungarianAlgorithm.cs:271-282 | afterwards no row and no column is covered; costs and marks are unchanged |
| HungarianSteps.ClearPrimes | TerroristChecker.Application/Dice/HungarianAlgorithm.cs:260-270 | every prime becomes unmarked and every other mark stays |
| HungarianSteps.ConvertPath | TerroristChecker.Application/Dice/HungarianAlgorithm.cs:248-259 | for a path of distinct in-range cells, the marks become the flipped path |
| HungarianSteps.CountCovered | TerroristChecker.Application/Dice/HungarianAlgorithm.cs:111-117 | the count is the number of covered columns |
| HungarianSteps.CoverRowStars | TerroristChecker.Application/Dice/HungarianAlgorithm.cs:104-108 | after the row is scanned, a column is covered exactly when it was covered already or the row's star is in it |
| HungarianSteps.RunStep1 | TerroristChecker.Application/Dice/HungarianAlgorithm.cs:100-123 | covers exactly the starred columns, and returns -1 exactly when every column is starred, otherwise 2 |
| HungarianSteps.AdjustRow | TerroristChecker.Application/Dice/HungarianAlgorithm.cs:179-185 | each cell gains the minimum when its row is covered and loses it when its column is uncovered |
| HungarianSteps.AdjustCosts | TerroristChecker.Application/Dice/HungarianAlgorithm.cs:177-186 | the whole matrix is adjusted cell by cell as step 4 prescribes; marks and covers are unchanged |
| HungarianSteps.Step4MinimumPositive | TerroristChecker.Application/Dice/HungarianAlgorithm.cs:175 | when step 2 found no uncovered zero, the uncovered minimum is positive and the adjustment creates an uncovered zero |
| HungarianSteps.Step4NonNegative | TerroristChecker.Application/Dice/HungarianAlgorithm.cs:177-186 | adjusting by the uncovered minimum keeps every cost non-negative |
| HungarianSteps.Step4Keeps | TerroristChecker.Application/Dice/HungarianAlgorithm.cs:173-188 | step 4 keeps the potentials, the marks on zeros and the cover invariants, and yields an uncovered zero |
| HungarianSteps.RunStep4 | TerroristChecker.Application/Dice/HungarianAlgorithm.cs:173-188 | returns 2 with a positive minimum, costs shifted by potentials, covers kept and an uncovered zero created |
| HungarianSteps.PrimeKeepsCore | TerroristChecker.Application/Dice/HungarianAlgorithm.cs:132 | priming an uncovered zero leaves the stars and every solver invariant as they were |
| HungarianSteps.PrimeThenCover | TerroristChecker.Application/Dice/HungarianAlgorithm.cs:134-139 | priming a zero in a starred row and moving the cover from the star's column to the row keeps the cover invariants |
| HungarianSteps.PrimeStartsPath | TerroristChecker.Application/Dice/HungarianAlgorithm.cs:140-144 | a primed zero in a star-less row is a valid start for step 3's path |
| HungarianSteps.RunStep2 | TerroristChecker.Application/Dice/HungarianAlgorithm.cs:124-146 | keeps the costs, the stars and the invariants; returns 4 with no uncovered zero left, or 3 with a path start ready for step 3 |
| HungarianPath.TraceStep | TerroristChecker.Application/Dice/HungarianAlgorithm.cs:154-164 | the star in the last path column and the prime in its row extend the path with a fresh row and a fresh column |
| HungarianPath.PathEnds | TerroristChecker.Application/Dice/HungarianAlgorithm.cs:155-156 | when the last path column holds no star, the traced cells form an alternating path of at most n rows |
| HungarianPath.PathOfDistinct | TerroristChecker.Application/Dice/HungarianAlgorithm.cs:248-259 | a path over distinct rows and distinct columns visits no cell twice |
| HungarianPath.PathFits | TerroristChecker.Application/Dice/HungarianAlgorithm.cs:67 | a path of 2t-1 cells over at most n rows fits the w·h path array |
| HungarianPath.FlipKeepsCore | TerroristChecker.Application/Dice/HungarianAlgorithm.cs:167-169 | flipping the path and clearing primes keeps every solver invariant and stars one more column |
| HungarianPath.TracePath | TerroristChecker.Application/Dice/HungarianAlgorithm.cs:149-165 | the loop traces an alternating path from the start prime, with at most n rows |
| HungarianPath.RunStep3 | TerroristChecker.Application/Dice/HungarianAlgorithm.cs:147-172 | returns 1 with one more starred column, no primes, no covers and all invariants kept; the path fits its array |
| HungarianAlgorithm.Oriented | TerroristChecker.Application/Dice/HungarianAlgorithm.cs:34-37 | minimising keeps the matrix; maximising negates it |
| HungarianAlgorithm.ReduceRow | TerroristChecker.Application/Dice/HungarianAlgorithm.cs:30-45 | each cell is lowered by the row minimum (after negation when maximising), so all cells are non-negative and a non-empty row holds a zero |
| HungarianAlgorithm.ReduceRows | TerroristChecker.Application/Dice/HungarianAlgorithm.cs:28-46 | the reduced matrix is non-negative, holds a zero in every row, and differs from the oriented costs by row potentials |
| HungarianAlgorithm.StarZerosInRow | TerroristChecker.Application/Dice/HungarianAlgorithm.cs:54-62 | after the row, every zero of the row shares a row or column with a star, and the greedy invariants hold |
| HungarianAlgorithm.Blank | TerroristChecker.Application/Dice/HungarianAlgorithm.cs:48 | a new mask matrix has no marked cell |
| HungarianAlgorithm.Uncovered | TerroristChecker.Application/Dice/HungarianAlgorithm.cs:49-50 | a new cover array covers nothing |
| HungarianAlgorithm.StarZeros | TerroristChecker.Application/Dice/HungarianAlgorithm.cs:52-63 | the greedy pass stars only zeros, the stars form a matching, and every zero shares a row or column with a star |
| HungarianAlgorithm.StarKeepsMatching | TerroristChecker.Application/Dice/HungarianAlgorithm.cs:56-61 | starring a cell whose row and column hold no star keeps the stars a matching |
| HungarianAlgorithm.Step1GivesCovering | TerroristChecker.Application/Dice/HungarianAlgorithm.cs:100-109 | step 1's covering of the starred columns establishes the cover invariants |
| HungarianAlgorithm.UncoveredCellExists | TerroristChecker.Application/Dice/HungarianAlgorithm.cs:190-204 | with fewer starred columns than rows some cell is uncovered, so step 4's minimum exists |
| HungarianAlgorithm.AllRowsStarredMeansAllColumns | TerroristChecker.Application/Dice/HungarianAlgorithm.cs:119-120 | a star in every row of a matching means a star in every column |
| HungarianAlgorithm.AllColumnsStarredMeansAllRows | TerroristChecker.Application/Dice/HungarianAlgorithm.cs:119-120 | a star in every column of a matching means a star in every row, which is what step 1's exit needs |
| HungarianAlgorithm.ExtractAssignment | TerroristChecker.Application/Dice/HungarianAlgorithm.cs:83-97 | each row gets its first starred column, or 0 when it holds none |
| HungarianAlgorithm.RunSteps | TerroristChecker.Application/Dice/HungarianAlgorithm.cs:71-81 | the step loop terminates with every solver invariant kept and a star in every row |
| HungarianAlgorithm.FindAssignments | TerroristChecker.Application/Dice/HungarianAlgorithm.cs:21-98 | on a square matrix, fails only for a null matrix; otherwise the result is a permutation that is optimal in the requested direction, lying on zeros of the non-negative reduced matrix |
| BestMatch.Truncate | TerroristChecker.Application/Dice/Services/PersonSearcherService.cs:422 | the `(int)` cast rounds toward zero: the result is within one unit of the value, on the zero side |
| BestMatch.MaxKey | TerroristChecker.Application/Dice/Services/PersonSearcherService.cs:406 | the largest key is a key, and no key exceeds it |
| BestMatch.LargestKey | TerroristChecker.Application/Dice/Services/PersonSearcherService.cs:406 | an empty row counts as 0; otherwise its largest key, which bounds every key |
| BestMatch.Columns | TerroristChecker.Application/Dice/Services/PersonSearcherService.cs:406 | fails exactly for no rows (`Max` of an empty sequence); otherwise one more than the largest key of some row, and larger than every key |
| BestMatch.Grid | TerroristChecker.Application/Dice/Services/PersonSearcherService.cs:416-424 | a square matrix whose cell (i, j) is row i's scaled coefficient for word j, or 0 when absent |
| BestMatch.ArrayOfDictionariesToMatrix | TerroristChecker.Application/Dice/Services/PersonSearcherService.cs:403-427 | fails for no rows, and fails with an index error exactly when some key reaches the row count; otherwise the square matrix of scaled, truncated coefficients |
| BestMatch.Chosen | TerroristChecker.Application/Dice/Services/PersonSearcherService.cs:387-398 | the result has exactly one entry per row |
| BestMatch.HungarianBestMatch | TerroristChecker.Application/Dice/Services/PersonSearcherService.cs:381-401 | succeeds exactly when the matrix can be built; then each row gets its coefficient at a column of an assignment with maximal scaled total |
| BestMatch.ScaledTotalIsCost | TerroristChecker.Application/Dice/Services/PersonSearcherService.cs:418-424 | the scaled total of the chosen coefficients equals the matrix cost of the assignment |
| BestMatch.BestMatchIsMaximal | TerroristChecker.Application/Dice/Services/PersonSearcherService.cs:376-385 | no other assignment of slots to input words reaches a larger scaled total than the best match |
| BestMatch.CaseMatrixIsBuilt | TerroristChecker.Application.UnitTests/PersonSearcherServiceTests.cs:49-59 | the five dictionaries of the unit test build the expected 5×5 matrix |
| BestMatch.OptimumIsTight | TerroristChecker.Application/Dice/HungarianAlgorithm.cs:15-19 | a maximum-total assignment uses only cells without slack, for potentials that certify some optimum |
| BestMatch.CaseOptimumShape | TerroristChecker.Application.UnitTests/PersonSearcherServiceTests.cs:49-72 | every maximum-total assignment of the test matrix sends rows 0, 2 and 4 to columns 0, 1 and 2, and rows 1 and 3 to columns 3 and 4 |
| BestMatch.HungarianBestMatchCase | TerroristChecker.Application.UnitTests/PersonSearcherServiceTests.cs:49-72 | the unit test's expectation holds: row 0 gets 0.2 and every other row gets 1, whichever optimum the solver reaches |
| NamesResolution.HitsOf | TerroristChecker.Application/Dice/Services/PersonSearcherService.cs:298-300 | the person's slot hits from every input word's result, one per input word, in order |
| NamesResolution.HitCount | TerroristChecker.Application/Dice/Services/PersonSearcherService.cs:303-312 | how many input words matched a slot: at most the number of words, and zero exactly when none did |
| NamesResolution.FirstHit | TerroristChecker.Application/Dice/Services/PersonSearcherService.cs:318-325 | none exactly when no input word matched the slot; otherwise the value of a word that did (the first) |
| NamesResolution.SlotMatchMap | TerroristChecker.Application/Dice/Services/PersonSearcherService.cs:295-308 | a failure is always `ArgumentException`; an input word that did not match the slot leaves the slot's dictionary as it was |
| NamesResolution.SlotMatchMapSize | TerroristChecker.Application/Dice/Services/PersonSearcherService.cs:308-312 | a slot's dictionary has one entry per input word that matched the slot, so `Count > 1` means a second match |
| NamesResolution.SlotMatchMapHolds | TerroristChecker.Application/Dice/Services/PersonSearcherService.cs:308 | the slot's dictionary maps exactly the input word indices of the words that matched it to their coefficients |
| NamesResolution.FailureIsClash | TerroristChecker.Application/Dice/Services/PersonSearcherService.cs:308 | `Add` throws only when two hits on the slot carry the same input word index |
| NamesResolution.ClashIsFailure | TerroristChecker.Application/Dice/Services/PersonSearcherService.cs:308 | two hits on the slot with the same input word index always make `Add` throw |
| NamesResolution.SlotMatchMapFails | TerroristChecker.Application/Dice/Services/PersonSearcherService.cs:308 | both directions: the slot's dictionary fails exactly on such a clash |
| NamesResolution.FirstHits | TerroristChecker.Application/Dice/Services/PersonSearcherService.cs:293-325 | one first hit per slot, in slot order |
| NamesResolution.Correct | TerroristChecker.Application/Dice/Services/PersonSearcherService.cs:332-346 | the "Simple" correction only zeroes coefficients; it touches only entries of the same input word, and never a non-positive one except the new entry |
| NamesResolution.Admit | TerroristChecker.Application/Dice/Services/PersonSearcherService.cs:318-347 | admitting a slot's first match adds exactly that slot's entry |
| NamesResolution.SkipResolves | TerroristChecker.Application/Dice/Services/PersonSearcherService.cs:351-355 | an unmatched slot gets the zero entry exactly when not averaging by input count, and the resolution moves on by one slot |
| NamesResolution.AdmitResolves | TerroristChecker.Application/Dice/Services/PersonSearcherService.cs:318-347 | admitting a slot's first match, with the correction when its input word was already claimed, keeps every slot settled: its first hit, zeroed when another slot of the same input word beats it |
| NamesResolution.ScanWord | TerroristChecker.Application/Dice/Services/PersonSearcherService.cs:298-348 | one input word on one slot either throws on a clash or moves the slot's count, dictionary and entry on by one word |
| NamesResolution.ScanSlot | TerroristChecker.Application/Dice/Services/PersonSearcherService.cs:298-349 | a slot's scan throws exactly on a clash; otherwise its dictionary is complete, the Hungarian switch is set exactly on a second match, and without it the first match is admitted |
| NamesResolution.ScanNext | TerroristChecker.Application/Dice/Services/PersonSearcherService.cs:293-356 | scanning the next slot throws exactly on that slot's clash, and otherwise keeps the description of all scanned slots |
| NamesResolution.ScanSlots | TerroristChecker.Application/Dice/Services/PersonSearcherService.cs:293-356 | the slot loop throws exactly when some slot clashes; otherwise every slot's dictionary is built, the Hungarian switch is set exactly when some slot was matched twice, and without it every slot is settled |
| NamesResolution.ApplyBestMatch | TerroristChecker.Application/Dice/Services/PersonSearcherService.cs:358-371 | the post-pass gives every slot an entry, sets each covered slot's coefficient to its best-match value, never changes an entry's input word index (a new entry gets the default), and leaves other entries alone |
| NamesResolution.CreateNamesSearchResult | TerroristChecker.Application/Dice/Services/PersonSearcherService.cs:281-374 | a clash throws; with no slot matched twice every slot holds its settled first match; otherwise it fails exactly when the matrix cannot be built, and the entries are a maximum-total assignment |
| NamesResolution.BestMatchCovers | TerroristChecker.Application/Dice/Services/PersonSearcherService.cs:358-371 | after the post-pass every slot holds the coefficient the maximum-total assignment gives it |
| NamesResolution.ResolvedEmpty | TerroristChecker.Application/Dice/Services/PersonSearcherService.cs:245-248 | a resolution is empty exactly when no slot keeps an entry: unmatched slots are dropped (averaging by input count) and none was matched, or the person has no slots |
| NamesResolution.ApartWordsResolve | TerroristChecker.Application/Dice/Services/PersonSearcherService.cs:229-232 | when input words carry distinct indices below the number of slots, nothing throws and the matrix is square |
| NamesResolution.SlotMaps | TerroristChecker.Application/Dice/Services/PersonSearcherService.cs:288-296 | one dictionary per slot, in slot order, equal to the slot's dictionary wherever that is built |
| Ranking.SortDesc | TerroristChecker.Application/Dice/Services/PersonSearcherService.cs:136 | `OrderByDescending` yields the same values, largest first |
| Ranking.SortedUnique | TerroristChecker.Application/Dice/Services/PersonSearcherService.cs:136 | two descending orders of the same values are identical, so the sorted result does not depend on enumeration order |
| Ranking.SumSortDesc | TerroristChecker.Application/Dice/Services/PersonSearcherService.cs:136 | sorting keeps the total |
| Ranking.Mean | TerroristChecker.Application/Dice/Services/PersonSearcherService.cs:138-140 | `Average` throws exactly on no values; otherwise the mean times the count is the sum |
| Ranking.Top | TerroristChecker.Application/Dice/Services/PersonSearcherService.cs:136-137 | `Take` keeps min(k, count) values, in descending order |
| Ranking.TopIsLargest | TerroristChecker.Application/Dice/Services/PersonSearcherService.cs:136-137 | the values taken come from the input, and no value left out is larger than one taken |
| Ranking.TopMean | TerroristChecker.Application/Dice/Services/PersonSearcherService.cs:134-138 | the top-k average throws exactly when there are no values or k is 0 |
| Ranking.AveragesIgnoreOrder | TerroristChecker.Application/Dice/Services/PersonSearcherService.cs:132-140 | both averages depend only on the multiset of coefficients, not on dictionary enumeration order |
| Ranking.TopMeanOfAll | TerroristChecker.Application/Dice/Services/PersonSearcherService.cs:134-140 | taking at least as many values as there are is averaging all of them |
| ResultOrdering.EnumerateSize | TerroristChecker.Application/Dice/Services/PersonSearcherService.cs:132 | enumerating a dictionary yields one value per entry |
| ResultOrdering.EnumerateRemove | TerroristChecker.Application/Dice/Services/PersonSearcherService.cs:132 | whichever entry comes first, the enumerated values form the same multiset |
| ResultOrdering.Values | TerroristChecker.Application/Dice/Services/PersonSearcherService.cs:135-140 | the coefficients of a result, one per entry, as a multiset independent of the order |
| ResultOrdering.InsertByAverage | TerroristChecker.Application/Dice/Services/PersonSearcherService.cs:145 | inserting keeps the order non-increasing, adds exactly the new element, and puts it after every element that is not smaller |
| ResultOrdering.SortByAverage | TerroristChecker.Application/Dice/Services/PersonSearcherService.cs:145 | `OrderByDescending` yields a permutation of its input with non-increasing averages |
| ResultOrdering.PermutationKeepsNoDup | TerroristChecker.Application/Dice/Services/PersonSearcherService.cs:145-146 | reordering keeps the absence of duplicates |
| ResultOrdering.SelectStep | TerroristChecker.Application/Dice/Services/PersonSearcherService.cs:144 | the `Where` filter, one key at a time: a key's entry is appended exactly when its average reaches the minimum |
| ResultOrdering.PermutationKeepsSelection | TerroristChecker.Application/Dice/Services/PersonSearcherService.cs:144-145 | sorting the filtered entries keeps exactly the same selection |
| ResultOrdering.SelectAndSort | TerroristChecker.Application/Dice/Services/PersonSearcherService.cs:132-146 | the output holds exactly the entries reaching the minimum average, one per such key, best average first |
| SlotIndex.AddSlot | TerroristChecker.Application/Dice/Services/PersonSearcherService.cs:44 | indexing one slot puts it under every window of its word with the person as value, keeps entries of other keys, and adds nothing else |
| SlotIndex.IndexSlotsKept | TerroristChecker.Application/Dice/Services/PersonSearcherService.cs:40-45 | indexing a whole name keeps every entry of keys outside the name |
| SlotIndex.IndexSlotsAddsOnly | TerroristChecker.Application/Dice/Services/PersonSearcherService.cs:40-45 | indexing a whole name adds entries of its own slots only, valued by the person |
| SlotIndex.IndexSlotsIndexed | TerroristChecker.Application/Dice/Services/PersonSearcherService.cs:40-45 | indexing a name of distinct slots puts each slot under every window of its word |
| SlotIndex.NewSlots | TerroristChecker.Application/Dice/Services/PersonSearcherService.cs:38-43 | slot i of a new person holds word i with word index i, and no two slots are equal |
| SlotIndex.WellFormedAfter | TerroristChecker.Application/Dice/Services/PersonSearcherService.cs:38-45 | cataloguing a well-formed person keeps the catalog well formed |
| SlotIndex.InCatalogAfter | TerroristChecker.Application/Dice/Services/PersonSearcherService.cs:38-45 | after adding a person whose slots are its own, every indexed slot still points into the catalog |
| PersonSearcher.NewSearcher | TerroristChecker.Application/Dice/Services/PersonSearcherService.cs:22-26 | the constructor fails exactly when the configured N (3 when absent) is below 1; otherwise the searcher is padded and empty |
| PersonSearcher.PreparedIsLong | TerroristChecker.Application/Tools/NgramIndex.cs:167-172 | a prepared word always has at least N-1 characters, so the index can take it |
| PersonSearcher.PreparedNotBlank | TerroristChecker.Application/Dice/Services/PersonSearcherService.cs:61 | a prepared input token is never blank, so `GetMatches` never throws on it |
| PersonSearcher.PreparedTokens | TerroristChecker.Application/Dice/Services/PersonSearcherService.cs:30-31 | one prepared word per token of the full name |
| PersonSearcher.IngestValid | TerroristChecker.Application/Dice/Services/PersonSearcherService.cs:38-45 | adding a person keeps the searcher invariant: padding installed, catalog well formed, every indexed slot pointing into the catalog |
| PersonSearcher.IngestIngests | TerroristChecker.Application/Dice/Services/PersonSearcherService.cs:38-45 | adding a person creates one slot per prepared token, indexes every slot under every window of its word, interns the words, and keeps all other entries |
| PersonSearcher.Add | TerroristChecker.Application/Dice/Services/PersonSearcherService.cs:28-46 | throws an arithmetic error exactly for more than 255 words, with nothing changed; a name without words changes nothing; otherwise the person is ingested |
| PersonSearcher.Clear | TerroristChecker.Application/Dice/Services/PersonSearcherService.cs:48-52 | afterwards no word is stored, every bucket is empty and no person is left; N is kept |
| PersonSearcher.NoBirthdayPassesYearFilter | TerroristChecker.Application/Dice/Services/PersonSearcherService.cs:162-165 | a person without a birthday passes a filter by year of birth alone |
| PersonSearcher.YearFilterRejects | TerroristChecker.Application/Dice/Services/PersonSearcherService.cs:162-165 | a person born in another year, or with fewer names than input words, does not pass |
| PersonSearcher.Group | TerroristChecker.Application/Dice/Services/PersonSearcherService.cs:177-197 | grouping is empty exactly when there are no hits |
| PersonSearcher.GroupContents | TerroristChecker.Application/Dice/Services/PersonSearcherService.cs:180-194 | every hit lands under its owner's id with the input word's index and its coefficient; nothing else appears, and no group is empty |
| PersonSearcher.GroupIsWordPersons | TerroristChecker.Application/Dice/Services/PersonSearcherService.cs:159-171 | grouping the index's matches gives exactly the slots the word finds, under their owners |
| PersonSearcher.SearchPersonsByWord | TerroristChecker.Application/Dice/Services/PersonSearcherService.cs:150-174 | throws exactly for a word the index rejects; otherwise the search goes on exactly when the word found someone |
| PersonSearcher.SearchPersonsByWordFinds | TerroristChecker.Application/Dice/Services/PersonSearcherService.cs:159-171 | the persons map holds exactly the slots the word finds through the birthday filter and the threshold, valued with the word's index and coefficient |
| PersonSearcher.FirstSmallestUnique | TerroristChecker.Application/Dice/Services/PersonSearcherService.cs:258-264 | only one position is the first smallest map |
| PersonSearcher.SmallestIndex | TerroristChecker.Application/Dice/Services/PersonSearcherService.cs:257-264 | the position the loop selects is the first smallest map |
| PersonSearcher.Swap | TerroristChecker.Application/Dice/Services/PersonSearcherService.cs:266-269 | exchanges the two positions, leaves every other one alone, and keeps the multiset of maps |
| PersonSearcher.MoveSmallestResultFirst | TerroristChecker.Application/Dice/Services/PersonSearcherService.cs:255-272 | the first smallest map changes places with the first one, so the first map is now no larger than any other |
| PersonSearcher.PersonExistsInAllMatches | TerroristChecker.Application/Dice/Services/PersonSearcherService.cs:429-445 | true exactly when every map after the first holds the person |
| PersonSearcher.ResolvePerson | TerroristChecker.Application/Dice/Services/PersonSearcherService.cs:226-248 | one person of the first map throws exactly when it survives and its resolution fails; a kept entry is its resolution; a survivor is dropped only when no slot keeps an entry |
| PersonSearcher.SwapKeepsPersons | TerroristChecker.Application/Dice/Services/PersonSearcherService.cs:210 | moving the smallest map first does not change which persons all maps hold |
| PersonSearcher.IntersectMany | TerroristChecker.Application/Dice/Services/PersonSearcherService.cs:199-253 | no maps give no results; otherwise the result holds exactly the survivors with a kept slot, each resolved; it throws only when some survivor's resolution fails |
| PersonSearcher.AverageOf | TerroristChecker.Application/Dice/Services/PersonSearcherService.cs:134-140 | a person's average is the top-k mean when averaging by input count and the mean of all coefficients otherwise, whatever the enumeration order |
| PersonSearcher.AveragesPerId | TerroristChecker.Application/Dice/Services/PersonSearcherService.cs:132-143 | a map pairing each person with its own average is the averages of the results |
| PersonSearcher.FilterAvgCoefficientAndOrderResults | TerroristChecker.Application/Dice/Services/PersonSearcherService.cs:126-147 | throws exactly when some person has no coefficient to average; otherwise it returns exactly the persons whose average reaches the minimum, each once, best first |
| PersonSearcher.PreparedWordAccepted | TerroristChecker.Application/Dice/Services/PersonSearcherService.cs:61 | every prepared input word is accepted by the index |
| PersonSearcher.FoundIsCatalogued | TerroristChecker.Application/Dice/Services/PersonSearcherService.cs:159-165 | every person a word finds is catalogued under its own id, with numbered slots |
| PersonSearcher.TaggedResolves | TerroristChecker.Application/Dice/Services/PersonSearcherService.cs:186-191 | because each word's hits carry that word's own index, no survivor's resolution fails |
| PersonSearcher.AveragesExist | TerroristChecker.Application/Dice/Services/PersonSearcherService.cs:245-248 | no entry of the intersection is empty, so with at least one input word every average exists |
| PersonSearcher.Search | TerroristChecker.Application/Dice/Services/PersonSearcherService.cs:54-124 | throws exactly for more than 255 words; gives null exactly when there are no words or some word finds nobody; otherwise the ranked intersection of the words' person maps |
| PersonSearcher.MatchWords | TerroristChecker.Application/Dice/Services/PersonSearcherService.cs:76-98 | the word loop stops exactly when some word finds nobody, and otherwise keeps each word's map in input order |
| PersonSearcher.MatchInput | TerroristChecker.Application/Dice/Services/PersonSearcherService.cs:76-98 | the loop on the searcher gives each input word's persons map, or null when one of them is empty |
| PersonSearcher.IntersectWords | TerroristChecker.Application/Dice/Services/PersonSearcherService.cs:100 | intersecting the searched words cannot throw, and every entry has a coefficient |
| PersonSearcher.WordsCatalogued | TerroristChecker.Application/Dice/Services/PersonSearcherService.cs:83-86 | every word's persons are catalogued and carry that word's index |
| PersonSearcher.ClearedFindsNobody | TerroristChecker.Application/Dice/Services/PersonSearcherService.cs:48-52 | after `Clear`, no word finds anyone |
| PersonSearcher.AddedWordIsFound | TerroristChecker.Application/Dice/Services/PersonSearcherService.cs:28-46 | after adding a name, each of its prepared words, searched alone, finds its slot with coefficient 1 whenever the filter lets the person through |
| PersonCache.EmptyCacheValid | TerroristChecker.Application/Dice/Services/PersonCacheService.cs:18-21 | a fresh cache keeps the invariant and holds no word, no bucket and no person |
| PersonCache.Prepare | TerroristChecker.Application/Dice/Services/PersonCacheService.cs:41 | taking `GetPreparedInput` to be the older index's `PrepareWord` with N = 3: a prepared word is the word padded by two characters on each side, so it is never blank |
| PersonCache.PreparedTokens | TerroristChecker.Application/Dice/Services/PersonCacheService.cs:25-41 | one prepared word per token of the full name, in order |
| PersonCache.IngestIngests | TerroristChecker.Application/Dice/Services/PersonCacheService.cs:37-46 | adding a person keeps the invariant, creates one slot per token, indexes each slot under every window of its prepared word and keeps every other entry |
| PersonCache.Add | TerroristChecker.Application/Dice/Services/PersonCacheService.cs:23-47 | throws an arithmetic error exactly for more than 127 words, before anything changes; a name without words changes nothing; otherwise the person is ingested |
| PersonCache.CatalogFreshKeepsOwned | TerroristChecker.Application/Dice/Services/PersonCacheService.cs:37-46 | cataloguing a person under a fresh id keeps every indexed slot among its own person's names |
| PersonCache.AddFreshKeepsOwned | TerroristChecker.Application/Dice/Services/PersonCacheService.cs:23-47 | adding a person under an id not yet present keeps every indexed slot among its own person's names |
| PersonCache.Clear | TerroristChecker.Application/Dice/Services/PersonCacheService.cs:49-53 | afterwards no word is stored, every bucket is empty and no person is left |
| PersonCache.PassesByYear | TerroristChecker.Application/Dice/Services/PersonCacheService.cs:219-221 | with no birthday and no year asked for, everyone passes; a year rejects a person born in another year |
| PersonCache.WordHitsMatch | TerroristChecker.Application/Dice/Services/PersonCacheService.cs:219-221 | the hits of an input word are exactly what the index's matching promises for its prepared word, the minimum coefficient and the birthday filter |
| PersonCache.HitsCatalogued | TerroristChecker.Application/Dice/Services/PersonCacheService.cs:219-221 | every hit belongs to a catalogued person |
| PersonCache.HitsOwned | TerroristChecker.Application/Dice/Services/PersonCacheService.cs:219-221 | every hit is one of the names of the person it belongs to, when no id was added twice |
| PersonCache.NamesOf | TerroristChecker.Application/Dice/Services/PersonCacheService.cs:298-299 | the words of a person's names, one per name in order, which the occurrence count of a grouped name is taken over |
| PersonCache.GroupContents | TerroristChecker.Application/Dice/Services/PersonCacheService.cs:285-307 | one entry per catalogued owner of a hit, holding exactly that owner's hits, each with its word's index, its coefficient and how often its word occurs among the owner's names |
| PersonCache.UpdateNamesFrame | TerroristChecker.Application/Dice/Services/PersonCacheService.cs:242-273 | walking a person's names adds exactly those names and leaves every other entry alone |
| PersonCache.UpdateNamesEach | TerroristChecker.Application/Dice/Services/PersonCacheService.cs:242-273 | walking distinct names updates each name exactly as one step of the inner loop does |
| PersonCache.SearchWord | TerroristChecker.Application/Dice/Services/PersonCacheService.cs:209-282 | one word stops the search exactly when it has no hits |
| PersonCache.MatchesWordsSnoc | TerroristChecker.Application/Dice/Services/PersonCacheService.cs:75-89 | matching the first k+1 words is matching the first k and the next one |
| PersonCache.SearchWordKeeps | TerroristChecker.Application/Dice/Services/PersonCacheService.cs:237-279 | one word keeps, of the survivors so far (of everyone at the first word), exactly the persons it found by a name |
| PersonCache.AccumulateSurvivors | TerroristChecker.Application/Dice/Services/PersonCacheService.cs:71-89 | the word loop gives null exactly when there are no words or nobody is found by every word, and otherwise keeps exactly the persons every word found |
| PersonCache.LookupOwned | TerroristChecker.Application/Dice/Services/PersonCacheService.cs:219-221 | with no id added twice, every hit of every input word is among its person's names |
| PersonCache.FirstHit | TerroristChecker.Application/Dice/Services/PersonCacheService.cs:251-272 | the first input word whose hits hold a name, or none when no earlier word found it |
| PersonCache.GroupNamesAsExpected | TerroristChecker.Application/Dice/Services/PersonCacheService.cs:227-234 | after the first word, a survivor holds all its names, each carrying the first word's index and coefficient when that word found it and an empty entry otherwise |
| PersonCache.UpdateNamesAsExpected | TerroristChecker.Application/Dice/Services/PersonCacheService.cs:251-272 | a later word fills in only the names no earlier word found, so each name carries its first finder's index and coefficient |
| PersonCache.SearchWordNames | TerroristChecker.Application/Dice/Services/PersonCacheService.cs:237-279 | one word keeps every survivor's names at the entries their first finders give them |
| PersonCache.AccumulateNames | TerroristChecker.Application/Dice/Services/PersonCacheService.cs:251-272 | after the whole loop, every name of a survivor carries the index and coefficient of the first input word that found it |
| PersonCache.ScoreOf | TerroristChecker.Application/Dice/Services/PersonCacheService.cs:97 | a survivor's stored average is the mean of its names' coefficients |
| PersonCache.Scores | TerroristChecker.Application/Dice/Services/PersonCacheService.cs:93-97 | every survivor is averaged, and nobody else |
| PersonCache.ScoresPerId | TerroristChecker.Application/Dice/Services/PersonCacheService.cs:93-97 | a map averaging each survivor under its own id is the averages of the survivors |
| PersonCache.Score | TerroristChecker.Application/Dice/Services/PersonCacheService.cs:95-97 | the stored average of one survivor, which never throws because no survivor has an empty names map |
| PersonCache.AverageAll | TerroristChecker.Application/Dice/Services/PersonCacheService.cs:91-104 | every survivor, with its average stored |
| PersonCache.Search | TerroristChecker.Application/Dice/Services/PersonCacheService.cs:62-130 | with the word loop corrected to visit every input word (the code's loop is `PersonCache.AccumulateAsWritten`, which agrees up to 127 words): null exactly when there are no words or nobody is found by every word; otherwise exactly the persons every word found whose average reaches the minimum, best first, with each name carrying its first finder's coefficient |
| PersonCache.SByteIncrement | TerroristChecker.Application/Dice/Services/PersonCacheService.cs:75 | the signed-byte increment stays in -128..127 and agrees with the true successor modulo 256 |
| PersonCache.AsWrittenAgrees | TerroristChecker.Application/Dice/Services/PersonCacheService.cs:75-89 | with up to 127 input words the counter never wraps, and the loop as written is the corrected loop |
| PersonCache.AsWrittenWraps | TerroristChecker.Application/Dice/Services/PersonCacheService.cs:75-77 | with more than 127 input words, the loop as written throws exactly when somebody survives the first 128 words |
| PersonCache.AddedNameIsHit | TerroristChecker.Application/Dice/Services/PersonCacheService.cs:39-45 | after adding a name, each of its words finds its own slot when the filter lets the person through |
| PersonCache.EveryWordMatchedSurvives | TerroristChecker.Application/Dice/Services/PersonCacheService.cs:75-89 | a person found by every input word survives the loop |
| PersonCache.EveryWordMatchedThrows | TerroristChecker.Application/Dice/Services/PersonCacheService.cs:75-77 | with more than 127 input words that all find one person, the corrected loop keeps that person while the loop as written throws |
| PersonCache.IvansSplit | TerroristChecker.Application/Dice/Services/PersonCacheService.cs:71 | "IVAN" written 128 times splits into 128 words "IVAN" |
| PersonCache.IvanCache | TerroristChecker.Application/Dice/Services/PersonCacheService.cs:23-47 | a cache holding only "IVAN" finds that person with the word "IVAN" |
| PersonCache.SByteCounterWraps | TerroristChecker.Application/Dice/Services/PersonCacheService.cs:75-77 | for the input "IVAN" 128 times against a cache holding "IVAN", the corrected loop finds the person while the loop as written throws an index error |

## Left out

- Concurrency: `Parallel.For` over the input words and `Parallel.ForEach` over the first map are modelled as sequential loops; the race between concurrent `Dictionary.Add` calls is not modelled.
- Logging, the timing of the search and the `SearchAsync` wrapper around `Task.Run`: they do not change the results.
- Floating point: coefficients and averages are exact reals, so rounding in `double` arithmetic is not modelled.
- Text.Upper: `ToUpperInvariant` is modelled for the ASCII letters only; other letters are kept as they are.
- Capacity arguments of the dictionaries and hash sets: they only size storage.
- `string.Intern` in the word storage: the model keeps the interned word's content, not its reference identity.
- Hash codes: the structural hash of a name slot is an arbitrary function of the value, so only what holds for every hash is stated.
- PersonCache.Search: an id added twice without `Clear` is not modelled faithfully. In the code the second `Add` builds a second person value for the same id, whose slots are, unless their structural hashes collide, separate keys of the index (a slot hashes over all its fields, the person value included), so a word hitting both makes `GroupNamesToPersons` throw `ArgumentException` on the duplicate id (`TerroristChecker.Application/Dice/Services/PersonCacheService.cs:287-304`). The model keeps one person per id and returns a result; what the names of a survivor hold is stated only when no id was added twice (`Owned`). The application's cache refresh calls `Clear()` before adding every person (`TerroristChecker.Application/Cqrs/Commands/UpdatePersonCacheCommand.cs:29`), so it never re-adds an id.
- PersonCache.Search: the word loop is the corrected one; with 128 or more input words the code's `sbyte` counter wraps and throws `IndexOutOfRangeException`, which `PersonCache.AccumulateAsWritten`, `PersonCache.AsWrittenWraps` and `PersonCache.SByteCounterWraps` model (see Findings).
- PersonSearcher.Search: an id added twice without `Clear` is not modelled faithfully. In the code the slots of the two person values of one id are, unless their structural hashes collide, separate keys of the index, and `GroupNamesToPersons` throws `ArgumentException` when `ToDictionary` meets the id twice (`TerroristChecker.Application/Dice/Services/PersonSearcherService.cs:180-194`); the model keeps one person per id, so its `Search` returns a result there. The application's cache refresh calls `Clear()` before adding every person (`TerroristChecker.Application/Cqrs/Commands/UpdatePersonCache/UpdatePersonCacheCommand.cs:28`), so it never re-adds an id.
- NgramIndex.Score: a non-positive denominator of the Dice ratio, which yields an IEEE infinity, NaN or a negative ratio in `double`, is modelled as 0; it cannot arise for keys added with their own n-gram count.
- PersonSearcher.KeyNgrams: the key type of the current index, the three-argument `PersonNameModel` of `TerroristChecker.Application.Dice.Models` (`TerroristChecker.Application/Dice/Services/PersonSearcherService.cs:7`, `:42`), is not part of this model, and its `GetLength()` is not shown. It is taken to be the length of the slot's prepared word, so the key's n-gram count in the Dice denominator (`TerroristChecker.Application/Tools/NgramIndex.cs:138-149`) is that length minus N-1. Every coefficient of the current search rests on this choice; it is what makes a word scored against its own slot give exactly 1 (`NgramIndex.AddThenQueryScoresOne`, `PersonSearcher.AddedWordIsFound`).
- HungarianAlgorithm.FindAssignments: only square matrices are modelled. The code accepts any h×w matrix, but with more rows than columns step 1 can never find every row's column covered (`TerroristChecker.Application/Dice/HungarianAlgorithm.cs:119`), so its loop does not end; the only caller pads the matrix to a square first (`TerroristChecker.Application/Dice/Services/PersonSearcherService.cs:408-414`).
- PersonCache.Prepare: the cache calls `GetPreparedInput` on its index (`TerroristChecker.Application/Dice/Services/PersonCacheService.cs:41`, `:78`), which is not part of this model; the older index shows only `PrepareWord` (`TerroristChecker.Application/Dice/NgramIndex.cs:142-147`). `GetPreparedInput` is taken to be `PrepareWord` with N = 3.
- PersonCache.KeyNgrams: the cache's keys are the three-argument `PersonNameModel` of `TerroristChecker.Application.Dice.Models` (`TerroristChecker.Application/Dice/Services/PersonCacheService.cs:42`), which is not part of this model. Its n-gram count, which the older index puts into every Dice denominator (`TerroristChecker.Application/Dice/NgramIndex.cs:118`, `:123`), is taken to be the Domain slot's `GetNgramCount()`, the word's length minus 2 (`TerroristChecker.Domain/Dice/Models/PersonNameModel.cs:28`).
- HungarianAlgorithm.FindAssignments: costs are unbounded integers, so 32-bit overflow in the reductions and in the `(int)` scaling casts of the best-match matrix is not modelled.
- HungarianAlgorithm.FindAssignments: its contract states that the assignment is optimal, not which of several tied optima it is; the tie-breaking comes from the row-major scan of `HungarianSteps.FindZero`, which is stated there but not carried through the solver's loop.
- HungarianSteps.FindMinimum: the `int.MaxValue` starting value of the minimum search is modelled as `None`.
- BestMatch.HungarianBestMatch: only the square case is solved; a matrix with more rows than columns is padded to a square, and more columns than rows throws `IndexOutOfRangeException`, as in the code.
- Ranking.TopMean: its contract states only when it throws; its value is fixed by Ranking.AveragesIgnoreOrder and Ranking.TopMeanOfAll.
- Comparers: `PersonModelComparer` and `PersonNameModelComparer` are modelled by comparing keys (the person id; the person id and word index), which Domain.PersonEqualsIsEquivalence and Domain.NameSlotEqualsIsEquivalence relate to the comparers. This agrees with the code only while every id is added once after `Clear`: a re-added id gives two person values that the code's structural slot hash keeps apart (see the two `Search` lines above).
- ResultOrdering.SelectAndSort: dictionary enumeration order is unspecified, so the order among equal averages is not fixed; the result is stated as sorted by average and selecting exactly the entries that reach the minimum.
- PersonSearcher.IntersectMany: when a resolution throws, which person throws first depends on the parallel enumeration, so the failure is stated as "some survivor's resolution fails".
- The `FullName` text kept on the older person record is not used by the search and carries no property.
- PersonSearcher.MatchWords: the lookup is a parameter so the loop can be reasoned about apart from the index.
- Removing entries from a dictionary while enumerating it in `TerroristChecker.Application/Dice/Services/PersonCacheService.cs` (lines 93-103, 237-279) is modelled as building the pruned map; the runtime's enumeration rules are not modelled.
- The unit test `PersonSearcherService_ComplexSearchShouldUseHungarianAlggorithm` (`TerroristChecker.Application.UnitTests/PersonSearcherServiceTests.cs:39-45` and `:75-91`) has no concrete lemma: its expectation depends on the Dice coefficients of the three input words against all seventeen name slots of seven persons, through the index built by seven `Add` calls, which is far beyond what the verifier can evaluate symbolically. The steps it exercises are stated for all inputs (`PersonSearcher.Search`, `NamesResolution.CreateNamesSearchResult`, `BestMatch.BestMatchIsMaximal`), and the test's Hungarian case is `BestMatch.HungarianBestMatchCase`.
- The mediator, HTTP, persistence and caching layers, the query handlers, the validation and logging behaviours and the integration tests are outside this model.

## Findings

| source | as written | input that shows it | evidently intended | confidence | as-written member | corrected member |
|---|---|---|---|---|---|---|
| TerroristChecker.Application/Dice/Services/PersonCacheService.cs:75-77 | the input-word counter is an `sbyte`; after word 127 it wraps to -128, the loop condition still holds, and `inputWords[-128]` throws `IndexOutOfRangeException` | a cache holding the person "IVAN" (id 1), searched with "IVAN" written 128 times | the loop visits every input word, or rejects such input up front as `Add` does | not executed | PersonCache.SByteCounterWraps | PersonCache.AccumulateSurvivors |
