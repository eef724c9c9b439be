# reasoning-bank-slm in Dafny

This project models the deterministic core of reasoning-bank-slm. That system runs a small
language model on math word problems (GSM8K, MATH) with and without a "reasoning bank". The
bank is a persisted list of strategy hints, which are extracted from earlier solutions and
retrieved into later prompts. The model covers:

- `Memory` (memory.dfy): `MemoryItem`, its dictionary form, and `ReasoningBank`.
  - The bank is a class whose `memories` field is changed in place.
  - A ghost `persisted` field stands for the JSON store, which is rewritten after every change.
- `Retriever` (retriever.dfy): three parts.
  - The answer-leak guard: nested loops with early returns, proved against a predicate.
  - Top-k selection over given similarity scores and a given `argsort` ranking.
  - Rendering of the selection into a prompt block: a `+=` loop.
- `Extractor` (extractor.dfy): field extraction, the memory-item parser and the choice of extraction prompt.
- `SolverClient` (llm_client.dfy): the system and user prompts of `solve_math_problem`, and how it splits a reply into reasoning and answer.
- `Judge` (judge.dfy): `_normalize_text`, `_extract_number`, `_clean_number`, `is_correct` and `evaluate_with_reasoning`.
  - The regular expressions are hand-written scanners.
  - `float()` is a decimal parser over exact reals.
  - The in-file tests are stated as lemmas.
- `Phase1Stats` (run_phase1.dfy): the Wilson score interval and the experiment summary.
- `Analysis` (analyze_results.dfy): running accuracies, improvements and regressions, net change and error-bar half-widths.
- `Datasets` (download_dataset.dfy): GSM8K and MATH preparation.
  - Answer extraction, the level filter and the 80/20 fallback split.
  - Problem numbering and the filter for missing answers.
- `Text` (text.dfy) and `Wrappers` (wrappers.dfy): shared string operations, the regular expressions used in more than one file, and `Option`/`Result`.

The fallback pattern of `_extract_number` is modelled twice (see "## Findings"):
- as written, with `\d{1,3}`: `Judge.ExtractNumberAsWritten`, `Judge.IsCorrectAsWritten`;
- as evidently intended, with `\d+`: `Judge.ExtractNumber`, `Judge.IsCorrect`.

`Judge.EvaluateWithReasoning` takes the variant as a parameter.

Statements that hold for both are proved for a `lead: Leading` parameter that selects the variant.

## Model

| member | source | states |
|---|---|---|
| Memory.ToDict | src/memory.py:18-20 | the dictionary has exactly the seven field names as keys |
| Memory.FromDict | src/memory.py:22-24 | a record loads only when its keys include every required field and no unknown one |
| Memory.FromToDict | src/memory.py:18-24 | `from_dict(to_dict(m)) == m`, with or without an embedding |
| Memory.ToFromDict | src/memory.py:18-24 | a record that loads is the dictionary of its item; a record without `embedding` only gains `"embedding": null` |
| Memory.Encode | src/memory.py:48-52 | `save` writes a JSON list with one record per memory |
| Memory.DecodeRecords | src/memory.py:59 | a successful load has one item per record |
| Memory.DecodeStore | src/memory.py:54-61 | a missing store is an empty bank, an unreadable one an error; a list loads record by record; an empty object or empty string loads as an empty bank, any other document fails |
| Memory.DecodeEncodedRecords | src/memory.py:51-59 | decoding the saved records gives back the list |
| Memory.SaveLoadRoundTrip | src/memory.py:48-61 | loading what `save` wrote reproduces the bank exactly, in order |
| Memory.ReasoningBank.constructor | src/memory.py:29-31 | a new bank is empty over the given store |
| Memory.ReasoningBank.Open | src/memory.py:29-32 | opening succeeds exactly when the store decodes, and then holds its items (none for a missing store, an empty object or an empty string); otherwise the load error propagates |
| Memory.ReasoningBank.Load | src/memory.py:54-61 | the list becomes what the store decodes to: empty for a missing store, an empty object or an empty string; an unreadable or malformed store is an error and leaves the list as it was |
| Memory.ReasoningBank.Save | src/memory.py:48-52 | the store afterwards holds exactly the current list |
| Memory.ReasoningBank.AddMemory | src/memory.py:34-37 | appends exactly the item at the end, keeps every earlier item, and the store holds the new list |
| Memory.ReasoningBank.AddMemories | src/memory.py:39-42 | appends the items in their order, the length grows by their number, and the store holds the new list |
| Memory.ReasoningBank.GetAllMemories | src/memory.py:44-46 | returns exactly the stored list |
| Memory.ReasoningBank.Clear | src/memory.py:63-66 | the bank is empty and the store holds the empty list |
| Memory.ReasoningBank.Len | src/memory.py:68-69 | the number of stored memories |
| Retriever.NumberMatchAt | src/retrieval/retriever.py:42 | a match of `\b\d+\.?\d*\b` starts with a digit, has word boundaries at both ends and holds only digits and points |
| Retriever.NumberTokensFrom | src/retrieval/retriever.py:42 | every token found in the expected value is non-empty, starts with a digit, holds only digits and points and occurs in the value |
| Retriever.OccurrencesFrom | src/retrieval/retriever.py:55 | every position found is an occurrence of the number with word boundaries on both sides |
| Retriever.AnyKeyword | src/retrieval/retriever.py:64 | true exactly when one of the nine result keywords occurs in the context |
| Retriever.AnyOccurrenceNearKeyword | src/retrieval/retriever.py:57-65 | the loop over positions finds a keyword exactly when some occurrence has one within 50 characters |
| Retriever.HasAnswerLeak | src/retrieval/retriever.py:30-67 | the nested loops with early returns decide exactly the leak predicate |
| Retriever.NoLeakWithoutExpectedNumber | src/retrieval/retriever.py:36-45 | nothing leaks without an expected value or when it has no digit |
| Retriever.LeakIsBoundedOccurrence | src/retrieval/retriever.py:39-65 | a leak is an occurrence, at word boundaries in the lower-cased text, of a number of the expected value with a keyword near it |
| Retriever.OccurrencesComplete | src/retrieval/retriever.py:55 | for a number made of digits only, the left-to-right scan misses no occurrence at word boundaries |
| Retriever.BoundedNearLeaks | src/retrieval/retriever.py:53-65 | such an occurrence with a keyword near it is a leak |
| Retriever.LeakIffForWholeNumbers | src/retrieval/retriever.py:30-67 | for whole-number expected values, a leak happens if and only if some number occurs at word boundaries with a keyword in the window from 50 before to 50 after |
| Retriever.Reverse | src/retrieval/retriever.py:87 | `[::-1]`: the same elements in the opposite order |
| Retriever.CutOff | src/retrieval/retriever.py:87 | `[-(3*top_k):]` keeps the last `3*top_k` indices, or all of them when there are fewer or when `top_k` is 0 |
| Retriever.Candidates | src/retrieval/retriever.py:89 | one candidate per kept index |
| Retriever.DropLeaking | src/retrieval/retriever.py:93 | keeps exactly the candidates that do not leak |
| Retriever.DropLeakingSubsequence | src/retrieval/retriever.py:93 | the filter keeps the candidates' order |
| Retriever.Retrieve | src/retrieval/retriever.py:69-98 | empty for no memories; at most `top_k` results; without an expected value, exactly the first `top_k` candidates; with one, none leaks and the result is the first `top_k` of the non-leaking candidates in rank order |
| Retriever.CandidatesDescending | src/retrieval/retriever.py:87-89 | the candidates come best first |
| Retriever.RetrieveOrdered | src/retrieval/retriever.py:87-96 | the result is an order-preserving subsequence of the candidates, and its scores never increase |
| Retriever.RetrieveFromTopCandidates | src/retrieval/retriever.py:87-96 | every result is among the `3*top_k` best-ranked candidates, and no memory outside them scores higher than a result |
| Retriever.CandidateBeatsOutsider | src/retrieval/retriever.py:87-89 | a candidate scores at least as high as any memory left out of the candidates |
| Retriever.RankedInTop | src/retrieval/retriever.py:87 | every index in the kept tail of the ranking is a candidate index |
| Retriever.PositionOf | src/retrieval/retriever.py:87 | every memory index occurs in the `argsort` ranking |
| Retriever.RetrieveEmptyWhenTopCandidatesLeak | src/retrieval/retriever.py:87-94 | when every candidate leaks, nothing is returned, however many non-leaking memories rank lower |
| Retriever.DropAllLeaking | src/retrieval/retriever.py:93 | filtering candidates that all leak leaves nothing |
| Retriever.RetrieveKeepsUsableCandidates | src/retrieval/retriever.py:87-96 | a candidate that does not leak is missing from the result only when the result already has `top_k` memories |
| Retriever.NoDigitNeverLeaks | src/retrieval/retriever.py:39-67 | a memory with no digit in its title, description or content never leaks |
| Retriever.StatedNumberLeaks | src/retrieval/retriever.py:39-65 | a memory that says "is N" for a whole number N at a word boundary leaks N |
| Retriever.RetrievalScenario | scripts/test_retrieval.py:12-55 | with the memory stating 42 and the general strategy, `top_k` 2 and expected value `42`, exactly the general strategy is returned, whatever the scores |
| Retriever.FormatMemoriesForPrompt | src/retrieval/retriever.py:100-114 | `""` exactly for an empty selection; otherwise the header and warning, then one section per memory numbered from 1 |
| Retriever.FormatAppend | src/retrieval/retriever.py:108-112 | one more memory appends one more section, numbered one past the others |
| Retriever.FormatIgnoresScoreAndDescription | src/retrieval/retriever.py:108-112 | only the success flag, title and content are rendered; scores and descriptions are not |
| Retriever.SectionsAgree | src/retrieval/retriever.py:108-112 | selections that agree on status, title and content render the same sections |
| Extractor.StandardUsable | src/extraction/extractor.py:108 | the four markers are `TITLE:`, `DESCRIPTION:`, `CONTENT:` and `MEMORY `, all non-empty |
| Extractor.EarliestMarker | src/extraction/extractor.py:110-115 | the end found lies within the text after the field name |
| Extractor.EarliestMarkerIsEarliest | src/extraction/extractor.py:110-115 | no marker occurs before the end found, and one occurs there unless it is the end of the text |
| Extractor.ExtractField | src/extraction/extractor.py:101-118 | the loop that shrinks `end` computes the field value; `""` when the field name is absent |
| Extractor.FieldValueHasNoMarker | src/extraction/extractor.py:108-117 | a field value contains none of the markers |
| Extractor.FieldValueSpan | src/extraction/extractor.py:103-117 | the value is the stripped text from just after the field's first occurrence to the earliest later marker, or to the end |
| Extractor.ItemOf | src/extraction/extractor.py:82-95 | a segment yields an item exactly when its title, description and content are all non-empty |
| Extractor.ItemsFrom | src/extraction/extractor.py:79-95 | at most one item per segment |
| Extractor.ItemsFromWellFormed | src/extraction/extractor.py:86-94 | every item has non-empty fields, the given problem id, outcome and time, and no embedding |
| Extractor.ItemsFromAppend | src/extraction/extractor.py:79-95 | segments are parsed independently and their items are kept in segment order |
| Extractor.ParseMemoryItems | src/extraction/extractor.py:72-99 | the loop parses the segments after the first `MEMORY `; fewer items than split parts, all well formed |
| Extractor.NoMarkerNoItems | src/extraction/extractor.py:77-79 | a reply without `MEMORY ` yields no items |
| Extractor.PromptsDiffer | src/extraction/extractor.py:32-70 | the success prompt and the failure prompt are never equal |
| Extractor.PromptChoice | src/extraction/extractor.py:19-23 | the failure prompt is used if and only if the attempt failed; it carries the expected answer after `EXPECTED: `, which is empty when none was recorded |
| Extractor.ExtractFromTrajectory | src/extraction/extractor.py:15-30 | sends the prompt the outcome selects and returns the well-formed items parsed from the reply |
| SolverClient.SystemPrompt | src/llm_client.py:42-51 | the fixed instructions come first; they are the whole prompt exactly when there are no memories; otherwise the memories and the reminder follow and can be read back |
| SolverClient.SystemPromptInjective | src/llm_client.py:48-51 | different memory contexts give different system prompts |
| SolverClient.UserPrompt | src/llm_client.py:53 | the problem header, the question, then the solution header |
| SolverClient.UserPromptInjective | src/llm_client.py:53 | different questions give different user prompts |
| SolverClient.ParseSolverResponse | src/llm_client.py:58-76 | the reply is always kept. With both markers, the reasoning and answer are stripped and the answer holds no `ANSWER:`. Otherwise the reasoning is the reply, the answer is the last `-?\d+\.?\d*` match, and it is empty exactly when the reply has no digit |
| SolverClient.ReasoningPart | src/llm_client.py:63 | removing `REASONING:` and stripping gives back the reasoning of a formatted reply |
| SolverClient.ParseFormattedResponse | src/llm_client.py:61-64 | parsing a reply in the requested format returns its reasoning and answer |
| SolverClient.ParseKeepsFirstAnswer | src/llm_client.py:62-64 | a second `ANSWER:` ends the answer, and what follows it is dropped |
| SolverClient.ParseFallbackLastNumber | src/llm_client.py:65-70 | without the markers, a reply ending in a numeral (sign and decimal part included) answers with that numeral, when the character before it cannot join it |
| SolverClient.TotalExample | src/llm_client.py:69-70 | "so the total is 7" answers "7" |
| SolverClient.NegativeExample | src/llm_client.py:69-70 | "it is -2.5" answers "-2.5" |
| SolverClient.TrailingPointExample | src/llm_client.py:69-70 | "5." answers "5." |
| Judge.Whole | src/judge/evaluator.py:109-112 | `int(v) if v.is_integer() else v`: the value is kept, and it is an `int` exactly when it is whole |
| Judge.CleanDigits | src/judge/evaluator.py:85-114 | a string of digits is cleaned to the `int` it spells |
| Judge.CleanPointNumber | src/judge/evaluator.py:109-112 | `a.b` is cleaned to `a + b/10^len(b)`, an `int` when that is whole |
| Judge.FractionOfDigits | src/judge/evaluator.py:95-104 | `a/b` splits into a fraction whose value is `a/b`, or none when `b` is zero |
| Judge.SlashIsNotDecimal | src/judge/evaluator.py:109-114 | `float` rejects `a/b` |
| Judge.CleanFraction | src/judge/evaluator.py:95-114 | `a/b` is cleaned to the quotient, and to nothing when the denominator is zero |
| Judge.CleanComma | src/judge/evaluator.py:91-92 | thousands separators are dropped before parsing |
| Judge.DigitsText | src/judge/evaluator.py:48-83 | a plain number of digits is extracted as its value, as written for up to three digits and corrected for any length |
| Judge.ChunkedDigits | src/judge/evaluator.py:78-81 | as written, a plain number of four to six digits is extracted as the digits after the third |
| Judge.PointNumberText | src/judge/evaluator.py:78-81 | a plain decimal `a.b` is extracted as its value |
| Judge.FractionText | src/judge/evaluator.py:73-75 | a bare fraction is extracted as its quotient, and as nothing when the denominator is zero |
| Judge.GoldAnswerText | src/judge/evaluator.py:62-65 | in `... #### n` the number after the marker is extracted |
| Judge.AnswerLineText | src/judge/evaluator.py:67-70 | in `... ANSWER: n` the number after the marker is extracted |
| Judge.BoxedText | src/judge/evaluator.py:55-60 | in `... \boxed{n}` the boxed number is extracted |
| Judge.LastNumberRule | src/judge/evaluator.py:78-81 | with no format marker or slash, the number that ends the text is the one cleaned |
| Judge.LastNumberText | src/judge/evaluator.py:78-81 | prose followed by a number of digits is extracted as that number |
| Judge.CommaNumberText | src/judge/evaluator.py:78-81 | prose followed by a comma-grouped number, with or without decimals, is extracted as that number without its commas |
| Judge.ExtractNeedsDigit | src/judge/evaluator.py:48-83 | a text without a digit, the empty text included, yields no number under every rule |
| Judge.NoDigitsCompareAsText | src/judge/evaluator.py:20-24 | when either side has no digit, answers are compared as normalised text |
| Judge.NormalizeTextShape | src/judge/evaluator.py:36-46 | the normalised text has no upper-case letter, no `\`, `$`, `{` or `}`, and single spaces between words with none at the ends |
| Judge.NormalizeTextIdempotent | src/judge/evaluator.py:36-46 | normalising twice is normalising once |
| Judge.IsCorrectReflexive | src/judge/evaluator.py:14-31 | every answer matches itself |
| Judge.IsCorrectSymmetric | src/judge/evaluator.py:14-31 | the comparison does not depend on which side is predicted |
| Judge.IntsCompareExactly | src/judge/evaluator.py:27-28 | two `int` values match only when equal |
| Judge.NumbersCompare | src/judge/evaluator.py:26-31 | two `int`s match when equal; otherwise the values match when they differ by less than 0.01 |
| Judge.PlainNumbersCompareByValue | src/judge/evaluator.py:14-31 | with the corrected pattern, two plain numbers match exactly when their values are equal |
| Judge.FallbackMisreadsPlainNumbers | src/judge/evaluator.py:78 | as written, "2500" and "25000" are both extracted as 0, and they match |
| Judge.CriticalPlain | src/judge/evaluator.py:183 | with the corrected pattern, "2500" and "25000" are extracted as 2500 and 25000 |
| Judge.CriticalPlainCompare | src/judge/evaluator.py:183 | with the corrected pattern, "2500" does not match "25000" |
| Judge.CriticalFormatted | src/judge/evaluator.py:184 | "ANSWER: 2500" and "#### 25000" are extracted as 2500 and 25000 |
| Judge.CriticalFormattedCompare | src/judge/evaluator.py:184 | "ANSWER: 2500" does not match "#### 25000" |
| Judge.GoldExample | src/judge/evaluator.py:145 | "Some reasoning #### 42" gives 42 |
| Judge.BoxedExample | src/judge/evaluator.py:149 | "Therefore \boxed{42}" gives 42 |
| Judge.AnswerExample | src/judge/evaluator.py:153 | "ANSWER: 42" gives 42 |
| Judge.CurrencyExample | src/judge/evaluator.py:157 | "The answer is $1,234.56" gives 1234.56 |
| Judge.CommaExample | src/judge/evaluator.py:158 | "Total: 1,000" gives 1000 |
| Judge.FractionExample | src/judge/evaluator.py:162 | "3/4" gives 0.75 |
| Judge.HalfExample | src/judge/evaluator.py:163 | "1/2" gives 0.5 |
| Judge.LastNumberExample | src/judge/evaluator.py:167 | "First we get 10, then 20, final answer is 30" gives 30 |
| Judge.WholePointExample | src/judge/evaluator.py:171 | "42.0" gives the `int` 42 |
| Judge.PointExample | src/judge/evaluator.py:172 | "42.5" gives the `float` 42.5 |
| Judge.SameNumberExample | src/judge/evaluator.py:176 | "42" matches "42" |
| Judge.FormatMismatchExample | src/judge/evaluator.py:177 | "ANSWER: 42" matches "#### 42" |
| Judge.FractionDecimalExample | src/judge/evaluator.py:178 | "1/2" matches "0.5" |
| Judge.DifferentNumberExample | src/judge/evaluator.py:179 | "42" does not match "43" |
| Judge.EvaluateWithReasoning | src/judge/evaluator.py:116-131 | inputs echoed; the two numbers are what `_extract_number` reads from each side and success is `is_correct`, for the chosen fallback pattern. Without a number on either side, success is normalised-text equality; with two `int`s, their equality; otherwise agreement within 0.01. A solution without a digit has no number |
| Judge.EvaluateMisreadsPlainNumbers | src/judge/evaluator.py:116-131 | as written, evaluating "2500" against "25000" reports both numbers as 0 and a success |
| Judge.EvaluateReadsPlainNumbers | src/judge/evaluator.py:116-131 | with the corrected pattern, it reports 2500 and 25000 and a failure |
| Phase1Stats.WilsonCi | src/run_phase1.py:161-175 | `(0, 0)` for an empty arm; otherwise clamped to [0, 1], ordered, and containing the observed proportion |
| Phase1Stats.WilsonIgnoresConfidence | src/run_phase1.py:161-169 | the `confidence` argument has no effect: `z` is always 1.96 |
| Phase1Stats.WilsonContains | src/run_phase1.py:165-173 | the unclamped Wilson interval contains the proportion |
| Phase1Stats.WilsonContainsIfBounded | src/run_phase1.py:165-173 | the same, for every successes count that does not exceed the trials, and the proportion is then in [0, 1] |
| Phase1Stats.ProportionInUnit | src/run_phase1.py:167 | the proportion of at most `n` successes among `n` trials lies in [0, 1] |
| Phase1Stats.Successes | src/run_phase1.py:114-115 | at most the arm size; 0 exactly when none succeeded; the arm size exactly when all did |
| Phase1Stats.Accuracy | src/run_phase1.py:117-118 | 0 for an empty arm, otherwise successes over the arm size, always in [0, 1] |
| Phase1Stats.ArmInterval | src/run_phase1.py:121-122 | an arm's interval lies in [0, 1] and contains its accuracy |
| Phase1Stats.RelativeImprovement | src/run_phase1.py:132 | 0 when the baseline accuracy is 0, otherwise the absolute improvement over it |
| Phase1Stats.Summarize | src/run_phase1.py:114-138 | accuracies, intervals that contain them, absolute and relative improvement. Significance holds iff the memory lower bound exceeds the baseline upper bound, overlap is its negation, and significance implies higher memory accuracy. Sizes and seed are echoed |
| Analysis.Flags | src/analyze_results.py:17-18 | one success flag per result |
| Analysis.Cumulative | src/analyze_results.py:20-21 | one entry per result; entry `i` is the accuracy of the first `i+1` results, in [0, 1] |
| Analysis.CumulativeEndsAtAccuracy | src/analyze_results.py:20-21 | the last running accuracy is the overall accuracy |
| Analysis.CumulativeStep | src/analyze_results.py:20-21 | each running accuracy, scaled by its count, adds the new outcome to the previous one |
| Analysis.Selected | src/analyze_results.py:78-116 | the selected pairs are exactly those, among the zipped pairs, with the same problem that flipped in the given direction, each once and in order |
| Analysis.PairCount | src/analyze_results.py:79 | `zip` stops at the shorter list |
| Analysis.CollectChanges | src/analyze_results.py:78-89 | the loop builds one record, with the question cut to 100 characters, per selected pair, in order |
| Analysis.ChangesDisjoint | src/analyze_results.py:80-81 | no pair is both an improvement and a regression, so together they number at most the pairs |
| Analysis.MismatchedPairsIgnored | src/analyze_results.py:107-108 | a pair whose problems differ is in neither list |
| Analysis.SelectedDifference | src/analyze_results.py:78-116 | with matching problems, improvements minus regressions is the memory arm's successes minus the baseline's |
| Analysis.NetChangeIsSuccessDifference | src/analyze_results.py:139-141 | the net change is the difference in successes when the runs list the same problems |
| Analysis.HalfWidth | src/analyze_results.py:52-55 | `(upper - lower) / 2` is the distance from the midpoint to either end, non-negative for an ordered interval |
| Analysis.SummaryHalfWidths | src/analyze_results.py:52-55 | the half-widths of a summary's intervals lie in [0, 1/2] |
| Datasets.ProblemId | src/download_dataset.py:18 | the prefix followed by the decimal index |
| Datasets.ProblemIdInjective | src/download_dataset.py:18 | different indices give different ids |
| Datasets.ExtractAnswer | src/download_dataset.py:24-29 | None exactly without `####`; otherwise the stripped text after the last `####` |
| Datasets.AfterSeparatorLine | src/download_dataset.py:28 | the text after a final separator line is the answer written there |
| Datasets.ExtractAnswerOfGold | src/download_dataset.py:24-29 | a solution ending in `#### answer` gives back the answer |
| Datasets.FormatGsm | src/download_dataset.py:16-22 | id from the index, question and answer kept, expected value missing exactly without `####` |
| Datasets.PrepareGsm8k | src/download_dataset.py:12-32 | 200 training problems numbered from 0 and 100 test problems numbered from 1000, in dataset order |
| Datasets.GsmIdsDistinct | src/download_dataset.py:31-32 | all 300 ids are distinct |
| Datasets.ExtractBoxedAnswer | src/download_dataset.py:116-133 | None exactly when there is neither a boxed group nor a digit. A boxed answer is stripped and free of `\`, `$` and `}`. Otherwise the last `-?\d+\.?\d*` match |
| Datasets.ExtractBoxedOfGroup | src/download_dataset.py:119-126 | the answer is the first `\boxed{...}` group, up to its first `}`, with every `\` and `$` removed, then stripped |
| Datasets.BoxedFractionExample | src/download_dataset.py:119-126 | `\boxed{\frac{1}{2}}` answers `frac{1` |
| Datasets.BoxedDollarExample | src/download_dataset.py:119-126 | `\boxed{$5$}` answers `5` |
| Datasets.ExtractBoxedFallback | src/download_dataset.py:128-131 | without a boxed group, a solution ending in a numeral answers with that numeral |
| Datasets.BoxedOfPlainPrefix | src/download_dataset.py:119 | the first `\boxed{...}` group is found after text without a backslash |
| Datasets.ExtractBoxedOfClean | src/download_dataset.py:119-126 | a clean boxed answer comes back unchanged |
| Datasets.OrElse | src/download_dataset.py:136-139 | `item.get(field, default)` |
| Datasets.LevelExamples | src/download_dataset.py:87 | "Level 3", "Level 4" and "medium" are kept; an empty level is not |
| Datasets.LevelWithout | src/download_dataset.py:87-92 | a level without `3`, `4` or `m`/`M` is dropped |
| Datasets.OtherLevelsDropped | src/download_dataset.py:87-92 | "Level 1" and "Level 5" are dropped |
| Datasets.Filter | src/download_dataset.py:89-93 | keeps exactly the elements that pass, in their order |
| Datasets.FilterByLevel | src/download_dataset.py:89-93 | the loop keeps exactly the items whose level contains a target, in order |
| Datasets.SplitIndex | src/download_dataset.py:108 | `int(n * 0.8)` is the floor of `8n/10` |
| Datasets.MathSplits | src/download_dataset.py:97-110 | with a test split, both splits are filtered. Without one, the filtered training list splits into a prefix of `int(0.8 n)` items and the rest |
| Datasets.FormatMath | src/download_dataset.py:135-149 | id from the index, defaults for missing fields, expected value from the boxed-answer rule |
| Datasets.DropUnanswered | src/download_dataset.py:155-156 | keeps exactly the problems with an expected value, in order |
| Datasets.PrepareMath | src/download_dataset.py:89-156 | filter, split, take 200 and 100, number from 0 and 1000, drop unanswered problems |
| Datasets.NumberedAnswered | src/download_dataset.py:151-156 | the surviving problems keep ids from their numbering range |
| Datasets.PreparedFrom | src/download_dataset.py:151-156 | training ids lie in 0..199, test ids in 1000..1099, and no id is shared |
| Datasets.MathPrepared | src/download_dataset.py:113-156 | the same for the splits `PrepareMath` takes |
| Text.Split | src/extraction/extractor.py:77 | `str.split`: at least one part; joining the parts gives the text back; no part contains the separator |
| Text.Take | src/retrieval/retriever.py:94 | `[:n]`: a prefix of length `min(n, len)` |
| Text.LastDecimalTokenNone | src/llm_client.py:69-70 | the last-number fallback finds something exactly when the text has a digit |
| Text.LastDecimalToken | src/llm_client.py:69-70 | the last match, when there is one, is a non-empty piece of the text |
| Text.LastDecimalTokenOfEnd | src/llm_client.py:69-70 | the last match is the numeral (`-`, digits, optional `.` and digits) that ends the text, when the character before it is not a digit, `.` or `-` |
| Text.NatToStringRoundTrip | src/download_dataset.py:18 | `int(str(n)) == n` |
| Text.JoinWordsOfSingleSpaced | src/judge/evaluator.py:45 | `' '.join(t.split())` leaves single-spaced text unchanged |

## Left out

- Embeddings are inputs, not computed. Loading the sentence-transformer, `embed_text`, `embed_memories` and the dot product (src/retrieval/retriever.py:13-28, 76-84) are replaced by the `scores` input.
  - `numpy.argsort` is replaced by a `ranking` input that sorts the scores.
  - `argsort` is not stable, so no order among equal scores is promised.
  - `retrieve` writing embeddings into the memory objects is not modelled.
- The language model calls are not modelled: `LlamaServerClient.generate` (src/llm_client.py:16-36) and the call in `extract_from_trajectory`. Replies are parameters.
- The clock is not modelled. The creation time of extracted items is a parameter, shared by all items of one reply; the code stamps each item separately.
- File I/O is not modelled. The JSON store is the ghost `persisted` value, and the file's contents are a `StoreFile` parameter. Writing results and summaries, printing, progress bars and plotting in src/analyze_results.py are left out.
- The dataset download (`load_dataset`, src/download_dataset.py:50-60) is left out; its splits are parameters. The probing of field names (src/download_dataset.py:71-78) is left out; the fields are fixed as `problem`, `solution`, `level` and `type`.
- The experiment loops and `main` of src/run_phase1.py are orchestration over external calls and are left out. So are the unused judge client and `JudgeClient`.
- scripts/ is not part of this model; its filters repeat the improvement and regression classification of src/analyze_results.py.
- Arithmetic is exact. Accuracies, the Wilson interval, the 0.01 tolerance and `int(n * 0.8)` are computed over reals and integers, not floating point.
  - For values very close to a whole number or to the 0.01 threshold, Python floats can round differently.
- `float()` is modelled for plain decimal notation only, with one optional sign and surrounding whitespace. Python also accepts exponents, `inf`, `nan`, underscores and non-ASCII digits.
- Text is ASCII in the model. `lower`, `upper`, `strip`, `split`, `\b` and `\w` are Unicode-aware in Python.
- Phase1Stats.WilsonCi: `math.sqrt` is replaced by a caller-supplied `root`, required to be the non-negative square root of the radicand.
- Retriever.Retrieve: `top_k` is a natural number. A negative `top_k` gives degenerate slices in Python and is not modelled.
- Retriever.HasAnswerLeak: the numbers of the expected value are scanned in the order found, not as a set. The answer is the same either way.
- Memory.FromDict: rejects a record whose field values have the wrong JSON type. Python's dataclass would accept any value there.
- Memory.ReasoningBank.Load: on a failed load the list is left as it was and the error is returned. Python raises from the constructor.
- Memory.ReasoningBank.GetAllMemories: returns the list as a value. Python returns the bank's own list, so a caller can change the bank through it; that aliasing is not modelled.
- Extractor.ExtractField: the list of markers is a parameter; the parser passes the four fixed markers.
  - The `except: continue` in `_parse_memory_items` is left out, because nothing in the loop body raises.
- Judge.IsCorrectWith: the `except` branch of `is_correct` is left out, because no modelled step raises.
- Judge.EvaluateWithReasoning: the free-text `reasoning` entry of the returned dictionary is left out, since it prints Python's repr of the numbers.
- Datasets.PrepareGsm8k: requires at least 200 training and 100 test items, since `select(range(...))` fails on shorter splits.

## Findings

| source | as written | input that shows it | evidently intended | confidence | as-written member | corrected member |
|---|---|---|---|---|---|---|
| src/judge/evaluator.py:78 | the fallback pattern `[-+]?\d{1,3}(?:,\d{3})*(?:\.\d+)?` takes at most three leading digits, so `re.findall` chunks "2500" into "250", "0" and "25000" into "250", "00". Both extract as 0, and `is_correct("2500", "25000")` is true, against the assertion at src/judge/evaluator.py:183 | `is_correct("2500", "25000")` | plain numbers of any length are read whole (`\d+` leading), so 2500 and 25000 differ | not executed | Judge.FallbackMisreadsPlainNumbers | Judge.CriticalPlainCompare |
