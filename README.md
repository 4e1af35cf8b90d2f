# LOTO6 analysis scripts, modelled in Dafny

The repository is a set of Python scripts around the Japanese LOTO6 lottery
(six numbers out of 1 .. 43 plus a bonus number per draw):

- `loto6_app.py`, a dashboard over the 100 latest draws. It parses each
  `本数字` string into six numbers. It computes the frequency ranking, the
  numbers never drawn, the odd/even tallies, the consecutive-number counts,
  the per-position table, the running totals, the pair and triple counters
  and the recurrence spans. It suggests six numbers by one of five random
  strategies, and offers the twelve latest months in its report picker.
- `format_loto6_csv.py`, a second summary that works on the number tokens
  as strings: ranking, the numbers never seen, odd/even.
- `update_loto6_data.py` and `scrape_loto6_selenium.py`, which turn the full
  results table into the 100-row `本数字` file the dashboard reads.
- `generate_pdf_report.py`, which writes one text line per draw of the
  latest month into a paged PDF.

Each script becomes one or more Dafny modules:

- `loto6_draws.dfy`, `loto6_positions.dfy`, `loto6_cumulative.dfy`,
  `loto6_combos.dfy`, `loto6_spans.dfy`, `loto6_strategies.dfy` and
  `loto6_months.dfy` model the dashboard.
- `format_csv.dfy`, `update_data.dfy`, `scrape_selenium.dfy` and
  `pdf_report.dfy` model the other four scripts.

Shared modules hold what the scripts get from Python and pandas:

- `text.dfy`: `split`, `join`, `strip`, `str(int)` and `int(str)`, string order;
- `counting.dfy`: `Counter`, `most_common`, sorting;
- `calendar.dfy`: dates, `%Y-%m` labels, month arithmetic;
- `frames.dfy`: a table as pandas holds it, column selection and conversions;
- `wrappers.dfy`: `Option` and `Result`.

Pure computations are functions with lemmas. The loops that update state
step by step are methods whose loop invariants tie them to those functions:

- the running totals;
- the span scan;
- the counters' in-place `update`;
- the token collection of `format_loto6_csv.py`;
- the month list;
- the required-column check and the page layout of the report.

Random choices (`random.sample`, `random.randint`) are parameters, so a
property of a strategy holds for every possible outcome. Reachability lemmas
show, for `random.sample` and for each of the five strategies, that every
sorted choice of distinct numbers from the strategy's pool can be the
suggestion; for the consecutive strategy this holds for each `randint` value.

Facts about the code that the model keeps:

- the per-position table counts the listed columns `num1` .. `num6`; a draw
  is not sorted first;
- the frequency table lists only numbers that occur;
- ties in `most_common` keep insertion order;
- a malformed `本数字` row makes pandas raise at `loto6_app.py:45` and stops
  the dashboard.

## Model

| member | source | states |
|---|---|---|
| Text.SplitJoin | loto6_app.py:45 | splitting a `" ".join` of separator-free fields on the same separator gives the fields back |
| Text.JoinSplit | loto6_app.py:45 | joining the fields of a split on its separator restores the string |
| Text.SplitWhitespaceTokens | format_loto6_csv.py:20 | every `split()` token is non-empty and free of white space, and the tokens concatenate to exactly the non-white-space characters in order |
| Text.SplitWhitespaceJoin | loto6_app.py:124 | for clean non-empty tokens, `" ".join(ts).split()` and `.split(" ")` both give `ts` back |
| Text.ReplaceChar | format_loto6_csv.py:20 | `replace` keeps the length and changes exactly the occurrences of the one character |
| Text.LStrip | generate_pdf_report.py:17 | the result is a suffix, everything cut is white space, and it does not start with white space |
| Text.RStrip | generate_pdf_report.py:17 | the result is a prefix, everything cut is white space, and it does not end with white space |
| Text.StripSlice | generate_pdf_report.py:17 | `strip()` is a contiguous slice with white space only on both cut sides and none at its own ends |
| Text.StripClean | generate_pdf_report.py:17 | a name without white space at either end is left unchanged |
| Text.ParseIntCore | format_loto6_csv.py:39 | a string `int()` accepts is one token without white space, with only white space `int()` skips around it, and `int()` reads that token alone the same way |
| Text.ParseIntPadded | format_loto6_csv.py:39 | white space that `int()` skips, put around any text, does not change what `int()` makes of it |
| Text.ParseIntNumeral | format_loto6_csv.py:39 | decimal digits with single underscores between digits read as the number they write |
| Text.ParseIntSigned | format_loto6_csv.py:39 | a `+` or `-` in front of such a numeral gives its value or its negation |
| Text.ScriptNumeral | format_loto6_csv.py:39 | digits of any of the modelled scripts, full-width `０` .. `９` among them, read as the number they stand for |
| Text.NumeralUnderscore | format_loto6_csv.py:39 | an underscore between two numerals gives a numeral with the value of the two digit strings joined |
| Text.ParseIntRejects | format_loto6_csv.py:39 | one character that is neither skippable white space nor a decimal digit, sign or underscore makes `int()` fail |
| Text.ParseIntChars | format_loto6_csv.py:39 | every character of an accepted string is skippable white space, a decimal digit, a sign or an underscore |
| Text.SplitWhitespaceJoinTrimmed | loto6_app.py:124 | `split()` of fields joined by single spaces gives each field without its surrounding white space, when each holds one token |
| Text.IntRoundTrip | update_loto6_data.py:17-18 | `int(str(i)) == i` for every integer, and `str(i)` holds no space or comma |
| Text.IntToStringInjective | format_loto6_csv.py:31-33 | different integers have different decimal strings |
| Text.NatToStringValue | update_loto6_data.py:18 | the digits of `str(n)` form a numeral whose value is `n` |
| Text.PadOrder | loto6_app.py:25-28 | zero-padded fields of one width compare as strings exactly as their values compare, and are equal exactly when the values are |
| Text.LexLessAppend | loto6_app.py:30 | for equal-length heads, string order of `a + c` against `b + d` is decided by the heads, then the tails |
| Text.LexLessTransitive | loto6_app.py:30 | Python's string order is transitive |
| Text.LexLessAsymmetric | loto6_app.py:30 | Python's string order is asymmetric |
| Calendar.MonthsBackStep | loto6_app.py:27 | going back `i + 1` months is going back `i` months and one more, January wrapping to December of the year before |
| Calendar.MonthIndexInjective | loto6_app.py:27 | two valid months with the same month count are the same month |
| Calendar.MonthLabelOrder | generate_pdf_report.py:41-42 | `%Y-%m` labels compare as strings exactly as the months compare in time, and are equal exactly for the same month |
| Calendar.DateKeyOrder | update_loto6_data.py:21 | the date key orders valid dates chronologically and is one-to-one |
| Counting.Dedup | format_loto6_csv.py:24 | the first occurrences of a list: no repeats, each drawn from the list |
| Counting.DedupMembers | format_loto6_csv.py:24 | the first occurrences hold exactly the elements of the list |
| Counting.Add | loto6_app.py:152 | one counter increment keeps the keys distinct, keeps the length when the key is present, and appends it with count 1 when it is not |
| Counting.AddSpec | loto6_app.py:152 | one counter increment bumps exactly that key's entry by one, leaves every other entry alone, and gives a new key count 1 at the end |
| Counting.AddSum | loto6_app.py:152 | one counter increment adds one to the total of the counts |
| Counting.AddAll | loto6_app.py:152-153 | `update` keeps keys distinct and adds the number of keys fed to the total |
| Counting.UpdateTally | loto6_app.py:151-153 | updating the counter of `s` with `t` gives the counter of `s + t` |
| Counting.TallyContents | format_loto6_csv.py:24 | `Counter(s)` has one entry per distinct element in first-occurrence order, each with its positive number of occurrences, and the counts sum to `|s|` |
| Counting.TallyLookup | format_loto6_csv.py:24 | a key is in the counter exactly when it occurs, with its multiplicity as count |
| Counting.Counter.constructor | loto6_app.py:148-149 | a new counter is empty |
| Counting.Counter.Update | loto6_app.py:152-153 | the in-place update leaves exactly the entries of `AddAll` on the old entries |
| Counting.SortDescCorrect | loto6_app.py:49 | the descending sort puts keys in non-increasing order and keeps each key's elements in their original order |
| Counting.InsertDescElement | loto6_app.py:49 | every element after one insertion step is the inserted element or one of the list |
| Counting.SortDescMembers | loto6_app.py:49 | the descending sort holds exactly the elements of its input |
| Counting.SortDescPermutation | loto6_app.py:49 | the descending sort is a permutation of its input |
| Counting.MostCommonSorted | loto6_app.py:158 | `most_common(n)` returns `min(n, size)` entries of the counter, counts non-increasing |
| Counting.MostCommonTop | loto6_app.py:158 | no entry left out by `most_common(n)` has a larger count than one returned |
| Counting.MostCommonTies | loto6_app.py:163 | among equal counts, `most_common(n)` returns the earliest-inserted entries, in insertion order |
| Counting.RankingIsMostCommon | format_loto6_csv.py:25 | the ranking is `most_common()` with no limit |
| Counting.RankingTable | format_loto6_csv.py:24-25 | the ranking lists every distinct token once with its positive count, nothing else, counts non-increasing and summing to the number of tokens |
| Counting.RankingTies | format_loto6_csv.py:25 | equal counts keep the tokens' first-occurrence order |
| Counting.SortCorrect | loto6_app.py:61 | `sorted` returns an ascending permutation of its input |
| Counting.AscendingUnique | loto6_app.py:61 | two ascending lists with the same elements are equal |
| Counting.SortPermutationInvariant | loto6_app.py:61 | `sorted` gives the same list for any reordering of its input |
| Counting.SortDistinct | loto6_app.py:152 | sorting a list without repeats gives a strictly ascending list |
| Counting.CountsAt | loto6_app.py:71-73 | the table lists each key with its number of occurrences, zero for keys that do not occur |
| Counting.CountsAtTotal | loto6_app.py:71-73 | when every element is one of the distinct keys, the counts over the keys sum to the length |
| Frames.IndexOf | update_loto6_data.py:11 | label lookup finds the first column of that name, and nothing exactly when the name is absent |
| Frames.Absent | update_loto6_data.py:11 | the reported names are exactly the requested names that are not columns |
| Frames.SelectSpec | update_loto6_data.py:11 | `df[names]` fails exactly when a name is absent, listing every absent one; otherwise it has the requested header, the same rows, and under each name the cell of the first column of that name |
| Frames.AsInts | update_loto6_data.py:17 | `astype(int)` succeeds exactly when every cell converts, and then holds each cell's integer |
| Loto6Months.MonthLabels | loto6_app.py:24-28 | the loop builds the twelve labels of the current month moved back 0 .. 11 months |
| Loto6Months.LabelsStepBack | loto6_app.py:25-28 | the first label is the current month and each later label is one calendar month before the previous |
| Loto6Months.LabelsDescending | loto6_app.py:25-28 | the labels are strictly descending as strings, hence twelve different labels |
| Loto6Months.SortStringsDescIdentity | loto6_app.py:30 | reverse-sorting an already strictly descending list leaves it unchanged |
| Loto6Months.PickerOrder | loto6_app.py:30 | the picker shows the labels in the order they were built: current month first |
| Loto6Draws.AllBallsMembers | loto6_app.py:52 | `range(1, 44)` is strictly ascending, without repeats, and holds every ball |
| Loto6Draws.ParseIntsSpec | loto6_app.py:45 | the tokens convert exactly when `int()` reads every one of them, and then to each token's value in order |
| Loto6Draws.ParseDrawSpec | loto6_app.py:45 | a row parses exactly when the single-space split has six fields that `int()` reads as values within `int64`, and then holds those values in order |
| Loto6Draws.ParseDrawFields | loto6_app.py:45 | six fields `int()` reads as known values make the row parse exactly when all of them fit in `int64`, and then as those values |
| Loto6Draws.ParseRowsSpec | loto6_app.py:45 | the row-by-row parse gives well-formed draws, each the parse of its row, or fails at the first row that does not parse |
| Loto6Draws.ParseHistory | loto6_app.py:43-45 | a file without rows fails; otherwise the column parses into well-formed six-number draws row by row, or fails at the first row that does not parse |
| Loto6Draws.DrawStringRoundTrip | update_loto6_data.py:17 | the `本数字` string of six numbers reads back as those numbers with both the single-space split and the whitespace split |
| Loto6Draws.ParseDrawWords | loto6_app.py:124 | a string accepted by the split at line 45 reads the same under the whitespace split of the later loops |
| Loto6Draws.AllNumbersSnoc | loto6_app.py:48 | `ravel` of one more draw appends its numbers |
| Loto6Draws.FrequencyTable | loto6_app.py:48-49 | the frequency table lists each drawn number once with its positive count, nothing else, most frequent first, counts summing to six per draw |
| Loto6Draws.RangeWithout | loto6_app.py:52-53 | the result is strictly ascending and holds exactly the range members not in `seen` |
| Loto6Draws.UnusedPartition | loto6_app.py:52-53 | the unused numbers are strictly ascending and are exactly the balls missing from the frequency table; with valid balls the two lists cover 1 .. 43 |
| Loto6Draws.ParityPartition | loto6_app.py:56-57 | the odd and even tallies add up to the number of values |
| Loto6Draws.ParityTotals | loto6_app.py:56-57 | over the history, odd plus even is six per draw, the frequency table's total |
| Loto6Positions.CountConsecutive | loto6_app.py:60-62 | the count is at most one less than the draw's length |
| Loto6Positions.ConsecutiveOrderFree | loto6_app.py:60-62 | the consecutive count depends only on which numbers were drawn, not their listed order |
| Loto6Positions.ConsecutiveSuccessors | loto6_app.py:60-62 | for distinct numbers the count is the number of drawn numbers whose successor was drawn too |
| Loto6Positions.ConsecutiveValues | loto6_app.py:64 | the column holds each draw's consecutive count, in row order |
| Loto6Positions.HistogramTotal | loto6_app.py:65 | the histogram's values are strictly increasing with positive counts, lie in 0 .. 5 for six-number draws, and the counts sum to the number of draws |
| Loto6Positions.Column | loto6_app.py:71 | column `num{k+1}` is the k-th listed number of every draw |
| Loto6Positions.PositionColumnTotals | loto6_app.py:68-73 | the table's index is strictly ascending and holds exactly the drawn numbers, and each position column accounts for every draw once |
| Loto6Positions.PositionRowTotals | loto6_app.py:68-73 | a number's counts across the six positions add up to its frequency |
| Loto6Positions.PositionFirstColumnAsWritten | loto6_app.py:69-72 | in the table as built, only the first column is sure to account for every draw |
| Loto6Positions.PositionTableAsWrittenLosesRows | loto6_app.py:69-73 | for the single draw 1 2 3 4 5 6 the table as built has an empty sixth column where the intended table counts one |
| Loto6Cumulative.CumulativeCounts | loto6_app.py:119-128 | after the loop every ball 1 .. 43 holds its running series and its count of draws containing it, and no other key exists |
| Loto6Cumulative.AddRow | loto6_app.py:125-128 | one row raises a ball's total by one exactly when the row contains it, and appends the new total to every ball's series |
| Loto6Cumulative.RunningSteps | loto6_app.py:123-128 | a series rises by exactly one at a draw containing the number, stays put otherwise, and ends at the number of draws containing it |
| Loto6Cumulative.RunningMonotone | loto6_app.py:119-128 | a series never decreases |
| Loto6Cumulative.RowsContainingFrequency | loto6_app.py:119-128 | when no draw repeats a number, its final total equals its frequency |
| Loto6Combos.CombinationsCount | loto6_app.py:152-153 | `combinations(s, k)` has `C(|s|, k)` members |
| Loto6Combos.BinomSix | loto6_app.py:152-153 | six numbers give 15 pairs and 20 triples |
| Loto6Combos.CombinationsMembers | loto6_app.py:152-153 | every combination has `k` elements, all taken from `s` |
| Loto6Combos.CombinationsStrict | loto6_app.py:152-153 | combinations of a strictly increasing list are strictly increasing |
| Loto6Combos.CombinationsAscending | loto6_app.py:152-153 | combinations of a sorted list are sorted |
| Loto6Combos.CountCombinations | loto6_app.py:147-153 | the loop leaves two separate counters holding exactly the tally of all pairs and of all triples of the sorted draws |
| Loto6Combos.CountDraw | loto6_app.py:152 | one `update` call extends the tallied stream by that draw's combinations |
| Loto6Combos.ComboStreamLength | loto6_app.py:151-153 | draws of `m` numbers feed `C(m, k)` combinations each |
| Loto6Combos.ComboTotals | loto6_app.py:151-153 | the counters' totals are 15 pairs and 20 triples per draw |
| Loto6Combos.ComboKeys | loto6_app.py:151-153 | every counted combination has `k` elements, is sorted, and consists of drawn numbers |
| Loto6Combos.ComboKeysStrict | loto6_app.py:151-153 | with no repeated number in a draw, every counted combination is strictly increasing |
| Loto6Combos.TopCombinations | loto6_app.py:158-164 | `most_common(top_n)` lists at most `top_n` combinations, most frequent first, each with its true count, and none left out beats a listed one |
| Loto6Combos.TopPairExists | loto6_app.py:228 | `most_common(1)[0]` exists exactly when at least one draw was counted |
| Loto6Combos.TopPairCounted | loto6_app.py:228 | the top pair is one of the counted pairs |
| Loto6Combos.TopPairShape | loto6_app.py:228 | the top pair is a sorted pair of drawn numbers, strictly increasing when draws have distinct numbers |
| Loto6Combos.CountedPairShape | loto6_app.py:151-152 | every counted pair is two drawn numbers in ascending order, strictly when draws have distinct numbers |
| Loto6Combos.TopPairBest | loto6_app.py:228 | no pair was counted more often than the top pair |
| Loto6Spans.Reverse | loto6_app.py:171 | `[::-1]` puts the oldest draw first |
| Loto6Spans.SpanScan | loto6_app.py:176-182 | the outer loop's result is the scan over all visits of the reversed history |
| Loto6Spans.ScanRow | loto6_app.py:177-182 | the inner loop's result is the scan extended by the visits of one draw |
| Loto6Spans.Visit | loto6_app.py:178-182 | one pass of the inner loop body is one step of the scan: a repeat records its span in its own list and the pooled list, then `last_seen` moves to this draw |
| Loto6Spans.ScanInvariant | loto6_app.py:176-182 | a scan over balls never fails, keeps `last_seen` as the latest visit of each visited number, gives each number the distances between the draws of its consecutive visits as its spans (k - 1 of them for k visits), and keeps every span positive when no number repeats within a draw |
| Loto6Spans.StepGaps | loto6_app.py:178-182 | one visit keeps every number's span list equal to the distances between the draws of its consecutive visits |
| Loto6Spans.GapsSnoc | loto6_app.py:179-180 | a new visit appends its distance from the previous visit, and a first visit appends nothing |
| Loto6Spans.VisitsLast | loto6_app.py:179-182 | the last visit of a number is the draw `last_seen` holds for it |
| Loto6Spans.VisitsHistory | loto6_app.py:171-177 | over draws of distinct numbers, the scan visits a number at exactly its appearances, oldest first |
| Loto6Spans.AppearancesAscend | loto6_app.py:171-177 | the scan indices of a number's draws ascend strictly and lie within the history |
| Loto6Spans.AppearancesListed | loto6_app.py:171-177 | they are exactly the scan indices of the draws listing the number |
| Loto6Spans.EventsBounds | loto6_app.py:176-177 | every visit names a draw index in range and a number of that draw |
| Loto6Spans.EventsOrdered | loto6_app.py:176-177 | draw indices never decrease along the scan, and a number is not revisited within a draw of distinct numbers |
| Loto6Spans.EventsCover | loto6_app.py:176-177 | every number of every draw is visited in that draw |
| Loto6Spans.OccEvents | loto6_app.py:176-177 | the scan visits each number exactly as often as the draws list it |
| Loto6Spans.SpanScanSpans | loto6_app.py:170-182 | over draws of distinct balls the scan finishes; a ball's spans are the differences between the scan indices of its consecutive appearances, so one listed k > 0 times has k - 1 spans and any other ball none; every span is positive; `span_result` pools exactly those spans |
| Loto6Spans.SpanScanLastSeen | loto6_app.py:173-182 | afterwards `last_seen` holds exactly the listed numbers with the index of their newest draw, and each visit either recorded a span or added a key |
| Loto6Spans.LastIdxLatest | loto6_app.py:182 | the last index recorded for a number is its newest draw |
| Loto6Spans.ListingBeforeLast | loto6_app.py:176-182 | every draw listing a number is scanned no later than that number's last recorded index |
| Loto6Strategies.Pick | loto6_app.py:208 | a sample has as many members as picks and is a sub-multiset of the pool |
| Loto6Strategies.PickDistinct | loto6_app.py:208 | from a pool without repeats a sample has no repeats and only pool members |
| Loto6Strategies.PickReaches | loto6_app.py:208 | every selection without replacement from the pool is a possible sample |
| Loto6Strategies.Sample | loto6_app.py:212 | `random.sample` succeeds exactly when the sample is no larger than the pool |
| Loto6Strategies.SampleReaches | loto6_app.py:212 | any set of distinct pool members is a possible outcome of `random.sample` |
| Loto6Strategies.SortedSample | loto6_app.py:208 | sorting a sample without repeats gives strictly increasing numbers, the same ones |
| Loto6Strategies.TopTen | loto6_app.py:208 | `freq.head(10).index` has `min(10, d)` members, `d` being the number of distinct drawn numbers |
| Loto6Strategies.TopTenFrequent | loto6_app.py:208 | each of the ten most frequent numbers was drawn at least as often as every drawn number outside them |
| Loto6Strategies.PrefixDominates | loto6_app.py:49 | in a table sorted by count, a key among the first `n` counts at least as much as any key after them |
| Loto6Strategies.FromFrequentSpec | loto6_app.py:207-208 | the frequent strategy fails exactly when fewer than six distinct numbers were drawn, and otherwise suggests six increasing drawn numbers from the top ten |
| Loto6Strategies.FromFrequentReaches | loto6_app.py:207-208 | every six distinct numbers of the top ten are a possible suggestion |
| Loto6Strategies.FromUnusedSpec | loto6_app.py:210-214 | the unused strategy always suggests six increasing balls, all never drawn when at least six numbers are unused |
| Loto6Strategies.FromUnusedReaches | loto6_app.py:210-214 | every six distinct numbers of the pool (unused numbers when at least six are unused, otherwise any balls) are a possible suggestion, sorted |
| Loto6Strategies.OddBalls | loto6_app.py:217 | the odd list is 1, 3, .., 43 |
| Loto6Strategies.EvenBalls | loto6_app.py:218 | the even list is 2, 4, .., 42 |
| Loto6Strategies.ParityBalls | loto6_app.py:217-218 | the two lists hold exactly the odd and the even balls, ascending |
| Loto6Strategies.BalancedSpec | loto6_app.py:216-219 | the balanced strategy suggests six increasing balls, exactly three odd and three even |
| Loto6Strategies.BalancedReaches | loto6_app.py:216-219 | every three distinct odd balls and three distinct even balls are a possible suggestion, sorted |
| Loto6Strategies.ParitySort | loto6_app.py:219 | sorting keeps the number of odd values |
| Loto6Strategies.BallsOutsideCount | loto6_app.py:224 | leaving out a list of `m` numbers leaves at least 43 - m balls |
| Loto6Strategies.WithConsecutiveSpec | loto6_app.py:221-225 | for every `randint(1, 42)` base the suggestion is six increasing balls containing base and base + 1 |
| Loto6Strategies.WithConsecutiveReaches | loto6_app.py:221-225 | for every base, any four distinct balls other than base and base + 1 complete a possible suggestion |
| Loto6Strategies.OutsideReaches | loto6_app.py:224 | any four distinct balls outside the pair are a possible sample of `[n for n in range(1, 44) if n not in pair]` |
| Loto6Strategies.SuggestAround | loto6_app.py:224-230 | two distinct balls plus four picks among the other balls, sorted, make six increasing balls holding exactly those numbers |
| Loto6Strategies.WithCommonPairSpec | loto6_app.py:227-230 | the common-pair strategy fails exactly when no draw was counted, and otherwise suggests six increasing balls containing both numbers of the top pair |
| Loto6Strategies.WithCommonPairReaches | loto6_app.py:227-230 | when a pair was counted, any four distinct balls outside the top pair complete a possible suggestion |
| FormatCsv.RowTokensClean | format_loto6_csv.py:20 | each token of a cell is non-empty without white space or commas, and the tokens concatenate to the cell's other characters in order |
| FormatCsv.CollectNumbers | format_loto6_csv.py:18-21 | the loop leaves `all_numbers` as the tokens of every cell, row by row |
| FormatCsv.AllTokensSpec | format_loto6_csv.py:18-21 | `all_numbers` is as long as the cells' token counts added up, and every token is clean |
| FormatCsv.MissingParses | format_loto6_csv.py:31-33 | each entry of `missing` reads back with `int()` as the number it was made from |
| FormatCsv.MissingMembers | format_loto6_csv.py:31-33 | `missing` holds `str(n)` for exactly the numbers 1 .. 43 whose string is not a token |
| FormatCsv.MissingOrder | format_loto6_csv.py:33 | `missing` is in strictly increasing numeric order and holds only numbers of 1 .. 43 |
| FormatCsv.ZeroPaddedTokenNotSeen | format_loto6_csv.py:31-33 | matching is on strings: a token `06` leaves `6` missing |
| FormatCsv.ParityCountsSpec | format_loto6_csv.py:39-40 | the tally succeeds exactly when every token is an integer, then counts odd and even values summing to the number of tokens, and otherwise fails at the first non-integer token |
| FormatCsv.ParseTokensSpec | format_loto6_csv.py:39 | `int()` of each token succeeds exactly when all are integers and then gives each token's value, otherwise fails at the first bad token |
| FormatCsv.OddEven | format_loto6_csv.py:40 | odd and even values add up to the number of values |
| UpdateData.ToRecords | update_loto6_data.py:14-18 | the conversion succeeds exactly when every row converts, and then holds each row's record |
| UpdateData.RankOrder | update_loto6_data.py:21 | a higher rank is a later date, every date ranks above `NaT`, and equal ranks mean equal dates |
| UpdateData.LatestOrder | update_loto6_data.py:21 | `min(100, n)` rows are kept, latest first with `NaT` last, and no dropped row is later than a kept one |
| UpdateData.LatestPermutation | update_loto6_data.py:21 | kept and dropped rows together are the input rows with their multiplicities |
| UpdateData.UpdateMissingColumns | update_loto6_data.py:11 | the script fails with a `KeyError` exactly when an input column is absent, naming exactly the absent ones |
| UpdateData.UpdateBadNumber | update_loto6_data.py:17-18 | with all columns present, the script fails exactly when some number or bonus cell does not convert with `astype(int)`: `int()` rejects it or its value does not fit in `int64` |
| UpdateData.ConvertRows | update_loto6_data.py:11-18 | each record comes from the row at the same position, one record per row |
| UpdateData.ConvertSix | update_loto6_data.py:17 | every record holds six numbers |
| Frames.AsInt64 | update_loto6_data.py:17 | `astype(int)` converts a cell exactly when `int()` reads it as a value within `int64`, and then to that value |
| Frames.AsInts64 | update_loto6_data.py:17-18 | several cells convert exactly when each does, and then to each cell's value in order |
| UpdateData.RenderRoundTrip | update_loto6_data.py:17-18 | a record's `本数字` string reads back through both of the dashboard's parsers as its six numbers, and its bonus string as the bonus |
| UpdateData.UpdateOutput | update_loto6_data.py:17-24 | the output has the three columns and one row per kept draw in sorted order; its `本数字` reads back through the app's parsers as the six numbers and its bonus string as the bonus |
| ScrapeSelenium.PositionalSpec | scrape_loto6_selenium.py:15-16 | positional selection fails exactly with fewer than nine columns, and otherwise keeps every row with input columns 1 .. 8 under the new names |
| ScrapeSelenium.ScrapeShape | scrape_loto6_selenium.py:15-25 | the script fails exactly with fewer than nine columns; otherwise it writes the three columns and the first `min(100, n)` rows in input order with date and bonus cells unchanged |
| ScrapeSelenium.ScrapeNumbers | scrape_loto6_selenium.py:19 | with integer number columns, a row's `本数字` reads back exactly when none of the six columns has a gap anywhere in the file, and then as the row's six numbers |
| ScrapeSelenium.ScrapeParts | scrape_loto6_selenium.py:19 | the six space-separated parts of a row's `本数字` are read by `int()` exactly when their column has no gap, and then as the cell's value, within `int64` |
| ScrapeSelenium.FloatColumnGap | scrape_loto6_selenium.py:19 | an integer column is held as floating point exactly when it has a gap |
| ScrapeSelenium.RenderInteger | scrape_loto6_selenium.py:19 | an integer cell renders without spaces and reads back as itself unless its column is floating point; a gap never reads back |
| ScrapeSelenium.FloatRendering | scrape_loto6_selenium.py:19 | `12.0` and its like never read back as an integer |
| PdfReport.RenameWithSpec | generate_pdf_report.py:30 | a name is renamed to the value of its first matching key, and kept when no key matches |
| PdfReport.NormaliseHeaderSpec | generate_pdf_report.py:17-30 | every column name is stripped; a legacy name becomes its canonical name and any other name stays as stripped |
| PdfReport.NoLegacyLeft | generate_pdf_report.py:20-30 | after normalisation no legacy column name is left |
| PdfReport.FirstAbsentSpec | generate_pdf_report.py:33-36 | the check passes exactly when every required column is present, and otherwise reports the first absent one in the listed order |
| PdfReport.CheckRequired | generate_pdf_report.py:34-36 | the loop raises for exactly the column the check reports |
| PdfReport.DatedSpec | generate_pdf_report.py:39-40 | exactly the rows whose date parses are kept, each with that date, in order |
| PdfReport.LatestDay | generate_pdf_report.py:41 | the maximum is one of the dates and no date is later |
| PdfReport.InMonthMembers | generate_pdf_report.py:42 | the month filter keeps exactly the rows with that `%Y-%m` label |
| PdfReport.LatestMonthSpec | generate_pdf_report.py:41-42 | the selected rows are exactly the dated rows in the month of the latest date, at least one, and no row lies in a later month |
| PdfReport.LineTextParts | generate_pdf_report.py:52-55 | a line starts with the date and separator, ends with the bonus part, and its middle is the six numbers joined by spaces; the whitespace split reads them back, and the single-space parse reads them back exactly when all fit in `int64` |
| PdfReport.BonusTextSpec | generate_pdf_report.py:54 | the bonus part is empty when the column is absent or the cell missing, fails exactly when the cell is not an integer, and reads back as that integer |
| PdfReport.RowLineSpec | generate_pdf_report.py:52-55 | a row's line fails exactly when a number cell or the bonus cannot be converted; a finished line starts with the date, ends with the bonus part, and its middle reads back with the whitespace split as the six number cells in column order, and with the dashboard's parse exactly when they fit in `int64` |
| PdfReport.RowLines | generate_pdf_report.py:51-55 | when the loop fails, it fails with the conversion error |
| Wrappers.FirstErrorSpec | generate_pdf_report.py:51-55 | collecting results stops at the first error: success holds every result in order, failure reports a failing element with every earlier one successful |
| PdfReport.RowLinesSpec | generate_pdf_report.py:51-55 | the loop fails exactly when some row's line fails, and otherwise gives each row's line in order |
| PdfReport.Layout | generate_pdf_report.py:49-60 | the drawing loop places the lines exactly as `Placement` does |
| PdfReport.PlacementSpec | generate_pdf_report.py:49-60 | every line is drawn between heights 110 and 770; the first of each page at the top, each next 20 lower, with a new page after every 34th line |
| PdfReport.Drawn | generate_pdf_report.py:39-60 | with the required columns present, the report fails for want of dates exactly when no date parses, and otherwise only with a conversion error |
| PdfReport.ReportMissing | generate_pdf_report.py:33-36 | the report fails on a missing column exactly when a required column is absent, naming the first absent one |
| PdfReport.ReportNoDate | generate_pdf_report.py:39-41 | with all required columns present, the report fails for want of dates exactly when no row's date parses |
| PdfReport.ReportOutput | generate_pdf_report.py:41-60 | a finished report is named after the latest month and lays out, in row order, the line of each dated row of that month and no other |

## Left out

- Reading and writing files, CSV parsing, text encodings (`cp932`, `utf-8-sig`), fonts, charts and the Streamlit widgets are not modelled. The tables arrive as values and the outputs leave as values.
- pandas' date parser is not modelled. A date cell arrives already parsed or not at all. A number in the date column that pandas would read as an epoch is treated as not a date.
- The order of rows with equal dates after `sort_values`, and of equal counts after `value_counts`, is unspecified in pandas because its default sort is not stable. The model uses a stable order. `UpdateData.LatestOrder` and `UpdateData.LatestPermutation` state only what holds for any order: sortedness, the count, the permutation.
- Loto6Strategies.TopTen, Loto6Strategies.FromFrequentSpec and Loto6Strategies.FromFrequentReaches depend on that stable order: when numbers tie for the tenth place, the model keeps the earliest drawn and pandas may keep another. `Loto6Strategies.TopTenFrequent` states what holds for any order.
- Text.ParseInt: knows 22 blocks of decimal digits: ASCII, 20 blocks from Arabic-Indic (U+0660) to Mongolian (U+1810), and full-width. Digits of the other Unicode scripts are rejected where Python accepts them. Python's limit of 4300 digits per conversion is not modelled.
- Frames.AsInt64: takes numpy's default integer to be `int64`. On Windows with numpy before 2.0 it is `int32`, whose range is narrower.
- Loto6Draws.ParseDraw: when one row holds both a field `int()` rejects and a value outside `int64`, which of `ValueError` and `OverflowError` pandas raises first is not modelled. Either way the row is an error.
- Non-integral floating-point number cells are not modelled. A number cell is an integer, text, a date or missing.
- Duplicate column names after renaming are not modelled: lookup takes the first column of a name, where pandas would return a table.
- The canvas of `generate_pdf_report.py` is reduced to the file name, the title and the placed lines. A trailing blank page after exactly 34, 68, .. lines and the drawing of the title are not modelled.
- Loto6Months.MonthLabels: requires a year of 1678 .. 2261 because pandas timestamps only cover that range, so the model does not describe what pandas does outside it.
- The random choice of a strategy at `loto6_app.py:248` and the distribution of `random.sample` are not modelled. The model states only which outcomes are possible.
- The histogram of `span_result` (`max(span_result)` at `loto6_app.py:185`, which raises on an empty list) and the PDF download links are not modelled.
- `format_loto6_csv.py` receives each `本数字` cell as the string `str()` makes of it. A missing cell is therefore the token `nan`, which fails the odd/even step.
- The pair and triple lists display `top_n` entries for the slider values 5 .. 30. The model states the properties of `most_common(n)` for every `n`.

## Findings

| source | as written | input that shows it | evidently intended | confidence | as-written member | corrected member |
|---|---|---|---|---|---|---|
| loto6_app.py:68-73 | the first assignment into the empty frame fixes the index to the numbers seen at position `num1`. Later columns are aligned to that index, so counts of numbers never listed first are lost | one draw `1 2 3 4 5 6`: the `num6` column of the table as built is all zeros | every position column counts every draw once, and a number's row adds up to its frequency | high, not executed | Loto6Positions.PositionTableAsWrittenLosesRows | Loto6Positions.PositionColumnTotals |
