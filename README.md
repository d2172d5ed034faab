# Daily stock scanner: candidate pool filter and ranking

This project models `filter_candidate_pool` of the daily A-share scanner
(`src/scanner.py`). The function takes a market snapshot row by row. For each row
it looks up the row's technical indicators and evaluates five pass/fail conditions:

- a near-bullish moving-average stack with 1% tolerance;
- |bias to MA5| < 10;
- turnover > 1.5 or volume ratio > 1.2;
- P/E < 60 or P/E unavailable;
- market cap > 20 × 10^8.

It keeps the rows for which at least four of the five hold. Each kept row becomes a
candidate: code, name, price, score, reason text and a moving-average status
label. The candidates are sorted by score, highest first, with a stable sort, and
the first thirty are returned.

Modules:

- `Filter` (filter.dfy): the snapshot row and indicator records, P/E as a tagged
  union, the five conditions, the 4-of-5 admission rule, the status label, and the
  P/E condition as written (see Findings).
- `Ranking` (ranking.dfy): a stable sort in non-increasing key order, as
  `list.sort(key=..., reverse=True)` does it. The lemmas prove it sorted, a
  permutation, tie-preserving and unique. They also cover what a prefix of a
  sorted list keeps.
- `Selection` (selection.dfy): the "append every accepted item" loop as a
  filter-map over a sequence, and which input position each output element
  comes from.
- `Scanner` (scanner.dfy): the candidate record and the scan itself. The
  scan's uninterpreted collaborators are the indicator lookup, the score and the
  reason text. Lemmas about the returned pool sit beside it.

`FilterCandidatePool` is a method with the source's loop that appends to a list.
It is proved equal to `RankedPool`: the admitted candidates in scan order, stably
sorted by score and cut to thirty. The properties of the pool are lemmas about
`RankedPool`.

Numbers are exact `real`s. The indicator lookup `get_technical_data`, the score
`calculate_opportunity_score` and the reason text `generate_reason` are not
defined in the repository. They are fields of type `string -> Technical`,
`(Technical, StockRow) -> real` and `(Technical, StockRow) -> string` of the
`Collaborators` record, so every result holds for every choice of them.

## Model

| member | source | states |
|---|---|---|
| `Filter.Abs` | src/scanner.py:29 | the absolute value used by the bias condition is non-negative and equals x or -x |
| `Filter.TrendAligned` | src/scanner.py:27 | definition of condition 1 (MA5 >= 0.99·MA10 and MA10 >= 0.99·MA20); its boundary is stated by `Filter.TrendBoundaryInclusive` |
| `Filter.BiasModerate` | src/scanner.py:29 | definition of condition 2 (absolute bias to MA5 below 10); its role in admission is stated by `Filter.AdmitsIffSomeFourHold` |
| `Filter.VolumeActive` | src/scanner.py:31 | definition of condition 3 (indicator turnover > 1.5 or volume ratio > 1.2); its role in admission is stated by `Filter.AdmitsIffSomeFourHold` |
| `Filter.ValuationAcceptable` | src/scanner.py:33 | definition of condition 4 on the tagged-union P/E; its properties are stated by `Filter.ValuationUnavailablePasses` and `Filter.AsWrittenAgreesOnNumbers` |
| `Filter.CapAboveFloor` | src/scanner.py:35 | definition of condition 5 (market cap > 2 × 10^9); its role is stated by `Filter.SmallCapNeedsOtherFour` |
| `Filter.Conditions` | src/scanner.py:25-36 | the condition list has exactly five entries |
| `Filter.CountTrue` | src/scanner.py:38 | the sum of the boolean list is at most its length, and equals the length exactly when every entry is true |
| `Filter.Admits` | src/scanner.py:38 | definition of the 4-of-5 rule; its properties are stated by `Filter.AdmitsIffAtMostOneFails` and `Filter.AdmitsIffSomeFourHold` |
| `Filter.AllButOneIffNoTwoFail` | src/scanner.py:38 | for any boolean list, sum >= length - 1 holds exactly when no two distinct entries are both false |
| `Filter.AdmitsIffAtMostOneFails` | src/scanner.py:25-38 | a row is admitted (sum >= 4) exactly when no two of its five conditions fail together |
| `Filter.AdmitsIffSomeFourHold` | src/scanner.py:25-38 | a row is admitted exactly when some four of the five named conditions all hold (both directions) |
| `Filter.SmallCapNeedsOtherFour` | src/scanner.py:35-38 | a row with market cap <= 20 × 10^8 is admitted exactly when trend, bias, volume and valuation all hold |
| `Filter.TrendBoundaryInclusive` | src/scanner.py:27 | MA5 = 0.99·MA10 and MA10 = 0.99·MA20 passes the trend condition; anything strictly below either bound fails it |
| `Filter.ValuationUnavailablePasses` | src/scanner.py:33 | an unavailable P/E always passes condition 4; a known P/E passes exactly when below 60 |
| `Filter.ExampleAllFivePass` | src/scanner.py:25-38 | the row with unavailable P/E, market cap 3 × 10^9 and MA 10.1/10.0/9.9 meets all five conditions and is admitted |
| `Filter.MaStatus.Label` | src/scanner.py:46 | definition of the two label strings; which one a candidate gets is stated by `Filter.MaStatusOf` |
| `Filter.MaStatusOf` | src/scanner.py:46 | the label is "接近多头" exactly when MA5 > MA10 and "缠绕中" exactly when MA5 <= MA10 |
| `Filter.PeOf` | src/scanner.py:33 | a P/E cell is a known P/E exactly when it is a number, with the same value; a NaN or a text cell is unavailable |
| `Filter.ValuationAsWritten` | src/scanner.py:33 | condition 4 as written raises TypeError exactly for a text cell, gives v < 60 for a number v, and false for NaN |
| `Filter.SentinelRaisesAsWritten` | src/scanner.py:33 | as written, a text cell such as "--" raises TypeError, while the tagged-union condition passes the row whose P/E that cell stands for |
| `Filter.NotANumberFailsAsWritten` | src/scanner.py:33 | as written, a NaN cell fails condition 4 (NaN compares false with 60 and with "--"), while the tagged-union condition passes the same row |
| `Filter.AsWrittenAgreesOnNumbers` | src/scanner.py:33 | on every numeric P/E cell, as-written condition 4 and the corrected condition on the row it stands for give the same verdict |
| `Ranking.WithKey` | src/scanner.py:50 | the elements of a given score are drawn from the list, all carry that score, and are no more than the list |
| `Ranking.Insert` | src/scanner.py:50 | insertion adds exactly one element (multiset), adds nothing else, and keeps a descending list descending |
| `Ranking.SortDesc` | src/scanner.py:50 | the sorted list has the same length and multiset as the input and is in non-increasing score order |
| `Ranking.InsertKeepsTies` | src/scanner.py:50 | insertion never moves an element past one of equal score |
| `Ranking.SortKeepsTies` | src/scanner.py:50 | stability: for every score, the elements with that score appear in the sorted list in input order |
| `Ranking.TiesDetermineSorted` | src/scanner.py:50 | two descending lists with equal per-score subsequences are equal |
| `Ranking.SortDescUnique` | src/scanner.py:50 | any descending, tie-preserving rearrangement of the input is the model's sort, so it matches every stable descending sort |
| `Ranking.WithKeyOfPrefix` | src/scanner.py:51 | slicing a list keeps, for each score, a prefix of that score's elements |
| `Ranking.PrefixKeepsHighest` | src/scanner.py:50-51 | in a descending list, every element a prefix keeps scores no lower than every element it drops |
| `Ranking.ExampleTiesKeepOrder` | src/scanner.py:50 | scores 10, 90, 90, 50 rank as 90, 90, 50, 10 with the two 90s in their original order |
| `Selection.FilterMap` | src/scanner.py:14-47 | the appended list is never longer than the scanned rows |
| `Selection.Positions` | src/scanner.py:16-38 | the accepted positions are in range, increasing, pass the test, and include every passing position |
| `Selection.FilterMapAtPositions` | src/scanner.py:16-47 | output element k is the image of the input at the k-th accepted position, and the lengths agree |
| `Selection.FilterMapMembers` | src/scanner.py:16-47 | an element is in the output exactly when it is the image of some accepted input element |
| `Scanner.Score` | src/scanner.py:50 | definition of the sort key (the candidate's score) |
| `Scanner.RowAdmitted` | src/scanner.py:22-38 | definition: the 4-of-5 rule on a row and the indicators looked up by its code; its properties are stated by `Filter.AdmitsIffSomeFourHold` |
| `Scanner.MakeCandidate` | src/scanner.py:40-47 | code, name and price are copied unchanged; the score and reason come from the collaborators; the label is "接近多头" exactly when MA5 > MA10 |
| `Scanner.Admit` | src/scanner.py:16-47 | definition of the collected list (admitted rows' candidates in scan order); its properties are stated by `Scanner.AdmitOnePerAdmittedRow` and `Scanner.AdmitMembers` |
| `Scanner.AdmitOnePerAdmittedRow` | src/scanner.py:16-47 | candidate k is built from the k-th admitted row; the admitted positions are increasing and are exactly the rows that pass, so each candidate has one row |
| `Scanner.AdmitMembers` | src/scanner.py:16-47 | a candidate is collected exactly when some admitted row builds it |
| `Scanner.RankedPool` | src/scanner.py:50-51 | the pool has length min(30, number of admitted rows) |
| `Scanner.FilterCandidatePool` | src/scanner.py:11-51 | the loop, sort and slice return exactly the ranked pool, which is at most 30 long |
| `Scanner.PoolSorted` | src/scanner.py:50-51 | the pool is in non-increasing score order |
| `Scanner.PoolStableOnTies` | src/scanner.py:50-51 | for every score, that score's pool entries are a prefix of that score's candidates in scan order |
| `Scanner.PoolIsPrefixOfStableRanking` | src/scanner.py:50-51 | for any stable descending ranking of the admitted candidates, the pool is its first min(30, n) entries |
| `Scanner.PoolFromAdmittedRows` | src/scanner.py:16-51 | each pool entry is the candidate of an admitted row, and no candidate occurs more often than it was collected |
| `Scanner.PoolKeepsHighestScores` | src/scanner.py:50-51 | every collected candidate left out of the pool scores no higher than every pool entry |
| `Scanner.PoolKeepsAllWhenFew` | src/scanner.py:51 | when at most 30 rows are admitted, the pool holds all of their candidates |
| `Scanner.PoolSmallCapPassedOtherFour` | src/scanner.py:35-51 | each pool entry comes from an admitted row; if its market cap is <= 20 × 10^8, that row passed the other four conditions |

## Left out

- `get_all_a_stocks` (src/scanner.py:6-9): network I/O against an external market-data service. The snapshot is the `rows` parameter, one `StockRow` per table row in table order.
- `get_technical_data`, `calculate_opportunity_score`, `generate_reason`: the repository calls them but does not define them. They are uninterpreted function parameters. No scoring formula is assumed, so the 0..100 bound on scores is not modelled.
- Failures of `get_technical_data`, `calculate_opportunity_score` and `generate_reason` are not modelled: the collaborators are total functions. In the source an exception from any of them aborts the whole scan.
- An indicator record missing one of the keys `ma5`, `ma10`, `ma20`, `bias_ma5`, `turnover_rate` or `volume_ratio` raises KeyError at src/scanner.py:27-31 and aborts the scan. The model's `Technical` record always has all six fields.
- Pandas iteration and column selection: the input is a sequence of records.
- Floating-point rounding in `ma10 * 0.99`, `ma20 * 0.99` and `20 * 1e8`: the model uses exact reals.
- NaN values are modelled only in the P/E cell (`Filter.PeCell`). NaN in the other numeric columns is not modelled.
- Python's in-place timsort: the sort is a stable insertion sort on values. `Ranking.SortDescUnique` shows that every stable descending sort gives the same list, so only the algorithm differs.
- The rendered text report and its top-15 cut are not in `src/scanner.py` and are not part of this model.

## Findings

| source | as written | input that shows it | evidently intended | confidence | as-written member | corrected member |
|---|---|---|---|---|---|---|
| src/scanner.py:33 | `row['市盈率-动态'] < 60 or row['市盈率-动态'] == '--'` evaluates the `<` test first. For a text cell, Python 3 raises TypeError before the `== '--'` test is reached. | a snapshot row whose P/E cell is the text `"--"` | an unavailable P/E passes condition 4 | medium, not executed (it depends on the data source delivering "--" as text rather than as a number or NaN) | `Filter.SentinelRaisesAsWritten` (with `Filter.ValuationAsWritten`; a NaN cell instead fails silently, `Filter.NotANumberFailsAsWritten`) | `Filter.ValuationUnavailablePasses` (with `Filter.ValuationAcceptable`, which the rest of the model uses) |
