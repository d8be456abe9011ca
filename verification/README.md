# Rates conversion and rolling stdev, modelled in Dafny

This project models the table logic of two small pandas pipelines.

- **Rates conversion** (`RatesProcessor.process`). Price rows and spot-rate rows are each stably sorted by (`timestamp`, `ccy_pair`). Each price is joined to the latest spot row of its pair at or before its timestamp, at most one hour older (`merge_asof`). The conversion rules are then left-merged on `ccy_pair`, and `convert_price` is coerced to bool. `new_price` starts null and is overwritten through two masks: the price itself when no conversion is asked for, and `price / conversion_factor + spot_mid_rate` when one is. Finally the rows are cut to an optional inclusive `[start, end]` window.
- **Rolling stdev** (`StdDevProcessor._compute_group_stdev` and `process`). The snapshots are sorted by (`security_id`, `snap_time`) and grouped by security. Each group is sorted by time. A row gets an exact one-hour gap indicator, and a window is contiguous when 19 consecutive indicators are all 1. For bid, mid and ask, a 20-row rolling statistic that needs all 20 values is masked to null unless the window is contiguous. An optional `gap_blocked` column is added; the model computes it as the comment at `stdev.py:59` describes rather than as line 60 is written (see Findings). The groups are concatenated and cut to the inclusive `[start, end]` window on `snap_time`.

Timestamps are integer seconds. Nullable fields are `Option`. Prices, rates and statistics are `real`.

Modules:

- `Wrappers`: `Option`.
- `Ordering`: lexicographic sort keys, with null timestamps last.
- `Table`: boolean-mask filtering, and a stable sort with its sortedness, permutation and stability lemmas.
- `RatesRecords`: the three input tables.
- `AsOf`: the backward as-of join.
  - `AsOfMatch` is its specification.
  - `AsOfJoin` is the one-pass scan, proved equal to `AsOfMatch`. It has one position in the spot rows and a table of the last spot row seen per pair, which is how `merge_asof` works with `by=`.
- `Rates`: the rule merge, the masked `new_price` assignments, the window filter and the whole pipeline.
- `Rolling`: one group.
- `Stdev`: grouping, concatenation and the final filter.

The imperative steps are methods proved against the functions that specify them:

- the as-of scan (`AsOf.AsOfJoin`, `AsOf.Advance`);
- the in-place `convert_price` and `new_price` column writes (`Rates.ConvertPrices`, over arrays);
- the sliding-window count (`Rolling.RollingStd`);
- the loop over the three columns (`Rolling.RollColumns`) and the in-place `gap_blocked` column (`Rolling.ComputeGroup`);
- the loop over groups (`Stdev.ComputeGroups`).

## Model

| member | source | states |
|---|---|---|
| Table.SortBy | rates_test/scripts/rates.py:61-62 | `sort_values(..., kind='mergesort')` (also `stdev.py:41,81`): the result has the input's length and multiset of rows; its order and stability are `Table.SortBySorted` and `Table.SortByStable` |
| Table.Filter | rates_test/scripts/rates.py:100-103 | a boolean-mask selection (also `stdev.py:92-93`): never longer than its input; which rows it keeps is `Table.FilterMembers` |
| Table.SortBySorted | rates_test/scripts/rates.py:61-62 | the sorted table is ordered by the sort key (lexicographic, null timestamps last) |
| Table.SortByStable | rates_test/scripts/rates.py:61-62 | `kind='mergesort'` is stable: the rows sharing a key appear in the sorted table in their input order |
| Table.SortFilter | rates_test/scripts/rates.py:61-62 | selecting rows before or after the stable sort gives the same table |
| Table.SortBySortedUnchanged | stdev_test/scripts/stdev.py:41 | re-sorting rows that are already in key order leaves them unchanged |
| Table.SortBySameOrder | stdev_test/scripts/stdev.py:41 | two keys that order a table's rows alike sort it identically |
| Table.FilterMembers | rates_test/scripts/rates.py:100-103 | a boolean mask keeps exactly the rows it holds for and no others |
| Table.FilterCounts | rates_test/scripts/rates.py:100-103 | a boolean mask keeps every selected row as often as it occurs and drops every other row (also `stdev.py:92-93`) |
| Table.FilterPositions | rates_test/scripts/rates.py:100-103 | a boolean mask keeps row order: result row `i` is input row `ix[i]`, the positions strictly ascend and are exactly those of the selected rows |
| Table.FilterConcat | stdev_test/scripts/stdev.py:89 | masking a concatenation is concatenating the masked parts |
| Table.LastOfItsKey | rates_test/scripts/rates.py:62 | a sorted row with no later row of equal key is the last input row with that key |
| RatesRecords.SortedPricesByTime | rates_test/scripts/rates.py:61 | after the sort the price timestamps never decrease, as `merge_asof` needs |
| RatesRecords.SortedSpotsByTime | rates_test/scripts/rates.py:62 | after the sort the spot timestamps never decrease |
| AsOf.LastAtOrBefore | rates_test/scripts/rates.py:65-71 | the result is a spot row of the pair at or before the time, and no later row is; none only when no row is |
| AsOf.AsOfMatch | rates_test/scripts/rates.py:65-73 | a match has the price's pair and is at most 3600 s older; no later spot row of the pair is at or before the price |
| AsOf.AsOfMatchComplete | rates_test/scripts/rates.py:65-73 | on time-sorted spots a price is matched exactly when some spot row of its pair lies within the tolerance |
| AsOf.ToleranceBoundary | rates_test/scripts/rates.py:72 | a spot exactly one hour older matches; one second older does not |
| AsOf.MatchIsLastOfItsTies | rates_test/scripts/rates.py:62-71 | among spot rows of equal timestamp and pair, the match is the last one in input order |
| AsOf.NoTieAfterMatch | rates_test/scripts/rates.py:65-71 | no spot row after the match shares its timestamp and pair |
| AsOf.LastWithPair | rates_test/scripts/rates.py:68 | the last row of a pair in a prefix: of that pair, with none of the pair after it; none when the pair is absent |
| AsOf.ScannedPrefix | rates_test/scripts/rates.py:65-71 | once the scan has passed exactly the rows at or before `t`, the last row seen of a pair is the backward match |
| AsOf.ScannedMatch | rates_test/scripts/rates.py:65-73 | the last row seen, dropped when older than the tolerance, is the as-of match |
| AsOf.Advance | rates_test/scripts/rates.py:65-71 | the scan position moves to the first row after `t`; the per-pair table then holds the last row of each pair scanned |
| AsOf.MatchOne | rates_test/scripts/rates.py:65-73 | one price's step of the scan returns exactly its as-of match |
| AsOf.AsOfJoin | rates_test/scripts/rates.py:65-73 | the one-pass scan over time-sorted prices and spots returns, for every price, its as-of match |
| Rates.LeftMerge | rates_test/scripts/rates.py:76 | `merge(ccy, on='ccy_pair', how='left')`: each left row, in order, expanded by its matching rules or given null rule columns; characterised by `Rates.LeftMergeUnique` |
| Rates.AsBool | rates_test/scripts/rates.py:80 | `astype(bool)` of the merged `convert_price`: a null becomes True; its effect is stated in `Rates.MergedRowCases` |
| Rates.NewPrice | rates_test/scripts/rates.py:85-95 | `new_price` of one row from its price, spot mid, coerced flag and factor; its cases are `Rates.MergedRowCases` and `Rates.ConversionExample` |
| Rates.Convert | rates_test/scripts/rates.py:79-95 | one merged row after the coercion and the masked assignments; `Rates.ConvertPrices` is proved equal to it row by row |
| Rates.LeftMergeUnique | rates_test/scripts/rates.py:76 | with rules unique per pair, the left merge has one row per input row, in order, carrying that pair's rule or nulls |
| Rates.LeftMergeStep | rates_test/scripts/rates.py:76 | with unique rules, each left row contributes exactly one merged row |
| Rates.FilterAtMostOne | rates_test/scripts/rates.py:76 | a key held by at most one rule selects at most one rule |
| Rates.ConvertPrices | rates_test/scripts/rates.py:79-95 | the column writes (coercion, null fill, the `no_convert` then `needs_convert` masked assignments) give each row its converted form |
| Rates.Align | rates_test/scripts/rates.py:65-73 | the `merge_asof` table: one row per time-sorted price, in order, carrying the mid of its as-of match; the match is characterised by `AsOf.AsOfMatch` and `AsOf.AsOfMatchComplete`, and `AsOf.AsOfJoin` is proved to compute it |
| Rates.Converted | rates_test/scripts/rates.py:61-95 | sorts, as-of join, left merge and conversion composed; its rows are characterised by `Rates.ConvertedAt`, `Rates.ConversionCases` and `Rates.OutputRowsAndOrder` |
| Rates.RatesOutput | rates_test/scripts/rates.py:61-103 | the converted table cut to the window; characterised by `Rates.WindowFilterSelects` and `Rates.WindowFilterKeepsOrder`, and `Rates.Process` is proved to return it |
| Rates.MergedRowCases | rates_test/scripts/rates.py:79-95 | `new_price` is null without a spot rate; the price when the rule says no conversion; `price / factor + mid` when it says convert; null with convert coerced to True when the pair has no rule |
| Rates.ConvertedAt | rates_test/scripts/rates.py:61-95 | row `i` of the converted table is row `i` of the sorted prices, with its as-of spot rate and its rule, converted |
| Rates.ConversionCases | rates_test/scripts/rates.py:76-95 | for the pipeline's row `i`: null `new_price` without a match, the price when not converting, null with convert True when no rule exists |
| Rates.ConversionExample | rates_test/scripts/rates.py:92-95 | 100 at factor 2 over a spot of 1.5 gives 51.5; unconverted it stays 100; without a spot it is null |
| Rates.OutputRowsAndOrder | rates_test/scripts/rates.py:61-76 | with unique rules the output has one row per price row, in the stable (timestamp, ccy_pair) order |
| Rates.WindowFilter | rates_test/scripts/rates.py:100-103 | the optional `start` and `end` cuts applied one after the other; characterised by `Rates.WindowFilterIsFilter` and `Rates.WindowFilterSelects` |
| Rates.WindowFilterIsFilter | rates_test/scripts/rates.py:100-103 | the optional start and end cuts are one order-keeping mask |
| Rates.WindowFilterSelects | rates_test/scripts/rates.py:100-103 | the rows kept are exactly those with `start <= ts` (if given) and `ts <= end` (if given) |
| Rates.WindowFilterKeepsOrder | rates_test/scripts/rates.py:100-103 | the cuts keep the table order and every row in the window once per occurrence: output row `i` is input row `ix[i]`, positions ascending, exactly the in-window positions |
| Rates.Process | rates_test/scripts/rates.py:60-103 | the pipeline (sorts, scan, merge, conversion, cuts) returns `Rates.RatesOutput`, the window cut of `Rates.Converted` |
| Rolling.Gap | stdev_test/scripts/stdev.py:44 | `diff().eq(1h).astype(int)` at one row; characterised by `Rolling.GapIndicator` |
| Rolling.Contiguous | stdev_test/scripts/stdev.py:47 | `rolling(19, min_periods=19).sum().eq(19)` at one row; characterised by `Rolling.ContiguousIff` |
| Rolling.GapIndicator | stdev_test/scripts/stdev.py:44 | the indicator is 1 exactly on a step of exactly 3600 s and 0 otherwise; 0 on the first row and next to a null time |
| Rolling.SumOfBits | stdev_test/scripts/stdev.py:47 | a sum of 0/1 indicators is at most their number, and equal to it exactly when all are 1 |
| Rolling.ContiguousIff | stdev_test/scripts/stdev.py:47 | contiguous at row `i` exactly when `i >= 19` and the 19 steps ending at `i` are all hourly |
| Rolling.Cadence | stdev_test/scripts/stdev.py:44-47 | after consecutive hourly steps, the time is the start plus one hour per step |
| Rolling.ContiguousCadence | stdev_test/scripts/stdev.py:44-47 | a contiguous window's 20 times are exactly its first time plus 0..19 hours |
| Rolling.RollingStat | stdev_test/scripts/stdev.py:51 | `rolling(20, min_periods=20)` of one column at one row; characterised by `Rolling.RollingStatIff` |
| Rolling.StdevAt | stdev_test/scripts/stdev.py:53 | the rolling statistic masked by `where(contiguous_20)`; characterised by `Rolling.StdevNonNull` and `Rolling.BreakBlocks` |
| Rolling.CountPresentFull | stdev_test/scripts/stdev.py:51 | every value of a window is counted exactly when none is null |
| Rolling.SampleVariance | stdev_test/scripts/stdev.py:51 | the sample statistic is never negative |
| Rolling.RollingStatIff | stdev_test/scripts/stdev.py:51 | the unmasked statistic is non-null exactly when `i >= 19` and rows `i-19..i` all have a value; it is then the statistic of exactly those 20 values |
| Rolling.FullWindowIff | stdev_test/scripts/stdev.py:51 | a column's unmasked statistic is non-null exactly on a full 20-value window |
| Rolling.StdevNonNull | stdev_test/scripts/stdev.py:51-53 | a masked stdev is non-null exactly when `i >= 19`, the 20 values are present and the 19 steps are hourly; it is then the statistic of rows `i-19..i` |
| Rolling.BreakBlocks | stdev_test/scripts/stdev.py:44-53 | a non-hourly step at row `k` nulls every stdev of rows `k..k+18` |
| Rolling.GapBlockedAsWritten | stdev_test/scripts/stdev.py:60 | line 60 as written, over the masked columns; `Rolling.GapBlockedAsWrittenNeverSet` proves it never holds |
| Rolling.GapBlockedAsWrittenNeverSet | stdev_test/scripts/stdev.py:53-60 | the flag as written is never set |
| Rolling.GapBlocked | stdev_test/scripts/stdev.py:58-60 | the corrected flag the pipeline emits: not contiguous while some column has a full window; characterised by `Rolling.GapBlockedIff` (the difference from line 60 is the Finding) |
| Rolling.GapBlockedIff | stdev_test/scripts/stdev.py:58-60 | the corrected flag holds exactly from row 19 on when some column has a full window and some step in it is not hourly |
| Rolling.GapBlockedWitness | stdev_test/scripts/stdev.py:58-60 | twenty full quotes two hours apart: the corrected flag is set on row 19, the flag as written is not |
| Rolling.ResultRow | stdev_test/scripts/stdev.py:49-60 | one result row: the snapshot, its three masked statistics and, when asked for, the corrected flag; its columns are characterised by `Rolling.StdevNonNull` and `Rolling.GapBlockedIff` (with the corrected `gap_blocked`, see Left out) |
| Rolling.Annotate | stdev_test/scripts/stdev.py:56-60 | one result row per sorted row, each keeping its snapshot, with `gap_blocked` present exactly when asked for (its value is the corrected flag, see Left out) |
| Rolling.GroupRows | stdev_test/scripts/stdev.py:41-62 | the table `_compute_group_stdev` returns: the time-sorted group annotated row by row; characterised by `Rolling.GroupShape` and `Stdev.GroupResult`, and `Rolling.ComputeGroup` is proved to return it (with the corrected `gap_blocked`, see Left out) |
| Rolling.GroupShape | stdev_test/scripts/stdev.py:41-60 | a group's result has as many rows as its input, the same rows, in ascending `snap_time` (null last), with the flag present exactly when asked for |
| Rolling.CountPresentExtend | stdev_test/scripts/stdev.py:51 | the count of a window grows by the entering row's presence |
| Rolling.CountPresentShrink | stdev_test/scripts/stdev.py:51 | the count of a window shrinks by the leaving row's presence |
| Rolling.Slide | stdev_test/scripts/stdev.py:51 | one step of the sliding window yields the statistic at row `i` and the window count for row `i + 1` |
| Rolling.RollingStd | stdev_test/scripts/stdev.py:51 | the sliding-window loop returns the rolling statistic at every row |
| Rolling.RollColumns | stdev_test/scripts/stdev.py:49-54 | the loop over bid, mid and ask returns each column's statistic and its contiguity-masked form |
| Rolling.ComputeGroup | stdev_test/scripts/stdev.py:35-62 | the per-group computation returns `Rolling.GroupRows` of the group, i.e. one `Rolling.ResultRow` per time-sorted row, with the corrected `gap_blocked` (see Left out) |
| Stdev.GroupKeys | stdev_test/scripts/stdev.py:85 | each security of the frame is a group key, once, and every key is some row's security |
| Stdev.GroupKeysAscending | stdev_test/scripts/stdev.py:81-85 | on the security-sorted frame the group keys ascend, as `groupby` iterates them |
| Stdev.GroupTables | stdev_test/scripts/stdev.py:84-87 | one result table per group key, in key order; characterised by `Stdev.GroupTablesAt`, and `Stdev.ComputeGroups` is proved to return it (with the corrected `gap_blocked`, see Left out) |
| Stdev.GroupTablesAt | stdev_test/scripts/stdev.py:84-87 | result table `j` is the per-group computation on key `j`'s rows |
| Stdev.GroupTablesExtend | stdev_test/scripts/stdev.py:84-87 | one more key appends its group's result |
| Stdev.ComputeGroups | stdev_test/scripts/stdev.py:84-87 | the loop over groups collects each group's result in key order (with the corrected `gap_blocked`, see Left out) |
| Stdev.Process | stdev_test/scripts/stdev.py:80-93 | the pipeline returns `Stdev.StdevOutput`: the window cut of `Stdev.Concatenated` (the concatenated `Stdev.GroupTables`), or the error of concatenating no groups (with the corrected `gap_blocked`, see Left out) |
| Stdev.Concatenated | stdev_test/scripts/stdev.py:81-89 | the security-sorted frame's group tables concatenated; characterised by `Stdev.GroupResult`, `Stdev.ConcatPicksGroup` and `Stdev.ConcatKeepsEveryRow` (with the corrected `gap_blocked`, see Left out) |
| Stdev.StdevOutput | stdev_test/scripts/stdev.py:80-93 | the error when there are no groups, otherwise the concatenation cut to `[start, end]`; characterised by `Stdev.NoGroupsIffEmpty`, `Stdev.OutputOfSecurity`, `Stdev.WindowKeepsInRange` and `Stdev.WindowKeepsOrder` (with the corrected `gap_blocked`, see Left out) |
| Stdev.Concat | stdev_test/scripts/stdev.py:89 | `pd.concat(all_results, ignore_index=True)`: the group tables one after the other; sized by `Stdev.ConcatSize`, split by `Stdev.FilterConcatByKey` |
| Stdev.InRange | stdev_test/scripts/stdev.py:92-93 | the inclusive `[start, end]` mask on `snap_time`, False for a null time; its effect is `Stdev.WindowKeepsInRange` |
| Stdev.NoGroupsIffEmpty | stdev_test/scripts/stdev.py:89 | the pipeline fails with nothing to concatenate exactly when the input is empty |
| Stdev.SameSecurityOrder | stdev_test/scripts/stdev.py:81 | within one security, the (security, time) order is the time order |
| Stdev.GroupOfSortedFrame | stdev_test/scripts/stdev.py:81-86 | a group's result does not depend on how the whole frame was ordered before the sort |
| Stdev.GroupRowsOfSecurity | stdev_test/scripts/stdev.py:85-86 | every row of a group's result belongs to that security |
| Stdev.FilterLastTable | stdev_test/scripts/stdev.py:89 | a security's rows of a concatenation gain the last table exactly when it is that security's |
| Stdev.FilterConcatByKey | stdev_test/scripts/stdev.py:89 | a security's rows of the concatenated tables are exactly its own table |
| Stdev.FilterConcatAbsent | stdev_test/scripts/stdev.py:89 | a security with no table has no rows in the concatenation |
| Stdev.ConcatPicksGroup | stdev_test/scripts/stdev.py:84-89 | a security's rows of the concatenation are its group's result, or none when it has no group |
| Stdev.GroupResult | stdev_test/scripts/stdev.py:81-89 | a security's rows of the concatenation are the group computation on that security's input rows alone |
| Stdev.OutputOfSecurity | stdev_test/scripts/stdev.py:81-93 | a security's output rows are its group's result cut to the window |
| Stdev.GroupIndependence | stdev_test/scripts/stdev.py:84-89 | two inputs with the same rows for a security give that security the same output rows, whatever the other rows are |
| Stdev.WindowKeepsInRange | stdev_test/scripts/stdev.py:92-93 | the output keeps exactly the concatenated rows with a non-null `snap_time` in `[start, end]` |
| Stdev.WindowKeepsOrder | stdev_test/scripts/stdev.py:92-93 | the window cut keeps the concatenation's order and every in-range row once per occurrence: output row `i` is row `ix[i]`, positions ascending, exactly the in-range positions |
| Stdev.OccursOnce | stdev_test/scripts/stdev.py:85 | a key of the distinct group keys occurs once |
| Stdev.GroupSizesExtend | stdev_test/scripts/stdev.py:85 | one more row adds one to its own group's size |
| Stdev.GroupsPartition | stdev_test/scripts/stdev.py:85 | the groups of distinct keys covering the frame have sizes summing to the number of rows |
| Stdev.ConcatSize | stdev_test/scripts/stdev.py:89 | the concatenation has as many rows as the groups together |
| Stdev.ConcatKeepsEveryRow | stdev_test/scripts/stdev.py:84-89 | before the window cut, the concatenated result has exactly one row per input row |

## Left out

- Loading, saving and setup are not modelled: reading CSV or Parquet, the file-existence check, `to_csv`, `mkdir` and the default directories. The inputs are the loaded tables, and the outputs are the returned tables.
- The `argparse` blocks are not modelled. This includes `stdev.py` lines 114-115, which read `args.input_file` and `args.output_file` although the options are named `input` and `output`.
- Timestamp parsing (`pd.to_datetime`, for the columns and for `start`/`end`) is not modelled. Times are integer seconds.
  - A `snap_time` that failed to parse is a null time.
  - The optional rates bounds are `Option<int>`; an empty string, like `None`, means no bound.
- Floating point is not modelled: values are exact `real`s.
  - The statistic is the sample variance (n - 1 denominator). The square root that makes it a standard deviation is left out, and so is pandas' incremental rolling arithmetic. Nullness and window membership, which is what the masking decides, are unaffected.
  - Dividing a non-zero price by a zero `conversion_factor` gives an infinite `new_price` in pandas (0/0 gives NaN, which is null). The model gives null for every zero factor, as it does for a missing factor (which pandas turns into NaN).
- The single-column per-group sort at `stdev.py:41` uses pandas' default quicksort, which is not stable. The model sorts stably, so the relative order of two snapshots of one security with equal `snap_time` is one valid outcome among several. (The two-column frame sort at line 81 is a stable lexsort, which the model matches exactly.)
- A null `security_id` is not modelled. Securities are plain strings, so the rows `groupby` would drop for a null key do not arise.
- `merge_asof` raising on a null timestamp is not modelled: prices and spots have non-null timestamps.
- Price, rule and snapshot columns other than the ones the computation reads are not modelled. They ride along unchanged in pandas.
- The `'convert_price' in merged.columns` guard (`rates.py:79`) is taken as always true, because the rules table always carries that column.
- Rolling.ComputeGroup, Rolling.Annotate, Rolling.ResultRow, Rolling.GroupRows, Stdev.GroupTables, Stdev.ComputeGroups, Stdev.Concatenated, Stdev.StdevOutput, Stdev.Process: with the flag asked for, the modelled pipeline emits the corrected `gap_blocked` (`Rolling.GapBlocked`, unmasked statistics), not the column `stdev.py:60` computes, which is always False (`Rolling.GapBlockedAsWritten`, `Rolling.GapBlockedAsWrittenNeverSet`). On `Rolling.TwoHourly()` row 19 the model gives True where the program gives False (`Rolling.GapBlockedWitness`).
- Rates.OutputRowsAndOrder, Rates.ConversionCases, Rates.ConvertedAt: these need rules that are unique per `ccy_pair`. With duplicate keys the left merge repeats a price row once per rule. That case is modelled (`Rates.LeftMerge`), but no row-by-row property is stated for it.

## Findings

| source | as written | input that shows it | evidently intended | confidence | as-written member | corrected member |
|---|---|---|---|---|---|---|
| stdev_test/scripts/stdev.py:60 | `gap_blocked` is `~contiguous_20 & (any stdev column notna)`. The stdev columns were already masked by `contiguous_20` at line 53, so wherever the window is not contiguous they are all null, and the flag is always False. | One security with 20 snapshots two hours apart, all with bid, mid and ask. Row 19 has a full 20-value window that the gaps block, yet its flag is False. | The flag is True when the window is not contiguous and some column had 20 values, i.e. a statistic before masking, as the comment at line 59 says. | not executed | Rolling.GapBlockedAsWritten (Rolling.GapBlockedAsWrittenNeverSet, Rolling.GapBlockedWitness) | Rolling.GapBlocked (Rolling.GapBlockedIff, used by Rolling.ComputeGroup) |
