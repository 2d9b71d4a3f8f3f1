# Portuguese municipality COVID counts to daily district series — a verified model

This project models the data pipeline of `covid/data_pt.py` from the
`covid-model` repository. The pipeline reads cumulative COVID-19 counts per
Portuguese municipality (concelho) from a page-limited feature service. It
aggregates them per district (distrito). It then turns them into cleaned
daily deltas for a forecasting model.

The model covers four parts:

- **Paging** (`paging.dfy`, module `Paging`). The `while True` loop of
  `get_sinave_data` is a method with a loop. Page `k` is requested at offset
  `k * offset` with `offset` records. The service is a parameter: the sequence
  of its replies, one per request. A reply is a status code plus the decoded
  records, or `None` when decoding raises. The loop stops at the first reply
  with a status other than 200, a body that does not decode, or no records.
- **De-duplication and district aggregation** (`grouping.dfy`, `dedup.dfy`,
  `aggregation.dfy`). pandas `groupby` is modelled once (`Grouping.Groups`):
  one group per key, groups in ascending key order, each group holding the rows
  with that key in frame order. Strings are ordered code point by code point
  (`order.dfy`). `groupby(["Concelho", "Data"]).last()` keeps the last row of
  each group. `_group_distrito` sums a group's counts and stamps the group with
  its first row's `Data_Conc`. An empty group is an error.
- **Normalisation** (`normalize.dfy`). `process_sinave_data` is modelled as a
  function pipeline: `diff` over the whole frame with the first row dropped,
  `clip(0, None)`, `sort_index` (a stable insertion sort on the
  (region, date) label), zeroing of rows with `positive >= total`, and the
  inclusive label slice up to `run_date - 1 day`.
- **Composition** (`pipeline.dfy`). `get_sinave_data` is modelled as paging,
  then concatenation, de-duplication and aggregation. `get_and_process_sinave_data`
  is that with the default page size 2000, followed by normalisation.
  `pd.concat([])` raises, so when the first reply is already a stop, both return
  `Err(NoObjectsToConcatenate)`.

Counts are unbounded integers. Dates are integer day numbers, so
`run_date - DateOffset(1)` is `runDate - 1`.

## Model

| member | source | states |
|---|---|---|
| `Paging.FetchPages` | covid/data_pt.py:20-54 | The kept pages are exactly `Pages(responses)`. One query is sent per kept page plus one for the reply that stopped the loop. Query `k` has `resultOffset = k * offset` and `resultRecordCount = offset`. |
| `Paging.FirstStop` | covid/data_pt.py:41-52 | The first stopping reply is a non-200 status, an undecodable body or an empty page. No reply before it stops. |
| `Paging.Pages` | covid/data_pt.py:41-49 | There is one kept page per reply before the first stop, in request order. Page `k` is reply `k`'s decoded records and is non-empty. |
| `Paging.PagesIgnoreLaterReplies` | covid/data_pt.py:23-54 | Replies after the first stop have no effect on the kept pages. |
| `Grouping.Groups` | covid/data_pt.py:60 | The groups partition the rows: together they hold every input row exactly as often as the input does. |
| `Grouping.GroupsSpec` | covid/data_pt.py:60 | The groups are non-empty and keyed in strictly ascending order. Each group is exactly the input rows with its key, in input order. Every input key has a group. |
| `Grouping.FilterLastIsLastOccurrence` | covid/data_pt.py:60 | The last row of a key's group is the last input row carrying that key. |
| `Deduplication.Dedup` | covid/data_pt.py:60 | (Concelho, Data) keys strictly ascend. Each kept row is the last input row with its key. Every input key is kept. |
| `Deduplication.DedupUnique` | covid/data_pt.py:60 | No (Concelho, Data) key occurs twice after de-duplication. |
| `Deduplication.DedupKeepsLastOccurrence` | covid/data_pt.py:60 | The last occurrence of every key is in the result (last write wins). |
| `Deduplication.DedupDropsOverridden` | covid/data_pt.py:60 | Let a later row be the last occurrence of its (Concelho, Data) key. An earlier row with the same key that differs from it is not in the result. |
| `Aggregation.GroupDistrito` | covid/data_pt.py:10-15 | An empty group is an error, and only an empty group is. Otherwise the row is labelled with the first row's district and `Data_Conc`. |
| `Aggregation.GroupDistritoSingle` | covid/data_pt.py:13-14 | A one-row group yields that row's counts. |
| `Aggregation.GroupDistritoSums` | covid/data_pt.py:13 | Appending a row to a group adds its confirmed and awaiting counts to the group's totals. Together with the one-row case, the totals are the sums over the group. |
| `Aggregation.GroupDistritoSplit` | covid/data_pt.py:10-15 | Aggregation is associative. Aggregating two consecutive parts and adding the sub-totals gives the whole group's totals. The date and district come from the first part. |
| `Aggregation.TwoMunicipalities` | covid/data_pt.py:10-15 | Two municipalities of one district and date with 10 and 5 confirmed cases aggregate to 15. |
| `Aggregation.Aggregate` | covid/data_pt.py:62-67 | There is one row per (Distrito, Data) key, keys strictly ascending. Row `i` is `_group_distrito` of exactly the rows with the `i`-th key, and its region is that key's district. Every input key has its row. |
| `Normalize.Diff` | covid/data_pt.py:86 | The differenced frame has one row fewer than its input. Row `i` is input row `i + 1` minus input row `i` in both counts, under row `i + 1`'s label. |
| `Normalize.AccumulateDiff` | covid/data_pt.py:86 | Differencing loses only the first row. Running sums of the deltas on top of it rebuild the rest of the cumulative series. |
| `Normalize.Clip` | covid/data_pt.py:86 | Negative counts become 0. Non-negative counts and labels are unchanged. |
| `Normalize.ClipCorrection` | covid/data_pt.py:86 | Cumulative 10, 12, 11 gives deltas 2, -1, which are clipped to 2, 0. |
| `Normalize.SortIndex` | covid/data_pt.py:86 | `sort_index` output is sorted by (region, date) and is a permutation of its input. |
| `Normalize.SortIndexSorted` | covid/data_pt.py:86 | `sort_index` leaves an already sorted frame unchanged. |
| `Normalize.SortedInputSkipsSort` | covid/data_pt.py:86 | On input sorted by (region, date), the pipeline equals diff, clip, zero, truncate with no sort. |
| `Normalize.ZeroImplausible` | covid/data_pt.py:89-90 | A row with `positive >= total` has both counts set to 0. Other rows are unchanged. Labels are kept. |
| `Normalize.ZeroImplausibleSpec` | covid/data_pt.py:89-90 | After zeroing, every row has `positive < total` or both counts 0. Non-negative counts stay non-negative. |
| `Normalize.ZeroFiveOverThree` | covid/data_pt.py:89-90 | A row with 5 positives and 3 tests becomes 0/0. |
| `Normalize.Truncate` | covid/data_pt.py:96 | Every kept row is dated on or before `runDate - 1`, that is, strictly before `runDate`. No rows are added. |
| `Normalize.TruncateMembers` | covid/data_pt.py:96 | A row is kept if and only if it is in the input and dated before `runDate`. |
| `Normalize.TruncateConcat` | covid/data_pt.py:96 | Truncation keeps frame order: truncating a whole frame equals truncating its two parts and joining them. |
| `Normalize.TruncateKeepsEarlier` | covid/data_pt.py:96 | A frame with no row on or after `runDate` is returned whole. |
| `Normalize.TruncateSorted` | covid/data_pt.py:96 | Truncating a frame sorted by (region, date) leaves it sorted. |
| `Normalize.SortCommutesWithZeroTruncate` | covid/data_pt.py:86-96 | Sorting before zeroing and truncation changes only the order of the rows that survive. Zeroing is a row-by-row map and truncation a filter, so the same rows survive, as often, with or without the sort. |
| `Normalize.ProcessSinaveData` | covid/data_pt.py:71-96 | The returned rows are, as a multiset, exactly the rows that survive diff, clip, zeroing and truncation. Every returned row has non-negative counts and `positive < total` unless both are 0. It is dated before `runDate`. The result is sorted by (region, date) and shorter than a non-empty input. |
| `Normalize.DiffCrossesRegions` | covid/data_pt.py:86 | Whole-frame `diff` takes Braga's first day minus Aveiro's last day, which gives a row (0, 30) after clipping. Per-region differencing drops that row. |
| `Normalize.DiffPerRegion` | covid/data_pt.py:86 | Per-region differencing drops at least the first row. It assumes a frame grouped by region, as the key-sorted district frame is. |
| `Normalize.DiffPerRegionMembers` | covid/data_pt.py:86 | Its rows are exactly the differences of two frame-adjacent rows of the same region. Every such difference is present. On a frame grouped by region, these are the per-region differences. |
| `Normalize.DiffPerRegionOneRegion` | covid/data_pt.py:86 | Within a single region, per-region differencing equals `diff`. |
| `Normalize.DiffPerRegionSplit` | covid/data_pt.py:86 | Per-region differencing treats regions independently: for consecutive blocks of different regions, it differences each block alone. |
| `Normalize.ProcessSinaveDataPerRegion` | covid/data_pt.py:71-96 | The per-region variant of the pipeline keeps the same guarantees as `ProcessSinaveData`: usable rows, sorted by (region, date), shorter than a non-empty input. As a multiset, its rows are exactly those that survive per-region differencing, clipping, zeroing and truncation. |
| `Pipeline.Concat` | covid/data_pt.py:57 | Concatenation yields rows when the first page has rows. |
| `Pipeline.ConcatAt` | covid/data_pt.py:57 | Page `k`'s rows appear in the concatenation after the rows of every earlier page and before the rows of every later page. |
| `Pipeline.DistrictData` | covid/data_pt.py:57-67 | Concatenation, de-duplication and aggregation of the kept pages yield district rows exactly when at least one page was kept. |
| `Pipeline.GetSinaveData` | covid/data_pt.py:17-69 | The queries are paged as in `FetchPages`. The call fails if and only if the first reply stops the loop. Otherwise it returns the non-empty aggregate of the de-duplicated concatenated pages. |
| `Pipeline.GetAndProcessSinaveData` | covid/data_pt.py:99-103 | Queries use the default page size 2000. One query is sent per kept page plus one for the stopping reply. The call fails exactly when fetching fails. Otherwise every returned row is usable as of `runDate`, and rows are sorted by (region, date). |

## Findings

| source | as written | input that shows it | evidently intended | confidence | as-written member | corrected member |
|---|---|---|---|---|---|---|
| covid/data_pt.py:86 | `data.diff()` runs over the whole (region, date)-indexed frame with no per-region grouping. The first day of every region after the first is differenced against the previous region's last day. | Aveiro day 1 (10 positive, 20 total) followed by Braga day 1 (3, 50). Braga's day 1 becomes (-7, 30), then (0, 30) after clipping, and it is returned. | Each district is differenced as its own series, and its first day is dropped. | not executed; high | `Normalize.DiffCrossesRegions` | `Normalize.ProcessSinaveDataPerRegion` |

`Normalize.ProcessSinaveData` follows lines 86-96 as written, applied to the (region, date)-indexed frame those lines expect (see "Left out" on line 66). `Pipeline.GetAndProcessSinaveData` composes the reconstructed `get_sinave_data` with it. The corrected differencing is `Normalize.DiffPerRegion`. Its independence property is `Normalize.DiffPerRegionSplit`. It is used by `Normalize.ProcessSinaveDataPerRegion`.

## Left out

- HTTP requests, URL construction apart from the offset and record-count arithmetic, and JSON decoding (covid/data_pt.py:24-46). These are network I/O and library code. The replies are the `responses` parameter, with the decoded records already extracted.
- `json` is never imported, so as written line 45 raises `NameError` on every 200 reply. The `except Exception` handler at line 51 turns that into a stop at the first page, and line 57 then raises on the empty list. The model decodes as evidently intended.
- Lines 62-67 use the undefined names `concelhos_df`, `cols_to_keep` and `group_distrito`. The model aggregates the de-duplicated rows with `_group_distrito`. It groups by (Distrito, Data), not Distrito alone, because line 96 slices the result by (region, date), and grouping by district alone would merge all dates of a district into one row.
- `Pipeline.GetSinaveData` returns the district frame indexed by (region, date), which is what lines 86 and 96 need. As written, line 66 calls `.reset_index()`, which gives a plain integer index with the district as a column. Line 86's `diff` would then reach the string `Distrito` column, and line 96's two-level slice `idx[:, :...]` would have no second level to slice. The model keeps the index that `process_sinave_data` evidently expects.
- `Aggregation.GroupDistrito`: line 13 sums every column except `Distrito`, including `Data_Conc` and any other numeric attribute. The model carries only the two count columns used later.
- Millisecond timestamps and the `pd.to_datetime` conversion (line 75) are left out. Dates are integer day numbers.
- The column rename (lines 76-83) is left out. The model's fields are named `positive` and `total` directly.
- pandas promotes differenced integers to floats with NaN in the first row. Counts here stay integers, and `dropna` drops only the first row.
- `Grouping.Groups`: `groupby(...).last()` takes the last non-null value per column. Records in the model have no missing values, so this is the last row.
- `Normalize.SortIndex`: among rows with equal (region, date) labels the model keeps frame order. pandas' default sort does not promise this.
- `Paging.FetchPages`: a request that raises (a connection error or timeout at line 40, which is outside the `try`) propagates out of `get_sinave_data` and `get_and_process_sinave_data` to the caller. This is not modelled. A reply is always a status plus optional decoded records, and only a non-200 status, a body that does not decode or an empty page stops the loop.
- `Paging.FetchPages` requires that some reply stops the loop, because the source loop has no other exit and no page cap.
- The forecasting model that consumes the series is not part of this model.
