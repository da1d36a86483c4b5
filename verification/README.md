# OMIE hourly price synchronisation, modelled in Dafny

`script.py` keeps a CSV file of hourly day-ahead electricity prices for
Portugal and Spain (the OMIE market) up to date. Each run does four things:

1. It loads the stored frame, if there is one.
2. It picks a window of dates to download: from 2023-01-01 on the first run,
   otherwise from the latest stored date minus `DAYS_TO_CHECK` = 7 days.
   The window always ends today.
3. It downloads the provider's wide table, one row per (DATE, CONCEPT) with
   hour columns H1..H24. It keeps the `PRICE_PT` and `PRICE_SP` rows and
   melts them into a long frame with one row per (DATETIME, COUNTRY, PRICE).
   Rows whose price is not a number are dropped.
4. It merges the download into the stored frame. Duplicate (DATETIME, COUNTRY)
   rows are removed, keeping the last one, so fetched rows overwrite stored
   ones. The result is sorted by DATETIME. A missing or empty result is
   refused before anything is written.

The model is made of pure functions over sequences, as the source is made of
pandas expressions that return new frames. It has no loops and no mutable
state.

| file | module | what it models |
|---|---|---|
| `records.dfy` | `Records` | the long frame: `Record` (DATETIME, COUNTRY, PRICE), its (DATETIME, COUNTRY) `Key`, "no duplicate keys", "sorted by DATETIME" |
| `calendar.dfy` | `Calendar` | dates as day numbers from 1970-01-01, DATETIMEs as hour numbers, `DAYS_TO_CHECK`, the 2023-01-01 floor |
| `planner.dfy` | `Planner` | `get_new_dates_needed` |
| `fetch.dfy` | `Fetch` | `fetch_new_data` and its inner `process_omie_data` |
| `merge.dfy` | `Merge` | the concat / `drop_duplicates(keep='last')` / `sort_values` branch of `update_data` |
| `sync.dfy` | `Sync` | `update_data` as a whole and the check in `main` before the CSV is written |

Encodings:

- A date is a day number: `Calendar.DaysFromCivil(2023, 1, 1)` = 19358.
- A DATETIME is an hour number. Date `d` at hour column H`h` is `d * 24 + h`,
  so H24 is hour 0 of the next date. `Calendar.DayOf` is `.date()`: it
  divides by 24, rounding down. The "latest date" used by the planner can
  therefore be the day after the last market day (`Planner.H24ShiftsWindow`).
- A raw row holds its DATE, its CONCEPT and exactly the 24 cells of the
  columns H1..H24 that the reshape names (script.py:52). Any other column of
  the provider's table, an `H25` included, is not read and is not modelled.
  A row with a number of cells other than 24 stands for a table lacking one
  of the hour columns (`Fetch.HasHourColumns`).
- The price is a type parameter `P`, never inspected. A raw hour cell is
  `Option<P>`, where `None` is a value that `pd.to_numeric(errors='coerce')`
  turned into NaN.
- The clock (`today`), the stored frame (`existing`; `None` when there is no
  file) and the remote provider (`provider`, a function from a window to a
  `Download`) are parameters.

The merge of a run on stored data leaves the frame deduplicated on
(DATETIME, COUNTRY) and sorted by DATETIME. The code does not deliver this on
every path, and the model follows the code:

- The first run returns the downloaded frame as it is (script.py:92). It is
  neither deduplicated nor sorted, and `melt` stacks it hour column by hour
  column. A download of several dates is therefore written out of DATETIME
  order (`Sync.FirstRunIsNotSorted`). A download of a single date does come
  out sorted (`Fetch.ProcessOmieDataSortedOneDate`), and a download that
  repeats no (DATE, CONCEPT) price row has no duplicate keys
  (`Fetch.ProcessOmieDataNoDup`).
- The sort is on DATETIME alone, and pandas' default sort is not stable.
  There is no tie-break by country. The model sorts by insertion, but its
  contracts say only "permutation, non-decreasing DATETIME", which is all the
  source guarantees.
- Rows without a price are dropped in the reshape (`dropna`, script.py:64),
  not at merge time.
- A window whose start is after `today` is not clamped.

## Model

| member | source | states |
|---|---|---|
| Calendar.DayOf | script.py:32 | `.date()` of a DATETIME is the day whose 24 hours contain it |
| Calendar.Stamp | script.py:62 | DATE + h hours, for h within the day, lies on DATE at hour h |
| Calendar.StampHour | script.py:62 | the cell of column H`h` lies at hour h of the day, and H24 at midnight |
| Calendar.DayOfStamp | script.py:62 | DATE + H`h` hours falls on DATE for H1..H23 and on DATE + 1 for H24 |
| Calendar.StampInjective | script.py:52-62 | distinct (date, hour) pairs with hours in 1..24 give distinct DATETIMEs |
| Calendar.DayOfMonotonic | script.py:32 | a later DATETIME never has an earlier date |
| Calendar.FloorDayValue | script.py:29 | the floor date 2023-01-01 is day 19358 from 1970-01-01 |
| Planner.LatestStamp | script.py:32 | `DATETIME.max()` of a non-empty frame is one of its DATETIMEs and no DATETIME exceeds it |
| Planner.NewDatesNeeded | script.py:24-36 | a window exists unless the stored frame is present but empty; it always ends today and never starts before 2023-01-01; without stored data it starts at 2023-01-01; otherwise its start is the largest of 2023-01-01 and every stored row's date minus 7 days |
| Planner.StartNotAfterToday | script.py:24-36 | when no stored date is more than 7 days after today (a rerun on the same day, whose latest row is dated tomorrow, included), the window starts no later than it ends |
| Planner.FirstRunExample | script.py:28-29 | no stored data, today 2024-03-10: window 2023-01-01 .. 2024-03-10 |
| Planner.IncrementalExample | script.py:31-33 | latest stored DATETIME on 2024-03-01, today 2024-03-10: window 2024-02-23 .. 2024-03-10 |
| Planner.H24ShiftsWindow | script.py:32-33 | when the latest stored row is the H24 price of market day d, the next window starts at d + 1 - 7 |
| Fetch.CountryOf | script.py:63 | COUNTRY is `portugal` exactly for CONCEPT PRICE_PT, `espanha` otherwise |
| Fetch.SelectPrices | script.py:51 | keeps exactly the raw rows whose CONCEPT is PRICE_PT or PRICE_SP, each as often as it occurs, and no other row |
| Fetch.SelectPricesDistinct | script.py:51 | filtering keeps price rows with distinct (DATE, CONCEPT) distinct |
| Fetch.MeltColumn | script.py:53-58 | the block melted from one hour column has one row per input row |
| Fetch.MeltFrom | script.py:52-58 | melting columns H`h`..H24 gives (25 - h) rows per input row |
| Fetch.NumericCount | script.py:59-64 | counts the cells `dropna` keeps: never more than there are, and all of them exactly when every cell is a number |
| Fetch.DropAbsent | script.py:64 | `dropna` never adds rows, and removes none when every price is a number |
| Fetch.DropAbsentMembers | script.py:64 | a record survives `dropna` exactly when its melted row carried a number |
| Fetch.DropAbsentAppend | script.py:64 | `dropna` works row by row: dropping from a concatenation is concatenating the drops |
| Fetch.MeltColumnMembers | script.py:53-58 | a row is in the block of column H`h` exactly when it is the H`h` cell of some input row |
| Fetch.MeltFromMembers | script.py:53-58 | a row is in the melt of columns H`h`..H24 exactly when it is the H`k` cell of some input row, h <= k <= 24 |
| Fetch.MeltFromCount | script.py:52-64 | melting columns H`h`..H24 and dropping absent prices yields one record per numeric cell of those columns |
| Fetch.ProcessOmieData | script.py:50-64 | the reshaped frame has one record per numeric H1..H24 cell of each PRICE_PT / PRICE_SP row (which records they are: `Fetch.ProcessOmieDataMembers`) |
| Fetch.ProcessOmieDataMembers | script.py:50-64 | a record is produced exactly when some PRICE_PT/PRICE_SP row has a number in its H`h` cell, with DATETIME = DATE + h hours, COUNTRY `portugal` for PRICE_PT and `espanha` otherwise, and that number as PRICE |
| Fetch.ProcessOmieDataSize | script.py:52-64 | the reshaped frame has at most 24 records per kept row, and exactly 24 per kept row when every price is a number |
| Fetch.ColumnNoDup | script.py:53-63 | the block of one hour column from price rows with distinct (DATE, CONCEPT) has no duplicate keys, and lies at that hour of the day |
| Fetch.MeltFromNoDup | script.py:52-64 | the same holds for columns H`h`..H24 together: no duplicate keys, all at hour h or later, or at midnight |
| Fetch.ProcessOmieDataNoDup | script.py:50-64 | price rows with distinct (DATE, CONCEPT) reshape into a frame without duplicate (DATETIME, COUNTRY) keys |
| Fetch.MeltFromSortedOneDate | script.py:52-64 | the columns H`h`..H24 of rows sharing one DATE melt into DATETIME order, from DATE + h hours on |
| Fetch.ProcessOmieDataSortedOneDate | script.py:50-64 | a download whose price rows share one DATE reshapes into a frame sorted by DATETIME |
| Fetch.MeltOrderIsByHourColumn | script.py:53-58 | the melted frame is ordered by hour column, not by date: two dates give (d+1, H1) before (d, H2) |
| Fetch.FetchNewData | script.py:39-72 | a frame comes back exactly when the provider returned a non-empty table with the H1..H24 columns; a failure, an empty table or a table the reshape rejects gives nothing; the frame holds exactly the records the price rows produce |
| Merge.LastWith | script.py:86 | the row kept for a key is the last row with that key |
| Merge.DropDuplicatesKeepLast | script.py:86 | after `drop_duplicates(keep='last')` no two rows share a key, every key is still present, and each row is the last one with its key |
| Merge.InsertByTime | script.py:87 | inserting into a DATETIME-sorted frame keeps it sorted, adds exactly that row, and keeps keys unique when the row's key is new |
| Merge.SortByTime | script.py:87 | `sort_values('DATETIME')` gives a permutation of its input in non-decreasing DATETIME order, with the same keys, and keeps keys unique |
| Merge.LastWithAppend | script.py:85-86 | in `concat([existing, new])` the last row with a key is the last new row with it if any, else the last existing row with it |
| Merge.MergeRecords | script.py:84-90 | the merged frame has no duplicate keys, is sorted by DATETIME, has exactly the union of both key sets (one row per key), and holds for each key the last new row if the key was fetched, else the last stored row |
| Merge.LastWithOfUnique | script.py:86 | in a frame without duplicate keys each row is the last one with its key |
| Merge.IncomingWins | script.py:85-86 | overwrite on conflict: for a fetched key the merge holds the last fetched row, and no other row with that key |
| Merge.ExistingKept | script.py:85-86 | a stored row whose key was not fetched again survives the merge unchanged |
| Merge.DropDuplicatesOfUnique | script.py:86 | deduplicating a frame that has no duplicate keys changes nothing |
| Merge.MergeNothingNew | script.py:84-87 | merging an empty download into a stored frame without duplicates gives back the same rows, possibly reordered |
| Merge.CorrectionOverwrites | script.py:85-86 | stored (t, portugal, 50) and fetched (t, portugal, 55) merge into the single row (t, portugal, 55) |
| Records.NoDupKeysCount | script.py:86 | a frame without duplicate keys has as many rows as keys |
| Sync.Combine | script.py:81-92 | nothing fetched: the stored frame as it was; first run: the fetched frame as it is; otherwise a duplicate-free, sorted frame with the union of the keys, conflicts resolved for the fetched rows |
| Sync.UpdateData | script.py:75-92 | the first run downloads from 2023-01-01 to today; a run on stored data never loses a stored key; a stored but empty frame is returned as it was |
| Sync.GuardBeforeWrite | script.py:179-180 | a missing or empty frame is refused with NoDataAvailable; anything else passes unchanged |
| Sync.Run | script.py:175-182 | a run on a non-empty stored frame always produces a frame to write, and that frame keeps every stored key |
| Sync.FetchFailureKeepsExisting | script.py:79-82 | a failed or empty download leaves the stored frame exactly as it was |
| Sync.UpdateDataOnStoredFrame | script.py:77-92 | on stored data: a failed download keeps the frame as it was; otherwise the result has no duplicate keys, is sorted, and every row is a stored row or one the download produced |
| Sync.FirstRunWithoutDataFails | script.py:179-180 | first run with nothing downloaded ends with NoDataAvailable |
| Sync.FirstRunTwoMarkets | script.py:50-64 | first run, one date of PRICE_PT and PRICE_SP with all prices numeric: 48 rows to write, without duplicate keys and in DATETIME order |
| Sync.FirstRunIsNotSorted | script.py:92 | first run over two dates: the frame to write is not in DATETIME order |

## Left out

- Reading and writing the CSV file and the check that it exists (script.py:14-21, 182): file I/O. The loaded frame is the parameter `existing`, `None` when there is no file, and the write is the `Ok` value of `Sync.Run`.
- `OMIEMarginalPriceFileImporter` and `read_to_dataframe` (script.py:43-44): a foreign library. What it returns for a window is the parameter `provider`, giving a table of raw rows or `Unavailable` for any failure.
- `dt.date.today()` (script.py:26): the clock, passed in as `today`.
- Parsing inside the reshape (script.py:59-61): `pd.to_numeric` is modelled by its outcome, `Option<P>` per cell. The regex that turns `H7` into 7 is modelled by the column's index. `pd.to_datetime` is modelled by a DATE already given as a day number, so a DATE that fails to parse is not modelled.
- Fetch.FetchNewData: a table lacking one of H1..H24 makes `melt` raise, and the catch-all turns that into `None`. The model checks for the 24 hour cells row by row, because a pandas frame has the same columns in every row.
- Planner.NewDatesNeeded: a stored file with a header and no rows has no latest DATETIME (pandas gives NaT). The model plans no window in that case, so `Sync.UpdateData` returns the empty frame unchanged and the guard refuses it. What the provider would do with a NaT start is not visible.
- Merge.SortByTime: the model picks one order for rows with equal DATETIME. Its contracts promise only sortedness and permutation, because pandas' default sort is not stable.
- The `except Exception` blocks (script.py:70-72, 207-208) are modelled only as values: `None` from the fetch and `Err` from the run. Exceptions raised elsewhere are not modelled.
- `create_visualization` (script.py:95-172), the HTML file, the browser and `fig.show` (script.py:185-205), and every `print`: rendering and UI, with floating-point means that the pipeline does not use.
- The first run's frame is not deduplicated by the source (script.py:92). The model proves it duplicate-free only when the provider repeats no (DATE, CONCEPT) price row (`Fetch.ProcessOmieDataNoDup`); what the provider guarantees about that is not visible.
