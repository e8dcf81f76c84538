# Weather analysis core, modelled in Dafny

This project models the analysis layer of a small desktop weather tracker
(`core/analysis.py`). That layer works on a numeric table. Each row is one
observation. The columns, by position, are month, temperature, rainfall, an
optional humidity and an optional day of month. The layer computes:

- per-month averages;
- the hottest and the rainiest observation;
- raw trend series;
- month and day queries;
- the records of a CSV export.

Files and modules:

- `tables.dfy`, module `Tables`: the array facilities the code relies on,
  stated on values. These are the table itself (`Table(cols, rows)`, which
  keeps its width even with no rows), column slices, `astype(int)` as
  truncation toward zero (`Trunc`), the arithmetic mean, `np.unique`
  (`Unique`), `np.argmax` (`ArgMax`) and argsort-by-column (`SortOn`).
- `analysis.dfy`, module `Analysis`: the functions of `core/analysis.py`.
  `calculate_monthly_averages` and the record loop of `export_to_csv` are
  loops in the source. They are methods here, with loop invariants, proved
  against specification functions (`MonthMeans`, `RowRecord`, `ReadBack`).
  The averaging loop is its own method (`AveragesFor`), which
  `MonthlyAverages` calls on the result of `Unique`.
  The other operations are single vectorised expressions in the source.
  They are functions here, with lemmas.
- `scenarios.dfy`, module `Scenarios`: worked examples on the table
  (1, 10.0, 5.0), (1, 20.0, 15.0), (2, 0.0, 0.0), plus the empty-table and
  four-column boundary cases.

Reals stand in for the floats. Months are compared after truncation
when averaging (`months == m` on the `astype(int)` column). They are compared
exactly when filtering (`data[:, 0] == month`). The model keeps this
difference.

Three behaviours of the code that a reader might not expect are kept as written:

- A table with no rows gets no error from the monthly averages. The code
  loops over no months and returns empty lists, and so does
  `MonthlyAverages` (see `Scenarios.EmptyAverages`).
- The day ordering is not a stable sort. The code uses `np.argsort`'s
  default, which makes no promise about rows with equal days. Only
  sortedness and permutation are stated.
- The exporter always writes the four-name header, whatever the table
  width (`Analysis.HeaderFitsOnlyFourColumns`).

## Model

| member | source | states |
|---|---|---|
| `Tables.Column` | core/analysis.py:23-25 | the slice `data[:, j]`: one value per row, in row order, each the row's column-j value |
| `Tables.Mean` | core/analysis.py:24-27 | `np.mean` of a non-empty column: the mean times the number of values is their sum |
| `Tables.Trunc` | core/analysis.py:14 | the integer month keeps the value's integer part: for non-negative x, n <= x < n+1; for negative x, n-1 < x <= n |
| `Tables.SumBounds` | core/analysis.py:24-25 | if every value lies in [lo, hi], the sum lies in [lo·n, hi·n] |
| `Tables.MeanBounds` | core/analysis.py:24-25 | the mean of a non-empty column lies between any lower and upper bound of its values |
| `Tables.InsertSorted` | core/analysis.py:20 | inserting into a strictly increasing sequence keeps it strictly increasing and adds exactly that value |
| `Tables.Unique` | core/analysis.py:20 | the distinct months are strictly ascending (so duplicate-free); every one is a value of the column, and every value of the column is among them |
| `Tables.UniqueMembers` | core/analysis.py:20 | a value is among the distinct months exactly when it occurs in the column |
| `Tables.ArgMax` | core/analysis.py:33 | the index is in range, no value exceeds the value there, and every earlier value is strictly smaller (first occurrence) |
| `Tables.InsertOn` | core/analysis.py:71 | inserting a row into rows sorted on column j keeps them sorted and adds exactly that row to the multiset |
| `Tables.SortOn` | core/analysis.py:71 | the reordered rows are sorted non-decreasingly on column j and are a permutation of the input |
| `Analysis.MonthKeys` | core/analysis.py:14 | `data[:, 0].astype(int)`: one key per row, in row order, each the row's month truncated toward zero |
| `Analysis.MonthRows` | core/analysis.py:23 | every row of the month mask is a table row whose truncated month is m |
| `Analysis.MonthRowsCount` | core/analysis.py:23 | the mask holds each row whose truncated month is m exactly as many times as the table does, and no other row |
| `Analysis.MonthRowsNonEmpty` | core/analysis.py:22-23 | a month's mask is non-empty exactly when the month occurs in the truncated month column, so every mean taken is defined |
| `Analysis.MonthMean` | core/analysis.py:23-27 | the mean of column j over the rows of month m's mask, which must be non-empty |
| `Analysis.MonthMeansAligned` | core/analysis.py:22-27 | the list of per-month means has one entry per listed month, and entry i is the mean for month i |
| `Analysis.AveragesFor` | core/analysis.py:17-29 | the temperature and rainfall lists are the per-month means of the listed months, in order; humidity is None exactly when the table has at most 3 columns, and otherwise is the per-month list of column-3 means |
| `Analysis.MonthlyAverages` | core/analysis.py:13-29 | months are strictly ascending and are exactly the truncated month values, each with at least one row; the temperature and rainfall lists align with them and hold each month's means; humidity is None exactly when the table has at most 3 columns, and otherwise is the aligned list of column-3 means |
| `Analysis.MonthMeanWithinColumn` | core/analysis.py:23-27 | a month's mean of a column lies between any bounds of that column over the whole table |
| `Analysis.PeakOf` | core/analysis.py:32-39 | the value is at least every row's value in the column, and comes from the first row achieving the maximum, paired with that row's truncated month |
| `Analysis.HottestMonth` | core/analysis.py:32-34 | no row is hotter than the result; it is the first hottest row's truncated month and temperature |
| `Analysis.RainiestMonth` | core/analysis.py:37-39 | no row is rainier than the result; it is the first rainiest row's truncated month and rainfall |
| `Analysis.FirstPeakUnique` | core/analysis.py:33 | only one row can be the first maximum, so hottest and rainiest are determined |
| `Analysis.MonthMeanAtMostPeak` | core/analysis.py:22-39 | no month's mean temperature (or rainfall) exceeds the hottest (or rainiest) observation |
| `Analysis.MonthlyTrends` | core/analysis.py:42-46 | three series, one entry per row in row order: truncated month, temperature, rainfall |
| `Analysis.MonthKeyCount` | core/analysis.py:43 | a month occurs in the truncated month column as often as its mask has rows |
| `Analysis.TrendPointsPerMonth` | core/analysis.py:42-46 | duplicate months are kept: a month appears in the trend series once per row averaged for it |
| `Analysis.MonthlyRainfall` | core/analysis.py:49-50 | as written: one entry per row, each the row's temperature (element [1] of the trends) |
| `Analysis.MonthlyRainfallIsTemperature` | core/analysis.py:50 | on the one-row table (1, 10.0, 5.0) the "rainfall" series is [10.0], not the rainfall column [5.0] |
| `Analysis.MonthlyRainfallCorrected` | core/analysis.py:49-50 | corrected: one entry per row, each the row's rainfall |
| `Analysis.MonthFilter` | core/analysis.py:65 | every row of the mask is a table row whose month value equals `month` exactly |
| `Analysis.MonthFilterCount` | core/analysis.py:65 | the mask holds each row whose month value equals `month` exactly as many times as the table does, and no other row |
| `Analysis.FilterByMonth` | core/analysis.py:64-65 | same width, still rectangular; every result row is a table row with that month, and every table row with that month is in the result |
| `Analysis.MonthFilterConcat` | core/analysis.py:65 | filtering a concatenation is the concatenation of the filtered parts, so relative order is kept |
| `Analysis.MonthFilterIsSubsequence` | core/analysis.py:65 | the filtered rows are an order-preserving subsequence of the table |
| `Analysis.MonthFilterIdempotent` | core/analysis.py:65 | filtering the filtered rows by the same month changes nothing |
| `Analysis.FilterByMonthIdempotent` | core/analysis.py:64-65 | applying filter_by_month twice with the same month equals applying it once |
| `Analysis.FilterByMonthEmpty` | core/analysis.py:64-65 | the result is empty (not an error) exactly when no row has that month |
| `Analysis.ResolveColumn` | core/analysis.py:70-71 | a column index names a column exactly when -width <= index < width; negative indices count from the last column |
| `Analysis.FilterByDay` | core/analysis.py:68-73 | the explicit bounds error occurs exactly when width <= day index, and some error exactly when the index names no column, both from the width alone; otherwise the rows are a permutation of filter_by_month's rows, sorted non-decreasingly on the day column, with the width unchanged |
| `Analysis.FilterByDayRowsOfMonth` | core/analysis.py:68-71 | when the day index names a column (-width <= index < width), the day query succeeds and every row it returns has the queried month |
| `Analysis.RowRecord` | core/analysis.py:58-59 | a row's record has one numeric field per column, in column order |
| `Analysis.RowRecordRoundTrip` | core/analysis.py:58-59 | a row's record reads back as that row |
| `Analysis.ExportRecords` | core/analysis.py:57-59 | len(data)+1 records: the fixed four-name header, then row i as record i+1 with fields in column order; dropping the header and reading the rest gives back exactly the rows |
| `Analysis.HeaderFitsOnlyFourColumns` | core/analysis.py:57 | the header's width matches a row's only when the table has exactly four columns |
| `Scenarios.SampleMonthKeys` | core/analysis.py:14 | on the sample table the truncated month column is [1, 1, 2] |
| `Scenarios.SampleMonthOneMeans` | core/analysis.py:22-25 | on the sample table month 1 averages 15.0 °C and 10.0 mm |
| `Scenarios.SampleMonthTwoMeans` | core/analysis.py:22-25 | on the sample table month 2 averages 0.0 °C and 0.0 mm |
| `Scenarios.SampleAverages` | core/analysis.py:13-29 | on the sample table the averages are months [1, 2], temperatures [15.0, 0.0], rainfall [10.0, 0.0], humidity None |
| `Scenarios.SampleHottest` | core/analysis.py:32-34 | on the sample table the hottest observation is (1, 20.0) |
| `Scenarios.SampleRainiest` | core/analysis.py:37-39 | on the sample table the rainiest observation is (1, 15.0) |
| `Scenarios.SampleMonthFilter` | core/analysis.py:64-65 | on the sample table month 2 selects only (2, 0.0, 0.0) and month 3 selects nothing |
| `Scenarios.FourColumnDayQueryFails` | core/analysis.py:70-73 | on any four-column table the default day query (index 4) fails with the bounds error, whatever the month |
| `Scenarios.EmptyAverages` | core/analysis.py:19-29 | a table with no rows yields no months and, with a humidity column, an empty humidity list |

## Left out

- `load_weather_data` (core/analysis.py:5-10) is not part of this model. It
  wraps `np.loadtxt` file parsing, which cannot be seen, and re-raises its
  errors as `ValueError`. `Analysis.ReadBack` reads the exported records
  back: it skips the header and reads the rest as numbers. It is not a model
  of `np.loadtxt`.
- The file opening and writing in `export_to_csv`, the CSV writer's quoting
  and number-to-text formatting, and the `IOError` wrapping are not modelled.
  Only the sequence of records passed to the writer is modelled.
- Float rounding in `np.mean` and in float comparisons is not modelled. The
  model uses exact real arithmetic.
- NaN and the infinities are not modelled: reals have neither. A NaN month,
  temperature or rainfall would change every comparison, mean and argmax.
- `astype(int)` converts to 64-bit integers, so a month beyond the int64
  range would not truncate to its integer part. `Trunc` returns an unbounded
  integer.
- A one-row file loads as a one-dimensional array. The model has no such
  case: a `Table` is always two-dimensional.
- Analysis.MonthlyAverages: requires at least three columns (`WeatherTable`).
  On a narrower table, numpy raises `IndexError` on `data[:, 2]`; that
  library error is not modelled.
- Analysis.MonthlyTrends: requires at least three columns, for the same reason.
- Analysis.HottestMonth: requires a non-empty table with at least two
  columns (month and temperature), the only ones it reads. `np.argmax`
  raises on an empty column; that error is not modelled.
- Analysis.RainiestMonth: requires a non-empty table with at least three
  columns, as above.
- Analysis.FilterByMonth: requires at least one column, which `data[:, 0]`
  needs.
- Analysis.FilterByDay: states sortedness and permutation only. It says
  nothing about the order of rows with equal day values, because the default
  `np.argsort` is not stable. The two index errors are kept apart: the
  explicit check, and numpy's own error for a negative index before the
  first column.
- The desktop window (`ui/tracker_ui.py`) is not part of this model. It is
  widgets, dialogs and plotting, with no logic of its own.

## Findings

| source | as written | input that shows it | evidently intended | confidence | as-written member | corrected member |
|---|---|---|---|---|---|---|
| core/analysis.py:50 | `calculate_monthly_rainfall` returns element [1] of the trends triple, the temperature series | the one-row table (1, 10.0, 5.0): the result is [10.0], but the rainfall is [5.0] | return element [2], the rainfall series | not executed; high, given the function's name | `Analysis.MonthlyRainfall` (counterexample: `Analysis.MonthlyRainfallIsTemperature`) | `Analysis.MonthlyRainfallCorrected` |
