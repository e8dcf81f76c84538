/**
 * The analysis layer of the weather tracker: per-month averages, the
 * hottest and rainiest observations, raw trend series, month and day
 * queries, and the record layout of the CSV export.  Columns are fixed by
 * position: month, temperature, rainfall, then an optional humidity and an
 * optional day of month.
 */
module Analysis {
  import opened Tables

  const MonthCol: nat := 0
  const TempCol: nat := 1
  const RainCol: nat := 2
  const HumidityCol: nat := 3
  const DefaultDayCol: int := 4

  /** The shape every analysis relies on: rectangular, with month, temperature and rainfall columns. */
  predicate WeatherTable(t: Table) {
    Rectangular(t) && t.cols > RainCol
  }

  // ---------------------------------------------------------------------
  // Month keys and month groups

  /** `data[:, 0].astype(int)`: every row's month, truncated, in row order. */
  function MonthKeys(rows: seq<seq<real>>): (keys: seq<int>)
    requires HasColumn(rows, MonthCol)
    ensures |keys| == |rows|
    ensures forall i :: 0 <= i < |rows| ==> keys[i] == Trunc(rows[i][MonthCol])
  {
    seq(|rows|, i requires 0 <= i < |rows| => Trunc(rows[i][MonthCol]))
  }

  /** The boolean mask `data[months == m]`: the rows whose truncated month is `m`, in row order. */
  function MonthRows(rows: seq<seq<real>>, m: int): (g: seq<seq<real>>)
    requires HasColumn(rows, MonthCol)
    ensures forall k :: 0 <= k < |g| ==> g[k] in rows && Trunc(g[k][MonthCol]) == m
  {
    if rows == [] then []
    else
      var rest := MonthRows(rows[1..], m);
      if Trunc(rows[0][MonthCol]) == m then [rows[0]] + rest else rest
  }

  /** Month `m`'s rows are all of the table's rows of that month, with their multiplicities. */
  lemma {:induction false} MonthRowsCount(rows: seq<seq<real>>, m: int)
    requires HasColumn(rows, MonthCol)
    ensures forall row {:trigger multiset(MonthRows(rows, m))[row]} ::
      multiset(MonthRows(rows, m))[row] ==
        if |row| > MonthCol && Trunc(row[MonthCol]) == m then multiset(rows)[row] else 0
  {
    if rows != [] {
      assert rows == [rows[0]] + rows[1..];
      MonthRowsCount(rows[1..], m);
    }
  }

  /** Every month key has at least one row behind it, so its mean is defined. */
  lemma MonthRowsNonEmpty(rows: seq<seq<real>>, m: int)
    requires HasColumn(rows, MonthCol)
    ensures |MonthRows(rows, m)| > 0 <==> m in MonthKeys(rows)
  {
    var g := MonthRows(rows, m);
    MonthRowsCount(rows, m);
    if m in MonthKeys(rows) {
      var i :| 0 <= i < |rows| && MonthKeys(rows)[i] == m;
      assert rows[i] in multiset(rows);
      assert multiset(g)[rows[i]] > 0;
    }
    if |g| > 0 {
      var i :| 0 <= i < |rows| && rows[i] == g[0];
      assert MonthKeys(rows)[i] == m;
    }
  }

  /** `np.mean(month_data[:, j])` for the rows of month `m`. */
  function MonthMean(t: Table, m: int, j: nat): (r: real)
    requires WeatherTable(t) && j < t.cols && |MonthRows(t.rows, m)| > 0
    ensures r == Mean(Column(MonthRows(t.rows, m), j))
  {
    Mean(Column(MonthRows(t.rows, m), j))
  }

  /** The means of column `j` for a list of months, in the order listed. */
  function MonthMeans(t: Table, ms: seq<int>, j: nat): seq<real>
    requires WeatherTable(t) && j < t.cols
    requires forall i :: 0 <= i < |ms| ==> |MonthRows(t.rows, ms[i])| > 0
  {
    if ms == [] then [] else MonthMeans(t, ms[..|ms| - 1], j) + [MonthMean(t, ms[|ms| - 1], j)]
  }

  /** One mean per listed month, aligned with the list. */
  lemma {:induction false} MonthMeansAligned(t: Table, ms: seq<int>, j: nat)
    requires WeatherTable(t) && j < t.cols
    requires forall i :: 0 <= i < |ms| ==> |MonthRows(t.rows, ms[i])| > 0
    ensures |MonthMeans(t, ms, j)| == |ms|
    ensures forall i :: 0 <= i < |ms| ==> MonthMeans(t, ms, j)[i] == MonthMean(t, ms[i], j)
  {
    if ms != [] {
      var init, last := ms[..|ms| - 1], ms[|ms| - 1];
      MonthMeansAligned(t, init, j);
      var front := MonthMeans(t, init, j);
      var r := MonthMeans(t, ms, j);
      assert r == front + [MonthMean(t, last, j)];
      forall i | 0 <= i < |ms| ensures r[i] == MonthMean(t, ms[i], j) {
        if i < |init| {
          assert r[i] == front[i] && ms[i] == init[i];
        } else {
          assert r[i] == MonthMean(t, last, j);
        }
      }
    }
  }

  // ---------------------------------------------------------------------
  // calculate_monthly_averages

  /**
   * The loop of `calculate_monthly_averages`: for each listed month, in order,
   * the mean temperature and rainfall of its rows, and the mean humidity when
   * the table has a humidity column.
   */
  method AveragesFor(t: Table, months: seq<int>)
    returns (avgTemps: seq<real>, avgRains: seq<real>, avgHumids: Option<seq<real>>)
    requires WeatherTable(t)
    requires forall i :: 0 <= i < |months| ==> |MonthRows(t.rows, months[i])| > 0
    ensures avgTemps == MonthMeans(t, months, TempCol) && avgRains == MonthMeans(t, months, RainCol)
    ensures avgHumids.None? <==> t.cols <= HumidityCol
    ensures avgHumids.Some? ==> avgHumids.value == MonthMeans(t, months, HumidityCol)
  {
    var hasHumidity := t.cols > HumidityCol;
    var humids: seq<real> := [];
    avgTemps, avgRains := [], [];
    for n := 0 to |months|
      invariant avgTemps == MonthMeans(t, months[..n], TempCol)
      invariant avgRains == MonthMeans(t, months[..n], RainCol)
      invariant hasHumidity ==> humids == MonthMeans(t, months[..n], HumidityCol)
    {
      var m := months[n];
      assert months[..n + 1][..n] == months[..n];
      avgTemps := avgTemps + [MonthMean(t, m, TempCol)];
      avgRains := avgRains + [MonthMean(t, m, RainCol)];
      if hasHumidity {
        humids := humids + [MonthMean(t, m, HumidityCol)];
      }
    }
    avgHumids := if hasHumidity then Some(humids) else None;
    assert months[..|months|] == months;
  }

  /**
   * `calculate_monthly_averages`: the distinct truncated months in ascending
   * order, each with its mean temperature, rainfall and (when present) humidity.
   */
  method MonthlyAverages(t: Table)
    returns (months: seq<int>, avgTemps: seq<real>, avgRains: seq<real>, avgHumids: Option<seq<real>>)
    requires WeatherTable(t)
    ensures StrictlyIncreasing(months)
    ensures forall m :: m in months <==> m in MonthKeys(t.rows)
    ensures forall i :: 0 <= i < |months| ==> |MonthRows(t.rows, months[i])| > 0
    ensures |avgTemps| == |months| && |avgRains| == |months|
    ensures forall i :: 0 <= i < |months| ==>
      avgTemps[i] == MonthMean(t, months[i], TempCol) && avgRains[i] == MonthMean(t, months[i], RainCol)
    ensures avgHumids.None? <==> t.cols <= HumidityCol
    ensures avgHumids.Some? ==>
      |avgHumids.value| == |months| &&
      forall i :: 0 <= i < |months| ==> avgHumids.value[i] == MonthMean(t, months[i], HumidityCol)
  {
    var keys := MonthKeys(t.rows);
    months := Unique(keys);
    UniqueMembers(keys);
    forall i | 0 <= i < |months| ensures |MonthRows(t.rows, months[i])| > 0 {
      MonthRowsNonEmpty(t.rows, months[i]);
    }
    avgTemps, avgRains, avgHumids := AveragesFor(t, months);
    MonthMeansAligned(t, months, TempCol);
    MonthMeansAligned(t, months, RainCol);
    if avgHumids.Some? {
      MonthMeansAligned(t, months, HumidityCol);
    }
  }

  /** A month's mean of a column lies within the smallest and largest value of that column. */
  lemma MonthMeanWithinColumn(t: Table, m: int, j: nat, lo: real, hi: real)
    requires WeatherTable(t) && j < t.cols && |MonthRows(t.rows, m)| > 0
    requires forall i :: 0 <= i < |t.rows| ==> lo <= t.rows[i][j] <= hi
    ensures lo <= MonthMean(t, m, j) <= hi
  {
    var g := MonthRows(t.rows, m);
    forall k | 0 <= k < |g| ensures lo <= Column(g, j)[k] <= hi {
      var i :| 0 <= i < |t.rows| && t.rows[i] == g[k];
    }
    MeanBounds(Column(g, j), lo, hi);
  }

  // ---------------------------------------------------------------------
  // get_hottest_month and get_rainiest_month

  /** A month and the column value found on one row. */
  datatype Extremum = Extremum(month: int, value: real)

  /** Row `k` holds the largest value of column `j`, and no earlier row reaches it. */
  predicate IsFirstPeak(rows: seq<seq<real>>, j: nat, k: nat)
    requires HasColumn(rows, j)
  {
    k < |rows| &&
    (forall i :: 0 <= i < |rows| ==> rows[i][j] <= rows[k][j]) &&
    (forall i :: 0 <= i < k ==> rows[i][j] < rows[k][j])
  }

  /** `np.argmax` over column `j`, reported as that row's truncated month and value. */
  function PeakOf(t: Table, j: nat): (e: Extremum)
    requires Rectangular(t) && MonthCol < j < t.cols && |t.rows| > 0
    ensures forall i :: 0 <= i < |t.rows| ==> t.rows[i][j] <= e.value
    ensures exists k: nat ::
      IsFirstPeak(t.rows, j, k) && e == Extremum(Trunc(t.rows[k][MonthCol]), t.rows[k][j])
  {
    var column := Column(t.rows, j);
    var k := ArgMax(column);
    assert forall i :: 0 <= i < |t.rows| ==> column[i] == t.rows[i][j];
    assert IsFirstPeak(t.rows, j, k);
    Extremum(Trunc(t.rows[k][MonthCol]), t.rows[k][j])
  }

  /** The first row with the highest temperature: its month and temperature. */
  function HottestMonth(t: Table): (e: Extremum)
    requires Rectangular(t) && t.cols > TempCol && |t.rows| > 0
    ensures forall i :: 0 <= i < |t.rows| ==> t.rows[i][TempCol] <= e.value
    ensures exists k: nat ::
      IsFirstPeak(t.rows, TempCol, k) && e == Extremum(Trunc(t.rows[k][MonthCol]), t.rows[k][TempCol])
  {
    PeakOf(t, TempCol)
  }

  /** The first row with the highest rainfall: its month and rainfall. */
  function RainiestMonth(t: Table): (e: Extremum)
    requires WeatherTable(t) && |t.rows| > 0
    ensures forall i :: 0 <= i < |t.rows| ==> t.rows[i][RainCol] <= e.value
    ensures exists k: nat ::
      IsFirstPeak(t.rows, RainCol, k) && e == Extremum(Trunc(t.rows[k][MonthCol]), t.rows[k][RainCol])
  {
    PeakOf(t, RainCol)
  }

  /** Only one row can be the first peak of a column, so the extremum is determined. */
  lemma FirstPeakUnique(rows: seq<seq<real>>, j: nat, k1: nat, k2: nat)
    requires HasColumn(rows, j) && IsFirstPeak(rows, j, k1) && IsFirstPeak(rows, j, k2)
    ensures k1 == k2
  {
    var v1, v2 := rows[k1][j], rows[k2][j];
    assert v1 <= v2 && v2 <= v1;
    assert k1 < k2 ==> v1 < v2;
    assert k2 < k1 ==> v2 < v1;
  }

  /** No month's mean temperature exceeds the hottest observation, and none of its mean rainfall the rainiest. */
  lemma MonthMeanAtMostPeak(t: Table, m: int, j: nat)
    requires WeatherTable(t) && MonthCol < j < t.cols && |MonthRows(t.rows, m)| > 0
    ensures MonthMean(t, m, j) <= PeakOf(t, j).value
  {
    RectangularHasColumn(t, j);
    var column := Column(t.rows, j);
    assert forall i :: 0 <= i < |t.rows| ==> column[i] == t.rows[i][j];
    MonthMeanWithinColumn(t, m, j, Least(column), PeakOf(t, j).value);
  }

  // ---------------------------------------------------------------------
  // get_monthly_trends and calculate_monthly_rainfall

  /** Raw series, one entry per row in row order. */
  datatype Trends = Trends(months: seq<int>, temps: seq<real>, rains: seq<real>)

  function MonthlyTrends(t: Table): (r: Trends)
    requires WeatherTable(t)
    ensures |r.months| == |t.rows| && |r.temps| == |t.rows| && |r.rains| == |t.rows|
    ensures forall i :: 0 <= i < |t.rows| ==>
      r.months[i] == Trunc(t.rows[i][MonthCol]) && r.temps[i] == t.rows[i][TempCol] && r.rains[i] == t.rows[i][RainCol]
  {
    Trends(MonthKeys(t.rows), Column(t.rows, TempCol), Column(t.rows, RainCol))
  }

  lemma {:induction false} MonthKeyCount(rows: seq<seq<real>>, m: int)
    requires HasColumn(rows, MonthCol)
    ensures multiset(MonthKeys(rows))[m] == |MonthRows(rows, m)|
  {
    if rows != [] {
      MonthKeyCount(rows[1..], m);
      assert MonthKeys(rows) == [Trunc(rows[0][MonthCol])] + MonthKeys(rows[1..]);
    }
  }

  /** A month occurs in the trend series once per row averaged for it: duplicates are kept. */
  lemma TrendPointsPerMonth(t: Table, m: int)
    requires WeatherTable(t)
    ensures multiset(MonthlyTrends(t).months)[m] == |MonthRows(t.rows, m)|
  {
    MonthKeyCount(t.rows, m);
  }

  /** Element [1] of the trends triple, as the program returns it: the temperature series. */
  function MonthlyRainfall(t: Table): (r: seq<real>)
    requires WeatherTable(t)
    ensures |r| == |t.rows| && forall i :: 0 <= i < |t.rows| ==> r[i] == t.rows[i][TempCol]
  {
    MonthlyTrends(t).temps
  }

  /** A one-row table on which the rainfall series is not the rainfall column. */
  lemma MonthlyRainfallIsTemperature()
    ensures var t := Table(3, [[1.0, 10.0, 5.0]]);
      WeatherTable(t) && MonthlyRainfall(t) == [10.0] && MonthlyRainfall(t) != Column(t.rows, RainCol)
  {
    var t := Table(3, [[1.0, 10.0, 5.0]]);
    assert MonthlyRainfall(t)[0] == 10.0;
    assert Column(t.rows, RainCol)[0] == 5.0;
  }

  /** Element [2] of the trends triple: the rainfall series the name promises. */
  function MonthlyRainfallCorrected(t: Table): (r: seq<real>)
    requires WeatherTable(t)
    ensures |r| == |t.rows| && forall i :: 0 <= i < |t.rows| ==> r[i] == t.rows[i][RainCol]
  {
    MonthlyTrends(t).rains
  }

  // ---------------------------------------------------------------------
  // filter_by_month

  /** The mask `data[data[:, 0] == month]`: exact comparison, no truncation. */
  function MonthFilter(rows: seq<seq<real>>, month: real): (r: seq<seq<real>>)
    requires HasColumn(rows, MonthCol)
    ensures forall k :: 0 <= k < |r| ==> r[k] in rows && r[k][MonthCol] == month
  {
    if rows == [] then []
    else
      var rest := MonthFilter(rows[1..], month);
      if rows[0][MonthCol] == month then [rows[0]] + rest else rest
  }

  /** The filtered rows are all of the table's rows of that month, with their multiplicities. */
  lemma {:induction false} MonthFilterCount(rows: seq<seq<real>>, month: real)
    requires HasColumn(rows, MonthCol)
    ensures forall row {:trigger multiset(MonthFilter(rows, month))[row]} ::
      multiset(MonthFilter(rows, month))[row] ==
        if |row| > MonthCol && row[MonthCol] == month then multiset(rows)[row] else 0
  {
    if rows != [] {
      assert rows == [rows[0]] + rows[1..];
      MonthFilterCount(rows[1..], month);
    }
  }

  function FilterByMonth(t: Table, month: real): (r: Table)
    requires Rectangular(t) && t.cols > MonthCol
    ensures Rectangular(r) && r.cols == t.cols
    ensures forall k :: 0 <= k < |r.rows| ==> r.rows[k] in t.rows && r.rows[k][MonthCol] == month
    ensures forall i :: 0 <= i < |t.rows| && t.rows[i][MonthCol] == month ==> t.rows[i] in r.rows
  {
    var r := MonthFilter(t.rows, month);
    MonthFilterCount(t.rows, month);
    assert forall i :: 0 <= i < |t.rows| ==> t.rows[i] in multiset(t.rows);
    assert forall i :: 0 <= i < |t.rows| && t.rows[i][MonthCol] == month ==> t.rows[i] in multiset(r);
    Table(t.cols, r)
  }

  /** Filtering a concatenation filters each part in place: relative order is kept. */
  lemma {:induction false} MonthFilterConcat(a: seq<seq<real>>, b: seq<seq<real>>, month: real)
    requires HasColumn(a, MonthCol) && HasColumn(b, MonthCol)
    ensures MonthFilter(a + b, month) == MonthFilter(a, month) + MonthFilter(b, month)
  {
    if a == [] {
      assert a + b == b;
    } else {
      assert (a + b)[0] == a[0];
      assert (a + b)[1..] == a[1..] + b;
      MonthFilterConcat(a[1..], b, month);
    }
  }

  /** `s` is `t` with some elements dropped and the rest kept in order. */
  ghost predicate IsSubsequence(s: seq<seq<real>>, t: seq<seq<real>>)
    decreases |t|
  {
    if s == [] then true
    else if t == [] then false
    else (s[0] == t[0] && IsSubsequence(s[1..], t[1..])) || IsSubsequence(s, t[1..])
  }

  /** The filtered rows keep their relative order. */
  lemma {:induction false} MonthFilterIsSubsequence(rows: seq<seq<real>>, month: real)
    requires HasColumn(rows, MonthCol)
    ensures IsSubsequence(MonthFilter(rows, month), rows)
  {
    if rows != [] {
      MonthFilterIsSubsequence(rows[1..], month);
      var r := MonthFilter(rows, month);
      if rows[0][MonthCol] == month {
        assert r[1..] == MonthFilter(rows[1..], month);
      }
    }
  }

  /** Filtering twice by the same month changes nothing. */
  lemma {:induction false} MonthFilterIdempotent(rows: seq<seq<real>>, month: real)
    requires HasColumn(rows, MonthCol)
    ensures MonthFilter(MonthFilter(rows, month), month) == MonthFilter(rows, month)
  {
    if rows != [] {
      MonthFilterIdempotent(rows[1..], month);
    }
  }

  lemma FilterByMonthIdempotent(t: Table, month: real)
    requires Rectangular(t) && t.cols > MonthCol
    ensures FilterByMonth(FilterByMonth(t, month), month) == FilterByMonth(t, month)
  {
    MonthFilterIdempotent(t.rows, month);
  }

  /** No match gives an empty table, not an error. */
  lemma FilterByMonthEmpty(t: Table, month: real)
    requires Rectangular(t) && t.cols > MonthCol
    ensures FilterByMonth(t, month).rows == [] <==> forall i :: 0 <= i < |t.rows| ==> t.rows[i][MonthCol] != month
  {
    var r := FilterByMonth(t, month).rows;
    if r == [] {
      forall i | 0 <= i < |t.rows| ensures t.rows[i][MonthCol] != month {
        assert t.rows[i] in multiset(t.rows);
      }
    } else {
      var i :| 0 <= i < |t.rows| && t.rows[i] == r[0];
    }
  }

  // ---------------------------------------------------------------------
  // filter_by_day

  /** The two ways indexing the day column can fail. */
  datatype IndexFault =
    | DayColumnOutOfBounds  // the explicit check: the table is not wider than the index
    | NegativeIndexOutOfBounds  // a negative index reaching before the first column

  datatype Result<T> = Ok(value: T) | Err(fault: IndexFault)

  /** A column index, negative ones counting from the last column, resolved against a width. */
  function ResolveColumn(cols: nat, idx: int): (r: Option<nat>)
    ensures r.Some? <==> -(cols as int) <= idx < cols
    ensures r.Some? ==> r.value < cols && (r.value as int == idx || r.value as int == cols + idx)
  {
    if 0 <= idx < cols then Some(idx)
    else if -(cols as int) <= idx < 0 then Some(cols + idx)
    else None
  }

  /**
   * The rows of `month`, reordered by ascending day column.  Fails exactly
   * when the day index does not name a column; the failure depends on the
   * width alone, not on which rows matched.
   */
  function FilterByDay(t: Table, month: real, day: int := DefaultDayCol): (r: Result<Table>)
    requires Rectangular(t) && t.cols > MonthCol
    ensures r == Err(DayColumnOutOfBounds) <==> t.cols as int <= day
    ensures r.Err? <==> !(-(t.cols as int) <= day < t.cols)
    ensures r.Ok? ==>
      var j := ResolveColumn(t.cols, day).value;
      Rectangular(r.value) && r.value.cols == t.cols &&
      SortedOn(r.value.rows, j) &&
      multiset(r.value.rows) == multiset(FilterByMonth(t, month).rows)
  {
    var filtered := FilterByMonth(t, month);
    if filtered.cols as int > day then
      match ResolveColumn(filtered.cols, day)
      case None => Err(NegativeIndexOutOfBounds)
      case Some(j) =>
        RectangularHasColumn(filtered, j);
        Ok(Table(filtered.cols, SortOn(filtered.rows, j)))
    else
      Err(DayColumnOutOfBounds)
  }

  /** Every row of a day query is an observation of that month. */
  lemma FilterByDayRowsOfMonth(t: Table, month: real, day: int)
    requires Rectangular(t) && t.cols > MonthCol
    requires -(t.cols as int) <= day < t.cols as int
    ensures FilterByDay(t, month, day).Ok?
    ensures forall k :: 0 <= k < |FilterByDay(t, month, day).value.rows| ==>
      FilterByDay(t, month, day).value.rows[k][MonthCol] == month
  {
    var r := FilterByDay(t, month, day).value.rows;
    var f := FilterByMonth(t, month).rows;
    forall k | 0 <= k < |r| ensures r[k][MonthCol] == month {
      assert r[k] in multiset(r);
      assert r[k] in f;
    }
  }

  // ---------------------------------------------------------------------
  // export_to_csv: the records handed to the CSV writer

  /** One CSV field: a header name or a stored number. */
  datatype Field = Name(text: string) | Number(value: real)

  const Header: seq<Field> := [Name("Month"), Name("Temperature"), Name("Rainfall"), Name("Humidity")]

  /** A row written with its values in column order. */
  function RowRecord(row: seq<real>): (rec: seq<Field>)
    ensures |rec| == |row|
    ensures forall k :: 0 <= k < |row| ==> rec[k] == Number(row[k])
  {
    seq(|row|, k requires 0 <= k < |row| => Number(row[k]))
  }

  /** Reads one record back as numbers; a name field does not read as a number. */
  function ParseRecord(rec: seq<Field>): Option<seq<real>> {
    if forall k :: 0 <= k < |rec| ==> rec[k].Number? then
      Some(seq(|rec|, k requires 0 <= k < |rec| => rec[k].value))
    else None
  }

  function ParseRecords(recs: seq<seq<Field>>): Option<seq<seq<real>>> {
    if recs == [] then Some([])
    else
      match (ParseRecords(recs[..|recs| - 1]), ParseRecord(recs[|recs| - 1]))
      case (Some(init), Some(last)) => Some(init + [last])
      case _ => None
  }

  /** A row's record reads back as that row. */
  lemma RowRecordRoundTrip(row: seq<real>)
    ensures ParseRecord(RowRecord(row)) == Some(row)
  {
    var rec := RowRecord(row);
    assert forall k :: 0 <= k < |rec| ==> rec[k].Number? && rec[k].value == row[k];
    var back := seq(|rec|, k requires 0 <= k < |rec| => rec[k].value);
    assert back == row;
  }

  /** Reading an export back: the first record is skipped as a header, the rest are numbers. */
  function ReadBack(records: seq<seq<Field>>): Option<seq<seq<real>>> {
    if records == [] then None else ParseRecords(records[1..])
  }

  /**
   * The records written for a table: the fixed header, then one record per
   * row with its values in column order.  Reading them back gives the rows.
   */
  method ExportRecords(t: Table) returns (records: seq<seq<Field>>)
    ensures |records| == |t.rows| + 1
    ensures records[0] == Header
    ensures forall i :: 0 <= i < |t.rows| ==> records[i + 1] == RowRecord(t.rows[i])
    ensures ReadBack(records) == Some(t.rows)
  {
    records := [Header];
    for i := 0 to |t.rows|
      invariant |records| == i + 1 && records[0] == Header
      invariant forall k :: 0 <= k < i ==> records[k + 1] == RowRecord(t.rows[k])
      invariant ParseRecords(records[1..]) == Some(t.rows[..i])
    {
      var rec := RowRecord(t.rows[i]);
      RowRecordRoundTrip(t.rows[i]);
      assert (records + [rec])[1..] == records[1..] + [rec];
      records := records + [rec];
      assert t.rows[..i + 1] == t.rows[..i] + [t.rows[i]];
    }
    assert t.rows[..|t.rows|] == t.rows;
  }

  /** The fixed header matches a row's width only for a four-column table. */
  lemma HeaderFitsOnlyFourColumns(t: Table)
    requires Rectangular(t) && |t.rows| > 0
    ensures |Header| == |RowRecord(t.rows[0])| <==> t.cols == 4
  {
  }
}
