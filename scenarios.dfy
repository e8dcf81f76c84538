/**
 * Worked examples on a three-row, three-column table:
 * (1, 10.0, 5.0), (1, 20.0, 15.0), (2, 0.0, 0.0).
 */
module Scenarios {
  import opened Tables
  import opened Analysis

  const Sample: Table := Table(3, [[1.0, 10.0, 5.0], [1.0, 20.0, 15.0], [2.0, 0.0, 0.0]])

  /** A strictly increasing run of integers spans at least its length minus one. */
  lemma {:induction false} IncreasingSpread(s: seq<int>)
    requires StrictlyIncreasing(s) && |s| > 0
    ensures s[0] + |s| - 1 <= s[|s| - 1]
  {
    if |s| > 1 {
      IncreasingSpread(s[..|s| - 1]);
      assert s[|s| - 2] < s[|s| - 1];
    }
  }

  /** A strictly increasing sequence holding exactly the months 1 and 2 is [1, 2]. */
  lemma OnlyMonthsOneAndTwo(months: seq<int>)
    requires StrictlyIncreasing(months)
    requires forall m :: m in months <==> m == 1 || m == 2
    ensures months == [1, 2]
  {
    assert 1 in months && 2 in months;
    var i :| 0 <= i < |months| && months[i] == 1;
    var k :| 0 <= k < |months| && months[k] == 2;
    assert months[0] in months && months[|months| - 1] in months;
    assert months[0] <= months[i];
    assert months[k] <= months[|months| - 1];
    IncreasingSpread(months);
    assert |months| == 2;
  }

  /** Nothing is a member of an empty sequence, and of nothing else. */
  lemma NoMembersIsEmpty(s: seq<int>)
    requires forall m :: m !in s
    ensures s == []
  {
    var first := if |s| > 0 then s[0] else 0;
    assert |s| > 0 ==> first in s;
  }

  lemma SumOfTwo(a: real, b: real)
    ensures Sum([a, b]) == a + b
  {
    assert [a][..0] == [];
    assert Sum([a]) == a;
    assert [a, b][..1] == [a];
    assert Sum([a, b]) == Sum([a]) + b;
  }

  /** The sample's truncated month column is [1, 1, 2]. */
  lemma SampleMonthKeys()
    ensures WeatherTable(Sample) && MonthKeys(Sample.rows) == [1, 1, 2]
  {
    assert MonthKeys(Sample.rows) == [1, 1, 2];
  }

  /** Month 1 averages 15.0 degrees and 10.0 mm over its two rows. */
  lemma SampleMonthOneMeans()
    ensures WeatherTable(Sample) && |MonthRows(Sample.rows, 1)| > 0
    ensures MonthMean(Sample, 1, TempCol) == 15.0 && MonthMean(Sample, 1, RainCol) == 10.0
  {
    SampleMonthKeys();
    var rows := Sample.rows;
    assert MonthRows(rows, 1) == [rows[0], rows[1]];
    assert Column(MonthRows(rows, 1), TempCol) == [10.0, 20.0];
    assert Column(MonthRows(rows, 1), RainCol) == [5.0, 15.0];
    SumOfTwo(10.0, 20.0);
    SumOfTwo(5.0, 15.0);
  }

  /** Month 2 averages 0.0 degrees and 0.0 mm over its one row. */
  lemma SampleMonthTwoMeans()
    ensures WeatherTable(Sample) && |MonthRows(Sample.rows, 2)| > 0
    ensures MonthMean(Sample, 2, TempCol) == 0.0 && MonthMean(Sample, 2, RainCol) == 0.0
  {
    SampleMonthKeys();
    var rows := Sample.rows;
    assert MonthRows(rows, 2) == [rows[2]];
    assert Column(MonthRows(rows, 2), TempCol) == [0.0];
    assert Column(MonthRows(rows, 2), RainCol) == [0.0];
    assert [0.0][..0] == [];
  }

  /** Months 1 and 2, mean temperatures 15 and 0, mean rainfall 10 and 0, no humidity. */
  method SampleAverages() returns (months: seq<int>, avgTemps: seq<real>, avgRains: seq<real>, avgHumids: Option<seq<real>>)
    ensures months == [1, 2] && avgTemps == [15.0, 0.0] && avgRains == [10.0, 0.0] && avgHumids == None
  {
    SampleMonthKeys();
    SampleMonthOneMeans();
    SampleMonthTwoMeans();
    months, avgTemps, avgRains, avgHumids := MonthlyAverages(Sample);
    OnlyMonthsOneAndTwo(months);
  }

  /** The hottest observation is the second row's: month 1, 20.0 degrees. */
  lemma SampleHottest()
    ensures HottestMonth(Sample) == Extremum(1, 20.0)
  {
    var rows := Sample.rows;
    assert IsFirstPeak(rows, TempCol, 1);
    var h := HottestMonth(Sample);
    var k: nat :| IsFirstPeak(rows, TempCol, k) && h == Extremum(Trunc(rows[k][MonthCol]), rows[k][TempCol]);
    FirstPeakUnique(rows, TempCol, k, 1);
  }

  /** The rainiest observation is the second row's: month 1, 15.0 mm. */
  lemma SampleRainiest()
    ensures RainiestMonth(Sample) == Extremum(1, 15.0)
  {
    var rows := Sample.rows;
    assert IsFirstPeak(rows, RainCol, 1);
    var r := RainiestMonth(Sample);
    var k: nat :| IsFirstPeak(rows, RainCol, k) && r == Extremum(Trunc(rows[k][MonthCol]), rows[k][RainCol]);
    FirstPeakUnique(rows, RainCol, k, 1);
  }

  /** Month 2 selects the last row; month 3 selects nothing. */
  lemma SampleMonthFilter()
    ensures FilterByMonth(Sample, 2.0).rows == [[2.0, 0.0, 0.0]]
    ensures FilterByMonth(Sample, 3.0).rows == []
  {
    var rows := Sample.rows;
    assert rows[1..][1..][1..] == [];
  }

  /** A four-column table has no column 4, so the default day query fails whatever the month. */
  lemma FourColumnDayQueryFails(rows: seq<seq<real>>, month: real)
    requires Rectangular(Table(4, rows))
    ensures FilterByDay(Table(4, rows), month) == Err(DayColumnOutOfBounds)
  {
  }

  /** A table without rows averages to nothing, rather than failing. */
  method EmptyAverages() returns (months: seq<int>, avgHumids: Option<seq<real>>)
    ensures months == [] && avgHumids == Some([])
  {
    var t := Table(4, []);
    var avgTemps, avgRains;
    months, avgTemps, avgRains, avgHumids := MonthlyAverages(t);
    assert MonthKeys(t.rows) == [];
    assert forall m :: m !in months;
    NoMembersIsEmpty(months);
  }
}
