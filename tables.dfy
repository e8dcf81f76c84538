/**
 * The numeric-array facilities the weather analysis leans on, stated on
 * values: a rectangular table of reals, column slices, truncation of a
 * float to an integer, the arithmetic mean, the sorted distinct values of
 * an integer column, the first index of a maximum, and reordering rows by
 * one column.  Reals stand in for the floats the program stores.
 */
module Tables {

  datatype Option<T> = None | Some(value: T)

  /** A two-dimensional array: its column count survives even when it has no rows. */
  datatype Table = Table(cols: nat, rows: seq<seq<real>>)

  /** Every row holds exactly `cols` values. */
  predicate Rectangular(t: Table) {
    forall i :: 0 <= i < |t.rows| ==> |t.rows[i]| == t.cols
  }

  /** Every row is wide enough to hold column `j`. */
  predicate HasColumn(rows: seq<seq<real>>, j: nat) {
    forall i :: 0 <= i < |rows| ==> j < |rows[i]|
  }

  lemma RectangularHasColumn(t: Table, j: nat)
    requires Rectangular(t) && j < t.cols
    ensures HasColumn(t.rows, j)
  {
  }

  /** The slice `data[:, j]`. */
  function Column(rows: seq<seq<real>>, j: nat): (c: seq<real>)
    requires HasColumn(rows, j)
    ensures |c| == |rows|
    ensures forall i :: 0 <= i < |rows| ==> c[i] == rows[i][j]
  {
    seq(|rows|, i requires 0 <= i < |rows| => rows[i][j])
  }

  /** Conversion of a float to an integer, which drops the fraction (rounds toward zero). */
  function Trunc(x: real): (n: int)
    ensures 0.0 <= x ==> n as real <= x < n as real + 1.0
    ensures x < 0.0 ==> n as real - 1.0 < x <= n as real
  {
    if x >= 0.0 then x.Floor else -((-x).Floor)
  }

  // ---------------------------------------------------------------------
  // Mean

  function Sum(s: seq<real>): real {
    if s == [] then 0.0 else Sum(s[..|s| - 1]) + s[|s| - 1]
  }

  /** The arithmetic mean of a non-empty column. */
  function Mean(s: seq<real>): (r: real)
    requires |s| > 0
    ensures r * (|s| as real) == Sum(s)
  {
    Sum(s) / (|s| as real)
  }

  lemma {:induction false} SumBounds(s: seq<real>, lo: real, hi: real)
    requires forall k :: 0 <= k < |s| ==> lo <= s[k] <= hi
    ensures lo * (|s| as real) <= Sum(s) <= hi * (|s| as real)
  {
    if s != [] {
      var n := |s| - 1;
      SumBounds(s[..n], lo, hi);
      assert lo * ((n + 1) as real) == lo * (n as real) + lo;
      assert hi * ((n + 1) as real) == hi * (n as real) + hi;
    }
  }

  /** A mean lies between any lower and any upper bound of the values averaged. */
  lemma MeanBounds(s: seq<real>, lo: real, hi: real)
    requires |s| > 0
    requires forall k :: 0 <= k < |s| ==> lo <= s[k] <= hi
    ensures lo <= Mean(s) <= hi
  {
    var n := |s| as real;
    SumBounds(s, lo, hi);
    assert Mean(s) * n == Sum(s);
  }

  /** A lower bound of a non-empty column: its smallest value. */
  function Least(s: seq<real>): (m: real)
    requires |s| > 0
    ensures forall k :: 0 <= k < |s| ==> m <= s[k]
  {
    if |s| == 1 then s[0]
    else
      var m := Least(s[1..]);
      if s[0] <= m then s[0] else m
  }

  // ---------------------------------------------------------------------
  // Sorted distinct values

  predicate StrictlyIncreasing(s: seq<int>) {
    forall i, j :: 0 <= i < j < |s| ==> s[i] < s[j]
  }

  /** A value below every element of a strictly increasing sequence can go in front. */
  lemma PrependIncreasing(h: int, s: seq<int>)
    requires StrictlyIncreasing(s)
    requires forall k :: 0 <= k < |s| ==> h < s[k]
    ensures StrictlyIncreasing([h] + s)
  {
    var r := [h] + s;
    forall a, b | 0 <= a < b < |r| ensures r[a] < r[b] {
      if a == 0 {
        assert r[b] == s[b - 1];
      } else {
        assert r[a] == s[a - 1] && r[b] == s[b - 1];
      }
    }
  }

  /** Adds `x` to a strictly increasing sequence, keeping it strictly increasing. */
  function InsertSorted(x: int, s: seq<int>): (r: seq<int>)
    requires StrictlyIncreasing(s)
    ensures StrictlyIncreasing(r)
    ensures forall y :: y in r <==> y == x || y in s
  {
    if s == [] then [x]
    else if x < s[0] then [x] + s
    else if x == s[0] then s
    else
      var tail := s[1..];
      var rest := InsertSorted(x, tail);
      assert forall k :: 0 <= k < |tail| ==> s[0] < tail[k] by {
        forall k | 0 <= k < |tail| ensures s[0] < tail[k] {
          assert tail[k] == s[k + 1];
        }
      }
      assert forall k :: 0 <= k < |rest| ==> s[0] < rest[k] by {
        forall k | 0 <= k < |rest| ensures s[0] < rest[k] {
          assert rest[k] in rest;
        }
      }
      PrependIncreasing(s[0], rest);
      [s[0]] + rest
  }

  /** The sorted distinct values of an integer column. */
  function Unique(s: seq<int>): (r: seq<int>)
    ensures StrictlyIncreasing(r)
    ensures forall i :: 0 <= i < |r| ==> r[i] in s
    ensures forall i :: 0 <= i < |s| ==> s[i] in r
  {
    if s == [] then []
    else
      var init, last := s[..|s| - 1], s[|s| - 1];
      var u := Unique(init);
      var r := InsertSorted(last, u);
      assert forall i :: 0 <= i < |r| ==> r[i] in s by {
        forall i | 0 <= i < |r| ensures r[i] in s {
          assert r[i] in r;
          if r[i] != last {
            var k :| 0 <= k < |u| && u[k] == r[i];
            var a :| 0 <= a < |init| && init[a] == u[k];
            assert s[a] == init[a];
          }
        }
      }
      assert forall i :: 0 <= i < |s| ==> s[i] in r by {
        forall i | 0 <= i < |s| ensures s[i] in r {
          if i < |init| {
            assert s[i] == init[i];
          }
        }
      }
      r
  }

  /** The distinct values are exactly the values of the column. */
  lemma UniqueMembers(s: seq<int>)
    ensures forall y :: y in Unique(s) <==> y in s
  {
    var r := Unique(s);
    forall y | y in r ensures y in s {
      var i :| 0 <= i < |r| && r[i] == y;
    }
    forall y | y in s ensures y in r {
      var i :| 0 <= i < |s| && s[i] == y;
    }
  }

  // ---------------------------------------------------------------------
  // First index of the maximum

  /** The first index holding the largest value of a non-empty column. */
  function ArgMax(s: seq<real>): (k: nat)
    requires |s| > 0
    ensures k < |s|
    ensures forall i :: 0 <= i < |s| ==> s[i] <= s[k]
    ensures forall i :: 0 <= i < k ==> s[i] < s[k]
  {
    if |s| == 1 then 0
    else
      var k := ArgMax(s[..|s| - 1]);
      if s[k] < s[|s| - 1] then |s| - 1 else k
  }

  // ---------------------------------------------------------------------
  // Reordering rows by one column

  /** Rows are in non-decreasing order of column `j`. */
  predicate SortedOn(rows: seq<seq<real>>, j: nat)
    requires HasColumn(rows, j)
  {
    forall a, b :: 0 <= a < b < |rows| ==> rows[a][j] <= rows[b][j]
  }

  /** A row no later on column `j` than any of some sorted rows can go in front. */
  lemma PrependSortedOn(h: seq<real>, rows: seq<seq<real>>, j: nat)
    requires j < |h| && HasColumn(rows, j) && SortedOn(rows, j)
    requires forall k :: 0 <= k < |rows| ==> h[j] <= rows[k][j]
    ensures HasColumn([h] + rows, j) && SortedOn([h] + rows, j)
  {
    var r := [h] + rows;
    forall a, b | 0 <= a < b < |r| ensures r[a][j] <= r[b][j] {
      if a == 0 {
        assert r[b] == rows[b - 1];
      } else {
        assert r[a] == rows[a - 1] && r[b] == rows[b - 1];
      }
    }
  }

  /** The step of `InsertOn` that keeps the first row in front of the insertion into the rest. */
  lemma InsertOnBehindHead(x: seq<real>, rows: seq<seq<real>>, j: nat, rest: seq<seq<real>>)
    requires j < |x| && |rows| > 0 && HasColumn(rows, j) && SortedOn(rows, j) && rows[0][j] < x[j]
    requires HasColumn(rest, j) && SortedOn(rest, j)
    requires forall k :: 0 <= k < |rest| ==> rest[k] == x || rest[k] in rows[1..]
    requires multiset(rest) == multiset(rows[1..]) + multiset{x}
    ensures forall k :: 0 <= k < |[rows[0]] + rest| ==> ([rows[0]] + rest)[k] == x || ([rows[0]] + rest)[k] in rows
    ensures HasColumn([rows[0]] + rest, j) && SortedOn([rows[0]] + rest, j)
    ensures multiset([rows[0]] + rest) == multiset(rows) + multiset{x}
  {
    var tail := rows[1..];
    assert rows == [rows[0]] + tail;
    forall k | 0 <= k < |rest| ensures rows[0][j] <= rest[k][j] {
      if rest[k] != x {
        var i :| 0 <= i < |tail| && tail[i] == rest[k];
        assert tail[i] == rows[i + 1];
      }
    }
    PrependSortedOn(rows[0], rest, j);
  }

  function InsertOn(x: seq<real>, rows: seq<seq<real>>, j: nat): (r: seq<seq<real>>)
    requires j < |x| && HasColumn(rows, j) && SortedOn(rows, j)
    ensures forall k :: 0 <= k < |r| ==> r[k] == x || r[k] in rows
    ensures HasColumn(r, j) && SortedOn(r, j)
    ensures multiset(r) == multiset(rows) + multiset{x}
  {
    if rows == [] then [x]
    else if x[j] <= rows[0][j] then
      PrependSortedOn(x, rows, j);
      [x] + rows
    else
      var rest := InsertOn(x, rows[1..], j);
      InsertOnBehindHead(x, rows, j, rest);
      [rows[0]] + rest
  }

  /** Rows reordered so that column `j` is non-decreasing: a sorted permutation. */
  function SortOn(rows: seq<seq<real>>, j: nat): (r: seq<seq<real>>)
    requires HasColumn(rows, j)
    ensures forall k :: 0 <= k < |r| ==> r[k] in rows
    ensures HasColumn(r, j) && SortedOn(r, j)
    ensures multiset(r) == multiset(rows)
  {
    if rows == [] then []
    else
      assert rows == [rows[0]] + rows[1..];
      InsertOn(rows[0], SortOn(rows[1..], j), j)
  }
}
