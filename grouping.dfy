/**
 * The date-indexed table that `groupby("data").sum()` builds from the raw
 * table: one row per distinct date, sorted by date, with the date moved to an
 * index named "data" and the cumulative case counts of that date added up.
 * The threshold finder must give the same first-case date on it as on the
 * raw table with its `data` column.
 */
module DateGrouping {
  import opened Wrappers
  import opened Covid

  /** The sum of the case counts of the rows dated `d`. */
  function CasesOnDate(rows: seq<Row>, d: int): int {
    if rows == [] then 0
    else (if rows[0].data == d then rows[0].casosAcumulado else 0) + CasesOnDate(rows[1..], d)
  }

  /** Mask of the rows not dated `d`. */
  function DateIsNot(d: int): Row -> bool {
    (r: Row) => r.data != d
  }

  /** One row per distinct date, in order of first appearance; only the date
      and the summed case count are kept. */
  function Groups(rows: seq<Row>): (g: seq<Row>)
    decreases |rows|
    ensures |g| <= |rows|
    ensures g == [] <==> rows == []
  {
    if rows == [] then []
    else
      var d := rows[0].data;
      [Row(None, None, d, CasesOnDate(rows, d))] + Groups(Select(rows[1..], DateIsNot(d)))
  }

  /** The grouped table, sorted by its date keys as `groupby` does: its dates
      strictly increase, and it holds the group rows and nothing else. */
  function GroupByDateSum(rows: seq<Row>): (g: seq<Row>)
    ensures forall i, j :: 0 <= i < j < |g| ==> g[i].data < g[j].data
    ensures multiset(g) == multiset(Groups(rows))
  {
    GroupsUniqueDates(rows);
    SortKeepsUniqueDates(Groups(rows));
    SortByDate(Groups(rows))
  }

  /** Removing the rows of one date does not change the sums of the others. */
  lemma {:induction false} CasesOnOtherDate(rows: seq<Row>, d: int, e: int)
    requires d != e
    ensures CasesOnDate(Select(rows, DateIsNot(d)), e) == CasesOnDate(rows, e)
  {
    if rows != [] {
      CasesOnOtherDate(rows[1..], d, e);
      if rows[0].data != d {
        assert Select(rows, DateIsNot(d)) == [rows[0]] + Select(rows[1..], DateIsNot(d));
        assert (Select(rows, DateIsNot(d)))[1..] == Select(rows[1..], DateIsNot(d));
      }
    }
  }

  /** Each group row carries a date of the table and that date's summed case count. */
  lemma {:induction false} GroupsSound(rows: seq<Row>)
    decreases |rows|
    ensures forall r :: r in Groups(rows) ==>
      (exists x :: x in rows && x.data == r.data) && r.casosAcumulado == CasesOnDate(rows, r.data)
  {
    if rows != [] {
      var d := rows[0].data;
      var rest := Select(rows[1..], DateIsNot(d));
      GroupsSound(rest);
      assert Groups(rows) == [Row(None, None, d, CasesOnDate(rows, d))] + Groups(rest);
      assert rows[0] in rows;
      forall r | r in Groups(rest)
        ensures (exists x :: x in rows && x.data == r.data) && r.casosAcumulado == CasesOnDate(rows, r.data)
      {
        var x :| x in rest && x.data == r.data;
        assert x in rows[1..];
        assert x in rows;
        CasesOnOtherDate(rows[1..], d, r.data);
      }
    }
  }

  /** A group row holds its date's summed case count. */
  lemma GroupRowSum(rows: seq<Row>, r: Row)
    requires r in Groups(rows)
    ensures r.casosAcumulado == CasesOnDate(rows, r.data)
  {
    GroupsSound(rows);
  }

  /** Every date of the table has a group row. */
  lemma {:induction false} GroupsComplete(rows: seq<Row>)
    decreases |rows|
    ensures forall x :: x in rows ==> exists r :: r in Groups(rows) && r.data == x.data
  {
    if rows != [] {
      var d := rows[0].data;
      var rest := Select(rows[1..], DateIsNot(d));
      var head := Row(None, None, d, CasesOnDate(rows, d));
      GroupsComplete(rest);
      var g := Groups(rows);
      assert g == [head] + Groups(rest);
      forall x | x in rows
        ensures exists r :: r in g && r.data == x.data
      {
        if x.data == d {
          assert head in g;
        } else {
          assert x == rows[0] || x in rows[1..];
          assert x in rest;
          var r :| r in Groups(rest) && r.data == x.data;
          assert r in g;
        }
      }
    }
  }

  /** A group row's date is the date of some row of the table. */
  lemma GroupRowDate(rows: seq<Row>, r: Row)
    requires r in Groups(rows)
    ensures exists x :: x in rows && x.data == r.data
  {
    GroupsSound(rows);
  }

  /** No date has two group rows. */
  lemma {:induction false} GroupsUniqueDates(rows: seq<Row>)
    decreases |rows|
    ensures forall i, j :: 0 <= i < j < |Groups(rows)| ==> Groups(rows)[i].data != Groups(rows)[j].data
  {
    if rows != [] {
      var d := rows[0].data;
      var rest := Select(rows[1..], DateIsNot(d));
      var tail := Groups(rest);
      GroupsUniqueDates(rest);
      forall r | r in tail ensures r.data != d {
        GroupRowDate(rest, r);
      }
      var g := Groups(rows);
      assert g == [Row(None, None, d, CasesOnDate(rows, d))] + tail;
      forall i, j | 0 <= i < j < |g|
        ensures g[i].data != g[j].data
      {
        assert g[j] == tail[j - 1];
        if i > 0 {
          assert g[i] == tail[i - 1];
        } else {
          assert g[j] in tail;
        }
      }
    }
  }

  /** With non-negative counts, a date's sum is positive exactly when one of
      its rows is. */
  lemma {:induction false} PositiveSumIffPositiveRow(rows: seq<Row>, d: int)
    requires forall x :: x in rows ==> x.casosAcumulado >= 0
    ensures CasesOnDate(rows, d) > 0 <==> exists x :: x in rows && x.data == d && x.casosAcumulado > 0
  {
    if rows != [] {
      PositiveSumIffPositiveRow(rows[1..], d);
      assert forall x :: x in rows ==> x == rows[0] || x in rows[1..];
      assert rows[0] in rows;
      assert forall x :: x in rows[1..] ==> x in rows;
      assert CasesOnDate(rows[1..], d) >= 0 by {
        SumNonNegative(rows[1..], d);
      }
    }
  }

  /** With non-negative counts, every date's sum is non-negative. */
  lemma {:induction false} SumNonNegative(rows: seq<Row>, d: int)
    requires forall x :: x in rows ==> x.casosAcumulado >= 0
    ensures CasesOnDate(rows, d) >= 0
  {
    if rows != [] {
      assert rows[0] in rows;
      assert forall x :: x in rows[1..] ==> x in rows;
      SumNonNegative(rows[1..], d);
    }
  }

  /** Sorting keeps the same rows. */
  lemma SortByDateSameRows(s: seq<Row>)
    ensures forall r :: r in SortByDate(s) <==> r in s
  {
    var sorted := SortByDate(s);
    forall r | r in sorted ensures r in s {
      assert r in multiset(sorted);
    }
    forall r | r in s ensures r in sorted {
      assert r in multiset(s);
    }
  }

  /** With non-negative counts and a threshold of at most 0, every date above
      the threshold in the raw table is above it in the grouped table. */
  lemma RawDatesAboveAreGrouped(rows: seq<Row>, threshold: int)
    requires forall x :: x in rows ==> x.casosAcumulado >= 0
    requires threshold <= FirstCaseThreshold
    ensures DatesAbove(rows, threshold) <= DatesAbove(GroupByDateSum(rows), threshold)
  {
    var g := Groups(rows);
    GroupsComplete(rows);
    SortByDateSameRows(g);
    forall e | e in DatesAbove(rows, threshold)
      ensures e in DatesAbove(GroupByDateSum(rows), threshold)
    {
      var x :| x in rows && x.casosAcumulado > threshold && x.data == e;
      var r :| r in g && r.data == x.data;
      GroupRowSum(rows, r);
      if threshold == FirstCaseThreshold {
        PositiveSumIffPositiveRow(rows, e);
      } else {
        SumNonNegative(rows, e);
      }
      assert r in GroupByDateSum(rows);
    }
  }

  /** With non-negative counts and a threshold of at most 0, every date above
      the threshold in the grouped table is above it in the raw table. */
  lemma GroupedDatesAboveAreRaw(rows: seq<Row>, threshold: int)
    requires forall x :: x in rows ==> x.casosAcumulado >= 0
    requires threshold <= FirstCaseThreshold
    ensures DatesAbove(GroupByDateSum(rows), threshold) <= DatesAbove(rows, threshold)
  {
    var g := Groups(rows);
    SortByDateSameRows(g);
    forall e | e in DatesAbove(GroupByDateSum(rows), threshold)
      ensures e in DatesAbove(rows, threshold)
    {
      var r :| r in GroupByDateSum(rows) && r.casosAcumulado > threshold && r.data == e;
      assert r in g;
      if threshold == FirstCaseThreshold {
        GroupRowSum(rows, r);
        PositiveSumIffPositiveRow(rows, e);
        var x :| x in rows && x.data == e && x.casosAcumulado > 0;
        assert x.data in DatesAbove(rows, threshold);
      } else {
        GroupRowDate(rows, r);
        var x :| x in rows && x.data == e;
        assert x.data in DatesAbove(rows, threshold);
      }
    }
  }

  /** With non-negative case counts and a threshold of at most 0 (the first
      case, by default), the date read from the raw table's `data` column
      equals the one read from the date index of its per-date sums. */
  lemma GroupedIndexAgrees(rows: seq<Row>, threshold: int)
    requires forall x :: x in rows ==> x.casosAcumulado >= 0
    requires threshold <= FirstCaseThreshold
    ensures FirstDateAbove(Frame(rows, DateColumn), threshold)
         == FirstDateAbove(Frame(GroupByDateSum(rows), DateIndex("data")), threshold)
  {
    RawDatesAboveAreGrouped(rows, threshold);
    GroupedDatesAboveAreRaw(rows, threshold);
    FirstDateAboveDeterminedByDates(Frame(rows, DateColumn), Frame(GroupByDateSum(rows), DateIndex("data")), threshold);
  }

  /** Above a positive threshold the two tables can disagree: two subdivisions
      with 60 cases each on the same day make the day's sum exceed 100 while
      no single row does. */
  lemma GroupedIndexMayDisagreeAboveHundred()
    ensures var rows := [Row(Some("SP"), None, 1, 60), Row(Some("RJ"), None, 1, 60)];
      && FirstDateAbove(Frame(rows, DateColumn), 100) == Failure(NoRowAboveThreshold)
      && FirstDateAbove(Frame(GroupByDateSum(rows), DateIndex("data")), 100) == Success(1)
  {
    var rows := [Row(Some("SP"), None, 1, 60), Row(Some("RJ"), None, 1, 60)];
    assert !HasRowAbove(rows, 100);
    assert Select(rows[1..], DateIsNot(1)) == [];
    assert Groups(rows) == [Row(None, None, 1, 120)];
    assert GroupByDateSum(rows) == [Row(None, None, 1, 120)];
    assert HasRowAbove(GroupByDateSum(rows), 100) by {
      assert Row(None, None, 1, 120) in GroupByDateSum(rows);
    }
  }
}
