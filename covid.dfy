/**
 * The table-query logic of the COVID-19 dataset: row selections by region
 * granularity, the date at which the cumulative case count first exceeds a
 * threshold, and the "days of contamination" counter built from that date.
 *
 * A table is a sequence of rows. The date of a row is a day number; it sits
 * either in a `data` column or in the table's index, which
 * `get_date_date_cases_greater_than` expects to be named "data" (`DateLayout`).
 */
module Covid {
  import opened Wrappers

  /** One row of the dataset: subdivision (state) abbreviation, locality code,
      date as a day number and cumulative case count. Empty cells are `None`. */
  datatype Row = Row(estado: Option<string>, codmun: Option<int>, data: int, casosAcumulado: int)

  /** Where the date of each row is kept: in a `data` column, or in the table
      index, whose name is recorded. */
  datatype DateLayout = DateColumn | DateIndex(indexName: string)

  /** A table together with the place of its dates. */
  datatype Frame = Frame(rows: seq<Row>, layout: DateLayout)

  /** The ways the queries fail: the two assertions of the threshold finder and
      the missing `data` column read by the contamination-day counter. */
  datatype CovidError = NoRowAboveThreshold | IndexNotNamedData | NoDataColumn

  /** Default threshold of the threshold finder: the first case. */
  const FirstCaseThreshold: int := 0

  // ---------------------------------------------------------------------------
  // Boolean-mask selection
  // ---------------------------------------------------------------------------

  /** `a` is an order-preserving subsequence of `b`. */
  ghost predicate Subsequence(a: seq<Row>, b: seq<Row>)
    decreases |b|
  {
    if a == [] then true
    else if b == [] then false
    else if a[0] == b[0] then Subsequence(a[1..], b[1..])
    else Subsequence(a, b[1..])
  }

  /** The rows of `rows` on which `mask` holds, in their original order
      (the table indexed by a boolean mask, `df[mask]`). */
  function Select(rows: seq<Row>, mask: Row -> bool): (r: seq<Row>)
    ensures |r| <= |rows|
    ensures forall x :: x in r <==> x in rows && mask(x)
    ensures forall x :: multiset(r)[x] == if mask(x) then multiset(rows)[x] else 0
    ensures Subsequence(r, rows)
  {
    if rows == [] then []
    else
      assert rows == [rows[0]] + rows[1..];
      var rest := Select(rows[1..], mask);
      if mask(rows[0]) then
        assert ([rows[0]] + rest)[1..] == rest;
        [rows[0]] + rest
      else
        assert rest != [] ==> rest[0] != rows[0];
        rest
  }

  /** Selecting with `q` and then with a stronger `p` is selecting with `p`. */
  lemma {:induction false} SelectNarrowed(rows: seq<Row>, p: Row -> bool, q: Row -> bool)
    requires forall x :: p(x) ==> q(x)
    ensures Select(Select(rows, q), p) == Select(rows, p)
  {
    if rows != [] {
      SelectNarrowed(rows[1..], p, q);
      if q(rows[0]) {
        assert Select(rows, q) == [rows[0]] + Select(rows[1..], q);
        assert (Select(rows, q))[1..] == Select(rows[1..], q);
      }
    }
  }

  /** Mask of the rows that hold a whole subdivision's totals: no locality code
      and a subdivision abbreviation. */
  predicate IsStateTotal(r: Row) {
    r.codmun.None? && r.estado.Some?
  }

  /** Mask of the rows that hold the totals of the subdivision `abbr`. */
  function StateTotalOf(abbr: string): Row -> bool {
    (r: Row) => r.estado == Some(abbr) && r.codmun.None?
  }

  /** Mask of the rows whose cumulative case count is above `threshold`. */
  function CasesAbove(threshold: int): Row -> bool {
    (r: Row) => r.casosAcumulado > threshold
  }

  /** The subdivision rows of the table, in table order. */
  function AllStatesData(rows: seq<Row>): (r: seq<Row>)
    ensures forall x :: x in r <==> x in rows && x.codmun.None? && x.estado.Some?
    ensures forall x :: multiset(r)[x] == if IsStateTotal(x) then multiset(rows)[x] else 0
    ensures Subsequence(r, rows)
  {
    Select(rows, IsStateTotal)
  }

  /** The rows of the subdivision `abbr` (not those of its localities), in table order. */
  function StateData(rows: seq<Row>, abbr: string): (r: seq<Row>)
    ensures forall x :: x in r <==> x in rows && x.estado == Some(abbr) && x.codmun.None?
    ensures forall x :: multiset(r)[x] == if x.estado == Some(abbr) && x.codmun.None? then multiset(rows)[x] else 0
    ensures Subsequence(r, rows)
  {
    Select(rows, StateTotalOf(abbr))
  }

  /** The rows of one subdivision are exactly the subdivision rows of the whole
      table restricted to that subdivision, in the same order. */
  lemma StateDataWithinAllStates(rows: seq<Row>, abbr: string)
    ensures StateData(rows, abbr) == Select(AllStatesData(rows), StateTotalOf(abbr))
    ensures Subsequence(StateData(rows, abbr), AllStatesData(rows))
    ensures forall x :: x in StateData(rows, abbr) ==> x in AllStatesData(rows)
  {
    SelectNarrowed(rows, StateTotalOf(abbr), IsStateTotal);
  }

  // ---------------------------------------------------------------------------
  // Sorting by date
  // ---------------------------------------------------------------------------

  /** Dates never decrease along `s`. */
  ghost predicate DatesAscending(s: seq<Row>) {
    forall i, j :: 0 <= i < j < |s| ==> s[i].data <= s[j].data
  }

  /** Putting a row no later than the first one in front keeps a table date-sorted. */
  lemma AscendingCons(a: Row, s: seq<Row>)
    requires DatesAscending(s)
    requires s != [] ==> a.data <= s[0].data
    ensures DatesAscending([a] + s)
  {
    var r := [a] + s;
    assert forall j :: 1 <= j < |r| ==> r[j] == s[j - 1];
  }

  /** Inserts `x` into the date-sorted `s` before the first row not earlier than it. */
  function InsertByDate(x: Row, s: seq<Row>): (r: seq<Row>)
    requires DatesAscending(s)
    ensures |r| == |s| + 1
    ensures r[0] == x || (s != [] && r[0] == s[0])
    ensures DatesAscending(r)
    ensures multiset(r) == multiset(s) + multiset{x}
  {
    if s == [] then [x]
    else if x.data <= s[0].data then
      AscendingCons(x, s);
      [x] + s
    else
      assert s == [s[0]] + s[1..];
      var rest := InsertByDate(x, s[1..]);
      AscendingCons(s[0], rest);
      [s[0]] + rest
  }

  /** The table sorted by date (`sort_values(by="data")`, `sort_index()`). */
  function SortByDate(s: seq<Row>): (r: seq<Row>)
    ensures DatesAscending(r)
    ensures multiset(r) == multiset(s)
  {
    if s == [] then []
    else
      assert s == [s[0]] + s[1..];
      InsertByDate(s[0], SortByDate(s[1..]))
  }

  /** No two rows of `s` share a date. */
  ghost predicate UniqueDates(s: seq<Row>) {
    forall i, j :: 0 <= i < j < |s| ==> s[i].data != s[j].data
  }

  /** Putting in front a row whose date no other row has keeps dates unique. */
  lemma UniqueCons(a: Row, s: seq<Row>)
    requires UniqueDates(s)
    requires forall y :: y in s ==> y.data != a.data
    ensures UniqueDates([a] + s)
  {
    var r := [a] + s;
    forall i, j | 0 <= i < j < |r|
      ensures r[i].data != r[j].data
    {
      assert r[j] == s[j - 1];
      if i > 0 {
        assert r[i] == s[i - 1];
      }
    }
  }

  /** Inserting a row with a new date into a table with unique dates keeps them unique. */
  lemma {:induction false} InsertKeepsUniqueDates(x: Row, s: seq<Row>)
    requires DatesAscending(s) && UniqueDates(s)
    requires forall y :: y in s ==> y.data != x.data
    ensures UniqueDates(InsertByDate(x, s))
  {
    if s == [] || x.data <= s[0].data {
      UniqueCons(x, s);
    } else {
      var tail := s[1..];
      assert forall y :: y in tail ==> y in s;
      assert forall i :: 0 <= i < |tail| ==> tail[i] == s[i + 1];
      InsertKeepsUniqueDates(x, tail);
      var rest := InsertByDate(x, tail);
      forall y | y in rest
        ensures y.data != s[0].data
      {
        assert y in multiset(rest);
        if y != x {
          assert y in multiset(tail);
          var k :| 0 <= k < |tail| && tail[k] == y;
          assert s[k + 1] == y;
        }
      }
      UniqueCons(s[0], rest);
    }
  }

  /** Sorting a table with unique dates keeps them unique. */
  lemma {:induction false} SortKeepsUniqueDates(s: seq<Row>)
    requires UniqueDates(s)
    ensures UniqueDates(SortByDate(s))
  {
    if s != [] {
      var tail := s[1..];
      assert forall i :: 0 <= i < |tail| ==> tail[i] == s[i + 1];
      SortKeepsUniqueDates(tail);
      var t := SortByDate(tail);
      forall y | y in t
        ensures y.data != s[0].data
      {
        assert y in multiset(t);
        assert y in multiset(tail);
        var k :| 0 <= k < |tail| && tail[k] == y;
        assert s[k + 1] == y;
      }
      InsertKeepsUniqueDates(s[0], t);
    }
  }

  // ---------------------------------------------------------------------------
  // Threshold-date finder
  // ---------------------------------------------------------------------------

  /** Some row has a cumulative case count above `threshold`. */
  predicate HasRowAbove(rows: seq<Row>, threshold: int) {
    exists r :: r in rows && r.casosAcumulado > threshold
  }

  /** The dates of the rows whose case count is above `threshold`. */
  ghost function DatesAbove(rows: seq<Row>, threshold: int): set<int> {
    set r | r in rows && r.casosAcumulado > threshold :: r.data
  }

  /** `d` is the earliest date of a row whose case count is above `threshold`. */
  ghost predicate IsEarliestDateAbove(rows: seq<Row>, threshold: int, d: int) {
    && (exists r :: r in rows && r.casosAcumulado > threshold && r.data == d)
    && (forall r :: r in rows && r.casosAcumulado > threshold ==> d <= r.data)
  }

  /** The layout the finder can read a date from: a `data` column, or an index named "data". */
  predicate LayoutReadable(layout: DateLayout) {
    layout.DateColumn? || layout.indexName == "data"
  }

  /** The date from which the cumulative case count is above `threshold`:
      select the rows above it, fail if there are none, sort them by date and
      take the date of the first one (from the column, or from the index after
      checking that it is named "data"). */
  function FirstDateAbove(f: Frame, threshold: int): (res: Result<int, CovidError>)
    ensures res == Failure(NoRowAboveThreshold) <==> !HasRowAbove(f.rows, threshold)
    ensures res == Failure(IndexNotNamedData) <==> HasRowAbove(f.rows, threshold) && !LayoutReadable(f.layout)
    ensures res.Success? <==> HasRowAbove(f.rows, threshold) && LayoutReadable(f.layout)
    ensures res.Success? ==> IsEarliestDateAbove(f.rows, threshold, res.value)
  {
    var above := Select(f.rows, CasesAbove(threshold));
    if |above| == 0 then
      assert forall r :: r in f.rows ==> !CasesAbove(threshold)(r);
      Failure(NoRowAboveThreshold)
    else
      var sorted := SortByDate(above);
      assert above[0] in multiset(sorted);
      assert forall r :: r in f.rows && r.casosAcumulado > threshold ==> r in multiset(sorted);
      assert sorted[0] in multiset(above);
      match f.layout
      case DateColumn => Success(sorted[0].data)
      case DateIndex(name) =>
        if name == "data" then Success(sorted[0].data) else Failure(IndexNotNamedData)
  }

  /** Some row is above the threshold exactly when some date is. */
  lemma HasRowAboveIffDates(rows: seq<Row>, threshold: int)
    ensures HasRowAbove(rows, threshold) <==> DatesAbove(rows, threshold) != {}
  {
    if HasRowAbove(rows, threshold) {
      var r :| r in rows && r.casosAcumulado > threshold;
      assert r.data in DatesAbove(rows, threshold);
    }
  }

  /** The earliest date above the threshold is the least element of `DatesAbove`. */
  lemma EarliestIsLeastDate(rows: seq<Row>, threshold: int, d: int)
    requires IsEarliestDateAbove(rows, threshold, d)
    ensures d in DatesAbove(rows, threshold)
    ensures forall e :: e in DatesAbove(rows, threshold) ==> d <= e
  {
    var r :| r in rows && r.casosAcumulado > threshold && r.data == d;
    assert r.data in DatesAbove(rows, threshold);
  }

  /** The finder's answer depends only on the set of dates above the threshold
      and on whether the date can be read. */
  lemma FirstDateAboveDeterminedByDates(f: Frame, g: Frame, threshold: int)
    requires DatesAbove(f.rows, threshold) == DatesAbove(g.rows, threshold)
    requires LayoutReadable(f.layout) == LayoutReadable(g.layout)
    ensures FirstDateAbove(f, threshold) == FirstDateAbove(g, threshold)
  {
    HasRowAboveIffDates(f.rows, threshold);
    HasRowAboveIffDates(g.rows, threshold);
    var rf, rg := FirstDateAbove(f, threshold), FirstDateAbove(g, threshold);
    assert HasRowAbove(f.rows, threshold) == HasRowAbove(g.rows, threshold);
    if !HasRowAbove(f.rows, threshold) {
      assert rf == rg;
    } else if !LayoutReadable(f.layout) {
      assert rf == rg;
    } else {
      var a, b := rf.value, rg.value;
      assert IsEarliestDateAbove(f.rows, threshold, a);
      assert IsEarliestDateAbove(g.rows, threshold, b);
      EarliestIsLeastDate(f.rows, threshold, a);
      EarliestIsLeastDate(g.rows, threshold, b);
      assert a <= b && b <= a;
      assert rf == Success(a);
    }
  }

  /** Reordering the rows does not change the finder's answer. */
  lemma FirstDateAboveIgnoresRowOrder(f: Frame, g: Frame, threshold: int)
    requires multiset(f.rows) == multiset(g.rows)
    requires f.layout == g.layout
    ensures FirstDateAbove(f, threshold) == FirstDateAbove(g, threshold)
  {
    forall r | r in f.rows ensures r in g.rows {
      assert r in multiset(f.rows);
    }
    forall r | r in g.rows ensures r in f.rows {
      assert r in multiset(g.rows);
    }
    FirstDateAboveDeterminedByDates(f, g, threshold);
  }

  /** The (date, cumulative cases) pairs of a table. */
  ghost function DateCasePairs(rows: seq<Row>): set<(int, int)> {
    set r | r in rows :: (r.data, r.casosAcumulado)
  }

  /** A date column and a date index named "data" give the same answer for
      tables with the same (date, cases) pairs. */
  lemma ColumnAndIndexAgree(rows: seq<Row>, indexed: seq<Row>, threshold: int)
    requires DateCasePairs(rows) == DateCasePairs(indexed)
    ensures FirstDateAbove(Frame(rows, DateColumn), threshold)
         == FirstDateAbove(Frame(indexed, DateIndex("data")), threshold)
  {
    forall d | d in DatesAbove(rows, threshold) ensures d in DatesAbove(indexed, threshold) {
      var r :| r in rows && r.casosAcumulado > threshold && r.data == d;
      assert (r.data, r.casosAcumulado) in DateCasePairs(indexed);
    }
    forall d | d in DatesAbove(indexed, threshold) ensures d in DatesAbove(rows, threshold) {
      var r :| r in indexed && r.casosAcumulado > threshold && r.data == d;
      assert (r.data, r.casosAcumulado) in DateCasePairs(rows);
    }
    FirstDateAboveDeterminedByDates(Frame(rows, DateColumn), Frame(indexed, DateIndex("data")), threshold);
  }

  // ---------------------------------------------------------------------------
  // Contamination-day array
  // ---------------------------------------------------------------------------

  /** The number of rows dated `d` or later (`sum(df.data >= d)`). */
  function CountOnOrAfter(rows: seq<Row>, d: int): (k: nat)
    ensures k <= |rows|
    ensures (exists r :: r in rows && r.data >= d) <==> k > 0
  {
    if rows == [] then 0
    else
      assert forall r :: r in rows ==> r == rows[0] || r in rows[1..];
      (if rows[0].data >= d then 1 else 0) + CountOnOrAfter(rows[1..], d)
  }

  /** `n - k` zeros followed by 1, 2, ..., k (`concatenate([zeros(n - k), arange(1, k + 1)])`). */
  function ZerosThenCount(n: nat, k: nat): (days: seq<int>)
    requires k <= n
    ensures |days| == n
    ensures forall i :: 0 <= i < n ==> days[i] == if i < n - k then 0 else i - (n - k) + 1
  {
    seq(n - k, _ => 0) + seq(k, i => i + 1)
  }

  /** One entry per row: as many zeros as rows dated before the first case,
      then 1, 2, ... for the rows dated on or after it. Fails when no row has
      a case, or when the dates are in the index (there is no `data` column). */
  function ContaminationDays(f: Frame): (res: Result<seq<int>, CovidError>)
    ensures res.Success? <==> f.layout.DateColumn? && HasRowAbove(f.rows, FirstCaseThreshold)
    ensures res.Failure? ==>
      res.error == (if !HasRowAbove(f.rows, FirstCaseThreshold) then NoRowAboveThreshold
                    else if !LayoutReadable(f.layout) then IndexNotNamedData
                    else NoDataColumn)
    ensures res.Success? ==> |res.value| == |f.rows|
  {
    var first :- FirstDateAbove(f, FirstCaseThreshold);
    if f.layout.DateIndex? then Failure(NoDataColumn)
    else
      Success(ZerosThenCount(|f.rows|, CountOnOrAfter(f.rows, first)))
  }

  /** The date of the first case, when the table has one. */
  ghost function FirstCaseDate(f: Frame): int
    requires FirstDateAbove(f, FirstCaseThreshold).Success?
  {
    FirstDateAbove(f, FirstCaseThreshold).value
  }

  /** The array of a table with a first case, spelled out. */
  lemma ContaminationDaysValue(f: Frame)
    requires ContaminationDays(f).Success?
    ensures CountOnOrAfter(f.rows, FirstCaseDate(f)) <= |f.rows|
    ensures ContaminationDays(f).value == ZerosThenCount(|f.rows|, CountOnOrAfter(f.rows, FirstCaseDate(f)))
  {
  }

  /** The array ends with 1, 2, ..., k after its zeros, where k >= 1 is the
      number of rows dated on or after the first case: it never decreases and
      grows by one per row once it has started. */
  lemma ContaminationDaysShape(f: Frame)
    requires ContaminationDays(f).Success?
    ensures var days, k := ContaminationDays(f).value, CountOnOrAfter(f.rows, FirstCaseDate(f));
      && 1 <= k <= |days|
      && days[|days| - k] == 1
      && days[|days| - 1] == k
      && (forall i :: 0 <= i < |days| - k ==> days[i] == 0)
      && (forall i, j :: 0 <= i <= j < |days| ==> days[i] <= days[j])
      && (forall i :: 0 <= i < |days| - 1 && days[i] != 0 ==> days[i + 1] == days[i] + 1)
  {
    var first := FirstCaseDate(f);
    ContaminationDaysValue(f);
    assert IsEarliestDateAbove(f.rows, FirstCaseThreshold, first);
    var r :| r in f.rows && r.casosAcumulado > FirstCaseThreshold && r.data == first;
    assert CountOnOrAfter(f.rows, first) > 0;
  }

  /** In a date-sorted table, the rows dated `d` or later are the last
      `CountOnOrAfter(s, d)` ones. */
  lemma {:induction false} OnOrAfterIsSuffix(s: seq<Row>, d: int)
    requires DatesAscending(s)
    ensures forall j :: 0 <= j < |s| ==> (s[j].data >= d <==> j >= |s| - CountOnOrAfter(s, d))
  {
    if s != [] {
      OnOrAfterIsSuffix(s[1..], d);
      if s[0].data >= d {
        assert forall j :: 0 < j < |s| ==> s[j] == s[1..][j - 1];
        assert forall j :: 0 <= j < |s| ==> s[j].data >= d;
        if |s| > 1 {
          assert s[1..][0].data >= d;
        }
      } else {
        assert forall j :: 0 < j < |s| ==> s[j] == s[1..][j - 1];
      }
    }
  }

  /** In a date-sorted table, entry `i` of the zeros-then-count array of the
      rows dated `d` or later counts those rows among the first `i + 1`. */
  lemma PrefixCountOnOrAfter(s: seq<Row>, d: int, i: int)
    requires DatesAscending(s)
    requires 0 <= i < |s|
    ensures ZerosThenCount(|s|, CountOnOrAfter(s, d))[i] == CountOnOrAfter(s[..i + 1], d)
  {
    var m := |s| - CountOnOrAfter(s, d);
    OnOrAfterIsSuffix(s, d);
    var p := s[..i + 1];
    assert DatesAscending(p);
    OnOrAfterIsSuffix(p, d);
    var mp := |p| - CountOnOrAfter(p, d);
    assert forall j :: 0 <= j < |p| ==> p[j] == s[j];
    if i < m {
      assert p[i].data < d;
    } else {
      assert p[m].data >= d;
      if m > 0 {
        assert p[m - 1].data < d;
      }
    }
  }

  /** On a date-sorted table (`get_dia_de_contaminacao_array` documents that
      its table has unique, consecutive dates), entry `i` counts the rows up to `i` dated on or after the first
      case; so it is nonzero exactly when row `i` is dated on or after it. */
  lemma ContaminationDaysCountsDays(f: Frame)
    requires ContaminationDays(f).Success?
    requires DatesAscending(f.rows)
    ensures var days, first := ContaminationDays(f).value, FirstCaseDate(f);
      forall i :: 0 <= i < |days| ==>
        && days[i] == CountOnOrAfter(f.rows[..i + 1], first)
        && (days[i] != 0 <==> f.rows[i].data >= first)
  {
    var days, first := ContaminationDays(f).value, FirstCaseDate(f);
    ContaminationDaysValue(f);
    OnOrAfterIsSuffix(f.rows, first);
    forall i | 0 <= i < |days|
      ensures days[i] == CountOnOrAfter(f.rows[..i + 1], first)
    {
      PrefixCountOnOrAfter(f.rows, first, i);
    }
  }
}
