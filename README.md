# COVID-19 table queries, modelled in Dafny

This project models the table-query core of a small Python package that
analyses the Brazilian COVID-19 dataset (`covid19/covid.py`). The dataset
holds one row per region and date: the nation, each state ("estado"), and each
municipality ("codmun"), each with a cumulative case count
("casosAcumulado"). The core has three parts.

- **Row selections.** `get_all_states_data` keeps the state-total rows: no
  municipality code, a state abbreviation. `get_state_data` keeps the total
  rows of one state. Both are boolean-mask selections that keep table order.
- **Threshold-date finder.** `get_date_date_cases_greater_than` returns the
  earliest date whose cumulative case count is strictly above a threshold
  (default 0, the first case). It asserts that such a row exists. The date is
  read either from a `data` column or, after asserting that the index is
  named "data", from the table index.
- **Contamination-day array.** `get_dia_de_contaminacao_array` returns one
  integer per row. It has as many zeros as there are rows dated before the
  first case, then 1, 2, ..., k, where k counts the rows dated on or after
  the first case.

Files:

- `wrappers.dfy` (module `Wrappers`): `Option` for empty (NaN) cells, and
  `Result` for the Python assertions and attribute errors.
- `covid.dfy` (module `Covid`): rows (`Row`), tables (`Frame`: rows plus the
  place of the date, `DateColumn` or `DateIndex(name)`), mask selection, the
  date sort, the finder, the contamination array, and their lemmas.
- `grouping.dfy` (module `DateGrouping`): the per-date summed table that the
  package's test builds with `groupby("data").sum()`. Its lemmas state that
  the finder reads the same first-case date from that table's index as from
  the raw table's column.

Dates are day numbers (`int`). The `assert` statements of
`get_date_date_cases_greater_than` and the `AttributeError` raised by `df.data` on a date-indexed table are modelled as
`Failure` results (`CovidError`), not as preconditions.

`get_dia_de_contaminacao_array` has no threshold parameter; it always calls
the finder with threshold 0, and the model does the same
(`FirstCaseThreshold`).

## Model

| member | source | states |
|---|---|---|
| `Covid.Select` | covid19/covid.py:61 | A mask selection returns exactly the rows the mask accepts, each with its original multiplicity, as an order-preserving subsequence of the table. |
| `Covid.AllStatesData` | covid19/covid.py:75-96 | The result holds exactly the rows with no municipality code and a state abbreviation, with their multiplicities, in table order. |
| `Covid.StateData` | covid19/covid.py:99-123 | The result holds exactly the rows whose state equals the abbreviation and that have no municipality code, with their multiplicities, in table order. |
| `Covid.StateDataWithinAllStates` | covid19/covid.py:96-123 | The rows of one state are the all-states table restricted to that state, in the same order. So they are a subsequence of it, and each of them appears in it. |
| `Covid.SortByDate` | covid19/covid.py:66-72 | Sorting by date gives a table whose dates never decrease and which is a permutation of the input. |
| `Covid.FirstDateAbove` | covid19/covid.py:41-72 | It fails with `NoRowAboveThreshold` iff no row is above the threshold. It fails with `IndexNotNamedData` iff such a row exists but the dates are in an index not named "data". Otherwise it succeeds, and the date belongs to a row above the threshold, and no such row has an earlier date. |
| `Covid.FirstDateAboveDeterminedByDates` | covid19/covid.py:61-72 | Two tables with the same set of dates above the threshold, and equally readable date layouts, get the same answer. |
| `Covid.FirstDateAboveIgnoresRowOrder` | covid19/covid.py:66-72 | Reordering the rows does not change the answer, including the failures, because the finder sorts before taking the first row. |
| `Covid.ColumnAndIndexAgree` | covid19/covid.py:65-72 | A table with a `data` column and a table indexed by "data" with the same (date, cases) pairs get the same answer. |
| `Covid.CountOnOrAfter` | covid19/covid.py:31-36 | The number of rows dated on or after a date is at most the row count. It is positive iff some row is dated on or after it. |
| `Covid.ZerosThenCount` | covid19/covid.py:38 | The array has n entries: the first n-k are 0, and entry n-k+m is m+1, so the rest run 1, 2, ..., k. |
| `Covid.ContaminationDays` | covid19/covid.py:12-38 | It succeeds iff the dates are in a column and some row has a case. On failure it reports the first failing check: no case, then an index not named "data", then a missing `data` column. On success the array has one entry per row. |
| `Covid.ContaminationDaysShape` | covid19/covid.py:14-38 | k is at least 1, where k counts the rows dated on or after the first case. The array starts with n-k zeros, its first nonzero entry is 1, it never decreases, grows by exactly 1 per row once nonzero, and ends with k. |
| `Covid.OnOrAfterIsSuffix` | covid19/covid.py:22-36 | In a date-sorted table, the rows dated on or after a date are exactly the last `CountOnOrAfter` rows. |
| `Covid.ContaminationDaysCountsDays` | covid19/covid.py:22-38 | In a date-sorted table, entry i counts the rows up to i dated on or after the first case. So entry i is nonzero iff row i is dated on or after the first case. |
| `DateGrouping.Groups` | tests/test_covid19.py:26 | Grouping gives at most one row per raw row, and none exactly when the table is empty. What each group row holds is stated by the three lemmas below. |
| `DateGrouping.GroupByDateSum` | tests/test_covid19.py:26 | The grouped table, sorted by date as `groupby` sorts its keys: its dates strictly increase (so no date appears twice), and it is a permutation of the group rows. |
| `DateGrouping.GroupsSound` | tests/test_covid19.py:26 | Each row of the grouped table carries a date of the raw table and the sum of that date's case counts. |
| `DateGrouping.GroupsComplete` | tests/test_covid19.py:26 | Every date of the raw table has a row in the grouped table. |
| `DateGrouping.GroupsUniqueDates` | tests/test_covid19.py:26 | No date has two group rows (before sorting; `GroupByDateSum` carries this through the sort). |
| `DateGrouping.PositiveSumIffPositiveRow` | tests/test_covid19.py:26-27 | With non-negative counts, a date's summed count is positive iff one of its rows has a case. |
| `DateGrouping.GroupedIndexAgrees` | tests/test_covid19.py:18-28 | With non-negative counts and any threshold of at most 0 (the test uses the default, 0), the date from the raw table's `data` column equals the one from the "data" index of its per-date sums. Both fail together when no row qualifies. |
| `DateGrouping.GroupedIndexMayDisagreeAboveHundred` | tests/test_covid19.py:25-28 | The agreement proved at threshold 0 does not carry over to positive thresholds. For example, at 100, two states with 60 cases each on one day give a summed row of 120, so the grouped table returns that day, while no raw row is above 100 and the raw table fails. |

## Left out

- `covid19/scrap.py` is not part of this model. It holds browser automation of the download, polling the download directory against a clock with a timeout, file renames, a freshness policy based on file times and a log file, and spreadsheet reading with date conversion. All of it is I/O and clock state.
- Logging, and the `.copy()` calls of the two selections (the model has no aliasing).
- Pandas specifics. NaN cells of the state and municipality columns become `None`. The case count is an `int`, so a NaN case count, which compares false with any threshold, is not modelled. Dates are day numbers, not `datetime.date`. Dtypes are not modelled.
- `Covid.SortByDate` is a stable insertion sort. Pandas' default sort is not stable, but only the earliest date is ever read, and that does not depend on how ties are ordered.
- `DateGrouping.Groups` keeps only the date key and the summed case count. The other columns, which pandas also adds up, are left empty, because no query reads them.
- The test's expected date 2020-02-26 depends on a downloaded spreadsheet and is not a property of the code. The test also imports `_read_datafile_from_disc`, which `covid19/scrap.py` does not define; only `read_datafile_from_disc` exists.
- `covid19/covid.py` computes no daily new cases or deaths, removes no duplicate dates and builds no per-state contamination arrays, so none of these is modelled.
- Commented-out code (covid19/covid.py:122 and 125-130).
