# Order-prediction frontend: pivot table and category series, in Dafny

This project models the data logic of two React components of an order-prediction
dashboard and proves properties of that logic.

- `DataTable` takes the predicted-order records (`DataRow`: category, date, day,
  holiday marker, month, predicted quantity, year) and renders a pivot table.
  Its columns are the distinct categories. Its rows are the distinct
  `"${Month}/${Day}"` date keys; the year is not part of the key. Each row has
  one cell per column, a total and a holiday flag. A cell holds the quantity of
  the *first* record of that date and category (`find`), or "N/A". The total
  adds up *every* record of that date (`reduce`). A row is a holiday when some
  record of that date has `IsHoliday === 1`.
- `LineChartCategory` takes monthly per-category points (month, category,
  total quantity). It derives the distinct month labels, the distinct
  categories, and one line (dataset) per category that holds that category's
  quantities in input order. A dataset's Chart.js `label` is the field `name`
  of `Dataset`, because `label` is a reserved word in Dafny.

Modules:

- `Wrappers` (`wrappers.dfy`): `Option`, used for "N/A" cells and for NaN.
- `Sequences` (`sequences.dfy`): `Distinct`, the order-preserving de-duplication
  that spreading a JavaScript `Set` performs, and its characterisation.
- `JsText` (`js_text.dfy`): the JavaScript string built-ins the table relies on.
  These are template interpolation of a non-negative integer, `Number(s)` and
  `s.split(sep)`.
- `DataTable` (`data_table.dfy`): the pivot.
- `LineChartCategory` (`line_chart_category.dfy`): the grouping into series.

Quantities are Dafny `real`, so sums are exact mathematical sums. Month and day
are `nat`. `IsHoliday` is an `int`, so the values 2 or -1 can be written down;
they do not make a row a holiday. A parsed month or day is an `Option<nat>`, and
`None` stands for NaN or `undefined`, which equals no record's month or day.

Two consequences of the code are worth stating outright:

- A repeated (month, day, category) entry shows only its first quantity in the
  cell, while the total counts all of them
  (`DataTable.RepeatedEntryShowsFirstCountsAll`).
- Without such repeats, every row total is the sum of that row's present cells
  (`DataTable.TableTotalsAreCellSums`). Only this direction is proved; a row
  with repeated entries can still have a total equal to its cell sum.

## Model

| member | source | states |
|---|---|---|
| `Sequences.Distinct` | src/app/components/DataTable.tsx:19-22 | the `Set`-spread result has no duplicates, contains exactly the input's elements, and is no longer than the input |
| `Sequences.DistinctFirstSeenOrder` | src/app/components/DataTable.tsx:19 | the distinct elements come by increasing position of first occurrence in the input |
| `Sequences.DistinctIsFirstSeenListing` | src/app/components/DataTable.tsx:19 | `Distinct(s)` is a listing of the elements of `s`: once each, in first-seen order |
| `Sequences.DistinctIsTheFirstSeenListing` | src/app/components/DataTable.tsx:19 | any such listing equals `Distinct(s)`, so the three properties determine it |
| `JsText.NatToString` | src/app/components/DataTable.tsx:21 | `${n}` is a non-empty string of decimal digits without a leading zero |
| `JsText.ToNumber` | src/app/components/DataTable.tsx:39 | `Number(s)` is a number exactly for digit strings, and 0 for the empty string |
| `JsText.ToNumberOfNatToString` | src/app/components/DataTable.tsx:39 | `Number` applied to `${n}` gives back `n` |
| `JsText.NatToStringInjective` | src/app/components/DataTable.tsx:21 | distinct naturals print differently |
| `JsText.Split` | src/app/components/DataTable.tsx:39 | `split` gives at least one piece, no piece holds the separator, and joining the pieces with it restores the string |
| `JsText.SplitAtFirstTwo` | src/app/components/DataTable.tsx:39 | with the first separator at `p` and the next at `q` (or none), the first two pieces of `split` are the text before `p` and the text between `p` and `q` |
| `JsText.SplitAroundSeparator` | src/app/components/DataTable.tsx:39 | splitting `a + "/" + b`, with no `/` in `a` or `b`, gives `[a, b]` |
| `DataTable.UniqueCategories` | src/app/components/DataTable.tsx:19 | the columns have no duplicates and are exactly the categories that occur in the data |
| `DataTable.UniqueCategoriesFirstSeenOrder` | src/app/components/DataTable.tsx:19 | columns come in the order their category first appears |
| `DataTable.UniqueDates` | src/app/components/DataTable.tsx:20-22 | the row keys have no duplicates and are exactly the keys of the records |
| `DataTable.UniqueDatesFirstSeenOrder` | src/app/components/DataTable.tsx:20-22 | row keys come in the order their date first appears |
| `DataTable.DateKey` | src/app/components/DataTable.tsx:21 | `${Month}/${Day}` is a run of digits, one `/` right after the month's digits, and a run of digits; neither run is empty |
| `DataTable.ParseDateKey` | src/app/components/DataTable.tsx:39 | the month is `Number` of the text before the first `/`, the day `Number` of the text up to the next `/` or the end; with no `/`, the month is `Number` of the key and the day is `undefined` (NaN) |
| `DataTable.ParseDateKeyRoundTrip` | src/app/components/DataTable.tsx:39 | splitting `"${m}/${d}"` on `/` and converting the pieces gives back `(m, d)` |
| `DataTable.DateKeyInjective` | src/app/components/DataTable.tsx:21 | two dates share a key if and only if they agree on month and day; the year plays no part |
| `DataTable.UniqueDatesPerMonthDay` | src/app/components/DataTable.tsx:20-22 | there is a key for (m, d) if and only if some record has month m and day d |
| `DataTable.OnDate` | src/app/components/DataTable.tsx:43 | a NaN month or day matches no record; for parsed numbers, a record matches exactly when its own `${Month}/${Day}` key has that month and day |
| `DataTable.RowsForDate` | src/app/components/DataTable.tsx:42-44 | the records kept are exactly the input's records whose month and day match |
| `DataTable.RowsForDateAppend` | src/app/components/DataTable.tsx:42-44 | the filter maps a concatenation to the concatenation of the filtered parts, so input order is kept |
| `DataTable.IsHoliday` | src/app/components/DataTable.tsx:47 | `some` is true if and only if some record has `IsHoliday` exactly 1 |
| `DataTable.HolidayOfDate` | src/app/components/DataTable.tsx:42-47 | a date's row is a holiday if and only if some record of the data for that month and day has `IsHoliday` exactly 1 |
| `DataTable.TotalQuantity` | src/app/components/DataTable.tsx:50-53 | the `reduce` of no records is 0; with no negative quantity the total is non-negative and at least every single record's quantity |
| `DataTable.TotalQuantityAppend` | src/app/components/DataTable.tsx:50-53 | the fold from 0 adds up: the total of a concatenation is the sum of the parts' totals |
| `DataTable.FindCategory` | src/app/components/DataTable.tsx:59-61 | `find` returns the first record of the category, or nothing when there is none |
| `DataTable.Cell` | src/app/components/DataTable.tsx:58-69 | a cell is "N/A" if and only if no record of the date has the category; otherwise it is the first such record's quantity |
| `DataTable.CellAppend` | src/app/components/DataTable.tsx:59-61 | a later record only fills a cell that was "N/A"; it never replaces an earlier one |
| `DataTable.Cells` | src/app/components/DataTable.tsx:58-72 | a row has as many cells as there are columns |
| `DataTable.BuildRow` | src/app/components/DataTable.tsx:38-75 | a row keeps its key and has one cell per column. For a key `"${m}/${d}"` its cells and total come from the records of month m and day d, and it is a holiday exactly when one of them has `IsHoliday` 1. A key that does not parse to two numbers gives a row of "N/A" cells, total 0, not a holiday |
| `DataTable.BuildTable` | src/app/components/DataTable.tsx:19-78 | the header is the category columns and there is one row per date key |
| `DataTable.TableRowSpec` | src/app/components/DataTable.tsx:38-75 | row i has key `"${m}/${d}"` for some (m, d) with at least one record. Its holiday flag, total and cells are computed from exactly the records of that month and day, whatever their year. It has one cell per column, in column order |
| `DataTable.RowsForDateDistinctCategories` | src/app/components/DataTable.tsx:42-44 | without a repeated (month, day, category) entry, the records of a date have distinct categories |
| `DataTable.TotalIsCellSum` | src/app/components/DataTable.tsx:50-69 | for records with distinct categories, all among the columns, the total equals the sum of the present cells |
| `DataTable.TableTotalsAreCellSums` | src/app/components/DataTable.tsx:50-69 | without a repeated (month, day, category) entry, every row total equals the sum of that row's present cells |
| `DataTable.RepeatedEntryShowsFirstCountsAll` | src/app/components/DataTable.tsx:50-69 | for two same-category records of 1/1 in different years, the records share one row, the cell shows only the first quantity (10), and the total counts both (15) |
| `LineChartCategory.Categories` | src/app/components/LineChartCategory.tsx:30-32 | `categories` has no duplicates and is exactly the set of categories of the data |
| `LineChartCategory.CategoriesFirstSeenOrder` | src/app/components/LineChartCategory.tsx:30-32 | categories come in first-seen order |
| `LineChartCategory.MonthLabels` | src/app/components/LineChartCategory.tsx:33 | `monthLabels` has no duplicates and is exactly the set of months of the data |
| `LineChartCategory.MonthLabelsFirstSeenOrder` | src/app/components/LineChartCategory.tsx:33 | month labels come in first-seen order |
| `LineChartCategory.CategoryData` | src/app/components/LineChartCategory.tsx:36-38 | every value is the `totalQuantity` of an item of that category, every item of that category gives its value, and there are exactly as many values as items of that category |
| `LineChartCategory.CategoryDataAppend` | src/app/components/LineChartCategory.tsx:36-38 | filter-then-map maps a concatenation to the concatenation of the parts' values, so input order is kept |
| `LineChartCategory.Series` | src/app/components/LineChartCategory.tsx:35-42 | there is one dataset per category |
| `LineChartCategory.BuildChart` | src/app/components/LineChartCategory.tsx:30-42 | the x-axis labels are every month of the data once each, in first-seen order, and the lines are named after every category of the data once each |
| `LineChartCategory.ChartLines` | src/app/components/LineChartCategory.tsx:35-42 | dataset labels have no duplicates and are exactly the data's categories, in first-seen order. Each dataset's data is that category's values |
| `LineChartCategory.SeriesAppendItem` | src/app/components/LineChartCategory.tsx:35-38 | one more item keeps every dataset's label, appends its value to the dataset of its own category and leaves every other dataset's data unchanged |
| `LineChartCategory.SeriesPartition` | src/app/components/LineChartCategory.tsx:35-38 | when the categories are distinct and cover all items, the datasets together hold each item's value exactly once, as a multiset |
| `LineChartCategory.ChartPartitionsData` | src/app/components/LineChartCategory.tsx:30-38 | the chart's datasets hold the multiset of all items' quantities, and their lengths sum to `data.length` |

## Left out

- The page component (`src/app/page.tsx`): the HTTP fetch, React state, loading and error branches and the sample data are I/O and UI plumbing.
- `src/app/components/LineChart.tsx`: it only maps fields into a Chart.js configuration.
- Chart.js construction, `destroy()` and the ref lifecycle in `LineChartCategory`: these belong to a foreign library and the UI lifecycle.
- The random line colours (`Math.random`): nondeterministic and presentational. `Dataset` keeps only the label (`name`) and the data.
- `toFixed(2)`, the JSX markup, CSS classes and React `key` attributes: presentation. Cells are `Option<real>` instead of formatted text.
- The row label `${month}/${day}` of the first column: `ParseDateKeyRoundTrip` shows it equals the row key, so `Row` keeps only the key.
- IEEE-754 rounding: sums are exact `real` sums. The row total is the mathematical sum of the quantities, folded left from 0.
- Non-integer, negative or very large (from 1e21 on, printed in exponent form) months and days: `Month` and `Day` are `nat`.
- JsText.ToNumber: covers digit strings only. Whitespace, signs, decimal points, exponents and hex prefixes, which `Number` also accepts, give `None` there. Keys built from naturals never contain them.
- The `Date` field of a record is carried and never used, as in the component.
- Monthly total and month-by-category rollups and an input-validation step: the components contain no such code. The chart receives `totalQuantity` already computed.
