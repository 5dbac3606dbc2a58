/**
 * The data logic of the `DataTable` component: a date-by-category pivot of the
 * predicted-order records. Columns are the categories, rows are the
 * `"${Month}/${Day}"` date keys (the year is not part of the key), each row
 * carries one cell per column, a total and a holiday flag.
 */
module DataTable {
  import opened Wrappers
  import opened Sequences
  import opened JsText

  /** One record of the prediction feed. */
  datatype DataRow = DataRow(
    category: string,
    date: string,
    day: nat,
    isHoliday: int,
    month: nat,
    predictedOrderQuantity: real,
    year: int)

  /** One rendered table row: its key, a cell per column ("N/A" is `None`), its total and holiday flag. */
  datatype Row = Row(key: string, cells: seq<Option<real>>, total: real, holiday: bool)

  /** The header's category columns and the body's rows. */
  datatype Table = Table(columns: seq<string>, rows: seq<Row>)

  // ---------------------------------------------------------------- columns

  /** `data.map((row) => row.Category)` */
  function CategoryNames(data: seq<DataRow>): seq<string>
  {
    seq(|data|, i requires 0 <= i < |data| => data[i].category)
  }

  /** `uniqueCategories`: every category of the data, once each. */
  function UniqueCategories(data: seq<DataRow>): (columns: seq<string>)
    ensures NoDuplicates(columns)
    ensures forall c :: c in columns <==> exists i :: 0 <= i < |data| && data[i].category == c
  {
    var cs := CategoryNames(data);
    assert forall i :: 0 <= i < |data| ==> cs[i] == data[i].category;
    Distinct(cs)
  }

  /** The columns come in the order in which their category is first seen in the data. */
  lemma UniqueCategoriesFirstSeenOrder(data: seq<DataRow>, i: nat, j: nat)
    requires i < j < |UniqueCategories(data)|
    ensures var columns := UniqueCategories(data);
      IndexOf(CategoryNames(data), columns[i]) < IndexOf(CategoryNames(data), columns[j])
  {
    DistinctFirstSeenOrder(CategoryNames(data), i, j);
  }

  // ---------------------------------------------------------------- row keys

  /**
   * The template literal `${month}/${day}`: a run of digits, one `/` right after
   * the month's digits, and a run of digits.
   */
  function DateKey(month: nat, day: nat): (key: string)
    ensures var p := |NatToString(month)|;
      && 0 < p < |key| - 1
      && key[p] == '/'
      && forall i :: 0 <= i < |key| && i != p ==> IsDigit(key[i])
  {
    var m, d := NatToString(month), NatToString(day);
    var key := m + "/" + d;
    assert forall i :: 0 <= i < |m| ==> key[i] == m[i];
    assert forall i :: |m| < i < |key| ==> key[i] == d[i - |m| - 1];
    key
  }

  function DateKeyOf(row: DataRow): string
  {
    DateKey(row.month, row.day)
  }

  /** `data.map((row) => `${row.Month}/${row.Day}`)` */
  function DateKeys(data: seq<DataRow>): seq<string>
  {
    seq(|data|, i requires 0 <= i < |data| => DateKeyOf(data[i]))
  }

  /** `uniqueDates`: the date key of every record, once each. */
  function UniqueDates(data: seq<DataRow>): (keys: seq<string>)
    ensures NoDuplicates(keys)
    ensures forall k :: k in keys <==> exists i :: 0 <= i < |data| && DateKeyOf(data[i]) == k
  {
    var ks := DateKeys(data);
    assert forall i :: 0 <= i < |data| ==> ks[i] == DateKeyOf(data[i]);
    Distinct(ks)
  }

  /** The row keys come in the order in which their date is first seen in the data. */
  lemma UniqueDatesFirstSeenOrder(data: seq<DataRow>, i: nat, j: nat)
    requires i < j < |UniqueDates(data)|
    ensures var keys := UniqueDates(data);
      IndexOf(DateKeys(data), keys[i]) < IndexOf(DateKeys(data), keys[j])
  {
    DistinctFirstSeenOrder(DateKeys(data), i, j);
  }

  /** `date.split("/").map(Number)`, destructured as `[month, day]`; a missing piece is `undefined`, i.e. NaN. */
  function ParseDateKey(key: string): (parsed: (Option<nat>, Option<nat>))
    ensures '/' !in key ==> parsed == (ToNumber(key), None)
    ensures forall p, q :: FirstTwoSeparators(key, '/', p, q) ==>
      parsed == (ToNumber(key[..p]), ToNumber(key[p + 1..q]))
  {
    SplitFirstTwoPieces(key, '/');
    var parts := Split(key, '/');
    (ToNumber(parts[0]), if |parts| > 1 then ToNumber(parts[1]) else None)
  }

  /** Parsing a date key gives back the month and the day it was made of. */
  lemma {:induction false} ParseDateKeyRoundTrip(month: nat, day: nat)
    ensures ParseDateKey(DateKey(month, day)) == (Some(month), Some(day))
  {
    var m, d := NatToString(month), NatToString(day);
    assert '/' !in m && '/' !in d by {
      assert !IsDigit('/');
    }
    assert DateKey(month, day) == m + ['/'] + d;
    SplitAroundSeparator(m, d, '/');
    ToNumberOfNatToString(month);
    ToNumberOfNatToString(day);
  }

  /** Two dates share a key exactly when they agree on month and day; the year plays no part. */
  lemma DateKeyInjective(month: nat, day: nat, month': nat, day': nat)
    ensures DateKey(month, day) == DateKey(month', day') <==> month == month' && day == day'
  {
    if DateKey(month, day) == DateKey(month', day') {
      ParseDateKeyRoundTrip(month, day);
      ParseDateKeyRoundTrip(month', day');
    }
  }

  /** One key per distinct (month, day) pair of the data, and none for any other pair. */
  lemma UniqueDatesPerMonthDay(data: seq<DataRow>, month: nat, day: nat)
    ensures DateKey(month, day) in UniqueDates(data) <==>
      exists i :: 0 <= i < |data| && data[i].month == month && data[i].day == day
  {
    if DateKey(month, day) in UniqueDates(data) {
      var i :| 0 <= i < |data| && DateKeyOf(data[i]) == DateKey(month, day);
      DateKeyInjective(data[i].month, data[i].day, month, day);
    }
  }

  // ---------------------------------------------------------------- one row

  /**
   * `row.Month === month && row.Day === day`. NaN equals nothing; for parsed
   * numbers, the record matches exactly when its own date key is theirs.
   */
  predicate OnDate(row: DataRow, month: Option<nat>, day: Option<nat>): (matches: bool)
    ensures month.None? || day.None? ==> !matches
    ensures month.Some? && day.Some? ==> (matches <==> DateKeyOf(row) == DateKey(month.value, day.value))
  {
    if month.Some? && day.Some? then
      DateKeyInjective(row.month, row.day, month.value, day.value);
      month.value == row.month && day.value == row.day
    else false
  }

  /** `rowsForDate`: `data.filter(...)` on the parsed month and day. */
  function RowsForDate(data: seq<DataRow>, month: Option<nat>, day: Option<nat>): (rows: seq<DataRow>)
    ensures |rows| <= |data|
    ensures forall r :: r in rows <==> r in data && OnDate(r, month, day)
  {
    if |data| == 0 then []
    else
      var last := data[|data| - 1];
      assert data == data[..|data| - 1] + [last];
      RowsForDate(data[..|data| - 1], month, day) + (if OnDate(last, month, day) then [last] else [])
  }

  /** The filter on one more record. */
  lemma RowsForDateLast(data: seq<DataRow>, x: DataRow, month: Option<nat>, day: Option<nat>)
    ensures RowsForDate(data + [x], month, day) ==
      RowsForDate(data, month, day) + (if OnDate(x, month, day) then [x] else [])
  {
    assert (data + [x])[..|data|] == data;
  }

  /** Filtering a concatenation filters each part and keeps them in order. */
  lemma {:induction false} RowsForDateAppend(a: seq<DataRow>, b: seq<DataRow>, month: Option<nat>, day: Option<nat>)
    ensures RowsForDate(a + b, month, day) == RowsForDate(a, month, day) + RowsForDate(b, month, day)
    decreases |b|
  {
    if |b| == 0 {
      assert a + b == a;
    } else {
      var b', x := b[..|b| - 1], b[|b| - 1];
      var ab' := a + b';
      assert b == b' + [x];
      assert a + b == ab' + [x];
      RowsForDateLast(ab', x, month, day);
      RowsForDateLast(b', x, month, day);
      RowsForDateAppend(a, b', month, day);
      var front, back, tail := RowsForDate(a, month, day), RowsForDate(b', month, day),
        (if OnDate(x, month, day) then [x] else []);
      AppendAssociative(front, back, tail);
    }
  }

  /** `isHoliday`: `rowsForDate.some((row) => row.IsHoliday === 1)`. */
  function IsHoliday(rows: seq<DataRow>): (holiday: bool)
    ensures holiday <==> exists i :: 0 <= i < |rows| && rows[i].isHoliday == 1
  {
    if |rows| == 0 then false
    else if rows[0].isHoliday == 1 then true
    else
      assert forall i :: 1 <= i < |rows| ==> rows[i] == rows[1..][i - 1];
      IsHoliday(rows[1..])
  }

  /**
   * `totalOrderQuantity`: the `reduce` that adds up the quantities from 0, left
   * to right. With no negative quantity it is at least every single quantity.
   */
  function TotalQuantity(rows: seq<DataRow>): (total: real)
    ensures |rows| == 0 ==> total == 0.0
    ensures (forall i :: 0 <= i < |rows| ==> rows[i].predictedOrderQuantity >= 0.0) ==>
      total >= 0.0 && forall i :: 0 <= i < |rows| ==> rows[i].predictedOrderQuantity <= total
  {
    if |rows| == 0 then 0.0
    else
      var front := rows[..|rows| - 1];
      assert forall i :: 0 <= i < |front| ==> front[i] == rows[i];
      TotalQuantity(front) + rows[|rows| - 1].predictedOrderQuantity
  }

  /** The total of a concatenation is the sum of the totals of its parts. */
  lemma {:induction false} TotalQuantityAppend(a: seq<DataRow>, b: seq<DataRow>)
    ensures TotalQuantity(a + b) == TotalQuantity(a) + TotalQuantity(b)
    decreases |b|
  {
    if |b| == 0 {
      assert a + b == a;
    } else {
      var b' := b[..|b| - 1];
      assert (a + b)[..|a + b| - 1] == a + b';
      TotalQuantityAppend(a, b');
    }
  }

  /** The position of the record that `rows.find((row) => row.Category === category)` returns. */
  function FindCategory(rows: seq<DataRow>, category: string): (k: Option<nat>)
    ensures k.Some? ==> k.value < |rows| && rows[k.value].category == category
    ensures k.Some? ==> forall j :: 0 <= j < k.value ==> rows[j].category != category
    ensures k.None? ==> forall j :: 0 <= j < |rows| ==> rows[j].category != category
  {
    if |rows| == 0 then None
    else if rows[0].category == category then Some(0)
    else
      match FindCategory(rows[1..], category)
      case None => None
      case Some(k) => Some(k + 1)
  }

  /** One cell: the quantity of the first record of the category, or "N/A". */
  function Cell(rows: seq<DataRow>, category: string): (v: Option<real>)
    ensures v.None? <==> forall j :: 0 <= j < |rows| ==> rows[j].category != category
    ensures v.Some? ==> exists k ::
              && 0 <= k < |rows| && rows[k].category == category
              && v.value == rows[k].predictedOrderQuantity
              && forall j :: 0 <= j < k ==> rows[j].category != category
  {
    match FindCategory(rows, category)
    case None => None
    case Some(k) => Some(rows[k].predictedOrderQuantity)
  }

  /** `uniqueCategories.map(...)`: the cells of one row, in column order. */
  function Cells(rows: seq<DataRow>, columns: seq<string>): (cells: seq<Option<real>>)
    ensures |cells| == |columns|
  {
    seq(|columns|, i requires 0 <= i < |columns| => Cell(rows, columns[i]))
  }

  /**
   * The rendered row for one key of `uniqueDates`. For a key `"${m}/${d}"` it is
   * built from the records of that month and day; a key that does not parse to
   * two numbers matches no record.
   */
  function BuildRow(data: seq<DataRow>, columns: seq<string>, key: string): (row: Row)
    ensures row.key == key && |row.cells| == |columns|
    ensures forall m: nat, d: nat :: key == DateKey(m, d) ==>
      var rows := RowsForDate(data, Some(m), Some(d));
      && row.cells == Cells(rows, columns)
      && row.total == TotalQuantity(rows)
      && (row.holiday <==> HolidayRecord(data, m, d))
    ensures ParseDateKey(key).0.None? || ParseDateKey(key).1.None? ==>
      row.total == 0.0 && !row.holiday && forall k :: 0 <= k < |columns| ==> row.cells[k].None?
  {
    var (month, day) := ParseDateKey(key);
    var rows := RowsForDate(data, month, day);
    assert forall m: nat, d: nat :: key == DateKey(m, d) ==> month == Some(m) && day == Some(d) by {
      forall m: nat, d: nat | key == DateKey(m, d)
        ensures month == Some(m) && day == Some(d)
      {
        ParseDateKeyRoundTrip(m, d);
      }
    }
    assert forall m: nat, d: nat :: key == DateKey(m, d) ==> (IsHoliday(rows) <==> HolidayRecord(data, m, d)) by {
      forall m: nat, d: nat | key == DateKey(m, d)
        ensures IsHoliday(rows) <==> HolidayRecord(data, m, d)
      {
        HolidayOfDate(data, m, d);
      }
    }
    assert month.None? || day.None? ==> rows == [] by {
      if |rows| > 0 {
        assert rows[0] in rows;
      }
    }
    Row(key, Cells(rows, columns), TotalQuantity(rows), IsHoliday(rows))
  }

  /** The whole table: its header columns and one row per date key. */
  function BuildTable(data: seq<DataRow>): (t: Table)
    ensures t.columns == UniqueCategories(data)
    ensures |t.rows| == |UniqueDates(data)|
  {
    var columns := UniqueCategories(data);
    var keys := UniqueDates(data);
    Table(columns, seq(|keys|, i requires 0 <= i < |keys| => BuildRow(data, columns, keys[i])))
  }

  // ---------------------------------------------------------------- what a row says

  /** Some record of the data for that month and day has `IsHoliday` equal to 1. */
  ghost predicate HolidayRecord(data: seq<DataRow>, month: nat, day: nat)
  {
    exists j :: 0 <= j < |data| && data[j].month == month && data[j].day == day && data[j].isHoliday == 1
  }

  lemma HolidayRowHasHolidayRecord(data: seq<DataRow>, month: nat, day: nat)
    requires IsHoliday(RowsForDate(data, Some(month), Some(day)))
    ensures HolidayRecord(data, month, day)
  {
    var rows := RowsForDate(data, Some(month), Some(day));
    var h :| 0 <= h < |rows| && rows[h].isHoliday == 1;
    assert rows[h] in data && OnDate(rows[h], Some(month), Some(day));
    var j :| 0 <= j < |data| && data[j] == rows[h];
    assert data[j].month == month && data[j].day == day && data[j].isHoliday == 1;
  }

  lemma HolidayRecordMakesHolidayRow(data: seq<DataRow>, month: nat, day: nat)
    requires HolidayRecord(data, month, day)
    ensures IsHoliday(RowsForDate(data, Some(month), Some(day)))
  {
    var rows := RowsForDate(data, Some(month), Some(day));
    var j :| 0 <= j < |data| && data[j].month == month && data[j].day == day && data[j].isHoliday == 1;
    assert data[j] in rows;
    var h :| 0 <= h < |rows| && rows[h] == data[j];
    assert rows[h].isHoliday == 1;
  }

  /** A date's row is a holiday exactly when one of the data's records for that date has `IsHoliday` equal to 1. */
  lemma HolidayOfDate(data: seq<DataRow>, month: nat, day: nat)
    ensures IsHoliday(RowsForDate(data, Some(month), Some(day))) <==> HolidayRecord(data, month, day)
  {
    if IsHoliday(RowsForDate(data, Some(month), Some(day))) {
      HolidayRowHasHolidayRecord(data, month, day);
    }
    if HolidayRecord(data, month, day) {
      HolidayRecordMakesHolidayRow(data, month, day);
    }
  }

  /** What the body renders for the `i`-th key: the records of its (month, day), whatever their year. */
  lemma TableRowSpec(data: seq<DataRow>, i: nat) returns (month: nat, day: nat)
    requires i < |UniqueDates(data)|
    ensures var t := BuildTable(data);
      var rows := RowsForDate(data, Some(month), Some(day));
      && t.rows[i].key == UniqueDates(data)[i] == DateKey(month, day)
      && |rows| > 0
      && (t.rows[i].holiday <==> HolidayRecord(data, month, day))
      && t.rows[i].total == TotalQuantity(rows)
      && |t.rows[i].cells| == |t.columns|
      && forall k :: 0 <= k < |t.columns| ==> t.rows[i].cells[k] == Cell(rows, t.columns[k])
  {
    var columns, keys := UniqueCategories(data), UniqueDates(data);
    var j :| 0 <= j < |data| && DateKeyOf(data[j]) == keys[i];
    month, day := data[j].month, data[j].day;
    var rows := RowsForDate(data, Some(month), Some(day));
    TableRowOfKey(data, i);
    RowOfDate(data, columns, month, day);
    assert OnDate(data[j], Some(month), Some(day)) && data[j] in data;
    assert data[j] in rows;
    var row := BuildRow(data, columns, DateKey(month, day));
    forall k | 0 <= k < |columns|
      ensures row.cells[k] == Cell(rows, columns[k])
    {
    }
  }

  /** The row for the key `"${month}/${day}"`, read through the key's parse. */
  lemma RowOfDate(data: seq<DataRow>, columns: seq<string>, month: nat, day: nat)
    ensures var row, rows := BuildRow(data, columns, DateKey(month, day)), RowsForDate(data, Some(month), Some(day));
      && row.cells == Cells(rows, columns)
      && row.total == TotalQuantity(rows)
      && (row.holiday <==> HolidayRecord(data, month, day))
  {
  }

  lemma TableRowOfKey(data: seq<DataRow>, i: nat)
    requires i < |UniqueDates(data)|
    ensures BuildTable(data).rows[i] == BuildRow(data, UniqueCategories(data), UniqueDates(data)[i])
  {
  }

  /** No two records share month, day and category (different years included). */
  ghost predicate NoRepeatedEntry(data: seq<DataRow>)
  {
    forall i, j :: 0 <= i < j < |data| ==>
      !(data[i].month == data[j].month && data[i].day == data[j].day && data[i].category == data[j].category)
  }

  /** No two records share a category. */
  ghost predicate DistinctCategories(rows: seq<DataRow>)
  {
    forall i, j :: 0 <= i < j < |rows| ==> rows[i].category != rows[j].category
  }

  /** The value a cell contributes to a sum: its quantity, or nothing for "N/A". */
  function Amount(v: Option<real>): real
  {
    match v
    case None => 0.0
    case Some(q) => q
  }

  /** The sum of the cells that are present, from the left. */
  function SumPresent(cells: seq<Option<real>>): real
  {
    if |cells| == 0 then 0.0 else SumPresent(cells[..|cells| - 1]) + Amount(cells[|cells| - 1])
  }

  /** `find` keeps the first match: a later record only fills a cell that was "N/A". */
  lemma CellAppend(rows: seq<DataRow>, x: DataRow, category: string)
    ensures Cell(rows + [x], category) ==
      if Cell(rows, category).Some? then Cell(rows, category)
      else if x.category == category then Some(x.predictedOrderQuantity)
      else None
  {
    var rs := rows + [x];
    assert forall j :: 0 <= j < |rows| ==> rs[j] == rows[j];
    match FindCategory(rows, category)
    case Some(k) =>
      var k' := FindCategory(rs, category);
      assert rs[k] == rows[k];
    case None =>
      var k' := FindCategory(rs, category);
      assert rs[|rows|] == x;
      if k'.Some? {
        assert k'.value == |rows|;
      }
  }

  lemma CellsPrefix(rows: seq<DataRow>, columns: seq<string>)
    requires |columns| > 0
    ensures SumPresent(Cells(rows, columns)) ==
      SumPresent(Cells(rows, columns[..|columns| - 1])) + Amount(Cell(rows, columns[|columns| - 1]))
  {
    assert Cells(rows, columns)[..|columns| - 1] == Cells(rows, columns[..|columns| - 1]);
  }

  /** A date without records renders "N/A" everywhere. */
  lemma {:induction false} CellsOfNoRows(columns: seq<string>)
    ensures SumPresent(Cells([], columns)) == 0.0
    decreases |columns|
  {
    if |columns| > 0 {
      CellsPrefix([], columns);
      CellsOfNoRows(columns[..|columns| - 1]);
    }
  }

  /** A record whose category is new to the row adds its quantity to the one column of that category. */
  lemma {:induction false} CellSumAppend(rows: seq<DataRow>, x: DataRow, columns: seq<string>)
    requires NoDuplicates(columns)
    requires forall j :: 0 <= j < |rows| ==> rows[j].category != x.category
    ensures SumPresent(Cells(rows + [x], columns)) ==
      SumPresent(Cells(rows, columns)) + (if x.category in columns then x.predictedOrderQuantity else 0.0)
    decreases |columns|
  {
    if |columns| > 0 {
      var n := |columns|;
      var front, c := columns[..n - 1], columns[n - 1];
      assert columns == front + [c];
      CellsPrefix(rows, columns);
      CellsPrefix(rows + [x], columns);
      CellSumAppend(rows, x, front);
      CellAppend(rows, x, c);
      if c == x.category {
        assert x.category !in front;
      }
    }
  }

  /** With distinct categories, all covered by the columns, the row total is the sum of the present cells. */
  lemma {:induction false} TotalIsCellSum(rows: seq<DataRow>, columns: seq<string>)
    requires NoDuplicates(columns)
    requires DistinctCategories(rows)
    requires forall j :: 0 <= j < |rows| ==> rows[j].category in columns
    ensures SumPresent(Cells(rows, columns)) == TotalQuantity(rows)
    decreases |rows|
  {
    if |rows| == 0 {
      CellsOfNoRows(columns);
    } else {
      var n := |rows|;
      var front, x := rows[..n - 1], rows[n - 1];
      assert rows == front + [x];
      TotalIsCellSum(front, columns);
      CellSumAppend(front, x, columns);
    }
  }

  /** Without a repeated (month, day, category) entry, the records of one date have distinct categories. */
  lemma {:induction false} RowsForDateDistinctCategories(data: seq<DataRow>, month: Option<nat>, day: Option<nat>)
    requires NoRepeatedEntry(data)
    ensures DistinctCategories(RowsForDate(data, month, day))
    decreases |data|
  {
    if |data| > 0 {
      var n := |data|;
      var front, x := data[..n - 1], data[n - 1];
      assert NoRepeatedEntry(front);
      RowsForDateDistinctCategories(front, month, day);
      assert data == front + [x];
      RowsForDateLast(front, x, month, day);
      if OnDate(x, month, day) {
        LastEntryHasNewCategory(front, x, month, day);
        DistinctCategoriesAppend(RowsForDate(front, month, day), x);
      }
    }
  }

  lemma DistinctCategoriesAppend(rows: seq<DataRow>, x: DataRow)
    requires DistinctCategories(rows)
    requires forall j :: 0 <= j < |rows| ==> rows[j].category != x.category
    ensures DistinctCategories(rows + [x])
  {
  }

  /** A record appended to a date differs in category from the earlier records of that date. */
  lemma LastEntryHasNewCategory(front: seq<DataRow>, x: DataRow, month: Option<nat>, day: Option<nat>)
    requires NoRepeatedEntry(front + [x]) && OnDate(x, month, day)
    ensures forall j :: 0 <= j < |RowsForDate(front, month, day)| ==>
      RowsForDate(front, month, day)[j].category != x.category
  {
    var data := front + [x];
    var rs := RowsForDate(front, month, day);
    forall j | 0 <= j < |rs|
      ensures rs[j].category != x.category
    {
      assert rs[j] in front && OnDate(rs[j], month, day);
      var p :| 0 <= p < |front| && front[p] == rs[j];
      assert data[p] == rs[j] && data[|front|] == x;
    }
  }

  /** Without repeated entries every row total is the sum of that row's present cells. */
  lemma TableTotalsAreCellSums(data: seq<DataRow>)
    requires NoRepeatedEntry(data)
    ensures var t := BuildTable(data);
      forall i :: 0 <= i < |t.rows| ==> SumPresent(t.rows[i].cells) == t.rows[i].total
  {
    var t, columns, keys := BuildTable(data), UniqueCategories(data), UniqueDates(data);
    forall i | 0 <= i < |t.rows|
      ensures SumPresent(t.rows[i].cells) == t.rows[i].total
    {
      var (month, day) := ParseDateKey(keys[i]);
      var rows := RowsForDate(data, month, day);
      RowsForDateDistinctCategories(data, month, day);
      forall j | 0 <= j < |rows|
        ensures rows[j].category in columns
      {
        assert rows[j] in data;
      }
      TotalIsCellSum(rows, columns);
    }
  }

  // ---------------------------------------------------------------- examples

  /** The records of the example below: one date, one category, two years. */
  function RepeatedEntryData(): seq<DataRow>
  {
    [DataRow("A", "", 1, 0, 1, 10.0, 2024), DataRow("A", "", 1, 0, 1, 5.0, 2025)]
  }

  lemma RepeatedEntryColumns()
    ensures UniqueCategories(RepeatedEntryData()) == ["A"]
  {
    var data := RepeatedEntryData();
    assert CategoryNames(data) == ["A", "A"];
    assert CategoryNames(data)[..1] == ["A"] && ["A"][..0] == [];
  }

  lemma NewYearKey()
    ensures DateKey(1, 1) == "1/1"
    ensures ParseDateKey("1/1") == (Some(1), Some(1))
  {
    assert NatToString(1) == "1";
    assert DateKey(1, 1) == "1/1";
    ParseDateKeyRoundTrip(1, 1);
  }

  lemma RepeatedEntryKeys()
    ensures UniqueDates(RepeatedEntryData()) == ["1/1"]
  {
    var data := RepeatedEntryData();
    NewYearKey();
    assert DateKeys(data) == ["1/1", "1/1"];
    assert DateKeys(data)[..1] == ["1/1"] && ["1/1"][..0] == [];
  }

  lemma RepeatedEntryRows()
    ensures RowsForDate(RepeatedEntryData(), Some(1), Some(1)) == RepeatedEntryData()
    ensures TotalQuantity(RepeatedEntryData()) == 15.0
  {
    var data := RepeatedEntryData();
    assert data[..1][..0] == [];
    assert RowsForDate(data[..1], Some(1), Some(1)) == data[..1];
    assert TotalQuantity(data[..1]) == 10.0;
  }

  /**
   * Two records for 1/1 of the same category, in different years: they share
   * one row, the cell shows only the first, and the total counts both.
   */
  lemma RepeatedEntryRow()
    ensures BuildRow(RepeatedEntryData(), ["A"], "1/1") == Row("1/1", [Some(10.0)], 15.0, false)
  {
    var data := RepeatedEntryData();
    RepeatedEntryRows();
    NewYearKey();
    assert Cell(data, "A") == Some(10.0);
    assert Cells(data, ["A"]) == [Some(10.0)];
  }

  lemma RepeatedEntryShowsFirstCountsAll()
    ensures var t := BuildTable(RepeatedEntryData());
      && t.columns == ["A"]
      && |t.rows| == 1
      && t.rows[0].cells == [Some(10.0)]
      && t.rows[0].total == 15.0
      && SumPresent(t.rows[0].cells) == 10.0
  {
    var data := RepeatedEntryData();
    RepeatedEntryColumns();
    RepeatedEntryKeys();
    RepeatedEntryRow();
    assert BuildTable(data).rows[0] == BuildRow(data, ["A"], "1/1");
    assert [Some(10.0)][..0] == [];
  }
}
