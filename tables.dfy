/** Year tables and the selection of a date window's rates from them
    (parse_csv_between, parse_csv_year and ROW_MAP in salaries.rb). */
module Tables {
  import opened Outcomes
  import opened NbpDates
  import Cells

  /** The column that holds each row's date key. */
  const DateColumn: string := "data"

  /** One row of a year table: column header to cell text (a missing key is a nil cell). */
  datatype Row = Row(cells: map<string, string>)

  /** One year's table, in the order the bank lists its rows. */
  type YearTable = seq<Row>

  /** The array of keys that parse_csv_year tests each row's date against. */
  datatype KeyRange =
    | Window(after: Date, until: Date)  // (after_date..until_date).map(date_as_nbp)
    | Keys(keys: seq<string>)           // an explicit list, as latest_data_available? passes

  /** The row's date key is one of the keys the range lists. */
  predicate Includes(range: KeyRange, row: Row) {
    DateColumn in row.cells &&
    match range
    case Window(after, until) => InWindow(row.cells[DateColumn], after, until)
    case Keys(keys) => row.cells[DateColumn] in keys
  }

  /** The rows of the table whose date key the range includes, in table order. */
  function Select(table: YearTable, range: KeyRange): (selected: YearTable)
    ensures |selected| <= |table|
    ensures forall row :: row in selected <==> row in table && Includes(range, row)
  {
    if table == [] then []
    else (if Includes(range, table[0]) then [table[0]] else []) + Select(table[1..], range)
  }

  /** Selecting from two runs of rows one after the other selects from each run in turn: the
      kept rows stay in table order, and none is dropped or repeated. */
  lemma {:induction false} SelectAppend(a: YearTable, b: YearTable, range: KeyRange)
    ensures Select(a + b, range) == Select(a, range) + Select(b, range)
  {
    if a == [] {
      assert a + b == b;
    } else {
      assert (a + b)[0] == a[0] && (a + b)[1..] == a[1..] + b;
      SelectAppend(a[1..], b, range);
    }
  }

  predicate IsSupported(currency: string) {
    currency == "USD" || currency == "EUR"
  }

  /** ROW_MAP[currency]: the column holding the currency's rate, nil for any other code. */
  function RowMap(currency: string): (column: Option<string>)
    ensures column.Some? <==> IsSupported(currency)
  {
    if currency == "EUR" then Some("1EUR")
    else if currency == "USD" then Some("1USD")
    else None
  }

  /** The row's cell in `column`; an unknown currency column or an absent header give none. */
  function CellOf(row: Row, column: Option<string>): Option<string> {
    if column.Some? && column.value in row.cells then Some(row.cells[column.value]) else None
  }

  /** The row's cell in `column` is present and reads as a rate. */
  predicate CellParses(row: Row, column: Option<string>) {
    CellOf(row, column).Some? && Cells.ParseCell(CellOf(row, column).value).Ok?
  }

  /** The rate read from a row whose cell parses. */
  function CellRate(row: Row, column: Option<string>): real
    requires CellParses(row, column)
  {
    Cells.ParseCell(CellOf(row, column).value).value
  }

  /** Rates of two runs read one after the other: the first failure, else both runs' rates. */
  function Joined(x: Outcome<seq<real>>, y: Outcome<seq<real>>): Outcome<seq<real>> {
    match x
    case Fail(e) => Fail(e)
    case Ok(xs) => (match y case Fail(e) => Fail(e) case Ok(ys) => Ok(xs + ys))
  }

  lemma JoinedAssociative(x: Outcome<seq<real>>, y: Outcome<seq<real>>, z: Outcome<seq<real>>)
    ensures Joined(Joined(x, y), z) == Joined(x, Joined(y, z))
  {
    if x.Ok? && y.Ok? && z.Ok? {
      assert (x.value + y.value) + z.value == x.value + (y.value + z.value);
    }
  }

  /** One row's block body: its cell in `column`, which must be present and readable. */
  function CellRead(row: Row, column: Option<string>): (r: Outcome<seq<real>>)
    ensures r.Ok? <==> CellParses(row, column)
    ensures r.Ok? ==> r.value == [CellRate(row, column)]
    ensures r.Fail? ==> r.error == MissingCell || r.error == MalformedCell
  {
    match CellOf(row, column)
    case None => Fail(MissingCell)
    case Some(cell) =>
      match Cells.ParseCell(cell)
      case Fail(e) => Fail(e)
      case Ok(rate) => Ok([rate])
  }

  /** The `map` over the selected rows: one rate per row, in row order; the first row whose
      cell is nil or unreadable stops it. */
  function CellRates(rows: seq<Row>, column: Option<string>): (r: Outcome<seq<real>>)
    ensures r.Ok? ==> |r.value| == |rows|
    ensures r.Fail? ==> r.error == MissingCell || r.error == MalformedCell
  {
    if rows == [] then Ok([]) else Joined(CellRead(rows[0], column), CellRates(rows[1..], column))
  }

  /** The rates are read exactly when every selected row's cell reads, and then the i-th rate
      is the i-th row's cell. */
  lemma {:induction false} CellRatesOneToOne(rows: seq<Row>, column: Option<string>)
    ensures CellRates(rows, column).Ok? <==> forall i | 0 <= i < |rows| :: CellParses(rows[i], column)
    ensures CellRates(rows, column).Ok? ==> forall i | 0 <= i < |rows| ::
      CellParses(rows[i], column) && CellRates(rows, column).value[i] == CellRate(rows[i], column)
  {
    if rows != [] {
      CellRatesOneToOne(rows[1..], column);
      if CellParses(rows[0], column) && CellRates(rows[1..], column).Ok? {
        var rest := CellRates(rows[1..], column).value;
        assert CellRates(rows, column).value == [CellRate(rows[0], column)] + rest;
        forall i | 0 <= i < |rows|
          ensures CellParses(rows[i], column) && CellRates(rows, column).value[i] == CellRate(rows[i], column)
        {
          if i > 0 {
            assert rows[i] == rows[1..][i - 1];
          }
        }
      }
      if forall i | 0 <= i < |rows| :: CellParses(rows[i], column) {
        assert CellParses(rows[0], column);
        forall i | 0 <= i < |rows| - 1 ensures CellParses(rows[1..][i], column) {
          assert rows[1..][i] == rows[i + 1];
        }
      }
    }
  }

  /** Reading two runs of rows one after the other is reading their concatenation: the first
      failure wins, otherwise the rates are concatenated. */
  lemma {:induction false} CellRatesAppend(a: seq<Row>, b: seq<Row>, column: Option<string>)
    ensures CellRates(a + b, column) == Joined(CellRates(a, column), CellRates(b, column))
  {
    if a == [] {
      assert a + b == b;
      if CellRates(b, column).Ok? {
        assert [] + CellRates(b, column).value == CellRates(b, column).value;
      }
    } else {
      assert (a + b)[0] == a[0] && (a + b)[1..] == a[1..] + b;
      CellRatesAppend(a[1..], b, column);
      JoinedAssociative(CellRead(a[0], column), CellRates(a[1..], column), CellRates(b, column));
    }
  }

  /** parse_csv_year: the rates of `year`'s cached table on the rows whose date key is in
      `range`; reading a year that was never cached raises. */
  function ParseCsvYear(tables: map<int, YearTable>, range: KeyRange, year: int, currency: string): (r: Outcome<seq<real>>)
    ensures year !in tables ==> r == Fail(MissingTable(year))
    ensures year in tables ==>
      (r.Ok? <==> forall row | row in Select(tables[year], range) :: CellParses(row, RowMap(currency)))
    ensures year in tables && r.Ok? ==> var rows := Select(tables[year], range);
      |r.value| == |rows| &&
      forall i | 0 <= i < |rows| :: CellParses(rows[i], RowMap(currency)) && r.value[i] == CellRate(rows[i], RowMap(currency))
    ensures year in tables && r.Fail? ==> r.error == MissingCell || r.error == MalformedCell
  {
    if year !in tables then Fail(MissingTable(year))
    else
      var rows := Select(tables[year], range);
      CellRatesOneToOne(rows, RowMap(currency));
      CellRates(rows, RowMap(currency))
  }

  /** The years whose tables a window reads, oldest first: the start's year only when it
      differs from the end's, then always the end's year. */
  function TouchedYears(after: Date, until: Date): (years: seq<int>)
    ensures |years| == if after.year == until.year then 1 else 2
    ensures years[|years| - 1] == until.year && years[0] == after.year
  {
    if after.year != until.year then [after.year, until.year] else [until.year]
  }

  predicate AllCached(tables: map<int, YearTable>, years: seq<int>) {
    forall y | y in years :: y in tables
  }

  /** The rows a window selects: the older year's matches, then the later year's. */
  function WindowRows(tables: map<int, YearTable>, after: Date, until: Date): (rows: seq<Row>)
    requires AllCached(tables, TouchedYears(after, until))
    ensures forall row :: row in rows <==>
      Includes(Window(after, until), row) && exists y :: y in TouchedYears(after, until) && row in tables[y]
  {
    var range := Window(after, until);
    (if after.year != until.year then Select(tables[after.year], range) else []) + Select(tables[until.year], range)
  }

  /** parse_csv_between: the window's rates, one per selected row and in the same order. */
  function WindowRates(tables: map<int, YearTable>, after: Date, until: Date, currency: string): Outcome<seq<real>>
  {
    var range := Window(after, until);
    if after.year != until.year then
      Joined(ParseCsvYear(tables, range, after.year, currency), ParseCsvYear(tables, range, until.year, currency))
    else ParseCsvYear(tables, range, until.year, currency)
  }

  /** Reading the two years one after the other is reading the window's rows in one run; an
      uncached year among those the window touches makes the read fail. */
  lemma WindowRatesReadWindowRows(tables: map<int, YearTable>, after: Date, until: Date, currency: string)
    ensures AllCached(tables, TouchedYears(after, until)) ==>
      WindowRates(tables, after, until, currency) == CellRates(WindowRows(tables, after, until), RowMap(currency))
    ensures after.year != until.year && after.year !in tables ==>
      WindowRates(tables, after, until, currency) == Fail(MissingTable(after.year))
    ensures !AllCached(tables, TouchedYears(after, until)) ==> WindowRates(tables, after, until, currency).Fail?
  {
    if AllCached(tables, TouchedYears(after, until)) {
      var range := Window(after, until);
      if after.year != until.year {
        CellRatesAppend(Select(tables[after.year], range), Select(tables[until.year], range), RowMap(currency));
      } else {
        assert until.year in TouchedYears(after, until);
        assert WindowRows(tables, after, until) == Select(tables[until.year], range);
      }
    }
  }

  /** The day a row is keyed by: its "data" cell read as a date key. */
  function RowDate(row: Row): Option<Date> {
    if DateColumn in row.cells then NbpDate(row.cells[DateColumn]) else None
  }

  /** Every row of the table is keyed by a day of `year`. */
  predicate InYear(table: YearTable, year: int) {
    forall row | row in table :: RowDate(row).Some? && RowDate(row).value.year == year
  }

  predicate Dated(rows: seq<Row>) {
    forall i | 0 <= i < |rows| :: RowDate(rows[i]).Some?
  }

  /** Every row is dated and the dates strictly increase down the sequence. */
  predicate Chronological(rows: seq<Row>) {
    Dated(rows) &&
    forall i, j | 0 <= i < j < |rows| :: Before(RowDate(rows[i]).value, RowDate(rows[j]).value)
  }

  /** A row the window selects is keyed by a day of the window. */
  lemma WindowRowDate(row: Row, after: Date, until: Date)
    requires Includes(Window(after, until), row)
    ensures RowDate(row).Some? && NotAfter(after, RowDate(row).value) && NotAfter(RowDate(row).value, until)
  {
  }

  /** Both rows are dated and the first is the earlier day. */
  predicate RowBefore(x: Row, y: Row) {
    RowDate(x).Some? && RowDate(y).Some? && Before(RowDate(x).value, RowDate(y).value)
  }

  lemma ChronologicalTail(rows: seq<Row>)
    requires Chronological(rows) && rows != []
    ensures Chronological(rows[1..])
  {
    var tail := rows[1..];
    forall i, j | 0 <= i < j < |tail| ensures Before(RowDate(tail[i]).value, RowDate(tail[j]).value) {
      assert tail[i] == rows[i + 1] && tail[j] == rows[j + 1];
    }
  }

  /** Two chronological runs, each row of the first before each row of the second, make one. */
  lemma ChronologicalAppend(a: seq<Row>, b: seq<Row>)
    requires Chronological(a) && Chronological(b)
    requires forall x, y | x in a && y in b :: RowBefore(x, y)
    ensures Chronological(a + b)
  {
    var rows := a + b;
    forall i, j | 0 <= i < j < |rows| ensures Before(RowDate(rows[i]).value, RowDate(rows[j]).value) {
      if j < |a| {
        assert rows[i] == a[i] && rows[j] == a[j];
      } else if |a| <= i {
        assert rows[i] == b[i - |a|] && rows[j] == b[j - |a|];
      } else {
        assert rows[i] in a && rows[j] in b;
      }
    }
    forall i | 0 <= i < |rows| ensures RowDate(rows[i]).Some? {
      if i < |a| { assert rows[i] == a[i]; } else { assert rows[i] == b[i - |a|]; }
    }
  }

  /** The first row of a chronological table is before every row of its rest. */
  lemma HeadBeforeRest(table: YearTable, row: Row)
    requires Chronological(table) && table != [] && row in table[1..]
    ensures RowDate(table[0]).Some? && RowDate(row).Some? && Before(RowDate(table[0]).value, RowDate(row).value)
  {
    var k :| 0 <= k < |table[1..]| && table[1..][k] == row;
    assert table[k + 1] == row;
  }

  /** Selecting rows keeps their order. */
  lemma {:induction false} SelectChronological(table: YearTable, range: KeyRange)
    requires Chronological(table)
    ensures Chronological(Select(table, range))
  {
    if table != [] {
      ChronologicalTail(table);
      SelectChronological(table[1..], range);
      var rest := Select(table[1..], range);
      if Includes(range, table[0]) {
        forall x, y | x in [table[0]] && y in rest ensures RowBefore(x, y)
        {
          HeadBeforeRest(table, y);
        }
        ChronologicalAppend([table[0]], rest);
      } else {
        assert Select(table, range) == rest;
      }
    }
  }

  /** When each touched year's table is that year's rows in date order, the window's rows come
      out in date order across the year boundary too. */
  lemma WindowRowsChronological(tables: map<int, YearTable>, after: Date, until: Date)
    requires AllCached(tables, TouchedYears(after, until))
    requires forall y | y in TouchedYears(after, until) :: InYear(tables[y], y) && Chronological(tables[y])
    ensures Chronological(WindowRows(tables, after, until))
  {
    var range := Window(after, until);
    var later := Select(tables[until.year], range);
    assert until.year in TouchedYears(after, until);
    SelectChronological(tables[until.year], range);
    if after.year != until.year {
      var older := Select(tables[after.year], range);
      assert after.year in TouchedYears(after, until);
      SelectChronological(tables[after.year], range);
      forall x, y | x in older && y in later ensures RowBefore(x, y)
      {
        WindowRowDate(x, after, until);
      }
      ChronologicalAppend(older, later);
    } else {
      assert WindowRows(tables, after, until) == later;
    }
  }

  /** With every cached table holding only its own year's days, a window spanning at most two
      calendar years misses no cached row that falls inside it, whichever year it is filed under. */
  lemma WindowRowsComplete(tables: map<int, YearTable>, after: Date, until: Date, y: int, row: Row)
    requires AllCached(tables, TouchedYears(after, until))
    requires forall z | z in tables :: InYear(tables[z], z)
    requires until.year <= after.year + 1
    requires y in tables && row in tables[y] && Includes(Window(after, until), row)
    ensures row in WindowRows(tables, after, until)
  {
    WindowRowDate(row, after, until);
    assert y == after.year || y == until.year;
    assert y in TouchedYears(after, until);
  }
}
