/** The NbpFetcher class of salaries.rb: the tables/ cache, the yearly downloads that refresh
    it, and the reads that turn it into a Result. */
module Fetcher {
  import opened Outcomes
  import opened NbpDates
  import opened Tables
  import opened Results

  /** What downloading a list of years, in order, leaves behind: the tables written, the years
      requested, and the year whose download raised (which ends the run), if any. */
  datatype Downloaded = Downloaded(stored: map<int, YearTable>, attempted: seq<int>, failed: Option<int>)

  /** fetch_year for each of `years` in turn; each download overwrites its year's whole table,
      and the first one that raises stops the rest. */
  function DownloadAll(remote: int -> Option<YearTable>, years: seq<int>): (d: Downloaded)
    ensures d.attempted <= years
  {
    if years == [] then Downloaded(map[], [], None)
    else if remote(years[0]).None? then Downloaded(map[], [years[0]], Some(years[0]))
    else
      var rest := DownloadAll(remote, years[1..]);
      Downloaded(map[years[0] := remote(years[0]).value] + rest.stored, [years[0]] + rest.attempted, rest.failed)
  }

  /** The run completes exactly when every year downloads, and then every year was requested
      and written. */
  lemma {:induction false} DownloadAllSucceeds(remote: int -> Option<YearTable>, years: seq<int>)
    ensures var d := DownloadAll(remote, years);
      d.failed.None? <==> forall i | 0 <= i < |years| :: remote(years[i]).Some?
    ensures var d := DownloadAll(remote, years);
      d.failed.None? ==> d.attempted == years && d.stored.Keys == set y | y in years
  {
    if years != [] && remote(years[0]).Some? {
      DownloadAllSucceeds(remote, years[1..]);
      if forall i | 0 <= i < |years| :: remote(years[i]).Some? {
        forall i | 0 <= i < |years| - 1 ensures remote(years[1..][i]).Some? {
          assert years[1..][i] == years[i + 1];
        }
      }
      if DownloadAll(remote, years[1..]).failed.None? {
        forall i | 0 <= i < |years| ensures remote(years[i]).Some? {
          if i > 0 {
            assert years[i] == years[1..][i - 1];
          }
        }
        assert years == [years[0]] + years[1..];
      }
    }
  }

  /** A run that fails stops at the first year whose download raises: every year before it
      was downloaded. */
  lemma {:induction false} DownloadAllStopsAtFailure(remote: int -> Option<YearTable>, years: seq<int>)
    ensures var d := DownloadAll(remote, years);
      d.failed.Some? ==>
        && |d.attempted| > 0
        && d.failed.value == d.attempted[|d.attempted| - 1]
        && remote(d.failed.value).None?
        && forall i | 0 <= i < |d.attempted| - 1 :: remote(d.attempted[i]).Some?
  {
    if years != [] && remote(years[0]).Some? {
      DownloadAllStopsAtFailure(remote, years[1..]);
      var rest := DownloadAll(remote, years[1..]);
      var d := DownloadAll(remote, years);
      if rest.failed.Some? {
        assert d.attempted == [years[0]] + rest.attempted;
        forall i | 0 <= i < |d.attempted| - 1 ensures remote(d.attempted[i]).Some? {
          if i > 0 {
            assert d.attempted[i] == rest.attempted[i - 1];
          }
        }
      }
    }
  }

  /** Every table written is the bank's table for a year that was requested. */
  lemma {:induction false} DownloadAllStoresRemote(remote: int -> Option<YearTable>, years: seq<int>)
    ensures var d := DownloadAll(remote, years);
      forall y | y in d.stored :: y in d.attempted && remote(y) == Some(d.stored[y])
  {
    if years != [] && remote(years[0]).Some? {
      DownloadAllStoresRemote(remote, years[1..]);
      var rest := DownloadAll(remote, years[1..]);
      assert forall y | y in rest.stored :: y in rest.attempted && remote(y) == Some(rest.stored[y]);
      var d := DownloadAll(remote, years);
      assert d.attempted == [years[0]] + rest.attempted;
      forall y | y in d.stored ensures y in d.attempted && remote(y) == Some(d.stored[y]) {
        if y in rest.stored {
          assert y in rest.attempted;
        }
      }
    }
  }

  /** Downloading one year. */
  lemma DownloadOne(remote: int -> Option<YearTable>, y: int)
    ensures DownloadAll(remote, [y]) ==
      if remote(y).Some? then Downloaded(map[y := remote(y).value], [y], None)
      else Downloaded(map[], [y], Some(y))
  {
    assert [y][1..] == [];
  }

  /** Downloading two years: the second is tried only when the first succeeds. */
  lemma DownloadTwo(remote: int -> Option<YearTable>, y: int, z: int)
    ensures DownloadAll(remote, [y, z]) ==
      if remote(y).None? then Downloaded(map[], [y], Some(y))
      else
        var rest := DownloadAll(remote, [z]);
        Downloaded(map[y := remote(y).value] + rest.stored, [y] + rest.attempted, rest.failed)
  {
    assert [y, z][1..] == [z];
  }

  /** The Ruby `Date.today`, `Date.today << 6`, the bank's archive and the tables/ directory.
      The dates and the archive are given to the constructor; they never change. */
  class NbpFetcher {
    const today: Date
    const sixMonthsAgo: Date
    /** The bank's table for each year; None stands for a download that raises. */
    const remote: int -> Option<YearTable>
    /** tables/<year>.csv, one table per cached year. */
    var tables: map<int, YearTable>
    /** Every year requested from the bank so far, in order. */
    ghost var requested: seq<int>

    ghost predicate Valid() {
      ValidDate(today) && ValidDate(sixMonthsAgo)
    }

    constructor (today: Date, sixMonthsAgo: Date, remote: int -> Option<YearTable>, cached: map<int, YearTable>)
      requires ValidDate(today) && ValidDate(sixMonthsAgo)
      ensures Valid()
      ensures this.today == today && this.sixMonthsAgo == sixMonthsAgo && this.remote == remote
      ensures tables == cached && requested == []
    {
      this.today := today;
      this.sixMonthsAgo := sixMonthsAgo;
      this.remote := remote;
      tables := cached;
      requested := [];
    }

    /** fetch_year: download one year's table and overwrite that year's cache with it; every
        other year's table is left as it was. */
    method FetchYear(year: int) returns (ok: bool)
      modifies this
      ensures ok <==> remote(year).Some?
      ensures tables == if ok then old(tables)[year := remote(year).value] else old(tables)
      ensures requested == old(requested) + [year]
    {
      requested := requested + [year];
      var download := remote(year);
      if download.Some? {
        tables := tables[year := download.value];
        ok := true;
      } else {
        ok := false;
      }
    }

    /** fetch: six months ago's year first when it differs from today's, then today's year. */
    method Fetch() returns (r: Outcome<()>)
      modifies this
      ensures var d := DownloadAll(remote, TouchedYears(sixMonthsAgo, today));
        && tables == old(tables) + d.stored
        && requested == old(requested) + d.attempted
        && r == (if d.failed.Some? then Fail(FetchFailed(d.failed.value)) else Ok(()))
    {
      DownloadOne(remote, today.year);
      if sixMonthsAgo.year != today.year {
        DownloadTwo(remote, sixMonthsAgo.year, today.year);
        var ok := FetchYear(sixMonthsAgo.year);
        if !ok {
          return Fail(FetchFailed(sixMonthsAgo.year));
        }
      }
      var ok := FetchYear(today.year);
      if !ok {
        return Fail(FetchFailed(today.year));
      }
      return Ok(());
    }

    /** parse_csv_between, built by appending the older year's rates and then the later year's. */
    method ParseCsvBetween(after: Date, until: Date, currency: string) returns (r: Outcome<seq<real>>)
      ensures r == WindowRates(tables, after, until, currency)
    {
      var range := Window(after, until);
      var rates: seq<real> := [];
      if after.year != until.year {
        var older := ParseCsvYear(tables, range, after.year, currency);
        if older.Fail? {
          return Fail(older.error);
        }
        assert [] + older.value == older.value;
        rates := rates + older.value;
      }
      var newer := ParseCsvYear(tables, range, until.year, currency);
      if newer.Fail? {
        return Fail(newer.error);
      }
      assert [] + newer.value == newer.value;
      rates := rates + newer.value;
      return Ok(rates);
    }

    /** get_results: refuse any currency but USD and EUR before reading a table, then average
        the rates of the six months up to today. */
    method GetResults(currency: string) returns (r: Outcome<Result>)
      ensures !IsSupported(currency) ==> r == Fail(UnknownCurrency)
      ensures IsSupported(currency) ==> r == ResultsFor(tables, sixMonthsAgo, today, currency)
    {
      if !IsSupported(currency) {
        return Fail(UnknownCurrency);
      }
      var rates := ParseCsvBetween(sixMonthsAgo, today, currency);
      if rates.Fail? {
        return Fail(rates.error);
      }
      r := Aggregate(rates.value, currency);
    }

    /** run: fetch, then get_results on the refreshed cache. */
    method Run(currency: string) returns (r: Outcome<Result>)
      modifies this
      ensures var d := DownloadAll(remote, TouchedYears(sixMonthsAgo, today));
        && tables == old(tables) + d.stored
        && requested == old(requested) + d.attempted
        && r == if d.failed.Some? then Fail(FetchFailed(d.failed.value))
                else ResultsFor(tables, sixMonthsAgo, today, currency)
    {
      var fetched := Fetch();
      if fetched.Fail? {
        return Fail(fetched.error);
      }
      r := GetResults(currency);
    }

    /** latest_data_available?, as written: whether today's year table has a row keyed with
        today's date (its EUR cell must read as well). Reading a year that was never cached
        raises. */
    function LatestDataAvailable(): (r: Outcome<bool>)
      reads this
      requires Valid()
      ensures today.year !in tables ==> r == Fail(MissingTable(today.year))
      ensures today.year in tables && r.Fail? ==> r.error == MissingCell || r.error == MalformedCell
      ensures today.year in tables ==> (r.Ok? <==> TodaysCellsRead(tables[today.year], today))
      ensures r.Ok? ==> (r.value <==> exists row :: row in tables[today.year] && RowDate(row) == Some(today))
    {
      match ParseCsvYear(tables, Keys([DateAsNbp(today)]), today.year, "EUR")
      case Fail(e) => Fail(e)
      case Ok(rates) =>
        TodaysRowSelected(tables[today.year], today);
        Ok(rates != [])
    }

    /** The check line 156 evidently intends: a year that was never cached has no data for
        today, so it asks for a download instead of raising. */
    function LatestDataAvailableOrAbsent(): (r: Outcome<bool>)
      reads this
      requires Valid()
      ensures today.year !in tables ==> r == Ok(false)
      ensures today.year in tables ==> r == LatestDataAvailable()
      ensures r != Fail(MissingTable(today.year))
      ensures r.Ok? <==> today.year !in tables || TodaysCellsRead(tables[today.year], today)
      ensures r.Ok? ==> (r.value <==> today.year in tables && exists row :: row in tables[today.year] && RowDate(row) == Some(today))
    {
      if today.year !in tables then Ok(false) else LatestDataAvailable()
    }
  }

  /** Every row of the table keyed with the date `d` has an EUR cell that reads as a rate. */
  predicate TodaysCellsRead(table: YearTable, d: Date)
    requires ValidDate(d)
  {
    forall row | row in table && DateColumn in row.cells && row.cells[DateColumn] == DateAsNbp(d) ::
      CellParses(row, RowMap("EUR"))
  }

  /** A table has a row dated `d` exactly when selecting the key of `d` keeps some row. */
  lemma TodaysRowSelected(table: YearTable, d: Date)
    requires ValidDate(d)
    ensures (exists row :: row in table && RowDate(row) == Some(d)) <==> Select(table, Keys([DateAsNbp(d)])) != []
  {
    var selected := Select(table, Keys([DateAsNbp(d)]));
    NbpDateOfKey(d);
    if selected != [] {
      assert selected[0] in table && RowDate(selected[0]) == Some(d);
    }
    if row :| row in table && RowDate(row) == Some(d) {
      KeyOfNbpDate(row.cells[DateColumn]);
      assert row in selected;
    }
  }

  /** get_results on a given cache: the currency check, then the window's rates, then their
      mean and last value. */
  function ResultsFor(tables: map<int, YearTable>, after: Date, until: Date, currency: string): (r: Outcome<Result>)
    ensures !IsSupported(currency) ==> r == Fail(UnknownCurrency)
  {
    if !IsSupported(currency) then Fail(UnknownCurrency)
    else match WindowRates(tables, after, until, currency)
      case Fail(e) => Fail(e)
      case Ok(rates) => Aggregate(rates, currency)
  }

  /** A result comes only from a window whose years are all cached and which holds at least
      one row; its last rate is the cell of the window's final row. */
  lemma ResultsForLastRow(tables: map<int, YearTable>, after: Date, until: Date, currency: string)
    requires ResultsFor(tables, after, until, currency).Ok?
    ensures IsSupported(currency) && AllCached(tables, TouchedYears(after, until))
    ensures var rows := WindowRows(tables, after, until);
      var result := ResultsFor(tables, after, until, currency).value;
      && rows != []
      && CellParses(rows[|rows| - 1], RowMap(currency))
      && result.last == CellRate(rows[|rows| - 1], RowMap(currency))
      && result.currency == currency
  {
    WindowRatesReadWindowRows(tables, after, until, currency);
    var rows := WindowRows(tables, after, until);
    CellRatesOneToOne(rows, RowMap(currency));
  }
}
