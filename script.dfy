/** The script's main block in salaries.rb: refresh the cache unless today's rate is already
    there, read the half-year result, and convert a monthly salary in PLN to the currency at the
    rounded average and back to PLN at today's rate. */
module Script {
  import opened Outcomes
  import opened Digits
  import opened Rounding
  import opened NbpDates
  import opened Tables
  import opened Results
  import opened Fetcher

  /** The salary in the foreign currency at the average rate, and that amount back in PLN at
      today's rate, each rounded to two decimals. */
  datatype Conversion = Conversion(exchanged: real, andBack: real)

  /** Everything the main block prints after the salary itself. */
  datatype Report = Report(result: Result, conversion: Conversion)

  // Unfolds Pow10 for two places, so that the rounding bounds read as 0.005.
  lemma HundredthsGrid()
    ensures Pow10(2) == 100
  {
    assert Pow10(1) == 10;
  }

  /** `.round(2)`: the nearest hundredth, halves away from zero. */
  function Hundredths(x: real): (y: real)
    ensures OnGrid(y, 2)
    ensures x - 0.005 <= y <= x + 0.005
  {
    HundredthsGrid();
    RoundNearest(x, 2);
    Round(x, 2)
  }

  /** The exact product of two amounts. */
  function Times(x: real, y: real): real {
    x * y
  }

  /** The exact quotient of two amounts. */
  function Quotient(x: real, y: real): real
    requires y != 0.0
  {
    x / y
  }

  /** Lines 160-161: the salary divided exactly by the rounded average and rounded to two
      decimals, then that amount times the last rate rounded to two decimals. A zero average
      divides by zero. */
  function Convert(salary: int, average: real, last: real): (r: Outcome<Conversion>)
    ensures r.Fail? <==> average == 0.0
    ensures r.Fail? ==> r.error == ZeroRate
    ensures r.Ok? ==> OnGrid(r.value.exchanged, 2) && OnGrid(r.value.andBack, 2)
    ensures r.Ok? ==> var q := Quotient(salary as real, average);
      q - 0.005 <= r.value.exchanged <= q + 0.005
    ensures r.Ok? ==> var p := Times(r.value.exchanged, last);
      p - 0.005 <= r.value.andBack <= p + 0.005
  {
    if average == 0.0 then Fail(ZeroRate)
    else
      var exchanged := Hundredths(Quotient(salary as real, average));
      Ok(Conversion(exchanged, Hundredths(Times(exchanged, last))))
  }

  // Facts about Times and Quotient, each stated on its own variables. The solver proves each
  // one alone without help but loses its way when products of variables meet other facts, so
  // the lemmas below call them one at a time.

  lemma NonnegativeProduct(x: real, y: real)
    requires x >= 0.0 && y >= 0.0
    ensures x * y >= 0.0
  {
  }

  lemma ScaleBound(t: real, a: real)
    requires -0.005 <= t <= 0.005 && a >= 0.0
    ensures -0.005 * a <= Times(t, a) <= 0.005 * a
  {
    NonnegativeProduct(0.005 - t, a);
    NonnegativeProduct(t + 0.005, a);
    assert (0.005 - t) * a == 0.005 * a - t * a;
    assert (t + 0.005) * a == t * a + 0.005 * a;
  }

  lemma Distribute(e: real, q: real, a: real)
    ensures Times(e - q, a) == Times(e, a) - Times(q, a)
  {
  }

  lemma ScaleMonotonic(q: real, low: real, high: real)
    requires q >= 0.0 && low <= high
    ensures Times(q, low) <= Times(q, high)
  {
  }

  lemma ProductOfQuotient(s: real, a: real)
    requires a != 0.0
    ensures Times(Quotient(s, a), a) == s
  {
  }

  lemma QuotientNonnegative(s: real, a: real)
    requires s >= 0.0 && a > 0.0
    ensures Quotient(s, a) >= 0.0
  {
  }

  /** The two roundings add up: an amount within half a cent of `q`, and a product within
      half a cent of that amount times `last`, lie within `0.005 * (last + 1)` of `q * last`. */
  lemma TwoRoundings(q: real, e: real, last: real, b: real)
    requires q - 0.005 <= e <= q + 0.005 && last >= 0.0
    requires Times(e, last) - 0.005 <= b <= Times(e, last) + 0.005
    ensures Times(q, last) - 0.005 * (last + 1.0) <= b <= Times(q, last) + 0.005 * (last + 1.0)
  {
    ScaleBound(e - q, last);
    Distribute(e, q, last);
  }

  /** How far the amount back lies from `salary / average * last`. */
  lemma AndBackNear(salary: int, average: real, last: real)
    requires average != 0.0 && last >= 0.0
    ensures var c := Convert(salary, average, last).value;
      var p := Times(Quotient(salary as real, average), last);
      p - 0.005 * (last + 1.0) <= c.andBack <= p + 0.005 * (last + 1.0)
  {
    var c := Convert(salary, average, last).value;
    TwoRoundings(Quotient(salary as real, average), c.exchanged, last, c.andBack);
  }

  /** At an unchanged rate, exchanging and changing back costs at most the two roundings:
      half a grosz, plus half a cent times the rate. */
  lemma ConversionRoundTrip(salary: int, rate: real)
    requires rate > 0.0
    ensures var c := Convert(salary, rate, rate).value;
      salary as real - 0.005 * (rate + 1.0) <= c.andBack <= salary as real + 0.005 * (rate + 1.0)
  {
    AndBackNear(salary, rate, rate);
    ProductOfQuotient(salary as real, rate);
  }

  /** When today's rate is at most the average (favorable), converting back at today's rate
      gives no more than the salary, up to the two roundings. */
  lemma FavorableEarnsNoMore(salary: nat, average: real, last: real)
    requires 0.0 <= last <= average && average > 0.0
    ensures Convert(salary, average, last).value.andBack <= salary as real + 0.005 * (last + 1.0)
  {
    AndBackNear(salary, average, last);
    QuotientNonnegative(salary as real, average);
    ScaleMonotonic(Quotient(salary as real, average), last, average);
    ProductOfQuotient(salary as real, average);
  }

  /** When today's rate is above the average (unfavorable), converting back at today's rate
      gives no less than the salary, up to the two roundings. */
  lemma UnfavorableEarnsNoLess(salary: nat, average: real, last: real)
    requires 0.0 < average < last
    ensures Convert(salary, average, last).value.andBack >= salary as real - 0.005 * (last + 1.0)
  {
    AndBackNear(salary, average, last);
    QuotientNonnegative(salary as real, average);
    ScaleMonotonic(Quotient(salary as real, average), average, last);
    ProductOfQuotient(salary as real, average);
  }

  /** 20000 PLN at an average and a last rate of 4.3: 4651.16 in the currency, 19999.99 back. */
  lemma ConvertExample()
    ensures Convert(20000, 4.3, 4.3) == Ok(Conversion(4651.16, 19999.99))
  {
    HundredthsGrid();
    var x := Quotient(20000.0, 4.3);
    assert (x * 100.0 + 0.5).Floor == 465116;
    assert Hundredths(x) == 4651.16;
    assert (4651.16 * 4.3 * 100.0 + 0.5).Floor == 1999999;
    assert Hundredths(Times(4651.16, 4.3)) == 19999.99;
  }

  /** Line 156 with the corrected check: download the window's years unless today's rate is
      already cached; a year never cached counts as not current. */
  method RefreshUnlessCurrent(f: NbpFetcher) returns (r: Outcome<()>)
    requires f.Valid()
    modifies f
    ensures var check := old(f.LatestDataAvailableOrAbsent());
      var d := DownloadAll(f.remote, TouchedYears(f.sixMonthsAgo, f.today));
      && (check == Ok(true) ==> f.tables == old(f.tables) && f.requested == old(f.requested) && r == Ok(()))
      && (check == Ok(false) ==>
          && f.tables == old(f.tables) + d.stored
          && f.requested == old(f.requested) + d.attempted
          && r == (if d.failed.Some? then Fail(FetchFailed(d.failed.value)) else Ok(())))
      && (check.Fail? ==> f.tables == old(f.tables) && f.requested == old(f.requested) && r == Fail(check.error))
    ensures old(f.today.year !in f.tables) && r.Ok? ==> f.today.year in f.tables
  {
    var years := TouchedYears(f.sixMonthsAgo, f.today);
    assert f.today.year in years by {
      assert years[|years| - 1] == f.today.year;
    }
    var check := f.LatestDataAvailableOrAbsent();
    match check
    case Fail(e) =>
      r := Fail(e);
    case Ok(current) =>
      if current {
        r := Ok(());
      } else {
        r := f.Fetch();
      }
  }

  /** Line 156 as written: the check raises on a year that was never cached, so the script
      stops before the download that would have cached it. */
  method RefreshAsWritten(f: NbpFetcher) returns (r: Outcome<()>)
    requires f.Valid()
    modifies f
    ensures old(f.today.year !in f.tables) ==>
      r == Fail(MissingTable(f.today.year)) && f.tables == old(f.tables) && f.requested == old(f.requested)
    ensures var check := old(f.LatestDataAvailable());
      var d := DownloadAll(f.remote, TouchedYears(f.sixMonthsAgo, f.today));
      && (check == Ok(true) ==> f.tables == old(f.tables) && f.requested == old(f.requested) && r == Ok(()))
      && (check == Ok(false) ==>
          && f.tables == old(f.tables) + d.stored
          && f.requested == old(f.requested) + d.attempted
          && r == (if d.failed.Some? then Fail(FetchFailed(d.failed.value)) else Ok(())))
      && (check.Fail? ==> f.tables == old(f.tables) && f.requested == old(f.requested) && r == Fail(check.error))
  {
    var check := f.LatestDataAvailable();
    match check
    case Fail(e) =>
      r := Fail(e);
    case Ok(current) =>
      if current {
        r := Ok(());
      } else {
        r := f.Fetch();
      }
  }

  /** Lines 155-161: refresh, read the result for `currency`, and convert `salary` at its
      rounded average and its last rate. The first step that fails ends the run with its error. */
  method Salaries(f: NbpFetcher, currency: string, salary: int) returns (r: Outcome<Report>)
    requires f.Valid()
    modifies f
    ensures var check := old(f.LatestDataAvailableOrAbsent());
      check.Fail? ==> r == Fail(check.error) && f.tables == old(f.tables)
    ensures var d := DownloadAll(f.remote, TouchedYears(f.sixMonthsAgo, f.today));
      old(f.LatestDataAvailableOrAbsent()) == Ok(false) && d.failed.Some? ==> r == Fail(FetchFailed(d.failed.value))
    ensures var check := old(f.LatestDataAvailableOrAbsent());
      var d := DownloadAll(f.remote, TouchedYears(f.sixMonthsAgo, f.today));
      var results := ResultsFor(f.tables, f.sixMonthsAgo, f.today, currency);
      check.Ok? && (check.value || d.failed.None?) ==>
        && (results.Fail? ==> r == Fail(results.error))
        && (results.Ok? && Convert(salary, results.value.Average(), results.value.last).Fail? ==> r == Fail(ZeroRate))
        && (results.Ok? && Convert(salary, results.value.Average(), results.value.last).Ok? ==>
            r == Ok(Report(results.value, Convert(salary, results.value.Average(), results.value.last).value)))
    ensures f.tables == old(f.tables)
      || f.tables == old(f.tables) + DownloadAll(f.remote, TouchedYears(f.sixMonthsAgo, f.today)).stored
    ensures !IsSupported(currency) ==> r.Fail?
    ensures r.Ok? ==>
      && ResultsFor(f.tables, f.sixMonthsAgo, f.today, currency) == Ok(r.value.result)
      && Convert(salary, r.value.result.Average(), r.value.result.last) == Ok(r.value.conversion)
  {
    var refreshed := RefreshUnlessCurrent(f);
    if refreshed.Fail? {
      return Fail(refreshed.error);
    }
    var result := f.GetResults(currency);
    if result.Fail? {
      return Fail(result.error);
    }
    var conversion := Convert(salary, result.value.Average(), result.value.last);
    if conversion.Fail? {
      return Fail(conversion.error);
    }
    return Ok(Report(result.value, conversion.value));
  }
}
