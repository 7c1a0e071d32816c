# NBP salary converter — a Dafny model

`salaries.rb` downloads the yearly tables of average exchange rates published by the
Polish national bank (NBP, table A), caches one table per year under `tables/`, and
reads them back. From the window that runs from six months ago to today it computes two
values: the exact mean of the EUR or USD rates and the last rate. It then converts a
monthly PLN salary into the currency at that average, and back to PLN at today's rate.

The model is split into these modules:

- **Outcomes** (`outcomes.dfy`): `Option`, and `Outcome` with an `Error` for each place the
  script raises or exits.
- **Digits** (`digits.dfy`): decimal digit strings.
  - reading them, as `to_i` does;
  - writing them zero-padded, as `Date#to_s` does.
- **Rounding** (`rounding.dfy`): `Rational#round(n)` on exact rationals. It picks the nearest
  multiple of 10^-n, and halves go away from zero.
- **NbpDates** (`nbp_dates.dfy`): calendar dates.
  - `date_as_nbp` produces `YYYYMMDD` keys.
  - `NbpDate` decodes such a key.
  - The inclusive window test compares decoded dates.
- **Cells** (`cells.dfy`): Ruby's `String#split(",")` (trailing empty fields dropped), Ruby's
  `to_i`, and the rate-cell parsing of `parse_csv_year`. The parsing turns `"4,1234"` into the
  exact rational 41234/10000.
- **Tables** (`tables.dfy`): rows, `select` by date key, and the per-row cell map.
  - `parse_csv_year` and the two-year window of `parse_csv_between`;
  - the chronological-order facts across the year boundary.
- **Results** (`results.dfy`): the `Result` value, with `average` rounded when read and
  `favorable?`, and the mean/last aggregation of `get_results`.
- **Fetcher** (`fetcher.dfy`): class `NbpFetcher`.
  - Its `tables` map is the cache directory.
  - `remote` is the bank's archive.
  - `fetch_year`, `fetch`, `parse_csv_between`, `get_results` and `run` are methods.
  - `latest_data_available?` is a function, both as written and corrected.
- **Script** (`script.dfy`): the main block. It refreshes the cache unless today's rate is
  there, reads the result, and converts the salary at two-decimal rounding.

## Model

| member | source | states |
|---|---|---|
| Digits.DigitsValueAppend | salaries.rb:91 | The digits of the whole part followed by those of the fraction read as whole·10^len(fraction) + fraction |
| Digits.DigitsValueOfPad | salaries.rb:113-115 | A number written zero-padded to a width it fits in reads back as that number |
| Digits.PadOfDigitsValue | salaries.rb:113-115 | A digit string is the zero-padded form of the number it denotes |
| Rounding.RoundNearest | salaries.rb:24 | Rounding to n places gives a value with at most n places within half a unit of the last place |
| Rounding.RoundOnGrid | salaries.rb:24 | A value that already has n places is left unchanged |
| Rounding.RoundIdempotent | salaries.rb:24 | Rounding twice to n places equals rounding once |
| Rounding.RoundHalfAwayFromZero | salaries.rb:24 | An exact half goes to the neighbour farther from zero, for positive and negative values |
| NbpDates.DateAsNbp | salaries.rb:113-115 | The key of a date is eight digits: four of year, two of month, two of day |
| NbpDates.NbpDate | salaries.rb:113-115 | Decoding a key yields only valid calendar dates |
| NbpDates.NbpDateOfKey | salaries.rb:113-115 | Decoding the key of a date gives back that date |
| NbpDates.KeyOfNbpDate | salaries.rb:113-115 | A key that decodes to a date is exactly that date's key |
| NbpDates.DateAsNbpInjective | salaries.rb:113-115 | Distinct dates have distinct keys |
| NbpDates.InWindowIff | salaries.rb:78 | A key is in the window iff it is the key of some valid date d with after ≤ d ≤ until, both ends included |
| Cells.Fields | salaries.rb:90 | Splitting on commas always yields at least one field |
| Cells.FieldsAfterComma | salaries.rb:90 | Text before the first comma is the first field, the rest is split further |
| Cells.SplitDecimal | salaries.rb:90 | `I,F` with digit runs I and non-empty F splits into exactly [I, F] |
| Cells.LeadingDigits | salaries.rb:91 | The digits `to_i` reads are the longest digit-only prefix of what follows the sign: the next character, if any, is not a digit |
| Cells.ToIOfDigits | salaries.rb:91 | `to_i` of a digit string is the number it denotes, and the empty string (the joined fields of `",,5"`) reads as 0 |
| Cells.ParseCell | salaries.rb:90-91 | Parsing fails iff the cell has fewer than two comma fields, and then with MalformedCell |
| Cells.DecimalScaled | salaries.rb:91 | The parsed value times 10^places is the joined integer: numerator over 10^places |
| Cells.ParseDecimalCell | salaries.rb:90-91 | `I,F` with digit runs parses to the joined digits I·10^len(F)+F over 10^len(F) |
| Cells.CellWithoutFraction | salaries.rb:90-91 | A cell without a fraction field, such as `4` or `4,`, is MalformedCell |
| Cells.ParseCellFourPlaces | salaries.rb:90-91 | `"4,1234"` parses to exactly 4.1234 |
| Cells.ParseCellOnePlace | salaries.rb:90-91 | `"10,5"` parses to exactly 10.5 |
| Tables.Select | salaries.rb:89 | A row is kept iff it is in the table and its date key is in the range; no more rows than the table |
| Tables.SelectAppend | salaries.rb:89 | Selecting from two runs of rows is selecting from each in turn: kept rows stay in table order, none dropped or repeated |
| Tables.RowMap | salaries.rb:39 | A column exists exactly for EUR and USD |
| Tables.CellRead | salaries.rb:90-91 | One row reads iff its cell is present and parses, giving that one rate; otherwise a cell error |
| Tables.CellRates | salaries.rb:89-92 | One rate per selected row; failures are only missing or malformed cells |
| Tables.CellRatesOneToOne | salaries.rb:89-92 | The rates are read iff every row's cell parses, and the i-th rate is the i-th row's cell |
| Tables.CellRatesAppend | salaries.rb:80-84 | Reading two runs of rows in turn equals reading their concatenation: first failure wins, else rates concatenate |
| Tables.ParseCsvYear | salaries.rb:87-97 | An uncached year raises MissingTable; a cached one reads iff every selected row's cell parses, giving one rate per selected row with the i-th rate the i-th row's cell; otherwise a missing or malformed cell |
| Tables.TouchedYears | salaries.rb:80-83 | Two years, older first, when the window crosses a year boundary; otherwise only the end's year |
| Tables.WindowRows | salaries.rb:77-85 | A row is in the window's rows iff it is in the window and in a touched year's table |
| Tables.WindowRatesReadWindowRows | salaries.rb:77-85 | With both years cached the rates are the window's rows read in order; an uncached older year fails first |
| Tables.SelectChronological | salaries.rb:89 | Selecting from a chronological table keeps it chronological |
| Tables.WindowRowsChronological | salaries.rb:80-84 | Older year's matches then newer year's: the window's rows are in strictly increasing date order |
| Tables.WindowRowsComplete | salaries.rb:77-93 | Every cached row dated inside the window appears among the window's rows |
| Results.Result.Average | salaries.rb:22-25 | The stored average rounded to 4 places, within half a ten-thousandth of it |
| Results.Result.Favorable | salaries.rb:27-29 | Decided by the stored average whenever it is more than half a step from the last rate |
| Results.Aggregate | salaries.rb:72-74 | Fails iff the window is empty; the average times the count is the exact sum; last is the final rate |
| Results.SumBounds | salaries.rb:72 | The sum of n rates within [low, high] lies within [n·low, n·high] |
| Results.AverageWithinRates | salaries.rb:72 | The exact average lies between the smallest and the largest rate |
| Results.AverageOfEqualRates | salaries.rb:72 | A window of equal rates averages to that rate |
| Results.RoundedOnceOrTwice | salaries.rb:22-25 | Rounding the stored average again does not change what `average` reports |
| Results.AggregateExample | salaries.rb:72-74 | Rates 4.1, 4.3, 4.2 give average 4.2 and last 4.2 |
| Results.FavorableAtEquality | salaries.rb:27-29 | An average equal to the last rate is favorable |
| Fetcher.DownloadAll | salaries.rb:57-62 | The years requested are a prefix of the years to fetch |
| Fetcher.DownloadAllSucceeds | salaries.rb:57-62 | A fetch completes iff every year downloads, and then every year was requested and written |
| Fetcher.DownloadAllStopsAtFailure | salaries.rb:57-62 | A failed fetch stops at the first year that raises; all years before it downloaded |
| Fetcher.DownloadAllStoresRemote | salaries.rb:99-103 | Every table written is the bank's table of a requested year |
| Fetcher.NbpFetcher.constructor | salaries.rb:45-48 | Today, six months ago, the archive and the cache are as given; nothing requested yet |
| Fetcher.NbpFetcher.FetchYear | salaries.rb:99-103 | Overwrites exactly that year's table with the bank's when the download succeeds; records the request |
| Fetcher.NbpFetcher.Fetch | salaries.rb:57-62 | Six months ago's year first only when it differs, then today's; the cache gains exactly those tables |
| Fetcher.NbpFetcher.ParseCsvBetween | salaries.rb:77-85 | The successive appends equal the window rates, older year first |
| Fetcher.NbpFetcher.GetResults | salaries.rb:64-75 | An unsupported currency fails with UnknownCurrency before any table is read; otherwise the window's result |
| Fetcher.NbpFetcher.Run | salaries.rb:52-55 | Fetch, then get_results on the refreshed cache; a failed download stops the run |
| Fetcher.NbpFetcher.LatestDataAvailable | salaries.rb:109-111 | For a cached year: answers iff every row keyed today has a readable EUR cell, and then true iff some row is dated today; an uncached year raises MissingTable |
| Fetcher.NbpFetcher.LatestDataAvailableOrAbsent | salaries.rb:109-111 | Same check, but an uncached year answers false and never raises MissingTable; it answers iff the year is uncached or every row keyed today reads |
| Fetcher.TodaysRowSelected | salaries.rb:110 | Selecting today's key keeps a row iff the table has a row dated today |
| Fetcher.ResultsFor | salaries.rb:64-75 | An unsupported currency is refused before the window is read |
| Fetcher.ResultsForLastRow | salaries.rb:72-73 | A result needs both years cached and a non-empty window; last is the cell of the window's final row |
| Script.Hundredths | salaries.rb:160-161 | Two-decimal rounding lands on hundredths within half a hundredth |
| Script.Convert | salaries.rb:159-161 | A zero average fails; otherwise both amounts have two places, each within 0.005 of the exact value it rounds |
| Script.ConversionRoundTrip | salaries.rb:159-161 | At an unchanged rate the amount back is within 0.005·(rate+1) of the salary |
| Script.FavorableEarnsNoMore | salaries.rb:159-161 | When today's rate is at most the average, converting back yields at most the salary plus 0.005·(last+1) |
| Script.UnfavorableEarnsNoLess | salaries.rb:159-161 | When today's rate exceeds the average, converting back yields at least the salary minus 0.005·(last+1) |
| Script.ConvertExample | salaries.rb:159-161 | 20000 PLN at 4.3 gives 4651.16 and 19999.99 back |
| Script.RefreshAsWritten | salaries.rb:156 | As written: an uncached today's year raises MissingTable and changes nothing; otherwise skips the fetch iff today's rate is cached, else fetches and reports the first failed year |
| Script.RefreshUnlessCurrent | salaries.rb:156 | With the corrected check: skips the fetch iff today's rate is cached, else fetches; a year never cached is cached afterwards when the run succeeds |
| Script.Salaries | salaries.rb:155-161 | With the corrected check: a failed check or download ends the run with its error; after a refresh, a get_results failure or a zero average is passed on, and otherwise the report is get_results on the refreshed cache with the conversion at its rounded average and exact last rate |

## Left out

- Network access (`URI.open`, the URL template): the archive is the constant function
  `NbpFetcher.remote`, and `None` stands for a download that raises.
- File I/O, CSV decoding, the `;` separator and the Windows-1252 encoding: a year file is
  modelled as the sequence of its decoded rows. Writing a file is a map update.
- `Date.today` and `Date#<<`: today and six months ago are constructor parameters.
- The day-by-day enumeration of the date range is not reproduced. The window test decodes the
  row's key and compares dates. `NbpDates.InWindowIff` shows the two agree.
- NbpDates.ValidDate: years are limited to 1583..9999, the Gregorian years that `Date#to_s`
  writes with four digits.
- Cells.ToI: underscores between digits and radix prefixes, which Ruby's `to_i` also
  accepts, are not modelled. Rate cells never contain them.
- The command-line `Parser` and `Options`, `puts`, `STDERR`, `inspect`, `to_json`, `.to_f` and
  the empty `log` are display or option handling. `exit 1` becomes `Fail(UnknownCurrency)`.
- `NbpFetcher.run` (the class method) only constructs a fetcher with the current date.
- Fetcher.NbpFetcher.requested is a ghost record of downloads. The source keeps no such list.
- Script.Salaries: line 156 refreshes the cache before `get_results` checks the currency at
  line 65, so an unsupported currency may still download before failing with
  `UnknownCurrency`. `GetResults` itself reads no table before the check.
- Script.RefreshUnlessCurrent: models line 156 with the corrected check
  `LatestDataAvailableOrAbsent`, not as written. As written, an uncached today's year raises
  before any download; `Script.RefreshAsWritten` models that behaviour (see Findings).
- Script.Salaries: runs the refresh with the corrected check, as `Script.RefreshUnlessCurrent`
  does, so a first run in a new year downloads instead of stopping with `MissingTable`.
- A window reads at most two yearly tables, as the source does. A window longer than a year
  would skip the middle years in both.

## Findings

| source | as written | input that shows it | evidently intended | confidence | as-written member | corrected member |
|---|---|---|---|---|---|---|
| salaries.rb:109-111 | `latest_data_available?` reads `tables/<today's year>.csv` unconditionally, and reading a file that does not exist raises, so line 156 crashes before it can fetch (`Script.RefreshAsWritten`; `Script.RefreshUnlessCurrent` uses the corrected check) | the first run of a new year, or a fresh checkout: today.year is not in the cache | a missing year table means no data for today, so the script fetches | high, not executed | Fetcher.NbpFetcher.LatestDataAvailable | Fetcher.NbpFetcher.LatestDataAvailableOrAbsent |
