/** The `Result` class of salaries.rb and the averaging in get_results. */
module Results {
  import opened Outcomes
  import opened Digits
  import opened Rounding

  /** Half a unit in the fourth decimal place: how far the reported average may stray. */
  const HalfStep: real := 0.5 / 10000.0

  /** What get_results hands back: the exact average (rounded only when read), the last rate
      of the window, and the currency code. */
  datatype Result = Result(storedAverage: real, last: real, currency: string) {

    /** Result#average: the stored average rounded to four decimals. */
    function Average(): (a: real)
      ensures OnGrid(a, 4)
      ensures storedAverage - HalfStep <= a <= storedAverage + HalfStep
    {
      RoundNearest(storedAverage, 4);
      Round(storedAverage, 4)
    }

    /** Result#favorable?: the rounded average is at least today's rate (equality counts). The
        rounding can only decide it when the exact average is within half a step of `last`. */
    predicate Favorable()
      ensures storedAverage - HalfStep >= last ==> Favorable()
      ensures storedAverage + HalfStep < last ==> !Favorable()
    {
      Average() >= last
    }
  }

  /** The exact sum of the rates, added left to right starting from a rational zero. */
  function Sum(rates: seq<real>): real {
    if rates == [] then 0.0 else Sum(rates[..|rates| - 1]) + rates[|rates| - 1]
  }

  /** Lines 72-74 of get_results: the exact mean and the final rate. An empty window divides
      by zero, which is reported as EmptyWindow. */
  function Aggregate(rates: seq<real>, currency: string): (r: Outcome<Result>)
    ensures r.Fail? <==> rates == []
    ensures r.Fail? ==> r.error == EmptyWindow
    ensures r.Ok? ==> r.value.storedAverage * |rates| as real == Sum(rates)
    ensures r.Ok? ==> r.value.last == rates[|rates| - 1] && r.value.currency == currency
  {
    if rates == [] then Fail(EmptyWindow)
    else Ok(Result(Sum(rates) / |rates| as real, rates[|rates| - 1], currency))
  }

  /** The sum of rates that all lie within [low, high] lies within count * [low, high]. */
  lemma {:induction false} SumBounds(rates: seq<real>, low: real, high: real)
    requires forall i | 0 <= i < |rates| :: low <= rates[i] <= high
    ensures |rates| as real * low <= Sum(rates) <= |rates| as real * high
  {
    if rates != [] {
      SumBounds(rates[..|rates| - 1], low, high);
      assert rates[|rates| - 1] in rates;
    }
  }

  /** The exact average lies between the smallest and the largest rate of the window. */
  lemma AverageWithinRates(rates: seq<real>, currency: string, low: real, high: real)
    requires rates != []
    requires forall i | 0 <= i < |rates| :: low <= rates[i] <= high
    ensures low <= Aggregate(rates, currency).value.storedAverage <= high
  {
    SumBounds(rates, low, high);
    var n := |rates| as real;
    var avg := Aggregate(rates, currency).value.storedAverage;
    assert avg * n == Sum(rates);
    assert (avg - low) * n >= 0.0 && (high - avg) * n >= 0.0;
  }

  /** A window whose rates are all equal averages to that rate. */
  lemma AverageOfEqualRates(rates: seq<real>, currency: string, rate: real)
    requires rates != []
    requires forall i | 0 <= i < |rates| :: rates[i] == rate
    ensures Aggregate(rates, currency).value.storedAverage == rate
  {
    AverageWithinRates(rates, currency, rate, rate);
  }

  /** Rounding when the result is built and rounding again when it is read agree with rounding
      once at read time, so the two designs report the same average. */
  lemma RoundedOnceOrTwice(result: Result)
    ensures Result(result.Average(), result.last, result.currency).Average() == result.Average()
  {
    RoundIdempotent(result.storedAverage, 4);
  }

  /** Rates 4.1, 4.3, 4.2 average to exactly 4.2, and the last one is 4.2. */
  lemma AggregateExample()
    ensures Aggregate([4.1, 4.3, 4.2], "EUR") == Ok(Result(4.2, 4.2, "EUR"))
  {
    var rates := [4.1, 4.3, 4.2];
    assert rates[..2] == [4.1, 4.3] && [4.1, 4.3][..1] == [4.1] && [4.1][..0] == [];
    assert Sum(rates) == 12.6;
  }

  /** An average equal to today's rate is favorable. */
  lemma FavorableAtEquality(storedAverage: real, currency: string)
    requires OnGrid(storedAverage, 4)
    ensures Result(storedAverage, storedAverage, currency).Favorable()
  {
    RoundOnGrid(storedAverage, 4);
  }
}
