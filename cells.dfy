/** Reading one rate cell such as "4,1234" as an exact rational (salaries.rb, parse_csv_year). */
module Cells {
  import opened Outcomes
  import opened Digits

  /** Every comma-separated field of s, empty ones included. */
  function Fields(s: string): (fields: seq<string>)
    ensures |fields| >= 1
  {
    if s == [] then [[]]
    else
      var rest := Fields(s[1..]);
      if s[0] == ',' then [[]] + rest else [[s[0]] + rest[0]] + rest[1..]
  }

  /** The fields without the empty ones at the end, which String#split discards. */
  function DropTrailingEmpty(fields: seq<string>): seq<string>
  {
    if fields == [] || fields[|fields| - 1] != [] then fields
    else DropTrailingEmpty(fields[..|fields| - 1])
  }

  /** String#split(","). */
  function Split(s: string): seq<string> {
    DropTrailingEmpty(Fields(s))
  }

  predicate IsSpace(c: char) {
    c == ' ' || 9 <= c as int <= 13
  }

  function SkipSpace(s: string): string {
    if s != [] && IsSpace(s[0]) then SkipSpace(s[1..]) else s
  }

  /** The longest prefix of s made of decimal digits. */
  function LeadingDigits(s: string): (digits: string)
    ensures AllDigits(digits) && |digits| <= |s| && digits == s[..|digits|]
    ensures |digits| == |s| || !IsDigit(s[|digits|])
  {
    if s != [] && IsDigit(s[0]) then [s[0]] + LeadingDigits(s[1..]) else []
  }

  /** String#to_i: leading white space, an optional sign, then the digits that follow. */
  function ToI(s: string): int {
    var t := SkipSpace(s);
    if t != [] && t[0] == '-' then -(DigitsValue(LeadingDigits(t[1..])) as int)
    else if t != [] && t[0] == '+' then DigitsValue(LeadingDigits(t[1..]))
    else DigitsValue(LeadingDigits(t))
  }

  /** A rate cell such as "4,1234": the whole and fractional fields around the comma are
      joined, read as an integer and divided by ten to the number of fractional digits. A cell
      with fewer than two fields has no fractional part, and asking its size raises. */
  function ParseCell(cell: string): (r: Outcome<real>)
    ensures r.Fail? <==> |Split(cell)| < 2
    ensures r.Fail? ==> r.error == MalformedCell
  {
    var parts := Split(cell);
    if |parts| < 2 then Fail(MalformedCell)
    else Ok(Decimal(ToI(parts[0] + parts[1]), |parts[1]|))
  }

  /** The exact rational n / 10^places: n with its last `places` digits after the point. */
  function Decimal(n: int, places: nat): real {
    if places == 0 then n as real else Decimal(n, places - 1) / 10.0
  }

  // Holds without a proof; kept apart so that DecimalScaled meets the product on its own.
  lemma TenthTimesTen(x: real, q: real)
    ensures (x / 10.0) * (10.0 * q) == x * q
  {
  }

  /** Decimal(n, places) is the rational whose numerator is n and whose denominator is
      10^places. */
  lemma {:induction false} DecimalScaled(n: int, places: nat)
    ensures Decimal(n, places) * Pow10(places) as real == n as real
  {
    if places > 0 {
      DecimalScaled(n, places - 1);
      TenthTimesTen(Decimal(n, places - 1), Pow10(places - 1) as real);
    }
  }

  lemma {:induction false} FieldsWithoutComma(s: string)
    requires ',' !in s
    ensures Fields(s) == [s]
  {
    if s != [] {
      FieldsWithoutComma(s[1..]);
      assert [s[0]] + s[1..] == s;
    }
  }

  lemma {:induction false} FieldsAfterComma(a: string, b: string)
    requires ',' !in a
    ensures Fields(a + [','] + b) == [a] + Fields(b)
  {
    if a == [] {
      assert (a + [','] + b)[1..] == b;
    } else {
      assert (a + [','] + b)[1..] == a[1..] + [','] + b;
      FieldsAfterComma(a[1..], b);
      assert [a[0]] + a[1..] == a;
    }
  }

  lemma DigitsHaveNoComma(s: string)
    requires AllDigits(s)
    ensures ',' !in s
  {
  }

  lemma {:induction false} LeadingDigitsOfDigits(s: string)
    requires AllDigits(s)
    ensures LeadingDigits(s) == s
  {
    if s != [] {
      LeadingDigitsOfDigits(s[1..]);
    }
  }

  lemma SplitDecimal(whole: string, frac: string)
    requires AllDigits(whole) && AllDigits(frac) && frac != []
    ensures Split(whole + [','] + frac) == [whole, frac]
  {
    DigitsHaveNoComma(whole);
    DigitsHaveNoComma(frac);
    FieldsAfterComma(whole, frac);
    FieldsWithoutComma(frac);
  }

  /** to_i of a plain digit string is the number the digits denote. */
  lemma ToIOfDigits(s: string)
    requires AllDigits(s)
    ensures ToI(s) == DigitsValue(s)
  {
    if s != [] {
      assert IsDigit(s[0]);
      assert SkipSpace(s) == s;
      LeadingDigitsOfDigits(s);
    }
  }

  lemma ParseCellOfFields(cell: string, full: string, rest: string)
    requires Split(cell) == [full, rest]
    ensures ParseCell(cell) == Ok(Decimal(ToI(full + rest), |rest|))
  {
  }

  /** Digits `whole`, a comma and digits `frac` read as the joined digits over 10^|frac|:
      "4,1234" is 41234/10000 and "10,5" is 105/10. */
  lemma ParseDecimalCell(whole: string, frac: string)
    requires AllDigits(whole) && AllDigits(frac) && frac != []
    ensures ParseCell(whole + [','] + frac) == Ok(Decimal(DigitsValue(whole + frac), |frac|))
  {
    SplitDecimal(whole, frac);
    ParseCellOfFields(whole + [','] + frac, whole, frac);
    ToIOfDigits(whole + frac);
  }

  /** A cell without a fractional field cannot be read: "4", "4," and "" all fail. */
  lemma CellWithoutFraction(whole: string)
    requires ',' !in whole
    ensures ParseCell(whole) == Fail(MalformedCell)
    ensures ParseCell(whole + [',']) == Fail(MalformedCell)
  {
    FieldsWithoutComma(whole);
    FieldsAfterComma(whole, []);
    assert whole + [','] + [] == whole + [','];
    assert Fields(whole + [',']) == [whole] + [[]];
  }

  /** "4,1234" is 41234/10000. */
  lemma ParseCellFourPlaces()
    ensures ParseCell("4,1234") == Ok(4.1234)
  {
    assert "1234"[..3] == "123" && "123"[..2] == "12" && "12"[..1] == "1" && "1"[..0] == "";
    assert DigitsValue("1234") == 1234 && DigitsValue("4") == 4;
    DigitsValueAppend("4", "1234");
    assert Pow10(4) == 10000;
    ParseDecimalCell("4", "1234");
    assert "4" + [','] + "1234" == "4,1234";
    assert Decimal(41234, 4) == 4.1234;
  }

  /** "10,5" is 105/10. */
  lemma ParseCellOnePlace()
    ensures ParseCell("10,5") == Ok(10.5)
  {
    assert "10"[..1] == "1";
    assert DigitsValue("10") == 10 && DigitsValue("5") == 5;
    DigitsValueAppend("10", "5");
    assert Pow10(1) == 10;
    ParseDecimalCell("10", "5");
    assert "10" + [','] + "5" == "10,5";
    assert Decimal(105, 1) == 10.5;
  }
}
