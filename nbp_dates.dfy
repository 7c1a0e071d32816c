/** Calendar dates and the `YYYYMMDD` keys the bank's tables use in their "data" column. */
module NbpDates {
  import opened Outcomes
  import opened Digits

  datatype Date = Date(year: int, month: int, day: int)

  predicate IsLeapYear(year: int) {
    year % 4 == 0 && (year % 100 != 0 || year % 400 == 0)
  }

  function DaysInMonth(year: int, month: int): int
    requires 1 <= month <= 12
  {
    if month == 2 then (if IsLeapYear(year) then 29 else 28)
    else if month == 4 || month == 6 || month == 9 || month == 11 then 30
    else 31
  }

  /** A Gregorian calendar day whose year `Date#to_s` writes with four digits. */
  predicate ValidDate(d: Date) {
    1583 <= d.year <= 9999 && 1 <= d.month <= 12 && 1 <= d.day <= DaysInMonth(d.year, d.month)
  }

  /** `a` is on or before `b`. */
  predicate NotAfter(a: Date, b: Date) {
    a.year < b.year || (a.year == b.year && (a.month < b.month || (a.month == b.month && a.day <= b.day)))
  }

  /** `a` is strictly before `b`. */
  predicate Before(a: Date, b: Date) {
    NotAfter(a, b) && a != b
  }

  /** date_as_nbp: the ISO form `YYYY-MM-DD` with its dashes deleted. */
  function DateAsNbp(d: Date): (key: string)
    requires ValidDate(d)
    ensures |key| == 8 && AllDigits(key)
  {
    PadDigits(d.year, 4) + PadDigits(d.month, 2) + PadDigits(d.day, 2)
  }

  /** The date a key names, if it is eight digits naming a valid date. */
  function NbpDate(key: string): (d: Option<Date>)
    ensures d.Some? ==> ValidDate(d.value)
  {
    if |key| == 8 && AllDigits(key) then
      var d := Date(DigitsValue(key[..4]), DigitsValue(key[4..6]), DigitsValue(key[6..]));
      if ValidDate(d) then Some(d) else None
    else None
  }

  /** Reading a key back gives the date it was made from. */
  lemma NbpDateOfKey(d: Date)
    requires ValidDate(d)
    ensures NbpDate(DateAsNbp(d)) == Some(d)
  {
    var key := DateAsNbp(d);
    assert key[..4] == PadDigits(d.year, 4);
    assert key[4..6] == PadDigits(d.month, 2);
    assert key[6..] == PadDigits(d.day, 2);
    DigitsValueOfPad(d.year, 4);
    DigitsValueOfPad(d.month, 2);
    DigitsValueOfPad(d.day, 2);
  }

  /** A key that names a date is exactly the key of that date. */
  lemma KeyOfNbpDate(key: string)
    requires NbpDate(key).Some?
    ensures DateAsNbp(NbpDate(key).value) == key
  {
    PadOfDigitsValue(key[..4]);
    PadOfDigitsValue(key[4..6]);
    PadOfDigitsValue(key[6..]);
    assert key == key[..4] + key[4..6] + key[6..];
  }

  /** Different days have different keys. */
  lemma DateAsNbpInjective(a: Date, b: Date)
    requires ValidDate(a) && ValidDate(b) && DateAsNbp(a) == DateAsNbp(b)
    ensures a == b
  {
    NbpDateOfKey(a);
    NbpDateOfKey(b);
  }

  /** The key names a day of the inclusive window `after..until`. */
  predicate InWindow(key: string, after: Date, until: Date) {
    match NbpDate(key)
    case None => false
    case Some(d) => NotAfter(after, d) && NotAfter(d, until)
  }

  /** A key is in the window exactly when it is the key of some day from `after` to `until`,
      both ends included. */
  lemma InWindowIff(key: string, after: Date, until: Date)
    ensures InWindow(key, after, until) <==>
      exists d :: ValidDate(d) && NotAfter(after, d) && NotAfter(d, until) && DateAsNbp(d) == key
  {
    if InWindow(key, after, until) {
      KeyOfNbpDate(key);
      var d := NbpDate(key).value;
      assert ValidDate(d) && DateAsNbp(d) == key;
    }
    if exists d :: ValidDate(d) && NotAfter(after, d) && NotAfter(d, until) && DateAsNbp(d) == key {
      var d :| ValidDate(d) && NotAfter(after, d) && NotAfter(d, until) && DateAsNbp(d) == key;
      NbpDateOfKey(d);
    }
  }
}
