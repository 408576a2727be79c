/**
 * The date-fns `format` tokens the app uses, with the en-US locale, on a
 * day of the proleptic Gregorian calendar.
 */
module DateFns {
  import opened JsText
  import opened Gregorian

  /** Token `yyyy`: the year of the era (year 0 is 1 BC and prints as 1), zero-padded to four digits. */
  function YearToken(year: int): (s: string)
    ensures 1 <= year < 10000 ==> s == FixedDigits(year, 4)
  {
    var eraYear := if year > 0 then year else 1 - year;
    if 1 <= year < 10000 then PadStartDecimal(year, 4); PadStart(Decimal(eraYear), 4)
    else PadStart(Decimal(eraYear), 4)
  }

  /** The year 2024 prints as `2024`. */
  lemma YearTokenOf2024()
    ensures YearToken(2024) == "2024"
  {
    assert FixedDigits(0, 0) == [];
    assert FixedDigits(2, 1) == "2";
    assert FixedDigits(20, 2) == "20";
    assert FixedDigits(202, 3) == "202";
    assert FixedDigits(2024, 4) == "2024";
  }

  /** Tokens `MM` and `dd`: a number zero-padded to two digits. */
  function TwoDigitToken(n: nat): (s: string)
    ensures n < 100 ==> s == FixedDigits(n, 2)
  {
    if n < 100 then PadStartDecimal(n, 2); PadStart(Decimal(n), 2) else PadStart(Decimal(n), 2)
  }

  /** Abbreviated weekday names of the en-US locale, indexed by `getDay()` (0 is Sunday). */
  const SHORT_DAY_NAMES: seq<string> := ["Sun", "Mon", "Tue", "Wed", "Thu", "Fri", "Sat"]

  /** Full month names of the en-US locale, indexed by `getMonth()`. */
  const LONG_MONTH_NAMES: seq<string> := [
    "January", "February", "March", "April", "May", "June",
    "July", "August", "September", "October", "November", "December"]

  /** `getDay()`: 0 for Sunday through 6 for Saturday. */
  function JsDay(d: Day): (n: int)
    requires IsValid(d)
    ensures 0 <= n < 7
  {
    (Weekday(d) + 1) % 7
  }

  /** Token `EEE`. */
  function ShortDayName(d: Day): string
    requires IsValid(d)
  {
    SHORT_DAY_NAMES[JsDay(d)]
  }

  /** Token `MMMM`. */
  function LongMonthName(month: int): string
    requires 0 <= month < 12
  {
    LONG_MONTH_NAMES[month]
  }
}
