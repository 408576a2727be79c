/**
 * The DateKey codec: a calendar day and its `YYYY-MM-DD` key (the
 * `full-date` form of section 5.6 of RFC 3339), and the day heading shown
 * above a date's notes.
 */
module DateHelpers {
  import opened Optional
  import opened JsText
  import opened Gregorian
  import opened DateFns
  import opened NotesTypes

  /**
   * `format(date, 'yyyy-MM-dd')`: month shown 1-based. For years 1 to 9999
   * the key is the year in four digits, the 1-based month in two and the day
   * in two, each zero-padded, joined by `-`.
   */
  function DateToDateKey(date: Day): (key: DateKey)
    requires IsValid(date)
    ensures 1 <= date.year < 10000 ==>
      key == FixedDigits(date.year, 4) + "-" + FixedDigits(date.month + 1, 2) + "-" + FixedDigits(date.day, 2)
  {
    YearToken(date.year) + "-" + TwoDigitToken(date.month + 1) + "-" + TwoDigitToken(date.day)
  }

  /** The form `new Date(text)` reads as a date-only ISO date: four digits, `-`, two digits, `-`, two digits. */
  predicate IsDateKeyShape(key: string)
  {
    && |key| == 10 && key[4] == '-' && key[7] == '-'
    && AllDigits(key[0..4]) && AllDigits(key[5..7]) && AllDigits(key[8..10])
  }

  /**
   * `new Date(key)`: a date-only ISO date names that day (at UTC midnight);
   * anything else, or a month or day that does not exist, is an invalid date (None).
   */
  function DateKeyToDate(key: DateKey): (date: Option<Day>)
    ensures date.Some? ==> IsValid(date.value) && 0 <= date.value.year < 10000
    ensures date.Some? ==> IsDateKeyShape(key)
  {
    if IsDateKeyShape(key) then
      var year := DigitsValue(key[0..4]);
      var month := DigitsValue(key[5..7]);
      var day := DigitsValue(key[8..10]);
      if 1 <= month <= 12 && 1 <= day <= DaysInMonth(year, month - 1) then Some(Day(year, month - 1, day))
      else None
    else None
  }

  /**
   * `format(dateKeyToDate(key), 'EEE, yyyy-MM-dd')`. An invalid date makes
   * `format` throw a RangeError, shown here as None.
   */
  function FormatDateForDisplay(key: DateKey): (text: Option<string>)
    ensures text.Some? <==> DateKeyToDate(key).Some?
  {
    match DateKeyToDate(key)
    case None => None
    case Some(date) => Some(ShortDayName(date) + ", " + DateToDateKey(date))
  }

  /**
   * For a year of at most four digits the key is ten characters: the year in
   * four digits, `-`, the 1-based month in two digits, `-`, the day in two digits.
   */
  lemma DateKeyShape(date: Day)
    requires IsValid(date) && 1 <= date.year < 10000
    ensures var key := DateToDateKey(date);
      && IsDateKeyShape(key)
      && key[0..4] == FixedDigits(date.year, 4) && DigitsValue(key[0..4]) == date.year
      && key[5..7] == FixedDigits(date.month + 1, 2) && DigitsValue(key[5..7]) == date.month + 1
      && key[8..10] == FixedDigits(date.day, 2) && DigitsValue(key[8..10]) == date.day
  {
    PaddedKeyShape(DateToDateKey(date), date.year, date.month + 1, date.day);
  }

  /** A key joined from four, two and two zero-padded digits has the date-only shape, and its fields read back as those numbers. */
  lemma PaddedKeyShape(key: string, year: nat, month: nat, day: nat)
    requires year < 10000 && month < 100 && day < 100
    requires key == FixedDigits(year, 4) + "-" + FixedDigits(month, 2) + "-" + FixedDigits(day, 2)
    ensures IsDateKeyShape(key)
    ensures key[0..4] == FixedDigits(year, 4) && DigitsValue(key[0..4]) == year
    ensures key[5..7] == FixedDigits(month, 2) && DigitsValue(key[5..7]) == month
    ensures key[8..10] == FixedDigits(day, 2) && DigitsValue(key[8..10]) == day
  {
    KeyParts(FixedDigits(year, 4), FixedDigits(month, 2), FixedDigits(day, 2));
    FixedDigitsValue(year, 4);
    FixedDigitsValue(month, 2);
    FixedDigitsValue(day, 2);
  }

  /** Parsing a day's key gives back the day, for years 1 to 9999. */
  lemma DateKeyRoundTrip(date: Day)
    requires IsValid(date) && 1 <= date.year < 10000
    ensures DateKeyToDate(DateToDateKey(date)) == Some(date)
  {
    DateKeyShape(date);
  }

  /** Every key that parses to a day of year 1 or later is that day's key: the key of a day is unique. */
  lemma DateKeyCanonical(key: DateKey)
    requires DateKeyToDate(key).Some? && DateKeyToDate(key).value.year >= 1
    ensures DateToDateKey(DateKeyToDate(key).value) == key
  {
    var date := DateKeyToDate(key).value;
    var y, m, d := key[0..4], key[5..7], key[8..10];
    assert date == Day(DigitsValue(y), DigitsValue(m) - 1, DigitsValue(d));
    FixedDigitsOfValue(y);
    FixedDigitsOfValue(m);
    FixedDigitsOfValue(d);
    assert YearToken(date.year) == y;
    assert TwoDigitToken(date.month + 1) == m && TwoDigitToken(date.day) == d;
    assert DateToDateKey(date) == y + "-" + m + "-" + d;
    KeySplit(key);
  }

  /** A key joined from a four-character and two two-character parts, and the parts cut back out of it. */
  lemma KeyParts(y: string, m: string, d: string)
    requires |y| == 4 && |m| == 2 && |d| == 2
    ensures var key := y + "-" + m + "-" + d;
      && |key| == 10 && key[4] == '-' && key[7] == '-'
      && key[0..4] == y && key[5..7] == m && key[8..10] == d
  {
  }

  /** A ten-character text with dashes at 4 and 7 is its three parts joined by dashes. */
  lemma KeySplit(key: string)
    requires |key| == 10 && key[4] == '-' && key[7] == '-'
    ensures key == key[0..4] + "-" + key[5..7] + "-" + key[8..10]
  {
    var joined := key[0..4] + "-" + key[5..7] + "-" + key[8..10];
    forall i | 0 <= i < 10
      ensures key[i] == joined[i]
    {
      if i < 4 {
        assert key[i] == key[0..4][i];
      } else if 4 < i < 7 {
        assert key[i] == key[5..7][i - 5];
      } else if 7 < i {
        assert key[i] == key[8..10][i - 8];
      }
    }
  }

  /** Distinct days of years 1 to 9999 have distinct keys. */
  lemma DateKeyInjective(a: Day, b: Day)
    requires IsValid(a) && 1 <= a.year < 10000
    requires IsValid(b) && 1 <= b.year < 10000
    requires DateToDateKey(a) == DateToDateKey(b)
    ensures a == b
  {
    DateKeyRoundTrip(a);
    DateKeyRoundTrip(b);
  }

  /**
   * The era year writes a year `y <= 0` (the year `1 - y` BC) as `1 - y`, so
   * such a day shares its key with the same day of year `1 - y`: year 0 with
   * year 1, and the round trip stops at year 1.
   */
  lemma EraYearKeysCollide(early: Day, late: Day)
    requires IsValid(early) && IsValid(late) && early.year <= 0 && late.year == 1 - early.year
    requires early.month == late.month && early.day == late.day
    ensures early != late && DateToDateKey(early) == DateToDateKey(late)
  {
    EraYearToken(early.year);
    assert TwoDigitToken(early.month + 1) == TwoDigitToken(late.month + 1);
    assert TwoDigitToken(early.day) == TwoDigitToken(late.day);
    DateKeyParts(early);
    DateKeyParts(late);
  }

  /** A year `y <= 0` prints as the year `1 - y`. */
  lemma EraYearToken(y: int)
    requires y <= 0
    ensures YearToken(y) == YearToken(1 - y)
  {
    assert YearToken(y) == PadStart(Decimal(1 - y), 4);
  }

  /** A day's key is its year token, its 1-based month token and its day token, joined by `-`. */
  lemma DateKeyParts(date: Day)
    requires IsValid(date)
    ensures DateToDateKey(date) == YearToken(date.year) + "-" + TwoDigitToken(date.month + 1) + "-" + TwoDigitToken(date.day)
  {
  }

  /**
   * The heading of a well-formed key is the day's weekday abbreviation, ", ",
   * then the key itself. This holds per calendar day, with parsing and
   * formatting on one calendar; in a time zone west of UTC the engine parses
   * the key as UTC midnight and formats the local previous day instead.
   */
  lemma DisplayEndsWithKey(key: DateKey)
    requires DateKeyToDate(key).Some? && DateKeyToDate(key).value.year >= 1
    ensures FormatDateForDisplay(key) == Some(ShortDayName(DateKeyToDate(key).value) + ", " + key)
  {
    DateKeyCanonical(key);
  }

  /** The date 2024-01-02 has key "2024-01-02", and that key parses back to it. */
  lemma SecondOfJanuary2024Key(key: DateKey)
    requires key == "2024-01-02"
    ensures DateToDateKey(Day(2024, 0, 2)) == key
    ensures DateKeyToDate(key) == Some(Day(2024, 0, 2))
  {
    KeyOfSecondOfJanuary2024(key);
    DateKeyRoundTrip(Day(2024, 0, 2));
  }

  lemma KeyOfSecondOfJanuary2024(key: DateKey)
    requires key == "2024-01-02"
    ensures DateToDateKey(Day(2024, 0, 2)) == key
  {
    YearTokenOf2024();
    TwoDigitTokensOfOneAndTwo();
    assert "2024" + "-" + "01" + "-" + "02" == key;
  }

  /** The tokens of January and of the second: `01` and `02`. */
  lemma TwoDigitTokensOfOneAndTwo()
    ensures TwoDigitToken(1) == "01" && TwoDigitToken(2) == "02"
  {
    assert FixedDigits(0, 0) == [];
    assert FixedDigits(0, 1) == "0";
    assert FixedDigits(1, 2) == "01";
    assert FixedDigits(2, 2) == "02";
  }

  /**
   * 2024-01-02 was a Tuesday, so a key naming that day (such as "2024-01-02")
   * is headed "Tue, " and the key, per calendar day as in DisplayEndsWithKey
   * (west of UTC the engine shows the previous day).
   */
  lemma SecondOfJanuary2024Display(key: DateKey)
    requires DateKeyToDate(key) == Some(Day(2024, 0, 2))
    ensures FormatDateForDisplay(key) == Some("Tue, " + key)
  {
    SecondOfJanuary2024IsTuesday();
    DisplayEndsWithKey(key);
    TuesdayHeading(ShortDayName(Day(2024, 0, 2)), key);
  }

  /** Joining the name "Tue" to a key with ", " gives "Tue, " and the key. */
  lemma TuesdayHeading(name: string, key: string)
    requires name == "Tue"
    ensures name + ", " + key == "Tue, " + key
  {
    assert name + ", " == "Tue, ";
  }

  /** 2024-01-02 is day 739252 of the count, a Tuesday. */
  lemma SecondOfJanuary2024IsTuesday()
    ensures IsValid(Day(2024, 0, 2)) && ShortDayName(Day(2024, 0, 2)) == "Tue"
  {
    var date := Day(2024, 0, 2);
    assert DaysBeforeYear(2024) == 739251;
    assert DayIndex(date) == 739252;
    assert Weekday(date) == 1;
    assert JsDay(date) == 2;
  }
}
