/**
 * The day-difference engine: reads two `YYYY-MM-DD` dates, checks them against the
 * proleptic Gregorian calendar (years 1 to 9999), numbers each date by the days
 * elapsed since the start of year 1, and answers the absolute difference.
 */
module DaysCalculator {
  import opened Wrappers
  import opened Exceptions
  import opened Text
  import opened JavaInts

  /** A year, month and day as read from the text; `IsValid` says it names a calendar date. */
  datatype Date = Date(year: int, month: int, day: int)
  {
    predicate IsValid()
    {
      && 1 <= year <= 9999
      && 1 <= month <= 12
      && 1 <= day <= DaysInMonth(year, month).value
    }
  }

  /** Whether `a` comes strictly before `b` in the calendar (LocalDate.isBefore): by year, then month, then day. */
  predicate Precedes(a: Date, b: Date)
  {
    || a.year < b.year
    || (a.year == b.year && a.month < b.month)
    || (a.year == b.year && a.month == b.month && a.day < b.day)
  }

  // ---------------------------------------------------------------------------
  // Leap years and month lengths

  /** The Gregorian rule, checked in the order 400, 100, 4. */
  function IsLeapYear(year: int): (leap: bool)
    ensures leap <==> year % 4 == 0 && (year % 100 != 0 || year % 400 == 0)
  {
    if year % 400 == 0 then true
    else if year % 100 == 0 then false
    else year % 4 == 0
  }

  /** The days of a month; any month number outside 1..12 throws InvalidDate. */
  function DaysInMonth(year: int, month: int): (r: Result<int, Error>)
    ensures r.Success? <==> 1 <= month <= 12
    ensures r.Failure? ==> r.error == InvalidDate
    ensures r.Success? && month != 2 ==> r.value == 30 + (month + month / 8) % 2
    ensures r.Success? && month == 2 ==> r.value == if IsLeapYear(year) then 29 else 28
  {
    if month in {1, 3, 5, 7, 8, 10, 12} then Success(31)
    else if month in {4, 6, 9, 11} then Success(30)
    else if month == 2 then Success(if IsLeapYear(year) then 29 else 28)
    else Failure(InvalidDate)
  }

  function YearLength(year: int): int
  {
    if IsLeapYear(year) then 366 else 365
  }

  // ---------------------------------------------------------------------------
  // Day numbers

  /** The days of the years 1 .. year-1, in closed form: 365 a year plus one per leap year. */
  function DaysBeforeYear(year: int): int
    requires year >= 1
  {
    365 * (year - 1) + (year - 1) / 4 - (year - 1) / 100 + (year - 1) / 400
  }

  /** The days of January .. month-1 of `year`. */
  function DaysBeforeMonth(year: int, month: int): int
    requires 1 <= month <= 12
  {
    [0, 31, 59, 90, 120, 151, 181, 212, 243, 273, 304, 334][month - 1]
      + (if month > 2 && IsLeapYear(year) then 1 else 0)
  }

  /** The day number of a date: days since the start of year 1, counting 0001-01-01 as day 1. */
  function DayNumber(d: Date): int
    requires d.IsValid()
  {
    DaysBeforeYear(d.year) + DaysBeforeMonth(d.year, d.month) + d.day
  }

  /** Each year adds its own length to the closed form. */
  lemma DaysBeforeYearStep(year: int)
    requires year >= 1
    ensures DaysBeforeYear(year + 1) == DaysBeforeYear(year) + YearLength(year)
  {
    QuotientStep4(year);
    QuotientStep100(year);
    QuotientStep400(year);
    MultiplesNest(year);
  }

  /** A multiple of 400 is a multiple of 100, and a multiple of 100 is a multiple of 4. */
  lemma MultiplesNest(year: int)
    ensures year % 400 == 0 ==> year % 100 == 0
    ensures year % 100 == 0 ==> year % 4 == 0
  {
    if year % 400 == 0 {
      Hundreds(4 * (year / 400));
    }
    if year % 100 == 0 {
      Fours(25 * (year / 100));
    }
  }

  lemma Hundreds(k: int)
    ensures (100 * k) % 100 == 0
  {
  }

  lemma Fours(k: int)
    ensures (4 * k) % 4 == 0
  {
  }

  /** Moving from year-1 to year passes a multiple of 4 exactly when year is one. */
  lemma QuotientStep4(year: int)
    ensures year / 4 - (year - 1) / 4 == if year % 4 == 0 then 1 else 0
  {
  }

  lemma QuotientStep100(year: int)
    ensures year / 100 - (year - 1) / 100 == if year % 100 == 0 then 1 else 0
  {
  }

  lemma QuotientStep400(year: int)
    ensures year / 400 - (year - 1) / 400 == if year % 400 == 0 then 1 else 0
  {
  }

  /** Each month adds its own length. */
  lemma DaysBeforeMonthStep(year: int, month: int)
    requires 1 <= month <= 11
    ensures DaysBeforeMonth(year, month + 1) == DaysBeforeMonth(year, month) + DaysInMonth(year, month).value
  {
  }

  /** December ends the year: the twelve months add up to the year's length. */
  lemma MonthsFillYear(year: int)
    ensures DaysBeforeMonth(year, 12) + DaysInMonth(year, 12).value == YearLength(year)
  {
  }

  /**
   * convertDateToDays: adds up the length of every earlier year, then of every
   * earlier month of the year, then the day. The loops agree with the closed form.
   */
  method ConvertDateToDays(date: Date) returns (totalDays: int)
    requires date.IsValid()
    ensures totalDays == DayNumber(date)
  {
    totalDays := 0;
    for y := 1 to date.year
      invariant totalDays == DaysBeforeYear(y)
    {
      totalDays := totalDays + if IsLeapYear(y) then 366 else 365;
      DaysBeforeYearStep(y);
    }
    for m := 1 to date.month
      invariant totalDays == DaysBeforeYear(date.year) + DaysBeforeMonth(date.year, m)
    {
      totalDays := totalDays + DaysInMonth(date.year, m).value;
      DaysBeforeMonthStep(date.year, m);
    }
    totalDays := totalDays + date.day;
  }

  // ---------------------------------------------------------------------------
  // Reading the text

  /** The value of a string of decimal digits, most significant first. */
  function DigitsValue(s: string): nat
    requires AllDigits(s)
  {
    if s == [] then 0 else DigitsValue(s[..|s| - 1]) * 10 + (s[|s| - 1] as int - '0' as int)
  }

  /** Integer.parseInt: an optional sign, then one or more decimal digits, within the `int` range. */
  function ParseInt(s: string): (r: Option<int>)
    ensures r.Some? ==> IsInt32(r.value)
    ensures r.Some? ==> (|s| >= 1 && AllDigits(s)) || (|s| >= 2 && (s[0] == '+' || s[0] == '-') && AllDigits(s[1..]))
    ensures s == "" || s == "+" || s == "-" ==> r.None?
    ensures |s| >= 1 && AllDigits(s) ==>
      r == if DigitsValue(s) <= Int32Max then Some(DigitsValue(s)) else None
    ensures |s| >= 2 && s[0] == '+' && AllDigits(s[1..]) ==>
      r == if DigitsValue(s[1..]) <= Int32Max then Some(DigitsValue(s[1..])) else None
    ensures |s| >= 2 && s[0] == '-' && AllDigits(s[1..]) ==>
      r == if DigitsValue(s[1..]) <= -Int32Min then Some(0 - DigitsValue(s[1..]) as int) else None
  {
    if s == [] then None
    else
      var digits := if s[0] == '-' || s[0] == '+' then s[1..] else s;
      if digits == [] || !AllDigits(digits) then None
      else
        var v: int := if s[0] == '-' then 0 - DigitsValue(digits) as int else DigitsValue(digits);
        if Int32Min <= v <= Int32Max then Some(v) else None
  }

  /** Drops empty strings from the end of a list, as String.split does. */
  function DropTrailingEmpty(fs: seq<string>): (r: seq<string>)
    ensures r <= fs
    ensures r == [] || r[|r| - 1] != ""
    ensures forall i :: |r| <= i < |fs| ==> fs[i] == ""
  {
    if |fs| > 0 && fs[|fs| - 1] == "" then DropTrailingEmpty(fs[..|fs| - 1]) else fs
  }

  /** String.split("-"): every hyphen-separated field, trailing empty fields dropped; no hyphen gives the text itself. */
  function SplitOnHyphen(s: string): (parts: seq<string>)
    ensures '-' !in s ==> parts == [s]
    ensures forall i :: 0 <= i < |parts| ==> '-' !in parts[i]
    ensures '-' in s ==> parts == [] || parts[|parts| - 1] != ""
    ensures Join(parts, '-') <= s
    ensures forall i :: |Join(parts, '-')| <= i < |s| ==> s[i] == '-'
  {
    if '-' !in s then [s]
    else
      JoinDropsTrailingSeparators(Fields(s, '-'), '-');
      DropTrailingEmpty(Fields(s, '-'))
  }

  /** Dropping trailing empty fields drops only trailing separators from their join. */
  lemma {:induction false} JoinDropsTrailingSeparators(fs: seq<string>, sep: char)
    ensures Join(DropTrailingEmpty(fs), sep) <= Join(fs, sep)
    ensures forall i :: |Join(DropTrailingEmpty(fs), sep)| <= i < |Join(fs, sep)| ==> Join(fs, sep)[i] == sep
  {
    if |fs| > 0 && fs[|fs| - 1] == "" {
      var init := fs[..|fs| - 1];
      assert fs == init + [""];
      JoinDropsTrailingSeparators(init, sep);
      if |init| >= 1 {
        JoinSnoc(init, "", sep);
      }
    }
  }

  /** parseDate: splits on hyphens and parses the year, month and day as integers. */
  function ParseDate(text: Option<string>): (r: Result<(int, int, int), Error>)
    ensures text.None? || text.value == [] ==> r == Failure(InvalidDate)
    ensures text.Some? && |SplitOnHyphen(text.value)| != 3 ==> r == Failure(InvalidDate)
    ensures text.Some? && |SplitOnHyphen(text.value)| == 3 &&
            (|| ParseInt(SplitOnHyphen(text.value)[0]).None?
             || ParseInt(SplitOnHyphen(text.value)[1]).None?
             || ParseInt(SplitOnHyphen(text.value)[2]).None?)
            ==> r == Failure(InvalidDate)
    ensures text.Some? && text.value != [] && |SplitOnHyphen(text.value)| == 3 &&
            ParseInt(SplitOnHyphen(text.value)[0]).Some? &&
            ParseInt(SplitOnHyphen(text.value)[1]).Some? &&
            ParseInt(SplitOnHyphen(text.value)[2]).Some?
            ==> r.Success?
    ensures r.Success? ==> var parts := SplitOnHyphen(text.value);
      |parts| == 3 && r.value == (ParseInt(parts[0]).value, ParseInt(parts[1]).value, ParseInt(parts[2]).value)
    ensures r.Failure? ==> r.error == InvalidDate
  {
    if text.None? || text.value == [] then Failure(InvalidDate)
    else
      var parts := SplitOnHyphen(text.value);
      if |parts| != 3 then Failure(InvalidDate)
      else
        var year, month, day := ParseInt(parts[0]), ParseInt(parts[1]), ParseInt(parts[2]);
        if year.None? || month.None? || day.None? then Failure(InvalidDate)
        else Success((year.value, month.value, day.value))
  }

  /** validateDate: year 1..9999, month 1..12, day 1..length of the month, with no clamping. */
  function ValidateDate(date: (int, int, int)): (r: Result<Date, Error>)
    ensures r.Success? <==> Date(date.0, date.1, date.2).IsValid()
    ensures r.Success? ==> r.value == Date(date.0, date.1, date.2) && r.value.IsValid()
    ensures r.Failure? ==> r.error == InvalidDate
  {
    var (year, month, day) := date;
    if year < 1 || year > 9999 then Failure(InvalidDate)
    else if month < 1 || month > 12 then Failure(InvalidDate)
    else
      var maxDay := DaysInMonth(year, month).value;
      if day < 1 || day > maxDay then Failure(InvalidDate)
      else Success(Date(year, month, day))
  }

  /** A date text read and checked, as calculateDays does for each argument. */
  function DateOf(text: Option<string>): (r: Result<Date, Error>)
    ensures r.Success? ==> r.value.IsValid()
  {
    match ParseDate(text)
    case Failure(e) => Failure(e)
    case Success(parsed) => ValidateDate(parsed)
  }

  /** The number of days between two dates, whichever comes first. */
  function DaysBetween(a: Date, b: Date): nat
    requires a.IsValid() && b.IsValid()
  {
    if DayNumber(b) >= DayNumber(a) then DayNumber(b) - DayNumber(a) else DayNumber(a) - DayNumber(b)
  }

  /**
   * calculateDays: reads both dates, checks both, numbers both and answers the
   * absolute difference; any problem with either text is InvalidDate.
   */
  method CalculateDays(startDateStr: Option<string>, endDateStr: Option<string>) returns (r: Result<int, Error>)
    ensures r.Success? <==> DateOf(startDateStr).Success? && DateOf(endDateStr).Success?
    ensures r.Success? ==> r.value == DaysBetween(DateOf(startDateStr).value, DateOf(endDateStr).value)
    ensures r.Failure? ==> r.error == InvalidDate
  {
    var startDate := ParseDate(startDateStr);
    ReadInTwoSteps(startDateStr);
    if startDate.Failure? {
      return Failure(startDate.error);
    }
    var endDate := ParseDate(endDateStr);
    ReadInTwoSteps(endDateStr);
    if endDate.Failure? {
      return Failure(endDate.error);
    }
    var start := ValidateDate(startDate.value);
    if start.Failure? { return Failure(start.error); }
    var end := ValidateDate(endDate.value);
    if end.Failure? { return Failure(end.error); }
    var startDays := ConvertDateToDays(start.value);
    var endDays := ConvertDateToDays(end.value);
    DistanceOfDayNumbers(start.value, end.value, startDays, endDays);
    r := Success(if endDays - startDays >= 0 then endDays - startDays else startDays - endDays);
  }

  /** Reading a date is parsing it, then validating what was parsed; a parse failure is the outcome. */
  lemma ReadInTwoSteps(text: Option<string>)
    ensures ParseDate(text).Failure? ==> DateOf(text) == Failure(ParseDate(text).error)
    ensures ParseDate(text).Success? ==> DateOf(text) == ValidateDate(ParseDate(text).value)
  {
  }

  /** Math.abs of the difference of the two day numbers is the distance between the dates. */
  lemma DistanceOfDayNumbers(a: Date, b: Date, na: int, nb: int)
    requires a.IsValid() && b.IsValid() && na == DayNumber(a) && nb == DayNumber(b)
    ensures DaysBetween(a, b) == if nb - na >= 0 then nb - na else na - nb
  {
  }

  // ---------------------------------------------------------------------------
  // Properties of the day numbers

  /** The year-by-year sum grows by at least 365 a year. */
  lemma {:induction false} DaysBeforeYearGrows(y1: int, y2: int)
    requires 1 <= y1 <= y2
    ensures DaysBeforeYear(y2) >= DaysBeforeYear(y1) + 365 * (y2 - y1)
    decreases y2 - y1
  {
    if y1 < y2 {
      DaysBeforeYearGrows(y1, y2 - 1);
      DaysBeforeYearStep(y2 - 1);
    }
  }

  /** A month ends no later than its year does. */
  lemma MonthEndWithinYear(year: int, month: int)
    requires 1 <= month <= 12
    ensures DaysBeforeMonth(year, month) + DaysInMonth(year, month).value <= YearLength(year)
  {
  }

  /** An earlier month of the same year ends no later than a later one starts. */
  lemma MonthsInOrder(year: int, m1: int, m2: int)
    requires 1 <= m1 < m2 <= 12
    ensures DaysBeforeMonth(year, m1) + DaysInMonth(year, m1).value <= DaysBeforeMonth(year, m2)
  {
  }

  /** Calendar order and day-number order agree: a date comes first exactly when its number is smaller. */
  lemma PrecedesIffSmallerDayNumber(a: Date, b: Date)
    requires a.IsValid() && b.IsValid()
    ensures Precedes(a, b) <==> DayNumber(a) < DayNumber(b)
  {
    if a.year < b.year {
      EarlierYearSmaller(a, b);
    } else if b.year < a.year {
      EarlierYearSmaller(b, a);
    } else if a.month < b.month {
      MonthsInOrder(a.year, a.month, b.month);
    } else if b.month < a.month {
      MonthsInOrder(a.year, b.month, a.month);
    }
  }

  lemma EarlierYearSmaller(a: Date, b: Date)
    requires a.IsValid() && b.IsValid() && a.year < b.year
    ensures DayNumber(a) < DayNumber(b)
  {
    MonthEndWithinYear(a.year, a.month);
    DaysBeforeYearStep(a.year);
    DaysBeforeYearGrows(a.year + 1, b.year);
  }

  /** Two valid dates share a day number only when they are the same date. */
  lemma DayNumberInjective(a: Date, b: Date)
    requires a.IsValid() && b.IsValid() && DayNumber(a) == DayNumber(b)
    ensures a == b
  {
    PrecedesIffSmallerDayNumber(a, b);
    PrecedesIffSmallerDayNumber(b, a);
  }

  /** Day numbers of valid dates run from 1 (0001-01-01) to 3652059 (9999-12-31), well inside an `int`. */
  lemma DayNumberBounds(d: Date)
    requires d.IsValid()
    ensures 1 <= DayNumber(d) <= 3652059
  {
    PrecedesIffSmallerDayNumber(Date(1, 1, 1), d);
    PrecedesIffSmallerDayNumber(d, Date(9999, 12, 31));
  }

  /** The calendar date after `d`. */
  function NextDay(d: Date): Date
    requires d.IsValid()
  {
    if d.day < DaysInMonth(d.year, d.month).value then Date(d.year, d.month, d.day + 1)
    else if d.month < 12 then Date(d.year, d.month + 1, 1)
    else Date(d.year + 1, 1, 1)
  }

  /** Consecutive calendar days have consecutive day numbers. */
  lemma NextDayIsOneLater(d: Date)
    requires d.IsValid() && d != Date(9999, 12, 31)
    ensures NextDay(d).IsValid() && Precedes(d, NextDay(d))
    ensures DayNumber(NextDay(d)) == DayNumber(d) + 1
  {
    if d.day < DaysInMonth(d.year, d.month).value {
    } else if d.month < 12 {
      DaysBeforeMonthStep(d.year, d.month);
    } else {
      MonthsFillYear(d.year);
      DaysBeforeYearStep(d.year);
    }
  }

  /** From 1 January of one year to 1 January of the next: 366 days after a leap year, else 365. */
  lemma NewYearToNewYear(year: int)
    requires 1 <= year < 9999
    ensures DaysBetween(Date(year, 1, 1), Date(year + 1, 1, 1)) == if IsLeapYear(year) then 366 else 365
  {
    DaysBeforeYearStep(year);
  }

  /** The difference does not depend on the order of the two dates. */
  lemma DaysBetweenSymmetric(a: Date, b: Date)
    requires a.IsValid() && b.IsValid()
    ensures DaysBetween(a, b) == DaysBetween(b, a)
  {
  }

  /** The difference is zero exactly when both dates are the same. */
  lemma DaysBetweenZeroIff(a: Date, b: Date)
    requires a.IsValid() && b.IsValid()
    ensures DaysBetween(a, b) == 0 <==> a == b
  {
    if DaysBetween(a, b) == 0 {
      DayNumberInjective(a, b);
    }
  }

  /** For dates in calendar order, the differences add up along the way. */
  lemma DaysBetweenAdditive(a: Date, b: Date, c: Date)
    requires a.IsValid() && b.IsValid() && c.IsValid()
    requires !Precedes(b, a) && !Precedes(c, b)
    ensures DaysBetween(a, c) == DaysBetween(a, b) + DaysBetween(b, c)
  {
    PrecedesIffSmallerDayNumber(b, a);
    PrecedesIffSmallerDayNumber(c, b);
  }

  /** 2000 is a leap year and 1900 is not; differences across a leap year, across century years, and in reverse order. */
  lemma CalendarDistances()
    ensures IsLeapYear(2000) && !IsLeapYear(1900) && IsLeapYear(2024) && !IsLeapYear(2023)
    ensures DaysBetween(Date(2024, 1, 1), Date(2025, 1, 1)) == 366
    ensures DaysBetween(Date(2023, 1, 1), Date(2024, 1, 1)) == 365
    ensures DaysBetween(Date(2000, 1, 1), Date(2001, 1, 1)) == 366
    ensures DaysBetween(Date(1900, 1, 1), Date(1901, 1, 1)) == 365
    ensures DaysBetween(Date(1900, 1, 1), Date(2000, 1, 1)) == 36524
    ensures DaysBetween(Date(2024, 2, 28), Date(2024, 3, 1)) == 2
    ensures DaysBetween(Date(2024, 1, 1), Date(2023, 1, 1)) == 365
  {
  }

  // ---------------------------------------------------------------------------
  // Writing a date back as text

  /** Ten to the power `n`: the first number too large for `n` decimal digits. */
  function Pow10(n: nat): (p: nat)
    ensures p >= 1
  {
    if n == 0 then 1 else 10 * Pow10(n - 1)
  }

  /** `n` written with exactly `width` decimal digits, zero-padded on the left. */
  function PadDigits(n: nat, width: nat): (s: string)
    ensures |s| == width && AllDigits(s)
  {
    if width == 0 then [] else PadDigits(n / 10, width - 1) + [DigitChar(n % 10)]
  }

  /** Reading zero-padded digits gives the number back when it fits the width. */
  lemma {:induction false} DigitsValueOfPad(n: nat, width: nat)
    requires n < Pow10(width)
    ensures DigitsValue(PadDigits(n, width)) == n
  {
    if width > 0 {
      var s := PadDigits(n, width);
      assert s[..|s| - 1] == PadDigits(n / 10, width - 1);
      assert s[|s| - 1] == DigitChar(n % 10);
      assert n / 10 < Pow10(width - 1);
      DigitsValueOfPad(n / 10, width - 1);
      assert DigitsValue(s) == DigitsValue(PadDigits(n / 10, width - 1)) * 10 + n % 10;
    }
  }

  /** A valid date as `YYYY-MM-DD` (the full-date form of section 5.6 of RFC 3339). */
  function FormatDate(d: Date): string
    requires d.IsValid()
  {
    PadDigits(d.year, 4) + "-" + PadDigits(d.month, 2) + "-" + PadDigits(d.day, 2)
  }

  lemma ParseIntOfPad(n: nat, width: nat)
    requires 1 <= width <= 4 && n < Pow10(width)
    ensures ParseInt(PadDigits(n, width)) == Some(n)
  {
    assert Pow10(4) == 10000 by {
      assert Pow10(2) == 100;
    }
    assert n <= 9999 by {
      Pow10Grows(width, 4);
    }
    DigitsValueOfPad(n, width);
  }

  lemma {:induction false} Pow10Grows(a: nat, b: nat)
    requires a <= b
    ensures Pow10(a) <= Pow10(b)
    decreases b - a
  {
    if a < b {
      Pow10Grows(a, b - 1);
    }
  }

  /** The formatted date splits at its two hyphens into the three padded numbers. */
  lemma FormattedFields(d: Date)
    requires d.IsValid()
    ensures SplitOnHyphen(FormatDate(d)) == [PadDigits(d.year, 4), PadDigits(d.month, 2), PadDigits(d.day, 2)]
  {
    var y, m, dd := PadDigits(d.year, 4), PadDigits(d.month, 2), PadDigits(d.day, 2);
    DigitsHaveNoHyphen(y);
    DigitsHaveNoHyphen(m);
    DigitsHaveNoHyphen(dd);
    FieldsOfThree(y, m, dd);
    assert FormatDate(d)[4] == '-';
    assert DropTrailingEmpty([y, m, dd]) == [y, m, dd];
  }

  lemma DigitsHaveNoHyphen(s: string)
    requires AllDigits(s)
    ensures '-' !in s
  {
  }

  /** Three hyphen-free parts joined with hyphens split back into the three parts. */
  lemma FieldsOfThree(a: string, b: string, c: string)
    requires '-' !in a && '-' !in b && '-' !in c
    ensures Fields(a + "-" + b + "-" + c, '-') == [a, b, c]
  {
    assert a + "-" + b + "-" + c == a + ['-'] + (b + ['-'] + c);
    FieldsAfterField(a, b + ['-'] + c, '-');
    FieldsAfterField(b, c, '-');
    FieldsOfField(c, '-');
  }

  /** Every valid date, written as `YYYY-MM-DD`, reads back as itself. */
  lemma FormatThenReadIsIdentity(d: Date)
    requires d.IsValid()
    ensures DateOf(Some(FormatDate(d))) == Success(d)
  {
    FormattedFields(d);
    assert Pow10(2) == 100 && Pow10(4) == 10000;
    ParseIntOfPad(d.year, 4);
    ParseIntOfPad(d.month, 2);
    ParseIntOfPad(d.day, 2);
  }
}
