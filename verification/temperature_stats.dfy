/**
 * The temperature statistics service: checks a date range against today, takes the
 * daily series the weather collaborator answered with, reduces each series to its
 * minimum, maximum or mean rounded half-up to two places, and spells each result as
 * a signed temperature text.
 *
 * The clock and the weather call are parameters: `today` is the date the clock
 * reads, and `weather` is what the weather collaborator answered (a failed fetch,
 * or the body, None when null).
 */
module TemperatureStats {
  import opened Wrappers
  import opened Exceptions
  import opened Decimals
  import opened DaysCalculator
  import TemperatureText

  /** OpenMeteoResponse.Daily: three series, each possibly null. */
  datatype Daily = Daily(
    temperatureMax: Option<seq<real>>,
    temperatureMin: Option<seq<real>>,
    temperatureMean: Option<seq<real>>)

  /** OpenMeteoResponse: the daily block, possibly null. */
  datatype OpenMeteoResponse = OpenMeteoResponse(daily: Option<Daily>)

  /**
   * What WeatherService.getTemperatureData answers: the response body (None for a
   * null body), or a failed fetch, whatever its cause, rethrown as WeatherApiException.
   */
  datatype WeatherAnswer = Fetched(body: Option<OpenMeteoResponse>) | FetchFailed

  /** TemperatureResponse: three primitive doubles and their texts. */
  datatype TemperatureResponse = TemperatureResponse(
    min: real, max: real, average: real,
    minText: string, maxText: string, averageText: string)

  // ---------------------------------------------------------------------------
  // The date range

  /**
   * LocalDate.minusYears(1): the same month and day one year earlier, the day
   * clamped to the length of that month (29 February becomes 28 February).
   */
  function MinusOneYear(today: Date): (d: Date)
    requires today.IsValid()
    ensures d.year == today.year - 1 && d.month == today.month
    ensures d.day == today.day || (today.month == 2 && today.day == 29 && d.day == 28)
  {
    var maxDay := DaysInMonth(today.year - 1, today.month).value;
    Date(today.year - 1, today.month, if today.day <= maxDay then today.day else maxDay)
  }

  /**
   * validateDates over already-read dates (None for a text that does not parse):
   * the start must not come after the end, nor after today, nor before the same
   * day one year ago. Every rejection is InvalidDate.
   */
  function ValidateDates(start: Option<Date>, end: Option<Date>, today: Date): (r: Result<(), Error>)
    requires today.IsValid()
    ensures r.Success? <==>
      && start.Some? && end.Some?
      && !Precedes(end.value, start.value)
      && !Precedes(today, start.value)
      && !Precedes(start.value, MinusOneYear(today))
    ensures r.Failure? ==> r.error == InvalidDate
  {
    if start.None? || end.None? then Failure(InvalidDate)            // DateTimeParseException
    else if Precedes(end.value, start.value) then Failure(InvalidDate)  // start.isAfter(end)
    else if Precedes(today, start.value) then Failure(InvalidDate)      // start.isAfter(today)
    else if Precedes(start.value, MinusOneYear(today)) then Failure(InvalidDate)
    else Success(())
  }

  /** One year back from a date is 365 or 366 days back, and is a date again. */
  lemma MinusOneYearDistance(today: Date)
    requires today.IsValid() && today.year >= 2
    ensures MinusOneYear(today).IsValid()
    ensures 365 <= DayNumber(today) - DayNumber(MinusOneYear(today)) <= 366
  {
    DaysBeforeYearStep(today.year - 1);
  }

  /**
   * An accepted range starts no later than it ends, no later than today, and at
   * most 366 days before today.
   */
  lemma AcceptedWindowIsAtMostAYear(start: Date, end: Date, today: Date)
    requires start.IsValid() && end.IsValid() && today.IsValid() && today.year >= 2
    requires ValidateDates(Some(start), Some(end), today).Success?
    ensures DayNumber(start) <= DayNumber(end)
    ensures DayNumber(today) - 366 <= DayNumber(start) <= DayNumber(today)
  {
    MinusOneYearDistance(today);
    PrecedesIffSmallerDayNumber(end, start);
    PrecedesIffSmallerDayNumber(today, start);
    PrecedesIffSmallerDayNumber(start, MinusOneYear(today));
  }

  /** The end date is only held against the start: an end after today is accepted. */
  lemma EndMayFollowToday(start: Date, end: Date, today: Date)
    requires today.IsValid()
    requires ValidateDates(Some(start), Some(start), today).Success?
    requires !Precedes(end, start)
    ensures ValidateDates(Some(start), Some(end), today).Success?
  {
  }

  // ---------------------------------------------------------------------------
  // The reductions

  /** The least element of a non-empty series. */
  function SeqMin(s: seq<real>): (m: real)
    requires |s| > 0
    ensures m in s
    ensures forall x :: x in s ==> m <= x
  {
    if |s| == 1 then s[0]
    else
      var rest := SeqMin(s[1..]);
      assert forall x :: x in s ==> x == s[0] || x in s[1..];
      if s[0] <= rest then s[0] else rest
  }

  /** The greatest element of a non-empty series. */
  function SeqMax(s: seq<real>): (m: real)
    requires |s| > 0
    ensures m in s
    ensures forall x :: x in s ==> x <= m
  {
    if |s| == 1 then s[0]
    else
      var rest := SeqMax(s[1..]);
      assert forall x :: x in s ==> x == s[0] || x in s[1..];
      if s[0] >= rest then s[0] else rest
  }

  function Sum(s: seq<real>): real
  {
    if s == [] then 0.0 else s[0] + Sum(s[1..])
  }

  /** The arithmetic mean of a non-empty series. */
  function Mean(s: seq<real>): real
    requires |s| > 0
  {
    Sum(s) / |s| as real
  }

  /** calculateMin: absent for a null or empty series, else the least element rounded. */
  function CalculateMin(temperatures: Option<seq<real>>): (r: Option<real>)
    ensures r.None? <==> temperatures.None? || |temperatures.value| == 0
    ensures r.Some? ==>
      exists m :: m in temperatures.value && r.value == Round2(m) && forall x :: x in temperatures.value ==> m <= x
    ensures r.Some? ==> Round2(r.value) == r.value
  {
    if temperatures.None? || |temperatures.value| == 0 then None
    else
      var m := SeqMin(temperatures.value);
      RoundIsAtTwoPlaces(m);
      Some(Round2(m))
  }

  /** calculateMax: absent for a null or empty series, else the greatest element rounded. */
  function CalculateMax(temperatures: Option<seq<real>>): (r: Option<real>)
    ensures r.None? <==> temperatures.None? || |temperatures.value| == 0
    ensures r.Some? ==>
      exists m :: m in temperatures.value && r.value == Round2(m) && forall x :: x in temperatures.value ==> x <= m
    ensures r.Some? ==> Round2(r.value) == r.value
  {
    if temperatures.None? || |temperatures.value| == 0 then None
    else
      var m := SeqMax(temperatures.value);
      RoundIsAtTwoPlaces(m);
      Some(Round2(m))
  }

  /** calculateAverage: absent for a null or empty series, else the mean rounded. */
  function CalculateAverage(temperatures: Option<seq<real>>): (r: Option<real>)
    ensures r.None? <==> temperatures.None? || |temperatures.value| == 0
    ensures r.Some? ==> r.value == Round2(Sum(temperatures.value) / |temperatures.value| as real)
    ensures r.Some? ==> Round2(r.value) == r.value
  {
    if temperatures.None? || |temperatures.value| == 0 then None
    else
      var m := Mean(temperatures.value);
      RoundIsAtTwoPlaces(m);
      Some(Round2(m))
  }

  /** A rounded value is already at two places: rounding it again changes nothing. */
  lemma RoundIsAtTwoPlaces(x: real)
    ensures RoundHalfUp(Round2(x)) == RoundHalfUp(x)
    ensures Round2(Round2(x)) == Round2(x)
  {
    RoundHalfUpIdempotent(RoundHalfUp(x));
  }

  /** `n` copies of `x` added up. */
  function Copies(n: nat, x: real): real
  {
    if n == 0 then 0.0 else x + Copies(n - 1, x)
  }

  lemma {:induction false} CopiesIsProduct(n: nat, x: real)
    ensures Copies(n, x) == n as real * x
  {
    if n > 0 {
      CopiesIsProduct(n - 1, x);
      assert n as real * x == (n - 1) as real * x + x;
    }
  }

  /** Every element lies between the bounds, so the sum lies between |s| copies of each bound. */
  lemma {:induction false} SumBetween(s: seq<real>, lo: real, hi: real)
    requires forall x :: x in s ==> lo <= x <= hi
    ensures Copies(|s|, lo) <= Sum(s) <= Copies(|s|, hi)
  {
    if s != [] {
      assert forall x :: x in s[1..] ==> x in s;
      SumBetween(s[1..], lo, hi);
      assert s[0] in s;
    }
  }

  /** The mean of a series lies between its least and its greatest element. */
  lemma MeanBetweenMinAndMax(s: seq<real>)
    requires |s| > 0
    ensures SeqMin(s) <= Mean(s) <= SeqMax(s)
  {
    MeanBetween(s, SeqMin(s), SeqMax(s));
  }

  /** Bounds on every element bound the mean. */
  lemma MeanBetween(s: seq<real>, lo: real, hi: real)
    requires |s| > 0
    requires forall x :: x in s ==> lo <= x <= hi
    ensures lo <= Mean(s) <= hi
  {
    SumBetween(s, lo, hi);
    CopiesIsProduct(|s|, lo);
    CopiesIsProduct(|s|, hi);
    QuotientBetween(Sum(s), |s| as real, lo, hi);
  }

  lemma QuotientBetween(a: real, n: real, lo: real, hi: real)
    requires n > 0.0 && n * lo <= a <= n * hi
    ensures lo <= a / n <= hi
  {
    assert a == n * (a / n);
  }

  /** Rounding keeps that order: the rounded mean lies between the rounded minimum and maximum. */
  lemma RoundedMeanBetween(s: seq<real>)
    requires |s| > 0
    ensures CalculateMin(Some(s)).value <= CalculateAverage(Some(s)).value <= CalculateMax(Some(s)).value
  {
    MeanBetweenMinAndMax(s);
    RoundHalfUpMonotone(SeqMin(s), Mean(s));
    RoundHalfUpMonotone(Mean(s), SeqMax(s));
  }

  // ---------------------------------------------------------------------------
  // The whole request

  /** The text convertTemperatureToText gives a statistic that is absent or rounds to a magnitude below 1000. */
  function StatText(t: Option<real>): string
    requires t.Some? ==> TemperatureText.Abs(RoundHalfUp(t.value)) <= 99999
  {
    if t.None? then "" else TemperatureText.SignedText(RoundHalfUp(t.value))
  }

  /** Whether a statistic is absent or small enough to spell. */
  predicate Spellable(t: Option<real>)
  {
    t.Some? ==> TemperatureText.Abs(RoundHalfUp(t.value)) <= 99999
  }

  /** Whether a statistic rounds to a magnitude of 1000 or more that still fits the word service's `int`. */
  predicate TooLargeToSpell(t: Option<real>)
  {
    t.Some? && 100000 <= TemperatureText.Abs(RoundHalfUp(t.value)) < 100 * 0x8000_0000
  }

  /** Whether a statistic rounds to a magnitude that fits the word service's `int`. */
  predicate WithinInt(t: Option<real>)
  {
    t.Some? ==> TemperatureText.Abs(RoundHalfUp(t.value)) < 100 * 0x8000_0000
  }

  /**
   * getTemperatureStats as written: validates the range first, so a bad range is
   * InvalidDate whatever the weather; a failed fetch is WeatherApiFailure; a null body or
   * null daily block is NoWeatherData; then the three statistics and their texts,
   * and finally the response, whose primitive fields cannot hold an absent statistic.
   */
  method GetTemperatureStats(startDate: Option<Date>, endDate: Option<Date>, today: Date,
                             weather: WeatherAnswer)
    returns (r: Result<TemperatureResponse, Error>)
    requires today.IsValid()
    ensures r == Failure(InvalidDate) <==> ValidateDates(startDate, endDate, today).Failure?
    ensures r == Failure(WeatherApiFailure) <==> ValidateDates(startDate, endDate, today).Success? && weather.FetchFailed?
    ensures ValidateDates(startDate, endDate, today).Success? && weather.Fetched? &&
            (weather.body.None? || weather.body.value.daily.None?)
            ==> r == Failure(NoWeatherData)
    ensures ValidateDates(startDate, endDate, today).Success? && weather.Fetched? &&
            weather.body.Some? && weather.body.value.daily.Some?
            ==>
        var daily := weather.body.value.daily.value;
        var min, max, avg :=
          CalculateMin(daily.temperatureMin), CalculateMax(daily.temperatureMax), CalculateAverage(daily.temperatureMean);
        && (Spellable(min) && Spellable(max) && Spellable(avg) ==>
              r == if min.None? || max.None? || avg.None? then Failure(NullUnboxing)
                   else Success(TemperatureResponse(min.value, max.value, avg.value, StatText(min), StatText(max), StatText(avg))))
        && (WithinInt(min) && WithinInt(max) && WithinInt(avg) &&
            (TooLargeToSpell(min) || TooLargeToSpell(max) || TooLargeToSpell(avg)) ==>
              r == Failure(IndexOutOfBounds))
  {
    var valid := ValidateDates(startDate, endDate, today);
    if valid.Failure? {
      return Failure(valid.error);
    }
    if weather.FetchFailed? {
      return Failure(WeatherApiFailure);
    }
    var weatherData := weather.body;
    if weatherData.None? || weatherData.value.daily.None? {
      return Failure(NoWeatherData);
    }
    var daily := weatherData.value.daily.value;
    var minTemp := CalculateMin(daily.temperatureMin);
    var maxTemp := CalculateMax(daily.temperatureMax);
    var avgTemp := CalculateAverage(daily.temperatureMean);
    var texts := ConvertStatistics(minTemp, maxTemp, avgTemp);
    if texts.Failure? {
      return Failure(texts.error);
    }
    if minTemp.None? || maxTemp.None? || avgTemp.None? {
      return Failure(NullUnboxing);   // new TemperatureResponse(...) unboxes each Double
    }
    var (minText, maxText, avgText) := texts.value;
    r := Success(TemperatureResponse(minTemp.value, maxTemp.value, avgTemp.value, minText, maxText, avgText));
  }

  /** The three convertTemperatureToText calls, in the order min, max, average; the first failure passes through. */
  method ConvertStatistics(min: Option<real>, max: Option<real>, avg: Option<real>)
    returns (r: Result<(string, string, string), Error>)
    ensures Spellable(min) && Spellable(max) && Spellable(avg) ==>
      r == Success((StatText(min), StatText(max), StatText(avg)))
    ensures WithinInt(min) && WithinInt(max) && WithinInt(avg) &&
            (TooLargeToSpell(min) || TooLargeToSpell(max) || TooLargeToSpell(avg))
            ==> r == Failure(IndexOutOfBounds)
    ensures r.Failure? ==> r.error == IndexOutOfBounds
  {
    var minText := TemperatureText.ConvertTemperatureToText(min);
    if minText.Failure? {
      return Failure(minText.error);
    }
    var maxText := TemperatureText.ConvertTemperatureToText(max);
    if maxText.Failure? {
      return Failure(maxText.error);
    }
    var avgText := TemperatureText.ConvertTemperatureToText(avg);
    if avgText.Failure? {
      return Failure(avgText.error);
    }
    r := Success((minText.value, maxText.value, avgText.value));
  }

  // ---------------------------------------------------------------------------
  // An absent statistic

  /**
   * A minimum series that is empty while the others are not: calculateMin returns
   * null, the converter turns it into "", and only the response's primitive `min`
   * field cannot take it, so the as-written request fails with NullUnboxing.
   */
  lemma EmptySeriesLeavesNoMinimum()
    ensures var daily := Daily(Some([25.0]), Some([]), Some([20.0]));
      && CalculateMin(daily.temperatureMin) == None
      && CalculateMax(daily.temperatureMax) == Some(25.0)
      && CalculateAverage(daily.temperatureMean) == Some(20.0)
      && Spellable(CalculateMin(daily.temperatureMin)) && StatText(CalculateMin(daily.temperatureMin)) == ""
      && Spellable(Some(25.0)) && Spellable(Some(20.0))
  {
    assert Sum([20.0]) == 20.0;
  }

  /** The response as the helpers and the converter already treat a statistic: possibly absent. */
  datatype TemperatureSummary = TemperatureSummary(
    min: Option<real>, max: Option<real>, average: Option<real>,
    minText: string, maxText: string, averageText: string)

  /**
   * getTemperatureStats with nullable statistics: the same checks in the same order,
   * but an absent statistic is carried through with an empty text instead of failing.
   */
  method SummarizeTemperatures(startDate: Option<Date>, endDate: Option<Date>, today: Date,
                               weather: WeatherAnswer)
    returns (r: Result<TemperatureSummary, Error>)
    requires today.IsValid()
    ensures r == Failure(InvalidDate) <==> ValidateDates(startDate, endDate, today).Failure?
    ensures r == Failure(WeatherApiFailure) <==> ValidateDates(startDate, endDate, today).Success? && weather.FetchFailed?
    ensures ValidateDates(startDate, endDate, today).Success? && weather.Fetched? &&
            (weather.body.None? || weather.body.value.daily.None?)
            ==> r == Failure(NoWeatherData)
    ensures ValidateDates(startDate, endDate, today).Success? && weather.Fetched? &&
            weather.body.Some? && weather.body.value.daily.Some?
            ==>
        var daily := weather.body.value.daily.value;
        var min, max, avg :=
          CalculateMin(daily.temperatureMin), CalculateMax(daily.temperatureMax), CalculateAverage(daily.temperatureMean);
        && (Spellable(min) && Spellable(max) && Spellable(avg) ==>
              r == Success(TemperatureSummary(min, max, avg, StatText(min), StatText(max), StatText(avg))))
        && (WithinInt(min) && WithinInt(max) && WithinInt(avg) &&
            (TooLargeToSpell(min) || TooLargeToSpell(max) || TooLargeToSpell(avg))
            ==> r == Failure(IndexOutOfBounds))
    ensures r != Failure(NullUnboxing)
  {
    var valid := ValidateDates(startDate, endDate, today);
    if valid.Failure? {
      return Failure(valid.error);
    }
    if weather.FetchFailed? {
      return Failure(WeatherApiFailure);
    }
    var weatherData := weather.body;
    if weatherData.None? || weatherData.value.daily.None? {
      return Failure(NoWeatherData);
    }
    var daily := weatherData.value.daily.value;
    var minTemp := CalculateMin(daily.temperatureMin);
    var maxTemp := CalculateMax(daily.temperatureMax);
    var avgTemp := CalculateAverage(daily.temperatureMean);
    var texts := ConvertStatistics(minTemp, maxTemp, avgTemp);
    if texts.Failure? {
      return Failure(texts.error);
    }
    var (minText, maxText, avgText) := texts.value;
    r := Success(TemperatureSummary(minTemp, maxTemp, avgTemp, minText, maxText, avgText));
  }

  // ---------------------------------------------------------------------------
  // Worked examples

  /** The least and greatest temperatures of a mild week. */
  lemma MildWeekExtremes()
    ensures CalculateMin(Some([20.0, 18.5, 19.0])) == Some(18.5)
    ensures CalculateMax(Some([30.0, 28.5, 29.0])) == Some(30.0)
  {
    RoundHalfUpIdempotent(1850);
    RoundHalfUpIdempotent(3000);
  }

  /** The mean of 25.0, 23.5 and 24.0 is 24.1666..., which rounds half-up to 24.17. */
  lemma MildWeekMean()
    ensures CalculateAverage(Some([25.0, 23.5, 24.0])) == Some(24.17)
  {
    assert Sum([25.0, 23.5, 24.0]) == 72.5 by {
      assert [25.0, 23.5, 24.0][1..] == [23.5, 24.0];
      assert [23.5, 24.0][1..] == [24.0];
    }
    RoundHalfUpUnique(72.5 / 3.0, 2417);
  }

  /** Below zero the least temperature is the one farthest from zero. */
  lemma ColdWeekExtremes()
    ensures CalculateMin(Some([-10.0, -15.0, -12.0])) == Some(-15.0)
    ensures CalculateMax(Some([-5.0, -8.0, -6.0])) == Some(-5.0)
  {
    RoundHalfUpIdempotent(-1500);
    RoundHalfUpIdempotent(-500);
  }
}
