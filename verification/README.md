# Eskimi backend services, modelled in Dafny

A model of the four services that hold the logic of the Eskimi backend:

- **Day difference** (`DaysCalculator`). Reads two `YYYY-MM-DD` texts. Checks them against the proleptic Gregorian calendar for years 1 to 9999, using the 4/100/400 leap rule. Numbers each date by the days since the start of year 1, with two accumulating loops, and answers the absolute difference.
- **Number to words** (`NumberToWords`). Rounds an amount half-up to two places. Spells the whole part as hundreds, teens, tens and ones, and spells 0 as "zero". Appends "point" and the two fraction digits one by one when the fraction is not zero, then trims the result. The string building is imperative, as in the service: appends to a builder and a loop over the fraction's digits. Each method is proved against a word-list specification (`AmountWords`, `AmountText`).
- **Signed temperature text** (`TemperatureText`). Returns "" for an absent temperature. Otherwise it rounds first, then chooses "minus" (spelling the magnitude) or "positive", followed by one space and the words.
- **Temperature statistics** (`TemperatureStats`). Checks a date range against today: start not after end, start not after today, and start not before the same day one year ago. Takes the three daily series of the weather answer, reduces them to the minimum, maximum and mean rounded half-up to two places, and spells each as a signed text.

Supporting modules:

- `Wrappers`: `Option` for Java's `null` and `Result` for a call that may throw.
- `Exceptions`: one error kind per exception a caller can tell apart.
- `JavaInts`: Java's truncating `/` and `%`, and its 32-bit narrowing.
- `Decimals`: half-up rounding to hundredths over exact reals.
- `Text`: `String.join`, `split` and `trim`.
- `NumberWordsReader`: a parser from number words back to hundredths. It is the partner of the speller: every amount from 0 to 999.99 reads back from its own text, so no two amounts are spelled alike.
- `SpellingExamples`: worked examples of rounding and sign, and the rows of the spelling tests as word lists.

Two parts of the environment are parameters of the model:

- The clock: `today`.
- The weather collaborator: `weather`, a `WeatherAnswer` that is either `FetchFailed` (WeatherService turns every failure into WeatherApiException) or `Fetched` with the body, `None` for a null body.

A date text that `LocalDate.parse` reads is given to the statistics service as `Option<Date>`.

## Model

| member | source | states |
|---|---|---|
| JavaInts.Div | src/main/java/com/eskimi/backend_assignment/service/NumberToWordsService.java:71 | Java `/` by a positive divisor truncates toward zero: the remainder a - b·q lies in [0, b) for a non-negative dividend and in (-b, 0] for a negative one |
| JavaInts.Rem | src/main/java/com/eskimi/backend_assignment/service/NumberToWordsService.java:74 | Java `%` keeps the sign of the dividend: the Euclidean remainder for a non-negative dividend, a value in (-b, 0] for a negative one |
| JavaInts.Int32Of | src/main/java/com/eskimi/backend_assignment/service/NumberToWordsService.java:39 | `intValue()` keeps the low 32 bits: the result is an `int` that differs from the input by a multiple of 2^32, so an `int` is left unchanged |
| Decimals.RoundHalfUp | src/main/java/com/eskimi/backend_assignment/service/NumberToWordsService.java:30 | setScale(2, HALF_UP) in hundredths: 100·x lies within half a hundredth of the result, and a tie goes away from zero on either side |
| Decimals.RoundHalfUpUnique | src/main/java/com/eskimi/backend_assignment/service/NumberToWordsService.java:30 | those two inequalities single out one count of hundredths, so any value meeting them is the rounding |
| Decimals.RoundHalfUpOdd | src/main/java/com/eskimi/backend_assignment/service/TemperatureTextConverter.java:23-24 | HALF_UP is symmetric: rounding -x gives minus the rounding of x |
| Decimals.RoundHalfUpMonotone | src/main/java/com/eskimi/backend_assignment/service/TemperatureStatsService.java:109-113 | rounding keeps order, both in hundredths and as the rounded value |
| Decimals.RoundHalfUpIdempotent | src/main/java/com/eskimi/backend_assignment/service/TemperatureTextConverter.java:37 | a value already at two places rounds to itself, so the second rounding inside convertToWords changes nothing |
| Decimals.RoundsBelowZeroIff | src/main/java/com/eskimi/backend_assignment/service/TemperatureTextConverter.java:23-29 | the rounded value is below zero exactly when x <= -0.005, so the sign is decided after rounding |
| Decimals.Round2 | src/main/java/com/eskimi/backend_assignment/service/TemperatureStatsService.java:109-113 | setScale(2, HALF_UP) as a value: a whole number of hundredths within half a hundredth of the input, a tie going away from zero |
| Text.Fields | src/main/java/com/eskimi/backend_assignment/service/DaysCalculatorService.java:39 | splitting at every separator gives at least one field, no field holds the separator, and joining the fields back gives the text |
| Text.TrimStart | src/main/java/com/eskimi/backend_assignment/service/NumberToWordsService.java:60 | the leading part of String.trim: a suffix of the text that is empty or starts above U+0020, and everything dropped is at or below U+0020 |
| Text.TrimEnd | src/main/java/com/eskimi/backend_assignment/service/NumberToWordsService.java:60 | the trailing part of String.trim: a prefix of the text that is empty or ends above U+0020, and everything dropped is at or below U+0020 |
| Text.Trim | src/main/java/com/eskimi/backend_assignment/service/NumberToWordsService.java:60 | String.trim: no longer than the text, and empty or beginning and ending above U+0020 |
| Text.TrimDropsOnlyBlanks | src/main/java/com/eskimi/backend_assignment/service/NumberToWordsService.java:60 | String.trim keeps a slice of the text and removes only characters at or below U+0020 before and after it |
| Text.JoinWordsSingleSpaced | src/main/java/com/eskimi/backend_assignment/service/NumberToWordsService.java:60 | words joined with single spaces are single-spaced, start and end with a letter, and trim leaves them unchanged |
| DaysCalculator.IsLeapYear | src/main/java/com/eskimi/backend_assignment/service/DaysCalculatorService.java:111-119 | the 400/100/4 checks in that order amount to: divisible by 4, and not by 100 unless by 400 |
| DaysCalculator.DaysInMonth | src/main/java/com/eskimi/backend_assignment/service/DaysCalculatorService.java:124-144 | succeeds exactly for months 1..12; 31 days for 1,3,5,7,8,10,12 and 30 for 4,6,9,11; 29 or 28 for February by the leap rule; InvalidDate otherwise |
| DaysCalculator.DaysBeforeYearStep | src/main/java/com/eskimi/backend_assignment/service/DaysCalculatorService.java:89-91 | each year adds 366 days when it is a leap year and 365 otherwise |
| DaysCalculator.DaysBeforeMonthStep | src/main/java/com/eskimi/backend_assignment/service/DaysCalculatorService.java:94-96 | each earlier month adds its own length |
| DaysCalculator.MonthsFillYear | src/main/java/com/eskimi/backend_assignment/service/DaysCalculatorService.java:124-144 | the twelve month lengths add up to the length of the year |
| DaysCalculator.ConvertDateToDays | src/main/java/com/eskimi/backend_assignment/service/DaysCalculatorService.java:81-102 | the two accumulating loops plus the day give the closed-form day number (days since the start of year 1) |
| DaysCalculator.ParseInt | src/main/java/com/eskimi/backend_assignment/service/DaysCalculatorService.java:45-47 | Integer.parseInt: digits, or a sign followed by at least one digit, parse to their signed value when it is an `int` and fail otherwise; "", "+" and "-" fail, and so does every other text |
| DaysCalculator.DropTrailingEmpty | src/main/java/com/eskimi/backend_assignment/service/DaysCalculatorService.java:39 | split drops exactly the trailing empty fields: the result is a prefix, ends in a non-empty field, and only empty fields are dropped |
| DaysCalculator.SplitOnHyphen | src/main/java/com/eskimi/backend_assignment/service/DaysCalculatorService.java:39 | split("-"): a text without a hyphen is its own single field; otherwise no field holds a hyphen, the last field is not empty, and the fields joined with hyphens are the text up to trailing hyphens |
| DaysCalculator.JoinDropsTrailingSeparators | src/main/java/com/eskimi/backend_assignment/service/DaysCalculatorService.java:39 | helper step for SplitOnHyphen: dropping trailing empty fields drops only trailing separators from their join |
| DaysCalculator.ParseDate | src/main/java/com/eskimi/backend_assignment/service/DaysCalculatorService.java:34-52 | InvalidDate for null or empty text, for anything but three hyphen fields, and for any field that is not an int; succeeds whenever the text has three fields that are all ints, with the three parsed integers |
| DaysCalculator.ValidateDate | src/main/java/com/eskimi/backend_assignment/service/DaysCalculatorService.java:57-76 | accepts exactly year 1..9999, month 1..12 and day 1..the month length, unchanged; everything else is InvalidDate |
| DaysCalculator.DateOf | src/main/java/com/eskimi/backend_assignment/service/DaysCalculatorService.java:19-23 | a date text that is read and checked is a valid calendar date |
| DaysCalculator.CalculateDays | src/main/java/com/eskimi/backend_assignment/service/DaysCalculatorService.java:18-29 | succeeds exactly when both texts read as valid dates, then answers the distance between their day numbers; every failure is InvalidDate |
| DaysCalculator.ReadInTwoSteps | src/main/java/com/eskimi/backend_assignment/service/DaysCalculatorService.java:19-23 | helper step for CalculateDays: unfolds reading a date into parsing, then validating what was parsed |
| DaysCalculator.DistanceOfDayNumbers | src/main/java/com/eskimi/backend_assignment/service/DaysCalculatorService.java:28 | helper step for CalculateDays: unfolds the distance into Math.abs of the difference of the two day numbers |
| DaysCalculator.DaysBeforeYearGrows | src/main/java/com/eskimi/backend_assignment/service/DaysCalculatorService.java:89-91 | the year-by-year total grows by at least 365 a year |
| DaysCalculator.MonthEndWithinYear | src/main/java/com/eskimi/backend_assignment/service/DaysCalculatorService.java:94-96 | a month ends no later than its year |
| DaysCalculator.MonthsInOrder | src/main/java/com/eskimi/backend_assignment/service/DaysCalculatorService.java:94-96 | an earlier month ends no later than a later month begins |
| DaysCalculator.EarlierYearSmaller | src/main/java/com/eskimi/backend_assignment/service/DaysCalculatorService.java:86-99 | every date of an earlier year has a smaller day number |
| DaysCalculator.PrecedesIffSmallerDayNumber | src/main/java/com/eskimi/backend_assignment/service/DaysCalculatorService.java:81-102 | calendar order and day-number order agree, in both directions |
| DaysCalculator.DayNumberInjective | src/main/java/com/eskimi/backend_assignment/service/DaysCalculatorService.java:81-102 | two valid dates share a day number only if they are the same date |
| DaysCalculator.DayNumberBounds | src/main/java/com/eskimi/backend_assignment/service/DaysCalculatorService.java:81-102 | day numbers run from 1 to 3652059, so the `int` arithmetic of the loops and of the difference cannot overflow |
| DaysCalculator.NextDayIsOneLater | src/main/java/com/eskimi/backend_assignment/service/DaysCalculatorService.java:81-102 | the calendar day after a date is valid, comes after it, and has the next day number |
| DaysCalculator.NewYearToNewYear | src/main/java/com/eskimi/backend_assignment/service/DaysCalculatorService.java:89-91 | from 1 January to the next 1 January is 366 days after a leap year and 365 otherwise |
| DaysCalculator.DaysBetweenSymmetric | src/main/java/com/eskimi/backend_assignment/service/DaysCalculatorService.java:28 | the difference is the same with the dates swapped |
| DaysCalculator.DaysBetweenZeroIff | src/main/java/com/eskimi/backend_assignment/service/DaysCalculatorService.java:28 | the difference is zero exactly when the two dates are equal |
| DaysCalculator.DaysBetweenAdditive | src/main/java/com/eskimi/backend_assignment/service/DaysCalculatorService.java:25-28 | for dates in calendar order the differences add up |
| DaysCalculator.CalendarDistances | src/test/java/com/eskimi/backend_assignment/unit/service/DaysCalculatorServiceTest.java:35-128 | 2000 is leap and 1900 is not; 366, 365, 36524 and 2 days across the tested ranges, in either order |
| DaysCalculator.FormattedFields | src/main/java/com/eskimi/backend_assignment/service/DaysCalculatorService.java:39 | a formatted date splits at its hyphens into exactly the three padded fields |
| DaysCalculator.FormatThenReadIsIdentity | src/main/java/com/eskimi/backend_assignment/service/DaysCalculatorService.java:34-76 | every valid date written as YYYY-MM-DD is read and validated back as itself |
| NumberToWords.TwoDigits | src/main/java/com/eskimi/backend_assignment/service/NumberToWordsService.java:51 | the two characters after "0." of a fraction: its tens digit, then its units digit |
| NumberToWords.ConvertIntegerToWords | src/main/java/com/eskimi/backend_assignment/service/NumberToWordsService.java:63-100 | for 0..999 the single-spaced join of the hundreds, teen or tens and ones words; "" for a negative number; IndexOutOfBounds exactly from 1000 on |
| NumberToWords.AppendBelowHundred | src/main/java/com/eskimi/backend_assignment/service/NumberToWordsService.java:80-97 | appends the teen word, or the tens and ones words with one space between, for 0..99; nothing for a negative remainder |
| NumberToWords.BelowHundredAppended | src/main/java/com/eskimi/backend_assignment/service/NumberToWordsService.java:80-97 | the step-by-step appends below a hundred equal appending the join of the words |
| NumberToWords.IntegerTextAssembled | src/main/java/com/eskimi/backend_assignment/service/NumberToWordsService.java:70-78 | the hundreds step followed by the rest gives the join of the integer's words |
| NumberToWords.HundredsJoined | src/main/java/com/eskimi/backend_assignment/service/NumberToWordsService.java:72-77 | a space after "hundred" only when more words follow gives a single-spaced join |
| NumberToWords.ConvertToWords | src/main/java/com/eskimi/backend_assignment/service/NumberToWordsService.java:28-61 | the result depends only on the rounded value: AmountText for 0..999.99; "zero" above -1 and "" below for negatives; IndexOutOfBounds from 1000 to the `int` limit; no other failure |
| NumberToWords.ConvertRounded | src/main/java/com/eskimi/backend_assignment/service/NumberToWordsService.java:33-60 | the same, once the amount is a whole number of hundredths |
| NumberToWords.AppendDigitWords | src/main/java/com/eskimi/backend_assignment/service/NumberToWordsService.java:53-57 | the loop appends a space and the word of each digit, zero included, in order |
| NumberToWords.SplitRounded | src/main/java/com/eskimi/backend_assignment/service/NumberToWordsService.java:33-39 | where the truncated whole part and the signed fraction fall for each range of rounded amounts |
| NumberToWords.ZeroTextTrimmed | src/main/java/com/eskimi/backend_assignment/service/NumberToWordsService.java:40-41 | a zero whole part reads "zero" after trimming |
| NumberToWords.WholeTextIsJoined | src/main/java/com/eskimi/backend_assignment/service/NumberToWordsService.java:39-44 | helper step: unfolds the whole part's text, "zero" or the integer's words, into the join of its words |
| NumberToWords.SpokenDigitsStep | src/main/java/com/eskimi/backend_assignment/service/NumberToWordsService.java:53-57 | one more digit appends a space and that digit's word |
| NumberToWords.SpokenTwoDigits | src/main/java/com/eskimi/backend_assignment/service/NumberToWordsService.java:51-57 | the fraction is spoken as exactly two digit words, tens then units |
| NumberToWords.AmountTextAssembled | src/main/java/com/eskimi/backend_assignment/service/NumberToWordsService.java:47-60 | the whole part, then " point" and the two digit words when the fraction is non-zero, trims to AmountText |
| NumberToWords.AmountWordsAreWords | src/main/java/com/eskimi/backend_assignment/service/NumberToWordsService.java:11-26 | an amount has at least one word and each is a non-empty run of lower-case letters |
| NumberToWords.WholeWordsAreWords | src/main/java/com/eskimi/backend_assignment/service/NumberToWordsService.java:63-100 | the whole part has at least one word, each of them a word |
| NumberToWords.BelowHundredWordsAreWords | src/main/java/com/eskimi/backend_assignment/service/NumberToWordsService.java:80-97 | the words below a hundred are words, and there are some exactly when the remainder is non-zero |
| NumberToWords.FractionWordsAreWords | src/main/java/com/eskimi/backend_assignment/service/NumberToWordsService.java:11-13 | "point" and the digit words are words |
| NumberToWords.OnesAreWords | src/main/java/com/eskimi/backend_assignment/service/NumberToWordsService.java:11-13 | every ONES entry is a word |
| NumberToWords.OnesForIntegerAreWords | src/main/java/com/eskimi/backend_assignment/service/NumberToWordsService.java:15-17 | every ONES_FOR_INTEGER entry from 1 on is a word |
| NumberToWords.TensAreWords | src/main/java/com/eskimi/backend_assignment/service/NumberToWordsService.java:19-21 | every TENS entry from 2 on is a word |
| NumberToWords.TeensAreWords | src/main/java/com/eskimi/backend_assignment/service/NumberToWordsService.java:23-26 | every TEENS entry is a word |
| NumberToWords.AmountTextSingleSpaced | src/main/java/com/eskimi/backend_assignment/service/NumberToWordsService.java:60 | the text has no space at either end and never two spaces in a row, so trim changes nothing |
| NumberWordsReader.TeensDistinct | src/main/java/com/eskimi/backend_assignment/service/NumberToWordsService.java:23-26 | the teen words are pairwise different |
| NumberWordsReader.TensDistinct | src/main/java/com/eskimi/backend_assignment/service/NumberToWordsService.java:19-21 | the tens words are pairwise different and differ from every teen word |
| NumberWordsReader.OnesDistinct | src/main/java/com/eskimi/backend_assignment/service/NumberToWordsService.java:11-17 | the digit words are pairwise different, differ from the teen and tens words, and agree with ONES_FOR_INTEGER from 1 on |
| NumberWordsReader.MarkersAreNotNumbers | src/main/java/com/eskimi/backend_assignment/service/NumberToWordsService.java:47-48 | "hundred" and "point" are not number words |
| NumberWordsReader.TeenValue | src/main/java/com/eskimi/backend_assignment/service/NumberToWordsService.java:23-26 | the teen word at index t is worth 10 + t |
| NumberWordsReader.TensValue | src/main/java/com/eskimi/backend_assignment/service/NumberToWordsService.java:19-21 | the tens word at index t is worth 10·t |
| NumberWordsReader.DigitValue | src/main/java/com/eskimi/backend_assignment/service/NumberToWordsService.java:11-17 | the digit word at index o is worth o |
| NumberWordsReader.WordValueValuesNumberWords | src/main/java/com/eskimi/backend_assignment/service/NumberToWordsService.java:11-26 | the word valuation gives every table word its value |
| NumberWordsReader.ReadBelowHundredWords | src/main/java/com/eskimi/backend_assignment/service/NumberToWordsService.java:80-97 | the words of 0..99 read back as the number |
| NumberWordsReader.ReadIntegerWords | src/main/java/com/eskimi/backend_assignment/service/NumberToWordsService.java:63-100 | the words of 0..999 read back as the number |
| NumberWordsReader.ReadWholeWords | src/main/java/com/eskimi/backend_assignment/service/NumberToWordsService.java:39-44 | the whole part's words, "zero" included, read back as the number |
| NumberWordsReader.WholeHasNoPoint | src/main/java/com/eskimi/backend_assignment/service/NumberToWordsService.java:39-44 | no word of the whole part is "point" |
| NumberWordsReader.ParsePointed | src/main/java/com/eskimi/backend_assignment/service/NumberToWordsService.java:47-57 | a whole part, "point" and two digit words read as the amount in hundredths |
| NumberWordsReader.ParseUnpointed | src/main/java/com/eskimi/backend_assignment/service/NumberToWordsService.java:47 | a whole part without "point" reads as whole hundreds of hundredths |
| NumberWordsReader.CentsWords | src/main/java/com/eskimi/backend_assignment/service/NumberToWordsService.java:47-57 | helper step: unfolds the words of an amount with a fraction into its whole words, "point" and its two digit words |
| NumberWordsReader.WholeAmountWords | src/main/java/com/eskimi/backend_assignment/service/NumberToWordsService.java:47 | helper step: unfolds the words of an amount without a fraction into its whole part's words |
| NumberWordsReader.ParseAmountWithCents | src/main/java/com/eskimi/backend_assignment/service/NumberToWordsService.java:47-57 | the words of an amount with a fraction read back as the amount |
| NumberWordsReader.ParseAmountWithoutCents | src/main/java/com/eskimi/backend_assignment/service/NumberToWordsService.java:47 | the words of an amount without a fraction read back as the amount |
| NumberWordsReader.ParseAmountOfWords | src/main/java/com/eskimi/backend_assignment/service/NumberToWordsService.java:28-61 | the words of every amount from 0 to 999.99 read back as the amount |
| NumberWordsReader.ReadAmountOfWords | src/main/java/com/eskimi/backend_assignment/service/NumberToWordsService.java:28-61 | reading the words of an amount gives it back |
| NumberWordsReader.ReadAmountTextOfText | src/main/java/com/eskimi/backend_assignment/service/NumberToWordsService.java:28-61 | reading the text of an amount gives it back |
| NumberWordsReader.AmountTextInjective | src/main/java/com/eskimi/backend_assignment/service/NumberToWordsService.java:28-61 | different amounts from 0 to 999.99 are never spelled alike |
| TemperatureText.ConvertTemperatureToText | src/main/java/com/eskimi/backend_assignment/service/TemperatureTextConverter.java:17-40 | "" for null; the sign word, a space and the words of the magnitude of the rounded value up to 999.99; IndexOutOfBounds from 1000 on; no other failure |
| TemperatureText.ConvertRoundedTemperature | src/main/java/com/eskimi/backend_assignment/service/TemperatureTextConverter.java:29-39 | "minus" with the magnitude below zero, "positive" from zero up, then convertToWords of the magnitude |
| TemperatureText.ConvertedHundredths | src/main/java/com/eskimi/backend_assignment/service/TemperatureTextConverter.java:37 | convertToWords of a magnitude already at two places spells that magnitude |
| TemperatureText.SignedTextAssembled | src/main/java/com/eskimi/backend_assignment/service/TemperatureTextConverter.java:39 | helper step: unfolds the signed text into prefix, one space and the words |
| TemperatureText.SignWordIsWord | src/main/java/com/eskimi/backend_assignment/service/TemperatureTextConverter.java:29-35 | the sign word is a word |
| TemperatureText.SignedWordsAreWords | src/main/java/com/eskimi/backend_assignment/service/TemperatureTextConverter.java:29-39 | every word of a signed temperature is a word |
| TemperatureText.SignedTextIsJoined | src/main/java/com/eskimi/backend_assignment/service/TemperatureTextConverter.java:39 | the signed text is its words joined with single spaces, with no space at either end |
| TemperatureText.ReadSignedTextOfText | src/main/java/com/eskimi/backend_assignment/service/TemperatureTextConverter.java:17-40 | reading a signed text gives the rounded temperature back, sign included |
| TemperatureText.SignedTextInjective | src/main/java/com/eskimi/backend_assignment/service/TemperatureTextConverter.java:17-40 | two rounded temperatures share a text only if they are equal |
| SpellingExamples.RoundingBeforeSpelling | src/test/java/com/eskimi/backend_assignment/unit/service/NumberToWordsServiceTest.java:51-70 | 36.404 and 36.4 round to 36.40 and 36.406 to 36.41; 25.567, -25.564, -5.4, 1.3, -1.44 and 15.67 round as the converter tests expect |
| SpellingExamples.TinyNegativeReadsPositiveZero | src/main/java/com/eskimi/backend_assignment/service/TemperatureTextConverter.java:23-35 | -0.001 rounds to zero before its sign is looked at and reads "positive zero" |
| SpellingExamples.MinusTen | src/test/java/com/eskimi/backend_assignment/unit/service/TemperatureTextConverterTest.java:30 | -10.0 is spelled as the words "minus" and "ten", with no "point" |
| SpellingExamples.ThirtySix | src/test/java/com/eskimi/backend_assignment/unit/service/NumberToWordsServiceTest.java:24 | 36 is spelled "thirty six" |
| SpellingExamples.OneHundredFive | src/test/java/com/eskimi/backend_assignment/unit/service/NumberToWordsServiceTest.java:25 | 105 is spelled "one hundred five" |
| SpellingExamples.ThirtySixPointFourZero | src/test/java/com/eskimi/backend_assignment/unit/service/NumberToWordsServiceTest.java:26 | 36.40 is spelled "thirty six point four zero", both fraction digits spoken |
| SpellingExamples.Zero | src/test/java/com/eskimi/backend_assignment/unit/service/NumberToWordsServiceTest.java:27 | 0 is spelled "zero" |
| SpellingExamples.One | src/test/java/com/eskimi/backend_assignment/unit/service/NumberToWordsServiceTest.java:28 | 1 is spelled "one", with no "point" |
| SpellingExamples.Ten | src/test/java/com/eskimi/backend_assignment/unit/service/NumberToWordsServiceTest.java:29 | 10 is spelled "ten" |
| SpellingExamples.Eleven | src/test/java/com/eskimi/backend_assignment/unit/service/NumberToWordsServiceTest.java:30 | 11 is spelled "eleven" |
| SpellingExamples.Fifteen | src/test/java/com/eskimi/backend_assignment/unit/service/NumberToWordsServiceTest.java:31 | 15 is spelled "fifteen" |
| SpellingExamples.Nineteen | src/test/java/com/eskimi/backend_assignment/unit/service/NumberToWordsServiceTest.java:32 | 19 is spelled "nineteen" |
| SpellingExamples.Twenty | src/test/java/com/eskimi/backend_assignment/unit/service/NumberToWordsServiceTest.java:33 | 20 is spelled "twenty" |
| SpellingExamples.TwentyOne | src/test/java/com/eskimi/backend_assignment/unit/service/NumberToWordsServiceTest.java:34 | 21 is spelled "twenty one" |
| SpellingExamples.NinetyNine | src/test/java/com/eskimi/backend_assignment/unit/service/NumberToWordsServiceTest.java:35 | 99 is spelled "ninety nine" |
| SpellingExamples.OneHundred | src/test/java/com/eskimi/backend_assignment/unit/service/NumberToWordsServiceTest.java:36 | 100 is spelled "one hundred" |
| SpellingExamples.OneHundredOne | src/test/java/com/eskimi/backend_assignment/unit/service/NumberToWordsServiceTest.java:37 | 101 is spelled "one hundred one" |
| SpellingExamples.TwoHundred | src/test/java/com/eskimi/backend_assignment/unit/service/NumberToWordsServiceTest.java:38 | 200 is spelled "two hundred" |
| SpellingExamples.NineHundredNinetyNine | src/test/java/com/eskimi/backend_assignment/unit/service/NumberToWordsServiceTest.java:39 | 999 is spelled "nine hundred ninety nine" |
| SpellingExamples.ZeroPointZeroOne | src/test/java/com/eskimi/backend_assignment/unit/service/NumberToWordsServiceTest.java:40 | 0.01 is spelled "zero point zero one" |
| SpellingExamples.ZeroPointNineNine | src/test/java/com/eskimi/backend_assignment/unit/service/NumberToWordsServiceTest.java:41 | 0.99 is spelled "zero point nine nine" |
| SpellingExamples.OnePointFiveZero | src/test/java/com/eskimi/backend_assignment/unit/service/NumberToWordsServiceTest.java:42 | 1.50 is spelled "one point five zero" |
| SpellingExamples.NineHundredNinetyNinePointNineNine | src/test/java/com/eskimi/backend_assignment/unit/service/NumberToWordsServiceTest.java:43 | 999.99 is spelled "nine hundred ninety nine point nine nine" |
| SpellingExamples.ThirtySixPointFourOne | src/test/java/com/eskimi/backend_assignment/unit/service/NumberToWordsServiceTest.java:67-69 | 36.41, the rounding of 36.406, is spelled "thirty six point four one" |
| SpellingExamples.Thirteen | src/test/java/com/eskimi/backend_assignment/unit/service/NumberToWordsServiceTest.java:74 | 13 is spelled "thirteen" |
| SpellingExamples.Fourteen | src/test/java/com/eskimi/backend_assignment/unit/service/NumberToWordsServiceTest.java:75 | 14 is spelled "fourteen" |
| SpellingExamples.Eighteen | src/test/java/com/eskimi/backend_assignment/unit/service/NumberToWordsServiceTest.java:76 | 18 is spelled "eighteen" |
| SpellingExamples.FiveHundredFive | src/test/java/com/eskimi/backend_assignment/unit/service/NumberToWordsServiceTest.java:82 | 505 is spelled "five hundred five" |
| SpellingExamples.MinusFivePointFourZero | src/test/java/com/eskimi/backend_assignment/unit/service/TemperatureTextConverterTest.java:25 | -5.40 is spelled "minus five point four zero" |
| SpellingExamples.PositiveOnePointThreeZero | src/test/java/com/eskimi/backend_assignment/unit/service/TemperatureTextConverterTest.java:26 | 1.30 is spelled "positive one point three zero" |
| SpellingExamples.MinusOnePointFourFour | src/test/java/com/eskimi/backend_assignment/unit/service/TemperatureTextConverterTest.java:27 | -1.44 is spelled "minus one point four four" |
| SpellingExamples.PositiveTwentyFivePointFiveZero | src/test/java/com/eskimi/backend_assignment/unit/service/TemperatureTextConverterTest.java:29 | 25.50 is spelled "positive twenty five point five zero" |
| SpellingExamples.PositiveFifteenPointSixSeven | src/test/java/com/eskimi/backend_assignment/unit/service/TemperatureTextConverterTest.java:31 | 15.67 is spelled "positive fifteen point six seven" |
| SpellingExamples.PositiveTwentyFivePointFiveSeven | src/test/java/com/eskimi/backend_assignment/unit/service/TemperatureTextConverterTest.java:46-48 | 25.57, the rounding of 25.567, is spelled "positive twenty five point five seven" |
| SpellingExamples.MinusTwentyFivePointFiveSix | src/test/java/com/eskimi/backend_assignment/unit/service/TemperatureTextConverterTest.java:52-54 | -25.56, the rounding of -25.564, is spelled "minus twenty five point five six" |
| TemperatureStats.MinusOneYear | src/main/java/com/eskimi/backend_assignment/service/TemperatureStatsService.java:68 | minusYears(1): the previous year, the same month and day, with 29 February clamped to 28 |
| TemperatureStats.ValidateDates | src/main/java/com/eskimi/backend_assignment/service/TemperatureStatsService.java:51-77 | accepts exactly: both dates read, start not after end, start not after today, start not before one year ago; InvalidDate otherwise |
| TemperatureStats.MinusOneYearDistance | src/main/java/com/eskimi/backend_assignment/service/TemperatureStatsService.java:67-72 | one year back is a valid date 365 or 366 days earlier |
| TemperatureStats.AcceptedWindowIsAtMostAYear | src/main/java/com/eskimi/backend_assignment/service/TemperatureStatsService.java:59-72 | an accepted start is no later than the end and within 366 days before today |
| TemperatureStats.EndMayFollowToday | src/main/java/com/eskimi/backend_assignment/service/TemperatureStatsService.java:59-65 | the end is held only against the start, so an end after today is accepted |
| TemperatureStats.SeqMin | src/main/java/com/eskimi/backend_assignment/service/TemperatureStatsService.java:83-86 | the minimum is an element and no element is smaller |
| TemperatureStats.SeqMax | src/main/java/com/eskimi/backend_assignment/service/TemperatureStatsService.java:93-96 | the maximum is an element and no element is larger |
| TemperatureStats.CalculateMin | src/main/java/com/eskimi/backend_assignment/service/TemperatureStatsService.java:79-87 | absent exactly for a null or empty series, else the least element rounded half-up to two places |
| TemperatureStats.CalculateMax | src/main/java/com/eskimi/backend_assignment/service/TemperatureStatsService.java:89-97 | absent exactly for a null or empty series, else the greatest element rounded half-up to two places |
| TemperatureStats.CalculateAverage | src/main/java/com/eskimi/backend_assignment/service/TemperatureStatsService.java:99-107 | absent exactly for a null or empty series, else the mean rounded half-up to two places |
| TemperatureStats.RoundIsAtTwoPlaces | src/main/java/com/eskimi/backend_assignment/service/TemperatureStatsService.java:109-113 | a rounded statistic rounds to itself |
| TemperatureStats.SumBetween | src/main/java/com/eskimi/backend_assignment/service/TemperatureStatsService.java:103-106 | bounds on every element bound the sum by that many copies of each bound |
| TemperatureStats.MeanBetween | src/main/java/com/eskimi/backend_assignment/service/TemperatureStatsService.java:103-106 | bounds on every element bound the mean |
| TemperatureStats.MeanBetweenMinAndMax | src/main/java/com/eskimi/backend_assignment/service/TemperatureStatsService.java:99-107 | the mean lies between the least and the greatest element |
| TemperatureStats.RoundedMeanBetween | src/main/java/com/eskimi/backend_assignment/service/TemperatureStatsService.java:79-113 | the rounded average lies between the rounded minimum and the rounded maximum |
| TemperatureStats.GetTemperatureStats | src/main/java/com/eskimi/backend_assignment/service/TemperatureStatsService.java:27-49 | InvalidDate exactly for a bad range, whatever the weather; WeatherApiFailure exactly for a good range and a failed fetch; NoWeatherData for a null body or daily block; the rounded statistics and their texts; IndexOutOfBounds for a statistic of 1000 or more; NullUnboxing when a statistic is absent |
| TemperatureStats.ConvertStatistics | src/main/java/com/eskimi/backend_assignment/service/TemperatureStatsService.java:44-46 | the three texts in order; the first converter failure passes through, and it can only be IndexOutOfBounds |
| TemperatureStats.EmptySeriesLeavesNoMinimum | src/main/java/com/eskimi/backend_assignment/service/TemperatureStatsService.java:39-48 | an empty minimum series beside non-empty ones gives no minimum, its text "", and spellable maximum and average |
| TemperatureStats.SummarizeTemperatures | src/main/java/com/eskimi/backend_assignment/service/TemperatureStatsService.java:27-49 | the same checks in the same order, with InvalidDate and WeatherApiFailure in exactly the same cases, and absent statistics carried through with "" text; NullUnboxing never happens |
| TemperatureStats.MildWeekExtremes | src/test/java/com/eskimi/backend_assignment/unit/service/TemperatureStatsServiceTest.java:51-62 | the minimum of 20.0, 18.5, 19.0 is 18.5 and the maximum of 30.0, 28.5, 29.0 is 30.0 |
| TemperatureStats.MildWeekMean | src/test/java/com/eskimi/backend_assignment/unit/service/TemperatureStatsServiceTest.java:53-63 | the mean of 25.0, 23.5, 24.0 rounds to 24.17 |
| TemperatureStats.ColdWeekExtremes | src/test/java/com/eskimi/backend_assignment/unit/service/TemperatureStatsServiceTest.java:102-112 | the minimum of -10, -15, -12 is -15.0 and the maximum of -5, -8, -6 is -5.0 |

## Left out

- WeatherService's HTTP call (a WebClient request with a timeout) is not modelled. Its outcome is the `weather` parameter, a `WeatherAnswer`, so "an invalid range fetches nothing" is stated only as "the result is InvalidDate whatever the fetch returns".
- The controllers, request and response DTOs, bean validation annotations and Swagger configuration are not part of this model.
- `LocalDate.now()` is the `today` parameter. The two calls in validateDates are treated as reading the same day, so a request that straddles midnight is not modelled.
- `LocalDate.parse` with SMART resolution is not modelled. The statistics service receives already-read dates (`None` for a text that does not parse). Its clamping of a day such as 02-30 is not captured.
- Doubles and BigDecimals are exact `real` values, so floating-point representation error is not modelled.
- TemperatureStats.CalculateAverage: the mean is the exact mean of the series. No claim is made that it agrees bit for bit with Java's double average at half-way points.
- NumberToWords.TwoDigits: the `String.format("%.2f", ...).substring(2)` step is modelled by its intended outcome, the two digits of the fraction. The locale's decimal separator and the intermediate double are not modelled.
- NumberToWords.ConvertToWords and TemperatureText.ConvertTemperatureToText say nothing about amounts whose whole part lies beyond the `int` range, where `intValue()` wraps. The method bodies do model the wrap-around through `Int32Of`.
- DaysCalculator.ParseInt: accepts only ASCII digits. Java's Integer.parseInt also accepts other Unicode decimal digits.
- Null elements inside a temperature series, which would throw when unboxed in the stream, are not modelled: a series is a `seq<real>`.
- The message texts of the exceptions are not modelled; only the kind of failure is.
- The examples of the number-to-words and converter tests are stated as word lists for the rounded amount in hundredths (`SpellingExamples`), not as the joined strings; `NumberWordsReader.ReadAmountTextOfText` and `TemperatureText.SignedTextIsJoined` relate every word list to its text.
- TemperatureText.ConvertTemperatureToText: is a method only because it calls the `ConvertToWords` method. Its specification is the pure `SignedText`.

## Findings

| source | as written | input that shows it | evidently intended | confidence | as-written member | corrected member |
|---|---|---|---|---|---|---|
| src/main/java/com/eskimi/backend_assignment/service/TemperatureStatsService.java:48 | the statistics may be null (an empty or null series), but they are passed to TemperatureResponse's primitive `double` fields, so the constructor unboxes null and throws NullPointerException | a daily block whose `temperature_2m_min` is `[]` while the max and mean series hold values | an absent statistic is carried through with an empty text, as calculateMin and convertTemperatureToText already allow | not executed | TemperatureStats.GetTemperatureStats, TemperatureStats.EmptySeriesLeavesNoMinimum | TemperatureStats.SummarizeTemperatures |
