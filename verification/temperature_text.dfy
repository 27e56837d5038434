/**
 * The signed temperature text: a temperature rounded half-up to two places, read out
 * as "minus" or "positive", one space, and the words of its magnitude. An absent
 * temperature gives the empty text.
 */
module TemperatureText {
  import opened Wrappers
  import opened Text
  import opened Decimals
  import opened Exceptions
  import NumberToWords
  import NumberWordsReader

  /** The sign word: "minus" below zero, "positive" from zero up (zero itself included). */
  function SignWord(hundredths: int): string
  {
    if hundredths < 0 then "minus" else "positive"
  }

  function Abs(h: int): nat
  {
    if h < 0 then -h else h
  }

  /** The words of a rounded temperature, given in hundredths. */
  function SignedWords(hundredths: int): seq<string>
    requires Abs(hundredths) <= 99999
  {
    [SignWord(hundredths)] + NumberToWords.AmountWords(Abs(hundredths))
  }

  /** The text of a rounded temperature: the sign word, a space, then the words of its magnitude. */
  function SignedText(hundredths: int): string
    requires Abs(hundredths) <= 99999
  {
    SignWord(hundredths) + " " + NumberToWords.AmountText(Abs(hundredths))
  }

  /**
   * convertTemperatureToText: "" for an absent temperature; otherwise the value is
   * rounded first and only then tested for its sign, and the words of the magnitude
   * come from convertToWords, whose failure for a magnitude of 1000 or more passes
   * through.
   */
  method ConvertTemperatureToText(temperature: Option<real>) returns (r: Result<string, Error>)
    ensures temperature.None? ==> r == Success("")
    ensures temperature.Some? && Abs(RoundHalfUp(temperature.value)) <= 99999 ==>
      r == Success(SignedText(RoundHalfUp(temperature.value)))
    ensures temperature.Some? && 100000 <= Abs(RoundHalfUp(temperature.value)) < 100 * 0x8000_0000 ==>
      r == Failure(IndexOutOfBounds)
    ensures r.Failure? ==> r.error == IndexOutOfBounds
  {
    if temperature.None? {
      return Success("");
    }
    var temp := RoundHalfUp(temperature.value);   // BigDecimal.valueOf(t).setScale(2, HALF_UP), in hundredths
    r := ConvertRoundedTemperature(temp);
  }

  /** The rest of convertTemperatureToText, once the temperature is a whole number of hundredths. */
  method ConvertRoundedTemperature(temp: int) returns (r: Result<string, Error>)
    ensures Abs(temp) <= 99999 ==> r == Success(SignedText(temp))
    ensures 100000 <= Abs(temp) < 100 * 0x8000_0000 ==> r == Failure(IndexOutOfBounds)
    ensures r.Failure? ==> r.error == IndexOutOfBounds
  {
    var prefix: string;
    var absTemp: int;
    if temp < 0 {
      prefix := "minus";
      absTemp := -temp;
    } else {
      prefix := "positive";
      absTemp := temp;
    }
    assert prefix == SignWord(temp) && absTemp == Abs(temp);
    var amount := absTemp as real / 100.0;
    var numberWords := NumberToWords.ConvertToWords(amount);
    ConvertedHundredths(absTemp, amount, numberWords);
    if numberWords.Failure? {
      return Failure(numberWords.error);
    }
    if absTemp <= 99999 {
      SignedTextAssembled(temp, prefix, numberWords.value);
    }
    r := Success(prefix + " " + numberWords.value);
  }

  /** What convertToWords returns for a magnitude already at two places: rounding it again changes nothing. */
  lemma ConvertedHundredths(h: nat, amount: real, r: Result<string, Error>)
    requires amount == h as real / 100.0
    requires 0 <= RoundHalfUp(amount) <= 99999 ==> r == Success(NumberToWords.AmountText(RoundHalfUp(amount)))
    requires 100000 <= RoundHalfUp(amount) < 100 * 0x8000_0000 ==> r == Failure(IndexOutOfBounds)
    ensures h <= 99999 ==> r == Success(NumberToWords.AmountText(h))
    ensures 100000 <= h < 100 * 0x8000_0000 ==> r == Failure(IndexOutOfBounds)
  {
    RoundHalfUpIdempotent(h);
    assert RoundHalfUp(amount) == h;
  }

  lemma SignedTextAssembled(temp: int, prefix: string, words: string)
    requires Abs(temp) <= 99999
    requires prefix == SignWord(temp) && words == NumberToWords.AmountText(Abs(temp))
    ensures prefix + " " + words == SignedText(temp)
  {
  }

  // ---------------------------------------------------------------------------
  // Shape of the text and reading it back

  lemma SignWordIsWord(hundredths: int)
    ensures IsWord(SignWord(hundredths))
  {
  }

  lemma SignedWordsAreWords(hundredths: int)
    requires Abs(hundredths) <= 99999
    ensures AllWords(SignedWords(hundredths))
  {
    SignWordIsWord(hundredths);
    NumberToWords.AmountWordsAreWords(Abs(hundredths));
    AllWordsCons(SignWord(hundredths), NumberToWords.AmountWords(Abs(hundredths)));
  }

  /** The text is its words joined with single spaces, with no space at either end. */
  lemma SignedTextIsJoined(hundredths: int)
    requires Abs(hundredths) <= 99999
    ensures SignedText(hundredths) == Join(SignedWords(hundredths), ' ')
    ensures SingleSpaced(SignedText(hundredths))
  {
    var words := NumberToWords.AmountWords(Abs(hundredths));
    JoinAppend([SignWord(hundredths)], words, ' ');
    assert SignWord(hundredths) + " " == SignWord(hundredths) + [' '];
    SignedWordsAreWords(hundredths);
    JoinWordsSingleSpaced(SignedWords(hundredths));
  }

  /** The temperature a text spells, in hundredths: a sign word, then the words of an amount. */
  function ReadSignedText(s: string): Option<int>
  {
    var fields := Fields(s, ' ');
    var magnitude := NumberWordsReader.ReadAmount(fields[1..]);
    if magnitude.None? then None
    else if fields[0] == "minus" then Some(-magnitude.value)
    else if fields[0] == "positive" then Some(magnitude.value)
    else None
  }

  /** Reading the text of a rounded temperature gives the temperature back. */
  lemma ReadSignedTextOfText(hundredths: int)
    requires Abs(hundredths) <= 99999
    ensures ReadSignedText(SignedText(hundredths)) == Some(hundredths)
  {
    var words := SignedWords(hundredths);
    SignedTextIsJoined(hundredths);
    SignedWordsAreWords(hundredths);
    FieldsOfWords(words);
    assert words[1..] == NumberToWords.AmountWords(Abs(hundredths));
    NumberWordsReader.ReadAmountOfWords(Abs(hundredths));
  }

  /** Two rounded temperatures with the same text are the same temperature. */
  lemma SignedTextInjective(h1: int, h2: int)
    requires Abs(h1) <= 99999 && Abs(h2) <= 99999
    requires SignedText(h1) == SignedText(h2)
    ensures h1 == h2
  {
    ReadSignedTextOfText(h1);
    ReadSignedTextOfText(h2);
  }
}
