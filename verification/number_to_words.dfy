/**
 * The number-to-words engine: an amount from 0 to 999.99, rounded half-up to two
 * places, spelled in English words. The whole part is spelled as hundreds, teens,
 * tens and ones ("zero" when it is 0); a non-zero fraction adds "point" and its two
 * digits, each spoken on its own.
 */
module NumberToWords {
  import opened Wrappers
  import opened Text
  import opened Decimals
  import opened JavaInts
  import opened Exceptions

  const Ones: seq<string> := ["zero", "one", "two", "three", "four", "five", "six", "seven", "eight", "nine"]
  const OnesForInteger: seq<string> := ["", "one", "two", "three", "four", "five", "six", "seven", "eight", "nine"]
  const Tens: seq<string> := ["", "", "twenty", "thirty", "forty", "fifty", "sixty", "seventy", "eighty", "ninety"]
  const Teens: seq<string> :=
    ["ten", "eleven", "twelve", "thirteen", "fourteen", "fifteen", "sixteen", "seventeen", "eighteen", "nineteen"]

  // ---------------------------------------------------------------------------
  // The words, as lists

  /** "<digit> hundred" for a non-zero hundreds digit, nothing for zero. */
  function HundredsWords(hundreds: int): seq<string>
    requires 0 <= hundreds <= 9
  {
    if hundreds == 0 then [] else [OnesForInteger[hundreds], "hundred"]
  }

  /** 10..19 as a teen word; otherwise the tens word and the ones word, each left out when its digit is 0. */
  function BelowHundredWords(rest: int): seq<string>
    requires 0 <= rest <= 99
  {
    if 10 <= rest < 20 then [Teens[rest - 10]]
    else
      (if rest / 10 > 0 then [Tens[rest / 10]] else [])
      + (if rest % 10 > 0 then [OnesForInteger[rest % 10]] else [])
  }

  /** The words of an integer 0..999; none for 0. */
  function IntegerWords(n: int): seq<string>
    requires 0 <= n <= 999
  {
    HundredsWords(n / 100) + BelowHundredWords(n % 100)
  }

  /** The words of the whole part: "zero" for 0. */
  function WholeWords(n: int): seq<string>
    requires 0 <= n <= 999
  {
    if n == 0 then ["zero"] else IntegerWords(n)
  }

  /** The two characters "%.2f" prints after "0." for a fraction of `f` hundredths. */
  function TwoDigits(f: int): (ds: string)
    requires 0 <= f <= 99
    ensures |ds| == 2 && AllDigits(ds)
    ensures ds[0] as int - '0' as int == f / 10 && ds[1] as int - '0' as int == f % 10
  {
    [DigitChar(f / 10), DigitChar(f % 10)]
  }

  /**
   * What the digit loop appends for `digits`: a space and the word of each digit,
   * taken from the ten-entry table `words` (the service uses ONES, "zero" included).
   */
  function SpokenDigits(digits: string, words: seq<string>): string
    requires AllDigits(digits) && |words| == 10
  {
    if digits == [] then ""
    else SpokenDigits(digits[..|digits| - 1], words) + " " + words[digits[|digits| - 1] as int - '0' as int]
  }

  /** The words of an amount given in hundredths. */
  function AmountWords(hundredths: int): seq<string>
    requires 0 <= hundredths <= 99999
  {
    var whole, fraction := hundredths / 100, hundredths % 100;
    WholeWords(whole) + (if fraction == 0 then [] else ["point", Ones[fraction / 10], Ones[fraction % 10]])
  }

  /** The text of an amount given in hundredths: its words with single spaces. */
  function AmountText(hundredths: int): string
    requires 0 <= hundredths <= 99999
  {
    Join(AmountWords(hundredths), ' ')
  }

  // ---------------------------------------------------------------------------
  // The service, as the source builds it

  /**
   * convertIntegerToWords: appends the hundreds, then a teen word or the tens and
   * ones words, putting a space only between two words. A number of 1000 or more
   * reads the hundreds table past its end; a negative one appends nothing.
   */
  method ConvertIntegerToWords(number: int) returns (r: Result<string, Error>)
    requires IsInt32(number)
    ensures r.Failure? <==> number >= 1000
    ensures r.Failure? ==> r.error == IndexOutOfBounds
    ensures 0 <= number <= 999 ==> r == Success(Join(IntegerWords(number), ' '))
    ensures number < 0 ==> r == Success("")
  {
    if number == 0 {
      assert IntegerWords(0) == [] + [];
      return Success("");
    }
    var result := "";
    var n := number;
    var hundreds := Div(n, 100);
    if hundreds > 0 {
      if hundreds >= |OnesForInteger| {
        return Failure(IndexOutOfBounds);
      }
      result := result + OnesForInteger[hundreds] + " " + "hundred";
      n := Rem(n, 100);
      if n > 0 {
        result := result + " ";
      }
    }
    ghost var head := result;
    result := AppendBelowHundred(result, n);
    if number > 0 {
      IntegerTextAssembled(number, n, head, result);
    }
    r := Success(result);
  }

  /**
   * The tail of convertIntegerToWords: a teen word, or the tens word and the ones
   * word with a space between them. A negative remainder appends nothing.
   */
  method AppendBelowHundred(head: string, n: int) returns (result: string)
    requires n <= 99
    ensures 0 <= n ==> result == head + Join(BelowHundredWords(n), ' ')
    ensures n < 0 ==> result == head
  {
    result := head;
    if n >= 0 {
      BelowHundredAppended(head, n);
    }
    if n >= 10 && n < 20 {
      result := result + Teens[n - 10];
    } else {
      var tens := Div(n, 10);
      var ones := Rem(n, 10);
      if tens > 0 {
        result := result + Tens[tens];
        if ones > 0 {
          result := result + " ";
        }
      }
      if ones > 0 {
        result := result + OnesForInteger[ones];
      }
    }
  }

  /** Appending the words below a hundred, step by step as the service does, appends their join. */
  lemma BelowHundredAppended(head: string, n: int)
    requires 0 <= n <= 99
    ensures head + Join(BelowHundredWords(n), ' ') ==
      if 10 <= n < 20 then head + Teens[n - 10]
      else
        var withTens := if n / 10 > 0 then (if n % 10 > 0 then head + Tens[n / 10] + " " else head + Tens[n / 10]) else head;
        if n % 10 > 0 then withTens + OnesForInteger[n % 10] else withTens
  {
    if 10 <= n < 20 {
    } else if n / 10 > 0 && n % 10 > 0 {
      var tens, ones := Tens[n / 10], OnesForInteger[n % 10];
      assert BelowHundredWords(n) == [tens, ones];
      JoinPair(tens, ones, ' ');
      Concat3(head, tens, " ", ones);
    } else if n / 10 > 0 {
      assert BelowHundredWords(n) == [Tens[n / 10]];
    } else if n % 10 > 0 {
      assert BelowHundredWords(n) == [OnesForInteger[n % 10]];
    } else {
      assert head + [] == head;
    }
  }

  /** The hundreds step, then the words below a hundred, is the join of the integer's words. */
  lemma IntegerTextAssembled(number: int, n: int, head: string, text: string)
    requires 1 <= number <= 999
    requires n == if number / 100 > 0 then number % 100 else number
    requires head == if number / 100 > 0
      then (if n > 0 then "" + OnesForInteger[number / 100] + " " + "hundred" + " "
            else "" + OnesForInteger[number / 100] + " " + "hundred")
      else ""
    requires text == head + Join(BelowHundredWords(n), ' ')
    ensures text == Join(IntegerWords(number), ' ')
  {
    var below := BelowHundredWords(n);
    if number / 100 > 0 {
      var word := OnesForInteger[number / 100];
      assert IntegerWords(number) == [word, "hundred"] + below;
      BelowHundredWordsAreWords(n);
      assert "" + word == word;
      HundredsJoined(word, "hundred", below, head);
    } else {
      assert IntegerWords(number) == [] + below;
      assert [] + below == below;
      assert head + Join(below, ' ') == Join(below, ' ');
    }
  }

  /** The hundreds step followed by the rest is the join of all the words. */
  lemma HundredsJoined(digitWord: string, hundred: string, rest: seq<string>, head: string)
    requires head == digitWord + [' '] + hundred + (if |rest| > 0 then [' '] else [])
    ensures head + Join(rest, ' ') == Join([digitWord, hundred] + rest, ' ')
  {
    JoinPair(digitWord, hundred, ' ');
    if |rest| > 0 {
      JoinAppend([digitWord, hundred], rest, ' ');
    } else {
      assert [digitWord, hundred] + rest == [digitWord, hundred];
    }
  }

  /**
   * convertToWords: rounds half-up to two places, spells the whole part ("zero" for
   * 0), then for a fraction above zero appends "point" and one word per digit of its
   * two-digit form; the result is trimmed. From 0 to 999.99 that is AmountText; a
   * negative amount keeps "zero" above -1 and nothing below; from 1000 on the whole
   * part overruns the hundreds table.
   */
  method ConvertToWords(number: real) returns (r: Result<string, Error>)
    ensures 0 <= RoundHalfUp(number) <= 99999 ==> r == Success(AmountText(RoundHalfUp(number)))
    ensures 100000 <= RoundHalfUp(number) < 100 * 0x8000_0000 ==> r == Failure(IndexOutOfBounds)
    ensures -99 <= RoundHalfUp(number) < 0 ==> r == Success("zero")
    ensures -100 * 0x8000_0000 <= RoundHalfUp(number) <= -100 ==> r == Success("")
    ensures r.Failure? ==> r.error == IndexOutOfBounds
  {
    var rounded := RoundHalfUp(number);   // number.setScale(2, HALF_UP), in hundredths
    r := ConvertRounded(rounded);
  }

  /** The rest of convertToWords, once the amount is a whole number of hundredths. */
  method ConvertRounded(rounded: int) returns (r: Result<string, Error>)
    ensures 0 <= rounded <= 99999 ==> r == Success(AmountText(rounded))
    ensures 100000 <= rounded < 100 * 0x8000_0000 ==> r == Failure(IndexOutOfBounds)
    ensures -99 <= rounded < 0 ==> r == Success("zero")
    ensures -100 * 0x8000_0000 <= rounded <= -100 ==> r == Success("")
    ensures r.Failure? ==> r.error == IndexOutOfBounds
  {
    var integerPart := Div(rounded, 100);          // setScale(0, DOWN): truncated toward zero
    var decimalPart := rounded - 100 * integerPart; // the fraction in hundredths, with the sign of the number
    SplitRounded(rounded);
    var result := "";
    var intValue := Int32Of(integerPart);
    if intValue == 0 {
      result := result + "zero";
    } else {
      var integerWords := ConvertIntegerToWords(intValue);
      if integerWords.Failure? {
        return Failure(integerWords.error);
      }
      result := result + integerWords.value;
    }
    ghost var wholeText := result;
    if decimalPart > 0 {
      result := result + " " + "point";
      var decimalStr := TwoDigits(decimalPart);
      result := AppendDigitWords(result, decimalStr);
    }
    if 0 <= rounded <= 99999 {
      WholeTextIsJoined(intValue, wholeText);
      AmountTextAssembled(rounded, wholeText, result);
    } else if -99 <= rounded < 0 {
      ZeroTextTrimmed();
    }
    r := Success(Trim(result));
  }

  /** The loop over the fraction's characters: a space and the word of each digit, in order. */
  method AppendDigitWords(head: string, digits: string) returns (result: string)
    requires AllDigits(digits)
    ensures result == head + SpokenDigits(digits, Ones)
  {
    result := head;
    assert digits[..0] == [];
    for k := 0 to |digits|
      invariant result == head + SpokenDigits(digits[..k], Ones)
    {
      var digitValue := digits[k] as int - '0' as int;
      SpokenDigitsStep(head, digits, k, Ones);
      result := result + " " + Ones[digitValue];
    }
    assert digits[..|digits|] == digits;
  }

  /**
   * Where the whole part and the fraction fall, once truncated toward zero and
   * narrowed to an int, for each range of rounded amounts.
   */
  lemma SplitRounded(h: int)
    ensures var whole := Div(h, 100); var value := Int32Of(whole); var fraction := h - 100 * whole;
      && (0 <= h <= 99999 ==> value == whole == h / 100 && fraction == h % 100)
      && (-99 <= h < 0 ==> value == 0 && fraction < 0)
      && (-100 * 0x8000_0000 <= h <= -100 ==> value < 0 && fraction <= 0)
      && (100000 <= h < 100 * 0x8000_0000 ==> value >= 1000)
      && (h > 0 ==> 0 <= fraction <= 99)
  {
  }

  /** "zero" appended to an empty builder, then trimmed, is "zero". */
  lemma ZeroTextTrimmed()
    ensures Trim("" + "zero") == "zero"
  {
    TrimKeeps("zero");
  }

  /** The text of the whole part, "zero" or the integer's words, is the join of WholeWords. */
  lemma WholeTextIsJoined(value: int, text: string)
    requires 0 <= value <= 999
    requires text == if value == 0 then "" + "zero" else "" + Join(IntegerWords(value), ' ')
    ensures text == Join(WholeWords(value), ' ')
  {
  }

  /** One more digit appends a space and the digit's word. */
  lemma SpokenDigitsStep(head: string, digits: string, k: int, words: seq<string>)
    requires AllDigits(digits) && 0 <= k < |digits| && |words| == 10
    ensures head + SpokenDigits(digits[..k + 1], words) ==
      head + SpokenDigits(digits[..k], words) + " " + words[digits[k] as int - '0' as int]
  {
    assert digits[..k + 1][..k] == digits[..k];
    var before, word := SpokenDigits(digits[..k], words), words[digits[k] as int - '0' as int];
    Concat3(head, before, " ", word);
  }

  /**
   * The whole part's text, then " point" and the spoken digits of the fraction when
   * it is not zero, is the amount's text once trimmed.
   */
  lemma AmountTextAssembled(h: int, wholeText: string, text: string)
    requires 0 <= h <= 99999
    requires wholeText == Join(WholeWords(h / 100), ' ')
    requires text == if h % 100 > 0 then wholeText + " " + "point" + SpokenDigits(TwoDigits(h % 100), Ones) else wholeText
    ensures Trim(text) == AmountText(h)
  {
    var whole := WholeWords(h / 100);
    WholeWordsAreWords(h / 100);
    if h % 100 > 0 {
      var a, b := Ones[h % 100 / 10], Ones[h % 100 % 10];
      SpokenTwoDigits(h % 100);
      JoinThreeMore(whole, wholeText, "point", a, b);
      assert AmountWords(h) == whole + ["point", a, b];
    } else {
      assert AmountWords(h) == whole + [];
      assert whole + [] == whole;
    }
    AmountTextSingleSpaced(h);
  }

  /** The loop speaks the two digits of a fraction: a space and a word for each. */
  lemma SpokenTwoDigits(f: int)
    requires 0 <= f <= 99
    ensures SpokenDigits(TwoDigits(f), Ones) == " " + Ones[f / 10] + (" " + Ones[f % 10])
  {
    SpokenPair(TwoDigits(f), Ones);
  }

  /** Two digits are spoken as a space and the first digit's word, then a space and the second's. */
  lemma SpokenPair(ds: string, words: seq<string>)
    requires |ds| == 2 && AllDigits(ds) && |words| == 10
    ensures SpokenDigits(ds, words) ==
      " " + words[ds[0] as int - '0' as int] + (" " + words[ds[1] as int - '0' as int])
  {
    var a, b := words[ds[0] as int - '0' as int], words[ds[1] as int - '0' as int];
    var first := ds[..1];
    assert SpokenDigits(first, words) == " " + a by {
      assert first[..0] == [] && first[0] == ds[0];
      assert SpokenDigits(first, words) == "" + " " + a;
    }
    assert SpokenDigits(ds, words) == SpokenDigits(first, words) + " " + b by {
      assert ds[..|ds| - 1] == first;
    }
    assert " " + a + " " + b == " " + a + (" " + b);
  }

  // ---------------------------------------------------------------------------
  // Shape of the text

  /** Every word of an amount is a non-empty run of lower-case letters, and there is at least one. */
  lemma AmountWordsAreWords(hundredths: int)
    requires 0 <= hundredths <= 99999
    ensures |AmountWords(hundredths)| >= 1
    ensures AllWords(AmountWords(hundredths))
  {
    var whole, fraction := hundredths / 100, hundredths % 100;
    WholeWordsAreWords(whole);
    if fraction == 0 {
      assert AmountWords(hundredths) == WholeWords(whole) + [];
      AllWordsAppend(WholeWords(whole), []);
    } else {
      var tail := ["point", Ones[fraction / 10], Ones[fraction % 10]];
      FractionWordsAreWords(fraction);
      AllWordsAppend(WholeWords(whole), tail);
    }
  }

  lemma FractionWordsAreWords(fraction: int)
    requires 0 <= fraction <= 99
    ensures AllWords(["point", Ones[fraction / 10], Ones[fraction % 10]])
  {
    OnesAreWords();
    assert IsWord("point");
  }

  lemma WholeWordsAreWords(n: int)
    requires 0 <= n <= 999
    ensures |WholeWords(n)| >= 1 && AllWords(WholeWords(n))
  {
    if n == 0 {
      assert IsWord("zero");
    } else {
      var h, rest := n / 100, n % 100;
      if h > 0 {
        OnesForIntegerAreWords();
        assert IsWord("hundred");
      }
      BelowHundredWordsAreWords(rest);
      AllWordsAppend(HundredsWords(h), BelowHundredWords(rest));
    }
  }

  lemma BelowHundredWordsAreWords(rest: int)
    requires 0 <= rest <= 99
    ensures AllWords(BelowHundredWords(rest))
    ensures |BelowHundredWords(rest)| > 0 <==> rest > 0
  {
    if 10 <= rest < 20 {
      TeensAreWords();
    } else {
      TensAreWords();
      OnesForIntegerAreWords();
      AllWordsAppend(if rest / 10 > 0 then [Tens[rest / 10]] else [],
                     if rest % 10 > 0 then [OnesForInteger[rest % 10]] else []);
    }
  }

  lemma OnesAreWords()
    ensures forall i :: 0 <= i < 10 ==> IsWord(Ones[i])
  {
  }

  lemma OnesForIntegerAreWords()
    ensures forall i :: 1 <= i < 10 ==> IsWord(OnesForInteger[i])
  {
  }

  lemma TensAreWords()
    ensures forall i :: 2 <= i < 10 ==> IsWord(Tens[i])
  {
  }

  lemma TeensAreWords()
    ensures forall i :: 0 <= i < 10 ==> IsWord(Teens[i])
  {
  }

  /** The text is single-spaced with no space at either end, so trimming it changes nothing. */
  lemma AmountTextSingleSpaced(hundredths: int)
    requires 0 <= hundredths <= 99999
    ensures SingleSpaced(AmountText(hundredths))
    ensures Trim(AmountText(hundredths)) == AmountText(hundredths)
  {
    AmountWordsAreWords(hundredths);
    JoinWordsSingleSpaced(AmountWords(hundredths));
  }
}
