/**
 * Worked examples of the rounding that comes before every spelling, and of the
 * sign chosen after it.
 */
module SpellingExamples {
  import opened Decimals
  import opened NumberToWords
  import opened TemperatureText

  /** 36.404 rounds down to 36.40 and 36.406 up to 36.41; 36.4 and 36.40 are one amount. */
  lemma RoundingBeforeSpelling()
    ensures RoundHalfUp(36.404) == 3640 && RoundHalfUp(36.4) == 3640 && RoundHalfUp(36.406) == 3641
    ensures RoundHalfUp(25.567) == 2557 && RoundHalfUp(-25.564) == -2556 && RoundHalfUp(-5.4) == -540
    ensures RoundHalfUp(1.3) == 130 && RoundHalfUp(-1.44) == -144 && RoundHalfUp(15.67) == 1567
  {
  }

  /** -0.001 rounds to zero before its sign is looked at, so it reads "positive zero". */
  lemma TinyNegativeReadsPositiveZero()
    ensures RoundHalfUp(-0.001) == 0
    ensures SignedWords(0) == ["positive", "zero"]
    ensures SignedText(0) == "positive zero"
  {
    assert 0 / 100 == 0 && 0 % 100 == 0 && 0 / 10 == 0 && 0 % 10 == 0;
  }

  /** -10.0 has no fraction, so no "point" follows its words. */
  lemma MinusTen()
    ensures RoundHalfUp(-10.0) == -1000
    ensures SignedWords(-1000) == ["minus", "ten"]
  {
    assert 1000 / 100 == 10 && 1000 % 100 == 0 && 0 / 10 == 0 && 0 % 10 == 0;
    assert Teens[0] == "ten";
  }

  // ---------------------------------------------------------------------------
  // Rows of the number-to-words table, as amounts in hundredths and their words

  /** 36.40 reads "thirty six point four zero": a fraction ending in 0 still speaks both digits. */
  lemma ThirtySixPointFourZero()
    ensures AmountWords(3640) == ["thirty", "six", "point", "four", "zero"]
  {
    assert 3640 / 100 == 36 && 3640 % 100 == 40 && 40 / 10 == 4 && 40 % 10 == 0;
    assert Tens[3] == "thirty" && OnesForInteger[6] == "six";
    assert Ones[4] == "four" && Ones[0] == "zero";
    assert WholeWords(36) == ["thirty", "six"];
  }

  /** 36.41, the rounding of 36.406, reads "thirty six point four one". */
  lemma ThirtySixPointFourOne()
    ensures AmountWords(3641) == ["thirty", "six", "point", "four", "one"]
  {
    assert 3641 / 100 == 36 && 3641 % 100 == 41 && 41 / 10 == 4 && 41 % 10 == 1;
    assert Tens[3] == "thirty" && OnesForInteger[6] == "six";
    assert Ones[4] == "four" && Ones[1] == "one";
    assert WholeWords(36) == ["thirty", "six"];
  }

  /** 1 reads "one": a whole amount has no "point". */
  lemma One()
    ensures AmountWords(100) == ["one"]
  {
    assert 100 / 100 == 1 && 100 % 100 == 0 && 0 / 10 == 0 && 0 % 10 == 0;
    assert OnesForInteger[1] == "one";
    assert WholeWords(1) == ["one"];
  }

  /** 105 reads "one hundred five": no tens word when the tens digit is 0. */
  lemma OneHundredFive()
    ensures AmountWords(10500) == ["one", "hundred", "five"]
  {
    assert 10500 / 100 == 105 && 10500 % 100 == 0 && 0 / 10 == 0 && 0 % 10 == 0;
    assert OnesForInteger[1] == "one" && OnesForInteger[5] == "five";
    assert IntegerWords(105) == ["one", "hundred"] + ["five"];
  }

  /** 200 reads "two hundred": nothing follows an exact hundred. */
  lemma TwoHundred()
    ensures AmountWords(20000) == ["two", "hundred"]
  {
    assert 20000 / 100 == 200 && 20000 % 100 == 0 && 0 / 10 == 0 && 0 % 10 == 0;
    assert OnesForInteger[2] == "two";
    assert IntegerWords(200) == ["two", "hundred"] + [];
  }

  /** 0.01 reads "zero point zero one": a zero whole part is spoken. */
  lemma ZeroPointZeroOne()
    ensures AmountWords(1) == ["zero", "point", "zero", "one"]
  {
    assert 1 / 100 == 0 && 1 % 100 == 1 && 1 / 10 == 0 && 1 % 10 == 1;
    assert Ones[0] == "zero" && Ones[1] == "one";
    assert WholeWords(0) == ["zero"];
  }

  /** 1.50 reads "one point five zero". */
  lemma OnePointFiveZero()
    ensures AmountWords(150) == ["one", "point", "five", "zero"]
  {
    assert 150 / 100 == 1 && 150 % 100 == 50 && 50 / 10 == 5 && 50 % 10 == 0;
    assert OnesForInteger[1] == "one";
    assert Ones[5] == "five" && Ones[0] == "zero";
    assert WholeWords(1) == ["one"];
  }

  /** 999.99, the largest amount the tables can spell, reads "nine hundred ninety nine point nine nine". */
  lemma NineHundredNinetyNinePointNineNine()
    ensures AmountWords(99999) == ["nine", "hundred", "ninety", "nine", "point", "nine", "nine"]
  {
    assert 99999 / 100 == 999 && 99999 % 100 == 99 && 99 / 10 == 9 && 99 % 10 == 9;
    assert OnesForInteger[9] == "nine" && Tens[9] == "ninety" && Ones[9] == "nine";
    assert IntegerWords(999) == ["nine", "hundred"] + ["ninety", "nine"];
  }

  /** 36 reads "thirty six". */
  lemma ThirtySix()
    ensures AmountWords(3600) == ["thirty", "six"]
  {
    assert 3600 / 100 == 36 && 3600 % 100 == 0 && 0 / 10 == 0 && 0 % 10 == 0;
    assert Tens[3] == "thirty" && OnesForInteger[6] == "six";
    assert WholeWords(36) == ["thirty", "six"];
  }

  /** 0 reads "zero". */
  lemma Zero()
    ensures AmountWords(0) == ["zero"]
  {
    assert 0 / 100 == 0 && 0 % 100 == 0 && 0 / 10 == 0 && 0 % 10 == 0;
    assert Ones[0] == "zero";
    assert WholeWords(0) == ["zero"];
  }

  /** 10 reads "ten". */
  lemma Ten()
    ensures AmountWords(1000) == ["ten"]
  {
    assert 1000 / 100 == 10 && 1000 % 100 == 0 && 0 / 10 == 0 && 0 % 10 == 0;
    assert Teens[0] == "ten";
    assert WholeWords(10) == ["ten"];
  }

  /** 11 reads "eleven". */
  lemma Eleven()
    ensures AmountWords(1100) == ["eleven"]
  {
    assert 1100 / 100 == 11 && 1100 % 100 == 0 && 0 / 10 == 0 && 0 % 10 == 0;
    assert Teens[1] == "eleven";
    assert WholeWords(11) == ["eleven"];
  }

  /** 13 reads "thirteen". */
  lemma Thirteen()
    ensures AmountWords(1300) == ["thirteen"]
  {
    assert 1300 / 100 == 13 && 1300 % 100 == 0 && 0 / 10 == 0 && 0 % 10 == 0;
    assert Teens[3] == "thirteen";
    assert WholeWords(13) == ["thirteen"];
  }

  /** 14 reads "fourteen". */
  lemma Fourteen()
    ensures AmountWords(1400) == ["fourteen"]
  {
    assert 1400 / 100 == 14 && 1400 % 100 == 0 && 0 / 10 == 0 && 0 % 10 == 0;
    assert Teens[4] == "fourteen";
    assert WholeWords(14) == ["fourteen"];
  }

  /** 15 reads "fifteen". */
  lemma Fifteen()
    ensures AmountWords(1500) == ["fifteen"]
  {
    assert 1500 / 100 == 15 && 1500 % 100 == 0 && 0 / 10 == 0 && 0 % 10 == 0;
    assert Teens[5] == "fifteen";
    assert WholeWords(15) == ["fifteen"];
  }

  /** 18 reads "eighteen". */
  lemma Eighteen()
    ensures AmountWords(1800) == ["eighteen"]
  {
    assert 1800 / 100 == 18 && 1800 % 100 == 0 && 0 / 10 == 0 && 0 % 10 == 0;
    assert Teens[8] == "eighteen";
    assert WholeWords(18) == ["eighteen"];
  }

  /** 19 reads "nineteen". */
  lemma Nineteen()
    ensures AmountWords(1900) == ["nineteen"]
  {
    assert 1900 / 100 == 19 && 1900 % 100 == 0 && 0 / 10 == 0 && 0 % 10 == 0;
    assert Teens[9] == "nineteen";
    assert WholeWords(19) == ["nineteen"];
  }

  /** 20 reads "twenty". */
  lemma Twenty()
    ensures AmountWords(2000) == ["twenty"]
  {
    assert 2000 / 100 == 20 && 2000 % 100 == 0 && 0 / 10 == 0 && 0 % 10 == 0;
    assert Tens[2] == "twenty";
    assert WholeWords(20) == ["twenty"];
  }

  /** 21 reads "twenty one". */
  lemma TwentyOne()
    ensures AmountWords(2100) == ["twenty", "one"]
  {
    assert 2100 / 100 == 21 && 2100 % 100 == 0 && 0 / 10 == 0 && 0 % 10 == 0;
    assert Tens[2] == "twenty" && OnesForInteger[1] == "one";
    assert WholeWords(21) == ["twenty", "one"];
  }

  /** 99 reads "ninety nine". */
  lemma NinetyNine()
    ensures AmountWords(9900) == ["ninety", "nine"]
  {
    assert 9900 / 100 == 99 && 9900 % 100 == 0 && 0 / 10 == 0 && 0 % 10 == 0;
    assert Tens[9] == "ninety" && OnesForInteger[9] == "nine";
    assert WholeWords(99) == ["ninety", "nine"];
  }

  /** 100 reads "one hundred". */
  lemma OneHundred()
    ensures AmountWords(10000) == ["one", "hundred"]
  {
    assert 10000 / 100 == 100 && 10000 % 100 == 0 && 0 / 10 == 0 && 0 % 10 == 0;
    assert OnesForInteger[1] == "one";
    assert WholeWords(100) == ["one", "hundred"];
  }

  /** 101 reads "one hundred one". */
  lemma OneHundredOne()
    ensures AmountWords(10100) == ["one", "hundred", "one"]
  {
    assert 10100 / 100 == 101 && 10100 % 100 == 0 && 0 / 10 == 0 && 0 % 10 == 0;
    assert OnesForInteger[1] == "one";
    assert WholeWords(101) == ["one", "hundred", "one"];
  }

  /** 505 reads "five hundred five". */
  lemma FiveHundredFive()
    ensures AmountWords(50500) == ["five", "hundred", "five"]
  {
    assert 50500 / 100 == 505 && 50500 % 100 == 0 && 0 / 10 == 0 && 0 % 10 == 0;
    assert OnesForInteger[5] == "five";
    assert WholeWords(505) == ["five", "hundred", "five"];
  }

  /** 999 reads "nine hundred ninety nine". */
  lemma NineHundredNinetyNine()
    ensures AmountWords(99900) == ["nine", "hundred", "ninety", "nine"]
  {
    assert 99900 / 100 == 999 && 99900 % 100 == 0 && 0 / 10 == 0 && 0 % 10 == 0;
    assert OnesForInteger[9] == "nine" && Tens[9] == "ninety";
    assert WholeWords(999) == ["nine", "hundred", "ninety", "nine"];
  }

  /** 0.99 reads "zero point nine nine". */
  lemma ZeroPointNineNine()
    ensures AmountWords(99) == ["zero", "point", "nine", "nine"]
  {
    assert 99 / 100 == 0 && 99 % 100 == 99 && 99 / 10 == 9 && 99 % 10 == 9;
    assert Ones[0] == "zero" && Ones[9] == "nine";
    assert AmountWords(99) == ["zero"] + ["point", "nine", "nine"];
  }

  // ---------------------------------------------------------------------------
  // Rows of the temperature table: rounded, then signed and spelled

  /** 1.3 reads "positive one point three zero". */
  lemma PositiveOnePointThreeZero()
    ensures SignedWords(130) == ["positive", "one", "point", "three", "zero"]
  {
    assert 130 / 100 == 1 && 130 % 100 == 30 && 30 / 10 == 3 && 30 % 10 == 0;
    assert OnesForInteger[1] == "one";
    assert Ones[3] == "three" && Ones[0] == "zero";
    assert AmountWords(130) == ["one"] + ["point", "three", "zero"];
  }

  /** -5.4 reads "minus five point four zero". */
  lemma MinusFivePointFourZero()
    ensures SignedWords(-540) == ["minus", "five", "point", "four", "zero"]
  {
    assert 540 / 100 == 5 && 540 % 100 == 40 && 40 / 10 == 4 && 40 % 10 == 0;
    assert OnesForInteger[5] == "five";
    assert Ones[4] == "four" && Ones[0] == "zero";
    assert AmountWords(540) == ["five"] + ["point", "four", "zero"];
  }

  /** 25.57, the rounding of 25.567, reads "positive twenty five point five seven". */
  lemma PositiveTwentyFivePointFiveSeven()
    ensures SignedWords(2557) == ["positive", "twenty", "five", "point", "five", "seven"]
  {
    assert 2557 / 100 == 25 && 2557 % 100 == 57 && 57 / 10 == 5 && 57 % 10 == 7;
    assert Tens[2] == "twenty" && OnesForInteger[5] == "five";
    assert Ones[5] == "five" && Ones[7] == "seven";
    assert AmountWords(2557) == ["twenty", "five"] + ["point", "five", "seven"];
  }

  /** -25.56, the rounding of -25.564, reads "minus twenty five point five six". */
  lemma MinusTwentyFivePointFiveSix()
    ensures SignedWords(-2556) == ["minus", "twenty", "five", "point", "five", "six"]
  {
    assert 2556 / 100 == 25 && 2556 % 100 == 56 && 56 / 10 == 5 && 56 % 10 == 6;
    assert Tens[2] == "twenty" && OnesForInteger[5] == "five";
    assert Ones[5] == "five" && Ones[6] == "six";
    assert AmountWords(2556) == ["twenty", "five"] + ["point", "five", "six"];
  }

  /** -1.44 reads "minus one point four four". */
  lemma MinusOnePointFourFour()
    ensures SignedWords(-144) == ["minus", "one", "point", "four", "four"]
  {
    assert 144 / 100 == 1 && 144 % 100 == 44 && 44 / 10 == 4 && 44 % 10 == 4;
    assert OnesForInteger[1] == "one" && Ones[4] == "four";
    assert AmountWords(144) == ["one"] + ["point", "four", "four"];
  }

  /** 15.67 reads "positive fifteen point six seven". */
  lemma PositiveFifteenPointSixSeven()
    ensures SignedWords(1567) == ["positive", "fifteen", "point", "six", "seven"]
  {
    assert 1567 / 100 == 15 && 1567 % 100 == 67 && 67 / 10 == 6 && 67 % 10 == 7;
    assert Teens[5] == "fifteen" && Ones[6] == "six" && Ones[7] == "seven";
    assert AmountWords(1567) == ["fifteen"] + ["point", "six", "seven"];
  }

  /** 25.5, rounded to 25.50, reads "positive twenty five point five zero". */
  lemma PositiveTwentyFivePointFiveZero()
    ensures SignedWords(2550) == ["positive", "twenty", "five", "point", "five", "zero"]
  {
    assert 2550 / 100 == 25 && 2550 % 100 == 50 && 50 / 10 == 5 && 50 % 10 == 0;
    assert Tens[2] == "twenty" && OnesForInteger[5] == "five" && Ones[5] == "five" && Ones[0] == "zero";
    assert AmountWords(2550) == ["twenty", "five"] + ["point", "five", "zero"];
  }
}
