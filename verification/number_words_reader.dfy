/**
 * Reading number words back: a parser from a list of words to the amount they spell,
 * in hundredths. It inverts AmountWords, so no two amounts from 0 to 999.99 are
 * spelled alike.
 */
module NumberWordsReader {
  import opened Wrappers
  import opened Text
  import opened NumberToWords

  /** The first index at or after `i` where `table` holds `w`. */
  function IndexFrom(table: seq<string>, w: string, i: nat): (r: Option<nat>)
    decreases |table| - i
    ensures r.Some? ==> i <= r.value < |table| && table[r.value] == w
  {
    if i >= |table| then None
    else if table[i] == w then Some(i)
    else IndexFrom(table, w, i + 1)
  }

  /** The value of a teen, tens or digit word. */
  function WordValue(w: string): Option<int>
  {
    var teen, tens, ones := IndexFrom(Teens, w, 0), IndexFrom(Tens, w, 2), IndexFrom(Ones, w, 0);
    if teen.Some? then Some(10 + teen.value)
    else if tens.Some? then Some(10 * tens.value)
    else if ones.Some? then Some(ones.value)
    else None
  }

  /**
   * Reads words left to right on top of `acc`: "hundred" multiplies what has been
   * read so far by a hundred, every other word adds the value `value` gives it.
   */
  function Fold(ws: seq<string>, acc: int, value: string -> Option<int>): Option<int>
    decreases |ws|
  {
    if ws == [] then Some(acc)
    else if ws[0] == "hundred" then Fold(ws[1..], 100 * acc, value)
    else
      var v := value(ws[0]);
      if v.Some? then Fold(ws[1..], acc + v.value, value) else None
  }

  /** The number a list of number words spells. */
  function ReadWords(ws: seq<string>): Option<int>
  {
    Fold(ws, 0, WordValue)
  }

  /**
   * The whole part, then optionally "point" and two digit words; the amount in
   * hundredths, with `value` giving each word its value.
   */
  function ParseAmount(ws: seq<string>, value: string -> Option<int>): Option<int>
  {
    var n := |ws|;
    var k := if n >= 3 && ws[n - 3] == "point" then n - 3 else n;
    var whole := Fold(ws[..k], 0, value);
    var first := if k < n then value(ws[n - 2]) else Some(0);
    var second := if k < n then value(ws[n - 1]) else Some(0);
    if whole.Some? && first.Some? && second.Some? && 0 <= first.value <= 9 && 0 <= second.value <= 9
    then Some(100 * whole.value + 10 * first.value + second.value)
    else None
  }

  /** The amount a list of number words spells, in hundredths. */
  function ReadAmount(ws: seq<string>): Option<int>
  {
    ParseAmount(ws, WordValue)
  }

  /** The amount a text spells: its words split at single spaces, then read. */
  function ReadAmountText(s: string): Option<int>
  {
    ReadAmount(Fields(s, ' '))
  }

  // ---------------------------------------------------------------------------
  // The vocabulary: every word stands for one value only

  lemma TeensDistinct()
    ensures forall i, j :: 0 <= j < i < 10 ==> Teens[j] != Teens[i]
  {
  }

  lemma TensDistinct()
    ensures forall i, j :: 2 <= j < i < 10 ==> Tens[j] != Tens[i]
    ensures forall i, j :: 2 <= i < 10 && 0 <= j < 10 ==> Teens[j] != Tens[i]
  {
  }

  lemma OnesDistinct()
    ensures forall i, j :: 0 <= j < i < 10 ==> Ones[j] != Ones[i]
    ensures forall i, j :: 0 <= i < 10 && 0 <= j < 10 ==> Teens[j] != Ones[i]
    ensures forall i, j :: 0 <= i < 10 && 2 <= j < 10 ==> Tens[j] != Ones[i]
    ensures forall i :: 1 <= i < 10 ==> OnesForInteger[i] == Ones[i]
  {
  }

  /** "hundred" and "point" are not number words. */
  lemma MarkersAreNotNumbers()
    ensures forall i :: 0 <= i < 10 ==> Teens[i] != "hundred" && Teens[i] != "point"
    ensures forall i :: 2 <= i < 10 ==> Tens[i] != "hundred" && Tens[i] != "point"
    ensures forall i :: 0 <= i < 10 ==> Ones[i] != "hundred" && Ones[i] != "point"
  {
  }

  /** Looking up an entry that no earlier entry repeats finds its own index. */
  lemma {:induction false} IndexOfEntry(table: seq<string>, k: nat, from: nat)
    requires from <= k < |table|
    requires forall j :: from <= j < k ==> table[j] != table[k]
    ensures IndexFrom(table, table[k], from) == Some(k)
    decreases k - from
  {
    if from < k {
      IndexOfEntry(table, k, from + 1);
    }
  }

  /** Looking up a word the table does not hold finds nothing. */
  lemma {:induction false} IndexOfAbsent(table: seq<string>, w: string, from: nat)
    requires forall j :: from <= j < |table| ==> table[j] != w
    ensures IndexFrom(table, w, from) == None
    decreases |table| - from
  {
    if from < |table| {
      IndexOfAbsent(table, w, from + 1);
    }
  }

  lemma TeenValue(t: int)
    requires 0 <= t < 10
    ensures WordValue(Teens[t]) == Some(10 + t) && Teens[t] != "hundred"
  {
    TeensDistinct();
    MarkersAreNotNumbers();
    IndexOfEntry(Teens, t, 0);
  }

  lemma TensValue(t: int)
    requires 2 <= t < 10
    ensures WordValue(Tens[t]) == Some(10 * t) && Tens[t] != "hundred"
  {
    TensDistinct();
    MarkersAreNotNumbers();
    IndexOfAbsent(Teens, Tens[t], 0);
    IndexOfEntry(Tens, t, 2);
  }

  lemma DigitValue(o: int)
    requires 0 <= o < 10
    ensures WordValue(Ones[o]) == Some(o) && Ones[o] != "hundred"
    ensures IndexFrom(Ones, Ones[o], 0) == Some(o)
    ensures o > 0 ==> OnesForInteger[o] == Ones[o]
  {
    OnesDistinct();
    MarkersAreNotNumbers();
    IndexOfAbsent(Teens, Ones[o], 0);
    IndexOfAbsent(Tens, Ones[o], 2);
    IndexOfEntry(Ones, o, 0);
  }

  // ---------------------------------------------------------------------------
  // Round trips

  /** Reading a concatenation reads the second list on top of what the first one gave. */
  lemma {:induction false} FoldAppend(xs: seq<string>, ys: seq<string>, acc: int, mid: int, value: string -> Option<int>)
    requires Fold(xs, acc, value) == Some(mid)
    ensures Fold(xs + ys, acc, value) == Fold(ys, mid, value)
    decreases |xs|
  {
    if xs == [] {
      assert xs + ys == ys;
    } else {
      assert (xs + ys)[1..] == xs[1..] + ys;
      if xs[0] == "hundred" {
        FoldAppend(xs[1..], ys, 100 * acc, mid, value);
      } else {
        FoldAppend(xs[1..], ys, acc + value(xs[0]).value, mid, value);
      }
    }
  }

  /** A single word other than "hundred" adds its value. */
  lemma FoldOne(w: string, acc: int, v: int, value: string -> Option<int>)
    requires w != "hundred" && value(w) == Some(v)
    ensures Fold([w], acc, value) == Some(acc + v)
  {
    assert [w][1..] == [];
  }

  /** "hundred" alone multiplies by a hundred. */
  lemma FoldHundred(acc: int, value: string -> Option<int>)
    ensures Fold(["hundred"], acc, value) == Some(100 * acc)
  {
    assert ["hundred"][1..] == [];
  }

  /** What a valuation must give the number words for the fold to read them right. */
  predicate ValuesNumberWords(value: string -> Option<int>)
  {
    && (forall t :: 0 <= t < 10 ==> value(Teens[t]) == Some(10 + t) && Teens[t] != "hundred")
    && (forall t :: 2 <= t < 10 ==> value(Tens[t]) == Some(10 * t) && Tens[t] != "hundred")
    && (forall o :: 0 <= o < 10 ==> value(Ones[o]) == Some(o) && Ones[o] != "hundred")
    && (forall o :: 1 <= o < 10 ==> OnesForInteger[o] == Ones[o])
  }

  /** WordValue gives every number word its value. */
  lemma WordValueValuesNumberWords()
    ensures ValuesNumberWords(WordValue)
  {
    forall t | 0 <= t < 10
      ensures WordValue(Teens[t]) == Some(10 + t) && Teens[t] != "hundred"
    {
      TeenValue(t);
    }
    forall t | 2 <= t < 10
      ensures WordValue(Tens[t]) == Some(10 * t) && Tens[t] != "hundred"
    {
      TensValue(t);
    }
    forall o | 0 <= o < 10
      ensures WordValue(Ones[o]) == Some(o) && Ones[o] != "hundred" && (o > 0 ==> OnesForInteger[o] == Ones[o])
    {
      DigitValue(o);
    }
  }

  /** The words of 0..99 add their value. */
  lemma ReadBelowHundredWords(rest: int, acc: int, value: string -> Option<int>)
    requires 0 <= rest <= 99 && ValuesNumberWords(value)
    ensures Fold(BelowHundredWords(rest), acc, value) == Some(acc + rest)
  {
    var t, o := rest / 10, rest % 10;
    if 10 <= rest < 20 {
      FoldOne(Teens[rest - 10], acc, rest, value);
    } else if t > 0 && o > 0 {
      FoldOne(Tens[t], acc, 10 * t, value);
      FoldAppend([Tens[t]], [Ones[o]], acc, acc + 10 * t, value);
      FoldOne(Ones[o], acc + 10 * t, o, value);
      assert BelowHundredWords(rest) == [Tens[t]] + [Ones[o]];
    } else if t > 0 {
      FoldOne(Tens[t], acc, 10 * t, value);
    } else if o > 0 {
      FoldOne(Ones[o], acc, o, value);
    } else {
      assert BelowHundredWords(rest) == [];
    }
  }

  /** The words of 0..999 read as the number. */
  lemma ReadIntegerWords(n: int, value: string -> Option<int>)
    requires 0 <= n <= 999 && ValuesNumberWords(value)
    ensures Fold(IntegerWords(n), 0, value) == Some(n)
  {
    var d, rest := n / 100, n % 100;
    ReadBelowHundredWords(rest, 100 * d, value);
    if d > 0 {
      assert IntegerWords(n) == [OnesForInteger[d], "hundred"] + BelowHundredWords(rest);
      ReadHundreds(OnesForInteger[d], BelowHundredWords(rest), d, rest, value);
    } else {
      assert IntegerWords(n) == [] + BelowHundredWords(rest);
      assert [] + BelowHundredWords(rest) == BelowHundredWords(rest);
    }
  }

  /** A digit word and "hundred", then words adding `rest`, read as `d` hundreds plus `rest`. */
  lemma ReadHundreds(w: string, below: seq<string>, d: int, rest: int, value: string -> Option<int>)
    requires value(w) == Some(d) && w != "hundred"
    requires Fold(below, 100 * d, value) == Some(100 * d + rest)
    ensures Fold([w, "hundred"] + below, 0, value) == Some(100 * d + rest)
  {
    FoldOne(w, 0, d, value);
    FoldHundred(d, value);
    FoldAppend([w], ["hundred"], 0, d, value);
    assert [w, "hundred"] == [w] + ["hundred"];
    FoldAppend([w, "hundred"], below, 0, 100 * d, value);
  }

  /** The words of a whole part read as the number. */
  lemma ReadWholeWords(n: int, value: string -> Option<int>)
    requires 0 <= n <= 999 && ValuesNumberWords(value)
    ensures Fold(WholeWords(n), 0, value) == Some(n)
  {
    if n == 0 {
      FoldOne(Ones[0], 0, 0, value);
    } else {
      ReadIntegerWords(n, value);
    }
  }

  /** No word of a whole part is "point". */
  lemma WholeHasNoPoint(n: int)
    requires 0 <= n <= 999
    ensures forall i :: 0 <= i < |WholeWords(n)| ==> WholeWords(n)[i] != "point"
  {
    MarkersAreNotNumbers();
    OnesDistinct();
    var d, rest := n / 100, n % 100;
    var t, o := rest / 10, rest % 10;
    if !(10 <= rest < 20) && t > 0 && o > 0 {
      assert BelowHundredWords(rest) == [Tens[t], OnesForInteger[o]];
    }
    if n > 0 && d > 0 {
      assert IntegerWords(n) == [OnesForInteger[d], "hundred"] + BelowHundredWords(rest);
    }
  }

  /** A whole part, "point" and two digit words read as the amount in hundredths. */
  lemma ParsePointed(w: seq<string>, whole: int, a: int, b: int, value: string -> Option<int>)
    requires Fold(w, 0, value) == Some(whole) && ValuesNumberWords(value)
    requires 0 <= a < 10 && 0 <= b < 10
    ensures ParseAmount(w + ["point", Ones[a], Ones[b]], value) == Some(100 * whole + 10 * a + b)
  {
    var ws := w + ["point", Ones[a], Ones[b]];
    assert ws[..|ws| - 3] == w;
  }

  /** A whole part without "point" reads as that many hundreds of hundredths. */
  lemma ParseUnpointed(w: seq<string>, whole: int, value: string -> Option<int>)
    requires Fold(w, 0, value) == Some(whole)
    requires forall i :: 0 <= i < |w| ==> w[i] != "point"
    ensures ParseAmount(w, value) == Some(100 * whole)
  {
    assert w[..|w|] == w;
    if |w| >= 3 {
      assert w[|w| - 3] != "point";
    }
  }

  /** The words of an amount with cents: the whole part, "point", and the two cent digits. */
  lemma CentsWords(h: int)
    requires 0 <= h <= 99999 && h % 100 > 0
    ensures AmountWords(h) == WholeWords(h / 100) + ["point", Ones[h % 100 / 10], Ones[h % 100 % 10]]
    ensures h == 100 * (h / 100) + 10 * (h % 100 / 10) + h % 100 % 10
  {
  }

  lemma ParseAmountOfWords(h: int, value: string -> Option<int>)
    requires 0 <= h <= 99999 && ValuesNumberWords(value)
    ensures ParseAmount(AmountWords(h), value) == Some(h)
  {
    if h % 100 > 0 {
      ParseAmountWithCents(h, value);
    } else {
      ParseAmountWithoutCents(h, value);
    }
  }

  lemma ParseAmountWithCents(h: int, value: string -> Option<int>)
    requires 0 <= h <= 99999 && h % 100 > 0 && ValuesNumberWords(value)
    ensures ParseAmount(AmountWords(h), value) == Some(h)
  {
    var whole := h / 100;
    ReadWholeWords(whole, value);
    CentsWords(h);
    ParseCentsShape(AmountWords(h), WholeWords(whole), whole, h % 100 / 10, h % 100 % 10, h, value);
  }

  lemma ParseCentsShape(ws: seq<string>, w: seq<string>, whole: int, a: int, b: int, h: int,
                        value: string -> Option<int>)
    requires 0 <= a < 10 && 0 <= b < 10
    requires ws == w + ["point", Ones[a], Ones[b]] && h == 100 * whole + 10 * a + b
    requires Fold(w, 0, value) == Some(whole) && ValuesNumberWords(value)
    ensures ParseAmount(ws, value) == Some(h)
  {
    ParsePointed(w, whole, a, b, value);
  }

  lemma ParseAmountWithoutCents(h: int, value: string -> Option<int>)
    requires 0 <= h <= 99999 && h % 100 == 0 && ValuesNumberWords(value)
    ensures ParseAmount(AmountWords(h), value) == Some(h)
  {
    var whole := h / 100;
    ReadWholeWords(whole, value);
    WholeAmountWords(h);
    WholeHasNoPoint(whole);
    ParseUnpointed(WholeWords(whole), whole, value);
  }

  /** The words of an amount without cents are those of its whole part. */
  lemma WholeAmountWords(h: int)
    requires 0 <= h <= 99999 && h % 100 == 0
    ensures AmountWords(h) == WholeWords(h / 100) && h == 100 * (h / 100)
  {
    assert WholeWords(h / 100) + [] == WholeWords(h / 100);
  }

  /** Reading the words of an amount gives the amount back. */
  lemma ReadAmountOfWords(h: int)
    requires 0 <= h <= 99999
    ensures ReadAmount(AmountWords(h)) == Some(h)
  {
    WordValueValuesNumberWords();
    ParseAmountOfWords(h, WordValue);
  }

  /** Reading the text of an amount gives the amount back. */
  lemma ReadAmountTextOfText(h: int)
    requires 0 <= h <= 99999
    ensures ReadAmountText(AmountText(h)) == Some(h)
  {
    AmountWordsAreWords(h);
    var ws := AmountWords(h);
    forall i | 0 <= i < |ws|
      ensures ' ' !in ws[i]
    {
      WordHasNoSpace(ws[i]);
    }
    FieldsOfJoin(ws, ' ');
    ReadAmountOfWords(h);
  }

  /** Different amounts from 0 to 999.99 are spelled differently. */
  lemma AmountTextInjective(h1: int, h2: int)
    requires 0 <= h1 <= 99999 && 0 <= h2 <= 99999
    requires AmountText(h1) == AmountText(h2)
    ensures h1 == h2
  {
    ReadAmountTextOfText(h1);
    ReadAmountTextOfText(h2);
  }
}
