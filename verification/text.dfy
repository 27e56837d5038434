/**
 * Text helpers the services rely on: joining words with a separator, splitting a
 * string at every separator, and Java's String.trim.
 */
module Text {

  /** The parts of `parts` with one `sep` between neighbours (Java's String.join). */
  function Join(parts: seq<string>, sep: char): string
  {
    if |parts| == 0 then ""
    else if |parts| == 1 then parts[0]
    else parts[0] + [sep] + Join(parts[1..], sep)
  }

  /**
   * Every field of `s` between separators, empty fields included. Joining the
   * fields back with the separator gives `s`.
   */
  function Fields(s: string, sep: char): (fs: seq<string>)
    ensures |fs| >= 1
    ensures forall i :: 0 <= i < |fs| ==> sep !in fs[i]
    ensures Join(fs, sep) == s
  {
    if s == [] then [""]
    else
      var rest := Fields(s[1..], sep);
      if s[0] == sep then
        assert ([""] + rest)[1..] == rest;
        [""] + rest
      else
        var first := [s[0]] + rest[0];
        assert s == [s[0]] + s[1..];
        assert ([first] + rest[1..])[1..] == rest[1..];
        [first] + rest[1..]
  }

  lemma JoinPair(a: string, b: string, sep: char)
    ensures Join([a, b], sep) == a + [sep] + b
  {
    assert [a, b][1..] == [b];
  }

  /** Appending one more part adds one separator and the part. */
  lemma {:induction false} JoinSnoc(parts: seq<string>, last: string, sep: char)
    requires |parts| >= 1
    ensures Join(parts + [last], sep) == Join(parts, sep) + [sep] + last
  {
    if |parts| == 1 {
      assert (parts + [last])[1..] == [last];
    } else {
      assert (parts + [last])[1..] == parts[1..] + [last];
      JoinSnoc(parts[1..], last, sep);
    }
  }

  /** Appending one more part after a list made of two pieces adds one separator and the part. */
  lemma JoinSnocAfter(prefix: seq<string>, middle: seq<string>, last: string, sep: char)
    requires |prefix| >= 1
    ensures Join(prefix + (middle + [last]), sep) == Join(prefix + middle, sep) + [sep] + last
  {
    assert prefix + (middle + [last]) == (prefix + middle) + [last];
    JoinSnoc(prefix + middle, last, sep);
  }

  /** A joined text followed by three space-led parts is the join of the longer list. */
  lemma JoinThreeMore(parts: seq<string>, text: string, x: string, y: string, z: string)
    requires |parts| >= 1 && text == Join(parts, ' ')
    ensures text + " " + x + (" " + y + (" " + z)) == Join(parts + [x, y, z], ' ')
  {
    JoinSnoc3(parts, x, y, z, ' ');
    Regroup(text, [' '], x, y, z);
  }

  lemma Regroup(t: string, s: string, x: string, y: string, z: string)
    ensures t + s + x + (s + y + (s + z)) == t + s + x + s + y + s + z
  {
    assert s + y + (s + z) == s + y + s + z;
  }

  /** Three more parts add three separators and the parts. */
  lemma JoinSnoc3(parts: seq<string>, x: string, y: string, z: string, sep: char)
    requires |parts| >= 1
    ensures Join(parts + [x, y, z], sep) == Join(parts, sep) + [sep] + x + [sep] + y + [sep] + z
  {
    JoinSnoc(parts, x, sep);
    JoinSnoc(parts + [x], y, sep);
    JoinSnoc(parts + [x, y], z, sep);
    assert parts + [x] + [y] == parts + [x, y];
    assert parts + [x, y] + [z] == parts + [x, y, z];
  }

  lemma Concat3(a: string, b: string, c: string, d: string)
    ensures a + (b + c + d) == a + b + c + d
  {
  }

  /** Joining two non-empty lists puts exactly one separator between their joins. */
  lemma {:induction false} JoinAppend(xs: seq<string>, ys: seq<string>, sep: char)
    requires |xs| >= 1 && |ys| >= 1
    ensures Join(xs + ys, sep) == Join(xs, sep) + [sep] + Join(ys, sep)
  {
    if |xs| == 1 {
      assert (xs + ys)[1..] == ys;
    } else {
      assert (xs + ys)[1..] == xs[1..] + ys;
      JoinAppend(xs[1..], ys, sep);
    }
  }

  /** A string without separators is a single field. */
  lemma {:induction false} FieldsOfField(a: string, sep: char)
    requires sep !in a
    ensures Fields(a, sep) == [a]
  {
    if a != [] {
      FieldsOfField(a[1..], sep);
      assert a == [a[0]] + a[1..];
    }
  }

  /** A separator-free prefix followed by a separator is the first field. */
  lemma {:induction false} FieldsAfterField(a: string, b: string, sep: char)
    requires sep !in a
    ensures Fields(a + [sep] + b, sep) == [a] + Fields(b, sep)
  {
    var s := a + [sep] + b;
    if a == [] {
      assert s[1..] == b;
    } else {
      assert s[1..] == a[1..] + [sep] + b;
      FieldsAfterField(a[1..], b, sep);
      assert a == [a[0]] + a[1..];
    }
  }

  /** Splitting a join of separator-free parts gives the parts back. */
  lemma {:induction false} FieldsOfJoin(parts: seq<string>, sep: char)
    requires |parts| >= 1
    requires forall i :: 0 <= i < |parts| ==> sep !in parts[i]
    ensures Fields(Join(parts, sep), sep) == parts
  {
    if |parts| == 1 {
      FieldsOfField(parts[0], sep);
    } else {
      FieldsOfJoin(parts[1..], sep);
      FieldsAfterField(parts[0], Join(parts[1..], sep), sep);
      assert parts == [parts[0]] + parts[1..];
    }
  }

  predicate IsDigit(c: char)
  {
    '0' <= c <= '9'
  }

  predicate AllDigits(s: string)
  {
    forall i :: 0 <= i < |s| ==> IsDigit(s[i])
  }

  /** The character of a decimal digit. */
  function DigitChar(n: int): (c: char)
    requires 0 <= n <= 9
    ensures IsDigit(c) && c as int - '0' as int == n
  {
    ('0' as int + n) as char
  }

  /** Java's String.trim: drops every leading and trailing character at or below U+0020. */
  function Trim(s: string): (r: string)
    ensures |r| <= |s|
    ensures r == [] || (r[0] > ' ' && r[|r| - 1] > ' ')
  {
    TrimEnd(TrimStart(s))
  }

  /** Trim removes only characters at or below U+0020, and only from the two ends. */
  lemma TrimDropsOnlyBlanks(s: string)
    ensures BlankAround(s, |s| - |TrimStart(s)|, Trim(s))
  {
    var t := TrimStart(s);
    TrimIsSlice(s, t, TrimEnd(t));
  }

  /** `r` is the slice of `s` from `k`, and every character of `s` before or after it is at or below U+0020. */
  predicate BlankAround(s: string, k: int, r: string)
  {
    && 0 <= k && k + |r| <= |s| && r == s[k..k + |r|]
    && (forall i :: 0 <= i < k ==> s[i] <= ' ')
    && (forall i :: k + |r| <= i < |s| ==> s[i] <= ' ')
  }

  /** The first `n` characters from `k` on are the slice from `k` to `k + n`. */
  lemma PrefixOfSuffix(s: string, k: nat, n: nat)
    requires k + n <= |s|
    ensures s[k..][..n] == s[k..k + n]
  {
  }

  /** A suffix after blanks, cut before blanks, is a slice with only blanks around it. */
  lemma TrimIsSlice(s: string, t: string, r: string)
    requires |t| <= |s| && t == s[|s| - |t|..] && forall i :: 0 <= i < |s| - |t| ==> s[i] <= ' '
    requires |r| <= |t| && r == t[..|r|] && forall i :: |r| <= i < |t| ==> t[i] <= ' '
    ensures BlankAround(s, |s| - |t|, r)
  {
    var k := |s| - |t|;
    assert t == s[k..];
    assert r == t[..|r|];
    PrefixOfSuffix(s, k, |r|);
    forall i | k + |r| <= i < |s|
      ensures s[i] <= ' '
    {
      assert s[i] == t[i - k];
    }
  }

  /** The text after its leading characters at or below U+0020. */
  function TrimStart(s: string): (r: string)
    ensures |r| <= |s| && r == s[|s| - |r|..]
    ensures r == [] || r[0] > ' '
    ensures forall i :: 0 <= i < |s| - |r| ==> s[i] <= ' '
  {
    if |s| > 0 && s[0] <= ' ' then TrimStart(s[1..]) else s
  }

  /** The text before its trailing characters at or below U+0020. */
  function TrimEnd(s: string): (r: string)
    ensures |r| <= |s| && r == s[..|r|]
    ensures r == [] || r[|r| - 1] > ' '
    ensures forall i :: |r| <= i < |s| ==> s[i] <= ' '
  {
    if |s| > 0 && s[|s| - 1] <= ' ' then TrimEnd(s[..|s| - 1]) else s
  }

  /** A word: a non-empty run of lower-case ASCII letters. */
  predicate IsWord(w: string)
  {
    |w| > 0 && forall i :: 0 <= i < |w| ==> 'a' <= w[i] <= 'z'
  }

  /** Every part is a word. */
  predicate AllWords(ws: seq<string>)
  {
    forall i :: 0 <= i < |ws| ==> IsWord(ws[i])
  }

  lemma AllWordsAppend(xs: seq<string>, ys: seq<string>)
    requires AllWords(xs) && AllWords(ys)
    ensures AllWords(xs + ys)
  {
    assert forall i :: |xs| <= i < |xs + ys| ==> (xs + ys)[i] == ys[i - |xs|];
  }

  lemma AllWordsCons(w: string, ys: seq<string>)
    requires IsWord(w) && AllWords(ys)
    ensures AllWords([w] + ys)
  {
    assert forall i :: 1 <= i < |ys| + 1 ==> ([w] + ys)[i] == ys[i - 1];
  }

  /** Splitting words joined with single spaces gives the words back. */
  lemma FieldsOfWords(ws: seq<string>)
    requires |ws| >= 1 && AllWords(ws)
    ensures Fields(Join(ws, ' '), ' ') == ws
  {
    forall i | 0 <= i < |ws|
      ensures ' ' !in ws[i]
    {
      WordHasNoSpace(ws[i]);
    }
    FieldsOfJoin(ws, ' ');
  }

  /** A word holds no space. */
  lemma WordHasNoSpace(w: string)
    requires IsWord(w)
    ensures ' ' !in w
  {
  }

  /** Non-empty, no space at either end, and never two spaces in a row. */
  predicate SingleSpaced(s: string)
  {
    && |s| > 0 && s[0] != ' ' && s[|s| - 1] != ' '
    && forall i :: 0 <= i < |s| - 1 && s[i] == ' ' ==> s[i + 1] != ' '
  }

  /** A word, one space, then a single-spaced text ending in a letter: single-spaced again. */
  lemma ConsWordSingleSpaced(w: string, t: string)
    requires IsWord(w) && SingleSpaced(t) && LetterEnds(t)
    ensures SingleSpaced(w + [' '] + t) && LetterEnds(w + [' '] + t)
  {
    var s := w + [' '] + t;
    assert forall i :: 0 <= i < |w| ==> s[i] == w[i];
    forall i | |w| <= i < |s| - 1 && s[i] == ' '
      ensures s[i + 1] != ' '
    {
      if i == |w| {
        assert s[i + 1] == t[0];
      } else {
        assert s[i] == t[i - |w| - 1];
        assert s[i + 1] == t[i + 1 - |w| - 1];
      }
    }
  }

  /** Trim leaves alone a string that starts and ends with a visible character. */
  lemma TrimKeeps(s: string)
    requires |s| > 0 && s[0] > ' ' && s[|s| - 1] > ' '
    ensures Trim(s) == s
  {
    assert TrimStart(s) == s;
  }

  /** A word alone is single-spaced. */
  lemma WordSingleSpaced(w: string)
    requires IsWord(w)
    ensures SingleSpaced(w) && LetterEnds(w)
  {
  }

  /** Starts and ends with a lower-case letter. */
  predicate LetterEnds(s: string)
  {
    |s| > 0 && 'a' <= s[0] <= 'z' && 'a' <= s[|s| - 1] <= 'z'
  }

  /** Words joined with single spaces are single-spaced, start and end with a letter, and survive trim. */
  lemma {:induction false} JoinWordsSingleSpaced(ws: seq<string>)
    requires |ws| >= 1
    requires AllWords(ws)
    ensures SingleSpaced(Join(ws, ' ')) && LetterEnds(Join(ws, ' '))
    ensures Trim(Join(ws, ' ')) == Join(ws, ' ')
  {
    var s := Join(ws, ' ');
    if |ws| == 1 {
      assert s == ws[0];
      WordSingleSpaced(ws[0]);
    } else {
      var t := Join(ws[1..], ' ');
      assert s == ws[0] + [' '] + t;
      assert AllWords(ws[1..]) by {
        assert forall i :: 0 <= i < |ws| - 1 ==> ws[1..][i] == ws[i + 1];
      }
      JoinWordsSingleSpaced(ws[1..]);
      ConsWordSingleSpaced(ws[0], t);
    }
    TrimKeeps(s);
  }
}
