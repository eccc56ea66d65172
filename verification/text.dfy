/** Character-level text handling shared by the parser and the serialiser:
    splitting at a separator character, joining with one, the line
    iterator of the input reader, and unsigned decimal numerals. */
module Text {

  /** Splits `s` at every occurrence of `sep`, keeping empty pieces, the way
      splitting a string at a single character pattern does: two adjacent
      separators yield an empty piece and the empty string yields one empty
      piece. */
  function Split(s: string, sep: char): (pieces: seq<string>)
    ensures |pieces| >= 1
  {
    if |s| == 0 then [""]
    else
      var rest := Split(s[1..], sep);
      if s[0] == sep then [""] + rest
      else [[s[0]] + rest[0]] + rest[1..]
  }

  /** Concatenates `pieces`, putting one `sep` between neighbours and none at the end. */
  function Join(pieces: seq<string>, sep: char): string
  {
    if |pieces| == 0 then ""
    else if |pieces| == 1 then pieces[0]
    else pieces[0] + [sep] + Join(pieces[1..], sep)
  }

  /** No piece of a split contains the separator. */
  lemma {:induction false} SplitPiecesAvoidSeparator(s: string, sep: char)
    ensures forall k :: 0 <= k < |Split(s, sep)| ==> sep !in Split(s, sep)[k]
  {
    if |s| > 0 {
      SplitPiecesAvoidSeparator(s[1..], sep);
    }
  }

  /** A string free of the separator splits into itself alone. */
  lemma {:induction false} SplitWithoutSeparator(s: string, sep: char)
    requires sep !in s
    ensures Split(s, sep) == [s]
  {
    if |s| > 0 {
      assert sep !in s[1..];
      SplitWithoutSeparator(s[1..], sep);
      assert [s[0]] + s[1..] == s;
    }
  }

  /** Splitting peels off a separator-free head at its first separator. */
  lemma {:induction false} SplitAtFirstSeparator(a: string, b: string, sep: char)
    requires sep !in a
    ensures Split(a + [sep] + b, sep) == [a] + Split(b, sep)
  {
    if |a| == 0 {
      assert a + [sep] + b == [sep] + b;
      assert ([sep] + b)[1..] == b;
    } else {
      var s := a + [sep] + b;
      assert s[0] == a[0];
      assert s[1..] == a[1..] + [sep] + b;
      assert sep !in a[1..];
      SplitAtFirstSeparator(a[1..], b, sep);
      assert [a[0]] + a[1..] == a;
    }
  }

  /** Joining then splitting gives back the pieces, provided there is at
      least one piece and none contains the separator. */
  lemma {:induction false} SplitJoin(pieces: seq<string>, sep: char)
    requires |pieces| >= 1
    requires forall k :: 0 <= k < |pieces| ==> sep !in pieces[k]
    ensures Split(Join(pieces, sep), sep) == pieces
  {
    if |pieces| == 1 {
      SplitWithoutSeparator(pieces[0], sep);
    } else {
      SplitJoin(pieces[1..], sep);
      SplitAtFirstSeparator(pieces[0], Join(pieces[1..], sep), sep);
      assert [pieces[0]] + pieces[1..] == pieces;
    }
  }

  /** Splitting then joining gives back the string. */
  lemma {:induction false} JoinSplit(s: string, sep: char)
    ensures Join(Split(s, sep), sep) == s
  {
    if |s| > 0 {
      var rest := Split(s[1..], sep);
      JoinSplit(s[1..], sep);
      assert [s[0]] + s[1..] == s;
      if s[0] == sep {
        JoinCons("", rest, sep);
      } else {
        JoinExtendHead(s[0], rest, sep);
      }
    }
  }

  /** Joining a non-empty list after a new first piece puts one separator
      between them. */
  lemma JoinCons(first: string, rest: seq<string>, sep: char)
    requires |rest| >= 1
    ensures Join([first] + rest, sep) == first + [sep] + Join(rest, sep)
  {
    assert ([first] + rest)[1..] == rest;
  }

  /** Prefixing the first piece with a character prefixes the join with it. */
  lemma JoinExtendHead(c: char, pieces: seq<string>, sep: char)
    requires |pieces| >= 1
    ensures Join([[c] + pieces[0]] + pieces[1..], sep) == [c] + Join(pieces, sep)
  {
    if |pieces| > 1 {
      JoinCons([c] + pieces[0], pieces[1..], sep);
      assert ([c] + pieces[0]) + [sep] + Join(pieces[1..], sep)
          == [c] + (pieces[0] + [sep] + Join(pieces[1..], sep));
    }
  }

  /** Removes one trailing carriage return, if there is one. */
  function StripCarriageReturn(line: string): (r: string)
    ensures r == line || (|line| >= 1 && line[|line| - 1] == '\r' && r == line[..|line| - 1])
  {
    if |line| > 0 && line[|line| - 1] == '\r' then line[..|line| - 1] else line
  }

  /** The lines of a text: pieces ended by a line feed lose the line feed and
      one carriage return before it; a final piece with no line feed after
      it is kept as it is, and dropped when it is empty, so that the empty
      text has no lines and a trailing line feed does not add an empty line. */
  function Lines(text: string): (lines: seq<string>)
  {
    if |text| == 0 then [] else LinesOfPieces(Split(text, '\n'))
  }

  /** The lines made from the pieces between line feeds: every piece but the
      last was ended by a line feed and loses a carriage return before it;
      the last piece is kept as it is unless it is empty. */
  function LinesOfPieces(pieces: seq<string>): seq<string>
    requires |pieces| >= 1
  {
    var ended := StripEach(pieces[..|pieces| - 1]);
    if pieces[|pieces| - 1] == "" then ended else ended + [pieces[|pieces| - 1]]
  }

  /** The pieces that a line feed ended, each with its carriage return removed. */
  function StripEach(pieces: seq<string>): (lines: seq<string>)
    ensures |lines| == |pieces|
    ensures forall k :: 0 <= k < |pieces| ==> lines[k] == StripCarriageReturn(pieces[k])
    ensures forall k :: 0 <= k < |pieces| ==> lines[k] <= pieces[k]
  {
    seq(|pieces|, k requires 0 <= k < |pieces| => StripCarriageReturn(pieces[k]))
  }

  /** No line holds a line feed. */
  lemma LinesAvoidLineFeed(text: string)
    ensures forall k :: 0 <= k < |Lines(text)| ==> '\n' !in Lines(text)[k]
  {
    SplitPiecesAvoidSeparator(text, '\n');
  }

  /** For a text without carriage returns, the lines rejoined with line
      feeds give back the text, except for one line feed at the very end. */
  lemma LinesRejoin(text: string)
    requires '\r' !in text
    ensures Join(Lines(text), '\n') == text
         || (|text| >= 1 && text[|text| - 1] == '\n' && Join(Lines(text), '\n') == text[..|text| - 1])
  {
    if |text| > 0 {
      var pieces := Split(text, '\n');
      JoinSplit(text, '\n');
      LinesAreSplitPieces(text);
      if pieces[|pieces| - 1] == "" && |pieces| >= 2 {
        EndsWithSeparator(pieces, '\n');
        assert Lines(text) == pieces[..|pieces| - 1];
        assert text[..|text| - 1] == Join(Lines(text), '\n');
      } else {
        assert Lines(text) == pieces;
      }
    }
  }

  /** Without carriage returns, the lines of a non-empty text are the pieces
      of its split at line feeds, less an empty last piece. */
  lemma LinesAreSplitPieces(text: string)
    requires '\r' !in text && |text| > 0
    ensures var pieces := Split(text, '\n');
            Lines(text) == if pieces[|pieces| - 1] == "" then pieces[..|pieces| - 1] else pieces
  {
    var pieces := Split(text, '\n');
    forall k | 0 <= k < |pieces| - 1
      ensures StripCarriageReturn(pieces[k]) == pieces[k]
    {
      CarriageReturnsSurviveSplit(text, '\n', k);
    }
    CleanPieces(pieces);
  }

  /** Pieces that carry no carriage return to strip become lines unchanged,
      less an empty last piece. */
  lemma CleanPieces(pieces: seq<string>)
    requires |pieces| >= 1
    requires forall k :: 0 <= k < |pieces| - 1 ==> StripCarriageReturn(pieces[k]) == pieces[k]
    ensures LinesOfPieces(pieces) == if pieces[|pieces| - 1] == "" then pieces[..|pieces| - 1] else pieces
  {
    var init, last := pieces[..|pieces| - 1], pieces[|pieces| - 1];
    assert StripEach(init) == init;
    assert init + [last] == pieces;
  }

  /** A character other than the separator that occurs in no position of the
      text occurs in no piece of its split. */
  lemma {:induction false} CarriageReturnsSurviveSplit(s: string, sep: char, k: nat)
    requires '\r' !in s && sep != '\r'
    requires k < |Split(s, sep)|
    ensures '\r' !in Split(s, sep)[k]
  {
    if |s| > 0 {
      assert '\r' !in s[1..];
      var rest := Split(s[1..], sep);
      if s[0] == sep {
        if k > 0 {
          CarriageReturnsSurviveSplit(s[1..], sep, k - 1);
        }
      } else if k == 0 {
        CarriageReturnsSurviveSplit(s[1..], sep, 0);
      } else {
        CarriageReturnsSurviveSplit(s[1..], sep, k);
      }
    }
  }

  /** Joining pieces whose last one is empty is joining the others and then a separator. */
  lemma {:induction false} JoinDropsEmptyLast(pieces: seq<string>, sep: char)
    requires |pieces| >= 2 && pieces[|pieces| - 1] == ""
    ensures Join(pieces, sep) == Join(pieces[..|pieces| - 1], sep) + [sep]
  {
    if |pieces| == 2 {
      assert pieces[..1] == [pieces[0]];
    } else {
      JoinDropsEmptyLast(pieces[1..], sep);
      assert pieces[1..][..|pieces| - 2] == pieces[..|pieces| - 1][1..];
    }
  }

  /** When the last of at least two pieces is empty, their join ends with the separator. */
  lemma EndsWithSeparator(pieces: seq<string>, sep: char)
    requires |pieces| >= 2 && pieces[|pieces| - 1] == ""
    ensures var j := Join(pieces, sep); |j| >= 1 && j[|j| - 1] == sep && j[..|j| - 1] == Join(pieces[..|pieces| - 1], sep)
  {
    JoinDropsEmptyLast(pieces, sep);
  }

  predicate IsDigit(c: char) { '0' <= c <= '9' }

  function DigitValue(c: char): (d: nat)
    requires IsDigit(c)
    ensures d < 10
  {
    (c - '0') as nat
  }

  function DigitChar(d: nat): (c: char)
    requires d < 10
    ensures IsDigit(c) && DigitValue(c) == d
  {
    ('0' as int + d) as char
  }

  /** An unsigned decimal numeral: one or more ASCII digits and nothing else. */
  predicate IsNumeral(s: string)
  {
    |s| >= 1 && forall k :: 0 <= k < |s| ==> IsDigit(s[k])
  }

  /** The value of a decimal numeral, most significant digit first. */
  function NumeralValue(s: string): nat
    requires IsNumeral(s)
  {
    if |s| == 1 then DigitValue(s[0])
    else 10 * NumeralValue(s[..|s| - 1]) + DigitValue(s[|s| - 1])
  }

  /** The shortest decimal numeral of `n` (no leading zeros). */
  function NatToString(n: nat): (s: string)
    ensures IsNumeral(s)
    ensures |s| >= 2 ==> s[0] != '0'
  {
    if n < 10 then [DigitChar(n)]
    else NatToString(n / 10) + [DigitChar(n % 10)]
  }

  /** The decimal text of a number holds nothing but digits. */
  lemma DigitsAvoid(n: nat, c: char)
    requires !IsDigit(c)
    ensures c !in NatToString(n)
  {
  }

  /** Writing a number in decimal and reading it back gives the number. */
  lemma {:induction false} NumeralRoundTrip(n: nat)
    ensures NumeralValue(NatToString(n)) == n
  {
    if n >= 10 {
      NumeralRoundTrip(n / 10);
      var s := NatToString(n);
      assert s[..|s| - 1] == NatToString(n / 10);
    }
  }

  /** A numeral without a leading zero is exactly the decimal text of its value. */
  lemma {:induction false} CanonicalNumeral(s: string)
    requires IsNumeral(s)
    requires |s| >= 2 ==> s[0] != '0'
    ensures NatToString(NumeralValue(s)) == s
  {
    var last := s[|s| - 1];
    DigitRoundTrip(last);
    if |s| == 1 {
      assert s == [last];
    } else {
      var init := s[..|s| - 1];
      assert IsNumeral(init);
      CanonicalNumeral(init);
      NumeralPositive(init);
      var a, d := NumeralValue(init), DigitValue(last);
      assert NumeralValue(s) == 10 * a + d;
      DivModTen(a, d);
      assert init + [last] == s;
    }
  }

  /** Reading a digit and writing its value gives the digit back. */
  lemma DigitRoundTrip(c: char)
    requires IsDigit(c)
    ensures DigitChar(DigitValue(c)) == c
  {
  }

  /** A numeral of two or more digits that does not start with zero is at least 10. */
  lemma {:induction false} NumeralPositive(s: string)
    requires IsNumeral(s) && s[0] != '0'
    ensures NumeralValue(s) >= 1
  {
    if |s| > 1 {
      assert s[..|s| - 1][0] == s[0];
      NumeralPositive(s[..|s| - 1]);
    }
  }

  /** Splitting a number ending in digit `d` at its last digit. */
  lemma DivModTen(a: nat, d: nat)
    requires a >= 1 && d < 10
    ensures NatToString(10 * a + d) == NatToString(a) + [DigitChar(d)]
  {
    assert (10 * a + d) / 10 == a && (10 * a + d) % 10 == d;
  }
}
