// Descriptions as other programs may lay them out: any line ends, and any white space between words.
module SdpForeign {
  import opened Prelude
  import opened Text
  import opened Sdp

  /** Tab, line feed, vertical tab, form feed, carriage return, the four separators of ASCII, blank. */
  ghost predicate Spaces(s: string) {
    forall i :: 0 <= i < |s| ==>
      s[i] in {'\t', '\n', '\U{0b}', '\U{0c}', '\r', '\U{1c}', '\U{1d}', '\U{1e}', '\U{1f}', ' '}
  }

  lemma SpaceIsSpace(c: char)
    ensures Spaces([c]) <==> IsSpace(c)
  {
    assert [c][0] == c;
    assert '\t' as int == 9 && '\n' as int == 10 && '\r' as int == 13 && ' ' as int == 32;
  }

  // ----- words -----

  lemma {:induction false} SpacesAreSkipped(gap: string, rest: string)
    requires Spaces(gap)
    ensures Words(gap + rest) == Words(rest)
  {
    if gap == "" {
      assert gap + rest == rest;
    } else {
      SpaceIsSpace(gap[0]);
      assert (gap + rest)[1..] == gap[1..] + rest;
      SpacesAreSkipped(gap[1..], rest);
    }
  }

  lemma WordThenSpace(w: string, gap: string, rest: string)
    requires Word(w) && Spaces(gap) && gap != ""
    ensures Words(w + gap + rest) == [w] + Words(rest)
  {
    var s := w + gap + rest;
    SpaceIsSpace(gap[0]);
    assert s[|w|] == gap[0] && s[..|w|] == w && s[0] == w[0];
    WordLengthIs(s, |w|);
    assert s[|w|..] == gap + rest;
    SpacesAreSkipped(gap, rest);
  }

  /** Each word with the white space behind it. */
  function Spaced(words: seq<string>, gaps: seq<string>): string
    requires |gaps| == |words|
  {
    if words == [] then "" else words[0] + gaps[0] + Spaced(words[1..], gaps[1..])
  }

  /** Words are split at white space of any kind and length, in front and behind too. */
  lemma {:induction false} WordsAreSplit(front: string, words: seq<string>, gaps: seq<string>)
    requires |gaps| == |words| && Spaces(front) && forall i :: 0 <= i < |words| ==> Word(words[i]) && Spaces(gaps[i])
    requires forall i :: 0 <= i < |words| - 1 ==> gaps[i] != ""
    ensures Words(front + Spaced(words, gaps)) == words
    decreases |words|
  {
    SpacesAreSkipped(front, Spaced(words, gaps));
    if words != [] {
      WordsAreSplit("", words[1..], gaps[1..]);
      assert "" + Spaced(words[1..], gaps[1..]) == Spaced(words[1..], gaps[1..]);
      if gaps[0] != "" {
        WordThenSpace(words[0], gaps[0], Spaced(words[1..], gaps[1..]));
      } else {
        assert words[1..] == [];
        assert Spaced(words, gaps) == words[0];
        WordsOfWord(words[0]);
      }
    }
  }

  // ----- numbers -----

  lemma PlainNumber(s: string)
    requires s != "" && IsDigit(s[0]) && IsDigit(s[|s| - 1]) && DigitsValue(s).Some?
    ensures var v: int := DigitsValue(s).value; Int(s) == Some(v)
  {
    StripIsTrimmed(s);
    hide Strip, DigitsValue;
  }

  lemma SignedParts(sign: char, digits: string)
    requires (sign == '-' || sign == '+') && digits != "" && IsDigit(digits[|digits| - 1])
    ensures var s := [sign] + digits; Trimmed(s) && s != "" && s[0] == sign && s[1..] == digits
  {
  }

  lemma IntOfParts(s: string, digits: string, v: nat)
    requires Strip(s) == s && s != "" && s[1..] == digits && (s[0] == '-' || s[0] == '+')
    requires DigitsValue(digits) == Some(v)
    ensures var m: int := v; Int(s) == Some(if s[0] == '-' then 0 - m else m)
  {
    hide Strip, DigitsValue;
  }

  lemma SignedNumber(sign: char, digits: string, v: nat)
    requires (sign == '-' || sign == '+') && digits != "" && IsDigit(digits[|digits| - 1])
    requires DigitsValue(digits) == Some(v)
    ensures var m: int := v; Int([sign] + digits) == Some(if sign == '-' then 0 - m else m)
  {
    hide *;
    SignedParts(sign, digits);
    StripIsTrimmed([sign] + digits);
    IntOfParts([sign] + digits, digits, v);
  }

  lemma UnderscoreIsSkipped(digits: string, last: char)
    requires digits != "" && IsDigit(last) && DigitsValue(digits).Some?
    ensures DigitsValue(digits + "_" + [last]) == Some(10 * DigitsValue(digits).value + (last - '0') as int)
  {
    var s := digits + "_" + [last];
    assert s[|s| - 1] == last && s[|s| - 2] == '_' && s[..|s| - 2] == digits;
  }

  lemma UnderscoredEnds(digits: string, last: char)
    requires digits != "" && IsDigit(digits[0]) && IsDigit(last)
    ensures var s := digits + "_" + [last]; s != "" && IsDigit(s[0]) && IsDigit(s[|s| - 1])
  {
  }

  lemma StrEnds(n: nat)
    ensures Str(n) != "" && IsDigit(Str(n)[0]) && IsDigit(Str(n)[|Str(n)| - 1])
  {
  }

  /** A number is read with a sign, and with an underscore in front of its last digit. */
  lemma SignsAndUnderscores(n: nat, last: char)
    requires IsDigit(last)
    ensures var m: int := n; Int(['-'] + Str(n)) == Some(0 - m) && Int(['+'] + Str(n)) == Some(m)
    ensures Int(Str(n) + "_" + [last]) == Some(10 * n + (last - '0') as int)
  {
    hide *;
    DigitsOfStr(n);
    StrEnds(n);
    SignedNumber('-', Str(n), n);
    SignedNumber('+', Str(n), n);
    UnderscoreIsSkipped(Str(n), last);
    UnderscoredEnds(Str(n), last);
    PlainNumber(Str(n) + "_" + [last]);
  }

  // ----- lines -----

  /** What may end a line. */
  const LINE_ENDS: set<string> := {"\r\n", "\n", "\r", "\U{0b}", "\U{0c}", "\U{1c}", "\U{1d}", "\U{1e}"}

  function Ended(lines: seq<string>, ends: seq<string>): string
    requires |ends| == |lines|
  {
    if lines == [] then "" else lines[0] + ends[0] + Ended(lines[1..], ends[1..])
  }

  lemma EndsAreBreaks(end: string)
    requires end in LINE_ENDS
    ensures end != "" && LineBreak(end[0]) && (end[0] == '\r' && end != "\r" ==> end == "\r\n")
    ensures end != "\r\n" ==> |end| == 1
  {
    assert '\n' as int == 10 && '\r' as int == 13;
  }

  lemma FirstEnd(line: string, end: string, rest: string)
    requires OneLine(line) && end in LINE_ENDS && (end == "\r" ==> rest == "" || rest[0] != '\n')
    ensures SplitLines(line + end + rest) == [line] + SplitLines(rest)
  {
    var s := line + end + rest;
    EndsAreBreaks(end);
    assert s[|line|] == end[0] && s[..|line|] == line;
    LineLengthIs(s, |line|);
    if end == "\r\n" {
      assert s[|line| + 1] == '\n' && s[|line| + 2..] == rest;
    } else {
      assert s[|line| + 1..] == rest;
      assert end == "\r" && rest != "" ==> s[|line| + 1] == rest[0];
    }
    hide LineBreak, OneLine, LineLength;
  }

  /** No carriage return stands directly in front of a line feed that is to be an end of its own. */
  ghost predicate Unambiguous(lines: seq<string>, ends: seq<string>)
    requires |ends| == |lines|
  {
    forall i :: 0 <= i < |lines| - 1 && ends[i] == "\r" ==> lines[i + 1] != "" || ends[i + 1] != "\n"
  }

  /** Lines are split at ends of any kind, mixed or not. */
  lemma {:induction false} LinesAreSplit(lines: seq<string>, ends: seq<string>)
    requires |ends| == |lines| && Unambiguous(lines, ends)
    requires forall i :: 0 <= i < |lines| ==> OneLine(lines[i]) && ends[i] in LINE_ENDS
    ensures SplitLines(Ended(lines, ends)) == lines
  {
    if lines != [] {
      var rest := Ended(lines[1..], ends[1..]);
      LinesAreSplit(lines[1..], ends[1..]);
      if |lines| > 1 {
        EndsAreBreaks(ends[1]);
        assert lines[1] == lines[1..][0] && ends[1] == ends[1..][0];
        assert rest[0] == if lines[1] != "" then lines[1][0] else ends[1][0];
        assert lines[1] != "" ==> !LineBreak(lines[1][0]);
      }
      hide SplitLines;
      FirstEnd(lines[0], ends[0], rest);
    }
  }

  /** So a description means the same whatever its line ends are. */
  lemma LineEndsDoNotMatter(lines: seq<string>, ends: seq<string>)
    requires |ends| == |lines| && Unambiguous(lines, ends)
    requires forall i :: 0 <= i < |lines| ==> OneLine(lines[i]) && ends[i] in LINE_ENDS
    ensures Parse(Ended(lines, ends)) == Parse(Terminated(lines)) == ApplyLines(Blankest, lines)
  {
    LinesAreSplit(lines, ends);
    SplitTerminated(lines);
    hide SplitLines, OneLine;
  }
}
