// String helpers with Python's meaning, on ASCII white space.
module Text {
  import opened Prelude

  /** What str.isspace() says of ASCII characters. */
  predicate IsSpace(c: char) {
    c == ' ' || '\t' <= c <= '\r' || '\U{1c}' <= c <= '\U{1f}'
  }

  function TrimLeft(s: string): (t: string)
    ensures t != "" ==> !IsSpace(t[0])
    ensures |t| <= |s| && t == s[|s| - |t|..]
  {
    if s == "" then "" else if IsSpace(s[0]) then TrimLeft(s[1..]) else s
  }

  function TrimRight(s: string): (t: string)
    ensures t != "" ==> !IsSpace(t[|t| - 1])
    ensures |t| <= |s| && t == s[..|t|]
  {
    if s == "" then "" else if IsSpace(s[|s| - 1]) then TrimRight(s[..|s| - 1]) else s
  }

  /** str.strip() */
  function Strip(s: string): string {
    TrimRight(TrimLeft(s))
  }

  /** No white space at either end. */
  predicate Trimmed(s: string) {
    s == "" || (!IsSpace(s[0]) && !IsSpace(s[|s| - 1]))
  }

  lemma StripIsTrimmed(s: string)
    ensures Trimmed(Strip(s))
    ensures Trimmed(s) ==> Strip(s) == s
  {
    var left := TrimLeft(s);
    if Strip(s) != "" {
      assert Strip(s)[0] == left[0];
    }
  }

  lemma TrimLeftTrims(s: string)
    requires Trimmed(s)
    ensures TrimLeft(" " + s) == s
  {
    assert (" " + s)[1..] == s;
  }

  lemma StripAfterSpace(s: string)
    requires Trimmed(s)
    ensures Strip(" " + s) == s
  {
    TrimLeftTrims(s);
  }

  lemma {:induction false} TrimLeftKeeps(s: string)
    ensures forall i :: 0 <= i < |TrimLeft(s)| ==> TrimLeft(s)[i] in s
  {
  }

  lemma StripKeeps(s: string)
    ensures forall i :: 0 <= i < |Strip(s)| ==> Strip(s)[i] in s
  {
    TrimLeftKeeps(s);
  }

  // ----- str.splitlines() -----

  predicate LineBreak(c: char) {
    '\n' <= c <= '\r' || '\U{1c}' <= c <= '\U{1e}'
  }

  predicate OneLine(s: string) {
    forall i :: 0 <= i < |s| ==> !LineBreak(s[i])
  }

  function LineLength(s: string): (n: nat)
    ensures n <= |s| && OneLine(s[..n]) && (n < |s| ==> LineBreak(s[n]))
  {
    if s == "" || LineBreak(s[0]) then 0 else 1 + LineLength(s[1..])
  }

  function SplitLines(s: string): seq<string>
    decreases |s|
  {
    if s == "" then []
    else
      var n := LineLength(s);
      if n == |s| then [s]
      else if s[n] == '\r' && n + 1 < |s| && s[n + 1] == '\n' then [s[..n]] + SplitLines(s[n + 2..])
      else [s[..n]] + SplitLines(s[n + 1..])
  }

  const LINE_END := "\r\n"

  /** Each line followed by CR LF. */
  function Terminated(lines: seq<string>): string {
    if lines == [] then "" else lines[0] + LINE_END + Terminated(lines[1..])
  }

  lemma {:induction false} LineLengthIs(s: string, n: nat)
    requires n <= |s| && OneLine(s[..n]) && (n < |s| ==> LineBreak(s[n]))
    ensures LineLength(s) == n
  {
    if n > 0 {
      assert !LineBreak(s[..n][0]);
      assert s[1..][..n - 1] == s[..n][1..];
      LineLengthIs(s[1..], n - 1);
    }
  }

  lemma SplitFirstLine(line: string, rest: string)
    requires OneLine(line)
    ensures SplitLines(line + LINE_END + rest) == [line] + SplitLines(rest)
  {
    var s := line + LINE_END + rest;
    assert s[|line|] == '\r' && s[|line| + 1] == '\n' && s[..|line|] == line;
    LineLengthIs(s, |line|);
    assert s[|line| + 2..] == rest;
  }

  lemma {:induction false} SplitTerminated(lines: seq<string>)
    requires forall i :: 0 <= i < |lines| ==> OneLine(lines[i])
    ensures SplitLines(Terminated(lines)) == lines
  {
    if lines == [] {
    } else {
      SplitFirstLine(lines[0], Terminated(lines[1..]));
      SplitTerminated(lines[1..]);
    }
  }

  lemma {:induction false} SplitGivesLines(s: string)
    ensures forall i :: 0 <= i < |SplitLines(s)| ==> OneLine(SplitLines(s)[i])
    decreases |s|
  {
    if s == "" {
    } else {
      var n := LineLength(s);
      assert OneLine(s[..n]);
      if n == |s| {
        assert s[..n] == s;
      } else if s[n] == '\r' && n + 1 < |s| && s[n + 1] == '\n' {
        SplitGivesLines(s[n + 2..]);
      } else {
        SplitGivesLines(s[n + 1..]);
      }
    }
  }

  // ----- str.split() and str.split(" ", 1) -----

  /** Not empty, without white space. */
  predicate Word(s: string) {
    s != "" && forall i :: 0 <= i < |s| ==> !IsSpace(s[i])
  }

  function WordLength(s: string): (n: nat)
    ensures n <= |s| && (n < |s| ==> IsSpace(s[n]))
    ensures forall i :: 0 <= i < n ==> !IsSpace(s[i])
  {
    if s == "" || IsSpace(s[0]) then 0 else 1 + WordLength(s[1..])
  }

  function Words(s: string): (words: seq<string>)
    ensures forall i :: 0 <= i < |words| ==> Word(words[i])
    decreases |s|
  {
    if s == "" then []
    else if IsSpace(s[0]) then Words(s[1..])
    else
      var n := WordLength(s);
      [s[..n]] + Words(s[n..])
  }

  lemma WordsOfWord(w: string)
    requires Word(w)
    ensures Words(w) == [w]
  {
    assert WordLength(w) == |w|;
    assert w[..|w|] == w && w[|w|..] == "";
  }

  lemma {:induction false} WordLengthIs(s: string, n: nat)
    requires n <= |s| && (n < |s| ==> IsSpace(s[n])) && forall i :: 0 <= i < n ==> !IsSpace(s[i])
    ensures WordLength(s) == n
  {
    if n > 0 {
      assert !IsSpace(s[0]);
      WordLengthIs(s[1..], n - 1);
    }
  }

  lemma FirstWord(w: string, rest: string)
    requires Word(w)
    ensures Words(w + " " + rest) == [w] + Words(rest)
  {
    var s := w + " " + rest;
    assert s[|w|] == ' ' && s[..|w|] == w;
    WordLengthIs(s, |w|);
    assert s[0] == w[0];
    assert s[|w|..] == " " + rest && (" " + rest)[1..] == rest;
  }

  lemma WordIsTrimmed(w: string)
    requires Word(w)
    ensures Trimmed(w)
  {
  }

  /** Where the first blank is. */
  function Blank(s: string): (i: Option<nat>)
    ensures i.Some? ==> i.value < |s|
  {
    if s == "" then None
    else if s[0] == ' ' then Some(0)
    else if Blank(s[1..]).Some? then Some(Blank(s[1..]).value + 1) else None
  }

  /** In particular, the blank after a word is the first one. */
  lemma {:induction false} BlankIsFirst(s: string, n: nat)
    requires n < |s| && s[n] == ' ' && forall j :: 0 <= j < n ==> s[j] != ' '
    ensures Blank(s) == Some(n)
  {
    if n > 0 {
      assert s[0] != ' ';
      BlankIsFirst(s[1..], n - 1);
    }
  }

  lemma BlankAfterWord(w: string, rest: string)
    requires Word(w)
    ensures Blank(w + " " + rest) == Some(|w|)
  {
    var s := w + " " + rest;
    assert s[|w|] == ' ';
    assert forall j :: 0 <= j < |w| ==> s[j] == w[j];
    BlankIsFirst(s, |w|);
  }

  // ----- substrings -----

  predicate StartsWith(s: string, prefix: string) {
    |prefix| <= |s| && s[..|prefix|] == prefix
  }

  function Find(s: string, part: string): (i: Option<nat>)
    ensures i.Some? ==> i.value + |part| <= |s|
  {
    if StartsWith(s, part) then Some(0)
    else if s == "" then None
    else if Find(s[1..], part).Some? then Some(Find(s[1..], part).value + 1)
    else None
  }

  function Lower(s: string): (t: string)
    ensures |t| == |s|
  {
    if s == "" then "" else [if 'A' <= s[0] <= 'Z' then s[0] + 32 as char else s[0]] + Lower(s[1..])
  }

  // ----- str(n) and int(s) -----

  function Digit(d: nat): char
    requires d < 10
  {
    "0123456789"[d]
  }

  predicate IsDigit(c: char) {
    '0' <= c <= '9'
  }

  function Str(n: nat): (s: string)
    ensures s != "" && forall i :: 0 <= i < |s| ==> IsDigit(s[i])
  {
    if n < 10 then [Digit(n)] else Str(n / 10) + [Digit(n % 10)]
  }

  /** Digits, with single underscores between them. */
  function DigitsValue(s: string): Option<nat> {
    if s == "" || !IsDigit(s[|s| - 1]) then None
    else
      var d := (s[|s| - 1] - '0') as int;
      if |s| == 1 then Some(d)
      else
        var front := DigitsValue(if s[|s| - 2] == '_' then s[..|s| - 2] else s[..|s| - 1]);
        if front.Some? then Some(front.value * 10 + d) else None
  }

  /** int(s), None for a ValueError. */
  function Int(s: string): Option<int> {
    var t := Strip(s);
    if t != "" && (t[0] == '-' || t[0] == '+') then
      var v := DigitsValue(t[1..]);
      if v.None? then None
      else
        var n: int := v.value;
        Some(if t[0] == '-' then -n else n)
    else
      var v := DigitsValue(t);
      if v.None? then None else Some(v.value)
  }

  /** p.isdigit() */
  predicate AllDigits(s: string) {
    s != "" && forall i :: 0 <= i < |s| ==> IsDigit(s[i])
  }

  lemma {:induction false} DigitsOfStr(n: nat)
    ensures DigitsValue(Str(n)) == Some(n)
  {
    if n >= 10 {
      DigitsOfStr(n / 10);
      var front := Str(n / 10);
      assert Str(n)[..|front|] == front;
      assert IsDigit(front[|front| - 1]);
    }
  }

  lemma StrIsWord(n: nat)
    ensures Word(Str(n)) && AllDigits(Str(n)) && OneLine(Str(n))
  {
  }

  lemma IntOfStr(n: nat)
    ensures Int(Str(n)) == Some(n)
  {
    StrIsWord(n);
    StripIsTrimmed(Str(n));
    DigitsOfStr(n);
    assert IsDigit(Str(n)[0]);
  }

  lemma {:induction false} DigitsHaveValue(s: string)
    requires AllDigits(s)
    ensures DigitsValue(s).Some?
  {
    if |s| > 1 {
      DigitsHaveValue(s[..|s| - 1]);
    }
  }

  lemma DigitsAreTrimmed(s: string)
    requires AllDigits(s)
    ensures Strip(s) == s && s != "" && IsDigit(s[0]) && DigitsValue(s).Some?
  {
    DigitsHaveValue(s);
    StripIsTrimmed(s);
  }

  lemma IntOfDigits(s: string)
    requires AllDigits(s)
    ensures Int(s).Some? && Int(s).value >= 0
  {
    DigitsAreTrimmed(s);
    hide Strip, DigitsValue, AllDigits;
  }
}
