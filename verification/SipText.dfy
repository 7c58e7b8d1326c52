// Text messages on a byte stream: start line, headers, an optional Content-Length and a body
// (section 7 of RFC 3261), and the parser that finds the next one in a buffer.
module SipText {
  import opened Prelude

  const CR: byte := 13
  const LF: byte := 10
  const CRLF: seq<byte> := [13, 10]
  const BLANK_LINE: seq<byte> := [13, 10, 13, 10]
  // "content-length:"
  const LENGTH_KEY: seq<byte> := [99, 111, 110, 116, 101, 110, 116, 45, 108, 101, 110, 103, 116, 104, 58]
  // "Content-Length"
  const LENGTH_NAME: seq<byte> := [67, 111, 110, 116, 101, 110, 116, 45, 76, 101, 110, 103, 116, 104]

  // ----- searching -----

  predicate BytesStartWith(s: seq<byte>, pattern: seq<byte>) {
    |pattern| <= |s| && s[..|pattern|] == pattern
  }

  /** bytes.find: the first position of `pattern`, or None. */
  function FindBytes(pattern: seq<byte>, s: seq<byte>): (r: Option<nat>)
    ensures r.Some? ==> r.value + |pattern| <= |s| && s[r.value..r.value + |pattern|] == pattern
  {
    if BytesStartWith(s, pattern) then Some(0)
    else if s == [] then None
    else
      match FindBytes(pattern, s[1..])
      case None => None
      case Some(i) => Some(i + 1)
  }

  lemma CannotStart(pattern: seq<byte>, s: seq<byte>)
    requires pattern != [] && s != [] && s[0] != pattern[0]
    ensures !BytesStartWith(s, pattern)
  {
    if |pattern| <= |s| {
      assert s[..|pattern|][0] == s[0];
    }
  }

  /** Bytes that cannot begin the pattern are skipped. */
  lemma {:induction false} FindSkips(pattern: seq<byte>, s: seq<byte>, t: seq<byte>)
    requires pattern != [] && forall i :: 0 <= i < |s| ==> s[i] != pattern[0]
    ensures FindBytes(pattern, s + t) ==
      match FindBytes(pattern, t) { case None => None case Some(i) => Some(|s| + i) }
  {
    hide BytesStartWith;
    if s == [] {
      assert s + t == t;
    } else {
      CannotStart(pattern, s + t);
      assert (s + t)[1..] == s[1..] + t;
      assert forall i :: 0 <= i < |s[1..]| ==> s[1..][i] == s[i + 1];
      FindSkips(pattern, s[1..], t);
    }
  }

  lemma FindHere(pattern: seq<byte>, t: seq<byte>)
    ensures FindBytes(pattern, pattern + t) == Some(0)
  {
    assert (pattern + t)[..|pattern|] == pattern;
  }

  /** More bytes behind it do not move a match. */
  lemma {:induction false} FindIsStable(pattern: seq<byte>, s: seq<byte>, t: seq<byte>)
    requires FindBytes(pattern, s).Some?
    ensures FindBytes(pattern, s + t) == FindBytes(pattern, s)
  {
    if BytesStartWith(s, pattern) {
      assert (s + t)[..|pattern|] == pattern;
    } else {
      var i := FindBytes(pattern, s).value;
      assert |pattern| <= |s| - 1;
      assert (s + t)[..|pattern|] == s[..|pattern|];
      assert (s + t)[1..] == s[1..] + t;
      FindIsStable(pattern, s[1..], t);
    }
  }

  // ----- decimal numbers -----

  predicate DigitByte(b: byte) {
    48 <= b <= 57
  }

  function Dec(n: nat): (d: seq<byte>)
    ensures d != []
  {
    if n < 10 then [48 + n]
    else
      var digit: byte := n % 10;
      Dec(n / 10) + [48 + digit]
  }

  function NatOf(d: seq<byte>): nat
    requires forall i :: 0 <= i < |d| ==> DigitByte(d[i])
  {
    if d == [] then 0
    else
      assert DigitByte(d[|d| - 1]);
      var digit: int := d[|d| - 1];
      10 * NatOf(d[..|d| - 1]) + (digit - 48)
  }

  lemma {:induction false} NatOfDec(n: nat)
    ensures forall i :: 0 <= i < |Dec(n)| ==> DigitByte(Dec(n)[i])
    ensures NatOf(Dec(n)) == n
  {
    if n < 10 {
      assert Dec(n)[..0] == [];
    } else {
      NatOfDec(n / 10);
      assert Dec(n)[..|Dec(n)| - 1] == Dec(n / 10);
    }
  }

  /** The digits count from the most significant one: "407" is four hundred and seven. */
  lemma {:induction false} NatOfDigit(d: seq<byte>, digit: nat)
    requires digit < 10 && forall i :: 0 <= i < |d| ==> DigitByte(d[i])
    ensures NatOf(d + [48 + digit]) == 10 * NatOf(d) + digit
    ensures NatOf([52, 48, 55]) == 407
  {
    assert (d + [48 + digit])[..|d|] == d;
    var s: seq<byte> := [52, 48, 55];
    assert s[..2][..1] == [52] && s[..1][..0] == [];
    assert NatOf(s[..1]) == 4 && NatOf(s[..2]) == 40;
  }

  // ----- the Content-Length search -----

  function LowerByte(b: byte): byte {
    if 65 <= b <= 90 then b + 32 else b
  }

  function LowerBytes(s: seq<byte>): (l: seq<byte>)
    ensures |l| == |s| && forall i :: 0 <= i < |s| ==> l[i] == LowerByte(s[i])
  {
    if s == [] then [] else [LowerByte(s[0])] + LowerBytes(s[1..])
  }

  /** What \s matches in a bytes pattern. */
  predicate SpaceByte(b: byte) {
    b == 32 || 9 <= b <= 13
  }

  function SkipSpace(s: seq<byte>): seq<byte> {
    if s != [] && SpaceByte(s[0]) then SkipSpace(s[1..]) else s
  }

  function DigitPrefix(s: seq<byte>): (d: seq<byte>)
    ensures forall i :: 0 <= i < |d| ==> DigitByte(d[i])
  {
    if s != [] && DigitByte(s[0]) then [s[0]] + DigitPrefix(s[1..]) else []
  }

  lemma {:induction false} DigitPrefixOfDigits(s: seq<byte>)
    requires forall i :: 0 <= i < |s| ==> DigitByte(s[i])
    ensures DigitPrefix(s) == s
  {
    if s == [] {
    } else {
      DigitPrefixOfDigits(s[1..]);
    }
  }

  predicate KeyAt(h: seq<byte>) {
    |h| >= 15 && LowerBytes(h[..15]) == LENGTH_KEY
  }

  /** The number behind a Content-Length key at the start of `h`. */
  function LengthAt(h: seq<byte>): Option<nat> {
    if !KeyAt(h) then None
    else
      var digits := DigitPrefix(SkipSpace(h[15..]));
      if digits == [] then None else Some(NatOf(digits))
  }

  /** re.search: the first position that matches. */
  function SearchLength(h: seq<byte>): Option<nat> {
    if LengthAt(h).Some? then LengthAt(h)
    else if h == [] then None
    else SearchLength(h[1..])
  }

  lemma {:induction false} SearchSkips(s: seq<byte>, t: seq<byte>)
    requires forall i :: 0 <= i < |s| ==> !KeyAt((s + t)[i..])
    ensures SearchLength(s + t) == SearchLength(t)
  {
    if s == [] {
      assert s + t == t;
    } else {
      assert (s + t)[0..] == s + t;
      assert (s + t)[1..] == s[1..] + t;
      forall i | 0 <= i < |s[1..]| ensures !KeyAt((s[1..] + t)[i..]) {
        assert (s[1..] + t)[i..] == (s + t)[i + 1..];
      }
      SearchSkips(s[1..], t);
    }
  }

  // ----- lines -----

  /** str.split("\r\n") */
  function SplitAtCrLf(s: seq<byte>): (lines: seq<seq<byte>>)
    ensures lines != []
    decreases |s|
  {
    match FindBytes(CRLF, s)
    case None => [s]
    case Some(i) => [s[..i]] + SplitAtCrLf(s[i + 2..])
  }

  /** "\r\n".join(lines) */
  function JoinWithCrLf(lines: seq<seq<byte>>): seq<byte> {
    if lines == [] then []
    else if |lines| == 1 then lines[0]
    else lines[0] + CRLF + JoinWithCrLf(lines[1..])
  }

  predicate NoLineEnd(s: seq<byte>) {
    forall i :: 0 <= i < |s| ==> s[i] != CR && s[i] != LF
  }

  predicate NoLineEnds(lines: seq<seq<byte>>) {
    forall i :: 0 <= i < |lines| ==> NoLineEnd(lines[i])
  }

  lemma FindNext(line: seq<byte>, rest: seq<byte>)
    requires NoLineEnd(line)
    ensures FindBytes(CRLF, line + (CRLF + rest)) == Some(|line|)
  {
    hide FindBytes;
    FindSkips(CRLF, line, CRLF + rest);
    FindHere(CRLF, rest);
  }

  lemma FindNone(line: seq<byte>)
    requires NoLineEnd(line)
    ensures FindBytes(CRLF, line).None?
  {
    FindSkips(CRLF, line, []);
    assert line + [] == line;
  }

  lemma {:induction false} SplitOfJoin(lines: seq<seq<byte>>)
    requires lines != [] && NoLineEnds(lines)
    ensures SplitAtCrLf(JoinWithCrLf(lines)) == lines
  {
    var text := JoinWithCrLf(lines);
    if |lines| == 1 {
      FindNone(lines[0]);
    } else {
      var rest := JoinWithCrLf(lines[1..]);
      assert text == lines[0] + (CRLF + rest);
      FindNext(lines[0], rest);
      assert text[..|lines[0]|] == lines[0] && text[|lines[0]| + 2..] == rest;
      assert NoLineEnds(lines[1..]);
      SplitOfJoin(lines[1..]);
    }
  }

  // ----- headers -----

  /** What str.strip() and str.split() take for white space: four separators more than the pattern. */
  predicate BlankByte(b: byte) {
    SpaceByte(b) || 28 <= b <= 31
  }

  function StripLeft(s: seq<byte>): seq<byte> {
    if s != [] && BlankByte(s[0]) then StripLeft(s[1..]) else s
  }

  function StripRight(s: seq<byte>): seq<byte> {
    if s != [] && BlankByte(s[|s| - 1]) then StripRight(s[..|s| - 1]) else s
  }

  function StripBytes(s: seq<byte>): seq<byte> {
    StripRight(StripLeft(s))
  }

  const COLON: seq<byte> := [58]

  /** The trimmed name and value of each line that has a colon; other lines are skipped. */
  function ParseHeaders(lines: seq<seq<byte>>): seq<(seq<byte>, seq<byte>)> {
    if lines == [] then []
    else
      match FindBytes(COLON, lines[0])
      case None => ParseHeaders(lines[1..])
      case Some(i) => [(StripBytes(lines[0][..i]), StripBytes(lines[0][i + 1..]))] + ParseHeaders(lines[1..])
  }

  lemma {:induction false} ParseHeadersAppend(a: seq<seq<byte>>, b: seq<seq<byte>>)
    ensures ParseHeaders(a + b) == ParseHeaders(a) + ParseHeaders(b)
  {
    if a == [] {
      assert a + b == b;
    } else {
      assert (a + b)[0] == a[0] && (a + b)[1..] == a[1..] + b;
      ParseHeadersAppend(a[1..], b);
    }
  }

  predicate Stripped(s: seq<byte>) {
    s == [] || (!BlankByte(s[0]) && !BlankByte(s[|s| - 1]))
  }

  /** A header as its sender writes it: name, colon, blank, value. */
  function HeaderLine(name: seq<byte>, value: seq<byte>): seq<byte> {
    name + (COLON + ([32] + value))
  }

  function HeaderLines(headers: seq<(seq<byte>, seq<byte>)>): seq<seq<byte>> {
    if headers == [] then [] else [HeaderLine(headers[0].0, headers[0].1)] + HeaderLines(headers[1..])
  }

  predicate ValidField(name: seq<byte>, value: seq<byte>) {
    Stripped(name) && Stripped(value) && forall i :: 0 <= i < |name| ==> name[i] != COLON[0]
  }

  lemma TrimAfterBlank(s: seq<byte>)
    requires Stripped(s)
    ensures StripBytes([32] + s) == s && StripBytes(s) == s
  {
    assert ([32] + s)[1..] == s;
    assert StripLeft([32] + s) == StripLeft(s) == s;
  }

  lemma HeaderLineParses(name: seq<byte>, value: seq<byte>)
    requires ValidField(name, value)
    ensures ParseHeaders([HeaderLine(name, value)]) == [(name, value)]
  {
    hide FindBytes, StripBytes;
    var line := HeaderLine(name, value);
    FindSkips(COLON, name, COLON + ([32] + value));
    FindHere(COLON, [32] + value);
    assert line[..|name|] == name && line[|name| + 1..] == [32] + value;
    TrimAfterBlank(name);
    TrimAfterBlank(value);
    assert [line][1..] == [];
  }

  /** Headers written as name, colon, blank, value are read back as those names and values. */
  lemma {:induction false} HeadersReadBack(headers: seq<(seq<byte>, seq<byte>)>)
    requires forall i :: 0 <= i < |headers| ==> ValidField(headers[i].0, headers[i].1)
    ensures ParseHeaders(HeaderLines(headers)) == headers
  {
    if headers == [] {
    } else {
      HeaderLineParses(headers[0].0, headers[0].1);
      HeadersReadBack(headers[1..]);
      ParseHeadersAppend([HeaderLine(headers[0].0, headers[0].1)], HeaderLines(headers[1..]));
    }
  }

  // ----- frames -----

  datatype Frame = Frame(startLine: seq<byte>, headers: seq<(seq<byte>, seq<byte>)>, body: seq<byte>)

  function ContentLength(head: seq<byte>): nat {
    match SearchLength(head)
    case None => 0
    case Some(n) => n
  }

  function FrameFrom(head: seq<byte>, body: seq<byte>): Frame {
    var lines := SplitAtCrLf(head);
    Frame(lines[0], ParseHeaders(lines[1..]), body)
  }

  /** The first frame in a buffer and the number of bytes it takes; None while it is incomplete. */
  function ParseFrame(buf: seq<byte>): (r: Option<(Frame, nat)>)
    ensures r.Some? ==> 4 <= r.value.1 <= |buf|
  {
    match FindBytes(BLANK_LINE, buf)
    case None => None
    case Some(sep) =>
      var length := ContentLength(buf[..sep]);
      if |buf| < sep + 4 + length then None
      else Some((FrameFrom(buf[..sep], buf[sep + 4..sep + 4 + length]), sep + 4 + length))
  }

  // ----- building messages -----

  /** A message as its sender sees it; only bodiless ones may leave out the length. */
  datatype Message = Message(startLine: seq<byte>, headers: seq<seq<byte>>, body: seq<byte>, withLength: bool)

  function LengthLine(n: nat): seq<byte> {
    LENGTH_NAME + [58, 32] + Dec(n)
  }

  function HeadLines(m: Message): (lines: seq<seq<byte>>)
    ensures lines != []
  {
    [m.startLine] + m.headers + (if m.withLength then [LengthLine(|m.body|)] else [])
  }

  /** The lines, an empty line, and the body. */
  function Serialize(m: Message): seq<byte> {
    JoinWithCrLf(HeadLines(m)) + (BLANK_LINE + m.body)
  }

  /** No occurrence of the Content-Length key. */
  predicate NoStrayLength(line: seq<byte>) {
    forall i :: 0 <= i <= |line| ==> !KeyAt(line[i..])
  }

  predicate PlainLine(line: seq<byte>) {
    line != [] && NoLineEnd(line) && NoStrayLength(line)
  }

  predicate ValidMessage(m: Message) {
    && PlainLine(m.startLine)
    && (forall i :: 0 <= i < |m.headers| ==> PlainLine(m.headers[i]))
    && (m.withLength || m.body == [])
  }

  /** What the receiver should see. */
  function FrameOf(m: Message): Frame {
    Frame(m.startLine,
          ParseHeaders(m.headers) + (if m.withLength then [(LENGTH_NAME, Dec(|m.body|))] else []),
          m.body)
  }

  /** _sip_request: the lines, an empty one and the body, joined. */
  function SipRequest(verb: seq<byte>, uri: seq<byte>, headers: seq<seq<byte>>, body: seq<byte>): seq<byte> {
    JoinWithCrLf([RequestLine(verb, uri)] + headers + [LengthLine(|body|), [], body])
  }

  // " SIP/2.0"
  const SIP_VERSION: seq<byte> := [32, 83, 73, 80, 47, 50, 46, 48]

  function RequestLine(verb: seq<byte>, uri: seq<byte>): seq<byte> {
    verb + [32] + uri + SIP_VERSION
  }

  lemma {:induction false} JoinEndsWithBody(lines: seq<seq<byte>>, body: seq<byte>)
    requires lines != []
    ensures JoinWithCrLf(lines + [[], body]) == JoinWithCrLf(lines) + (BLANK_LINE + body)
  {
    var all := lines + [[], body];
    if |lines| == 1 {
      assert all[1..] == [[], body] && all[1..][1..] == [body];
      assert JoinWithCrLf([body]) == body;
      assert JoinWithCrLf([[], body]) == CRLF + body;
      assert JoinWithCrLf(all) == lines[0] + CRLF + (CRLF + body);
    } else {
      assert all[1..] == lines[1..] + [[], body];
      JoinEndsWithBody(lines[1..], body);
    }
  }

  lemma SipRequestIsSerialized(verb: seq<byte>, uri: seq<byte>, headers: seq<seq<byte>>, body: seq<byte>)
    ensures SipRequest(verb, uri, headers, body) ==
            Serialize(Message(RequestLine(verb, uri), headers, body, true))
  {
    var lines := [RequestLine(verb, uri)] + headers + [LengthLine(|body|)];
    assert [RequestLine(verb, uri)] + headers + [LengthLine(|body|), [], body] == lines + [[], body];
    JoinEndsWithBody(lines, body);
  }

  // ----- the parser inverts the serializer -----

  lemma DecHasNoLineEnd(n: nat)
    ensures NoLineEnd(Dec(n))
  {
    NatOfDec(n);
    forall i | 0 <= i < |Dec(n)| ensures Dec(n)[i] != CR && Dec(n)[i] != LF {
      assert DigitByte(Dec(n)[i]);
    }
  }

  lemma HeadLinesAreLines(m: Message)
    requires ValidMessage(m)
    ensures NoLineEnds(HeadLines(m))
    ensures forall i :: 0 <= i < |HeadLines(m)| ==> HeadLines(m)[i] != []
  {
    DecHasNoLineEnd(|m.body|);
    var lines := HeadLines(m);
    forall i | 0 <= i < |lines| ensures NoLineEnd(lines[i]) && lines[i] != [] {
      if i == 0 {
      } else if i <= |m.headers| {
        assert lines[i] == m.headers[i - 1];
      } else {
        assert lines[i] == LengthLine(|m.body|);
      }
    }
  }

  /** The blank line is found behind the last line, not before. */
  lemma {:induction false} FindBlankLine(lines: seq<seq<byte>>, rest: seq<byte>)
    requires lines != [] && NoLineEnds(lines)
    requires forall i :: 0 <= i < |lines| ==> lines[i] != []
    ensures FindBytes(BLANK_LINE, JoinWithCrLf(lines) + (BLANK_LINE + rest)) == Some(|JoinWithCrLf(lines)|)
  {
    hide FindBytes;
    var line := lines[0];
    if |lines| == 1 {
      FindSkips(BLANK_LINE, line, BLANK_LINE + rest);
      FindHere(BLANK_LINE, rest);
    } else {
      var tail := JoinWithCrLf(lines[1..]);
      assert JoinWithCrLf(lines) + (BLANK_LINE + rest) == line + (CRLF + (tail + (BLANK_LINE + rest)));
      FindBlankLine(lines[1..], rest);
      FindSkips(BLANK_LINE, line, CRLF + (tail + (BLANK_LINE + rest)));
      JoinStartsWith(lines[1..]);
      NextLineIsNoBlank(tail + (BLANK_LINE + rest));
    }
  }

  lemma JoinStartsWith(lines: seq<seq<byte>>)
    requires lines != [] && lines[0] != []
    ensures JoinWithCrLf(lines) != [] && JoinWithCrLf(lines)[0] == lines[0][0]
  {
  }

  lemma NextLineIsNoBlank(more: seq<byte>)
    requires more != [] && more[0] != CR
    ensures FindBytes(BLANK_LINE, CRLF + more) ==
      match FindBytes(BLANK_LINE, more) { case None => None case Some(i) => Some(2 + i) }
  {
    var s := CRLF + more;
    if |s| >= 4 {
      assert s[..4][2] == more[0];
    }
    assert s[1..] == [LF] + more;
    FindSkips(BLANK_LINE, [LF], more);
  }

  /** A key cannot start in a plain line and run over its end, so only a line of its own matches. */
  lemma KeyStaysOnLine(line: seq<byte>, rest: seq<byte>, i: nat)
    requires PlainLine(line) && i < |line|
    requires rest == [] || rest[0] == CR
    ensures !KeyAt((line + rest)[i..])
  {
    var h := (line + rest)[i..];
    if |h| >= 15 {
      if |line| - i >= 15 {
        assert h[..15] == line[i..][..15];
        assert !KeyAt(line[i..]);
      } else {
        var k := |line| - i;
        assert h[..15][k] == rest[0];
        assert LowerBytes(h[..15])[k] == CR;
        assert LENGTH_KEY[k] != CR;
      }
    }
  }

  lemma SearchSkipsLine(line: seq<byte>, rest: seq<byte>)
    requires PlainLine(line)
    ensures SearchLength(line + (CRLF + rest)) == SearchLength(rest)
  {
    var s := line + CRLF;
    assert line + (CRLF + rest) == s + rest;
    forall i | 0 <= i < |s| ensures !KeyAt((s + rest)[i..]) {
      var h := (s + rest)[i..];
      if i < |line| {
        KeyStaysOnLine(line, CRLF + rest, i);
      } else if |h| >= 15 {
        assert h[..15][0] == s[i];
        assert LowerBytes(h[..15])[0] == s[i];
        assert LENGTH_KEY[0] != s[i];
      }
    }
    SearchSkips(s, rest);
  }

  lemma SearchEndsAtLine(line: seq<byte>)
    requires PlainLine(line)
    ensures SearchLength(line).None?
  {
    assert line + [] == line;
    forall i | 0 <= i < |line| ensures !KeyAt((line + [])[i..]) {
      KeyStaysOnLine(line, [], i);
    }
    SearchSkips(line, []);
  }

  lemma NameIsKey(rest: seq<byte>)
    ensures KeyAt(LENGTH_NAME + ([58] + rest)) && (LENGTH_NAME + ([58] + rest))[15..] == rest
  {
    var h := LENGTH_NAME + ([58] + rest);
    assert h[..15] == LENGTH_NAME + [58];
  }

  lemma SpacedDigits(d: seq<byte>)
    requires d != [] && forall i :: 0 <= i < |d| ==> DigitByte(d[i])
    ensures DigitPrefix(SkipSpace([32] + d)) == d
  {
    assert ([32] + d)[1..] == d;
    assert SkipSpace(d) == d;
    DigitPrefixOfDigits(d);
  }

  lemma LengthLineMatches(n: nat)
    ensures SearchLength(LengthLine(n)) == Some(n)
  {
    NatOfDec(n);
    assert LengthLine(n) == LENGTH_NAME + ([58] + ([32] + Dec(n)));
    NameIsKey([32] + Dec(n));
    SpacedDigits(Dec(n));
  }

  lemma {:induction false} LengthOfHead(lines: seq<seq<byte>>, length: Option<nat>)
    requires lines != [] || length.Some?
    requires forall i :: 0 <= i < |lines| ==> PlainLine(lines[i])
    ensures SearchLength(JoinWithCrLf(lines + (if length.Some? then [LengthLine(length.value)] else []))) == length
  {
    var tail := if length.Some? then [LengthLine(length.value)] else [];
    var all := lines + tail;
    if lines == [] {
      assert all == tail;
      LengthLineMatches(length.value);
    } else if |all| == 1 {
      assert JoinWithCrLf(all) == lines[0];
      SearchEndsAtLine(lines[0]);
    } else {
      assert all[1..] == lines[1..] + tail;
      assert JoinWithCrLf(all) == lines[0] + (CRLF + JoinWithCrLf(all[1..]));
      SearchSkipsLine(lines[0], JoinWithCrLf(all[1..]));
      LengthOfHead(lines[1..], length);
    }
  }

  lemma LengthLineParses(n: nat)
    ensures ParseHeaders([LengthLine(n)]) == [(LENGTH_NAME, Dec(n))]
  {
    hide FindBytes;
    var line := LengthLine(n);
    FindSkips(COLON, LENGTH_NAME, COLON + ([32] + Dec(n)));
    FindHere(COLON, [32] + Dec(n));
    assert line == LENGTH_NAME + (COLON + ([32] + Dec(n)));
    assert line[..14] == LENGTH_NAME && line[15..] == [32] + Dec(n);
    NatOfDec(n);
    assert ([32] + Dec(n))[1..] == Dec(n);
    assert StripLeft([32] + Dec(n)) == StripLeft(Dec(n)) == Dec(n);
    assert [line][1..] == [];
  }

  /** The parser returns a serialized message, whatever follows it on the stream. */
  lemma ParseInvertsSerialize(m: Message, rest: seq<byte>)
    requires ValidMessage(m)
    ensures ParseFrame(Serialize(m) + rest) == Some((FrameOf(m), |Serialize(m)|))
  {
    hide *;
    HeadLinesAreLines(m);
    FindBlankLine(HeadLines(m), m.body + rest);
    HeadLength(m);
    FrameOfHead(m);
    SerializedParts(m, rest);
    ParseOfParts(JoinWithCrLf(HeadLines(m)), m.body, rest);
  }

  lemma SerializedParts(m: Message, rest: seq<byte>)
    ensures var head := JoinWithCrLf(HeadLines(m));
            && Serialize(m) + rest == head + (BLANK_LINE + (m.body + rest))
            && |Serialize(m)| == |head| + 4 + |m.body|
  {
    hide JoinWithCrLf, HeadLines;
  }

  lemma Parts(head: seq<byte>, body: seq<byte>, rest: seq<byte>)
    ensures var (buf, n) := (head + (BLANK_LINE + (body + rest)), |head|);
            && |buf| >= n + 4 + |body| && buf[..n] == head && buf[n + 4..n + 4 + |body|] == body
  {
  }

  /** What the parser makes of a head, a blank line and the body that the head announces. */
  lemma ParseOfParts(head: seq<byte>, body: seq<byte>, rest: seq<byte>)
    requires ContentLength(head) == |body|
    requires FindBytes(BLANK_LINE, head + (BLANK_LINE + (body + rest))) == Some(|head|)
    ensures ParseFrame(head + (BLANK_LINE + (body + rest))) == Some((FrameFrom(head, body), |head| + 4 + |body|))
  {
    hide FindBytes, ContentLength, FrameFrom;
    Parts(head, body, rest);
  }

  lemma HeadLength(m: Message)
    requires ValidMessage(m)
    ensures ContentLength(JoinWithCrLf(HeadLines(m))) == |m.body|
  {
    LengthOfHead([m.startLine] + m.headers, if m.withLength then Some(|m.body|) else None);
  }

  lemma FrameOfHead(m: Message)
    requires ValidMessage(m)
    ensures FrameFrom(JoinWithCrLf(HeadLines(m)), m.body) == FrameOf(m)
  {
    HeadLinesAreLines(m);
    SplitOfJoin(HeadLines(m));
    if m.withLength {
      assert HeadLines(m)[1..] == m.headers + [LengthLine(|m.body|)];
      ParseHeadersAppend(m.headers, [LengthLine(|m.body|)]);
      LengthLineParses(|m.body|);
    } else {
      assert HeadLines(m)[1..] == m.headers;
      assert ParseHeaders(m.headers) + [] == ParseHeaders(m.headers);
    }
  }

  /** A frame that is complete stays the first frame, however the stream goes on. */
  lemma ParseIsStable(buf: seq<byte>, rest: seq<byte>)
    requires ParseFrame(buf).Some?
    ensures ParseFrame(buf + rest) == ParseFrame(buf)
  {
    FindIsStable(BLANK_LINE, buf, rest);
    hide FindBytes, ContentLength, FrameFrom;
    var longer := buf + rest;
    var sep := FindBytes(BLANK_LINE, buf).value;
    var n := ContentLength(buf[..sep]);
    SliceStays(buf, rest, 0, sep);
    SliceStays(buf, rest, sep + 4, sep + 4 + n);
  }

  lemma SliceStays(s: seq<byte>, rest: seq<byte>, i: nat, j: nat)
    requires i <= j <= |s|
    ensures (s + rest)[i..j] == s[i..j]
    ensures i == 0 ==> (s + rest)[..j] == s[..j]
  {
  }
}
