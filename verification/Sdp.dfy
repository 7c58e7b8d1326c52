// Session descriptions: the parser for offers and answers, and the answer the listener builds.
module Sdp {
  import opened Prelude
  import opened Text

  datatype Media = Media(
    kind: string,
    port: int,
    proto: string,
    payloadTypes: seq<int>,
    connectionIp: string,
    rtpmap: map<int, string>,
    fmtp: map<int, string>,
    crypto: seq<string>,
    direction: string)

  datatype Session = Session(sessionIp: string, medias: seq<Media>)

  /** parse_sdp returns a description or raises (ValueError, IndexError). */
  datatype ParseResult = Parsed(sdp: Session) | Raised

  // ----- parse_sdp -----

  const DIRECTIONS := ["sendrecv", "sendonly", "recvonly", "inactive"]

  function UpdateLast(s: Session, m: Media): Session
    requires s.medias != []
  {
    s.(medias := s.medias[|s.medias| - 1 := m])
  }

  function Last(s: Session): Media
    requires s.medias != []
  {
    s.medias[|s.medias| - 1]
  }

  /** The integers among the words that consist of digits. */
  function Payloads(words: seq<string>): seq<int> {
    if words == [] then []
    else if AllDigits(words[0]) then
      (IntOfDigits(words[0]); [Int(words[0]).value]) + Payloads(words[1..])
    else Payloads(words[1..])
  }

  function ApplyConnection(s: Session, line: string, at: nat): ParseResult
    requires at + 6 <= |line|
  {
    var words := Words(Strip(line[at + 6..]));
    if words == [] then Raised
    else if s.medias == [] then Parsed(s.(sessionIp := words[0]))
    else Parsed(UpdateLast(s, Last(s).(connectionIp := words[0])))
  }

  function ApplyMedia(s: Session, line: string): ParseResult
    requires 2 <= |line|
  {
    var parts := Words(line[2..]);
    if |parts| < 4 then Parsed(s)
    else
      var port := Int(parts[1]);
      if port.None? then Raised
      else Parsed(s.(medias := s.medias +
        [Media(parts[0], port.value, parts[2], Payloads(parts[3..]), s.sessionIp, map[], map[], [], "")]))
  }

  /** "<payload type> <value>": None if there is no blank or no number. */
  function Attribute(rest: string): Option<(int, string)> {
    var i := Blank(rest);
    if i.None? || Int(rest[..i.value]).None? then None
    else Some((Int(rest[..i.value]).value, Strip(rest[i.value + 1..])))
  }

  function ApplyAttribute(s: Session, line: string): Session
    requires s.medias != []
  {
    var m := Last(s);
    if StartsWith(line, "a=rtpmap:") then
      var a := Attribute(line[9..]);
      if a.None? then s else UpdateLast(s, m.(rtpmap := m.rtpmap[a.value.0 := a.value.1]))
    else if StartsWith(line, "a=fmtp:") then
      var a := Attribute(line[7..]);
      if a.None? then s else UpdateLast(s, m.(fmtp := m.fmtp[a.value.0 := a.value.1]))
    else if StartsWith(line, "a=crypto:") then
      UpdateLast(s, m.(crypto := m.crypto + [Strip(line[9..])]))
    else if StartsWith(line, "a=") && TrimRight(line[2..]) in DIRECTIONS then
      UpdateLast(s, m.(direction := TrimRight(line[2..])))
    else s
  }

  function ApplyLine(s: Session, line: string): ParseResult {
    var at := Find(line, "IN IP4");
    if StartsWith(line, "c=") && at.Some? then ApplyConnection(s, line, at.value)
    else if StartsWith(line, "m=") then ApplyMedia(s, line)
    else if s.medias != [] then Parsed(ApplyAttribute(s, line))
    else Parsed(s)
  }

  function ApplyLines(s: Session, lines: seq<string>): ParseResult
    decreases |lines|
  {
    if lines == [] then Parsed(s)
    else
      var r := ApplyLine(s, lines[0]);
      if r.Raised? then Raised else ApplyLines(r.sdp, lines[1..])
  }

  const Blankest := Session("", [])

  function Parse(text: string): ParseResult {
    ApplyLines(Blankest, SplitLines(text))
  }

  method ParseSdp(body: string) returns (r: ParseResult)
    ensures r == Parse(body)
  {
    var lines := SplitLines(body);
    var sdp := Session("", []);
    var i := 0;
    assert lines[0..] == lines;
    while i < |lines|
      invariant 0 <= i <= |lines|
      invariant ApplyLines(sdp, lines[i..]) == ApplyLines(Blankest, lines)
    {
      hide ApplyLine;
      assert lines[i..][0] == lines[i] && lines[i..][1..] == lines[i + 1..];
      var next := ApplyLine(sdp, lines[i]);
      if next.Raised? {
        return Raised;
      }
      sdp := next.sdp;
      i := i + 1;
    }
    r := Parsed(sdp);
  }

  lemma {:induction false} ApplyLinesAppend(s: Session, first: seq<string>, second: seq<string>)
    ensures ApplyLines(s, first + second) ==
      if ApplyLines(s, first).Raised? then Raised else ApplyLines(ApplyLines(s, first).sdp, second)
    decreases |first|
  {
    hide ApplyLine;
    if first == [] {
      assert first + second == second;
    } else {
      assert (first + second)[1..] == first[1..] + second;
      if ApplyLine(s, first[0]).Parsed? {
        ApplyLinesAppend(ApplyLine(s, first[0]).sdp, first[1..], second);
      }
    }
  }

  // ----- what a parsed description is like -----

  /** Can be printed on a line and read back. */
  predicate Clean(s: string) {
    Trimmed(s) && OneLine(s)
  }

  ghost predicate MediaValid(m: Media) {
    && Word(m.proto)
    && (forall i :: 0 <= i < |m.payloadTypes| ==> m.payloadTypes[i] >= 0)
    && (forall pt :: pt in m.rtpmap ==> Clean(m.rtpmap[pt]))
    && (forall pt :: pt in m.fmtp ==> Clean(m.fmtp[pt]))
  }

  ghost predicate SessionValid(s: Session) {
    forall i :: 0 <= i < |s.medias| ==> MediaValid(s.medias[i])
  }

  lemma {:induction false} PayloadsAreNumbers(words: seq<string>)
    ensures forall i :: 0 <= i < |Payloads(words)| ==> Payloads(words)[i] >= 0
  {
    if words == [] {
    } else {
      PayloadsAreNumbers(words[1..]);
      if AllDigits(words[0]) {
        IntOfDigits(words[0]);
      }
      hide Int, AllDigits;
    }
  }

  lemma StripIsClean(s: string)
    requires OneLine(s)
    ensures Clean(Strip(s))
  {
    StripIsTrimmed(s);
    StripKeeps(s);
    hide Strip, Trimmed, LineBreak;
  }

  lemma AttributeIsClean(rest: string)
    requires OneLine(rest)
    ensures Attribute(rest).Some? ==> Clean(Attribute(rest).value.1)
  {
    var i := Blank(rest);
    if i.Some? {
      StripIsClean(rest[i.value + 1..]);
    }
    hide Strip, Int, Clean, LineBreak;
  }

  lemma LineKeepsValid(s: Session, line: string)
    requires SessionValid(s) && OneLine(line)
    ensures ApplyLine(s, line).Parsed? ==> SessionValid(ApplyLine(s, line).sdp)
  {
    if StartsWith(line, "c=") && Find(line, "IN IP4").Some? {
      ConnectionKeepsValid(s, line, Find(line, "IN IP4").value);
    } else if StartsWith(line, "m=") {
      MediaKeepsValid(s, line);
    } else if s.medias != [] {
      AttributeKeepsValid(s, line);
    }
    hide Find, SessionValid, ApplyConnection, ApplyMedia, ApplyAttribute;
  }

  lemma ConnectionKeepsValid(s: Session, line: string, at: nat)
    requires SessionValid(s) && at + 6 <= |line|
    ensures ApplyConnection(s, line, at).Parsed? ==> SessionValid(ApplyConnection(s, line, at).sdp)
  {
    hide Words, Strip, Clean, Word;
  }

  lemma MediaKeepsValid(s: Session, line: string)
    requires SessionValid(s) && |line| >= 2
    ensures ApplyMedia(s, line).Parsed? ==> SessionValid(ApplyMedia(s, line).sdp)
  {
    var parts := Words(line[2..]);
    if |parts| >= 4 {
      PayloadsAreNumbers(parts[3..]);
    }
    hide Words, Int, Payloads, Clean, Word;
  }

  lemma UpdateLastKeepsValid(s: Session, m: Media)
    requires SessionValid(s) && s.medias != [] && (MediaValid(Last(s)) ==> MediaValid(m))
    ensures SessionValid(UpdateLast(s, m))
  {
    hide MediaValid;
  }

  lemma MappingsStayValid(m: Media, pt: int, text: string)
    requires MediaValid(m) && Clean(text)
    ensures MediaValid(m.(rtpmap := m.rtpmap[pt := text])) && MediaValid(m.(fmtp := m.fmtp[pt := text]))
  {
    hide Clean, Word;
  }

  lemma AttributeKeepsValid(s: Session, line: string)
    requires SessionValid(s) && s.medias != [] && OneLine(line)
    ensures SessionValid(ApplyAttribute(s, line))
  {
    var m := Last(s);
    assert MediaValid(m);
    if StartsWith(line, "a=rtpmap:") {
      var a := Attribute(line[9..]);
      AttributeIsClean(line[9..]);
      if a.Some? {
        MappingsStayValid(m, a.value.0, a.value.1);
        UpdateLastKeepsValid(s, m.(rtpmap := m.rtpmap[a.value.0 := a.value.1]));
      }
    } else if StartsWith(line, "a=fmtp:") {
      var a := Attribute(line[7..]);
      AttributeIsClean(line[7..]);
      if a.Some? {
        MappingsStayValid(m, a.value.0, a.value.1);
        UpdateLastKeepsValid(s, m.(fmtp := m.fmtp[a.value.0 := a.value.1]));
      }
    } else if StartsWith(line, "a=crypto:") {
      UpdateLastKeepsValid(s, m.(crypto := m.crypto + [Strip(line[9..])]));
    } else if StartsWith(line, "a=") {
      UpdateLastKeepsValid(s, m.(direction := TrimRight(line[2..])));
    }
    hide Attribute, Strip, TrimRight, Clean, Word, OneLine, StartsWith, MediaValid, SessionValid, UpdateLast;
  }

  lemma {:induction false} LinesKeepValid(s: Session, lines: seq<string>)
    requires SessionValid(s) && forall i :: 0 <= i < |lines| ==> OneLine(lines[i])
    ensures ApplyLines(s, lines).Parsed? ==> SessionValid(ApplyLines(s, lines).sdp)
    decreases |lines|
  {
    hide SessionValid, ApplyLine;
    if lines == [] {
    } else {
      LineKeepsValid(s, lines[0]);
      if ApplyLine(s, lines[0]).Parsed? {
        LinesKeepValid(ApplyLine(s, lines[0]).sdp, lines[1..]);
      }
    }
  }

  /** Whatever text parses, the payload types are numbers and the mappings printable. */
  lemma ParsedIsValid(text: string)
    requires Parse(text).Parsed?
    ensures SessionValid(Parse(text).sdp)
  {
    SplitGivesLines(text);
    LinesKeepValid(Blankest, SplitLines(text));
  }
}
