// The answer to an incoming offer: which payload type is chosen, and that the answer reads back as
// exactly what was meant.
module SdpAnswer {
  import opened Prelude
  import opened Text
  import opened Sdp

  // ----- _preferred_payload -----

  datatype Choice = Choice(pt: int, rtpmap: string, fmtp: Option<string>, proto: string)

  function MapOf(m: Media, pt: int): string {
    if pt in m.rtpmap then m.rtpmap[pt] else ""
  }

  predicate Speaks(m: Media, pt: int, codec: string) {
    Find(Lower(MapOf(m, pt)), Lower(codec)).Some?
  }

  function ChoiceOf(m: Media, pt: int): Choice {
    Choice(pt, MapOf(m, pt), if pt in m.fmtp then Some(m.fmtp[pt]) else None,
           if m.proto != "" then m.proto else "RTP/AVP")
  }

  function FirstSpeaking(m: Media, pts: seq<int>, codec: string): Option<int> {
    if pts == [] then None else if Speaks(m, pts[0], codec) then Some(pts[0]) else FirstSpeaking(m, pts[1..], codec)
  }

  function ByCodec(m: Media, preferred: seq<string>): Option<int> {
    if preferred == [] then None
    else
      var pt := FirstSpeaking(m, m.payloadTypes, preferred[0]);
      if pt.Some? then pt else ByCodec(m, preferred[1..])
  }

  function Preferred(medias: seq<Media>, kind: string, preferred: seq<string>): Option<Choice> {
    if medias == [] then None
    else
      var m := medias[0];
      if m.kind != kind then Preferred(medias[1..], kind, preferred)
      else if ByCodec(m, preferred).Some? then Some(ChoiceOf(m, ByCodec(m, preferred).value))
      else if m.payloadTypes != [] then Some(ChoiceOf(m, m.payloadTypes[0]))
      else Preferred(medias[1..], kind, preferred)
  }

  // ----- what is chosen, said otherwise -----

  /** The place of the best codec a payload type speaks, or the number of codecs. */
  function Rank(m: Media, pt: int, preferred: seq<string>): nat {
    if preferred == [] then 0 else if Speaks(m, pt, preferred[0]) then 0 else 1 + Rank(m, pt, preferred[1..])
  }

  /** The i-th payload type is the first of the lowest rank. */
  ghost predicate BestAt(m: Media, i: nat, preferred: seq<string>) {
    && i < |m.payloadTypes|
    && (forall j :: 0 <= j < |m.payloadTypes| ==>
          Rank(m, m.payloadTypes[i], preferred) <= Rank(m, m.payloadTypes[j], preferred))
    && (forall j :: 0 <= j < i ==>
          Rank(m, m.payloadTypes[i], preferred) < Rank(m, m.payloadTypes[j], preferred))
  }

  lemma {:induction false} FirstSpeakingIsFirst(m: Media, pts: seq<int>, codec: string)
    ensures match FirstSpeaking(m, pts, codec)
            case None => forall j :: 0 <= j < |pts| ==> !Speaks(m, pts[j], codec)
            case Some(pt) => exists i :: 0 <= i < |pts| && pts[i] == pt && Speaks(m, pt, codec) &&
                                          forall j :: 0 <= j < i ==> !Speaks(m, pts[j], codec)
  {
    hide Speaks;
    if pts == [] {
    } else if Speaks(m, pts[0], codec) {
      assert pts[0] == FirstSpeaking(m, pts, codec).value;
    } else {
      FirstSpeakingIsFirst(m, pts[1..], codec);
      if FirstSpeaking(m, pts[1..], codec).Some? {
        var pt := FirstSpeaking(m, pts[1..], codec).value;
        var i :| 0 <= i < |pts[1..]| && pts[1..][i] == pt && Speaks(m, pt, codec) &&
                 forall j :: 0 <= j < i ==> !Speaks(m, pts[1..][j], codec);
        assert pts[i + 1] == pt;
        assert forall j :: 0 < j < i + 1 ==> pts[j] == pts[1..][j - 1];
      } else {
        assert forall j :: 0 < j < |pts| ==> pts[j] == pts[1..][j - 1];
      }
    }
  }

  lemma {:induction false} ByCodecIsBest(m: Media, preferred: seq<string>) returns (i: nat)
    requires m.payloadTypes != []
    ensures BestAt(m, i, preferred)
    ensures m.payloadTypes[i] == if ByCodec(m, preferred).Some? then ByCodec(m, preferred).value else m.payloadTypes[0]
    ensures ByCodec(m, preferred).None? ==> i == 0
  {
    hide Speaks;
    if preferred == [] {
      i := 0;
    } else {
      FirstSpeakingIsFirst(m, m.payloadTypes, preferred[0]);
      if FirstSpeaking(m, m.payloadTypes, preferred[0]).Some? {
        var pt := FirstSpeaking(m, m.payloadTypes, preferred[0]).value;
        i :| 0 <= i < |m.payloadTypes| && m.payloadTypes[i] == pt && Speaks(m, pt, preferred[0]) &&
             forall j :: 0 <= j < i ==> !Speaks(m, m.payloadTypes[j], preferred[0]);
      } else {
        i := ByCodecIsBest(m, preferred[1..]);
        assert forall j :: 0 <= j < |m.payloadTypes| ==>
          Rank(m, m.payloadTypes[j], preferred) == 1 + Rank(m, m.payloadTypes[j], preferred[1..]);
      }
    }
  }

  /** The first description of this kind that offers anything. */
  ghost predicate FirstOffer(medias: seq<Media>, kind: string, k: nat) {
    && k < |medias| && medias[k].kind == kind && medias[k].payloadTypes != []
    && forall j :: 0 <= j < k ==> medias[j].kind != kind || medias[j].payloadTypes == []
  }

  /**
   * What is answered for a medium: from the first description of its kind that offers anything, the
   * first payload type among those with the most preferred codec; and nothing if none offers anything.
   */
  lemma {:induction false} PreferredIsBest(medias: seq<Media>, kind: string, preferred: seq<string>)
    ensures match Preferred(medias, kind, preferred)
            case None => forall j :: 0 <= j < |medias| ==> medias[j].kind != kind || medias[j].payloadTypes == []
            case Some(c) => exists k: nat, i: nat :: FirstOffer(medias, kind, k) && BestAt(medias[k], i, preferred) &&
                              c == ChoiceOf(medias[k], medias[k].payloadTypes[i])
  {
    hide ChoiceOf, Rank;
    if medias == [] {
    } else if medias[0].kind == kind && medias[0].payloadTypes != [] {
      var i := ByCodecIsBest(medias[0], preferred);
      assert FirstOffer(medias, kind, 0) && BestAt(medias[0], i, preferred);
    } else {
      if medias[0].kind == kind {
        NothingSpeaks(medias[0], preferred);
      }
      PreferredIsBest(medias[1..], kind, preferred);
      if Preferred(medias[1..], kind, preferred).Some? {
        var c := Preferred(medias[1..], kind, preferred).value;
        var k: nat, i: nat :| FirstOffer(medias[1..], kind, k) && BestAt(medias[1..][k], i, preferred) &&
                    c == ChoiceOf(medias[1..][k], medias[1..][k].payloadTypes[i]);
        assert medias[1..][k] == medias[k + 1];
        assert forall j :: 0 < j < k + 1 ==> medias[j] == medias[1..][j - 1];
        assert FirstOffer(medias, kind, k + 1) && BestAt(medias[k + 1], i, preferred);
      } else {
        assert forall j :: 0 < j < |medias| ==> medias[j] == medias[1..][j - 1];
      }
    }
  }

  lemma {:induction false} NothingSpeaks(m: Media, preferred: seq<string>)
    requires m.payloadTypes == []
    ensures ByCodec(m, preferred).None?
  {
    if preferred == [] {
    } else {
      NothingSpeaks(m, preferred[1..]);
    }
  }

  // ----- _build_answer_sdp -----

  const AUDIO_CODECS := ["PCMA/8000", "PCMU/8000"]
  const VIDEO_CODECS := ["H264/90000"]

  function Or(s: string, default: string): string {
    if s != "" then s else default
  }

  /** The payload types of an offer are not negative: they are read from digits. */
  function StrOf(pt: int): string {
    if pt >= 0 then Str(pt) else "-" + Str(-pt)
  }

  function Head(username: string, sid: nat, mediaIp: string): seq<string> {
    Origin(username, sid, mediaIp) + (["c=IN IP4 " + mediaIp] + ["b=AS:380", "t=0 0"])
  }

  function Origin(username: string, sid: nat, mediaIp: string): seq<string> {
    ["v=0", "o=" + username + " " + Str(sid) + " " + Str(sid) + " IN IP4 " + mediaIp, "s=Talk"]
  }

  function MediaLine(kind: string, port: nat, c: Choice): string {
    "m=" + (kind + " " + (Str(port) + " " + (c.proto + " " + StrOf(c.pt))))
  }

  function RtpmapLine(c: Choice, default: string): string {
    "a=rtpmap:" + (StrOf(c.pt) + " " + Or(c.rtpmap, default))
  }

  function AudioLines(audio: Option<Choice>, port: nat): seq<string> {
    if audio.None? then []
    else [MediaLine("audio", port, audio.value), RtpmapLine(audio.value, "PCMA/8000"), "a=ptime:20", "a=sendrecv"]
  }

  function FmtpLines(c: Choice): seq<string> {
    if c.fmtp.Some? && c.fmtp.value != "" then ["a=fmtp:" + (StrOf(c.pt) + " " + c.fmtp.value)] else []
  }

  function VideoLines(video: Option<Choice>, port: nat): seq<string> {
    if video.None? then []
    else [MediaLine("video", port, video.value), RtpmapLine(video.value, "H264/90000")]
         + FmtpLines(video.value) + ["a=sendrecv"]
  }

  /** Joined with CR LF, and an empty last line. */
  function BuildAnswer(offer: Session, username: string, sid: nat, mediaIp: string, audioPort: nat, videoPort: nat)
    : string
  {
    Terminated(Head(username, sid, mediaIp)
               + AudioLines(Preferred(offer.medias, "audio", AUDIO_CODECS), audioPort)
               + VideoLines(Preferred(offer.medias, "video", VIDEO_CODECS), videoPort))
  }

  // ----- what the answer means -----

  function AudioMeant(audio: Option<Choice>, port: nat, ip: string): seq<Media> {
    if audio.None? then []
    else
      var c := audio.value;
      [Media("audio", port, c.proto, [c.pt], ip,
             map[c.pt := if c.rtpmap == "" then "PCMA/8000" else c.rtpmap], map[], [], "sendrecv")]
  }

  function VideoMeant(video: Option<Choice>, port: nat, ip: string): seq<Media> {
    if video.None? then []
    else
      var c := video.value;
      [Media("video", port, c.proto, [c.pt], ip,
             map[c.pt := if c.rtpmap == "" then "H264/90000" else c.rtpmap],
             if c.fmtp.Some? && c.fmtp.value != "" then map[c.pt := c.fmtp.value] else map[], [], "sendrecv")]
  }

  ghost predicate ChoiceValid(c: Choice) {
    c.pt >= 0 && Word(c.proto) && Clean(c.rtpmap) && (c.fmtp.Some? ==> Clean(c.fmtp.value))
  }

  lemma {:induction false} PreferredIsValid(medias: seq<Media>, kind: string, preferred: seq<string>)
    requires forall i :: 0 <= i < |medias| ==> MediaValid(medias[i])
    ensures Preferred(medias, kind, preferred).Some? ==> ChoiceValid(Preferred(medias, kind, preferred).value)
  {
    hide MediaValid;
    if Preferred(medias, kind, preferred).Some? {
      PreferredIsBest(medias, kind, preferred);
      var c := Preferred(medias, kind, preferred).value;
      var k: nat, i: nat :| FirstOffer(medias, kind, k) && BestAt(medias[k], i, preferred) &&
                            c == ChoiceOf(medias[k], medias[k].payloadTypes[i]);
      ChoicesAreValid(medias[k], i);
    }
  }

  lemma ChoicesAreValid(m: Media, i: nat)
    requires MediaValid(m) && i < |m.payloadTypes|
    ensures ChoiceValid(ChoiceOf(m, m.payloadTypes[i]))
  {
    var pt := m.payloadTypes[i];
    assert Clean("");
    hide Clean;
  }

  // ----- reading the answer back, line by line -----

  lemma Starting(prefix: string, rest: string)
    ensures StartsWith(prefix + rest, prefix) && (prefix + rest)[|prefix|..] == rest
  {
  }

  lemma NotStarting(line: string, prefix: string, i: nat)
    requires i < |prefix| && i < |line| && line[i] != prefix[i]
    ensures !StartsWith(line, prefix)
  {
    assert |prefix| <= |line| ==> line[..|prefix|][i] == line[i];
  }

  lemma LineIsIgnored(s: Session, line: string)
    requires s.medias == [] && |line| >= 1 && line[0] != 'c' && line[0] != 'm'
    ensures ApplyLine(s, line) == Parsed(s)
  {
    NotStarting(line, "c=", 0);
    NotStarting(line, "m=", 0);
    hide Find, StartsWith;
  }

  lemma AttributeLine(s: Session, line: string)
    requires s.medias != [] && |line| >= 1 && line[0] == 'a'
    ensures ApplyLine(s, line) == Parsed(ApplyAttribute(s, line))
  {
    NotStarting(line, "c=", 0);
    NotStarting(line, "m=", 0);
    hide Find, StartsWith, ApplyAttribute;
  }

  lemma ConnectionReads(s: Session, ip: string)
    requires Word(ip)
    ensures ApplyLine(s, "c=IN IP4 " + ip) ==
            Parsed(if s.medias == [] then s.(sessionIp := ip) else UpdateLast(s, Last(s).(connectionIp := ip)))
  {
    var line := "c=IN IP4 " + ip;
    assert line[8..] == " " + ip;
    FindAddress(ip);
    WordIsTrimmed(ip);
    StripAfterSpace(ip);
    WordsOfWord(ip);
    hide Find, Strip, Words, Word, Trimmed, StartsWith, ApplyConnection;
    Starting("c=", "IN IP4 " + ip);
    assert line == "c=" + ("IN IP4 " + ip);
    AddressApplies(s, line, ip);
  }

  lemma AddressApplies(s: Session, line: string, ip: string)
    requires |line| >= 8 && Words(Strip(line[8..])) == [ip]
    ensures ApplyConnection(s, line, 2) ==
            Parsed(if s.medias == [] then s.(sessionIp := ip) else UpdateLast(s, Last(s).(connectionIp := ip)))
  {
    hide Strip, Words;
  }

  lemma FindAddress(ip: string)
    ensures Find("c=IN IP4 " + ip, "IN IP4") == Some(2)
  {
    var line := "c=IN IP4 " + ip;
    var (one, two) := ("=IN IP4 " + ip, "IN IP4 " + ip);
    assert line[0] == 'c' && one[0] == '=';
    assert line[1..] == one && one[1..] == two;
    assert two[..6] == "IN IP4";
    assert Find(two, "IN IP4") == Some(0);
    assert line[..6][0] == 'c' && one[..6][0] == '=';
    assert "IN IP4"[0] == 'I';
    assert Find(one, "IN IP4") == Some(1);
  }

  lemma MediaWords(kind: string, port: nat, proto: string, pt: nat)
    requires Word(kind) && Word(proto)
    ensures Words(kind + " " + (Str(port) + " " + (proto + " " + Str(pt)))) == [kind, Str(port), proto, Str(pt)]
  {
    StrIsWord(port);
    StrIsWord(pt);
    hide Word, Words, Str;
    FirstWord(kind, Str(port) + " " + (proto + " " + Str(pt)));
    FirstWord(Str(port), proto + " " + Str(pt));
    FirstWord(proto, Str(pt));
    WordsOfWord(Str(pt));
  }

  lemma ApplyMediaReads(s: Session, line: string, kind: string, port: nat, proto: string, pt: nat)
    requires |line| >= 2 && Words(line[2..]) == [kind, Str(port), proto, Str(pt)]
    ensures ApplyMedia(s, line) ==
      Parsed(s.(medias := s.medias + [Media(kind, port, proto, [pt], s.sessionIp, map[], map[], [], "")]))
  {
    var parts := Words(line[2..]);
    assert parts[3..] == [Str(pt)];
    IntOfStr(port);
    PayloadOfStr(pt);
    hide Words, Int, Str, Payloads;
  }

  lemma MediaReads(s: Session, kind: string, port: nat, c: Choice)
    requires Word(kind) && ChoiceValid(c)
    ensures ApplyLine(s, MediaLine(kind, port, c)) ==
      Parsed(s.(medias := s.medias + [Media(kind, port, c.proto, [c.pt], s.sessionIp, map[], map[], [], "")]))
  {
    var rest := kind + " " + (Str(port) + " " + (c.proto + " " + Str(c.pt)));
    var line := "m=" + rest;
    assert line == MediaLine(kind, port, c);
    Starting("m=", rest);
    assert line[0] == 'm';
    NotStarting(line, "c=", 0);
    MediaWords(kind, port, c.proto, c.pt);
    ApplyMediaReads(s, line, kind, port, c.proto, c.pt);
    hide Find, Words, ApplyMedia, Str, StartsWith, ChoiceValid, Word, MediaLine;
  }

  lemma PayloadOfStr(pt: nat)
    ensures Payloads([Str(pt)]) == [pt]
  {
    StrIsWord(pt);
    IntOfStr(pt);
    hide Str, Int, AllDigits;
    assert [Str(pt)][1..] == [];
  }

  lemma CutAtBlank(w: string, text: string)
    ensures var s := w + " " + text;
            |s| == |w| + 1 + |text| && s[..|w|] == w && s[|w| + 1..] == text
  {
  }

  lemma AttributeIs(s: string, i: nat, v: int, text: string)
    requires Blank(s) == Some(i) && i < |s| && Int(s[..i]) == Some(v) && Strip(s[i + 1..]) == text
    ensures Attribute(s) == Some((v, text))
  {
    hide Blank, Int, Strip;
  }

  lemma AttributeReads(pt: nat, text: string)
    requires Trimmed(text)
    ensures Attribute(Str(pt) + " " + text) == Some((pt, text))
  {
    var w := Str(pt);
    StrIsWord(pt);
    IntOfStr(pt);
    StripIsTrimmed(text);
    hide *;
    BlankAfterWord(w, text);
    CutAtBlank(w, text);
    AttributeIs(w + " " + text, |w|, pt, text);
  }

  lemma MapReads(s: Session, pt: nat, text: string)
    requires s.medias != [] && Trimmed(text)
    ensures ApplyLine(s, "a=rtpmap:" + (Str(pt) + " " + text)) ==
            Parsed(UpdateLast(s, Last(s).(rtpmap := Last(s).rtpmap[pt := text])))
  {
    var rest := Str(pt) + " " + text;
    AttributeReads(pt, text);
    Starting("a=rtpmap:", rest);
    AttributeLine(s, "a=rtpmap:" + rest);
    assert |"a=rtpmap:"| == 9;
    hide StartsWith, Attribute, Str, ApplyLine, Trimmed;
  }

  lemma RtpmapReads(s: Session, c: Choice, default: string)
    requires s.medias != [] && ChoiceValid(c) && Trimmed(default)
    ensures ApplyLine(s, RtpmapLine(c, default)) ==
      Parsed(UpdateLast(s, Last(s).(rtpmap := Last(s).rtpmap[c.pt := Or(c.rtpmap, default)])))
  {
    MapReads(s, c.pt, Or(c.rtpmap, default));
    hide ApplyLine, Trimmed, Str;
  }

  lemma FmtpIsNotRtpmap(rest: string)
    ensures !StartsWith("a=fmtp:" + rest, "a=rtpmap:")
  {
    assert ("a=fmtp:" + rest)[2] == 'f';
    NotStarting("a=fmtp:" + rest, "a=rtpmap:", 2);
    hide StartsWith;
  }

  lemma FmtpReads(s: Session, pt: nat, text: string)
    requires s.medias != [] && Trimmed(text)
    ensures ApplyLine(s, "a=fmtp:" + (Str(pt) + " " + text)) ==
      Parsed(UpdateLast(s, Last(s).(fmtp := Last(s).fmtp[pt := text])))
  {
    var rest := Str(pt) + " " + text;
    AttributeReads(pt, text);
    Starting("a=fmtp:", rest);
    FmtpIsNotRtpmap(rest);
    AttributeLine(s, "a=fmtp:" + rest);
    assert |"a=fmtp:"| == 7;
    hide StartsWith, Attribute, Str, ApplyLine;
  }

  lemma DirectionReads(s: Session)
    requires s.medias != []
    ensures ApplyLine(s, "a=sendrecv") == Parsed(UpdateLast(s, Last(s).(direction := "sendrecv")))
  {
    Starting("a=", "sendrecv");
    assert "a=sendrecv" == "a=" + "sendrecv";
    assert TrimRight("sendrecv") == "sendrecv" == DIRECTIONS[0];
    OtherAttribute("a=sendrecv");
    AttributeLine(s, "a=sendrecv");
    hide StartsWith, TrimRight, ApplyLine, Attribute;
  }

  lemma OtherAttribute(line: string)
    requires |line| > 2 && line[2] != 'r' && line[2] != 'f' && line[2] != 'c'
    ensures !StartsWith(line, "a=rtpmap:") && !StartsWith(line, "a=fmtp:") && !StartsWith(line, "a=crypto:")
  {
    NotStarting(line, "a=rtpmap:", 2);
    NotStarting(line, "a=fmtp:", 2);
    NotStarting(line, "a=crypto:", 2);
  }

  lemma PtimeReads(s: Session)
    requires s.medias != []
    ensures ApplyLine(s, "a=ptime:20") == Parsed(s)
  {
    assert "a=ptime:20"[2..] == "ptime:20" && TrimRight("ptime:20") == "ptime:20";
    NotADirection("ptime:20");
    OtherAttribute("a=ptime:20");
    AttributeLine(s, "a=ptime:20");
    hide StartsWith, TrimRight, ApplyLine, Attribute;
  }

  lemma NotADirection(word: string)
    requires word != "" && word[0] == 'p'
    ensures word !in DIRECTIONS
  {
    assert DIRECTIONS[0][0] == 's' && DIRECTIONS[1][0] == 's' && DIRECTIONS[2][0] == 'r' && DIRECTIONS[3][0] == 'i';
  }

  // ----- reading the answer back, whole -----

  lemma FirstLine(s: Session, line: string, rest: seq<string>)
    requires ApplyLine(s, line).Parsed?
    ensures ApplyLines(s, [line] + rest) == ApplyLines(ApplyLine(s, line).sdp, rest)
  {
    assert ([line] + rest)[1..] == rest;
    hide ApplyLine;
  }

  lemma {:induction false} AllIgnored(s: Session, lines: seq<string>)
    requires s.medias == []
    requires forall i :: 0 <= i < |lines| ==> |lines[i]| >= 1 && lines[i][0] != 'c' && lines[i][0] != 'm'
    ensures ApplyLines(s, lines) == Parsed(s)
    decreases |lines|
  {
    if lines == [] {
    } else {
      LineIsIgnored(s, lines[0]);
      hide ApplyLine;
      AllIgnored(s, lines[1..]);
    }
  }

  lemma HeadReads(username: string, sid: nat, ip: string)
    requires Word(ip)
    ensures ApplyLines(Blankest, Head(username, sid, ip)) == Parsed(Session(ip, []))
  {
    var (origin, connection, rest) := (Origin(username, sid, ip), "c=IN IP4 " + ip, ["b=AS:380", "t=0 0"]);
    OriginIsIgnored(username, sid, ip);
    AllIgnored(Session(ip, []), rest);
    ConnectionReads(Blankest, ip);
    hide ApplyLine, ApplyLines, Origin, Word;
    ApplyLinesAppend(Blankest, origin, [connection] + rest);
    FirstLine(Blankest, connection, rest);
  }

  lemma OriginIsIgnored(username: string, sid: nat, ip: string)
    ensures ApplyLines(Blankest, Origin(username, sid, ip)) == Parsed(Blankest)
  {
    var lines := Origin(username, sid, ip);
    assert lines[1][0] == 'o';
    hide Str, ApplyLine;
    AllIgnored(Blankest, lines);
  }

  /** The description after the media line and the rtpmap line. */
  function Mapped(kind: string, port: nat, c: Choice, ip: string, default: string): Media {
    Media(kind, port, c.proto, [c.pt], ip, map[c.pt := Or(c.rtpmap, default)], map[], [], "")
  }

  lemma MapAdded(s: Session, kind: string, port: nat, c: Choice, default: string)
    ensures var m := s.(medias := s.medias + [Media(kind, port, c.proto, [c.pt], s.sessionIp, map[], map[], [], "")]);
            UpdateLast(m, Last(m).(rtpmap := Last(m).rtpmap[c.pt := Or(c.rtpmap, default)])) ==
            s.(medias := s.medias + [Mapped(kind, port, c, s.sessionIp, default)])
  {
    hide Or;
  }

  lemma MediaAndMapRead(s: Session, kind: string, port: nat, c: Choice, default: string, rest: seq<string>)
    requires Word(kind) && ChoiceValid(c) && Trimmed(default)
    ensures ApplyLines(s, [MediaLine(kind, port, c)] + ([RtpmapLine(c, default)] + rest)) ==
            ApplyLines(s.(medias := s.medias + [Mapped(kind, port, c, s.sessionIp, default)]), rest)
  {
    hide ApplyLine, ApplyLines, MediaLine, RtpmapLine, ChoiceValid, Word, Trimmed, Or, UpdateLast, Last, Mapped;
    var m := s.(medias := s.medias + [Media(kind, port, c.proto, [c.pt], s.sessionIp, map[], map[], [], "")]);
    MediaReads(s, kind, port, c);
    RtpmapReads(m, c, default);
    FirstLine(s, MediaLine(kind, port, c), [RtpmapLine(c, default)] + rest);
    FirstLine(m, RtpmapLine(c, default), rest);
    MapAdded(s, kind, port, c, default);
  }

  lemma SendrecvReads(s: Session, m: Media)
    ensures ApplyLines(s.(medias := s.medias + [m]), ["a=sendrecv"]) ==
            Parsed(s.(medias := s.medias + [m.(direction := "sendrecv")]))
  {
    var t := s.(medias := s.medias + [m]);
    DirectionReads(t);
    UpdatedLast(s, m, m.(direction := "sendrecv"));
    hide ApplyLine, UpdateLast, Last;
    OneLineOnly(t, "a=sendrecv");
  }

  lemma OneLineOnly(s: Session, line: string)
    ensures ApplyLines(s, [line]) == ApplyLine(s, line)
  {
    hide ApplyLine;
  }

  lemma UpdatedLast(before: Session, m: Media, n: Media)
    ensures var s := before.(medias := before.medias + [m]);
            Last(s) == m && UpdateLast(s, n) == before.(medias := before.medias + [n])
  {
  }

  lemma AudioReads(s: Session, audio: Option<Choice>, port: nat)
    requires audio.Some? ==> ChoiceValid(audio.value)
    ensures ApplyLines(s, AudioLines(audio, port)) ==
            Parsed(s.(medias := s.medias + AudioMeant(audio, port, s.sessionIp)))
  {
    hide ApplyLine, ChoiceValid, MediaLine, RtpmapLine;
    if audio.None? {
      assert s.medias + [] == s.medias;
    } else {
      var c := audio.value;
      var m := Mapped("audio", port, c, s.sessionIp, "PCMA/8000");
      var t := s.(medias := s.medias + [m]);
      assert AudioLines(audio, port) ==
        [MediaLine("audio", port, c)] + ([RtpmapLine(c, "PCMA/8000")] + ["a=ptime:20", "a=sendrecv"]);
      MediaAndMapRead(s, "audio", port, c, "PCMA/8000", ["a=ptime:20", "a=sendrecv"]);
      PtimeReads(t);
      FirstLine(t, "a=ptime:20", ["a=sendrecv"]);
      assert ["a=ptime:20"] + ["a=sendrecv"] == ["a=ptime:20", "a=sendrecv"];
      SendrecvReads(s, m);
    }
  }

  lemma FmtpLineReads(s: Session, m: Media, c: Choice)
    requires ChoiceValid(c) && m.fmtp == map[]
    ensures ApplyLines(s.(medias := s.medias + [m]), FmtpLines(c)) ==
            Parsed(s.(medias := s.medias +
              [m.(fmtp := if c.fmtp.Some? && c.fmtp.value != "" then map[c.pt := c.fmtp.value] else map[])]))
  {
    var t := s.(medias := s.medias + [m]);
    if c.fmtp.Some? && c.fmtp.value != "" {
      FmtpReads(t, c.pt, c.fmtp.value);
      FirstLine(t, "a=fmtp:" + (Str(c.pt) + " " + c.fmtp.value), []);
      assert FmtpLines(c) == ["a=fmtp:" + (Str(c.pt) + " " + c.fmtp.value)] + [];
      var n := m.(fmtp := map[c.pt := c.fmtp.value]);
      assert UpdateLast(t, n).medias == s.medias + [n];
    }
    hide ApplyLine, Str, Clean, Word;
  }

  lemma VideoReads(s: Session, video: Option<Choice>, port: nat)
    requires video.Some? ==> ChoiceValid(video.value)
    ensures ApplyLines(s, VideoLines(video, port)) ==
            Parsed(s.(medias := s.medias + VideoMeant(video, port, s.sessionIp)))
  {
    hide ApplyLine, ChoiceValid, MediaLine, RtpmapLine, FmtpLines;
    if video.None? {
      assert s.medias + [] == s.medias;
    } else {
      var c := video.value;
      var m := Mapped("video", port, c, s.sessionIp, "H264/90000");
      var t := s.(medias := s.medias + [m]);
      assert VideoLines(video, port) ==
        [MediaLine("video", port, c)] + ([RtpmapLine(c, "H264/90000")] + (FmtpLines(c) + ["a=sendrecv"]));
      MediaAndMapRead(s, "video", port, c, "H264/90000", FmtpLines(c) + ["a=sendrecv"]);
      ApplyLinesAppend(t, FmtpLines(c), ["a=sendrecv"]);
      FmtpLineReads(s, m, c);
      SendrecvReads(s, m.(fmtp := if c.fmtp.Some? && c.fmtp.value != "" then map[c.pt := c.fmtp.value] else map[]));
    }
  }

  predicate AllOneLine(lines: seq<string>) {
    forall i :: 0 <= i < |lines| ==> OneLine(lines[i])
  }

  lemma OneLineJoins(a: string, b: string)
    requires OneLine(a) && OneLine(b)
    ensures OneLine(a + b)
  {
    hide LineBreak;
  }

  lemma WordIsOneLine(w: string)
    requires Word(w)
    ensures OneLine(w)
  {
  }

  lemma HeadIsOneLine(username: string, sid: nat, ip: string)
    requires OneLine(username) && Word(ip)
    ensures AllOneLine(Head(username, sid, ip))
  {
    StrIsWord(sid);
    WordIsOneLine(ip);
    hide Str;
    OneLineJoins("o=", username);
    OneLineJoins("o=" + username, " ");
    OneLineJoins("o=" + username + " ", Str(sid));
    OneLineJoins("o=" + username + " " + Str(sid), " ");
    OneLineJoins("o=" + username + " " + Str(sid) + " ", Str(sid));
    OneLineJoins("o=" + username + " " + Str(sid) + " " + Str(sid), " IN IP4 ");
    OneLineJoins("o=" + username + " " + Str(sid) + " " + Str(sid) + " IN IP4 ", ip);
    OneLineJoins("c=IN IP4 ", ip);
  }

  lemma MediaLineIsOneLine(kind: string, port: nat, c: Choice)
    requires OneLine(kind) && ChoiceValid(c)
    ensures OneLine(MediaLine(kind, port, c))
  {
    StrIsWord(port);
    StrIsWord(c.pt);
    WordIsOneLine(c.proto);
    hide Str, Word, LineBreak;
  }

  lemma AttributeLinesAreOneLine(c: Choice, default: string)
    requires ChoiceValid(c) && OneLine(default)
    ensures OneLine(RtpmapLine(c, default)) && AllOneLine(FmtpLines(c))
  {
    StrIsWord(c.pt);
    hide Str, Word, LineBreak, Trimmed;
  }

  lemma MediasAreOneLine(audio: Option<Choice>, video: Option<Choice>, audioPort: nat, videoPort: nat)
    requires audio.Some? ==> ChoiceValid(audio.value)
    requires video.Some? ==> ChoiceValid(video.value)
    ensures AllOneLine(AudioLines(audio, audioPort)) && AllOneLine(VideoLines(video, videoPort))
  {
    if audio.Some? {
      MediaLineIsOneLine("audio", audioPort, audio.value);
      AttributeLinesAreOneLine(audio.value, "PCMA/8000");
    }
    if video.Some? {
      MediaLineIsOneLine("video", videoPort, video.value);
      AttributeLinesAreOneLine(video.value, "H264/90000");
    }
    hide ChoiceValid, MediaLine, RtpmapLine, FmtpLines;
  }

  /**
   * For every offer that parses, the answer parses too, and to exactly this: the listener's address,
   * and per answered medium its port, the chosen payload type alone, and that type's protocol, rtpmap
   * (with its default) and, for video, fmtp.
   */
  lemma AnswerReadsBack(offer: string, username: string, sid: nat, ip: string, audioPort: nat, videoPort: nat)
    requires Parse(offer).Parsed? && OneLine(username) && Word(ip)
    ensures var medias := Parse(offer).sdp.medias;
            Parse(BuildAnswer(Parse(offer).sdp, username, sid, ip, audioPort, videoPort)) ==
            Parsed(Session(ip, AudioMeant(Preferred(medias, "audio", AUDIO_CODECS), audioPort, ip) +
                               VideoMeant(Preferred(medias, "video", VIDEO_CODECS), videoPort, ip)))
  {
    ParsedIsValid(offer);
    var medias := Parse(offer).sdp.medias;
    PreferredIsValid(medias, "audio", AUDIO_CODECS);
    PreferredIsValid(medias, "video", VIDEO_CODECS);
    hide Parse, Preferred, ChoiceValid, MediaValid;
    LinesReadBack(Preferred(medias, "audio", AUDIO_CODECS), Preferred(medias, "video", VIDEO_CODECS),
                  username, sid, ip, audioPort, videoPort);
  }

  lemma LinesReadBack(audio: Option<Choice>, video: Option<Choice>, username: string, sid: nat, ip: string,
                      audioPort: nat, videoPort: nat)
    requires audio.Some? ==> ChoiceValid(audio.value)
    requires video.Some? ==> ChoiceValid(video.value)
    requires OneLine(username) && Word(ip)
    ensures Parse(Terminated(Head(username, sid, ip) + AudioLines(audio, audioPort) + VideoLines(video, videoPort))) ==
            Parsed(Session(ip, AudioMeant(audio, audioPort, ip) + VideoMeant(video, videoPort, ip)))
  {
    var (h, a, v) := (Head(username, sid, ip), AudioLines(audio, audioPort), VideoLines(video, videoPort));
    HeadIsOneLine(username, sid, ip);
    MediasAreOneLine(audio, video, audioPort, videoPort);
    HeadReads(username, sid, ip);
    hide ChoiceValid, OneLine, Word, SplitLines, ApplyLines, Head, AudioLines, VideoLines, AudioMeant, VideoMeant;
    SplitTerminated(h + a + v);
    ApplyLinesAppend(Blankest, h + a, v);
    ApplyLinesAppend(Blankest, h, a);
    AudioReads(Session(ip, []), audio, audioPort);
    var s := Session(ip, [] + AudioMeant(audio, audioPort, ip));
    VideoReads(s, video, videoPort);
    assert [] + AudioMeant(audio, audioPort, ip) == AudioMeant(audio, audioPort, ip);
  }
}
