// Offers, printed with everything that the parser knows of, read back as what they say; and which
// of their payload types is answered, in terms of the offer's own text.
module SdpOffer {
  import opened Prelude
  import opened Text
  import opened Sdp
  import opened SdpAnswer

  // ----- an offer and its text -----

  /** One medium as an offerer writes it; what is None is not written. */
  datatype Offered = Offered(
    kind: string,
    port: nat,
    proto: string,
    payloadTypes: seq<nat>,
    connectionIp: Option<string>,
    rtpmap: seq<(nat, string)>,
    fmtp: seq<(nat, string)>,
    crypto: seq<string>,
    direction: Option<string>)

  ghost predicate AllTrimmed(maps: seq<(nat, string)>) {
    forall i :: 0 <= i < |maps| ==> Clean(maps[i].1)
  }

  ghost predicate OfferedValid(o: Offered) {
    && Word(o.kind) && Word(o.proto) && o.payloadTypes != []
    && (o.connectionIp.Some? ==> Word(o.connectionIp.value))
    && AllTrimmed(o.rtpmap) && AllTrimmed(o.fmtp)
    && (forall i :: 0 <= i < |o.crypto| ==> Clean(o.crypto[i]))
    && (o.direction.Some? ==> o.direction.value in {"sendrecv", "sendonly", "recvonly", "inactive"})
  }

  function Numbers(pts: seq<nat>): string
    requires pts != []
  {
    if |pts| == 1 then Str(pts[0]) else Str(pts[0]) + " " + Numbers(pts[1..])
  }

  function OfferLine(o: Offered): string
    requires o.payloadTypes != []
  {
    "m=" + (o.kind + " " + (Str(o.port) + " " + (o.proto + " " + Numbers(o.payloadTypes))))
  }

  function MapLines(prefix: string, maps: seq<(nat, string)>): seq<string> {
    if maps == [] then []
    else [prefix + (Str(maps[0].0) + " " + maps[0].1)] + MapLines(prefix, maps[1..])
  }

  function CryptoLines(crypto: seq<string>): seq<string> {
    if crypto == [] then [] else ["a=crypto:" + crypto[0]] + CryptoLines(crypto[1..])
  }

  function OptionalLine(prefix: string, text: Option<string>): seq<string> {
    if text.None? then [] else [prefix + text.value]
  }

  function OfferLines(o: Offered): seq<string>
    requires o.payloadTypes != []
  {
    [OfferLine(o)] + (OptionalLine("c=IN IP4 ", o.connectionIp) +
      (MapLines("a=rtpmap:", o.rtpmap) + (MapLines("a=fmtp:", o.fmtp) +
        (CryptoLines(o.crypto) + OptionalLine("a=", o.direction)))))
  }

  // ----- what it says -----

  /** A later line for the same payload type replaces an earlier one. */
  function Mappings(m: map<int, string>, maps: seq<(nat, string)>): map<int, string>
    decreases |maps|
  {
    if maps == [] then m else Mappings(m[maps[0].0 := maps[0].1], maps[1..])
  }

  function ValueOr(text: Option<string>, default: string): string {
    if text.Some? then text.value else default
  }

  function Said(o: Offered, sessionIp: string): Media {
    Media(o.kind, o.port, o.proto, o.payloadTypes, ValueOr(o.connectionIp, sessionIp),
          Mappings(map[], o.rtpmap), Mappings(map[], o.fmtp), o.crypto, ValueOr(o.direction, ""))
  }

  // ----- line by line -----

  lemma {:induction false} NumbersAreWords(pts: seq<nat>)
    requires pts != []
    ensures Payloads(Words(Numbers(pts))) == pts && Words(Numbers(pts)) != []
  {
    StrIsWord(pts[0]);
    PayloadOfStr(pts[0]);
    hide Words, Str, Int, AllDigits, Payloads, Word;
    if |pts| == 1 {
      WordsOfWord(Str(pts[0]));
    } else {
      FirstWord(Str(pts[0]), Numbers(pts[1..]));
      NumbersAreWords(pts[1..]);
      PayloadsSplit(Str(pts[0]), Words(Numbers(pts[1..])));
    }
  }

  lemma PayloadsSplit(word: string, rest: seq<string>)
    ensures Payloads([word] + rest) == Payloads([word]) + Payloads(rest)
  {
    assert ([word] + rest)[1..] == rest && [word][1..] == [];
    assert Payloads([]) == [];
    hide Int, AllDigits;
  }

  lemma ThreeWordsFirst(a: string, b: string, c: string, rest: string)
    requires Word(a) && Word(b) && Word(c)
    ensures Words(a + " " + (b + " " + (c + " " + rest))) == [a, b, c] + Words(rest)
  {
    hide *;
    FirstWord(a, b + " " + (c + " " + rest));
    FirstWord(b, c + " " + rest);
    FirstWord(c, rest);
  }

  lemma OfferWords(o: Offered)
    requires OfferedValid(o)
    ensures var numbers := Words(Numbers(o.payloadTypes));
            && Words(OfferLine(o)[2..]) == [o.kind, Str(o.port), o.proto] + numbers
            && Payloads(numbers) == o.payloadTypes && numbers != []
  {
    StrIsWord(o.port);
    assert Word(o.kind) && Word(o.proto);
    NumbersAreWords(o.payloadTypes);
    hide Words, Str, Word, Payloads, Numbers;
    ThreeWordsFirst(o.kind, Str(o.port), o.proto, Numbers(o.payloadTypes));
    assert OfferLine(o)[2..] == o.kind + " " + (Str(o.port) + " " + (o.proto + " " + Numbers(o.payloadTypes)));
  }

  lemma MediaFromWords(s: Session, line: string, o: Offered, numbers: seq<string>)
    requires |line| >= 2 && Words(line[2..]) == [o.kind, Str(o.port), o.proto] + numbers
    requires numbers != [] && Payloads(numbers) == o.payloadTypes
    ensures ApplyMedia(s, line) == Parsed(s.(medias := s.medias +
              [Media(o.kind, o.port, o.proto, o.payloadTypes, s.sessionIp, map[], map[], [], "")]))
  {
    var parts := Words(line[2..]);
    assert parts[3..] == numbers;
    IntOfStr(o.port);
    hide Words, Str, Int, Payloads;
  }

  lemma OfferLineReads(s: Session, o: Offered)
    requires OfferedValid(o)
    ensures ApplyLine(s, OfferLine(o)) == Parsed(s.(medias := s.medias +
              [Media(o.kind, o.port, o.proto, o.payloadTypes, s.sessionIp, map[], map[], [], "")]))
  {
    var line := OfferLine(o);
    assert line[0] == 'm';
    NotStarting(line, "c=", 0);
    Starting("m=", line[2..]);
    assert line == "m=" + line[2..];
    OfferWords(o);
    MediaFromWords(s, line, o, Words(Numbers(o.payloadTypes)));
    hide Find, Words, Str, StartsWith, OfferLine, Payloads, OfferedValid, ApplyMedia, Numbers;
  }

  lemma CryptoReads(s: Session, text: string)
    requires s.medias != [] && Trimmed(text)
    ensures ApplyLine(s, "a=crypto:" + text) == Parsed(UpdateLast(s, Last(s).(crypto := Last(s).crypto + [text])))
  {
    var line := "a=crypto:" + text;
    assert line[2] == 'c';
    NotStarting(line, "a=rtpmap:", 2);
    NotStarting(line, "a=fmtp:", 2);
    Starting("a=crypto:", text);
    AttributeLine(s, line);
    StripIsTrimmed(text);
    assert |"a=crypto:"| == 9;
    hide StartsWith, Attribute, Strip, ApplyLine, Trimmed;
  }

  lemma WordIsRightTrimmed(w: string)
    requires Word(w)
    ensures TrimRight(w) == w
  {
  }

  lemma DirectionsAreWords(d: string)
    requires d in {"sendrecv", "sendonly", "recvonly", "inactive"}
    ensures Word(d) && d in DIRECTIONS && |d| == 8 && d[0] in {'s', 'r', 'i'} && d[1] != 't'
  {
    assert DIRECTIONS[0] == "sendrecv" && DIRECTIONS[1] == "sendonly";
    assert DIRECTIONS[2] == "recvonly" && DIRECTIONS[3] == "inactive";
  }

  /** All four directions are understood, the two that begin like an rtpmap line included. */
  lemma EachDirectionReads(s: Session, d: string)
    requires s.medias != [] && d in {"sendrecv", "sendonly", "recvonly", "inactive"}
    ensures ApplyLine(s, "a=" + d) == Parsed(UpdateLast(s, Last(s).(direction := d)))
  {
    var line := "a=" + d;
    DirectionsAreWords(d);
    WordIsRightTrimmed(d);
    assert line[2] == d[0] && line[3] == d[1];
    NotStarting(line, "a=rtpmap:", 3);
    NotStarting(line, "a=fmtp:", 2);
    NotStarting(line, "a=crypto:", 2);
    Starting("a=", d);
    AttributeLine(s, line);
    hide StartsWith, TrimRight, ApplyLine, Attribute, Word;
  }

  // ----- list by list -----

  lemma {:induction false} RtpmapLinesRead(before: Session, m: Media, maps: seq<(nat, string)>, rest: seq<string>)
    requires AllTrimmed(maps)
    ensures ApplyLines(before.(medias := before.medias + [m]), MapLines("a=rtpmap:", maps) + rest) ==
            ApplyLines(before.(medias := before.medias + [m.(rtpmap := Mappings(m.rtpmap, maps))]), rest)
    decreases |maps|
  {
    hide ApplyLine, ApplyLines, UpdateLast, Last, OneLine, Trimmed;
    if maps == [] {
      assert [] + rest == rest;
    } else {
      var (pt, text) := maps[0];
      var n := m.(rtpmap := m.rtpmap[pt := text]);
      MapReads(before.(medias := before.medias + [m]), pt, text);
      UpdatedLast(before, m, n);
      RtpmapLinesRead(before, n, maps[1..], rest);
      LineThenRest(before.(medias := before.medias + [m]), "a=rtpmap:" + (Str(pt) + " " + text),
                   MapLines("a=rtpmap:", maps[1..]), rest);
    }
  }

  lemma {:induction false} FmtpLinesRead(before: Session, m: Media, maps: seq<(nat, string)>, rest: seq<string>)
    requires AllTrimmed(maps)
    ensures ApplyLines(before.(medias := before.medias + [m]), MapLines("a=fmtp:", maps) + rest) ==
            ApplyLines(before.(medias := before.medias + [m.(fmtp := Mappings(m.fmtp, maps))]), rest)
    decreases |maps|
  {
    hide ApplyLine, ApplyLines, UpdateLast, Last, OneLine, Trimmed;
    if maps == [] {
      assert [] + rest == rest;
    } else {
      var (pt, text) := maps[0];
      var n := m.(fmtp := m.fmtp[pt := text]);
      FmtpReads(before.(medias := before.medias + [m]), pt, text);
      UpdatedLast(before, m, n);
      FmtpLinesRead(before, n, maps[1..], rest);
      LineThenRest(before.(medias := before.medias + [m]), "a=fmtp:" + (Str(pt) + " " + text),
                   MapLines("a=fmtp:", maps[1..]), rest);
    }
  }

  lemma {:induction false} CryptoLinesRead(before: Session, m: Media, crypto: seq<string>, rest: seq<string>)
    requires forall i :: 0 <= i < |crypto| ==> Clean(crypto[i])
    ensures ApplyLines(before.(medias := before.medias + [m]), CryptoLines(crypto) + rest) ==
            ApplyLines(before.(medias := before.medias + [m.(crypto := m.crypto + crypto)]), rest)
    decreases |crypto|
  {
    hide ApplyLine, ApplyLines, UpdateLast, Last, OneLine, Trimmed;
    if crypto == [] {
      assert [] + rest == rest && m.crypto + [] == m.crypto;
    } else {
      var n := m.(crypto := m.crypto + [crypto[0]]);
      CryptoReads(before.(medias := before.medias + [m]), crypto[0]);
      UpdatedLast(before, m, n);
      CryptoLinesRead(before, n, crypto[1..], rest);
      assert m.crypto + [crypto[0]] + crypto[1..] == m.crypto + crypto;
      LineThenRest(before.(medias := before.medias + [m]), "a=crypto:" + crypto[0], CryptoLines(crypto[1..]), rest);
    }
  }

  lemma LineThenRest(s: Session, line: string, more: seq<string>, rest: seq<string>)
    requires ApplyLine(s, line).Parsed?
    ensures ApplyLines(s, [line] + more + rest) == ApplyLines(ApplyLine(s, line).sdp, more + rest)
  {
    assert [line] + more + rest == [line] + (more + rest);
    hide ApplyLine, ApplyLines;
    FirstLine(s, line, more + rest);
  }

  lemma AddressLineReads(before: Session, m: Media, ip: Option<string>, rest: seq<string>)
    requires ip.Some? ==> Word(ip.value)
    ensures ApplyLines(before.(medias := before.medias + [m]), OptionalLine("c=IN IP4 ", ip) + rest) ==
            ApplyLines(before.(medias := before.medias + [m.(connectionIp := ValueOr(ip, m.connectionIp))]), rest)
  {
    hide ApplyLine, ApplyLines, UpdateLast, Last, Word;
    if ip.None? {
      assert [] + rest == rest;
    } else {
      var s := before.(medias := before.medias + [m]);
      ConnectionReads(s, ip.value);
      UpdatedLast(before, m, m.(connectionIp := ip.value));
      FirstLine(s, "c=IN IP4 " + ip.value, rest);
    }
  }

  lemma DirectionLineReads(before: Session, m: Media, d: Option<string>)
    requires d.Some? ==> d.value in {"sendrecv", "sendonly", "recvonly", "inactive"}
    ensures ApplyLines(before.(medias := before.medias + [m]), OptionalLine("a=", d)) ==
            Parsed(before.(medias := before.medias + [m.(direction := ValueOr(d, m.direction))]))
  {
    hide ApplyLine, UpdateLast, Last;
    if d.Some? {
      var s := before.(medias := before.medias + [m]);
      EachDirectionReads(s, d.value);
      UpdatedLast(before, m, m.(direction := d.value));
      OneLineOnly(s, "a=" + d.value);
    }
  }

  /** One medium of an offer, with all its lines, is read back as exactly what it says. */
  lemma OfferReads(s: Session, o: Offered)
    requires OfferedValid(o)
    ensures ApplyLines(s, OfferLines(o)) == Parsed(s.(medias := s.medias + [Said(o, s.sessionIp)]))
  {
    var direction := OptionalLine("a=", o.direction);
    var crypto := CryptoLines(o.crypto) + direction;
    var fmtp := MapLines("a=fmtp:", o.fmtp) + crypto;
    var rtpmap := MapLines("a=rtpmap:", o.rtpmap) + fmtp;
    var m := Media(o.kind, o.port, o.proto, o.payloadTypes, s.sessionIp, map[], map[], [], "");
    OfferLineReads(s, o);
    assert AllTrimmed(o.rtpmap) && AllTrimmed(o.fmtp);
    hide ApplyLine, ApplyLines, AllTrimmed, OfferLine, MapLines, CryptoLines, OptionalLine, Word, Clean, Mappings;
    FirstLine(s, OfferLine(o), OptionalLine("c=IN IP4 ", o.connectionIp) + rtpmap);
    AddressLineReads(s, m, o.connectionIp, rtpmap);
    var m1 := m.(connectionIp := ValueOr(o.connectionIp, s.sessionIp));
    RtpmapLinesRead(s, m1, o.rtpmap, fmtp);
    var m2 := m1.(rtpmap := Mappings(map[], o.rtpmap));
    FmtpLinesRead(s, m2, o.fmtp, crypto);
    var m3 := m2.(fmtp := Mappings(map[], o.fmtp));
    CryptoLinesRead(s, m3, o.crypto, direction);
    assert [] + o.crypto == o.crypto;
    DirectionLineReads(s, m3.(crypto := o.crypto), o.direction);
  }

  // ----- several media -----

  function AllOfferLines(offers: seq<Offered>): seq<string>
    requires forall i :: 0 <= i < |offers| ==> offers[i].payloadTypes != []
  {
    if offers == [] then [] else OfferLines(offers[0]) + AllOfferLines(offers[1..])
  }

  function AllSaid(offers: seq<Offered>, sessionIp: string): seq<Media> {
    if offers == [] then [] else [Said(offers[0], sessionIp)] + AllSaid(offers[1..], sessionIp)
  }

  ghost predicate AllOffersValid(offers: seq<Offered>) {
    forall i :: 0 <= i < |offers| ==> OfferedValid(offers[i])
  }

  lemma {:induction false} OffersRead(s: Session, offers: seq<Offered>)
    requires AllOffersValid(offers)
    ensures ApplyLines(s, AllOfferLines(offers)) == Parsed(s.(medias := s.medias + AllSaid(offers, s.sessionIp)))
    decreases |offers|
  {
    hide ApplyLine, OfferLines, Said;
    if offers == [] {
      assert s.medias + [] == s.medias;
    } else {
      assert OfferedValid(offers[0]);
      var t := s.(medias := s.medias + [Said(offers[0], s.sessionIp)]);
      OfferReads(s, offers[0]);
      assert AllOffersValid(offers[1..]);
      OffersRead(t, offers[1..]);
      hide ApplyLines, OfferedValid;
      ApplyLinesAppend(s, OfferLines(offers[0]), AllOfferLines(offers[1..]));
      assert s.medias + [Said(offers[0], s.sessionIp)] + AllSaid(offers[1..], s.sessionIp) ==
             s.medias + AllSaid(offers, s.sessionIp);
    }
  }

  // ----- as text -----

  lemma SpacedIsOneLine(a: string, b: string)
    requires OneLine(a) && OneLine(b)
    ensures OneLine(a + " " + b)
  {
    assert OneLine(" ");
    hide LineBreak;
    OneLineJoins(a, " ");
    OneLineJoins(a + " ", b);
  }

  lemma {:induction false} NumbersAreOneLine(pts: seq<nat>)
    requires pts != []
    ensures OneLine(Numbers(pts))
  {
    StrIsWord(pts[0]);
    hide Str, Word, OneLine;
    if |pts| > 1 {
      NumbersAreOneLine(pts[1..]);
      SpacedIsOneLine(Str(pts[0]), Numbers(pts[1..]));
    }
  }

  lemma PrefixesAreOneLine()
    ensures OneLine("m=") && OneLine("a=") && OneLine("c=IN IP4 ")
    ensures OneLine("a=rtpmap:") && OneLine("a=fmtp:") && OneLine("a=crypto:")
  {
  }

  lemma OfferLineIsOneLine(o: Offered)
    requires OfferedValid(o)
    ensures OneLine(OfferLine(o))
  {
    assert Word(o.kind) && Word(o.proto);
    WordIsOneLine(o.kind);
    WordIsOneLine(o.proto);
    StrIsWord(o.port);
    NumbersAreOneLine(o.payloadTypes);
    PrefixesAreOneLine();
    hide Str, Word, OneLine, Numbers, OfferedValid;
    SpacedIsOneLine(o.proto, Numbers(o.payloadTypes));
    SpacedIsOneLine(Str(o.port), o.proto + " " + Numbers(o.payloadTypes));
    SpacedIsOneLine(o.kind, Str(o.port) + " " + (o.proto + " " + Numbers(o.payloadTypes)));
    OneLineJoins("m=", o.kind + " " + (Str(o.port) + " " + (o.proto + " " + Numbers(o.payloadTypes))));
  }

  lemma {:induction false} MapLinesAreOneLine(prefix: string, maps: seq<(nat, string)>)
    requires OneLine(prefix) && AllTrimmed(maps)
    ensures AllOneLine(MapLines(prefix, maps))
  {
    if maps != [] {
      var (pt, text) := maps[0];
      assert Clean(text);
      StrIsWord(pt);
      hide Str, Word, OneLine, Trimmed;
      SpacedIsOneLine(Str(pt), text);
      OneLineJoins(prefix, Str(pt) + " " + text);
      MapLinesAreOneLine(prefix, maps[1..]);
    }
  }

  lemma {:induction false} CryptoLinesAreOneLine(crypto: seq<string>)
    requires forall i :: 0 <= i < |crypto| ==> Clean(crypto[i])
    ensures AllOneLine(CryptoLines(crypto))
  {
    if crypto != [] {
      PrefixesAreOneLine();
      hide OneLine, Trimmed;
      OneLineJoins("a=crypto:", crypto[0]);
      CryptoLinesAreOneLine(crypto[1..]);
    }
  }

  lemma OptionalLineIsOneLine(prefix: string, text: Option<string>)
    requires OneLine(prefix) && (text.Some? ==> Word(text.value))
    ensures AllOneLine(OptionalLine(prefix, text))
  {
    if text.Some? {
      WordIsOneLine(text.value);
      OneLineJoins(prefix, text.value);
    }
    hide OneLine, Word;
  }

  lemma OfferLinesAreOneLine(o: Offered)
    requires OfferedValid(o)
    ensures AllOneLine(OfferLines(o))
  {
    PrefixesAreOneLine();
    if o.direction.Some? {
      DirectionsAreWords(o.direction.value);
    }
    hide OneLine, OfferLine, MapLines, CryptoLines, OptionalLine, Word, Clean;
    OfferLineIsOneLine(o);
    MapLinesAreOneLine("a=rtpmap:", o.rtpmap);
    MapLinesAreOneLine("a=fmtp:", o.fmtp);
    CryptoLinesAreOneLine(o.crypto);
    OptionalLineIsOneLine("c=IN IP4 ", o.connectionIp);
    OptionalLineIsOneLine("a=", o.direction);
  }

  lemma {:induction false} AllOfferLinesAreOneLine(offers: seq<Offered>)
    requires AllOffersValid(offers)
    ensures AllOneLine(AllOfferLines(offers))
  {
    hide OfferLines, OneLine;
    if offers != [] {
      assert OfferedValid(offers[0]);
      OfferLinesAreOneLine(offers[0]);
      AllOfferLinesAreOneLine(offers[1..]);
      hide OfferedValid;
    }
  }

  /** An offer of any media, each with any payload types and lines, parses to exactly what it says. */
  lemma OfferReadsBack(offers: seq<Offered>, username: string, sid: nat, ip: string)
    requires AllOffersValid(offers) && OneLine(username) && Word(ip)
    ensures Parse(Terminated(Head(username, sid, ip) + AllOfferLines(offers))) ==
            Parsed(Session(ip, AllSaid(offers, ip)))
  {
    HeadIsOneLine(username, sid, ip);
    AllOfferLinesAreOneLine(offers);
    HeadReads(username, sid, ip);
    OffersRead(Session(ip, []), offers);
    var (h, a) := (Head(username, sid, ip), AllOfferLines(offers));
    hide OfferedValid, OneLine, Word, SplitLines, ApplyLines, Head, AllOfferLines, AllSaid;
    SplitTerminated(h + a);
    ApplyLinesAppend(Blankest, h, a);
    assert [] + AllSaid(offers, ip) == AllSaid(offers, ip);
  }

  // ----- what is answered, in the offer's own words -----

  /** The same letters, capitals and small ones taken as one. */
  predicate SameLetters(a: string, b: string) {
    && |a| == |b|
    && forall i :: 0 <= i < |a| ==> SameLetter(a[i], b[i])
  }

  predicate SameLetter(a: char, b: char) {
    a == b || ('A' <= a <= 'Z' && b as int == a as int + 32) || ('A' <= b <= 'Z' && a as int == b as int + 32)
  }

  lemma {:induction false} LowerAt(s: string, i: nat)
    requires i < |s|
    ensures Lower(s)[i] == if 'A' <= s[i] <= 'Z' then s[i] + 32 as char else s[i]
  {
    if i > 0 {
      LowerAt(s[1..], i - 1);
    }
  }

  lemma LowerIsSameLetters(a: string, b: string)
    ensures Lower(a) == Lower(b) <==> SameLetters(a, b)
  {
    forall i | 0 <= i < |a| && i < |b| ensures Lower(a)[i] == Lower(b)[i] <==> SameLetter(a[i], b[i]) {
      LowerAt(a, i);
      LowerAt(b, i);
    }
    hide Lower, SameLetter;
    if SameLetters(a, b) {
      assert Lower(a) == Lower(b);
    }
    if Lower(a) == Lower(b) {
      assert |Lower(a)| == |a| == |b|;
    }
  }

  lemma {:induction false} LowerSlice(s: string, i: nat, j: nat)
    requires i <= j <= |s|
    ensures Lower(s)[i..j] == Lower(s[i..j])
  {
    forall k | 0 <= k < j - i ensures Lower(s)[i..j][k] == Lower(s[i..j])[k] {
      LowerAt(s, i + k);
      LowerAt(s[i..j], k);
    }
  }

  predicate OccursAt(s: string, part: string, i: nat) {
    i + |part| <= |s| && s[i..i + |part|] == part
  }

  lemma OccursBehindFirst(s: string, part: string, i: nat)
    requires s != ""
    ensures OccursAt(s[1..], part, i) <==> OccursAt(s, part, i + 1)
    ensures OccursAt(s, part, 0) <==> StartsWith(s, part)
  {
    if i + |part| <= |s[1..]| {
      assert s[1..][i..i + |part|] == s[i + 1..i + 1 + |part|];
    }
  }

  /** A search finds the first place of the text, and finds none exactly if there is none. */
  lemma {:induction false} FindIsFirst(s: string, part: string)
    ensures match Find(s, part)
            case None => forall i: nat :: !OccursAt(s, part, i)
            case Some(at) => OccursAt(s, part, at) && forall i: nat :: i < at ==> !OccursAt(s, part, i)
  {
    if s != "" {
      forall i: nat ensures OccursAt(s[1..], part, i) <==> OccursAt(s, part, i + 1) {
        OccursBehindFirst(s, part, i);
      }
      OccursBehindFirst(s, part, 0);
      FindIsFirst(s[1..], part);
      hide OccursAt, StartsWith;
      forall i: nat | i > 0 ensures OccursAt(s, part, i) <==> OccursAt(s[1..], part, i - 1) {
        assert OccursAt(s[1..], part, i - 1) <==> OccursAt(s, part, i - 1 + 1);
      }
    }
  }

  /** The codec's name stands somewhere in the text, in capitals or not. */
  ghost predicate Mentions(text: string, codec: string) {
    exists i: nat :: MentionedAt(text, codec, i)
  }

  predicate MentionedAt(text: string, codec: string, i: nat) {
    i + |codec| <= |text| && SameLetters(text[i..i + |codec|], codec)
  }

  lemma MentionedIsLower(text: string, codec: string, i: nat)
    ensures OccursAt(Lower(text), Lower(codec), i) <==> MentionedAt(text, codec, i)
  {
    if i + |codec| <= |text| {
      LowerSlice(text, i, i + |codec|);
      LowerIsSameLetters(text[i..i + |codec|], codec);
    }
    hide SameLetters, Lower;
  }

  /** A payload type speaks a codec exactly if its rtpmap line mentions it. */
  lemma SpeaksExactly(m: Media, pt: int, codec: string)
    requires codec != ""
    ensures Speaks(m, pt, codec) <==> pt in m.rtpmap && Mentions(m.rtpmap[pt], codec)
  {
    var text := MapOf(m, pt);
    FindIsFirst(Lower(text), Lower(codec));
    forall i: nat ensures OccursAt(Lower(text), Lower(codec), i) <==> MentionedAt(text, codec, i) {
      MentionedIsLower(text, codec, i);
    }
    assert pt !in m.rtpmap ==> forall i: nat :: !MentionedAt(text, codec, i);
    hide Find, Lower, OccursAt, MentionedAt;
  }

  /**
   * The answered payload type is the first of the best-ranked ones in the first description that offers
   * anything, with the rtpmap, fmtp and protocol that this description gives for it.
   */
  lemma ChosenAsOffered(medias: seq<Media>, kind: string, preferred: seq<string>) returns (k: nat, i: nat)
    requires Preferred(medias, kind, preferred).Some?
    ensures FirstOffer(medias, kind, k) && BestAt(medias[k], i, preferred)
    ensures var (c, m) := (Preferred(medias, kind, preferred).value, medias[k]);
            && c.pt == m.payloadTypes[i]
            && c.rtpmap == (if c.pt in m.rtpmap then m.rtpmap[c.pt] else "")
            && (c.fmtp.Some? <==> c.pt in m.fmtp) && (c.fmtp.Some? ==> c.fmtp.value == m.fmtp[c.pt])
            && c.proto == (if m.proto != "" then m.proto else "RTP/AVP")
  {
    PreferredIsBest(medias, kind, preferred);
    var c := Preferred(medias, kind, preferred).value;
    k, i :| FirstOffer(medias, kind, k) && BestAt(medias[k], i, preferred) &&
            c == ChoiceOf(medias[k], medias[k].payloadTypes[i]);
  }
}
