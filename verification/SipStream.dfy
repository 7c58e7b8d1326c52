// SipStream: reading frames from a socket that delivers the bytes in arbitrary pieces.
module SipStream {
  import opened Prelude
  import opened SipText

  // ----- many messages on one stream -----

  function SerializeAll(messages: seq<Message>): seq<byte> {
    if messages == [] then [] else Serialize(messages[0]) + SerializeAll(messages[1..])
  }

  function FramesOf(messages: seq<Message>): seq<Frame> {
    if messages == [] then [] else [FrameOf(messages[0])] + FramesOf(messages[1..])
  }

  ghost predicate AllValid(messages: seq<Message>) {
    forall i :: 0 <= i < |messages| ==> ValidMessage(messages[i])
  }

  // ----- provisional responses -----

  // "SIP/2.0 "
  const RESPONSE_PREFIX: seq<byte> := [83, 73, 80, 47, 50, 46, 48, 32]

  function FirstWord(s: seq<byte>): seq<byte> {
    if s == [] || BlankByte(s[0]) then [] else [s[0]] + FirstWord(s[1..])
  }

  /** status_code(): the number in the second word of a response's start line. */
  function StatusCode(f: Frame): Option<nat> {
    if !BytesStartWith(f.startLine, RESPONSE_PREFIX) then None
    else
      var word := FirstWord(StripLeft(f.startLine[8..]));
      if word == [] || DigitPrefix(word) != word then None
      else
        var digits := DigitPrefix(word);
        Some(NatOf(digits))
  }

  predicate Provisional(f: Frame) {
    StatusCode(f).Some? && StatusCode(f).value / 100 == 1
  }

  /** "SIP/2.0 407 Proxy Authentication Required" and the like (section 7.2 of RFC 3261). */
  function StatusLine(code: nat, reason: seq<byte>): seq<byte> {
    [83, 73, 80, 47, 50, 46, 48, 32] + (Dec(code) + ([32] + reason))
  }

  lemma {:induction false} FirstWordEnds(word: seq<byte>, rest: seq<byte>)
    requires forall i :: 0 <= i < |word| ==> !BlankByte(word[i])
    ensures FirstWord(word + ([32] + rest)) == word
  {
    var s := word + ([32] + rest);
    if word == [] {
      assert s[0] == 32;
    } else {
      assert s[1..] == word[1..] + ([32] + rest);
      FirstWordEnds(word[1..], rest);
    }
  }

  /** The code of a status line is the number in it, and 100 to 199 are what is skipped. */
  lemma StatusLineIsRead(f: Frame, code: nat, reason: seq<byte>)
    requires f.startLine == StatusLine(code, reason)
    ensures StatusCode(f) == Some(code)
    ensures Provisional(f) <==> 100 <= code <= 199
  {
    NatOfDec(code);
    var (word, rest) := (Dec(code), Dec(code) + ([32] + reason));
    assert f.startLine[..8] == RESPONSE_PREFIX && f.startLine[8..] == rest;
    assert rest[0] == word[0] && DigitByte(word[0]);
    FirstWordEnds(word, reason);
    DigitPrefixOfDigits(word);
    assert StripLeft(rest) == rest;
    hide FirstWord, DigitPrefix, StripLeft, NatOf, Dec, BytesStartWith;
  }

  lemma {:induction false} LeftStripped(s: seq<byte>) returns (blanks: nat)
    ensures blanks <= |s| && StripLeft(s) == s[blanks..]
    ensures forall i :: 0 <= i < blanks ==> BlankByte(s[i])
  {
    if s != [] && BlankByte(s[0]) {
      var more := LeftStripped(s[1..]);
      blanks := more + 1;
      assert forall i :: 0 < i < blanks ==> s[i] == s[1..][i - 1];
    } else {
      blanks := 0;
    }
  }

  lemma {:induction false} FirstWordIs(s: seq<byte>)
    ensures FirstWord(s) <= s && forall i :: 0 <= i < |FirstWord(s)| ==> !BlankByte(s[i])
    ensures |FirstWord(s)| == |s| || BlankByte(s[|FirstWord(s)|])
  {
    if s != [] && !BlankByte(s[0]) {
      FirstWordIs(s[1..]);
    }
  }

  /** A code is read from nothing but a status line: its second word is the code, in digits. */
  lemma CodeMeansStatusLine(f: Frame) returns (from: nat, digits: seq<byte>)
    requires StatusCode(f).Some?
    ensures digits != [] && (forall i :: 0 <= i < |digits| ==> 48 <= digits[i] <= 57)
    ensures NatOf(digits) == StatusCode(f).value
    ensures var s := f.startLine;
            && 8 <= from && from + |digits| <= |s| && s[..8] == [83, 73, 80, 47, 50, 46, 48, 32]
            && s[from..from + |digits|] == digits
            && (forall i :: 8 <= i < from ==> BlankByte(s[i]))
            && (from + |digits| == |s| || BlankByte(s[from + |digits|]))
  {
    var s := f.startLine;
    var rest := s[8..];
    var blanks := LeftStripped(rest);
    FirstWordIs(StripLeft(rest));
    digits := FirstWord(StripLeft(rest));
    from := 8 + blanks;
    var stripped := StripLeft(rest);
    assert DigitPrefix(digits) == digits;
    hide StripLeft, FirstWord, DigitPrefix, NatOf, BlankByte;
    assert rest[blanks..] == s[from..];
    assert forall i :: 8 <= i < from ==> s[i] == rest[i - 8];
  }

  /** A request, whose verb is written in capitals, is never skipped. */
  lemma RequestIsKept(f: Frame, verb: seq<byte>, uri: seq<byte>)
    requires f.startLine == RequestLine(verb, uri) && forall i :: 0 <= i < |verb| ==> 65 <= verb[i] <= 90
    ensures StatusCode(f).None? && !Provisional(f)
  {
    var at := if |verb| < 3 then |verb| else 3;
    assert f.startLine[at] != RESPONSE_PREFIX[at];
    assert |f.startLine| >= 8 ==> f.startLine[..8][at] == f.startLine[at];
  }

  /** The first frame that is not to be skipped, and where it ends. */
  function FirstKept(skip: Frame -> bool, avail: seq<byte>): (r: Option<(Frame, nat)>)
    ensures r.Some? ==> r.value.1 <= |avail| && !skip(r.value.0)
    decreases |avail|
  {
    match ParseFrame(avail)
    case None => None
    case Some((frame, n)) =>
      if !skip(frame) then Some((frame, n))
      else
        match FirstKept(skip, avail[n..])
        case None => None
        case Some((final, m)) => Some((final, n + m))
  }

  /** Any number of skipped messages in front of a kept one make no difference to it. */
  lemma {:induction false} SkippedAreSkipped(skip: Frame -> bool, skipped: seq<Message>, m: Message, rest: seq<byte>)
    requires AllValid(skipped) && ValidMessage(m)
    requires forall i :: 0 <= i < |skipped| ==> skip(FrameOf(skipped[i]))
    requires !skip(FrameOf(m))
    ensures FirstKept(skip, SerializeAll(skipped) + (Serialize(m) + rest)) ==
            Some((FrameOf(m), |SerializeAll(skipped)| + |Serialize(m)|))
  {
    hide ParseFrame, FrameOf, Serialize;
    var avail := SerializeAll(skipped) + (Serialize(m) + rest);
    if skipped == [] {
      assert avail == Serialize(m) + rest;
      ParseInvertsSerialize(m, rest);
    } else {
      var (first, tail) := (Serialize(skipped[0]), SerializeAll(skipped[1..]) + (Serialize(m) + rest));
      assert avail == first + tail;
      assert ParseFrame(avail) == Some((FrameOf(skipped[0]), |first|)) by {
        ParseInvertsSerialize(skipped[0], tail);
      }
      assert avail[|first|..] == tail;
      SkippedAreSkipped(skip, skipped[1..], m, rest);
    }
  }

  /** Where the head of a frame ends decides what the frame is, once enough bytes have followed. */
  lemma HeadDecides(buf: seq<byte>, later: seq<byte>)
    requires FindBytes(BLANK_LINE, buf).Some?
    ensures var sep := FindBytes(BLANK_LINE, buf).value;
            var rest := buf[sep + 4..] + later;
            var length := ContentLength(buf[..sep]);
            && (buf + later)[sep + 4..] == rest
            && ParseFrame(buf + later) ==
               if |rest| < length then None
               else Some((FrameFrom(buf[..sep], rest[..length]), sep + 4 + length))
  {
    hide FindBytes, ContentLength, FrameFrom;
    FindIsStable(BLANK_LINE, buf, later);
    var sep := FindBytes(BLANK_LINE, buf).value;
    var length := ContentLength(buf[..sep]);
    var all := buf + later;
    assert all[..sep] == buf[..sep];
    assert all[sep + 4..] == buf[sep + 4..] + later;
    if |all| >= sep + 4 + length {
      assert all[sep + 4..sep + 4 + length] == all[sep + 4..][..length];
    }
  }

  lemma NoHeadNoFrame(buf: seq<byte>)
    requires FindBytes(BLANK_LINE, buf).None?
    ensures ParseFrame(buf).None?
  {
  }

  // ----- the reader -----

  datatype Received = Received(frame: Frame) | SocketClosed

  class Stream {
    /** What the next calls of recv will return; then the peer has closed. */
    var incoming: seq<seq<byte>>
    var leftover: seq<byte>

    ghost predicate Valid()
      reads this
    {
      forall i :: 0 <= i < |incoming| ==> incoming[i] != []
    }

    /** Every byte that has arrived or will, and was not consumed by a frame yet. */
    ghost function Available(): seq<byte>
      reads this
    {
      leftover + Concat(incoming)
    }

    constructor (incoming: seq<seq<byte>>)
      requires forall i :: 0 <= i < |incoming| ==> incoming[i] != []
      ensures Valid() && Available() == Concat(incoming)
    {
      this.incoming := incoming;
      leftover := [];
    }

    /** socket.recv: an empty result means that the peer has closed. */
    method Recv() returns (chunk: seq<byte>)
      requires Valid()
      modifies this`incoming
      ensures Valid()
      ensures chunk + Concat(incoming) == Concat(old(incoming))
      ensures chunk == [] ==> incoming == [] && old(incoming) == []
      ensures chunk != [] ==> |incoming| < |old(incoming)|
    {
      if incoming == [] {
        chunk := [];
      } else {
        chunk := incoming[0];
        incoming := incoming[1..];
      }
    }

    /** The first loop of recv_frame: until the buffer holds a blank line. */
    method RecvHead() returns (buf: seq<byte>, closed: bool)
      requires Valid()
      modifies this`incoming
      ensures Valid() && buf + Concat(incoming) == old(Available())
      ensures if closed then incoming == [] && FindBytes(BLANK_LINE, buf).None? else FindBytes(BLANK_LINE, buf).Some?
    {
      buf := leftover;
      while FindBytes(BLANK_LINE, buf).None?
        invariant Valid() && buf + Concat(incoming) == old(Available())
        decreases |incoming|
      {
        var chunk := Recv();
        if chunk == [] {
          return buf, true;
        }
        buf := buf + chunk;
      }
      closed := false;
    }

    /** The second loop: until the body is complete. */
    method RecvBody(start: seq<byte>, length: nat) returns (rest: seq<byte>, closed: bool)
      requires Valid()
      modifies this`incoming
      ensures Valid() && rest + Concat(incoming) == start + Concat(old(incoming))
      ensures if closed then incoming == [] && |rest| < length else |rest| >= length
    {
      rest := start;
      while |rest| < length
        invariant Valid() && rest + Concat(incoming) == start + Concat(old(incoming))
        decreases |incoming|
      {
        var chunk := Recv();
        if chunk == [] {
          return rest, true;
        }
        rest := rest + chunk;
      }
      closed := false;
    }

    lemma DropTwice(s: seq<byte>, m: nat, n: nat)
      requires m + n <= |s|
      ensures s[m..][n..] == s[m + n..]
    {
    }

    /**
     * The next frame, however the bytes are cut.  If the peer closes first, everything received for
     * the unfinished frame is lost.
     */
    method RecvFrame() returns (r: Received)
      requires Valid()
      modifies this
      ensures Valid()
      ensures match ParseFrame(old(Available()))
        case Some((frame, n)) => r == Received(frame) && Available() == old(Available())[n..]
        case None => r == SocketClosed && incoming == [] && leftover == old(leftover)
    {
      hide FindBytes, ParseFrame, ContentLength, FrameFrom;
      ghost var all := Available();
      var buf, closed := RecvHead();
      if closed {
        assert buf + [] == buf;
        NoHeadNoFrame(buf);
        return SocketClosed;
      }
      HeadDecides(buf, Concat(incoming));
      var sep := FindBytes(BLANK_LINE, buf).value;
      var head := buf[..sep];
      var length := ContentLength(head);
      var rest;
      ghost var stream := buf[sep + 4..] + Concat(incoming);
      rest, closed := RecvBody(buf[sep + 4..], length);
      if closed {
        assert rest + [] == rest;
        return SocketClosed;
      }
      assert stream[..length] == rest[..length];
      leftover := rest[length..];
      assert leftover + Concat(incoming) == stream[length..];
      DropTwice(all, sep + 4, length);
      r := Received(FrameFrom(head, rest[..length]));
    }

    method RecvFinalResponse() returns (r: Received)
      requires Valid()
      modifies this
      ensures Valid()
      ensures match FirstKept(Provisional, old(Available()))
        case Some((frame, n)) => r == Received(frame) && Available() == old(Available())[n..]
        case None => r == SocketClosed
    {
      r := RecvKept(Provisional);
    }

    /** The loop of recv_final_response, for any choice of frames to skip. */
    method RecvKept(skip: Frame -> bool) returns (r: Received)
      requires Valid()
      modifies this
      ensures Valid()
      ensures match FirstKept(skip, old(Available()))
        case Some((frame, n)) => r == Received(frame) && Available() == old(Available())[n..]
        case None => r == SocketClosed
    {
      hide ParseFrame;
      ghost var all := Available();
      ghost var skipped := 0;
      r := RecvFrame();
      while r.Received? && skip(r.frame)
        invariant Valid() && skipped <= |all|
        invariant match ParseFrame(all[skipped..])
          case Some((frame, n)) => r == Received(frame) && Available() == all[skipped + n..]
          case None => r == SocketClosed
        invariant FirstKept(skip, all) ==
          match FirstKept(skip, all[skipped..]) { case None => None case Some((f, n)) => Some((f, skipped + n)) }
        decreases |all| - skipped
      {
        ghost var n := ParseFrame(all[skipped..]).value.1;
        assert all[skipped..][n..] == all[skipped + n..];
        skipped := skipped + n;
        r := RecvFrame();
        ghost var tail := all[skipped..];
        assert forall k :: 0 <= k <= |tail| ==> tail[k..] == all[skipped + k..];
      }
    }
  }

  /**
   * End to end: whatever the pieces in which the serialized messages arrive, reading as many frames
   * returns exactly the messages in order, and exactly the bytes behind them remain.
   */
  method ReceiveAll(s: Stream, ghost messages: seq<Message>, ghost behind: seq<byte>, count: nat)
    returns (frames: seq<Frame>)
    requires s.Valid() && AllValid(messages) && count == |messages|
    requires s.Available() == SerializeAll(messages) + behind
    modifies s
    ensures frames == FramesOf(messages) && s.Available() == behind
  {
    hide ParseFrame, FrameOf, Serialize;
    frames := [];
    ghost var todo := messages;
    while |frames| < count
      invariant s.Valid() && AllValid(todo) && |todo| == count - |frames|
      invariant s.Available() == SerializeAll(todo) + behind
      invariant frames + FramesOf(todo) == FramesOf(messages)
    {
      FirstOfMany(todo, behind);
      var r := s.RecvFrame();
      frames := frames + [r.frame];
      todo := todo[1..];
    }
    assert todo == [];
  }

  /** The codes of status lines, all provisional. */
  ghost predicate AreProvisional(messages: seq<Message>, codes: seq<nat>, reasons: seq<seq<byte>>) {
    && |codes| == |reasons| == |messages|
    && forall i :: 0 <= i < |messages| ==>
         100 <= codes[i] <= 199 && messages[i].startLine == StatusLine(codes[i], reasons[i])
  }

  /** Behind any number of 1xx responses, in any pieces, the final response is what is returned. */
  method ReceiveFinal(s: Stream, ghost before: seq<Message>, ghost codes: seq<nat>, ghost reasons: seq<seq<byte>>,
                      ghost final: Message, ghost code: nat, ghost reason: seq<byte>, ghost behind: seq<byte>)
    returns (r: Received)
    requires s.Valid() && AllValid(before) && AreProvisional(before, codes, reasons)
    requires ValidMessage(final) && final.startLine == StatusLine(code, reason) && !(100 <= code <= 199)
    requires s.Available() == SerializeAll(before) + (Serialize(final) + behind)
    modifies s
    ensures s.Valid() && s.Available() == behind
    ensures r == Received(FrameOf(final)) && StatusCode(r.frame) == Some(code)
  {
    hide ParseFrame, Serialize, StatusLine, StatusCode, Provisional;
    forall i | 0 <= i < |before| ensures Provisional(FrameOf(before[i])) {
      StatusLineIsRead(FrameOf(before[i]), codes[i], reasons[i]);
    }
    StatusLineIsRead(FrameOf(final), code, reason);
    SkippedAreSkipped(Provisional, before, final, behind);
    ghost var all := s.Available();
    r := s.RecvFinalResponse();
    assert all[|SerializeAll(before)| + |Serialize(final)|..] == behind;
  }

  lemma FirstOfMany(messages: seq<Message>, behind: seq<byte>)
    requires AllValid(messages) && messages != []
    ensures var all := SerializeAll(messages) + behind;
            var n := |Serialize(messages[0])|;
            && ParseFrame(all) == Some((FrameOf(messages[0]), n))
            && n <= |all| && all[n..] == SerializeAll(messages[1..]) + behind
  {
    var rest := SerializeAll(messages[1..]) + behind;
    assert SerializeAll(messages) + behind == Serialize(messages[0]) + rest;
    ParseInvertsSerialize(messages[0], rest);
  }
}
