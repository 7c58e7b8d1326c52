// One RTSP client connection: interleaved RTP packets and responses share the byte stream
// (section 10.12 of RFC 2326).
module RtspInterleave {
  import opened Prelude
  import opened Rtp
  import opened SipText

  const DOLLAR: byte := 36
  const MAX_WRITE_BUFFER_BYTES := 4 * 1024 * 1024

  // ----- what can be written -----

  datatype Item = Packet(channel: byte, data: seq<byte>) | Response(message: Message)

  predicate ValidItem(i: Item) {
    match i
    case Packet(_, data) => |data| <= 0xFFFF
    case Response(m) => ValidMessage(m) && m.startLine[0] != DOLLAR
  }

  /** A dollar sign, the channel, the length, and the packet. */
  function PacketFrame(channel: byte, data: seq<byte>): seq<byte>
    requires |data| <= 0xFFFF
  {
    [DOLLAR, channel] + U16(|data|) + data
  }

  /** The four bytes in front of a packet (section 10.12 of RFC 2326), and the packet. */
  predicate IsPacketFrame(b: seq<byte>, channel: byte, data: seq<byte>) {
    && |b| == 4 + |data| && b[0] == 36 && b[1] == channel && b[4..] == data
    && var (high: int, low: int) := (b[2], b[3]); 256 * high + low == |data|
  }

  lemma FrameIsPacketFrame(channel: byte, data: seq<byte>)
    requires |data| <= 65535
    ensures PacketFrame(channel, data) != [] && IsPacketFrame(PacketFrame(channel, data), channel, data)
  {
  }

  /** _send_response: a Content-Length is written only for a body. */
  function ResponseMessage(startLine: seq<byte>, headers: seq<seq<byte>>, body: seq<byte>): Message {
    Message(startLine, headers, body, body != [])
  }

  function Encode(i: Item): seq<byte>
    requires ValidItem(i)
  {
    match i
    case Packet(channel, data) => PacketFrame(channel, data)
    case Response(m) => Serialize(m)
  }

  function EncodeAll(items: seq<Item>): seq<byte>
    requires forall i :: 0 <= i < |items| ==> ValidItem(items[i])
  {
    if items == [] then [] else EncodeAll(items[..|items| - 1]) + Encode(items[|items| - 1])
  }

  // ----- what the client reads -----

  datatype Seen = SeenPacket(channel: byte, data: seq<byte>) | SeenResponse(frame: Frame)

  /** The first unit on the stream and its length. */
  function DecodeOne(s: seq<byte>): (r: Option<(Seen, nat)>)
    ensures r.Some? ==> 0 < r.value.1 <= |s|
  {
    if s == [] then None
    else if s[0] == DOLLAR then
      if |s| < 4 || |s| < 4 + FromU16(s[2], s[3]) then None
      else Some((SeenPacket(s[1], s[4..4 + FromU16(s[2], s[3])]), 4 + FromU16(s[2], s[3])))
    else
      match ParseFrame(s)
      case None => None
      case Some((frame, n)) => Some((SeenResponse(frame), n))
  }

  /** Every unit of a complete stream. */
  function Decode(s: seq<byte>): Option<seq<Seen>>
    decreases |s|
  {
    if s == [] then Some([])
    else
      match DecodeOne(s)
      case None => None
      case Some((first, n)) =>
        match Decode(s[n..])
        case None => None
        case Some(rest) => Some([first] + rest)
  }

  function View(i: Item): Seen {
    match i
    case Packet(channel, data) => SeenPacket(channel, data)
    case Response(m) => SeenResponse(FrameOf(m))
  }

  function Views(items: seq<Item>): seq<Seen> {
    if items == [] then [] else Views(items[..|items| - 1]) + [View(items[|items| - 1])]
  }

  lemma StartOfSerialized(m: Message)
    requires ValidMessage(m)
    ensures Serialize(m) != [] && Serialize(m)[0] == m.startLine[0]
  {
    JoinStartsWith(HeadLines(m));
  }

  /** One written unit is read back, whatever follows. */
  lemma DecodeOneOfEncode(i: Item, rest: seq<byte>)
    requires ValidItem(i)
    ensures DecodeOne(Encode(i) + rest) == Some((View(i), |Encode(i)|))
  {
    match i
    case Packet(channel, data) =>
      var s := Encode(i) + rest;
      assert s[2] == |data| / 256 && s[3] == |data| % 256;
      assert s[4..4 + |data|] == data;
    case Response(m) =>
      hide ParseFrame, Serialize, FrameOf;
      StartOfSerialized(m);
      assert (Serialize(m) + rest)[0] == m.startLine[0];
      ParseInvertsSerialize(m, rest);
  }

  /** A unit that is complete stays what it is when more bytes arrive. */
  lemma DecodeOneIsStable(s: seq<byte>, t: seq<byte>)
    requires DecodeOne(s).Some?
    ensures DecodeOne(s + t) == DecodeOne(s)
  {
    assert (s + t)[0] == s[0];
    if s[0] == DOLLAR {
      var n := FromU16(s[2], s[3]);
      assert (s + t)[4..4 + n] == s[4..4 + n];
    } else {
      ParseIsStable(s, t);
    }
  }

  /** Appending one unit to a decodable stream appends its view. */
  lemma {:induction false} DecodeAppends(s: seq<byte>, i: Item)
    requires ValidItem(i) && Decode(s).Some?
    ensures Decode(s + Encode(i)) == Some(Decode(s).value + [View(i)])
    decreases |s|
  {
    hide DecodeOne, Encode, View;
    var e := Encode(i);
    if s == [] {
      DecodeOneOfEncode(i, []);
      assert e + [] == e && s + e == e;
      assert e[|e|..] == [] && [View(i)] + [] == [] + [View(i)];
    } else {
      var (first, n) := DecodeOne(s).value;
      DecodeOneIsStable(s, e);
      assert (s + e)[n..] == s[n..] + e;
      DecodeAppends(s[n..], i);
      var rest := Decode(s[n..]).value;
      assert [first] + (rest + [View(i)]) == [first] + rest + [View(i)];
    }
  }

  /** Any mix of packets and responses decodes to exactly what was written, in order. */
  lemma {:induction false} DecodeOfEncodeAll(items: seq<Item>)
    requires forall i :: 0 <= i < |items| ==> ValidItem(items[i])
    ensures Decode(EncodeAll(items)) == Some(Views(items))
  {
    if items == [] {
    } else {
      hide DecodeOne, Encode, View, Decode;
      DecodeOfEncodeAll(items[..|items| - 1]);
      DecodeAppends(EncodeAll(items[..|items| - 1]), items[|items| - 1]);
    }
  }

  /** Hence two different histories never put the same bytes on the wire. */
  lemma WireIsUnambiguous(a: seq<Item>, b: seq<Item>)
    requires forall i :: 0 <= i < |a| ==> ValidItem(a[i])
    requires forall i :: 0 <= i < |b| ==> ValidItem(b[i])
    requires EncodeAll(a) == EncodeAll(b)
    ensures Views(a) == Views(b)
  {
    DecodeOfEncodeAll(a);
    DecodeOfEncodeAll(b);
  }

  // ----- the session -----

  /** What became of one push. */
  datatype Outcome = Written | Overflowed | Rejected

  /** `buffered` is the transport's write buffer, `breaks` a failing write. */
  function OutcomeOf(closing: bool, data: seq<byte>, buffered: nat, breaks: bool): Outcome {
    if closing || |data| > 0xFFFF then Rejected
    else if buffered > MAX_WRITE_BUFFER_BYTES then Overflowed
    else if breaks then Rejected
    else Written
  }

  /** The counters and the history of one connection. */
  class RtspSession {
    var closing: bool
    var overflowDrops: nat
    var wire: seq<byte>
    ghost var items: seq<Item>
    ghost var pushes: nat
    ghost var written: nat
    ghost var rejected: nat

    /** The wire is the encoding of the history, and every push is accounted for. */
    ghost predicate Valid()
      reads this
    {
      && (forall i :: 0 <= i < |items| ==> ValidItem(items[i]))
      && wire == EncodeAll(items)
      && pushes == written + overflowDrops + rejected
    }

    constructor ()
      ensures Valid() && wire == [] && items == [] && pushes == overflowDrops == 0 && !closing
    {
      closing, overflowDrops, wire := false, 0, [];
      items, pushes, written, rejected := [], 0, 0, 0;
    }

    method Close()
      modifies this`closing
      ensures closing
    {
      closing := true;
    }

    /** push_rtp: True also for a packet that is shed because the consumer stalls. */
    method PushRtp(channel: byte, data: seq<byte>, buffered: nat, breaks: bool) returns (ok: bool)
      requires Valid()
      modifies this`overflowDrops, this`wire, this`items, this`pushes, this`written, this`rejected
      ensures Valid() && pushes == old(pushes) + 1
      ensures var outcome := OutcomeOf(closing, data, buffered, breaks);
              && ok == !outcome.Rejected?
              && overflowDrops == old(overflowDrops) + (if outcome.Overflowed? then 1 else 0)
              && rejected == old(rejected) + (if outcome.Rejected? then 1 else 0)
              && items == old(items) + (if outcome.Written? then [Packet(channel, data)] else [])
      ensures ok <==> !closing && |data| <= 65535 && (buffered > 4194304 || !breaks)
      ensures overflowDrops > old(overflowDrops) <==> !closing && |data| <= 65535 && buffered > 4194304
      ensures |wire| > |old(wire)| <==> !closing && |data| <= 65535 && buffered <= 4194304 && !breaks
      ensures old(wire) <= wire
      ensures |wire| > |old(wire)| ==> IsPacketFrame(wire[|old(wire)|..], channel, data)
    {
      hide PacketFrame, IsPacketFrame;
      pushes := pushes + 1;
      if closing || |data| > 0xFFFF {
        rejected := rejected + 1;
        return false;
      }
      if buffered > MAX_WRITE_BUFFER_BYTES {
        overflowDrops := overflowDrops + 1;
        return true;
      }
      if breaks {
        rejected := rejected + 1;
        return false;
      }
      FrameIsPacketFrame(channel, data);
      wire := wire + PacketFrame(channel, data);
      assert wire[|old(wire)|..] == PacketFrame(channel, data);
      items := items + [Packet(channel, data)];
      written := written + 1;
      return true;
    }

    /** _send_response on an open connection: the whole response in one write. */
    method SendResponse(startLine: seq<byte>, headers: seq<seq<byte>>, body: seq<byte>)
      requires Valid() && !closing
      requires ValidItem(Response(ResponseMessage(startLine, headers, body)))
      modifies this`wire, this`items
      ensures Valid() && items == old(items) + [Response(Message(startLine, headers, body, |body| > 0))]
    {
      hide Serialize, ValidMessage;
      var m := ResponseMessage(startLine, headers, body);
      wire := wire + Serialize(m);
      items := items + [Response(m)];
    }

    /** What the client has received so far is, unit for unit, what was accepted. */
    lemma ClientSeesHistory()
      requires Valid()
      ensures Decode(wire) == Some(Views(items))
    {
      DecodeOfEncodeAll(items);
    }
  }
}
