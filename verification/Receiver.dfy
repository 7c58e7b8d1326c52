// _RTPProtocol: which datagrams reach the stream, in what shape, and how they are counted.
module Receiver {
  import opened Prelude
  import opened Rtp

  /** `audio` is the label, `rewrite` the payload type the consumers were promised. */
  datatype Config = Config(audio: bool, rewrite: Option<nat>, key: Option<BlockCipher>)

  /** What becomes of one datagram. */
  datatype Fate = Invalid | Rtcp | MissingKey | Undecryptable | Delivered(packet: seq<byte>)

  function WithPayloadType(data: seq<byte>, pt: nat): seq<byte>
    requires |data| >= 2 && pt < 128
  {
    [data[0], data[1] / 128 * 128 + pt] + data[2..]
  }

  function Rewritten(c: Config, data: seq<byte>, original: byte): seq<byte>
    requires |data| >= 2
  {
    if c.rewrite.Some? && original % 128 != c.rewrite.value
    then WithPayloadType(data, c.rewrite.value % 128) else data
  }

  function FateOf(c: Config, data: seq<byte>): Fate {
    if |data| < 12 || !Version2(data[0]) then Invalid
    else if 192 <= data[1] <= 223 then Rtcp
    else if c.key.None? then
      if c.audio && Payload(data).Some? && EncryptedLength(Payload(data).value).Some? then MissingKey
      else Delivered(Rewritten(c, data, data[1]))
    else
      match DecryptRtp(data, c.key.value)
      case None => Undecryptable
      case Some(clear) => Delivered(Rewritten(c, clear, data[1]))
  }

  // ----- counters -----

  datatype Counters = Counters(
    packets: nat,
    payloadTypes: map<nat, nat>,
    rewrites: nat,
    decryptOk: nat,
    decryptFailed: nat,
    rtcpDropped: nat,
    invalidDropped: nat,
    missingCryptoDropped: nat)

  const NoCounts := Counters(0, map[], 0, 0, 0, 0, 0, 0)

  function CountOf(m: map<nat, nat>, pt: nat): nat {
    if pt in m then m[pt] else 0
  }

  function Count(c: Config, n: Counters, data: seq<byte>): Counters {
    var fate := FateOf(c, data);
    if fate.Invalid? then n.(invalidDropped := n.invalidDropped + 1)
    else if fate.Rtcp? then n.(rtcpDropped := n.rtcpDropped + 1)
    else
      var pt := data[1] % 128;
      n.(packets := n.packets + 1,
         payloadTypes := n.payloadTypes[pt := CountOf(n.payloadTypes, pt) + 1],
         missingCryptoDropped := n.missingCryptoDropped + (if fate.MissingKey? then 1 else 0),
         decryptFailed := n.decryptFailed + (if fate.Undecryptable? then 1 else 0),
         decryptOk := n.decryptOk + (if fate.Delivered? && c.key.Some? then 1 else 0),
         rewrites := n.rewrites +
           (if fate.Delivered? && c.rewrite.Some? && pt != c.rewrite.value then 1 else 0))
  }

  class RtpReceiver {
    const config: Config
    var packets: nat
    var payloadTypes: map<nat, nat>
    var rewrites: nat
    var decryptOk: nat
    var decryptFailed: nat
    var rtcpDropped: nat
    var invalidDropped: nat
    var missingCryptoDropped: nat

    ghost function Snapshot(): Counters
      reads this
    {
      Counters(packets, payloadTypes, rewrites, decryptOk, decryptFailed,
               rtcpDropped, invalidDropped, missingCryptoDropped)
    }

    constructor (config: Config)
      ensures this.config == config && Snapshot() == NoCounts
    {
      this.config := config;
      packets, payloadTypes, rewrites, decryptOk, decryptFailed := 0, map[], 0, 0, 0;
      rtcpDropped, invalidDropped, missingCryptoDropped := 0, 0, 0;
    }

    /** datagram_received; `hook` tells that the first-packet callback ran. */
    method DatagramReceived(data: seq<byte>) returns (delivered: Option<seq<byte>>, hook: bool)
      modifies this
      ensures Snapshot() == Count(config, old(Snapshot()), data)
      ensures delivered ==
        match FateOf(config, data) { case Delivered(packet) => Some(packet) case _ => None }
      ensures hook <==> delivered.Some? && packets == 1
    {
      hide Version2, Payload, DecryptRtp, EncryptedLength, WithPayloadType;
      delivered, hook := None, false;
      if |data| < 12 || !Version2(data[0]) {
        invalidDropped := invalidDropped + 1;
        return;
      }
      if 192 <= data[1] <= 223 {
        rtcpDropped := rtcpDropped + 1;
        return;
      }
      packets := packets + 1;
      var pt := data[1] % 128;
      payloadTypes := payloadTypes[pt := CountOf(payloadTypes, pt) + 1];
      if config.audio && config.key.None? {
        var raw := Payload(data);
        if raw.Some? && EncryptedLength(raw.value).Some? {
          missingCryptoDropped := missingCryptoDropped + 1;
          return;
        }
      }
      var out := data;
      if config.key.Some? {
        var decrypted := DecryptRtp(data, config.key.value);
        DecryptedKeepsHeader(data, config.key.value);
        if decrypted.None? {
          decryptFailed := decryptFailed + 1;
          return;
        }
        out := decrypted.value;
        decryptOk := decryptOk + 1;
      }
      if config.rewrite.Some? && pt != config.rewrite.value {
        out := WithPayloadType(out, config.rewrite.value % 128);
        rewrites := rewrites + 1;
      }
      delivered := Some(out);
      hook := packets == 1;
    }
  }

  /** Decryption leaves everything of the fixed header but the P bit alone. */
  lemma DecryptedKeepsHeader(data: seq<byte>, c: BlockCipher)
    ensures DecryptRtp(data, c).Some? ==>
      |data| >= 12 && |DecryptRtp(data, c).value| >= 12 && DecryptRtp(data, c).value[1..12] == data[1..12]
  {
    if DecryptRtp(data, c).Some? {
      var start := PayloadBounds(data).value.0;
      assert DecryptRtp(data, c).value[1..start] == data[1..start];
      assert data[1..start][..11] == data[1..12];
      assert DecryptRtp(data, c).value[1..start][..11] == DecryptRtp(data, c).value[1..12];
    }
  }

  // ----- the shape of what is delivered -----

  /**
   * With the video payload type 96, every delivered packet carries it: marker, sequence number,
   * timestamp and SSRC are those of the datagram, and the second byte is 96 or 224, outside the
   * RTCP range (section 4 of RFC 5761).
   */
  lemma DeliveredVideoShape(c: Config, data: seq<byte>)
    requires c.rewrite == Some(96)
    ensures FateOf(c, data).Delivered? ==>
      var out := FateOf(c, data).packet;
      && |data| >= 12 && |out| >= 12
      && out[1] == data[1] / 128 * 128 + 96 && (out[1] == 96 || out[1] == 224)
      && !(192 <= out[1] <= 223)
      && out[2..12] == data[2..12]
  {
    if FateOf(c, data).Delivered? {
      if c.key.Some? {
        var clear := DecryptRtp(data, c.key.value).value;
        DecryptedKeepsHeader(data, c.key.value);
        SameFixedHeader(data, clear);
        RewrittenShape(c, clear, data[1]);
      } else {
        RewrittenShape(c, data, data[1]);
      }
    }
    hide DecryptRtp, Payload, Rewritten;
  }

  lemma SameFixedHeader(data: seq<byte>, clear: seq<byte>)
    requires |data| >= 12 && |clear| >= 12 && clear[1..12] == data[1..12]
    ensures clear[1] == data[1] && clear[2..12] == data[2..12]
  {
    assert clear[1] == clear[1..12][0] && data[1] == data[1..12][0];
    assert clear[1..12][1..] == clear[2..12] && data[1..12][1..] == data[2..12];
  }

  lemma RewrittenShape(c: Config, data: seq<byte>, original: byte)
    requires c.rewrite == Some(96) && |data| >= 12 && data[1] == original
    ensures var out := Rewritten(c, data, original);
            && |out| >= 12 && out[1] == original / 128 * 128 + 96 && out[2..12] == data[2..12]
            && (out[1] == 96 || out[1] == 224)
  {
    var out := Rewritten(c, data, original);
    assert out[2..] == data[2..];
    assert out[2..12] == out[2..][..10] && data[2..12] == data[2..][..10];
  }

  /** A delivered video packet passes a second, keyless receiver unchanged. */
  lemma DeliveredVideoIsStable(c: Config, data: seq<byte>)
    requires c.rewrite == Some(96)
    requires FateOf(c, data).Delivered?
    ensures FateOf(Config(false, Some(96), None), FateOf(c, data).packet) == Delivered(FateOf(c, data).packet)
  {
    DeliveredVideoShape(c, data);
    if c.key.Some? && Padded(data[0]) {
      ClearedByte(data[0]);
    }
  }

  /** Without a key, audio is dropped when its payload has the envelope's shape, and only then. */
  lemma KeylessAudio(data: seq<byte>, payload: seq<byte>, cipher: BlockCipher, clear: seq<byte>)
    requires |data| >= 12 && Version2(data[0]) && !(192 <= data[1] <= 223)
    requires Payload(data) == Some(payload)
    ensures |payload| == 160 ==> FateOf(Config(true, None, None), data) == Delivered(data)
    ensures IsPermutation(cipher) && EncryptPayload(clear, cipher) == Some(payload) ==>
      FateOf(Config(true, None, None), data) == MissingKey
  {
    hide Version2, Payload, DecryptRtp;
    if IsPermutation(cipher) && EncryptPayload(clear, cipher) == Some(payload) {
      SealedHasLength(payload, clear, cipher);
    }
    PlainHasNoLength(payload);
    hide EncryptedLength, EncryptPayload, IsPermutation;
  }

  lemma SealedHasLength(payload: seq<byte>, clear: seq<byte>, cipher: BlockCipher)
    requires IsPermutation(cipher) && EncryptPayload(clear, cipher) == Some(payload)
    ensures EncryptedLength(payload).Some?
  {
    EcbLength(cipher.encrypt, clear + Zeros(PaddedLength(|clear|) - |clear|));
  }

  lemma PlainHasNoLength(payload: seq<byte>)
    ensures |payload| == 160 ==> EncryptedLength(payload).None?
  {
  }

  // ----- what is delivered, packet by packet -----

  /** The header with the payload type that the consumers were promised, if any was. */
  function Promised(c: Config, h: Header): Header {
    if c.rewrite.Some? then h.(payloadType := c.rewrite.value % 128) else h
  }

  lemma SecondByte(h: Header, padded: bool, rest: seq<byte>)
    requires ValidHeader(h)
    ensures var data := HeaderBytes(h, padded) + rest;
            && |data| >= 12 && Version2(data[0]) && data[1] == (if h.marker then 128 else 0) + h.payloadType
            && (192 <= data[1] <= 223 <==> h.marker && 64 <= h.payloadType <= 95)
  {
    FirstByteBits(h, padded);
    assert (HeaderBytes(h, padded) + rest)[1] == FixedBytes(h, padded)[1];
  }

  /** All bytes of a packet behind the second. */
  function BytesBehindType(h: Header, rest: seq<byte>): seq<byte>
    requires ValidHeader(h)
  {
    U16(h.sequence) + U32(h.timestamp) + U32(h.ssrc) + h.csrcs + ExtensionBytes(h.extension) + rest
  }

  lemma FirstTwoBytes(h: Header, padded: bool, rest: seq<byte>)
    requires ValidHeader(h)
    ensures HeaderBytes(h, padded) + rest ==
            [FirstByte(h, padded), (if h.marker then 128 else 0) + h.payloadType] + BytesBehindType(h, rest)
  {
    hide U16, U32, FirstByte, ExtensionBytes;
  }

  lemma SecondByteReplaced(first: byte, second: byte, tail: seq<byte>, pt: nat)
    requires pt < 128
    ensures WithPayloadType([first, second] + tail, pt) == [first, second / 128 * 128 + pt] + tail
  {
    assert ([first, second] + tail)[2..] == tail;
  }

  lemma PayloadTypeByte(h: Header, padded: bool, rest: seq<byte>, pt: nat)
    requires ValidHeader(h) && pt < 128
    ensures ValidHeader(h.(payloadType := pt)) && |HeaderBytes(h, padded) + rest| >= 2
    ensures WithPayloadType(HeaderBytes(h, padded) + rest, pt) == HeaderBytes(h.(payloadType := pt), padded) + rest
  {
    var g := h.(payloadType := pt);
    FirstTwoBytes(h, padded, rest);
    FirstTwoBytes(g, padded, rest);
    var second := (if h.marker then 128 else 0) + h.payloadType;
    SecondByteReplaced(FirstByte(h, padded), second, BytesBehindType(h, rest), pt);
    assert second / 128 * 128 == if h.marker then 128 else 0;
    assert BytesBehindType(g, rest) == BytesBehindType(h, rest) && FirstByte(g, padded) == FirstByte(h, padded);
    hide HeaderBytes, WithPayloadType, BytesBehindType, FirstByte;
  }

  lemma RewrittenPacket(c: Config, h: Header, padded: bool, rest: seq<byte>)
    requires ValidHeader(h)
    ensures ValidHeader(Promised(c, h)) && |HeaderBytes(h, padded) + rest| >= 2
    ensures Rewritten(c, HeaderBytes(h, padded) + rest, (HeaderBytes(h, padded) + rest)[1]) ==
            HeaderBytes(Promised(c, h), padded) + rest
  {
    SecondByte(h, padded, rest);
    if c.rewrite.Some? {
      PayloadTypeByte(h, padded, rest, c.rewrite.value % 128);
      assert h.payloadType == c.rewrite.value ==> Promised(c, h) == h;
    }
    hide HeaderBytes, WithPayloadType;
  }

  /** With the key, an enveloped packet is delivered in the clear, behind the promised header. */
  lemma EnvelopedIsDelivered(c: Config, h: Header, clear: seq<byte>, padding: seq<byte>)
    requires c.key.Some? && IsPermutation(c.key.value) && ValidHeader(h) && ValidPadding(padding)
    requires 1 <= |clear| <= 0xFFFF && !(h.marker && 64 <= h.payloadType <= 95)
    ensures EncryptPayload(clear, c.key.value).Some? && ValidHeader(Promised(c, h))
    ensures FateOf(c, PacketBytes(h, EncryptPayload(clear, c.key.value).value, padding)) ==
            Delivered(PacketBytes(Promised(c, h), clear, []))
  {
    EnvelopeRoundTrip(h, clear, padding, c.key.value);
    var sealed := EncryptPayload(clear, c.key.value).value;
    SecondByte(h, padding != [], sealed + padding);
    SecondByte(h, false, clear + []);
    RewrittenPacket(c, h, false, clear + []);
    hide HeaderBytes, DecryptRtp, EncryptPayload, IsPermutation, Rewritten, ValidHeader, ValidPadding, Version2;
  }

  /** Without a key a packet is delivered as it came, but for its payload type, unless it is enveloped audio. */
  lemma PlainIsDelivered(c: Config, h: Header, payload: seq<byte>, padding: seq<byte>)
    requires c.key.None? && ValidHeader(h) && ValidPadding(padding) && !(h.marker && 64 <= h.payloadType <= 95)
    ensures ValidHeader(Promised(c, h))
    ensures FateOf(c, PacketBytes(h, payload, padding)) ==
            if c.audio && EncryptedLength(payload).Some? then MissingKey
            else Delivered(PacketBytes(Promised(c, h), payload, padding))
  {
    var data := PacketBytes(h, payload, padding);
    SecondByte(h, padding != [], payload + padding);
    BoundsOfPacket(h, payload, padding);
    PayloadIsWithinBounds(data);
    RewrittenPacket(c, h, padding != [], payload + padding);
    hide HeaderBytes, Payload, EncryptedLength, Rewritten, ValidHeader, ValidPadding, Version2, PayloadBounds;
  }

  /** What looks like RTCP is never delivered, and neither is what is too short or of another version. */
  lemma FilterIsExact(c: Config, data: seq<byte>)
    ensures FateOf(c, data).Invalid? <==> |data| < 12 || data[0] / 64 != 2
    ensures FateOf(c, data).Rtcp? <==> |data| >= 12 && data[0] / 64 == 2 && 192 <= data[1] <= 223
    ensures FateOf(c, data).MissingKey? ==> c.key.None? && c.audio
  {
    hide DecryptRtp, Payload, Rewritten, EncryptedLength;
  }

  /** With a key, a datagram that passes the filter is undecryptable exactly if no clear payload seals to its own. */
  lemma UndecryptableExactly(c: Config, data: seq<byte>)
    requires c.key.Some? && IsPermutation(c.key.value)
    requires |data| >= 12 && data[0] / 64 == 2 && !(192 <= data[1] <= 223)
    ensures FateOf(c, data).Undecryptable? <==>
      PayloadBounds(data).None? ||
      forall clear :: EncryptPayload(clear, c.key.value) !=
                      Some(data[PayloadBounds(data).value.0..PayloadBounds(data).value.1])
  {
    var cipher := c.key.value;
    if PayloadBounds(data).Some? {
      var (start, end) := PayloadBounds(data).value;
      if DecryptRtp(data, cipher).Some? {
        AcceptedWasEncrypted(data, cipher);
        assert EncryptPayload(DecryptRtp(data, cipher).value[start..], cipher) == Some(data[start..end]);
      } else {
        forall clear ensures EncryptPayload(clear, cipher) != Some(data[start..end]) {
          EnvelopeIsExact(data, cipher, clear);
        }
      }
    }
    assert PayloadBounds(data).None? ==> DecryptRtp(data, cipher).None?;
    hide DecryptRtp, EncryptPayload, PayloadBounds, IsPermutation, Rewritten;
  }

  /** A datagram with this key's envelope goes in, the clear packet comes out. */
  method ReceiveEnveloped(r: RtpReceiver, h: Header, clear: seq<byte>, padding: seq<byte>)
    returns (delivered: Option<seq<byte>>)
    requires r.config.key.Some? && IsPermutation(r.config.key.value) && ValidHeader(h) && ValidPadding(padding)
    requires 1 <= |clear| <= 0xFFFF && !(h.marker && 64 <= h.payloadType <= 95)
    modifies r
    ensures ValidHeader(Promised(r.config, h)) && delivered == Some(PacketBytes(Promised(r.config, h), clear, []))
    ensures r.packets == old(r.packets) + 1 && r.decryptOk == old(r.decryptOk) + 1
  {
    EnvelopedIsDelivered(r.config, h, clear, padding);
    hide *;
    var hook;
    delivered, hook := r.DatagramReceived(PacketBytes(h, EncryptPayload(clear, r.config.key.value).value, padding));
  }

  /** One datagram moves the counters that its fate names by one, and no other. */
  lemma CountsAreExact(c: Config, n: Counters, data: seq<byte>)
    ensures var (fate, after) := (FateOf(c, data), Count(c, n, data));
            && after.invalidDropped == n.invalidDropped + (if fate.Invalid? then 1 else 0)
            && after.rtcpDropped == n.rtcpDropped + (if fate.Rtcp? then 1 else 0)
            && after.missingCryptoDropped == n.missingCryptoDropped + (if fate.MissingKey? then 1 else 0)
            && after.decryptFailed == n.decryptFailed + (if fate.Undecryptable? then 1 else 0)
            && after.decryptOk == n.decryptOk + (if fate.Delivered? && c.key.Some? then 1 else 0)
            && after.packets == n.packets + (if fate.Invalid? || fate.Rtcp? then 0 else 1)
            && after.rewrites == n.rewrites +
                 (if fate.Delivered? && c.rewrite.Some? && data[1] % 128 != c.rewrite.value then 1 else 0)
  {
    hide FateOf;
  }

  /** The payload type of a counted datagram, and only that one, is counted once more. */
  lemma TypesAreExact(c: Config, n: Counters, data: seq<byte>, pt: nat)
    ensures var (fate, after) := (FateOf(c, data), Count(c, n, data));
            CountOf(after.payloadTypes, pt) ==
            CountOf(n.payloadTypes, pt) +
            (if !fate.Invalid? && !fate.Rtcp? && data[1] % 128 == pt then 1 else 0)
  {
  }

  // ----- accounting over runs -----

  function CountAll(c: Config, run: seq<seq<byte>>): Counters {
    if run == [] then NoCounts else Count(c, CountAll(c, run[..|run| - 1]), run[|run| - 1])
  }

  /** The packets handed to the stream, in order. */
  function DeliveredOf(c: Config, run: seq<seq<byte>>): seq<seq<byte>> {
    if run == [] then []
    else
      DeliveredOf(c, run[..|run| - 1]) +
      (match FateOf(c, run[|run| - 1]) { case Delivered(packet) => [packet] case _ => [] })
  }

  function SumTypes(m: map<nat, nat>, below: nat): nat {
    if below == 0 then 0 else SumTypes(m, below - 1) + CountOf(m, below - 1)
  }

  lemma {:induction false} SumAfterIncrement(m: map<nat, nat>, pt: nat, below: nat)
    ensures SumTypes(m[pt := CountOf(m, pt) + 1], below) == SumTypes(m, below) + (if pt < below then 1 else 0)
  {
    if below == 0 {
    } else {
      SumAfterIncrement(m, pt, below - 1);
    }
  }

  lemma {:induction false} SumOfEmpty(below: nat)
    ensures SumTypes(map[], below) == 0
  {
    if below == 0 {
    } else {
      SumOfEmpty(below - 1);
    }
  }

  ghost predicate Balanced(c: Config, n: Counters, received: nat, delivered: nat) {
    && received == n.invalidDropped + n.rtcpDropped + n.packets
    && n.packets == n.missingCryptoDropped + n.decryptFailed + delivered
    && n.packets == SumTypes(n.payloadTypes, 128)
    && (c.key.Some? ==> n.decryptOk == delivered)
  }

  lemma CountKeepsBalance(c: Config, n: Counters, received: nat, delivered: nat, data: seq<byte>)
    requires Balanced(c, n, received, delivered)
    ensures Balanced(c, Count(c, n, data), received + 1,
                     if FateOf(c, data).Delivered? then delivered + 1 else delivered)
  {
    if Counted(c, data) {
      SumAfterIncrement(n.payloadTypes, data[1] % 128, 128);
    }
  }

  /**
   * Every datagram is invalid, RTCP or counted; every counted one lacks its key, fails to decrypt
   * or is delivered; and the payload-type statistics add up to the counted ones.
   */
  lemma {:induction false} DatagramsAreAccountedFor(c: Config, run: seq<seq<byte>>)
    ensures Balanced(c, CountAll(c, run), |run|, |DeliveredOf(c, run)|)
  {
    if run == [] {
      SumOfEmpty(128);
    } else {
      var (before, data) := (run[..|run| - 1], run[|run| - 1]);
      DatagramsAreAccountedFor(c, before);
      CountKeepsBalance(c, CountAll(c, before), |before|, |DeliveredOf(c, before)|, data);
    }
  }

  // ----- the first-packet hook -----

  /** How often the hook ran. */
  function HookCalls(c: Config, run: seq<seq<byte>>): nat {
    if run == [] then 0
    else HookCalls(c, run[..|run| - 1]) +
         (if FateOf(c, run[|run| - 1]).Delivered? && CountAll(c, run).packets == 1 then 1 else 0)
  }

  function Fates(c: Config, run: seq<seq<byte>>): (fates: seq<Fate>)
    ensures |fates| == |run|
    ensures forall i :: 0 <= i < |run| ==> fates[i] == FateOf(c, run[i])
  {
    if run == [] then [] else Fates(c, run[..|run| - 1]) + [FateOf(c, run[|run| - 1])]
  }

  predicate IsCounted(f: Fate) {
    !f.Invalid? && !f.Rtcp?
  }

  predicate Counted(c: Config, data: seq<byte>) {
    IsCounted(FateOf(c, data))
  }

  ghost predicate NoneCounted(fates: seq<Fate>) {
    forall j :: 0 <= j < |fates| ==> !IsCounted(fates[j])
  }

  /** The first counted datagram exists and was delivered. */
  ghost predicate FirstCountedDelivered(fates: seq<Fate>) {
    exists i :: 0 <= i < |fates| && fates[i].Delivered? && NoneCounted(fates[..i])
  }

  lemma FirstCountedStep(fates: seq<Fate>, f: Fate)
    ensures FirstCountedDelivered(fates + [f]) <==>
      FirstCountedDelivered(fates) || (NoneCounted(fates) && f.Delivered?)
  {
    var longer := fates + [f];
    if FirstCountedDelivered(fates) {
      var i :| 0 <= i < |fates| && fates[i].Delivered? && NoneCounted(fates[..i]);
      assert longer[..i] == fates[..i] && longer[i].Delivered?;
    }
    if NoneCounted(fates) && f.Delivered? {
      assert longer[..|fates|] == fates && longer[|fates|].Delivered?;
    }
    if FirstCountedDelivered(longer) {
      var i :| 0 <= i < |longer| && longer[i].Delivered? && NoneCounted(longer[..i]);
      if i < |fates| {
        assert longer[..i] == fates[..i] && fates[i].Delivered?;
      } else {
        assert longer[..i] == fates;
      }
    }
  }

  lemma {:induction false} NothingCounted(c: Config, run: seq<seq<byte>>)
    ensures CountAll(c, run).packets == 0 <==> NoneCounted(Fates(c, run))
  {
    if run == [] {
    } else {
      var before := Fates(c, run[..|run| - 1]);
      NothingCounted(c, run[..|run| - 1]);
      var fates := Fates(c, run);
      assert fates == before + [FateOf(c, run[|run| - 1])];
      assert NoneCounted(fates) ==> NoneCounted(before) by {
        assert forall j :: 0 <= j < |before| ==> before[j] == fates[j];
      }
      assert NoneCounted(fates) ==> !IsCounted(fates[|before|]);
    }
  }

  lemma DeliveredIsCounted(fates: seq<Fate>)
    requires FirstCountedDelivered(fates)
    ensures !NoneCounted(fates)
  {
    var i :| 0 <= i < |fates| && fates[i].Delivered? && NoneCounted(fates[..i]);
    assert IsCounted(fates[i]);
  }

  /**
   * The hook runs at most once, and it runs if and only if the very first counted datagram is
   * delivered: when that one is dropped, no later packet triggers it.
   */
  lemma {:induction false} HookNeedsFirstPacket(c: Config, run: seq<seq<byte>>)
    ensures HookCalls(c, run) == if FirstCountedDelivered(Fates(c, run)) then 1 else 0
  {
    if run == [] {
    } else {
      var before := run[..|run| - 1];
      HookNeedsFirstPacket(c, before);
      FirstCountedStep(Fates(c, before), FateOf(c, run[|run| - 1]));
      NothingCounted(c, before);
      if FirstCountedDelivered(Fates(c, before)) {
        DeliveredIsCounted(Fates(c, before));
      }
    }
  }
}
