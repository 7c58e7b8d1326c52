// RTP headers (section 5.1 of RFC 3550) and the gateway's AES envelope around RTP payloads.
module Rtp {
  import opened Prelude

  // ----- big-endian fields -----

  function U16(n: nat): (b: seq<byte>)
    requires n < 0x1_0000
    ensures |b| == 2
  {
    [n / 256, n % 256]
  }

  function U32(n: nat): (b: seq<byte>)
    requires n < 0x1_0000_0000
    ensures |b| == 4
  {
    [n / 0x100_0000, n / 0x1_0000 % 256, n / 256 % 256, n % 256]
  }

  function FromU16(hi: byte, lo: byte): (n: nat)
    ensures n < 0x1_0000
  {
    256 * hi + lo
  }

  // ----- packets -----

  datatype Extension = Extension(profile: nat, words: seq<byte>)

  /** An RTP header; `csrcs` is the raw list of 4-byte contributing sources. */
  datatype Header = Header(
    marker: bool,
    payloadType: nat,
    sequence: nat,
    timestamp: nat,
    ssrc: nat,
    csrcs: seq<byte>,
    extension: Option<Extension>)

  predicate ValidHeader(h: Header) {
    && h.payloadType < 128 && h.sequence < 0x1_0000
    && h.timestamp < 0x1_0000_0000 && h.ssrc < 0x1_0000_0000
    && |h.csrcs| % 4 == 0 && |h.csrcs| / 4 < 16
    && (h.extension.Some? ==>
          h.extension.value.profile < 0x1_0000 &&
          |h.extension.value.words| % 4 == 0 && |h.extension.value.words| / 4 < 0x1_0000)
  }

  /** RTP padding counts itself in its last byte; no padding at all is allowed. */
  predicate ValidPadding(padding: seq<byte>) {
    padding == [] || (|padding| < 256 && padding[|padding| - 1] == |padding|)
  }

  function FirstByte(h: Header, padded: bool): byte
    requires ValidHeader(h)
  {
    128 + (if padded then 32 else 0) + (if h.extension.Some? then 16 else 0) + |h.csrcs| / 4
  }

  function ExtensionBytes(x: Option<Extension>): seq<byte>
    requires x.Some? ==> x.value.profile < 0x1_0000 && |x.value.words| / 4 < 0x1_0000
  {
    if x.None? then [] else U16(x.value.profile) + U16(|x.value.words| / 4) + x.value.words
  }

  /** The twelve bytes that every RTP header starts with. */
  function FixedBytes(h: Header, padded: bool): (b: seq<byte>)
    requires ValidHeader(h)
    ensures |b| == 12 && b[0] == FirstByte(h, padded)
    ensures b[1] == (if h.marker then 128 else 0) + h.payloadType
  {
    [FirstByte(h, padded), (if h.marker then 128 else 0) + h.payloadType]
    + (U16(h.sequence) + U32(h.timestamp) + U32(h.ssrc))
  }

  function HeaderBytes(h: Header, padded: bool): (b: seq<byte>)
    requires ValidHeader(h)
    ensures |b| == 12 + |h.csrcs| + |ExtensionBytes(h.extension)|
    ensures b[0] == FirstByte(h, padded)
  {
    FixedBytes(h, padded) + h.csrcs + ExtensionBytes(h.extension)
  }

  function PacketBytes(h: Header, payload: seq<byte>, padding: seq<byte>): seq<byte>
    requires ValidHeader(h)
  {
    HeaderBytes(h, padding != []) + (payload + padding)
  }

  // ----- the first byte -----

  predicate Version2(b: byte) {
    b / 64 == 2
  }

  predicate Padded(b: byte) {
    b / 32 % 2 == 1
  }

  predicate Extended(b: byte) {
    b / 16 % 2 == 1
  }

  function CsrcLength(b: byte): nat {
    b % 16 * 4
  }

  // ----- _rtp_payload_bounds and _rtp_payload -----

  function PayloadBounds(data: seq<byte>): (r: Option<(nat, nat)>)
    ensures r.Some? ==> 12 <= r.value.0 <= r.value.1 <= |data|
  {
    var start := PayloadStart(data);
    if start.None? then None else BoundsWithoutPadding(data, start.value)
  }

  /** The end of the header, contributing sources and extension included. */
  function PayloadStart(data: seq<byte>): (r: Option<nat>)
    ensures r.Some? ==> 12 <= r.value <= |data|
  {
    if |data| < 12 || !Version2(data[0]) then None
    else
      var start := 12 + CsrcLength(data[0]);
      if |data| < start then None
      else if Extended(data[0]) then
        if |data| < start + 4 then None
        else
          var extended := start + 4 + FromU16(data[start + 2], data[start + 3]) * 4;
          if |data| < extended then None else Some(extended)
      else Some(start)
  }

  function BoundsWithoutPadding(data: seq<byte>, start: nat): (r: Option<(nat, nat)>)
    requires 12 <= start <= |data|
    ensures r.Some? ==> r.value.0 == start <= r.value.1 <= |data|
  {
    if Padded(data[0]) then
      var padding := data[|data| - 1];
      if padding == 0 || padding > |data| - start then None else Some((start, |data| - padding))
    else Some((start, |data|))
  }

  function Payload(data: seq<byte>): Option<seq<byte>> {
    if |data| < 12 || !Version2(data[0]) then None
    else
      var offset := 12 + CsrcLength(data[0]);
      if |data| < offset then None
      else if Extended(data[0]) && |data| < offset + 4 then None
      else
        var body := if Extended(data[0])
                    then offset + 4 + FromU16(data[offset + 2], data[offset + 3]) * 4 else offset;
        if |data| < body then None
        else if Padded(data[0]) then
          var padding := data[|data| - 1];
          if padding == 0 || padding > |data| - body then None else Some(data[body..|data| - padding])
        else Some(data[body..])
  }

  /** The two parsers agree on every datagram. */
  lemma PayloadIsWithinBounds(data: seq<byte>)
    ensures Payload(data) ==
      match PayloadBounds(data)
      case None => None
      case Some(b) => Some(data[b.0..b.1])
  {
    var b := PayloadBounds(data);
    if b.Some? {
      assert b.value.1 == |data| ==> data[b.value.0..] == data[b.value.0..b.value.1];
    }
  }

  lemma FirstByteBits(h: Header, padded: bool)
    requires ValidHeader(h)
    ensures Version2(FirstByte(h, padded)) && CsrcLength(FirstByte(h, padded)) == |h.csrcs|
    ensures Padded(FirstByte(h, padded)) <==> padded
    ensures Extended(FirstByte(h, padded)) <==> h.extension.Some?
  {
  }

  /** The length field of the extension stands where the parser reads it. */
  lemma ExtensionLengthAt(h: Header, padded: bool, rest: seq<byte>)
    requires ValidHeader(h) && h.extension.Some?
    ensures var (data, start) := (HeaderBytes(h, padded) + rest, 12 + |h.csrcs|);
            && |data| >= start + 4
            && FromU16(data[start + 2], data[start + 3]) == |h.extension.value.words| / 4
  {
    var start := 12 + |h.csrcs|;
    var x := h.extension.value;
    assert HeaderBytes(h, padded)[start..] == ExtensionBytes(h.extension);
    assert ExtensionBytes(h.extension)[2..4] == U16(|x.words| / 4);
    assert (HeaderBytes(h, padded) + rest)[start + 2] == ExtensionBytes(h.extension)[2..4][0];
    assert (HeaderBytes(h, padded) + rest)[start + 3] == ExtensionBytes(h.extension)[2..4][1];
    hide FixedBytes, HeaderBytes, ExtensionBytes;
  }

  /** The header ends where the parser looks for the payload. */
  lemma HeaderIsSkipped(h: Header, padded: bool, rest: seq<byte>)
    requires ValidHeader(h)
    ensures var data := HeaderBytes(h, padded) + rest;
            PayloadBounds(data) == BoundsWithoutPadding(data, |HeaderBytes(h, padded)|)
  {
    FirstByteBits(h, padded);
    if h.extension.Some? {
      ExtensionLengthAt(h, padded, rest);
    }
    hide FixedBytes, HeaderBytes, BoundsWithoutPadding, FromU16, FirstByte, Version2, Padded, Extended, CsrcLength;
  }

  lemma PaddingIsStripped(head: seq<byte>, payload: seq<byte>, padding: seq<byte>)
    requires |head| >= 12 && ValidPadding(padding) && (Padded(head[0]) <==> padding != [])
    ensures var (data, n) := (head + (payload + padding), |head|);
            && BoundsWithoutPadding(data, n) == Some((n, n + |payload|))
            && data[n..n + |payload|] == payload
  {
    var data := head + (payload + padding);
    assert data[0] == head[0];
    if padding != [] {
      assert data[|data| - 1] == padding[|padding| - 1];
    }
  }

  /** Parsing finds exactly the payload of every well-formed packet. */
  lemma BoundsOfPacket(h: Header, payload: seq<byte>, padding: seq<byte>)
    requires ValidHeader(h) && ValidPadding(padding)
    ensures var data := PacketBytes(h, payload, padding);
            var n := |HeaderBytes(h, padding != [])|;
            && PayloadBounds(data) == Some((n, n + |payload|))
            && data[n..n + |payload|] == payload
  {
    var head := HeaderBytes(h, padding != []);
    FirstByteBits(h, padding != []);
    assert |head| >= 12 && head[0] == FirstByte(h, padding != []);
    HeaderIsSkipped(h, padding != [], payload + padding);
    hide HeaderBytes, FirstByte, PayloadBounds, BoundsWithoutPadding, ValidPadding, Version2, Padded, Extended;
    PaddingIsStripped(head, payload, padding);
  }

  // ----- AES in ECB mode -----

  /** One key's block permutation and its inverse, otherwise arbitrary. */
  datatype BlockCipher = BlockCipher(encrypt: seq<byte> -> seq<byte>, decrypt: seq<byte> -> seq<byte>)

  ghost predicate IsPermutation(c: BlockCipher) {
    && (forall b: seq<byte> {:trigger c.encrypt(b)} ::
          |b| == 16 ==> |c.encrypt(b)| == 16 && c.decrypt(c.encrypt(b)) == b)
    && (forall b: seq<byte> {:trigger c.decrypt(b)} ::
          |b| == 16 ==> |c.decrypt(b)| == 16 && c.encrypt(c.decrypt(b)) == b)
  }

  function Ecb(f: seq<byte> -> seq<byte>, data: seq<byte>): seq<byte>
    requires |data| % 16 == 0
  {
    if data == [] then [] else f(data[..16]) + Ecb(f, data[16..])
  }

  lemma {:induction false} EcbLength(f: seq<byte> -> seq<byte>, data: seq<byte>)
    requires |data| % 16 == 0
    requires forall b: seq<byte> :: |b| == 16 ==> |f(b)| == 16
    ensures |Ecb(f, data)| == |data|
  {
    if data == [] {
    } else {
      EcbLength(f, data[16..]);
    }
  }

  lemma {:induction false} EcbInverse(f: seq<byte> -> seq<byte>, g: seq<byte> -> seq<byte>, data: seq<byte>)
    requires |data| % 16 == 0
    requires forall b: seq<byte> {:trigger f(b)} :: |b| == 16 ==> |f(b)| == 16 && g(f(b)) == b
    ensures |Ecb(f, data)| == |data| && Ecb(g, Ecb(f, data)) == data
  {
    EcbLength(f, data);
    if data == [] {
    } else {
      EcbInverse(f, g, data[16..]);
      var out := Ecb(f, data);
      assert out[..16] == f(data[..16]) && out[16..] == Ecb(f, data[16..]);
      assert data == data[..16] + data[16..];
    }
  }

  // ----- the envelope -----

  function Zeros(n: nat): (z: seq<byte>)
    ensures |z| == n && forall i :: 0 <= i < n ==> z[i] == 0
  {
    seq(n, _ => 0)
  }

  function PaddedLength(n: nat): nat {
    (n + 15) / 16 * 16
  }

  /** _encrypt_abb_media_payload; None is its ValueError. */
  function EncryptPayload(clear: seq<byte>, c: BlockCipher): Option<seq<byte>> {
    if clear == [] || |clear| > 0xFFFF then None
    else Some(U16(|clear|) + Ecb(c.encrypt, clear + Zeros(PaddedLength(|clear|) - |clear|)))
  }

  /** _abb_encrypted_payload_length */
  function EncryptedLength(payload: seq<byte>): (r: Option<nat>)
    ensures r.Some? ==> 0 < r.value && PaddedLength(r.value) == |payload| - 2
  {
    if |payload| < 18 then None
    else
      var n := FromU16(payload[0], payload[1]);
      if n == 0 || PaddedLength(n) != |payload| - 2 then None else Some(n)
  }

  predicate AllZero(data: seq<byte>) {
    forall i :: 0 <= i < |data| ==> data[i] == 0
  }

  /** The header up to `start`, with the P bit of the first byte cleared. */
  function ClearedHeader(data: seq<byte>, start: nat): (head: seq<byte>)
    requires 12 <= start <= |data|
    ensures |head| == start
  {
    [if Padded(data[0]) then data[0] - 32 else data[0]] + data[1..start]
  }

  /** _decrypt_abb_media_rtp */
  function DecryptRtp(data: seq<byte>, c: BlockCipher): (r: Option<seq<byte>>)
    ensures r.Some? ==> |r.value| >= 12
  {
    var bounds := PayloadBounds(data);
    if bounds.None? then None
    else
      var (start, end) := bounds.value;
      var payload := data[start..end];
      var length := EncryptedLength(payload);
      if length.None? then None
      else
        var padded := Ecb(c.decrypt, payload[2..]);
        if |padded| < length.value || !AllZero(padded[length.value..]) then None
        else Some(ClearedHeader(data, start) + padded[..length.value])
  }

  /** What the encoder wrapped, the decoder unwraps, behind any header. */
  lemma EncryptedIsAccepted(data: seq<byte>, c: BlockCipher, clear: seq<byte>)
    requires IsPermutation(c)
    requires PayloadBounds(data).Some?
    requires EncryptPayload(clear, c) == Some(data[PayloadBounds(data).value.0..PayloadBounds(data).value.1])
    ensures DecryptRtp(data, c) == Some(ClearedHeader(data, PayloadBounds(data).value.0) + clear)
  {
    var (start, end) := PayloadBounds(data).value;
    var payload := data[start..end];
    var padded := clear + Zeros(PaddedLength(|clear|) - |clear|);
    EcbInverse(c.encrypt, c.decrypt, padded);
    assert payload[2..] == Ecb(c.encrypt, padded);
    assert EncryptedLength(payload) == Some(|clear|);
    assert padded[..|clear|] == clear;
  }

  /** A payload that decrypts to zero-padded bytes of the stated length is what the encoder emits for them. */
  lemma OpenedWasSealed(payload: seq<byte>, c: BlockCipher, padded: seq<byte>, n: nat)
    requires IsPermutation(c) && EncryptedLength(payload) == Some(n)
    requires padded == Ecb(c.decrypt, payload[2..]) && |padded| >= n && AllZero(padded[n..])
    ensures EncryptPayload(padded[..n], c) == Some(payload)
  {
    EcbInverse(c.decrypt, c.encrypt, payload[2..]);
    assert padded == padded[..n] + Zeros(PaddedLength(n) - n);
    assert n < 0x1_0000;
    assert U16(n) + payload[2..] == payload;
  }

  /** Whatever the decoder accepts, the encoder had produced from exactly the returned payload. */
  lemma AcceptedWasEncrypted(data: seq<byte>, c: BlockCipher)
    requires IsPermutation(c)
    requires DecryptRtp(data, c).Some?
    ensures PayloadBounds(data).Some?
    ensures var (start, end) := PayloadBounds(data).value;
            var out := DecryptRtp(data, c).value;
            && start < |out|
            && out[..start] == ClearedHeader(data, start)
            && EncryptPayload(out[start..], c) == Some(data[start..end])
            && PayloadBounds(out) == Some((start, |out|))
  {
    hide PayloadBounds, EncryptPayload, EncryptedLength, Ecb, AllZero, IsPermutation;
    var (start, end) := PayloadBounds(data).value;
    var out := DecryptRtp(data, c).value;
    var payload := data[start..end];
    var n := EncryptedLength(payload).value;
    var padded := Ecb(c.decrypt, payload[2..]);
    assert |ClearedHeader(data, start)| == start;
    assert out == ClearedHeader(data, start) + padded[..n];
    assert out[start..] == padded[..n] && out[..start] == ClearedHeader(data, start);
    hide DecryptRtp, ClearedHeader;
    OpenedWasSealed(payload, c, padded, n);
    ClearedHeaderParses(data, out);
  }

  lemma ClearedByte(b: byte)
    requires Padded(b)
    ensures 0 <= b - 32 && (Version2(b - 32) <==> Version2(b)) && !Padded(b - 32)
    ensures (Extended(b - 32) <==> Extended(b)) && CsrcLength(b - 32) == CsrcLength(b)
  {
    var (q, r) := (b / 64, b % 32);
    assert b == 64 * q + 32 + r;
    assert b - 32 == 64 * q + r;
  }

  /** The start of the payload depends on the header alone, and not on its P bit. */
  lemma SameStart(data: seq<byte>, out: seq<byte>, start: nat)
    requires PayloadStart(data) == Some(start) && |out| >= start
    requires forall i :: 1 <= i < start ==> out[i] == data[i]
    requires Version2(out[0]) && (Extended(out[0]) <==> Extended(data[0])) && CsrcLength(out[0]) == CsrcLength(data[0])
    ensures PayloadStart(out) == Some(start)
  {
    hide FromU16, Version2, Extended, CsrcLength;
  }

  lemma StartMeansVersion2(data: seq<byte>)
    requires PayloadStart(data).Some?
    ensures Version2(data[0])
  {
  }

  /** Clearing the P bit moves neither the start of the payload nor anything but its end. */
  lemma ClearedHeaderParses(data: seq<byte>, out: seq<byte>)
    requires PayloadBounds(data).Some?
    requires |out| >= PayloadBounds(data).value.0
    requires out[..PayloadBounds(data).value.0] == ClearedHeader(data, PayloadBounds(data).value.0)
    ensures PayloadBounds(out) == Some((PayloadBounds(data).value.0, |out|))
  {
    var start := PayloadStart(data).value;
    var head := ClearedHeader(data, start);
    assert out[0] == out[..start][0] == head[0];
    if Padded(data[0]) {
      ClearedByte(data[0]);
    }
    assert out[1..start] == out[..start][1..] == head[1..] == data[1..start];
    forall i | 1 <= i < start ensures out[i] == data[i] {
      assert out[1..start][i - 1] == data[1..start][i - 1];
    }
    StartMeansVersion2(data);
    hide PayloadStart, Version2, Extended, CsrcLength, ClearedHeader, Padded;
    SameStart(data, out, start);
  }

  /**
   * The envelope is exact: a datagram decrypts to `clear` behind its cleared header if and only if
   * its RTP payload is what the encoder emits for `clear`.
   */
  lemma EnvelopeIsExact(data: seq<byte>, c: BlockCipher, clear: seq<byte>)
    requires IsPermutation(c) && PayloadBounds(data).Some?
    ensures var (start, end) := PayloadBounds(data).value;
            DecryptRtp(data, c) == Some(ClearedHeader(data, start) + clear)
            <==> EncryptPayload(clear, c) == Some(data[start..end])
  {
    var (start, end) := PayloadBounds(data).value;
    if EncryptPayload(clear, c) == Some(data[start..end]) {
      EncryptedIsAccepted(data, c, clear);
    }
    if DecryptRtp(data, c) == Some(ClearedHeader(data, start) + clear) {
      AcceptedWasEncrypted(data, c);
      assert (ClearedHeader(data, start) + clear)[start..] == clear;
    }
  }

  /** Round trip: any header, any RTP padding, any clear payload of 1 to 65535 bytes. */
  lemma EnvelopeRoundTrip(h: Header, clear: seq<byte>, padding: seq<byte>, c: BlockCipher)
    requires IsPermutation(c) && ValidHeader(h) && ValidPadding(padding)
    requires 1 <= |clear| <= 0xFFFF
    ensures EncryptPayload(clear, c).Some?
    ensures DecryptRtp(PacketBytes(h, EncryptPayload(clear, c).value, padding), c)
            == Some(PacketBytes(h, clear, []))
  {
    var data := PacketBytes(h, EncryptPayload(clear, c).value, padding);
    BoundsOfPacket(h, EncryptPayload(clear, c).value, padding);
    EncryptedIsAccepted(data, c, clear);
    var n := |HeaderBytes(h, padding != [])|;
    FirstByteBits(h, padding != []);
    assert data[..n] == HeaderBytes(h, padding != []);
    PaddingBitOnly(h);
    assert ClearedHeader(data, n) == HeaderBytes(h, false);
    assert PacketBytes(h, clear, []) == HeaderBytes(h, false) + clear;
  }

  /** The two forms of a header differ in the P bit and nowhere else. */
  lemma PaddingBitOnly(h: Header)
    requires ValidHeader(h)
    ensures |HeaderBytes(h, true)| == |HeaderBytes(h, false)|
    ensures HeaderBytes(h, true)[0] == HeaderBytes(h, false)[0] + 32
    ensures HeaderBytes(h, true)[1..] == HeaderBytes(h, false)[1..]
  {
    assert FixedBytes(h, true)[1..] == FixedBytes(h, true)[1..2] + FixedBytes(h, true)[2..];
    assert FixedBytes(h, false)[1..] == FixedBytes(h, false)[1..2] + FixedBytes(h, false)[2..];
    assert FixedBytes(h, true)[1..] == FixedBytes(h, false)[1..];
    assert HeaderBytes(h, true)[1..] == FixedBytes(h, true)[1..] + h.csrcs + ExtensionBytes(h.extension);
    assert HeaderBytes(h, false)[1..] == FixedBytes(h, false)[1..] + h.csrcs + ExtensionBytes(h.extension);
  }
}
