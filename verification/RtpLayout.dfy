// The bytes of RTP packets and of the envelope, one by one, and that the parser accepts nothing but
// such packets.
module RtpLayout {
  import opened Prelude
  import opened Rtp

  /** A big-endian number of any width. */
  function Number(b: seq<byte>): nat {
    if b == [] then 0
    else
      var last: int := b[|b| - 1];
      256 * Number(b[..|b| - 1]) + last
  }

  lemma Fields16(n: nat)
    requires n < 0x1_0000
    ensures Number(U16(n)) == n
  {
    var b := U16(n);
    assert b[..1] == [b[0]] && b[..1][..0] == [];
    assert Number(b[..1]) == n / 256;
  }

  lemma NumberOfFour(b: seq<byte>)
    requires |b| == 4
    ensures var (b0: int, b1: int, b2: int, b3: int) := (b[0], b[1], b[2], b[3]);
            Number(b) == 256 * (256 * (256 * b0 + b1) + b2) + b3
  {
    assert b[..3][..2] == b[..2] && b[..2][..1] == b[..1] && b[..1][..0] == [];
    var (b0: int, b1: int, b2: int) := (b[0], b[1], b[2]);
    assert Number(b[..1]) == b0;
    assert Number(b[..2]) == 256 * b0 + b1;
    assert Number(b[..3]) == 256 * (256 * b0 + b1) + b2;
  }

  lemma Digits(n: nat)
    ensures n / 0x1_0000 == n / 256 / 256 && n / 0x100_0000 == n / 256 / 256 / 256
    ensures n == 256 * (256 * (256 * (n / 0x100_0000) + n / 0x1_0000 % 256) + n / 256 % 256) + n % 256
  {
  }

  lemma Fields32(n: nat)
    requires n < 0x1_0000_0000
    ensures Number(U32(n)) == n
  {
    NumberOfFour(U32(n));
    Digits(n);
    hide Number;
  }

  /** The twelve fixed bytes of every packet (section 5.1 of RFC 3550). */
  lemma FixedLayout(h: Header, padded: bool, rest: seq<byte>)
    requires ValidHeader(h)
    ensures var wire := HeaderBytes(h, padded) + rest;
            && |wire| >= 12
            && wire[0] == 128 + (if padded then 32 else 0) + (if h.extension.Some? then 16 else 0) + |h.csrcs| / 4
            && wire[1] == (if h.marker then 128 else 0) + h.payloadType
            && Number(wire[2..4]) == h.sequence
            && Number(wire[4..8]) == h.timestamp
            && Number(wire[8..12]) == h.ssrc
  {
    var wire := HeaderBytes(h, padded) + rest;
    var b := FixedBytes(h, padded);
    assert wire[..12] == b;
    assert wire[2..4] == b[2..4] == U16(h.sequence);
    assert wire[4..8] == b[4..8] == U32(h.timestamp);
    assert wire[8..12] == b[8..12] == U32(h.ssrc);
    Fields16(h.sequence);
    Fields32(h.timestamp);
    Fields32(h.ssrc);
    hide U16, U32, Number;
  }

  /** What follows them: the contributing sources, and the extension with its length in words. */
  lemma VariableLayout(h: Header, padded: bool)
    requires ValidHeader(h)
    ensures var (wire, at) := (HeaderBytes(h, padded), 12 + |h.csrcs|);
            && wire[12..at] == h.csrcs
            && match h.extension
               case None => |wire| == at
               case Some(x) =>
                 && |wire| == at + 4 + |x.words| && wire[at + 4..] == x.words
                 && Number(wire[at..at + 2]) == x.profile
                 && 4 * Number(wire[at + 2..at + 4]) == |x.words|
  {
    var (wire, at) := (HeaderBytes(h, padded), 12 + |h.csrcs|);
    assert wire[12..at] == h.csrcs;
    if h.extension.Some? {
      var x := h.extension.value;
      var e := ExtensionBytes(h.extension);
      assert wire[at..] == e;
      assert wire[at..at + 2] == e[0..2] == U16(x.profile);
      assert wire[at + 2..at + 4] == e[2..4] == U16(|x.words| / 4);
      assert wire[at + 4..] == e[4..] == x.words;
      Fields16(x.profile);
      Fields16(|x.words| / 4);
    }
    hide U16, Number;
  }

  // ----- the parser accepts nothing else -----

  lemma SplitU16(hi: byte, lo: byte)
    ensures U16(FromU16(hi, lo)) == [hi, lo]
  {
  }

  lemma DigitsBack(b0: int, b1: int, b2: int, b3: int)
    requires 0 <= b0 < 256 && 0 <= b1 < 256 && 0 <= b2 < 256 && 0 <= b3 < 256
    ensures var n := 256 * (256 * (256 * b0 + b1) + b2) + b3;
            && 0 <= n < 0x1_0000_0000
            && n % 256 == b3 && n / 256 % 256 == b2 && n / 0x1_0000 % 256 == b1 && n / 0x100_0000 == b0
  {
    var n := 256 * (256 * (256 * b0 + b1) + b2) + b3;
    Digits(n);
    assert n / 256 == 256 * (256 * b0 + b1) + b2;
    assert n / 256 / 256 == 256 * b0 + b1;
  }

  lemma SplitU32(b: seq<byte>)
    requires |b| == 4
    ensures Number(b) < 0x1_0000_0000 && U32(Number(b)) == b
  {
    NumberOfFour(b);
    DigitsBack(b[0], b[1], b[2], b[3]);
    hide Number;
  }

  /** The header that these bytes are the encoding of. */
  function HeaderOf(data: seq<byte>, start: nat): Header
    requires PayloadStart(data) == Some(start)
  {
    var at := 12 + CsrcLength(data[0]);
    Header(data[1] >= 128, data[1] % 128, FromU16(data[2], data[3]), Number(data[4..8]), Number(data[8..12]),
           data[12..at],
           if Extended(data[0]) then Some(Extension(FromU16(data[at], data[at + 1]), data[at + 4..start])) else None)
  }

  lemma FirstByteOf(b: byte, h: Header)
    requires Version2(b) && ValidHeader(h) && |h.csrcs| == CsrcLength(b) && (h.extension.Some? <==> Extended(b))
    ensures FirstByte(h, Padded(b)) == b
  {
  }

  lemma HeaderOfIsValid(data: seq<byte>, start: nat)
    requires PayloadStart(data) == Some(start)
    ensures ValidHeader(HeaderOf(data, start))
  {
    SplitU32(data[4..8]);
    SplitU32(data[8..12]);
    hide Number, FromU16;
  }

  lemma FixedBytesFrom(h: Header, padded: bool, b: seq<byte>)
    requires ValidHeader(h) && |b| == 12 && b[0] == FirstByte(h, padded)
    requires b[1] == (if h.marker then 128 else 0) + h.payloadType
    requires U16(h.sequence) == b[2..4] && U32(h.timestamp) == b[4..8] && U32(h.ssrc) == b[8..12]
    ensures FixedBytes(h, padded) == b
  {
    hide U16, U32, FirstByte;
    assert b == [b[0], b[1]] + (b[2..4] + b[4..8] + b[8..12]);
  }

  lemma ExtensionBytesFrom(x: Option<Extension>, b: seq<byte>)
    requires if x.None? then b == []
             else |b| >= 4 && |x.value.words| / 4 < 0x1_0000 && x.value.profile < 0x1_0000 &&
                  U16(x.value.profile) == b[..2] && U16(|x.value.words| / 4) == b[2..4] && x.value.words == b[4..]
    ensures ExtensionBytes(x) == b
  {
    hide U16;
  }

  lemma HeaderBytesFrom(h: Header, padded: bool, data: seq<byte>, at: nat, start: nat)
    requires ValidHeader(h) && 12 <= at <= start <= |data|
    requires FixedBytes(h, padded) == data[..12] && h.csrcs == data[12..at]
    requires ExtensionBytes(h.extension) == data[at..start]
    ensures HeaderBytes(h, padded) == data[..start]
  {
    hide FixedBytes, ExtensionBytes, ValidHeader;
    assert data[..start] == data[..12] + data[12..at] + data[at..start];
  }

  /** The fields of the header stand where the parser finds them. */
  lemma FieldsOf(data: seq<byte>, start: nat)
    requires PayloadStart(data) == Some(start)
    ensures ValidHeader(HeaderOf(data, start))
    ensures var (h, at) := (HeaderOf(data, start), 12 + CsrcLength(data[0]));
            && 12 <= at <= start <= |data| && h.csrcs == data[12..at] && FirstByte(h, Padded(data[0])) == data[0]
            && (h.extension.None? ==> at == start)
            && (h.extension.Some? ==>
                  start >= at + 4 && h.extension.value.words == data[at + 4..start] &&
                  U16(h.extension.value.profile) == data[at..at + 2] &&
                  U16(|h.extension.value.words| / 4) == data[at + 2..at + 4])
  {
    HeaderOfIsValid(data, start);
    var at := 12 + CsrcLength(data[0]);
    FirstByteOf(data[0], HeaderOf(data, start));
    if Extended(data[0]) {
      SplitU16(data[at], data[at + 1]);
      SplitU16(data[at + 2], data[at + 3]);
    }
    hide U16, FromU16, Number, FirstByte;
  }

  lemma NumbersOf(data: seq<byte>, start: nat)
    requires PayloadStart(data) == Some(start)
    ensures ValidHeader(HeaderOf(data, start))
    ensures var h := HeaderOf(data, start);
            && data[1] == (if h.marker then 128 else 0) + h.payloadType
            && U16(h.sequence) == data[2..4] && U32(h.timestamp) == data[4..8] && U32(h.ssrc) == data[8..12]
  {
    HeaderOfIsValid(data, start);
    SplitU16(data[2], data[3]);
    SplitU32(data[4..8]);
    SplitU32(data[8..12]);
    hide U16, U32, FromU16, Number, ValidHeader;
  }

  lemma PacketBytesFrom(h: Header, data: seq<byte>, start: nat, end: nat)
    requires ValidHeader(h) && start <= end <= |data| && HeaderBytes(h, data[end..] != []) == data[..start]
    ensures data == PacketBytes(h, data[start..end], data[end..])
  {
    hide HeaderBytes, ValidHeader;
    assert data == data[..start] + (data[start..end] + data[end..]);
  }

  lemma SlicesOfSlices(data: seq<byte>, at: nat, start: nat)
    requires 12 <= at <= start <= |data|
    ensures data[..12][2..4] == data[2..4] && data[..12][4..8] == data[4..8] && data[..12][8..12] == data[8..12]
    ensures start >= at + 4 ==>
      && data[at..start][..2] == data[at..at + 2] && data[at..start][2..4] == data[at + 2..at + 4]
      && data[at..start][4..] == data[at + 4..start]
  {
    if start >= at + 4 {
      SliceOfSlice(data, at, start, 0, 2);
      SliceOfSlice(data, at, start, 2, 4);
      SliceOfSlice(data, at, start, 4, start - at);
    }
  }

  lemma SliceOfSlice(s: seq<byte>, a: nat, b: nat, i: nat, j: nat)
    requires a <= b <= |s| && i <= j <= b - a
    ensures s[a..b][i..j] == s[a + i..a + j]
    ensures i == 0 ==> s[a..b][..j] == s[a..a + j]
    ensures j == b - a ==> s[a..b][i..] == s[a + i..b]
  {
    var (x, y) := (s[a..b][i..j], s[a + i..a + j]);
    assert |x| == |y|;
    forall k | 0 <= k < |x| ensures x[k] == y[k] {
      assert x[k] == s[a..b][i + k] == s[a + (i + k)];
    }
  }

  /** Whatever the parser accepts is a well-formed packet with exactly the payload that it names. */
  lemma AcceptedIsPacket(data: seq<byte>) returns (h: Header, payload: seq<byte>, padding: seq<byte>)
    requires PayloadBounds(data).Some?
    ensures ValidHeader(h) && ValidPadding(padding) && data == PacketBytes(h, payload, padding)
    ensures payload == data[PayloadBounds(data).value.0..PayloadBounds(data).value.1]
  {
    var (start, end) := PayloadBounds(data).value;
    h, payload, padding := HeaderOf(data, start), data[start..end], data[end..];
    assert (padding != [] <==> Padded(data[0])) && ValidPadding(padding) && PayloadStart(data) == Some(start);
    var at := 12 + CsrcLength(data[0]);
    hide *;
    FieldsOf(data, start);
    NumbersOf(data, start);
    SlicesOfSlices(data, at, start);
    FixedBytesFrom(h, Padded(data[0]), data[..12]);
    ExtensionBytesFrom(h.extension, data[at..start]);
    HeaderBytesFrom(h, Padded(data[0]), data, at, start);
    PacketBytesFrom(h, data, start, end);
  }

  // ----- the envelope -----

  /** The k-th block of sixteen bytes of the clear payload, with zeros behind its end. */
  function PaddedBlock(clear: seq<byte>, k: nat): (b: seq<byte>)
    ensures |b| == 16
    ensures forall i :: 0 <= i < 16 ==> b[i] == if 16 * k + i < |clear| then clear[16 * k + i] else 0
  {
    var there :=
      if 16 * k >= |clear| then []
      else if 16 * k + 16 <= |clear| then clear[16 * k..16 * k + 16]
      else clear[16 * k..];
    there + Zeros(16 - |there|)
  }

  lemma {:induction false} EcbBlock(f: seq<byte> -> seq<byte>, data: seq<byte>, k: nat)
    requires |data| % 16 == 0 && 16 * k + 16 <= |data|
    requires forall b: seq<byte> :: |b| == 16 ==> |f(b)| == 16
    ensures |Ecb(f, data)| == |data| && Ecb(f, data)[16 * k..16 * k + 16] == f(data[16 * k..16 * k + 16])
  {
    EcbLength(f, data);
    var (head, tail) := (f(data[..16]), data[16..]);
    assert Ecb(f, data) == head + Ecb(f, tail);
    if k > 0 {
      EcbBlock(f, tail, k - 1);
      assert tail[16 * (k - 1)..16 * (k - 1) + 16] == data[16 * k..16 * k + 16];
      assert Ecb(f, data)[16 * k..16 * k + 16] == Ecb(f, tail)[16 * (k - 1)..16 * (k - 1) + 16];
    }
  }

  /** Two bytes of length, big-endian, then block by block the zero-padded payload under the key. */
  lemma EnvelopeLayout(clear: seq<byte>, c: BlockCipher, k: nat)
    requires IsPermutation(c) && 1 <= |clear| <= 0xFFFF && 16 * k < |clear|
    ensures EncryptPayload(clear, c).Some?
    ensures var sealed := EncryptPayload(clear, c).value;
            && |sealed| % 16 == 2 && |clear| <= |sealed| - 2 < |clear| + 16
            && Number(sealed[..2]) == |clear|
            && sealed[2 + 16 * k..18 + 16 * k] == c.encrypt(PaddedBlock(clear, k))
  {
    var plain := clear + Zeros(PaddedLength(|clear|) - |clear|);
    EcbBlock(c.encrypt, plain, k);
    Fields16(|clear|);
    var sealed := EncryptPayload(clear, c).value;
    assert sealed[..2] == U16(|clear|) && sealed[2..] == Ecb(c.encrypt, plain);
    assert sealed[2 + 16 * k..18 + 16 * k] == sealed[2..][16 * k..16 * k + 16];
    assert plain[16 * k..16 * k + 16] == PaddedBlock(clear, k);
  }

  /** An empty payload, or one too long for the length field, is refused. */
  lemma EnvelopeRefuses(clear: seq<byte>, c: BlockCipher)
    ensures EncryptPayload(clear, c).None? <==> |clear| == 0 || |clear| > 65535
  {
  }
}
