// G.711 A-law encoding of the talkback audio (Tables 1a and 1b of ITU-T G.711).
module Alaw {
  import opened Prelude

  const SEG_ENDS: seq<nat> := [0x1F, 0x3F, 0x7F, 0xFF, 0x1FF, 0x3FF, 0x7FF, 0xFFF]

  function Clamp(sample: int): int {
    if sample > 32767 then 32767 else if sample < -32768 then -32768 else sample
  }

  /** The 12-bit magnitude of a clamped sample; -1 and 0 both have magnitude 0. */
  function Magnitude(sample: int): (m: nat)
    ensures m <= 0xFFF
  {
    var c := Clamp(sample) / 8;
    if c >= 0 then c else -c - 1
  }

  /** The first segment whose end is not below `m`. */
  function Segment(m: nat): (s: nat)
    requires m <= 0xFFF
    ensures s < 8 && m <= SEG_ENDS[s] && (s > 0 ==> SEG_ENDS[s - 1] < m)
  {
    if m <= 0x1F then 0 else if m <= 0x3F then 1 else if m <= 0x7F then 2 else if m <= 0xFF then 3
    else if m <= 0x1FF then 4 else if m <= 0x3FF then 5 else if m <= 0x7FF then 6 else 7
  }

  /** How far the segment's shift drops bits: the first two segments have the same step. */
  function Step(seg: nat): (p: nat)
    requires seg < 8
    ensures p > 0
  {
    [2, 2, 4, 8, 16, 32, 64, 128][seg]
  }

  /** A nibble xor 5: A-law toggles the even bits of the seven code bits. */
  function ToggleNibble(n: nat): (t: nat)
    requires n < 16
    ensures t < 16 && (n < 8 <==> t < 8)
  {
    n + (if n % 2 == 0 then 1 else -1) + (if n / 4 % 2 == 0 then 4 else -4)
  }

  /** The seven bits `aval`, xor 0x55. */
  function Toggle(aval: nat): (t: nat)
    requires aval < 128
    ensures t < 128
  {
    16 * ToggleNibble(aval / 16) + ToggleNibble(aval % 16)
  }

  /** Segment and mantissa of a magnitude, before the toggling. */
  function Aval(m: nat): (a: nat)
    requires m <= 0xFFF
    ensures a < 128
  {
    16 * Segment(m) + m / Step(Segment(m)) % 16
  }

  /** The code of one sample. */
  function Encode(sample: int): byte {
    (if Clamp(sample) >= 0 then 128 else 0) + Toggle(Aval(Magnitude(sample)))
  }

  /** The decoder's value of a segment and mantissa: the middle of the interval it stands for. */
  function Level(aval: nat): (level: int)
    requires aval < 128
    ensures level > 0
  {
    var (seg, mantissa) := (aval / 16, aval % 16);
    if seg == 0 then 16 * mantissa + 8 else 4 * Step(seg) * (2 * (16 + mantissa) + 1)
  }

  /** The G.711 decoder, on the 16-bit scale. */
  function Decode(code: byte): int {
    if code >= 128 then Level(Toggle(code - 128)) else -Level(Toggle(code))
  }

  // ----- _linear16_to_pcma_sample -----

  method LinearToPcma(sample: int) returns (code: byte)
    ensures code == Encode(sample)
  {
    var m: int := Clamp(sample) / 8;
    var mask := 128;
    if m < 0 {
      mask := 0;
      m := -m - 1;
    }
    if m > 0xFFF {
      m := 0xFFF;
    }
    assert m == Magnitude(sample);
    var seg := 0;
    while seg < 8 && m > SEG_ENDS[seg]
      invariant 0 <= seg <= 8
      invariant seg > 0 ==> m > SEG_ENDS[seg - 1]
    {
      seg := seg + 1;
    }
    SegmentIsFirst(m, seg);
    var mantissa := if seg < 2 then m / 2 % 16 else m / Step(seg) % 16;
    code := mask + Toggle(16 * seg + mantissa);
  }

  lemma SegmentIsFirst(m: nat, seg: nat)
    requires m <= 0xFFF && seg <= 8
    requires seg > 0 ==> m > SEG_ENDS[seg - 1]
    requires seg < 8 ==> m <= SEG_ENDS[seg]
    ensures seg == Segment(m)
  {
  }

  // ----- the code, bit by bit -----

  lemma NibbleBits(b3: nat, b2: nat, b1: nat, b0: nat)
    requires b3 < 2 && b2 < 2 && b1 < 2 && b0 < 2
    ensures ToggleNibble(8 * b3 + 4 * b2 + 2 * b1 + b0) == 8 * b3 + 4 * (1 - b2) + 2 * b1 + (1 - b0)
  {
    var n := 8 * b3 + 4 * b2 + 2 * b1 + b0;
    assert n % 2 == b0 && n / 4 == 2 * b3 + b2;
  }

  /** The toggling is xor 0x55: bits 0, 2, 4 and 6 change, bits 1, 3 and 5 stay. */
  lemma ToggleIsXor55(b6: nat, b5: nat, b4: nat, b3: nat, b2: nat, b1: nat, b0: nat)
    requires b6 < 2 && b5 < 2 && b4 < 2 && b3 < 2 && b2 < 2 && b1 < 2 && b0 < 2
    ensures Toggle(64 * b6 + 32 * b5 + 16 * b4 + 8 * b3 + 4 * b2 + 2 * b1 + b0) ==
            64 * (1 - b6) + 32 * b5 + 16 * (1 - b4) + 8 * b3 + 4 * (1 - b2) + 2 * b1 + (1 - b0)
  {
    NibbleBits(0, b6, b5, b4);
    NibbleBits(b3, b2, b1, b0);
    hide ToggleNibble;
    var (high, low) := (4 * b6 + 2 * b5 + b4, 8 * b3 + 4 * b2 + 2 * b1 + b0);
    assert (16 * high + low) / 16 == high && (16 * high + low) % 16 == low;
  }

  lemma CodeOf(sample: int, aval: nat)
    requires aval < 128 && Aval(Magnitude(sample)) == aval
    ensures Encode(sample) == (if sample >= 0 then 128 else 0) + Toggle(aval)
  {
    hide Aval, Toggle;
  }

  /** The smallest and the largest samples of either sign, and one between. */
  lemma KnownCodes()
    ensures Encode(0) == 0xD5 && Encode(-1) == 0x55
    ensures Encode(32767) == 0xAA && Encode(-32768) == 0x2A
    ensures Encode(1000) == 0xFA && Encode(-1000) == 0x7A
  {
    assert Toggle(0) == 0x55 && Toggle(127) == 0x2A && Toggle(47) == 0x7A;
    CodeOf(0, 0);
    CodeOf(-1, 0);
    LoudCodes();
    hide Toggle, Encode, Aval;
  }

  lemma LoudCodes()
    ensures Encode(32767) == 128 + Toggle(127) && Encode(-32768) == Toggle(127)
    ensures Encode(1000) == 128 + Toggle(47) && Encode(-1000) == Toggle(47)
  {
    assert Magnitude(32767) == Magnitude(-32768) == 4095 && Magnitude(1000) == 125 && Magnitude(-1000) == 124;
    assert Aval(4095) == 127 && Aval(125) == Aval(124) == 47;
    hide Toggle, Encode, Magnitude, Aval;
    CodeOf(32767, 127);
    CodeOf(-32768, 127);
    CodeOf(1000, 47);
    CodeOf(-1000, 47);
  }

  // ----- quality of the code -----

  lemma ToggleTwice(aval: nat)
    requires aval < 128
    ensures Toggle(Toggle(aval)) == aval
  {
    NibbleTwice(aval / 16);
    NibbleTwice(aval % 16);
  }

  lemma NibbleTwice(n: nat)
    requires n < 16
    ensures ToggleNibble(ToggleNibble(n)) == n
  {
  }

  lemma DecodeOfEncode(sample: int)
    ensures Decode(Encode(sample)) ==
      if Clamp(sample) >= 0 then Level(Aval(Magnitude(sample))) else -Level(Aval(Magnitude(sample)))
  {
    ToggleTwice(Aval(Magnitude(sample)));
  }

  lemma MiddleOf(p: nat, q: nat)
    ensures 4 * p * (2 * q + 1) == 8 * (q * p) + 4 * p
  {
  }

  /** The level of a magnitude is the middle of its quantisation interval [q*p, q*p + p). */
  lemma LevelIsMiddle(m: nat) returns (q: nat, p: nat)
    requires m <= 0xFFF
    ensures p == Step(Segment(m)) && q == m / p
    ensures Level(Aval(m)) == 8 * (q * p) + 4 * p
    ensures q * p <= m < q * p + p
  {
    var seg := Segment(m);
    p := Step(seg);
    q := m / p;
    assert q * p + m % p == m;
    assert Aval(m) / 16 == seg && Aval(m) % 16 == q % 16;
    if seg > 0 {
      SegmentStartsAt16(m);
      MiddleOf(p, q);
    }
  }

  lemma SegmentStartsAt16(m: nat)
    requires 0x1F < m <= 0xFFF
    ensures 16 <= m / Step(Segment(m)) < 32
  {
  }

  /** Half a quantisation step at this distance from zero, on the 16-bit scale. */
  function HalfStep(distance: nat): nat {
    if distance < 512 then 8
    else if distance < 1024 then 16
    else if distance < 2048 then 32
    else if distance < 4096 then 64
    else if distance < 8192 then 128
    else if distance < 16384 then 256
    else 512
  }

  lemma HalfStepIsFourSteps(sample: int)
    ensures var c := Clamp(sample);
            HalfStep(if c >= 0 then c else -c - 1) == 4 * Step(Segment(Magnitude(sample)))
  {
    var c := Clamp(sample);
    assert Magnitude(sample) == (if c >= 0 then c else -c - 1) / 8;
  }

  lemma ErrorInSteps(sample: int)
    ensures var e := Decode(Encode(sample)) - Clamp(sample);
            var p := Step(Segment(Magnitude(sample)));
            -4 * p <= e <= 4 * p
  {
    DecodeOfEncode(sample);
    var q, p := LevelIsMiddle(Magnitude(sample));
    assert Magnitude(sample) == (if Clamp(sample) >= 0 then Clamp(sample) else -Clamp(sample) - 1) / 8;
  }

  /** Decoding a code gives the clamped sample up to half a quantisation step. */
  lemma QuantisationError(sample: int)
    ensures var (e, c) := (Decode(Encode(sample)) - Clamp(sample), Clamp(sample));
            var h := HalfStep(if c >= 0 then c else -c - 1);
            e <= h && 0 - e <= h
  {
    hide *;
    ErrorInSteps(sample);
    HalfStepIsFourSteps(sample);
  }

  lemma MulMonotone(a: nat, b: nat, p: nat)
    requires a <= b
    ensures a * p <= b * p
  {
    assert b * p == a * p + (b - a) * p;
  }

  lemma BelowMultiple(q: nat, p: nat, k: nat)
    requires q * p < k * p
    ensures q * p + p <= k * p
  {
    if q >= k {
      MulMonotone(k, q, p);
      assert false;
    }
    MulMonotone(q + 1, k, p);
  }

  lemma AboveMultiple(q: nat, p: nat, k: nat)
    requires k * p < q * p + p
    ensures k * p <= q * p
  {
    if q < k {
      MulMonotone(q + 1, k, p);
      assert false;
    }
    MulMonotone(k, q, p);
  }

  /** A later segment starts on a multiple of its step, where an earlier one has ended on a multiple of its own. */
  lemma SegmentBoundary(m: nat, n: nat)
    requires m <= n <= 0xFFF && Segment(m) < Segment(n)
    ensures var p := Step(Segment(m)); m < (if Segment(m) == 0 then 16 else 32) * p <= 16 * Step(Segment(n)) <= n
  {
  }

  lemma LevelMonotone(m: nat, n: nat)
    requires m <= n <= 0xFFF
    ensures Level(Aval(m)) <= Level(Aval(n))
  {
    var q, p := LevelIsMiddle(m);
    var r, s := LevelIsMiddle(n);
    if Segment(m) == Segment(n) {
      AboveMultiple(r, s, q);
    } else {
      SegmentOrder(m, n);
      SegmentBoundary(m, n);
      BelowMultiple(q, p, if Segment(m) == 0 then 16 else 32);
      AboveMultiple(r, s, 16);
    }
  }

  lemma SegmentOrder(m: nat, n: nat)
    requires m <= n <= 0xFFF
    ensures Segment(m) <= Segment(n)
  {
  }

  lemma MagnitudeMonotone(s: int, t: int)
    requires s <= t
    ensures Clamp(s) >= 0 ==> Clamp(t) >= 0 && Magnitude(s) <= Magnitude(t)
    ensures Clamp(t) < 0 ==> Clamp(s) < 0 && Magnitude(t) <= Magnitude(s)
  {
  }

  /** Louder samples never decode to quieter ones. */
  lemma DecodingIsMonotone(s: int, t: int)
    requires s <= t
    ensures Decode(Encode(s)) <= Decode(Encode(t))
  {
    DecodeOfEncode(s);
    DecodeOfEncode(t);
    MagnitudeMonotone(s, t);
    if Clamp(s) >= 0 {
      LevelMonotone(Magnitude(s), Magnitude(t));
    } else if Clamp(t) < 0 {
      LevelMonotone(Magnitude(t), Magnitude(s));
    }
  }

  /** A sample and its complement differ in the sign bit and in nothing else. */
  lemma ComplementFlipsSign(s: int)
    requires -32768 <= s < 32768
    ensures s >= 0 ==> Encode(s) == Encode(-s - 1) + 128
    ensures s < 0 ==> Encode(-s - 1) == Encode(s) + 128
  {
    assert Magnitude(s) == Magnitude(-s - 1);
  }

  // ----- _encode_pcm16le_to_pcma -----

  /** The i-th little-endian signed 16-bit sample. */
  function SampleAt(pcm: seq<byte>, i: nat): int
    requires 2 * i + 1 < |pcm|
  {
    var high: int := pcm[2 * i + 1];
    var u := pcm[2 * i] + 256 * high;
    if u < 32768 then u else u - 65536
  }

  function EncodeBuffer(pcm: seq<byte>): (out: seq<byte>)
    ensures |out| == |pcm| / 2
  {
    seq(|pcm| / 2, i requires 0 <= i < |pcm| / 2 => Encode(SampleAt(pcm, i)))
  }

  /** The precomputed table: one entry for every 16-bit sample. */
  ghost predicate IsTable(table: array<byte>)
    reads table
  {
    table.Length == 65536 && forall s :: -32768 <= s < 32768 ==> table[s + 32768] == Encode(s)
  }

  method BuildTable() returns (table: array<byte>)
    ensures IsTable(table)
  {
    table := new byte[65536];
    var s := -32768;
    while s < 32768
      invariant -32768 <= s <= 32768
      invariant forall t :: -32768 <= t < s ==> table[t + 32768] == Encode(t)
    {
      table[s + 32768] := LinearToPcma(s);
      s := s + 1;
    }
  }

  /** Table lookups give the per-sample encoding; a trailing odd byte is dropped. */
  method EncodePcm16le(pcm: seq<byte>, table: array<byte>) returns (out: array<byte>)
    requires IsTable(table)
    ensures out[..] == EncodeBuffer(pcm)
  {
    var n := |pcm| / 2;
    out := new byte[n];
    var i := 0;
    while i < n
      invariant 0 <= i <= n
      invariant forall k :: 0 <= k < i ==> out[k] == EncodeBuffer(pcm)[k]
      invariant IsTable(table)
    {
      out[i] := table[SampleAt(pcm, i) + 32768];
      i := i + 1;
    }
  }

  /** Samples as the caller lays them out: signed, 16 bits, the low byte first. */
  function Pcm16le(samples: seq<int>): (pcm: seq<byte>)
    ensures |pcm| == 2 * |samples|
  {
    if samples == [] then []
    else
      var u := samples[0] % 65536;
      [u % 256, u / 256] + Pcm16le(samples[1..])
  }

  lemma {:induction false} SampleReadsBack(samples: seq<int>, rest: seq<byte>, i: nat)
    requires i < |samples| && -32768 <= samples[i] < 32768
    ensures SampleAt(Pcm16le(samples) + rest, i) == samples[i]
  {
    var pcm := Pcm16le(samples) + rest;
    if i == 0 {
      var s := samples[0];
      assert s % 65536 == if s >= 0 then s else s + 65536;
      var (low: int, high: int) := (pcm[0], pcm[1]);
      assert low + 256 * high == s % 65536;
    } else {
      SampleReadsBack(samples[1..], rest, i - 1);
      var tail := Pcm16le(samples[1..]) + rest;
      assert pcm[2 * i] == tail[2 * (i - 1)] && pcm[2 * i + 1] == tail[2 * (i - 1) + 1];
    }
  }

  /** A buffer of samples, with or without an odd byte behind them, encodes sample by sample. */
  lemma BufferOfSamples(samples: seq<int>, odd: seq<byte>)
    requires |odd| < 2 && forall i :: 0 <= i < |samples| ==> -32768 <= samples[i] < 32768
    ensures |EncodeBuffer(Pcm16le(samples) + odd)| == |samples|
    ensures forall i :: 0 <= i < |samples| ==> EncodeBuffer(Pcm16le(samples) + odd)[i] == Encode(samples[i])
  {
    hide Encode, SampleAt;
    forall i | 0 <= i < |samples| ensures SampleAt(Pcm16le(samples) + odd, i) == samples[i] {
      SampleReadsBack(samples, odd, i);
    }
  }
}
