// The talkback uplink: PCM in, a bounded queue of A-law frames, one RTP packet per loop iteration.
module Talkback {
  import opened Prelude
  import opened Rtp
  import Alaw

  datatype Config = Config(
    samplesPerPacket: nat,
    maxQueueFrames: nat,
    interval: real,
    payloadType: nat,
    ssrc: nat,
    cipher: Option<BlockCipher>)

  /** What __init__ and its only caller guarantee. */
  predicate ValidConfig(c: Config) {
    && 0 < c.samplesPerPacket <= 0xFFFF && c.interval > 0.0
    && c.payloadType < 128 && c.ssrc < 0x1_0000_0000
  }

  /** The fields of the sender. */
  datatype Sender = Sender(
    talking: bool,
    markerNext: bool,
    buffer: seq<byte>,
    queue: seq<seq<byte>>,
    sequence: nat,
    timestamp: nat,
    framesReceived: nat,
    droppedFrames: nat,
    voicePackets: nat,
    silencePackets: nat,
    packetsSent: nat)

  function Silence(): (s: seq<byte>)
    ensures |s| == 160 && forall i :: 0 <= i < 160 ==> s[i] == 0xD5
  {
    seq(160, _ => 0xD5)
  }

  function Fresh(sequence: nat, timestamp: nat): Sender {
    Sender(false, false, [], [], sequence, timestamp, 0, 0, 0, 0, 0)
  }

  predicate ValidSender(c: Config, s: Sender) {
    && ValidConfig(c) && s.sequence < 0x1_0000 && s.timestamp < 0x1_0000_0000
    && |s.queue| <= c.maxQueueFrames
    && (forall i :: 0 <= i < |s.queue| ==> |s.queue[i]| == c.samplesPerPacket)
  }

  // ----- cutting PCM into frames -----

  /** All complete frames of a PCM byte string, encoded. */
  function Frames(pcm: seq<byte>, samples: nat): (frames: seq<seq<byte>>)
    requires samples > 0
    ensures forall i :: 0 <= i < |frames| ==> |frames[i]| == samples
  {
    if |pcm| < 2 * samples then []
    else [Alaw.EncodeBuffer(pcm[..2 * samples])] + Frames(pcm[2 * samples..], samples)
  }

  /** What is left behind the last complete frame. */
  function Remainder(pcm: seq<byte>, samples: nat): (rest: seq<byte>)
    requires samples > 0
    ensures |rest| < 2 * samples
  {
    if |pcm| < 2 * samples then pcm else Remainder(pcm[2 * samples..], samples)
  }

  /** The k-th frame is the encoding of the k-th stretch of samples; what is left is the part behind the last. */
  lemma {:induction false} FrameAt(pcm: seq<byte>, samples: nat, k: nat)
    requires samples > 0 && k < |Frames(pcm, samples)|
    ensures 2 * samples * k + 2 * samples <= |pcm|
    ensures Frames(pcm, samples)[k] == Alaw.EncodeBuffer(pcm[2 * samples * k..2 * samples * k + 2 * samples])
    decreases k
  {
    var rest := pcm[2 * samples..];
    if k > 0 {
      FrameAt(rest, samples, k - 1);
      assert 2 * samples * k == 2 * samples * (k - 1) + 2 * samples;
      assert rest[2 * samples * (k - 1)..2 * samples * (k - 1) + 2 * samples] ==
             pcm[2 * samples * k..2 * samples * k + 2 * samples];
    } else {
      assert 2 * samples * 0 == 0;
    }
  }

  lemma {:induction false} RemainderIsRest(pcm: seq<byte>, samples: nat)
    requires samples > 0
    ensures var cut := 2 * samples * |Frames(pcm, samples)|;
            cut <= |pcm| < cut + 2 * samples && Remainder(pcm, samples) == pcm[cut..]
    decreases |pcm|
  {
    if |pcm| < 2 * samples {
      assert Frames(pcm, samples) == [];
    } else {
      var rest := pcm[2 * samples..];
      RemainderIsRest(rest, samples);
      assert |Frames(pcm, samples)| == |Frames(rest, samples)| + 1
        && Remainder(pcm, samples) == Remainder(rest, samples);
      hide Frames, Remainder;
      CutMovesOn(pcm, 2 * samples, |Frames(rest, samples)|);
    }
  }

  lemma CutMovesOn(pcm: seq<byte>, step: nat, n: nat)
    requires step <= |pcm| && step * n <= |pcm| - step
    ensures step * (n + 1) == step * n + step && pcm[step..][step * n..] == pcm[step * (n + 1)..]
  {
    var m := step * n;
    assert step * (n + 1) == m + step;
    assert pcm[step..][m..] == pcm[m + step..];
  }

  /** Cutting can stop anywhere and go on with the remainder. */
  lemma {:induction false} CutInTwo(a: seq<byte>, b: seq<byte>, samples: nat)
    requires samples > 0
    ensures Frames(a + b, samples) == Frames(a, samples) + Frames(Remainder(a, samples) + b, samples)
    ensures Remainder(a + b, samples) == Remainder(Remainder(a, samples) + b, samples)
    decreases |a|
  {
    if |a| < 2 * samples {
    } else {
      var rest := a[2 * samples..];
      assert (a + b)[..2 * samples] == a[..2 * samples];
      assert (a + b)[2 * samples..] == rest + b;
      CutInTwo(rest, b, samples);
    }
  }

  // ----- the four operations on the sender -----

  function StartTalk(s: Sender): Sender {
    s.(talking := true, markerNext := true)
  }

  function StopTalk(s: Sender): Sender {
    s.(talking := false, markerNext := false, buffer := [], queue := [])
  }

  /** feed_pcm16le at once: cut, queue everything, keep the newest frames. */
  function Feed(c: Config, s: Sender, pcm: seq<byte>): Sender
    requires ValidConfig(c)
  {
    if !s.talking then s
    else
      var frames := Frames(s.buffer + pcm, c.samplesPerPacket);
      var queue := s.queue + frames;
      s.(buffer := Remainder(s.buffer + pcm, c.samplesPerPacket),
         queue := LastN(queue, c.maxQueueFrames),
         framesReceived := s.framesReceived + |frames|,
         droppedFrames := s.droppedFrames + (|queue| - |LastN(queue, c.maxQueueFrames)|))
  }

  /** One packet on the wire, with the clear payload it carries. */
  datatype Packet = Packet(header: Header, payload: seq<byte>, voice: bool)

  predicate SendsVoice(s: Sender) {
    s.talking && s.queue != []
  }

  /** The packet that the next loop iteration sends. */
  function NextPacket(c: Config, s: Sender): Packet {
    Packet(Header(SendsVoice(s) && s.markerNext, c.payloadType, s.sequence, s.timestamp, c.ssrc, [], None),
           if SendsVoice(s) then s.queue[0] else Silence(),
           SendsVoice(s))
  }

  function Tick(c: Config, s: Sender): Sender {
    var n := s.(packetsSent := s.packetsSent + 1, sequence := (s.sequence + 1) % 0x1_0000,
                timestamp := (s.timestamp + |NextPacket(c, s).payload|) % 0x1_0000_0000);
    if SendsVoice(s)
    then n.(queue := s.queue[1..], markerNext := false, voicePackets := s.voicePackets + 1)
    else n.(silencePackets := s.silencePackets + 1)
  }

  /** header + wire payload, as handed to the transport. */
  function WireBytes(c: Config, p: Packet): seq<byte>
    requires ValidHeader(p.header)
    requires 1 <= |p.payload| <= 0xFFFF
  {
    HeaderBytes(p.header, false) +
    (if c.cipher.None? then p.payload else EncryptPayload(p.payload, c.cipher.value).value)
  }

  // ----- chunk independence -----

  function FeedAll(c: Config, s: Sender, chunks: seq<seq<byte>>): Sender
    requires ValidConfig(c)
    decreases |chunks|
  {
    if chunks == [] then s else FeedAll(c, Feed(c, s, chunks[0]), chunks[1..])
  }

  lemma FeedTwice(c: Config, s: Sender, a: seq<byte>, b: seq<byte>)
    requires ValidConfig(c)
    ensures Feed(c, Feed(c, s, a), b) == Feed(c, s, a + b)
  {
    if s.talking {
      var (n, m) := (c.samplesPerPacket, c.maxQueueFrames);
      CutInTwo(s.buffer + a, b, n);
      assert s.buffer + a + b == s.buffer + (a + b);
      var first := Frames(s.buffer + a, n);
      var second := Frames(Remainder(s.buffer + a, n) + b, n);
      QueueTwice(s.queue, first, second, m);
    }
  }

  lemma QueueTwice(queue: seq<seq<byte>>, first: seq<seq<byte>>, second: seq<seq<byte>>, max: nat)
    ensures LastN(LastN(queue + first, max) + second, max) == LastN(queue + (first + second), max)
    ensures |LastN(queue + first, max) + second| - |queue + (first + second)| ==
            |LastN(queue + first, max)| - |queue + first|
  {
    LastNAbsorbs(queue + first, second, max);
    assert queue + first + second == queue + (first + second);
  }

  lemma FeedNothing(c: Config, s: Sender)
    requires ValidConfig(c) && |s.queue| <= c.maxQueueFrames && |s.buffer| < 2 * c.samplesPerPacket
    ensures Feed(c, s, []) == s
  {
    assert s.buffer + [] == s.buffer;
    assert s.queue + [] == s.queue;
  }

  /** Any split of a byte string, odd pieces included, leaves the sender as feeding it at once does. */
  lemma {:induction false} FeedIsChunkIndependent(c: Config, s: Sender, chunks: seq<seq<byte>>)
    requires ValidConfig(c) && |s.queue| <= c.maxQueueFrames && |s.buffer| < 2 * c.samplesPerPacket
    ensures FeedAll(c, s, chunks) == Feed(c, s, Concat(chunks))
    decreases |chunks|
  {
    if chunks == [] {
      FeedNothing(c, s);
    } else {
      FeedIsChunkIndependent(c, Feed(c, s, chunks[0]), chunks[1..]);
      FeedTwice(c, s, chunks[0], Concat(chunks[1..]));
    }
  }
}
