// _PCMATalkSender: the talkback operations on the sender's fields.  The ghost `run` lists them, and
// Valid() says that the fields are where that run leads, so every theorem about runs is one about the
// object.
module TalkSender {
  import opened Prelude
  import opened Rtp
  import opened Talkback
  import R = TalkbackRuns
  import L = RtpLayout
  import Alaw
  import Pacing

  class PcmaTalkSender {
    const config: Config
    var talking: bool
    var markerNext: bool
    var pcmBuffer: seq<byte>
    var queuedPcma: seq<seq<byte>>
    var sequence: nat
    var timestamp: nat
    var framesReceived: nat
    var droppedFrames: nat
    var voicePacketsSent: nat
    var silencePacketsSent: nat
    var packetsSent: nat
    var nextAt: real
    ghost const start: Sender
    ghost var run: seq<R.Event>

    ghost function Snapshot(): Sender
      reads this
    {
      Sender(talking, markerNext, pcmBuffer, queuedPcma, sequence, timestamp, framesReceived,
             droppedFrames, voicePacketsSent, silencePacketsSent, packetsSent)
    }

    ghost predicate Valid()
      reads this
    {
      && ValidSender(config, Snapshot())
      && start == Fresh(start.sequence, start.timestamp) && start.sequence < 0x1_0000 && start.timestamp < 0x1_0000_0000
      && Snapshot() == R.After(config, start, run)
    }

    /** What every valid sender promises: nothing accepted is unaccounted for, and the queue is bounded. */
    ghost predicate Accounted()
      requires ValidConfig(config)
      reads this
    {
      && framesReceived == voicePacketsSent + droppedFrames + |queuedPcma| + R.Cleared(config, start, run)
      && packetsSent == voicePacketsSent + silencePacketsSent
      && |queuedPcma| <= config.maxQueueFrames
    }

    lemma ValidIsAccounted()
      requires Valid()
      ensures Accounted()
    {
      R.FramesAreConserved(config, start, run);
    }

    constructor (config: Config, sequence: nat, timestamp: nat, now: real)
      requires ValidConfig(config) && sequence < 0x1_0000 && timestamp < 0x1_0000_0000
      ensures Valid() && this.config == config && nextAt == now && run == []
      ensures start == Fresh(sequence, timestamp)
    {
      this.config, this.sequence, this.timestamp, nextAt := config, sequence, timestamp, now;
      talking, markerNext, pcmBuffer, queuedPcma := false, false, [], [];
      framesReceived, droppedFrames := 0, 0;
      voicePacketsSent, silencePacketsSent, packetsSent := 0, 0, 0;
      start := Fresh(sequence, timestamp);
      run := [];
    }

    /** The next voice packet, whenever it comes, opens a talkspurt and says so. */
    method StartTalking()
      requires Valid()
      modifies this`talking, this`markerNext, this`run
      ensures Valid() && Accounted() && run == old(run) + [R.Start]
      ensures Snapshot() == StartTalk(old(Snapshot()))
      ensures queuedPcma != [] ==> NextPacket(config, Snapshot()).voice && NextPacket(config, Snapshot()).header.marker
      ensures R.AwaitsFirstVoice(R.Log(config, start, run))
    {
      talking := true;
      markerNext := true;
      run := run + [R.Start];
      RunGrew();
      ValidIsAccounted();
      R.MarkerStartsTalkspurt(config, start, run);
    }

    /** Nothing of what was queued will be sent: only silence follows, and the balance shows the loss. */
    method StopTalking()
      requires Valid()
      modifies this`talking, this`markerNext, this`pcmBuffer, this`queuedPcma, this`run
      ensures Valid() && Accounted() && run == old(run) + [R.Stop]
      ensures Snapshot() == StopTalk(old(Snapshot()))
      ensures !talking && !markerNext && pcmBuffer == [] && queuedPcma == []
      ensures !NextPacket(config, Snapshot()).voice && NextPacket(config, Snapshot()).payload == Silence()
      ensures R.Cleared(config, start, run) == R.Cleared(config, start, old(run)) + |old(queuedPcma)|
      ensures framesReceived == voicePacketsSent + droppedFrames + R.Cleared(config, start, run)
    {
      talking := false;
      markerNext := false;
      pcmBuffer := [];
      queuedPcma := [];
      run := run + [R.Stop];
      StopExtends(old(Snapshot()), old(run));
      hide R.After, R.Cleared, Fresh, ValidSender;
      ValidIsAccounted();
    }

    lemma StopExtends(before: Sender, earlier: seq<R.Event>)
      requires ValidConfig(config) && run == earlier + [R.Stop]
      requires before == R.After(config, start, earlier)
      requires Snapshot() == StopTalk(before) && ValidSender(config, before)
      ensures Snapshot() == R.After(config, start, run) && ValidSender(config, Snapshot())
      ensures R.Cleared(config, start, run) == R.Cleared(config, start, earlier) + |before.queue|
    {
      assert R.Front(run) == earlier;
    }

    lemma RunGrew()
      requires run != []
      ensures R.Front(run) + [R.Last(run)] == run
    {
    }

    /** The inner loop of feed_pcm16le: the oldest frames give way. */
    method DropOldest()
      modifies this`queuedPcma, this`droppedFrames
      ensures queuedPcma == LastN(old(queuedPcma), config.maxQueueFrames)
      ensures droppedFrames == old(droppedFrames) + |old(queuedPcma)| - |queuedPcma|
    {
      ghost var longer := queuedPcma;
      while |queuedPcma| > config.maxQueueFrames
        invariant |queuedPcma| <= |longer| && queuedPcma == longer[|longer| - |queuedPcma|..]
        invariant |queuedPcma| < |longer| ==> |queuedPcma| >= config.maxQueueFrames
        invariant droppedFrames == old(droppedFrames) + |longer| - |queuedPcma|
      {
        queuedPcma := queuedPcma[1..];
        droppedFrames := droppedFrames + 1;
      }
    }

    /** Frame by frame, dropping the oldest on overflow, comes to the same as all at once. */
    method FeedPcm16le(pcm: seq<byte>) returns (queued: nat)
      requires Valid()
      modifies this`pcmBuffer, this`queuedPcma, this`framesReceived, this`droppedFrames, this`run
      ensures Valid() && Accounted() && run == old(run) + [R.FeedPcm(pcm)]
      ensures Snapshot() == Feed(config, old(Snapshot()), pcm)
      ensures queued == framesReceived - old(framesReceived)
    {
      queued := CutFrames(pcm);
      run := run + [R.FeedPcm(pcm)];
      FeedExtends(pcm, old(Snapshot()), old(run));
      ValidIsAccounted();
    }

    lemma FeedExtends(pcm: seq<byte>, before: Sender, earlier: seq<R.Event>)
      requires ValidConfig(config) && run == earlier + [R.FeedPcm(pcm)]
      requires before == R.After(config, start, earlier) && Snapshot() == Feed(config, before, pcm)
      ensures Snapshot() == R.After(config, start, run)
    {
      assert R.Front(run) == earlier;
    }

    /** The loop of feed_pcm16le. */
    method CutFrames(pcm: seq<byte>) returns (queued: nat)
      requires ValidSender(config, Snapshot())
      modifies this`pcmBuffer, this`queuedPcma, this`framesReceived, this`droppedFrames
      ensures ValidSender(config, Snapshot()) && Snapshot() == Feed(config, old(Snapshot()), pcm)
      ensures queued == framesReceived - old(framesReceived)
    {
      hide Frames, Remainder, LastN;
      if !talking {
        return 0;
      }
      pcmBuffer := pcmBuffer + pcm;
      var (samples, max) := (config.samplesPerPacket, config.maxQueueFrames);
      queued := 0;
      ghost var frames := Frames(pcmBuffer, samples);
      ghost var whole := queuedPcma + frames;
      while |pcmBuffer| >= samples * 2
        invariant LastN(queuedPcma + Frames(pcmBuffer, samples), max) == LastN(whole, max)
        invariant Remainder(pcmBuffer, samples) == Remainder(old(pcmBuffer) + pcm, samples)
        invariant queued + |Frames(pcmBuffer, samples)| == |frames|
        invariant framesReceived == old(framesReceived) + queued
        invariant droppedFrames + |queuedPcma| + |Frames(pcmBuffer, samples)| == old(droppedFrames) + |whole|
        invariant |queuedPcma| <= max
      {
        QueueOneMore(queuedPcma, pcmBuffer, samples, max);
        RemainderOfRest(pcmBuffer, samples);
        var frame := pcmBuffer[..samples * 2];
        pcmBuffer := pcmBuffer[samples * 2..];
        queuedPcma := queuedPcma + [Alaw.EncodeBuffer(frame)];
        framesReceived := framesReceived + 1;
        queued := queued + 1;
        DropOldest();
      }
      NoFrameLeft(pcmBuffer, samples);
      assert queuedPcma + [] == queuedPcma;
      ShortQueueStays(queuedPcma, max);
      FeedKeepsValid(old(Snapshot()), pcm);
    }

    lemma FeedKeepsValid(s: Sender, pcm: seq<byte>)
      requires ValidSender(config, s)
      ensures ValidSender(config, Feed(config, s, pcm))
    {
    }

    lemma RemainderOfRest(pcm: seq<byte>, samples: nat)
      requires samples > 0 && |pcm| >= samples * 2
      ensures Remainder(pcm[samples * 2..], samples) == Remainder(pcm, samples)
    {
    }

    lemma NoFrameLeft(pcm: seq<byte>, samples: nat)
      requires samples > 0 && |pcm| < samples * 2
      ensures Frames(pcm, samples) == [] && Remainder(pcm, samples) == pcm
    {
    }

    lemma ShortQueueStays(queue: seq<seq<byte>>, max: nat)
      requires |queue| <= max
      ensures LastN(queue, max) == queue
    {
    }

    /** Queueing the first frame and dropping early changes nothing for the frames to come. */
    lemma QueueOneMore(queue: seq<seq<byte>>, pcm: seq<byte>, samples: nat, max: nat)
      requires samples > 0 && |pcm| >= samples * 2
      ensures var frame := Alaw.EncodeBuffer(pcm[..samples * 2]);
              var rest := Frames(pcm[samples * 2..], samples);
              && |Frames(pcm, samples)| == 1 + |rest|
              && LastN(LastN(queue + [frame], max) + rest, max) == LastN(queue + Frames(pcm, samples), max)
    {
      var frame := Alaw.EncodeBuffer(pcm[..samples * 2]);
      var rest := Frames(pcm[samples * 2..], samples);
      LastNPush(queue, frame, rest, max);
    }

    /** Header, optional envelope, counters: what _send_pcma hands to the transport. */
    method SendPcma(payload: seq<byte>, marker: bool) returns (wire: seq<byte>)
      requires ValidSender(config, Snapshot()) && 1 <= |payload| <= 0xFFFF
      modifies this`packetsSent, this`sequence, this`timestamp
      ensures Snapshot() == old(Snapshot()).(
                packetsSent := old(packetsSent) + 1,
                sequence := (old(sequence) + 1) % 0x1_0000,
                timestamp := (old(timestamp) + |payload|) % 0x1_0000_0000)
      ensures var header := Header(marker, config.payloadType, old(sequence), old(timestamp), config.ssrc, [], None);
              ValidHeader(header) && forall voice :: wire == WireBytes(config, Packet(header, payload, voice))
      ensures |wire| > 12 && wire[0] == 0x80 && wire[1] == (if marker then 128 else 0) + config.payloadType
      ensures L.Number(wire[2..4]) == old(sequence) && L.Number(wire[4..8]) == old(timestamp)
      ensures L.Number(wire[8..12]) == config.ssrc
      ensures config.cipher.None? ==> wire[12..] == payload
      ensures config.cipher.Some? ==> Some(wire[12..]) == EncryptPayload(payload, config.cipher.value)
    {
      hide HeaderBytes, EncryptPayload, L.Number;
      var header := Header(marker, config.payloadType, sequence, timestamp, config.ssrc, [], None);
      SealedIsSome(payload);
      wire := HeaderBytes(header, false);
      match config.cipher {
        case None => wire := wire + payload;
        case Some(c) => wire := wire + EncryptPayload(payload, c).value;
      }
      R.WireLayout(config, Packet(header, payload, false));
      packetsSent := packetsSent + 1;
      sequence := (sequence + 1) % 0x1_0000;
      timestamp := (timestamp + |payload|) % 0x1_0000_0000;
    }

    lemma SealedIsSome(payload: seq<byte>)
      requires 1 <= |payload| <= 0xFFFF
      ensures config.cipher.Some? ==> EncryptPayload(payload, config.cipher.value).Some?
    {
    }

    /** What the iteration sends, and the marker that goes with it. */
    method TakePayload() returns (payload: seq<byte>, marker: bool)
      requires ValidSender(config, Snapshot())
      modifies this`queuedPcma, this`markerNext, this`voicePacketsSent, this`silencePacketsSent
      ensures ValidSender(config, Snapshot())
      ensures var p := NextPacket(config, old(Snapshot()));
              payload == p.payload && marker == p.header.marker && 1 <= |payload| <= 0xFFFF
      ensures Tick(config, old(Snapshot())) == Snapshot().(
                packetsSent := packetsSent + 1,
                sequence := (sequence + 1) % 0x1_0000,
                timestamp := (timestamp + |payload|) % 0x1_0000_0000)
    {
      payload, marker := Silence(), false;
      if talking && queuedPcma != [] {
        payload, queuedPcma := queuedPcma[0], queuedPcma[1..];
        marker, markerNext := markerNext, false;
        voicePacketsSent := voicePacketsSent + 1;
      } else {
        silencePacketsSent := silencePacketsSent + 1;
      }
    }

    /** One iteration of _loop, up to its sleep; `at` holds the clock readings it makes. */
    method LoopOnce(at: Pacing.Iteration) returns (wire: seq<byte>, sleepFor: real)
      requires Valid()
      modifies this
      ensures Valid() && Accounted() && run == old(run) + [R.LoopTick]
      ensures Snapshot() == Tick(config, old(Snapshot()))
      ensures var p := NextPacket(config, old(Snapshot()));
              ValidHeader(p.header) && 1 <= |p.payload| <= 0xFFFF && wire == WireBytes(config, p)
      ensures var voice := old(talking && queuedPcma != []);
              var payload := if voice then old(queuedPcma)[0] else Silence();
              && |wire| > 12 && wire[0] == 0x80
              && wire[1] == (if voice && old(markerNext) then 128 else 0) + config.payloadType
              && L.Number(wire[2..4]) == old(sequence) && L.Number(wire[4..8]) == old(timestamp)
              && L.Number(wire[8..12]) == config.ssrc
              && (config.cipher.None? ==> wire[12..] == payload)
              && (config.cipher.Some? ==> Some(wire[12..]) == EncryptPayload(payload, config.cipher.value))
      ensures nextAt == Pacing.Advance(old(nextAt), config.interval, at)
      ensures nextAt ==
        if old(nextAt) + config.interval > at.checkedAt then old(nextAt) + config.interval else at.resetAt
      ensures sleepFor > 0.0 <==> Pacing.Sleeps(old(nextAt), config.interval, at)
      ensures sleepFor > 0.0 ==> at.checkedAt + sleepFor == nextAt
    {
      ghost var p := NextPacket(config, Snapshot());
      var payload, marker := TakePayload();
      wire := SendPcma(payload, marker);
      assert wire == WireBytes(config, p);
      nextAt := nextAt + config.interval;
      sleepFor := nextAt - at.checkedAt;
      if sleepFor <= 0.0 {
        nextAt := at.resetAt;
      }
      run := run + [R.LoopTick];
      RunGrew();
      ValidIsAccounted();
    }
  }
}
