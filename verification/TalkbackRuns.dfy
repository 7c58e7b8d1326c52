// What every interleaving of feeding, starting, stopping and sending keeps.
module TalkbackRuns {
  import opened Prelude
  import opened Rtp
  import opened Talkback
  import L = RtpLayout

  datatype Event = FeedPcm(pcm: seq<byte>) | Start | Stop | LoopTick

  function Apply(c: Config, s: Sender, e: Event): Sender
    requires ValidConfig(c)
  {
    match e
    case FeedPcm(pcm) => Feed(c, s, pcm)
    case Start => StartTalk(s)
    case Stop => StopTalk(s)
    case LoopTick => Tick(c, s)
  }

  function Front<T>(s: seq<T>): seq<T>
    requires s != []
  {
    s[..|s| - 1]
  }

  function Last<T>(s: seq<T>): T
    requires s != []
  {
    s[|s| - 1]
  }

  function After(c: Config, s0: Sender, run: seq<Event>): Sender
    requires ValidConfig(c)
  {
    if run == [] then s0 else Apply(c, After(c, s0, Front(run)), Last(run))
  }

  /** The packets of a run, in sending order. */
  function Sent(c: Config, s0: Sender, run: seq<Event>): seq<Packet>
    requires ValidConfig(c)
  {
    if run == [] then []
    else Sent(c, s0, Front(run)) +
         (if Last(run).LoopTick? then [NextPacket(c, After(c, s0, Front(run)))] else [])
  }

  // ----- what the user said, read off the events alone -----

  function Talking(run: seq<Event>): bool {
    run != [] && (Last(run).Start? || (!Last(run).Stop? && Talking(Front(run))))
  }

  /** The PCM accepted while talking, one byte string per stretch between two stops. */
  function Stretches(run: seq<Event>): (s: seq<seq<byte>>)
    ensures s != []
  {
    if run == [] then [[]]
    else
      var before := Stretches(Front(run));
      match Last(run)
      case FeedPcm(pcm) => if Talking(Front(run)) then Front(before) + [Last(before) + pcm] else before
      case Stop => before + [[]]
      case Start => before
      case LoopTick => before
  }

  function FramesOf(c: Config, stretches: seq<seq<byte>>): (frames: seq<seq<byte>>)
    requires ValidConfig(c)
    ensures forall i :: 0 <= i < |frames| ==> |frames[i]| == c.samplesPerPacket
  {
    if stretches == [] then []
    else FramesOf(c, Front(stretches)) + Frames(Last(stretches), c.samplesPerPacket)
  }

  /** Every A-law frame that the accepted PCM contains. */
  function AcceptedFrames(c: Config, run: seq<Event>): seq<seq<byte>>
    requires ValidConfig(c)
  {
    FramesOf(c, Stretches(run))
  }

  // ----- buffer and queue -----

  ghost predicate IsSuffix<T>(q: seq<T>, s: seq<T>) {
    |q| <= |s| && q == s[|s| - |q|..]
  }

  ghost predicate QueueMatches(c: Config, s: Sender, run: seq<Event>)
    requires ValidConfig(c)
  {
    && s.talking == Talking(run)
    && s.buffer == Remainder(Last(Stretches(run)), c.samplesPerPacket)
    && |s.queue| <= c.maxQueueFrames
    && IsSuffix(s.queue, AcceptedFrames(c, run))
    && s.framesReceived == |AcceptedFrames(c, run)|
  }

  lemma NewestOfSuffix<T>(q: seq<T>, s: seq<T>, added: seq<T>, max: nat)
    requires IsSuffix(q, s)
    ensures IsSuffix(LastN(q + added, max), s + added)
  {
    assert q + added == (s + added)[|s| - |q|..];
  }

  lemma FramesOfLonger(c: Config, stretches: seq<seq<byte>>, pcm: seq<byte>)
    requires ValidConfig(c) && stretches != []
    ensures FramesOf(c, Front(stretches) + [Last(stretches) + pcm]) ==
            FramesOf(c, stretches) + Frames(Remainder(Last(stretches), c.samplesPerPacket) + pcm, c.samplesPerPacket)
  {
    var longer := Front(stretches) + [Last(stretches) + pcm];
    assert Front(longer) == Front(stretches);
    CutInTwo(Last(stretches), pcm, c.samplesPerPacket);
  }

  lemma FeedKeepsQueue(c: Config, s: Sender, run: seq<Event>, pcm: seq<byte>)
    requires ValidConfig(c) && run != [] && Last(run) == FeedPcm(pcm)
    requires QueueMatches(c, s, Front(run))
    ensures QueueMatches(c, Feed(c, s, pcm), run)
    ensures s.talking ==>
      (AcceptedFrames(c, run) == AcceptedFrames(c, Front(run)) + Frames(s.buffer + pcm, c.samplesPerPacket))
  {
    if s.talking {
      var stretches := Stretches(Front(run));
      FramesOfLonger(c, stretches, pcm);
      CutInTwo(Last(stretches), pcm, c.samplesPerPacket);
      var added := Frames(s.buffer + pcm, c.samplesPerPacket);
      NewestOfSuffix(s.queue, AcceptedFrames(c, Front(run)), added, c.maxQueueFrames);
    }
  }

  lemma StopKeepsQueue(c: Config, s: Sender, run: seq<Event>)
    requires ValidConfig(c) && run != [] && Last(run).Stop?
    requires QueueMatches(c, s, Front(run))
    ensures QueueMatches(c, StopTalk(s), run)
    ensures AcceptedFrames(c, run) == AcceptedFrames(c, Front(run))
  {
    assert Front(Stretches(run)) == Stretches(Front(run));
  }

  lemma TickKeepsQueue(c: Config, s: Sender, run: seq<Event>)
    requires ValidConfig(c) && run != [] && Last(run).LoopTick?
    requires QueueMatches(c, s, Front(run))
    ensures QueueMatches(c, Tick(c, s), run)
    ensures AcceptedFrames(c, run) == AcceptedFrames(c, Front(run))
  {
  }

  /** The queue is always the newest part of the accepted frames, the buffer the unfinished frame. */
  lemma {:induction false} QueueIsNewestFrames(c: Config, s0: Sender, run: seq<Event>)
    requires ValidConfig(c) && s0 == Fresh(s0.sequence, s0.timestamp)
    ensures QueueMatches(c, After(c, s0, run), run)
  {
    if run == [] {
      assert Stretches(run) == [[]];
      assert FramesOf(c, [[]]) == FramesOf(c, []) + [];
    } else {
      QueueIsNewestFrames(c, s0, Front(run));
      var s := After(c, s0, Front(run));
      match Last(run)
      case FeedPcm(pcm) => FeedKeepsQueue(c, s, run, pcm);
      case Stop => StopKeepsQueue(c, s, run);
      case Start =>
      case LoopTick => TickKeepsQueue(c, s, run);
    }
  }

  // ----- conservation -----

  /** How many queued frames the stops of a run have thrown away. */
  function Cleared(c: Config, s0: Sender, run: seq<Event>): nat
    requires ValidConfig(c)
  {
    if run == [] then 0
    else Cleared(c, s0, Front(run)) + (if Last(run).Stop? then |After(c, s0, Front(run)).queue| else 0)
  }

  function VoicePayloads(packets: seq<Packet>): seq<seq<byte>> {
    if packets == [] then []
    else VoicePayloads(Front(packets)) + (if Last(packets).voice then [Last(packets).payload] else [])
  }

  lemma VoiceOfSent(c: Config, s0: Sender, run: seq<Event>)
    requires ValidConfig(c) && run != []
    ensures VoicePayloads(Sent(c, s0, run)) == VoicePayloads(Sent(c, s0, Front(run))) +
      (if Last(run).LoopTick? && SendsVoice(After(c, s0, Front(run)))
       then [After(c, s0, Front(run)).queue[0]] else [])
  {
    var before := Sent(c, s0, Front(run));
    if Last(run).LoopTick? {
      assert Front(Sent(c, s0, run)) == before;
    } else {
      assert Sent(c, s0, run) == before;
    }
  }

  /** What one event does to the counters. */
  lemma ApplyConserves(c: Config, s: Sender, e: Event)
    requires ValidConfig(c)
    ensures var n := Apply(c, s, e);
            && n.framesReceived - n.voicePackets - n.droppedFrames - |n.queue| ==
               s.framesReceived - s.voicePackets - s.droppedFrames - |s.queue| + (if e.Stop? then |s.queue| else 0)
            && n.voicePackets == s.voicePackets + (if e.LoopTick? && SendsVoice(s) then 1 else 0)
            && n.packetsSent == s.packetsSent + (if e.LoopTick? then 1 else 0)
            && n.packetsSent - n.voicePackets - n.silencePackets == s.packetsSent - s.voicePackets - s.silencePackets
  {
    hide Frames, Remainder, NextPacket;
  }

  lemma SentGrows(c: Config, s0: Sender, run: seq<Event>)
    requires ValidConfig(c) && run != []
    ensures |Sent(c, s0, run)| == |Sent(c, s0, Front(run))| + (if Last(run).LoopTick? then 1 else 0)
    ensures Cleared(c, s0, run) ==
            Cleared(c, s0, Front(run)) + (if Last(run).Stop? then |After(c, s0, Front(run)).queue| else 0)
    ensures After(c, s0, run) == Apply(c, After(c, s0, Front(run)), Last(run))
  {
    hide Apply, NextPacket;
  }

  /**
   * Every frame cut from accepted PCM is sent, dropped, still queued, or was thrown away by a stop;
   * every packet is voice or silence.
   */
  lemma {:induction false} FramesAreConserved(c: Config, s0: Sender, run: seq<Event>)
    requires ValidConfig(c) && s0 == Fresh(s0.sequence, s0.timestamp)
    ensures var s := After(c, s0, run);
            && |AcceptedFrames(c, run)| == s.framesReceived
            && s.framesReceived == s.voicePackets + s.droppedFrames + |s.queue| + Cleared(c, s0, run)
            && s.voicePackets == |VoicePayloads(Sent(c, s0, run))|
            && s.packetsSent == |Sent(c, s0, run)| == s.voicePackets + s.silencePackets
            && |s.queue| <= c.maxQueueFrames
  {
    QueueIsNewestFrames(c, s0, run);
    if run == [] {
    } else {
      FramesAreConserved(c, s0, Front(run));
      VoiceOfSent(c, s0, run);
      SentGrows(c, s0, run);
      ApplyConserves(c, After(c, s0, Front(run)), Last(run));
      hide After, Apply, Sent, VoicePayloads, AcceptedFrames, Cleared, Remainder, Stretches, Talking, IsSuffix;
      hide SendsVoice, Front, Last;
    }
  }

  // ----- order -----

  /** Where in the accepted frames each voice packet of the run comes from. */
  ghost function Sources(c: Config, s0: Sender, run: seq<Event>): seq<int>
    requires ValidConfig(c)
  {
    if run == [] then []
    else
      var s := After(c, s0, Front(run));
      Sources(c, s0, Front(run)) +
      (if Last(run).LoopTick? && SendsVoice(s) then [|AcceptedFrames(c, Front(run))| - |s.queue|] else [])
  }

  ghost predicate Increasing(s: seq<int>) {
    forall i, j :: 0 <= i < j < |s| ==> s[i] < s[j]
  }

  ghost predicate InOrder(sources: seq<int>, voice: seq<seq<byte>>, frames: seq<seq<byte>>, limit: int) {
    && |sources| == |voice| && Increasing(sources) && limit <= |frames|
    && (forall i :: 0 <= i < |sources| ==> 0 <= sources[i] < limit)
    && (forall i :: 0 <= i < |sources| ==> voice[i] == frames[sources[i]])
  }

  /** More frames behind the known ones, fewer of them still queued. */
  lemma InOrderGrows(sources: seq<int>, voice: seq<seq<byte>>, frames: seq<seq<byte>>, limit: int,
                     more: seq<seq<byte>>, limit': int)
    requires InOrder(sources, voice, frames, limit) && limit <= limit' <= |frames + more|
    ensures InOrder(sources, voice, frames + more, limit')
  {
  }

  /** The oldest queued frame goes out. */
  lemma InOrderPick(sources: seq<int>, voice: seq<seq<byte>>, frames: seq<seq<byte>>, queue: seq<seq<byte>>)
    requires IsSuffix(queue, frames) && queue != []
    requires InOrder(sources, voice, frames, |frames| - |queue|)
    ensures InOrder(sources + [|frames| - |queue|], voice + [queue[0]], frames, |frames| - |queue| + 1)
  {
  }

  /** How far the voice of a run has come in the accepted frames. */
  ghost predicate RunInOrder(c: Config, s0: Sender, run: seq<Event>)
    requires ValidConfig(c)
  {
    InOrder(Sources(c, s0, run), VoicePayloads(Sent(c, s0, run)), AcceptedFrames(c, run),
            |AcceptedFrames(c, run)| - |After(c, s0, run).queue|)
  }

  lemma TickMovesSources(c: Config, s0: Sender, run: seq<Event>)
    requires ValidConfig(c) && run != [] && Last(run).LoopTick?
    ensures Sources(c, s0, run) == Sources(c, s0, Front(run)) +
      (if SendsVoice(After(c, s0, Front(run)))
       then [|AcceptedFrames(c, Front(run))| - |After(c, s0, Front(run)).queue|] else [])
  {
    hide After, AcceptedFrames, SendsVoice, Front, Last;
  }

  lemma TickIsLast(c: Config, s0: Sender, run: seq<Event>)
    requires ValidConfig(c) && run != [] && Last(run).LoopTick?
    ensures After(c, s0, run) == Tick(c, After(c, s0, Front(run)))
  {
  }

  lemma QueueIsSuffix(c: Config, s: Sender, run: seq<Event>)
    requires ValidConfig(c) && QueueMatches(c, s, run)
    ensures IsSuffix(s.queue, AcceptedFrames(c, run))
  {
  }

  lemma TickKeepsOrder(c: Config, s0: Sender, run: seq<Event>)
    requires ValidConfig(c) && run != [] && Last(run).LoopTick?
    requires QueueMatches(c, After(c, s0, Front(run)), Front(run)) && RunInOrder(c, s0, Front(run))
    ensures RunInOrder(c, s0, run)
  {
    hide InOrder, IsSuffix, QueueMatches, After, Tick, Sources, Sent, VoicePayloads, AcceptedFrames;
    hide SendsVoice, Front, Last;
    var s := After(c, s0, Front(run));
    var (sources, voice, frames) :=
      (Sources(c, s0, Front(run)), VoicePayloads(Sent(c, s0, Front(run))), AcceptedFrames(c, Front(run)));
    QueueIsSuffix(c, s, Front(run));
    TickInOrder(c, s, sources, voice, frames);
    TickKeepsQueue(c, s, run);
    VoiceOfSent(c, s0, run);
    TickMovesSources(c, s0, run);
    TickIsLast(c, s0, run);
  }

  lemma TickInOrder(c: Config, s: Sender, sources: seq<int>, voice: seq<seq<byte>>, frames: seq<seq<byte>>)
    requires IsSuffix(s.queue, frames) && InOrder(sources, voice, frames, |frames| - |s.queue|)
    ensures InOrder(sources + (if SendsVoice(s) then [|frames| - |s.queue|] else []),
                    voice + (if SendsVoice(s) then [s.queue[0]] else []),
                    frames, |frames| - |Tick(c, s).queue|)
  {
    if SendsVoice(s) {
      InOrderPick(sources, voice, frames, s.queue);
    } else {
      assert sources + [] == sources && voice + [] == voice;
    }
  }

  lemma OtherKeepsOrder(c: Config, s0: Sender, run: seq<Event>)
    requires ValidConfig(c) && run != [] && !Last(run).LoopTick?
    requires QueueMatches(c, After(c, s0, Front(run)), Front(run)) && RunInOrder(c, s0, Front(run))
    ensures RunInOrder(c, s0, run)
  {
    var s := After(c, s0, Front(run));
    VoiceOfSent(c, s0, run);
    assert Sources(c, s0, run) == Sources(c, s0, Front(run));
    assert VoicePayloads(Sent(c, s0, run)) == VoicePayloads(Sent(c, s0, Front(run)));
    var (frames, more) := (AcceptedFrames(c, Front(run)), AddedFrames(c, s, Last(run)));
    AddedFramesFollow(c, s, run);
    InOrderGrows(Sources(c, s0, Front(run)), VoicePayloads(Sent(c, s0, Front(run))), frames, |frames| - |s.queue|,
                 more, |frames + more| - |Apply(c, s, Last(run)).queue|);
  }

  /** The frames that one event adds to the accepted ones. */
  ghost function AddedFrames(c: Config, s: Sender, e: Event): seq<seq<byte>>
    requires ValidConfig(c)
  {
    if e.FeedPcm? && s.talking then Frames(s.buffer + e.pcm, c.samplesPerPacket) else []
  }

  lemma AddedFramesFollow(c: Config, s: Sender, run: seq<Event>)
    requires ValidConfig(c) && run != [] && QueueMatches(c, s, Front(run)) && !Last(run).LoopTick?
    ensures AcceptedFrames(c, run) == AcceptedFrames(c, Front(run)) + AddedFrames(c, s, Last(run))
    ensures |Apply(c, s, Last(run)).queue| <= |s.queue| + |AddedFrames(c, s, Last(run))|
  {
    match Last(run)
    case FeedPcm(pcm) => FeedKeepsQueue(c, s, run, pcm);
    case Stop => StopKeepsQueue(c, s, run);
    case Start =>
  }

  /**
   * The voice payloads of a run are a subsequence of the accepted frames: position i comes from
   * position Sources[i], and the sources strictly increase, so nothing is reordered or repeated.
   */
  lemma {:induction false} VoiceKeepsOrder(c: Config, s0: Sender, run: seq<Event>)
    requires ValidConfig(c) && s0 == Fresh(s0.sequence, s0.timestamp)
    ensures RunInOrder(c, s0, run)
  {
    if run == [] {
      assert Sources(c, s0, run) == [];
      QueueIsNewestFrames(c, s0, run);
    } else {
      VoiceKeepsOrder(c, s0, Front(run));
      QueueIsNewestFrames(c, s0, Front(run));
      if Last(run).LoopTick? {
        TickKeepsOrder(c, s0, run);
      } else {
        OtherKeepsOrder(c, s0, run);
      }
    }
  }

  // ----- numbering -----

  function TotalLength(packets: seq<Packet>): nat {
    if packets == [] then 0 else TotalLength(Front(packets)) + |Last(packets).payload|
  }

  lemma WrapOnce16(a: nat)
    ensures (a % 0x1_0000 + 1) % 0x1_0000 == (a + 1) % 0x1_0000
  {
  }

  lemma WrapOnce32(a: nat, b: nat)
    ensures (a % 0x1_0000_0000 + b) % 0x1_0000_0000 == (a + b) % 0x1_0000_0000
  {
  }

  ghost predicate Numbered(s0: Sender, packets: seq<Packet>, k: nat)
    requires k < |packets|
  {
    && packets[k].header.sequence == (s0.sequence + k) % 0x1_0000
    && packets[k].header.timestamp == (s0.timestamp + TotalLength(packets[..k])) % 0x1_0000_0000
  }

  ghost predicate CountersMatch(s0: Sender, s: Sender, packets: seq<Packet>) {
    && s.sequence == (s0.sequence + |packets|) % 0x1_0000
    && s.timestamp == (s0.timestamp + TotalLength(packets)) % 0x1_0000_0000
  }

  lemma TickKeepsCounters(c: Config, s0: Sender, s: Sender, packets: seq<Packet>)
    requires CountersMatch(s0, s, packets)
    ensures CountersMatch(s0, Tick(c, s), packets + [NextPacket(c, s)])
  {
    var p := NextPacket(c, s);
    assert Front(packets + [p]) == packets;
    WrapOnce16(s0.sequence + |packets|);
    WrapOnce32(s0.timestamp + TotalLength(packets), |p.payload|);
  }

  lemma {:induction false} CountersAreNumbered(c: Config, s0: Sender, run: seq<Event>)
    requires ValidConfig(c) && s0.sequence < 0x1_0000 && s0.timestamp < 0x1_0000_0000
    ensures CountersMatch(s0, After(c, s0, run), Sent(c, s0, run))
  {
    if run == [] {
    } else {
      CountersAreNumbered(c, s0, Front(run));
      var (s, before) := (After(c, s0, Front(run)), Sent(c, s0, Front(run)));
      if Last(run).LoopTick? {
        TickKeepsCounters(c, s0, s, before);
      } else {
        assert Sent(c, s0, run) == before;
      }
    }
  }

  /**
   * The k-th packet carries the start sequence number plus k and the start timestamp plus the
   * clear payload lengths before it, both wrapping, across every change between voice and silence.
   */
  lemma {:induction false} PacketsAreNumbered(c: Config, s0: Sender, run: seq<Event>)
    requires ValidConfig(c) && s0.sequence < 0x1_0000 && s0.timestamp < 0x1_0000_0000
    ensures forall k :: 0 <= k < |Sent(c, s0, run)| ==> Numbered(s0, Sent(c, s0, run), k)
  {
    if run == [] {
    } else {
      PacketsAreNumbered(c, s0, Front(run));
      CountersAreNumbered(c, s0, Front(run));
      var (before, packets) := (Sent(c, s0, Front(run)), Sent(c, s0, run));
      forall k | 0 <= k < |packets| ensures Numbered(s0, packets, k) {
        assert packets[..|before|] == before;
        if k < |before| {
          assert Numbered(s0, before, k) && packets[..k] == before[..k];
        }
      }
    }
  }

  /** With 160 samples a packet, as the gateway is dialled, the timestamp advances by 160 a packet. */
  lemma {:induction false} TimestampStepIs160(c: Config, s0: Sender, run: seq<Event>)
    requires ValidConfig(c) && c.samplesPerPacket == 160 && s0 == Fresh(s0.sequence, s0.timestamp)
    ensures TotalLength(Sent(c, s0, run)) == 160 * |Sent(c, s0, run)|
  {
    if run == [] {
    } else {
      TimestampStepIs160(c, s0, Front(run));
      QueueIsNewestFrames(c, s0, Front(run));
      if Last(run).LoopTick? {
        assert Front(Sent(c, s0, run)) == Sent(c, s0, Front(run));
        var s := After(c, s0, Front(run));
        var frames := AcceptedFrames(c, Front(run));
        assert SendsVoice(s) ==> s.queue[0] == frames[|frames| - |s.queue|];
      } else {
        assert Sent(c, s0, run) == Sent(c, s0, Front(run));
      }
    }
  }

  // ----- marker -----

  /** A start of talking, or a packet, in the order they happened. */
  datatype Entry = Started | Packeted(packet: Packet)

  function Log(c: Config, s0: Sender, run: seq<Event>): seq<Entry>
    requires ValidConfig(c)
  {
    if run == [] then []
    else Log(c, s0, Front(run)) +
         (match Last(run)
          case Start => [Started]
          case LoopTick => [Packeted(NextPacket(c, After(c, s0, Front(run))))]
          case FeedPcm(_) => []
          case Stop => [])
  }

  /** Entry j is a start, and no voice packet has come since. */
  ghost predicate AwaitsFrom(log: seq<Entry>, j: nat) {
    j < |log| && log[j].Started? && forall k :: j < k < |log| ==> log[k].Packeted? && !log[k].packet.voice
  }

  /** No voice packet since the latest start. */
  ghost predicate AwaitsFirstVoice(log: seq<Entry>) {
    exists j: nat :: AwaitsFrom(log, j)
  }

  ghost predicate MarkerIsRight(log: seq<Entry>, i: nat)
    requires i < |log|
  {
    log[i].Packeted? ==>
      (log[i].packet.header.marker <==> log[i].packet.voice && AwaitsFirstVoice(log[..i]))
  }

  lemma AwaitsFromAppend(log: seq<Entry>, e: Entry, j: nat)
    requires j < |log|
    ensures AwaitsFrom(log + [e], j) <==> AwaitsFrom(log, j) && e.Packeted? && !e.packet.voice
  {
    var longer := log + [e];
    assert longer[|log|] == e;
    assert forall k :: 0 <= k < |log| ==> longer[k] == log[k];
  }

  lemma AwaitsFromLast(log: seq<Entry>, e: Entry)
    ensures AwaitsFrom(log + [e], |log|) <==> e.Started?
  {
  }

  lemma AwaitsAfter(log: seq<Entry>, e: Entry)
    ensures AwaitsFirstVoice(log + [e]) <==> e.Started? || (!e.packet.voice && AwaitsFirstVoice(log))
  {
    AwaitsFromLast(log, e);
    if j: nat :| AwaitsFrom(log, j) {
      AwaitsFromAppend(log, e, j);
    }
    if j: nat :| AwaitsFrom(log + [e], j) {
      if j < |log| {
        AwaitsFromAppend(log, e, j);
      }
    }
    hide AwaitsFrom;
  }

  /** One more entry leaves the earlier markers right. */
  lemma MarkersStayRight(log: seq<Entry>, e: Entry)
    requires forall i :: 0 <= i < |log| ==> MarkerIsRight(log, i)
    requires e.Packeted? ==> (e.packet.header.marker <==> e.packet.voice && AwaitsFirstVoice(log))
    ensures forall i :: 0 <= i < |log + [e]| ==> MarkerIsRight(log + [e], i)
  {
    var longer := log + [e];
    hide AwaitsFirstVoice;
    forall i | 0 <= i < |longer| ensures MarkerIsRight(longer, i) {
      if i < |log| {
        assert MarkerIsRight(log, i);
        assert longer[..i] == log[..i] && longer[i] == log[i];
      } else {
        assert longer[..i] == log && longer[i] == e;
      }
    }
  }

  /** What one event does to the pending marker, and the marker of the packet it sends. */
  lemma EventMarks(c: Config, s0: Sender, run: seq<Event>)
    requires ValidConfig(c) && run != []
    ensures var (s, n) := (After(c, s0, Front(run)), After(c, s0, run));
            var p := NextPacket(c, s);
            match Last(run)
            case Start => n.talking && n.markerNext && Log(c, s0, run) == Log(c, s0, Front(run)) + [Started]
            case LoopTick =>
              && Log(c, s0, run) == Log(c, s0, Front(run)) + [Packeted(p)]
              && n.talking == s.talking && n.markerNext == (s.markerNext && !p.voice)
              && (p.header.marker <==> p.voice && s.markerNext) && (p.voice ==> s.talking)
            case FeedPcm(_) =>
              n.talking == s.talking && n.markerNext == s.markerNext && Log(c, s0, run) == Log(c, s0, Front(run))
            case Stop => !n.talking && Log(c, s0, run) == Log(c, s0, Front(run))
  {
    hide Frames, Remainder, Silence;
    assert Log(c, s0, Front(run)) + [] == Log(c, s0, Front(run));
  }

  /** The marker bit is set exactly on the first voice packet after each start of talking. */
  lemma {:induction false} MarkerStartsTalkspurt(c: Config, s0: Sender, run: seq<Event>)
    requires ValidConfig(c) && !s0.talking && !s0.markerNext
    ensures var log := Log(c, s0, run);
            var s := After(c, s0, run);
            && (forall i :: 0 <= i < |log| ==> MarkerIsRight(log, i))
            && (s.talking ==> (s.markerNext <==> AwaitsFirstVoice(log)))
  {
    if run == [] {
    } else {
      EventMarks(c, s0, run);
      MarkerStartsTalkspurt(c, s0, Front(run));
      hide AwaitsFirstVoice, MarkerIsRight, NextPacket, After, Log;
      var before := Log(c, s0, Front(run));
      if Last(run).Start? {
        AwaitsAfter(before, Started);
        MarkersStayRight(before, Started);
      } else if Last(run).LoopTick? {
        var e := Packeted(NextPacket(c, After(c, s0, Front(run))));
        AwaitsAfter(before, e);
        MarkersStayRight(before, e);
      }
    }
  }

  // ----- the wire -----

  lemma {:induction false} SentPacketsAreWellFormed(c: Config, s0: Sender, run: seq<Event>)
    requires ValidConfig(c) && s0.sequence < 0x1_0000 && s0.timestamp < 0x1_0000_0000
    requires s0 == Fresh(s0.sequence, s0.timestamp)
    ensures forall p :: p in Sent(c, s0, run) ==> ValidHeader(p.header) && 1 <= |p.payload| <= 0xFFFF
  {
    if run == [] {
    } else {
      SentPacketsAreWellFormed(c, s0, Front(run));
      CountersAreNumbered(c, s0, Front(run));
      QueueIsNewestFrames(c, s0, Front(run));
      var s := After(c, s0, Front(run));
      var frames := AcceptedFrames(c, Front(run));
        assert SendsVoice(s) ==> s.queue[0] == frames[|frames| - |s.queue|];
    }
  }

  /** Whoever holds the key recovers every packet of every run: its header and its clear payload. */
  lemma EncryptedPacketsDecrypt(c: Config, s0: Sender, run: seq<Event>, p: Packet)
    requires ValidConfig(c) && s0.sequence < 0x1_0000 && s0.timestamp < 0x1_0000_0000
    requires s0 == Fresh(s0.sequence, s0.timestamp)
    requires c.cipher.Some? && IsPermutation(c.cipher.value)
    requires p in Sent(c, s0, run)
    ensures ValidHeader(p.header) && 1 <= |p.payload| <= 0xFFFF
    ensures DecryptRtp(WireBytes(c, p), c.cipher.value) == Some(HeaderBytes(p.header, false) + p.payload)
  {
    SentPacketsAreWellFormed(c, s0, run);
    EnvelopeRoundTrip(p.header, p.payload, [], c.cipher.value);
    var wire := EncryptPayload(p.payload, c.cipher.value).value;
    assert wire + [] == wire && p.payload + [] == p.payload;
  }

  /** Byte by byte what one packet looks like on the wire. */
  lemma WireLayout(c: Config, p: Packet)
    requires ValidConfig(c) && ValidHeader(p.header) && 1 <= |p.payload| <= 0xFFFF
    requires p.header.csrcs == [] && p.header.extension == None
    ensures var wire := WireBytes(c, p);
            && |wire| > 12 && wire[0] == 0x80
            && wire[1] == (if p.header.marker then 128 else 0) + p.header.payloadType
            && L.Number(wire[2..4]) == p.header.sequence
            && L.Number(wire[4..8]) == p.header.timestamp
            && L.Number(wire[8..12]) == p.header.ssrc
            && wire[12..] == if c.cipher.None? then p.payload else EncryptPayload(p.payload, c.cipher.value).value
  {
    var body := if c.cipher.None? then p.payload else EncryptPayload(p.payload, c.cipher.value).value;
    L.FixedLayout(p.header, false, body);
    assert |HeaderBytes(p.header, false)| == 12;
    assert |body| > 0;
    hide HeaderBytes, EncryptPayload, L.Number;
  }

  /**
   * Over every run, the bytes of the k-th packet carry the start sequence number plus k, the start
   * timestamp plus the clear payload lengths before it, the sender's SSRC and payload type, and the
   * marker of its talkspurt.
   */
  lemma WireIsNumbered(c: Config, s0: Sender, run: seq<Event>, k: nat)
    requires ValidConfig(c) && s0.sequence < 0x1_0000 && s0.timestamp < 0x1_0000_0000
    requires s0 == Fresh(s0.sequence, s0.timestamp) && k < |Sent(c, s0, run)|
    ensures var p := Sent(c, s0, run)[k];
            ValidHeader(p.header) && 1 <= |p.payload| <= 0xFFFF &&
            var wire := WireBytes(c, p);
            && |wire| > 12 && wire[0] == 0x80
            && wire[1] == (if p.header.marker then 128 else 0) + c.payloadType
            && L.Number(wire[2..4]) == (s0.sequence + k) % 0x1_0000
            && L.Number(wire[4..8]) == (s0.timestamp + TotalLength(Sent(c, s0, run)[..k])) % 0x1_0000_0000
            && L.Number(wire[8..12]) == c.ssrc
  {
    var p := Sent(c, s0, run)[k];
    SentPacketsAreWellFormed(c, s0, run);
    PacketsAreNumbered(c, s0, run);
    SentHeadersAreFixed(c, s0, run, k);
    assert p in Sent(c, s0, run);
    hide Sent, WireBytes, TotalLength, L.Number, Fresh;
    WireLayout(c, p);
    assert Numbered(s0, Sent(c, s0, run), k);
  }

  lemma {:induction false} SentHeadersAreFixed(c: Config, s0: Sender, run: seq<Event>, k: nat)
    requires ValidConfig(c) && k < |Sent(c, s0, run)|
    ensures var h := Sent(c, s0, run)[k].header;
            h.payloadType == c.payloadType && h.ssrc == c.ssrc && h.csrcs == [] && h.extension == None
  {
    if k < |Sent(c, s0, Front(run))| {
      SentHeadersAreFixed(c, s0, Front(run), k);
    }
  }
}
