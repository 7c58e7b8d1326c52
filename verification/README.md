# ABB Welcome: a Dafny model of the media and call-control engine

The integration under `custom_components/abb_welcome` answers and places SIP calls to a door-entry
gateway, decrypts its RTP media, fans one media session out to several RTSP clients and sends talkback
audio. This project models the state machines and byte formats that do that work and proves what they
promise over whole runs. `dafny verify dfyconfig.toml` (Dafny 4.11) checks all of it.

## How the model is laid out

Every protocol has the same shape. A `State` datatype holds the fields that the code mutates, an `Event`
is the code between two `await`s (or one synchronous call), `Enabled` says when it may happen and `Step`
what it does; theorems quantify over every sequence of enabled events. The coordinator, the talk sender, the
armed state, the talkback owner, the dialer and the listener also stand as classes with the program's own fields and a ghost
field that lists the events so far. Their validity predicate says that the fields are where that run leads;
every method that handles an event requires and ensures it and extends the run by that event, and the others
are parts of one. So every theorem about runs is one about the object, and the methods state what of it a
caller sees.

| files | part of the program |
|---|---|
| `StreamOwnership`, `StreamSafety`, `StreamLeak`, `StreamMembers`, `StreamCoordinator` | `StationStreamCoordinator`: attach, detach, grace close, forced close and gateway hang-up around one FIFO lock |
| `Talkback`, `TalkbackRuns`, `TalkSender`, `Pacing`, `TalkbackOwner` | `_PCMATalkSender`: buffer, bounded queue, RTP numbering, paced loop; the talkback owner in front of it |
| `Alaw`, `Rtp`, `RtpLayout`, `Receiver` | G.711 A-law, RTP parsing and the AES envelope, the receive filter |
| `Arming` | armed state, pickup gate and auto-disarm timers |
| `SipText`, `SipForeign`, `SipStream` | SIP messages on a byte stream, and the incremental reader |
| `RecentTable`, `CallEnds`, `Dialer`, `DialerNumbers`, `DialerObject` | `IntercomDialer`: one call at a time, its end, its waiters, its CSeq numbers |
| `PendingInvites`, `Listener`, `ListenerDialogs`, `ListenerObject` | `SipListener`: pending INVITEs, final responses, accepted dialogs |
| `Sdp`, `SdpForeign`, `SdpAnswer`, `SdpOffer` | the SDP parser, the answer builder, and offers read back |
| `RtspInterleave` | RTP and responses on one RTSP connection |
| `EventHistory` | the portal's event list and the event entity's cursor |
| `Prelude`, `Text` | shared sequence and string helpers |

The environment is arbitrary where the code cannot know better: clocks are parameters (monotone where
asyncio's loop clock is meant), the AES key is any 16-byte block permutation, the peer may close or send
anything at any time, sends may fail, tasks may be cancelled, and a cancelled timer may still fire.
Call-IDs made by the dialer are fresh; like the gateway's domain behind them they carry no white space
at the ends. A stream that has failed stays failed: asyncio's `StreamWriter.drain` raises the exception of
its reader again on every call. Taking an uncontended lock is a step of its own, which only adds
interleavings.

## Where the code does less than one would hope

Each of these properties fails on some runs of the code; a theorem says exactly on which.

* A call can leak when a PLAY reaches `attach_rtsp_session` after `rtsp.stop()` has dropped its session. The
  boundary is exact (`StreamLeak.NoLeakExactly`): an attach is harmless in every continuation if and only if
  its session is still in the server's table or a forced teardown is still waiting for that server to stop.
* A CSeq number is used twice when an exception or a cancellation hits the `drain()` of an in-dialog request,
  because the counter advances behind it (`DialerNumbers.CutMessageReusesItsNumber`). It happens exactly when
  a dial, hangup or message starts a request in a dialog while the counter still has the number of a request
  that was cut short there (`DialerNumbers.NumbersIncreaseExactly`).
* Accepting a second INVITE under the Call-ID of a running dialog strands the first dialog: no end reaches
  it any more (`ListenerDialogs.SecondCallStrandsTheFirst`); nothing else does.
* An event behind the first 20 new ones of a poll is never fired (`EventHistory.ExactlyOnce`).
* The first-packet hook needs the first counted datagram itself to survive (`Receiver.HookNeedsFirstPacket`).

## Model

| member | source | states |
|---|---|---|
| StreamSafety.NoLeakedCall | custom_components/abb_welcome/camera.py:413-548 | Over every run of safe attaches (the session is in its server's table, or a forced teardown still waits for the server): while the media session is active without a client, an uncancelled grace close, a forced close or the teardown of a closed client is still to come. |
| StreamSafety.QuiescentWithoutClientsIsClosed | custom_components/abb_welcome/camera.py:490-520 | Over every run of safe attaches: once all tasks have ended and no closed client awaits teardown, no client means no call. |
| StreamSafety.LateAttachLeaks | custom_components/abb_welcome/rtsp_server.py:148-156 | A concrete run with a PLAY behind a finished forced teardown ends with an open call that nobody will close. |
| StreamSafety.EveryRunIsConsistent | custom_components/abb_welcome/camera.py:418-548 | Over every run: packet handlers are installed exactly while a client is attached, at most one task is inside open() or a locked close(), and an uncancelled grace close never closes under a client. |
| StreamSafety.StepKeepsConsistent | custom_components/abb_welcome/camera.py:413-548 | Every step of every task keeps the invariant behind handlers, lock ownership and grace closes. |
| StreamSafety.StepKeepsOwned | custom_components/abb_welcome/camera.py:413-548 | Every step, a safe attach included, keeps: an active session without clients is covered by a task or teardown that will close it, in lock order. |
| StreamSafety.RunKeepsOwned | custom_components/abb_welcome/camera.py:413-548 | Consistency and coverage hold after every possible run of safe attaches. |
| StreamSafety.RunsCompose | custom_components/abb_welcome/camera.py:413-548 | Runs can be cut anywhere: the second half starts where the first ended. |
| StreamMembers.ClientsAreListed | custom_components/abb_welcome/camera.py:418-548 | Over every run: a client is in the list if and only if it has attached and neither its own teardown, failed push or failed attach nor a gateway end or forced close has come since; it is there once, in order of attachment. |
| StreamMembers.ActiveExactly | custom_components/abb_welcome/camera.py:436-520 | Over every run: the media session is active if and only if its call was set and neither a close nor the gateway has ended it since. |
| StreamMembers.SessionsExactly | custom_components/abb_welcome/rtsp_server.py:148-156 | Over every run: a handler runs if and only if its client has registered and it has not ended; a session is listed if and only if it has registered and neither its teardown nor a server stop has taken it. |
| StreamMembers.HandlerMayExit | custom_components/abb_welcome/rtsp_server.py:321-327 | A handler ends with a teardown while its session is listed, and without one exactly after a server stop has taken the session. |
| StreamLeak.NoLeakExactly | custom_components/abb_welcome/camera.py:413-548 | After any run of safe attaches, one more attach keeps every continuation of safe attaches free of leaks if and only if its session is in the server's table or a forced teardown still waits for that server (camera.py:874-876 stops the server before it forces the close). |
| StreamLeak.UnsafeAttachCanLeak | custom_components/abb_welcome/camera.py:418-445 | From every such state, every unsafe attach has a continuation, without any further attach, that ends in a leak. |
| StreamLeak.StepKeepsGrounded | custom_components/abb_welcome/camera.py:413-548 | Every step keeps each task where its code can be, and a registered session's handler running. |
| StreamCoordinator.StationStreamCoordinator.CancelCloseTask | custom_components/abb_welcome/camera.py:413-416 | Cancels the remembered close task in whatever place it is, and forgets it. |
| StreamCoordinator.StationStreamCoordinator.StartCloseTask | custom_components/abb_welcome/camera.py:500-505 | Replaces the close task by a new sleeping one. |
| StreamCoordinator.StationStreamCoordinator.AddRtspPlaySession | custom_components/abb_welcome/camera.py:522-525 | Every client attached before stays in its place and the new one is last; a session that is there already changes nothing; the list never has duplicates. |
| StreamCoordinator.StationStreamCoordinator.DiscardRtspPlaySession | custom_components/abb_welcome/camera.py:527-530 | Removes exactly this session and keeps the order of the others. |
| StreamCoordinator.StationStreamCoordinator.CloseIfEmpty | custom_components/abb_welcome/camera.py:467-469 | Handlers go and the grace close starts exactly when the list has become empty. |
| StreamCoordinator.StationStreamCoordinator.AttachBegins | custom_components/abb_welcome/camera.py:418-434 | Every client attached before stays, in the same order, and the new one is last unless it was there; handlers are installed, no close is pending, and the run stays safe exactly if the session is registered or about to be cleared. |
| StreamCoordinator.StationStreamCoordinator.AttachGetsLock | custom_components/abb_welcome/camera.py:436-438 | With the lock, opens only if the session is not active, and then nobody else holds it. |
| StreamCoordinator.StationStreamCoordinator.AttachSetsCall | custom_components/abb_welcome/media_pipeline.py:644-870 | The call is set while this attach alone is inside the lock; after a run of safe attaches it is not leaked even if every client has left meanwhile. |
| StreamCoordinator.StationStreamCoordinator.AttachReturns | custom_components/abb_welcome/camera.py:436-438 | Afterwards nobody is inside open() or a locked close(), and after safe attaches the session is not leaked. |
| StreamCoordinator.StationStreamCoordinator.AttachRaises | custom_components/abb_welcome/camera.py:439-445 | The client is gone and closed, the lock empty, no close scheduled, and handlers match the clients that are left. |
| StreamCoordinator.StationStreamCoordinator.DetachRtspSession | custom_components/abb_welcome/camera.py:457-470 | Detach is the discard step: the last client leaving starts the grace close. |
| StreamCoordinator.StationStreamCoordinator.RunTeardown | custom_components/abb_welcome/rtsp_server.py:321-327 | The session leaves the table and the clients; if it was the last, an uncancelled grace close is pending. |
| StreamCoordinator.StationStreamCoordinator.ForwardPacket | custom_components/abb_welcome/camera.py:532-548 | The clients left are exactly those attached whose push did not fail, and an empty list schedules the close. |
| StreamCoordinator.StationStreamCoordinator.GatewayCallEnded | custom_components/abb_welcome/camera.py:472-488 | The session is inactive, no client is attached, and every client that was is closed. |
| StreamCoordinator.StationStreamCoordinator.ForceEnters | custom_components/abb_welcome/camera.py:490-494 | No client and no grace close is left, and the forced close is in line. |
| StreamCoordinator.StationStreamCoordinator.ForceStarts | custom_components/abb_welcome/camera.py:490-494 | The same for a forced close of its own. |
| StreamCoordinator.StationStreamCoordinator.WorldMoves | custom_components/abb_welcome/rtsp_server.py:148-156 | SETUP, lost peers, a server stop and the gateway's hang-up leave clients and lock line alone and no run unsafe. |
| StreamCoordinator.StationStreamCoordinator.ForceGetsLock | custom_components/abb_welcome/camera.py:494-496 | With the lock, closes exactly if the session is active. |
| StreamCoordinator.StationStreamCoordinator.ForceCloses | custom_components/abb_welcome/camera.py:496-498 | The session is inactive, the task gone, and nobody inside open() or a locked close(). |
| StreamCoordinator.StationStreamCoordinator.GraceWakes | custom_components/abb_welcome/camera.py:507-513 | The task stays, in line for the lock, exactly if no client is back. |
| StreamCoordinator.StationStreamCoordinator.GraceGetsLock | custom_components/abb_welcome/camera.py:514-518 | Closes exactly while no client is attached and the session is active. |
| StreamCoordinator.StationStreamCoordinator.GraceCloses | custom_components/abb_welcome/camera.py:517-520 | The session is inactive, the lock empty, and if nobody cancelled the task no client has lost it. |
| StreamCoordinator.StationStreamCoordinator.GraceIsAborted | custom_components/abb_welcome/camera.py:413-416 | The lock is empty and some later task is remembered; after safe attaches the session left open is not leaked. |
| StreamCoordinator.DropClientsTwice | custom_components/abb_welcome/camera.py:532-534 | Discarding clients one after the other comes to discarding the set, the order of the rest unchanged. |
| StreamCoordinator.DropClientsRelevant | custom_components/abb_welcome/camera.py:532-534 | Only failed pushes to attached clients matter. |
| Talkback.FeedIsChunkIndependent | custom_components/abb_welcome/media_pipeline.py:314-329 | Feeding any split of a byte string, odd pieces included, leaves the same sender as feeding it at once. |
| Talkback.FeedTwice | custom_components/abb_welcome/media_pipeline.py:314-329 | Two feeds are one feed of the concatenation, counters included. |
| Talkback.CutInTwo | custom_components/abb_welcome/media_pipeline.py:318-323 | Cutting frames can stop anywhere and resume on the remainder. |
| Talkback.FrameAt | custom_components/abb_welcome/media_pipeline.py:318-323 | The k-th frame is the encoding of the k-th stretch of samples_per_packet samples. |
| Talkback.RemainderIsRest | custom_components/abb_welcome/media_pipeline.py:318-323 | What is left in the buffer is exactly the bytes behind the last whole frame. |
| TalkbackRuns.QueueIsNewestFrames | custom_components/abb_welcome/media_pipeline.py:314-329 | Over every run: the queue is the newest max_queue_frames at most of the frames accepted since the last stop, the buffer the unfinished frame. |
| TalkbackRuns.FramesAreConserved | custom_components/abb_welcome/media_pipeline.py:299-347 | Over every run: frames_received = voice packets + dropped + queued + frames cleared by stop_talk; packets_sent = voice + silence; the queue stays within its bound. |
| TalkbackRuns.VoiceKeepsOrder | custom_components/abb_welcome/media_pipeline.py:314-347 | Over every run: the voice payloads are a subsequence of the A-law frames of the accepted PCM, with strictly increasing sources, so none is repeated or reordered. |
| TalkbackRuns.CountersAreNumbered | custom_components/abb_welcome/media_pipeline.py:361-379 | Over every run the sequence and timestamp counters are the start values plus packets and payload bytes, modulo 2^16 and 2^32. |
| TalkbackRuns.PacketsAreNumbered | custom_components/abb_welcome/media_pipeline.py:361-379 | Packet k carries sequence number seq0 + k mod 2^16 and timestamp ts0 + the clear payload lengths before it mod 2^32, across voice, silence and encryption. |
| TalkbackRuns.TimestampStepIs160 | custom_components/abb_welcome/media_pipeline.py:331-379 | With 160 samples a packet every payload, voice or silence, advances the timestamp by 160. |
| TalkbackRuns.MarkerStartsTalkspurt | custom_components/abb_welcome/media_pipeline.py:299-345 | The marker is set exactly on the first voice packet since the latest start_talk (section 4.1 of RFC 3551). |
| TalkbackRuns.SentPacketsAreWellFormed | custom_components/abb_welcome/media_pipeline.py:361-379 | Every packet sent has a valid RTP header and a payload that the envelope can carry. |
| TalkbackRuns.EncryptedPacketsDecrypt | custom_components/abb_welcome/media_pipeline.py:361-379 | Whoever holds the key recovers header and clear payload of every packet of every run. |
| TalkbackRuns.WireIsNumbered | custom_components/abb_welcome/media_pipeline.py:361-379 | Over every run, the bytes of packet k: 0x80, marker and payload type, then big-endian seq0 + k mod 2^16, ts0 + the clear payload lengths before it mod 2^32, and the SSRC (section 5.1 of RFC 3550). |
| TalkbackRuns.WireLayout | custom_components/abb_welcome/media_pipeline.py:361-379 | What stands in each of the twelve header bytes of one packet, and the payload or its envelope behind them. |
| TalkSender.PcmaTalkSender.StartTalking | custom_components/abb_welcome/media_pipeline.py:299-301 | The next voice packet will carry the marker, whenever it comes; the frame balance holds. |
| TalkSender.PcmaTalkSender.StopTalking | custom_components/abb_welcome/media_pipeline.py:303-307 | Only silence follows; what was queued is counted as cleared, and frames received = sent + dropped + cleared. |
| TalkSender.PcmaTalkSender.DropOldest | custom_components/abb_welcome/media_pipeline.py:326-328 | Keeps the newest max_queue_frames frames and counts what it drops. |
| TalkSender.PcmaTalkSender.FeedPcm16le | custom_components/abb_welcome/media_pipeline.py:314-329 | Frame by frame with early dropping comes to cutting everything and keeping the newest frames; returns the number of frames cut; the frame balance holds. |
| TalkSender.PcmaTalkSender.CutFrames | custom_components/abb_welcome/media_pipeline.py:317-329 | The loop itself, on the buffer and the bounded queue. |
| TalkSender.PcmaTalkSender.TakePayload | custom_components/abb_welcome/media_pipeline.py:336-349 | What one iteration sends: the oldest queued frame with the pending marker while talking, else silence. |
| TalkSender.PcmaTalkSender.SendPcma | custom_components/abb_welcome/media_pipeline.py:361-379 | Writes 0x80, marker and payload type, the sequence number, the timestamp and the SSRC big-endian, then the payload, enveloped if there is a key; advances the sequence number by one and the timestamp by the clear payload length, modulo 2^16 and 2^32. |
| TalkSender.PcmaTalkSender.LoopOnce | custom_components/abb_welcome/media_pipeline.py:331-359 | One iteration takes the tick step, emits that packet with the counters it began with in the header bytes, advances or resets next_at, and keeps the frame balance. |
| Pacing.RateIsBounded | custom_components/abb_welcome/media_pipeline.py:331-359 | Packet j and a later packet m are at least m - j - 1 intervals apart, however late the loop is woken. |
| Pacing.PacketIsNotEarly | custom_components/abb_welcome/media_pipeline.py:331-359 | The m-th packet of a run goes out no earlier than m intervals after its start. |
| Pacing.CatchUpPacket | custom_components/abb_welcome/media_pipeline.py:350-359 | The bound is tight: a late start sends one catch-up packet at once. |
| Pacing.BeatIsExact | custom_components/abb_welcome/media_pipeline.py:350-359 | A loop that is woken in time keeps its beat without drift: exactly the runs whose k-th packet goes out in the k-th interval are possible. |
| Pacing.LateRestarts | custom_components/abb_welcome/media_pipeline.py:350-359 | After a late iteration the beat starts anew at the clock reading, so what was missed is not sent after it. |
| TalkbackOwner.IntrusionsLeaveNoTrace | custom_components/abb_welcome/camera.py:565-602 | Over every run, stops and feeds by sessions that are not the owner at that time change nothing: the run without them ends in the same state. |
| TalkbackOwner.UndisturbedIsUndisputed | custom_components/abb_welcome/camera.py:565-602 | That run has no stop or feed left by a named session while another one is the owner, and is the whole run exactly if there was none. |
| TalkbackOwner.OwnerStaysUntilReleased | custom_components/abb_welcome/camera.py:550-602 | An owner stays the owner through any run without a start by another session, an own or anonymous stop, or a close of the stream. |
| TalkbackOwner.OwnerStepStays | custom_components/abb_welcome/camera.py:550-602 | One event takes the ownership away if and only if it is one of these. |
| TalkbackOwner.TalkbackGuard.StartTalkback | custom_components/abb_welcome/camera.py:550-563 | Takes over ownership even when the sender is not ready; a ready one talks and will set the marker. |
| TalkbackOwner.TalkbackGuard.StopTalkback | custom_components/abb_welcome/camera.py:565-576 | Ignored, without any change, exactly for a named session while another one owns the talkback; else the sender is silent with an empty queue and nobody owns it. |
| TalkbackOwner.TalkbackGuard.FeedTalkback | custom_components/abb_welcome/camera.py:578-602 | Ignored for the same sessions; else a free ownership goes to the session before the sender is asked, an owner stays, and a ready sender is fed. |
| TalkbackOwner.TalkbackGuard.StreamMoves | custom_components/abb_welcome/camera.py:490-520 | A close of the stream takes sender and ownership away; an opening stream brings its sender; the loop changes the sender alone. |
| Alaw.QuantisationError | custom_components/abb_welcome/media_pipeline.py:181-219 | For every integer sample the decoded code differs from the clamped sample by at most 8 below 512, 16 below 1024, 32 below 2048, and so on up to 512 (Table 1a of ITU-T G.711). |
| Alaw.DecodingIsMonotone | custom_components/abb_welcome/media_pipeline.py:181-219 | A larger sample never decodes to a smaller value. |
| Alaw.ComplementFlipsSign | custom_components/abb_welcome/media_pipeline.py:181-219 | encode(-s-1) is encode(s) with the sign bit flipped. |
| Alaw.LevelIsMiddle | custom_components/abb_welcome/media_pipeline.py:181-219 | The decoded level of a magnitude is the middle of its quantisation interval. |
| Alaw.LevelMonotone | custom_components/abb_welcome/media_pipeline.py:181-219 | Levels grow with magnitudes, across segment boundaries too. |
| Alaw.LinearToPcma | custom_components/abb_welcome/media_pipeline.py:181-219 | The segment search loop computes the specified code for every sample, clamped or not. |
| Alaw.BuildTable | custom_components/abb_welcome/media_pipeline.py:222-235 | A table of all 16-bit samples holds each one's code. |
| Alaw.EncodePcm16le | custom_components/abb_welcome/media_pipeline.py:222-235 | Filling the output buffer maps the code over the little-endian samples and drops a trailing odd byte. |
| Alaw.BufferOfSamples | custom_components/abb_welcome/media_pipeline.py:222-235 | A buffer into which samples were written low byte first encodes sample by sample, with or without an odd byte behind them. |
| Alaw.KnownCodes | custom_components/abb_welcome/media_pipeline.py:222-235 | 0 gives the silence byte 0xD5, -1 gives 0x55, the extremes give 0xAA and 0x2A. |
| Alaw.ToggleIsXor55 | custom_components/abb_welcome/media_pipeline.py:181-219 | The last step inverts bits 0, 2, 4 and 6 of the seven code bits and no other. |
| Rtp.PayloadIsWithinBounds | custom_components/abb_welcome/media_pipeline.py:83-125 | Both RTP parsers accept the same datagrams and name the same payload. |
| Rtp.BoundsOfPacket | custom_components/abb_welcome/media_pipeline.py:107-128 | For every valid header (CSRCs, extension) and any padding the parser finds exactly the payload (section 5.1 of RFC 3550). |
| Rtp.EnvelopeIsExact | custom_components/abb_welcome/media_pipeline.py:52-60 | A datagram decrypts to a clear payload if and only if its payload is what the encoder emits for it. |
| Rtp.EnvelopeRoundTrip | custom_components/abb_welcome/media_pipeline.py:148-178 | For any valid header, padding and clear payload of 1 to 65535 bytes, decrypting the encrypted packet gives the header with the P bit cleared and the clear payload. |
| Rtp.EncryptedIsAccepted | custom_components/abb_welcome/media_pipeline.py:148-178 | What the encoder wrapped, behind any header, the decoder unwraps. |
| Rtp.AcceptedWasEncrypted | custom_components/abb_welcome/media_pipeline.py:148-178 | Whatever the decoder accepts re-encrypts to the same payload, and the result parses with the same payload start. |
| Rtp.ClearedHeaderParses | custom_components/abb_welcome/media_pipeline.py:168-178 | Clearing the P bit leaves the start of the payload where it was. |
| Rtp.EcbInverse | custom_components/abb_welcome/media_pipeline.py:52-60 | ECB over a block permutation is inverted block by block and keeps the length. |
| Rtp.PaddingBitOnly | custom_components/abb_welcome/media_pipeline.py:168-178 | Header with and without padding differ in the P bit alone. |
| RtpLayout.FixedLayout | custom_components/abb_welcome/media_pipeline.py:361-370 | The twelve fixed bytes of every packet: flags and CSRC count, marker and payload type, and the big-endian sequence number, timestamp and SSRC at 2, 4 and 8. |
| RtpLayout.VariableLayout | custom_components/abb_welcome/media_pipeline.py:107-128 | The contributing sources behind them, then the extension with its profile and its length in words. |
| RtpLayout.AcceptedIsPacket | custom_components/abb_welcome/media_pipeline.py:107-128 | Every datagram that the parser accepts is a well-formed packet with exactly the payload it names, so BoundsOfPacket speaks of all of them. |
| RtpLayout.EnvelopeLayout | custom_components/abb_welcome/media_pipeline.py:52-60 | The envelope is the big-endian clear length and the 16-byte blocks of the clear payload under the key, the last one filled up with zeros. |
| RtpLayout.EnvelopeRefuses | custom_components/abb_welcome/media_pipeline.py:52-56 | An empty payload or one over 65535 bytes is refused, and nothing else. |
| Receiver.RtpReceiver.DatagramReceived | custom_components/abb_welcome/media_pipeline.py:456-537 | One datagram takes the counting step, and is delivered as its fate says; the hook runs exactly if it is delivered and the first one counted. What the fate is, is said without it by the next five rows. |
| Receiver.EnvelopedIsDelivered | custom_components/abb_welcome/media_pipeline.py:497-527 | With the key, for every valid header, padding and clear payload: the enveloped packet is delivered as the packet with the clear payload, no padding, and the promised payload type. |
| Receiver.PlainIsDelivered | custom_components/abb_welcome/media_pipeline.py:478-527 | Without a key every valid packet is delivered with its payload and padding as they came and the promised payload type, unless it is audio in an envelope. |
| Receiver.FilterIsExact | custom_components/abb_welcome/media_pipeline.py:456-477 | Invalid is exactly what is shorter than 12 bytes or not of version 2, RTCP exactly what else has 192 to 223 in the second byte; neither is delivered. |
| Receiver.UndecryptableExactly | custom_components/abb_welcome/media_pipeline.py:497-506 | With a key, what passes the filter is dropped exactly if it does not parse or no clear payload has its payload as envelope. |
| Receiver.CountsAreExact | custom_components/abb_welcome/media_pipeline.py:456-527 | Each datagram moves the counters that its fate names by one and no other. |
| Receiver.ReceiveEnveloped | custom_components/abb_welcome/media_pipeline.py:456-537 | Receiving an enveloped packet returns the clear packet and counts it as decrypted. |
| Receiver.TypesAreExact | custom_components/abb_welcome/media_pipeline.py:470-472 | And the statistics of exactly its payload type, if it is counted. |
| Receiver.DatagramsAreAccountedFor | custom_components/abb_welcome/media_pipeline.py:456-537 | Over every run: received = invalid + RTCP + packets, packets = missing key + undecryptable + delivered = the sum of the payload-type counts, and with a key decrypt_ok = delivered. |
| Receiver.CountKeepsBalance | custom_components/abb_welcome/media_pipeline.py:456-537 | Each datagram keeps these balances. |
| Receiver.DeliveredVideoShape | custom_components/abb_welcome/media_pipeline.py:510-527 | Delivered video has payload type 96; marker, sequence, timestamp and SSRC are those of the datagram; its second byte is 96 or 224, outside the RTCP range (section 4 of RFC 5761). |
| Receiver.DeliveredVideoIsStable | custom_components/abb_welcome/media_pipeline.py:510-527 | A delivered video packet passes a second receiver unchanged. |
| Receiver.DecryptedKeepsHeader | custom_components/abb_welcome/media_pipeline.py:168-178 | Decryption leaves the fixed header behind the first byte alone. |
| Receiver.KeylessAudio | custom_components/abb_welcome/media_pipeline.py:478-496 | Without a key, 160-byte audio is delivered and any enveloped audio is dropped. |
| Receiver.HookNeedsFirstPacket | custom_components/abb_welcome/media_pipeline.py:527-537 | The hook runs at most once, and if and only if the first counted datagram is delivered. |
| Arming.TenureIsExact | custom_components/abb_welcome/streaming_state.py:103-193 | From an arm on and until the next one, armed holds (with its reason, target, deadline and timer) if and only if no disarm, no ring or gate closing that disarms, and not the arm's own timer has come; older timers never matter. |
| Arming.ArmLastsUntilDeadline | custom_components/abb_welcome/streaming_state.py:128-178 | Left alone, an arm lasts until its own deadline even if every cancelled timer still fires. |
| Arming.DeadlineDisarms | custom_components/abb_welcome/streaming_state.py:147-178 | In every run, once the deadline has come the arm's own timer can fire, and it disarms. |
| Arming.SupersededTimerIsInert | custom_components/abb_welcome/streaming_state.py:147-168 | In every run, a timer that is not the latest arm's changes nothing; the latest one disarms, and not before its deadline. |
| Arming.RingArmedOnlyWithPickup | custom_components/abb_welcome/streaming_state.py:103-125 | In every run, armed by a ring implies that pickup is allowed, and a disarmed gateway admits no station. |
| Arming.RingAdmitsItsStationOnly | custom_components/abb_welcome/__init__.py:382-400 | After a ring with pickup allowed, exactly that station may stream, exactly until the arm ends. |
| Arming.ManualArmAdmits | custom_components/abb_welcome/switch.py:110-126 | After a manual arm exactly the named station may stream, or every station if none is named, exactly until the arm ends. |
| Arming.StepKeepsValid | custom_components/abb_welcome/streaming_state.py:103-193 | Every event keeps: armed if and only if the remembered timer is a running, uncancelled one with the shown deadline. |
| Arming.RunKeepsValid | custom_components/abb_welcome/streaming_state.py:103-193 | So does every run. |
| Arming.EndsOrStays | custom_components/abb_welcome/streaming_state.py:103-193 | Each event that does not arm either ends the arm or leaves all of it as it is. |
| Arming.OwnTimerCannotBeEarly | custom_components/abb_welcome/streaming_state.py:147-168 | If the arm's own timer fires, its deadline has passed. |
| Arming.ArmedState.CancelTimer | custom_components/abb_welcome/streaming_state.py:138-141 | A running timer is asked to stop, still runs, and is forgotten; an ended one is left alone. |
| Arming.ArmedState.ArmByUser | custom_components/abb_welcome/streaming_state.py:128-178 | Armed for the station until now plus the duration, watched by a timer of its own. |
| Arming.ArmedState.DisarmByUser | custom_components/abb_welcome/streaming_state.py:180-193 | Disarmed, and no timer is remembered, whatever timers may still fire. |
| Arming.ArmedState.SetPickupAllowed | custom_components/abb_welcome/streaming_state.py:103-125 | Closing the gate ends exactly a ring arm; a manual arm stays. |
| Arming.ArmedState.OnRinging | custom_components/abb_welcome/__init__.py:382-400 | A ring arms for its station for 120 seconds exactly if pickup is allowed, and disarms otherwise. |
| Arming.ArmedState.TimerFires | custom_components/abb_welcome/streaming_state.py:147-168 | Disarms if and only if it is the latest arm's timer, never before the deadline; otherwise reason, target and deadline stay. |
| Arming.ArmedState.IsStreamAllowed | custom_components/abb_welcome/streaming_state.py:88-100 | A station may stream exactly while armed for no station in particular or for that one. |
| SipText.ParseInvertsSerialize | custom_components/abb_welcome/sip_client.py:119-153 | For every message of plain lines, whatever follows it on the stream, the parser returns its start line, headers and body and consumes exactly its bytes (sections 7.5 and 18.3 of RFC 3261). |
| SipText.ParseIsStable | custom_components/abb_welcome/sip_client.py:119-153 | A complete first frame stays the first frame however many bytes follow. |
| SipText.SipRequestIsSerialized | custom_components/abb_welcome/sip_client.py:163-172 | What _sip_request builds is the serialized message with its Content-Length. |
| SipText.HeadersReadBack | custom_components/abb_welcome/sip_client.py:145-152 | Headers written as name, colon, blank, value are read back as exactly those names and values, in order. |
| SipForeign.FieldReads | custom_components/abb_welcome/sip_client.py:145-152 | A header with any white space around name and value is read as exactly the two. |
| SipForeign.NoField | custom_components/abb_welcome/sip_client.py:147-149 | A line without a colon is skipped. |
| SipText.LengthOfHead | custom_components/abb_welcome/sip_client.py:132-135 | The Content-Length search finds the length line and nothing else in the head. |
| SipText.NatOfDigit | custom_components/abb_welcome/sip_client.py:132-135 | Digits count from the most significant one. |
| SipForeign.LengthAmongFields | custom_components/abb_welcome/sip_client.py:132-135 | Content-Length is found in any letter case, with any white space before the digits, behind any plain lines and with anything behind the digits. |
| SipForeign.NoDigitsNoLength | custom_components/abb_welcome/sip_client.py:132-135 | The key without digits behind it does not match. |
| SipText.FindBlankLine | custom_components/abb_welcome/sip_client.py:121-129 | The separator is found behind the last header line, not before. |
| SipStream.ReceiveAll | custom_components/abb_welcome/sip_client.py:119-153 | End to end: however the bytes of n messages are cut into chunks, n reads return exactly these messages in order, and the bytes behind them remain. |
| SipStream.Stream.RecvFrame | custom_components/abb_welcome/sip_client.py:119-153 | Returns the first frame of received and pending bytes and leaves exactly the rest; a close in the middle keeps the old leftover. |
| SipStream.Stream.RecvHead | custom_components/abb_welcome/sip_client.py:120-125 | Reads until the buffer holds a blank line; no byte is lost or duplicated. |
| SipStream.Stream.RecvBody | custom_components/abb_welcome/sip_client.py:137-141 | Reads until the body is complete; no byte is lost or duplicated. |
| SipStream.Stream.RecvFinalResponse | custom_components/abb_welcome/sip_client.py:155-160 | Returns the first frame that is no provisional response and consumes everything up to it. |
| SipStream.SkippedAreSkipped | custom_components/abb_welcome/sip_client.py:155-160 | Any number of provisional responses in front of a message make no difference to it. |
| SipStream.StatusLineIsRead | custom_components/abb_welcome/sip_client.py:62-72 | A line of SIP/2.0, a number, a blank and any reason has that number as its code, and is skipped if and only if the number is from 100 to 199. |
| SipStream.CodeMeansStatusLine | custom_components/abb_welcome/sip_client.py:62-72 | Conversely, a code is read only from a line that starts with the version and whose second word is the code in digits. |
| SipStream.RequestIsKept | custom_components/abb_welcome/sip_client.py:155-160 | A request is never skipped, whatever its verb in capitals and its URI. |
| SipStream.ReceiveFinal | custom_components/abb_welcome/sip_client.py:155-160 | On a stream cut anyhow: behind any number of 1xx responses the first other response is returned with its code, and exactly the bytes behind it remain. |
| SipStream.HeadDecides | custom_components/abb_welcome/sip_client.py:127-143 | Once the head is complete, it alone decides where the frame ends and what it is. |
| Dialer.EndsExactlyTheCallItNames | custom_components/abb_welcome/intercom_dialer.py:372-391 | The active call is cleared if and only if the event ends that very call, and its reason is then on record; otherwise it stays, so no other call is ever established over it. |
| Dialer.ScopedHangupSparesOthers | custom_components/abb_welcome/intercom_dialer.py:877-896 | A hangup scoped to a call is without any effect exactly when another call is active. |
| Dialer.CallsNeverOverlap | custom_components/abb_welcome/intercom_dialer.py:690-712 | In every run a call is established only while no other is active, even behind a replaced call whose hangup raised. |
| Dialer.EveryCallIsEnded | custom_components/abb_welcome/intercom_dialer.py:690-712 | In every run, whatever call was ever established is the active one or has been ended. |
| Dialer.StepAccounts | custom_components/abb_welcome/intercom_dialer.py:690-712 | Every step keeps: each established call is active or has been ended. |
| Dialer.WaiterHearsTheFirstEnd | custom_components/abb_welcome/intercom_dialer.py:454-490 | Over every run, a waiter that is not cancelled gets the reason of the first end of its call, and waits on if there is none. |
| Dialer.NobodyWaitsForARememberedEnd | custom_components/abb_welcome/intercom_dialer.py:454-490 | Over every run: no call with a recorded reason has an unresolved waiter, every unresolved waiter is listed, and at most 32 distinct reasons are kept. |
| Dialer.ReasonSurvivesExactly | custom_components/abb_welcome/intercom_dialer.py:485-487 | Over every run, a recorded reason is kept exactly as long as the new entries behind it fit into the 32 places, oldest inserted evicted first. |
| Dialer.TableListsTheEnds | custom_components/abb_welcome/intercom_dialer.py:474-490 | The table after a run is the old one with the run's ends recorded in order. |
| Dialer.StepKeepsValid | custom_components/abb_welcome/intercom_dialer.py:372-1060 | Every step keeps the invariant of call, connection, operation, reasons and waiters. |
| Dialer.ConnectionExactly | custom_components/abb_welcome/intercom_dialer.py:372-432 | Over every run: there is a connection if and only if one was made and not reset since, and the counter is 1 plus what the requests since then add. |
| Dialer.ResetMakesReconnectable | custom_components/abb_welcome/intercom_dialer.py:372-411 | After a reset, a broken send or a failed REGISTER a connect is possible at once, and the call that was active has ended as connection_reset. |
| Dialer.RunKeepsValid | custom_components/abb_welcome/intercom_dialer.py:372-1060 | So does every run. |
| RecentTable.SurvivesExactly | custom_components/abb_welcome/intercom_dialer.py:485-487 | In a bounded insertion-ordered dictionary an entry survives if and only if the later insertions do not exceed the places before it; assigning to a present key costs nothing. |
| RecentTable.RememberKeepsValid | custom_components/abb_welcome/intercom_dialer.py:485-487 | Recording keeps the keys distinct, order and dictionary in step, and the size bound. |
| RecentTable.Remembers | custom_components/abb_welcome/intercom_dialer.py:485-487 | The new entry is there and no other is changed or made up. |
| CallEnds.EndWakesItsWaiters | custom_components/abb_welcome/intercom_dialer.py:488-490 | An end resolves exactly the unresolved waiters of its call with its reason, and no others. |
| CallEnds.EndWaitTakesOne | custom_components/abb_welcome/intercom_dialer.py:465-472 | The finally block takes its own future off the list of its call and leaves every other waiter there; the invariant has no future listed twice and no empty list. |
| CallEnds.RecordEndKeepsValid | custom_components/abb_welcome/intercom_dialer.py:474-490 | Recording an end keeps: no remembered end has waiters, and every unresolved future is listed under its call. |
| CallEnds.BeginWaitKeepsValid | custom_components/abb_welcome/intercom_dialer.py:454-464 | Starting to wait keeps it: only calls without a recorded end get waiters. |
| CallEnds.EndWaitKeepsValid | custom_components/abb_welcome/intercom_dialer.py:465-472 | The finally block of a waiter keeps it. |
| CallEnds.CancelWaitKeepsValid | custom_components/abb_welcome/intercom_dialer.py:464-472 | A cancelled waiter keeps it. |
| DialerNumbers.NumbersIncreaseExactly | custom_components/abb_welcome/intercom_dialer.py:743-833 | Over every run: in every dialog that was established the CSeq numbers of INVITE, MESSAGE and BYE strictly increase if and only if no dial, hangup or message starts a request there while the counter still has the number of a request cut short there; and every ACK carries the number of its latest INVITE (section 12.2.1.1 of RFC 3261). |
| DialerNumbers.CutMessageReusesItsNumber | custom_components/abb_welcome/intercom_dialer.py:1001-1002 | A concrete run: a MESSAGE cut short leaves its number to the BYE. |
| DialerNumbers.RunNumbers | custom_components/abb_welcome/intercom_dialer.py:743-1060 | The same from any numbered state: increasing afterwards if and only if increasing before and never repeating a cut number. |
| DialerNumbers.StepKeepsCutsExact | custom_components/abb_welcome/intercom_dialer.py:898-1060 | Every step keeps: a dialog that may still send has used the counter's number if and only if a request cut short there has it. |
| DialerNumbers.WritesNewNumber | custom_components/abb_welcome/intercom_dialer.py:898-1060 | Every request but an ACK and the best-effort BYE has a number that its dialog has not used, unless it repeats a cut one; authentication retries included. |
| DialerNumbers.StepKeepsInviteNumbered | custom_components/abb_welcome/intercom_dialer.py:743-810 | The INVITE under way carries the counter's number, which the ACK then reuses. |
| DialerNumbers.StepKeepsBounded | custom_components/abb_welcome/intercom_dialer.py:743-1060 | No call that may still send has used a number beyond the counter. |
| DialerNumbers.SilentUntilConnect | custom_components/abb_welcome/intercom_dialer.py:365-411 | From a reset on, and until the next connect, not a single request is written. |
| DialerObject.IntercomDialer.RememberEnd | custom_components/abb_welcome/intercom_dialer.py:485-487 | The eviction loop leaves the bounded table with the new entry. |
| DialerObject.IntercomDialer.ResolveWaiters | custom_components/abb_welcome/intercom_dialer.py:488-490 | The loop over the popped waiters resolves exactly those not done. |
| DialerObject.IntercomDialer.FinishCall | custom_components/abb_welcome/intercom_dialer.py:474-490 | Clears the call and the pending target exactly if they have this id, records the reason, wakes the waiters, and leaves connection and counter; a blank id does nothing. |
| DialerObject.IntercomDialer.ResetConnectionLocked | custom_components/abb_welcome/intercom_dialer.py:372-384 | Afterwards there is no writer; the active call has ended as connection_reset, or the pending target is gone; the counter is as it was. |
| DialerObject.IntercomDialer.ResetConnection | custom_components/abb_welcome/intercom_dialer.py:372-384 | There is no writer and no operation under way, so that a connect can follow; there is no call, and every call there ever was has ended. |
| DialerObject.IntercomDialer.ConnectionIsLost | custom_components/abb_welcome/intercom_dialer.py:372-391 | The same after a send that finds the connection gone, and after a failed REGISTER; the call that was active has the end connection_reset on record. |
| DialerObject.IntercomDialer.ConnectLocked | custom_components/abb_welcome/intercom_dialer.py:411-432 | The counter restarts at 1 only when no call is active and every call there was has ended. |
| DialerObject.IntercomDialer.RegisterIsChallenged | custom_components/abb_welcome/intercom_dialer.py:673-688 | The REGISTER advances the shared counter; the active call's numbers stay behind it. |
| DialerObject.IntercomDialer.RegisterIsAccepted | custom_components/abb_welcome/intercom_dialer.py:686-688 | The same on success. |
| DialerObject.IntercomDialer.InviteIsRejected | custom_components/abb_welcome/intercom_dialer.py:789-791 | No call is left, the rejected dial never was one, and every earlier call has ended. |
| DialerObject.IntercomDialer.WaitCallEnd | custom_components/abb_welcome/intercom_dialer.py:454-464 | Answers at once for a blank id or a recorded end, else adds a future and lists it under that call. |
| DialerObject.IntercomDialer.WaitIsCancelled | custom_components/abb_welcome/intercom_dialer.py:464-472 | That future is cancelled unless it is done already, and every other one as it was. |
| DialerObject.IntercomDialer.WaitFinally | custom_components/abb_welcome/intercom_dialer.py:465-472 | The future is on no list any more, every other waiter still is, and no empty list stays behind. |
| DialerObject.IntercomDialer.StartDialing | custom_components/abb_welcome/intercom_dialer.py:725-754 | Sets the pending target; with a connection writes one INVITE with the counter, without one is idle again at once. |
| DialerObject.IntercomDialer.DialLocked | custom_components/abb_welcome/intercom_dialer.py:694-711 | An active call is left by a BYE before the new one is dialed, and what is written has a new number unless it repeats a cut one. |
| DialerObject.IntercomDialer.InviteIsChallenged | custom_components/abb_welcome/intercom_dialer.py:762-778 | The retry has a number that the dialog has not used and is its latest INVITE; there is no call. |
| DialerObject.IntercomDialer.InviteIsAccepted | custom_components/abb_welcome/intercom_dialer.py:795-816 | The ACK is the only new request and has the number of the latest INVITE; the dialog's numbers increase. |
| DialerObject.IntercomDialer.EstablishCall | custom_components/abb_welcome/intercom_dialer.py:818-833 | No call was active, every other call has ended, the dialog's numbers increase and the counter is ahead of them. |
| DialerObject.IntercomDialer.BestEffortBye | custom_components/abb_welcome/intercom_dialer.py:834-875 | There is no call, the dialog never becomes one, and the BYE has the INVITE's number. |
| DialerObject.IntercomDialer.HangUpLocked | custom_components/abb_welcome/intercom_dialer.py:898-919 | Writes the BYE of the active call, or does nothing. |
| DialerObject.IntercomDialer.HangUpScoped | custom_components/abb_welcome/intercom_dialer.py:877-896 | A scope that names another call leaves everything as it was; a BYE that is written has a new number unless it repeats a cut one. |
| DialerObject.IntercomDialer.SendIsComplete | custom_components/abb_welcome/intercom_dialer.py:919-920 | The counter is ahead again of every number the dialog has used. |
| DialerObject.IntercomDialer.OperationIsCut | custom_components/abb_welcome/intercom_dialer.py:919-920 | A request cut short in its drain stays on the wire under a number that the counter does not pass; the call stays. |
| DialerObject.IntercomDialer.ByeIsOver | custom_components/abb_welcome/intercom_dialer.py:921-928 | No call is active, local_bye is on record, and a waiting dial has become the pending target. |
| DialerObject.IntercomDialer.ReplacingHangupFails | custom_components/abb_welcome/intercom_dialer.py:694-711 | If the hangup in front of a dial fails, the old call stays active and the dial behind it cannot get through. |
| DialerObject.IntercomDialer.SendActiveMessage | custom_components/abb_welcome/intercom_dialer.py:930-1001 | Refuses without call or connection, else writes a MESSAGE with a new number unless it repeats a cut one. |
| DialerObject.IntercomDialer.MessageIsChallenged | custom_components/abb_welcome/intercom_dialer.py:1010-1044 | The retry always has a number that the dialog has not used. |
| DialerObject.IntercomDialer.MessageIsOver | custom_components/abb_welcome/intercom_dialer.py:1046-1060 | The end of a message gives the lock back and changes nothing else. |
| DialerObject.IntercomDialer.InboundBye | custom_components/abb_welcome/intercom_dialer.py:514-524 | A BYE from the gateway finishes the call it names and leaves any other active. |
| Listener.EveryInviteHasOneFate | custom_components/abb_welcome/sip_listener.py:808-821 | Over every run: no INVITE gets two final responses, so never both 200 and 487 (section 9.2 of RFC 3261), a pending one has none, and received = pending + answered + expired + replaced + popped with an unreadable offer. |
| Listener.StepKeepsInvitesValid | custom_components/abb_welcome/sip_listener.py:788-983 | Every event keeps the pending INVITEs distinct and unanswered and the balance. |
| Listener.RunKeepsInvitesValid | custom_components/abb_welcome/sip_listener.py:788-983 | So does every run. |
| Listener.AnswerKeepsValid | custom_components/abb_welcome/sip_listener.py:410-482 | Accepting answers one pending INVITE and takes it from the table. |
| Listener.CancelKeepsValid | custom_components/abb_welcome/sip_listener.py:808-821 | CANCEL answers exactly the pending INVITE of its Call-ID. |
| PendingInvites.PopTakesOnlyTheChosen | custom_components/abb_welcome/sip_listener.py:958-973 | Popping takes exactly the chosen INVITE; every other unexpired one stays pending, in its place. |
| PendingInvites.ChosenExactly | custom_components/abb_welcome/sip_listener.py:958-973 | Chosen is exactly the first INVITE of the station that is at most 45 seconds old, else the only one that young, else none. |
| PendingInvites.YoungOnesStay | custom_components/abb_welcome/sip_listener.py:401-407 | No lookup throws out an INVITE that is at most 45 seconds old, and popping takes the chosen one alone. |
| PendingInvites.PutKeepsPlaces | custom_components/abb_welcome/sip_listener.py:841-868 | A new INVITE takes the place of one with its Call-ID, or the last place. |
| PendingInvites.ChosenIsLive | custom_components/abb_welcome/sip_listener.py:958-973 | The chosen INVITE was pending and has not expired. |
| PendingInvites.FirstOfIsFirst | custom_components/abb_welcome/sip_listener.py:965-967 | The match returned is the first one of that station. |
| PendingInvites.SweptKeepsUnexpired | custom_components/abb_welcome/sip_listener.py:401-407 | A lookup removes nothing but expired INVITEs. |
| ListenerObject.SipListener.PendingCallForStation | custom_components/abb_welcome/sip_listener.py:396-408 | True if and only if the station's INVITE is there, or there is just one, counting those at most 45 seconds old; every such INVITE stays, and expired ones are counted. |
| ListenerObject.SipListener.PopPendingInvite | custom_components/abb_welcome/sip_listener.py:958-973 | Returns an INVITE exactly if pending_call_for_station would answer true, never one older than 45 seconds: the first of the station, else the only one; the others stay. |
| ListenerObject.SipListener.HandleInvite | custom_components/abb_welcome/sip_listener.py:841-868 | The new INVITE is pending and unanswered, in the place of one with its Call-ID; nothing else is added. |
| ListenerObject.SipListener.AcceptPendingCall | custom_components/abb_welcome/sip_listener.py:410-482 | The INVITE answered with 200 OK is the first of the station among those at most 45 seconds old, else the only such one, and had no final response before; an unreadable offer loses it; every other such INVITE stays. |
| ListenerObject.SipListener.EnrollDialog | custom_components/abb_welcome/sip_listener.py:463-466 | The new dialog is listed under its Call-ID, and an old reason under it is forgotten, so that its wait is not answered by an earlier call's end. |
| ListenerObject.SipListener.CancelArrives | custom_components/abb_welcome/sip_listener.py:808-821 | 487 goes to the pending INVITE of that Call-ID, which had no final response before and is pending no more; exactly the others stay; without one nothing is sent. |
| ListenerObject.SipListener.RememberEnd | custom_components/abb_welcome/sip_listener.py:977-979 | The eviction loop keeps at most 20 reasons. |
| ListenerObject.SipListener.FinishAcceptedDialog | custom_components/abb_welcome/sip_listener.py:975-983 | Removes the dialog, records the reason, ends the dialog. |
| ListenerObject.SipListener.FinishAllDialogs | custom_components/abb_welcome/sip_listener.py:674-683 | Losing the connection, or stopping, finishes every accepted dialog in order. |
| ListenerObject.SipListener.ShutDown | custom_components/abb_welcome/sip_listener.py:674-683 | Losing the connection or stopping ends every dialog that is not stranded. |
| ListenerObject.SipListener.ByeArrives | custom_components/abb_welcome/sip_listener.py:822-824 | A BYE ends the running dialog of its Call-ID and leaves all others as they are. |
| ListenerObject.SipListener.AckArrives | custom_components/abb_welcome/sip_listener.py:825-831 | An ACK marks exactly the running dialog of its Call-ID; one that has ended is left alone. |
| ListenerObject.SipListener.HangUpAcceptedCall | custom_components/abb_welcome/sip_listener.py:519-543 | Exactly for an accepted call on a live connection a BYE with the next number goes out; all BYE numbers strictly increase. |
| ListenerObject.SipListener.HangUpFails | custom_components/abb_welcome/sip_listener.py:519-543 | A BYE that cannot be sent changes nothing but that the call may be hung up again. |
| ListenerObject.SipListener.HangUpIsDone | custom_components/abb_welcome/sip_listener.py:543-544 | The running dialog ends as local_bye, all others stay as they are. |
| ListenerDialogs.ReachableIffNeverOvertaken | custom_components/abb_welcome/sip_listener.py:463-465 | Over every run, every running dialog stays reachable by an end, if and only if no call is accepted under the Call-ID of a running dialog. |
| ListenerDialogs.EnrollStrands | custom_components/abb_welcome/sip_listener.py:463-465 | A newly accepted dialog is listed, and strands exactly the running dialog that was listed under its Call-ID. |
| ListenerDialogs.AckMarksItsDialog | custom_components/abb_welcome/sip_listener.py:825-831 | An ACK changes the running dialog listed under its Call-ID and no other. |
| ListenerDialogs.OnlyOvertakingStrands | custom_components/abb_welcome/sip_listener.py:463-465 | One event strands a dialog if and only if it does that. |
| ListenerDialogs.SecondCallStrandsTheFirst | custom_components/abb_welcome/sip_listener.py:463-465 | The condition is needed: a run that accepts one Call-ID twice. |
| ListenerDialogs.ShutdownEndsEveryDialog | custom_components/abb_welcome/sip_listener.py:674-683 | Losing the connection or stopping ends every reachable dialog, so no waiter hangs. |
| ListenerDialogs.FinishEndsItsDialog | custom_components/abb_welcome/sip_listener.py:975-983 | An end ends the running dialog of that Call-ID and no other. |
| ListenerDialogs.FinishAllGivesReason | custom_components/abb_welcome/sip_listener.py:674-683 | The end of all gives its reason to every running dialog that the table lists. |
| ListenerDialogs.FirstReasonStays | custom_components/abb_welcome/sip_listener.py:975-983 | A dialog that has ended keeps its first reason through every run. |
| ListenerDialogs.RunNumbersByes | custom_components/abb_welcome/sip_listener.py:528-529 | Over every run the BYE requests carry 1, 2, 3, and so on. |
| ListenerDialogs.TablesStayValid | custom_components/abb_welcome/sip_listener.py:975-983 | Over every run at most 20 reasons are kept and the table lists running dialogs only. |
| ListenerDialogs.StepKeepsTables | custom_components/abb_welcome/sip_listener.py:788-983 | Every event keeps the tables in order. |
| SdpAnswer.AnswerReadsBack | custom_components/abb_welcome/sip_listener.py:250-291 | For every offer that parses, the answer parses to exactly the given address, and per answered medium its port, one payload type and that type's protocol, rtpmap and (video) fmtp (section 6.1 of RFC 3264). |
| SdpAnswer.PreferredIsBest | custom_components/abb_welcome/sip_listener.py:231-247 | The payload type answered is, in the first description of its kind that offers any, the first of those with the most preferred codec, and the first offered if no codec matches. |
| SdpOffer.ChosenAsOffered | custom_components/abb_welcome/sip_listener.py:231-247 | The answered number, rtpmap, fmtp and protocol are those that this description gives, with an empty rtpmap, no fmtp and RTP/AVP where it gives none. |
| SdpOffer.SpeaksExactly | custom_components/abb_welcome/sip_listener.py:239-243 | A payload type counts for a codec exactly if its rtpmap mentions the codec's name, in capitals or not. |
| SdpAnswer.ByCodecIsBest | custom_components/abb_welcome/sip_listener.py:239-246 | The nested loops over codecs and payload types find the first payload type of the lowest rank. |
| SdpAnswer.PreferredIsValid | custom_components/abb_welcome/sip_listener.py:231-247 | What is chosen from a parsed offer can be printed and read back. |
| SdpAnswer.HeadReads | custom_components/abb_welcome/sip_listener.py:260-269 | The session lines read back as the address alone. |
| SdpAnswer.AudioReads | custom_components/abb_welcome/sip_listener.py:271-279 | The audio lines read back as one medium with one payload type. |
| SdpAnswer.VideoReads | custom_components/abb_welcome/sip_listener.py:281-289 | So do the video lines, with fmtp if there is one. |
| Sdp.ParseSdp | custom_components/abb_welcome/intercom_dialer.py:168-211 | The loop over the lines computes the fold of one-line updates, and raises where a line does. |
| Sdp.ParsedIsValid | custom_components/abb_welcome/intercom_dialer.py:168-211 | Whatever text parses, payload types are not negative, protocols are words, and mappings are trimmed single lines. |
| Sdp.ApplyLinesAppend | custom_components/abb_welcome/intercom_dialer.py:172-210 | Parsing can be cut between any two lines. |
| SdpForeign.LineEndsDoNotMatter | custom_components/abb_welcome/intercom_dialer.py:172 | A description parses to the same whatever ends its lines, mixed or not. |
| SdpForeign.LinesAreSplit | custom_components/abb_welcome/intercom_dialer.py:172 | splitlines() cuts at CR LF, LF, CR, VT, FF and the three ASCII separators, and nowhere else. |
| SdpForeign.WordsAreSplit | custom_components/abb_welcome/intercom_dialer.py:174-186 | split() cuts at white space of any kind and length, in front and behind too. |
| SdpForeign.SignsAndUnderscores | custom_components/abb_welcome/intercom_dialer.py:182-186 | int() takes a sign, and an underscore between digits. |
| SdpOffer.OfferReadsBack | custom_components/abb_welcome/intercom_dialer.py:168-211 | A printed offer of any media, each with any payload types, its own address, rtpmap, fmtp and crypto lines and any of the four directions, parses to exactly what it says. |
| SdpOffer.OfferReads | custom_components/abb_welcome/intercom_dialer.py:172-210 | So does each medium, behind any lines before it. |
| Text.SplitTerminated | custom_components/abb_welcome/intercom_dialer.py:172 | splitlines() of lines ended by CR LF gives the lines. |
| Text.IntOfStr | custom_components/abb_welcome/intercom_dialer.py:182-186 | int(str(n)) is n. |
| RtspInterleave.DecodeOfEncodeAll | custom_components/abb_welcome/rtsp_server.py:77-106 | Any mix of packets and responses on one connection decodes to exactly what was written, in order (section 10.12 of RFC 2326). |
| RtspInterleave.WireIsUnambiguous | custom_components/abb_welcome/rtsp_server.py:77-106 | Two different histories never put the same bytes on the wire. |
| RtspInterleave.DecodeAppends | custom_components/abb_welcome/rtsp_server.py:98-106 | One more unit behind a decodable stream adds exactly its view. |
| RtspInterleave.DecodeOneOfEncode | custom_components/abb_welcome/rtsp_server.py:98-102 | A written unit is read back whatever follows. |
| RtspInterleave.DecodeOneIsStable | custom_components/abb_welcome/rtsp_server.py:98-106 | A complete unit stays what it is when more bytes arrive. |
| RtspInterleave.RtspSession.PushRtp | custom_components/abb_welcome/rtsp_server.py:77-106 | False exactly on a closed connection, over 65535 bytes, or if the write breaks with at most 4194304 bytes buffered; shed exactly with more buffered; else the wire gains 36, the channel, the big-endian length and the packet, and the history that packet. |
| RtspInterleave.RtspSession.SendResponse | custom_components/abb_welcome/rtsp_server.py:373-396 | A response goes out whole, with a Content-Length exactly if it has a body, and joins the history. |
| RtspInterleave.RtspSession.ClientSeesHistory | custom_components/abb_welcome/rtsp_server.py:77-106 | What the client has received decodes to the accepted units; pushes = written + overflow_drops + rejected is part of the invariant. |
| EventHistory.ExactlyOnce | custom_components/abb_welcome/event.py:88-120 | Over every run of polls and notifications, the firing order holds every non-screenshot event exactly once if and only if no poll finds one behind its first 20 new events; it never holds anything twice. |
| EventHistory.Rounds | custom_components/abb_welcome/coordinator.py:252-288 | Polling and notifying over all groups of events, what the entity has fired holds nothing twice, and every non-screenshot event exactly once if and only if no poll finds one behind its first page. |
| EventHistory.FiringCount | custom_components/abb_welcome/event.py:88-120 | How often any event is fired: once if it was within its poll's page and no screenshot, else never. |
| EventHistory.Round | custom_components/abb_welcome/coordinator.py:252-288 | One poll and notification: the cache is the newest 200 fetched events, both cursors are at the head, and exactly the new non-screenshot events are fired. |
| EventHistory.RoundFinds | custom_components/abb_welcome/coordinator.py:189-203 | A poll fetches the newest page of what is new, and the entity stops exactly behind it. |
| EventHistory.RoundKeepsCache | custom_components/abb_welcome/coordinator.py:268-274 | Prepending and capping keeps the cache the newest 200. |
| EventHistory.NothingIsLost | custom_components/abb_welcome/coordinator.py:268-274 | If no poll finds more than a page, what was fetched is the whole history. |
| EventHistory.Coordinator.Poll | custom_components/abb_welcome/coordinator.py:252-288 | The cursor, the capped list and the latest non-screenshot event after a reply; an empty reply changes nothing. |
| EventHistory.EventEntity.HandleUpdate | custom_components/abb_welcome/event.py:88-120 | Fires the non-screenshot events in front of the last seen one, newest first, and advances the cursor. |

## Left out

* Sockets, TLS, asyncio's scheduler, Home Assistant entities, services and UI, go2rtc and WebRTC forwarding, portal HTTP, pairing, config flow and TCP proxies: foreign code; received bytes, clock readings and outcomes of sends are parameters.
* AES, MD5 and digest authentication, UUIDs and random tags: AES is an arbitrary block permutation, an authentication retry is an event, new Call-IDs are fresh.
* Logging, stats dictionaries and counters that nothing else depends on (underruns, byte counts, last sequence number and SSRC of the receiver).
* Text beyond ASCII: decoding of UTF-8 with replacement, Unicode white space, digits, case and line breaks. The string modules state their results for the ASCII rules.
* int() of the SIP status code and Content-Length accept plain digits only, and Python's limit of 4300 digits is not modelled; the SDP parser models signs and underscores.
* A further recv_frame() after an exception: a closed socket ends the modelled run.
* Cancellation of an RTSP connection handler, exceptions out of session.close(), and the drain inside open() that clears a stale call.
* RTSP request parsing and session setup (`_read_request`, `_parse_interleaved`): requests are events.
* The header fields of SIP requests and responses other than Call-ID and CSeq; the 100 Trying and the answers to OPTIONS, NOTIFY and MESSAGE.
* The wait of up to three seconds for the ACK in accept_pending_call, and REGISTER's own CSeq numbers beyond advancing the shared counter.
* The 30-second life of the pending camera-count target, and camera-count messages.
* send_talkback_tone: it starts, feeds and stops the sender like any other session, with a generated sine wave.
* Screenshots: matching to stations, latest_screenshot and latest_screenshots_by_station (its loop leaves the oldest of a batch).
* Mojibake repair (text.py): a heuristic.
* The tasks that watch for the gateway ending a call: they appear as the two events in which it does.
- Dialer.WaiterHearsTheFirstEnd: does not cover a wait that begins after the reason was evicted, because the code then waits for an end that has already come.
- DialerNumbers.NumbersIncreaseExactly: does not claim the best-effort BYE of a failed setup, because the code sends it under the INVITE's number and its dialog is never established.
- EventHistory.ExactlyOnce: assumes that the portal gives every event a unique id that is not empty and that the entity is notified after every poll.
