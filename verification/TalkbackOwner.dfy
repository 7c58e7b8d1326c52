// Who may speak to the station: the talkback owner of one coordinator, in front of the sender.
module TalkbackOwner {
  import opened Prelude
  import opened Text
  import opened Talkback

  /** `sender` is the session's talk sender while a stream is open. */
  datatype State = State(owner: string, sender: Option<Sender>)

  datatype Event =
    | StartBy(session: string)
    | StopBy(session: string)
    | FeedBy(session: string, pcm: seq<byte>)
    | LoopTick
    | StreamOpens(newSender: Sender)
    | StreamCloses               // the delayed or the forced close

  datatype Answer = Done | Ignored | NotReady

  /** A named session that is not the owner, while there is one. */
  predicate Foreign(s: State, session: string) {
    Strip(session) != "" && s.owner != "" && Strip(session) != s.owner
  }

  /** The owner is set before the sender is asked, so even a refused start takes over. */
  function Start(s: State, session: string): State {
    State(Strip(session), if s.sender.None? then None else Some(StartTalk(s.sender.value)))
  }

  function Stop(s: State, session: string): State {
    if Foreign(s, session) then s
    else State("", if s.sender.None? then None else Some(StopTalk(s.sender.value)))
  }

  function FeedOwned(c: Config, s: State, session: string, pcm: seq<byte>): State
    requires ValidConfig(c)
  {
    if Foreign(s, session) then s
    else State(if s.owner == "" then Strip(session) else s.owner,
               if s.sender.None? then None else Some(Feed(c, s.sender.value, pcm)))
  }

  function Step(c: Config, s: State, e: Event): State
    requires ValidConfig(c)
  {
    match e
    case StartBy(session) => Start(s, session)
    case StopBy(session) => Stop(s, session)
    case FeedBy(session, pcm) => FeedOwned(c, s, session, pcm)
    case LoopTick => s.(sender := if s.sender.None? then None else Some(Tick(c, s.sender.value)))
    case StreamOpens(newSender) => s.(sender := Some(newSender))
    case StreamCloses => State("", None)
  }

  function Final(c: Config, s: State, run: seq<Event>): State
    requires ValidConfig(c)
    decreases |run|
  {
    if run == [] then s else Final(c, Step(c, s, run[0]), run[1..])
  }

  // ----- others do not interfere -----

  /** A stop or a feed by a named session that is not the owner at that time. */
  predicate Intrudes(s: State, e: Event) {
    (e.StopBy? || e.FeedBy?) && Foreign(s, e.session)
  }

  /** The run without its intrusions. */
  function Undisturbed(c: Config, s: State, run: seq<Event>): seq<Event>
    requires ValidConfig(c)
    decreases |run|
  {
    if run == [] then []
    else (if Intrudes(s, run[0]) then [] else [run[0]]) + Undisturbed(c, Step(c, s, run[0]), run[1..])
  }

  /** Over any run, what others try leaves no trace in the sender or the ownership. */
  lemma {:induction false} IntrusionsLeaveNoTrace(c: Config, s: State, run: seq<Event>)
    requires ValidConfig(c)
    ensures Final(c, s, run) == Final(c, s, Undisturbed(c, s, run))
    decreases |run|
  {
    if run == [] {
    } else {
      var rest := Undisturbed(c, Step(c, s, run[0]), run[1..]);
      IntrusionsLeaveNoTrace(c, Step(c, s, run[0]), run[1..]);
      if !Intrudes(s, run[0]) {
        assert ([run[0]] + rest)[1..] == rest;
      } else {
        assert [] + rest == rest;
      }
    }
  }

  /** No event of the run is a stop or a feed by a named session while another one is the owner. */
  ghost predicate Undisputed(c: Config, s: State, run: seq<Event>)
    requires ValidConfig(c)
  {
    forall k :: 0 <= k < |run| ==>
      match run[k]
      case StopBy(session) => MayTouch(Final(c, s, run[..k]).owner, session)
      case FeedBy(session, _) => MayTouch(Final(c, s, run[..k]).owner, session)
      case _ => true
  }

  predicate MayTouch(owner: string, session: string) {
    owner == "" || Strip(session) == "" || Strip(session) == owner
  }

  lemma UndisputedFrom(c: Config, s: State, run: seq<Event>)
    requires ValidConfig(c) && run != []
    ensures Undisputed(c, s, run) <==> !Intrudes(s, run[0]) && Undisputed(c, Step(c, s, run[0]), run[1..])
  {
    hide Strip, Step;
    var (n, rest) := (Step(c, s, run[0]), run[1..]);
    assert Final(c, s, run[..0]) == s;
    forall k | 0 <= k < |rest|
      ensures rest[k] == run[k + 1] && Final(c, n, rest[..k]) == Final(c, s, run[..k + 1])
    {
      assert run[..k + 1][0] == run[0] && run[..k + 1][1..] == rest[..k];
    }
    hide Final;
    if Undisputed(c, s, run) {
      assert Undisputed(c, n, rest);
    }
    if !Intrudes(s, run[0]) && Undisputed(c, n, rest) {
      forall k | 0 < k < |run| ensures run[k] == rest[k - 1] && Final(c, s, run[..k]) == Final(c, n, rest[..k - 1]) {
        assert rest[k - 1] == run[k - 1 + 1];
      }
    }
  }

  /** What is left without the intrusions disputes nothing, and only disputes were left out. */
  lemma {:induction false} UndisturbedIsUndisputed(c: Config, s: State, run: seq<Event>)
    requires ValidConfig(c)
    ensures Undisputed(c, s, Undisturbed(c, s, run))
    ensures Undisputed(c, s, run) <==> Undisturbed(c, s, run) == run
    ensures |Undisturbed(c, s, run)| <= |run|
    decreases |run|
  {
    if run == [] {
    } else {
      var n := Step(c, s, run[0]);
      var rest := Undisturbed(c, n, run[1..]);
      UndisturbedIsUndisputed(c, n, run[1..]);
      UndisputedFrom(c, s, run);
      if Intrudes(s, run[0]) {
        assert [] + rest == rest;
      } else {
        var kept := [run[0]] + rest;
        assert kept[1..] == rest && run == [run[0]] + run[1..];
        UndisputedFrom(c, s, kept);
      }
      hide Undisputed, Final, Strip;
    }
  }

  lemma {:induction false} RunAppend(c: Config, s: State, run: seq<Event>, e: Event)
    requires ValidConfig(c)
    ensures Final(c, s, run + [e]) == Step(c, Final(c, s, run), e)
    decreases |run|
  {
    if run == [] {
      assert run + [e] == [e] && [e][1..] == [];
    } else {
      assert (run + [e])[0] == run[0] && (run + [e])[1..] == run[1..] + [e];
      hide Step;
      RunAppend(c, Step(c, s, run[0]), run[1..], e);
    }
  }

  /** What takes the ownership from `owner`: a start by another, its own or an anonymous stop, a close. */
  predicate Releases(e: Event, owner: string) {
    match e
    case StartBy(session) => Strip(session) != owner
    case StopBy(session) => Strip(session) == "" || Strip(session) == owner
    case StreamCloses => true
    case _ => false
  }

  predicate NeverReleases(run: seq<Event>, owner: string) {
    forall i :: 0 <= i < |run| ==> !Releases(run[i], owner)
  }

  /** An owner stays the owner for exactly as long as no event releases it. */
  lemma {:induction false} OwnerStaysUntilReleased(c: Config, s: State, run: seq<Event>)
    requires ValidConfig(c) && s.owner != "" && NeverReleases(run, s.owner)
    ensures Final(c, s, run).owner == s.owner
    decreases |run|
  {
    if run == [] {
    } else {
      OwnerStepStays(c, s, run[0]);
      assert forall i :: 0 <= i < |run[1..]| ==> run[1..][i] == run[i + 1];
      OwnerStaysUntilReleased(c, Step(c, s, run[0]), run[1..]);
    }
  }

  lemma OwnerStepStays(c: Config, s: State, e: Event)
    requires ValidConfig(c) && s.owner != ""
    ensures Step(c, s, e).owner == s.owner <==> !Releases(e, s.owner)
  {
    hide Strip;
  }

  lemma TalksNow(s: Sender)
    ensures StartTalk(s).talking && StartTalk(s).markerNext
  {
  }

  lemma IsSilentNow(s: Sender)
    ensures !StopTalk(s).talking && StopTalk(s).queue == []
  {
  }

  // ----- the coordinator's methods -----

  class TalkbackGuard {
    const config: Config
    var talkbackOwner: string
    var sender: Option<Sender>
    ghost var run: seq<Event>

    ghost function Snapshot(): State
      reads this
    {
      State(talkbackOwner, sender)
    }

    /** The fields are where the events so far lead. */
    ghost predicate Consistent()
      reads this
    {
      ValidConfig(config) && Snapshot() == Final(config, State("", None), run)
    }

    constructor (config: Config)
      requires ValidConfig(config)
      ensures this.config == config && Consistent() && talkbackOwner == "" && sender == None && run == []
    {
      this.config := config;
      talkbackOwner, sender, run := "", None, [];
    }

    method StartTalkback(session: string) returns (answer: Answer)
      requires Consistent()
      modifies this
      ensures Consistent() && run == old(run) + [StartBy(session)]
      ensures Snapshot() == Start(old(Snapshot()), session)
      ensures answer == if old(sender).None? then NotReady else Done
      ensures talkbackOwner == Strip(session) && (sender.Some? <==> old(sender).Some?)
      ensures sender.Some? ==> sender.value.talking && sender.value.markerNext
    {
      hide Final, Strip, StartTalk, StopTalk, Feed, Tick;
      RunAppend(config, State("", None), run, StartBy(session));
      run := run + [StartBy(session)];
      talkbackOwner := Strip(session);
      if sender.None? {
        return NotReady;
      }
      TalksNow(sender.value);
      sender := Some(StartTalk(sender.value));
      answer := Done;
    }

    method StopTalkback(session: string) returns (answer: Answer)
      requires Consistent()
      modifies this
      ensures Consistent() && run == old(run) + [StopBy(session)]
      ensures Snapshot() == Stop(old(Snapshot()), session)
      ensures answer == if Foreign(old(Snapshot()), session) then Ignored else Done
      ensures answer == Ignored <==>
        Strip(session) != "" && old(talkbackOwner) != "" && Strip(session) != old(talkbackOwner)
      ensures answer == Ignored ==> talkbackOwner == old(talkbackOwner) && sender == old(sender)
      ensures answer == Done ==> talkbackOwner == "" && (sender.Some? <==> old(sender).Some?)
      ensures answer == Done && sender.Some? ==> !sender.value.talking && sender.value.queue == []
    {
      hide Final, Strip, StartTalk, StopTalk, Feed, Tick;
      RunAppend(config, State("", None), run, StopBy(session));
      run := run + [StopBy(session)];
      var id := Strip(session);
      if id != "" && talkbackOwner != "" && id != talkbackOwner {
        return Ignored;
      }
      if sender.Some? {
        IsSilentNow(sender.value);
        sender := Some(StopTalk(sender.value));
      }
      talkbackOwner := "";
      answer := Done;
    }

    method FeedTalkback(pcm: seq<byte>, session: string) returns (answer: Answer)
      requires Consistent()
      modifies this
      ensures Consistent() && run == old(run) + [FeedBy(session, pcm)]
      ensures Snapshot() == FeedOwned(config, old(Snapshot()), session, pcm)
      ensures answer == if Foreign(old(Snapshot()), session) then Ignored
                        else if old(sender).None? then NotReady else Done
      ensures answer == Ignored ==> talkbackOwner == old(talkbackOwner) && sender == old(sender)
      ensures answer != Ignored ==>
        talkbackOwner == (if old(talkbackOwner) == "" then Strip(session) else old(talkbackOwner))
      ensures answer == Done ==> sender == Some(Feed(config, old(sender).value, pcm))
    {
      hide Final, Strip, StartTalk, StopTalk, Feed, Tick;
      RunAppend(config, State("", None), run, FeedBy(session, pcm));
      run := run + [FeedBy(session, pcm)];
      var id := Strip(session);
      if id != "" && talkbackOwner != "" && id != talkbackOwner {
        return Ignored;
      }
      if id != "" && talkbackOwner == "" {
        talkbackOwner := id;
      }
      if sender.None? {
        return NotReady;
      }
      sender := Some(Feed(config, sender.value, pcm));
      answer := Done;
    }

    /** The loop sends a packet, a stream opens with its sender, or it closes. */
    method StreamMoves(e: Event)
      requires Consistent() && (e.LoopTick? || e.StreamOpens? || e.StreamCloses?)
      modifies this
      ensures Consistent() && run == old(run) + [e]
      ensures talkbackOwner == if e.StreamCloses? then "" else old(talkbackOwner)
      ensures e.StreamOpens? ==> sender == Some(e.newSender)
      ensures e.StreamCloses? ==> sender == None
      ensures e.LoopTick? ==>
        sender == if old(sender).None? then None else Some(Tick(config, old(sender).value))
    {
      hide Final, Tick;
      RunAppend(config, State("", None), run, e);
      match e {
        case LoopTick =>
          if sender.Some? {
            sender := Some(Tick(config, sender.value));
          }
        case StreamOpens(newSender) => sender := Some(newSender);
        case StreamCloses => talkbackOwner, sender := "", None;
      }
      run := run + [e];
    }
  }
}
