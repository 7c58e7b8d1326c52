// The listener object.  Its ghost `run` lists the events so far, and Valid() says that the fields are
// where that run leads, so every theorem about runs is one about the object.  Each public method
// handles one event; the lookups loop over the pending INVITEs while they remove expired ones.
module ListenerObject {
  import opened Prelude
  import opened Text
  import opened RecentTable
  import opened PI = PendingInvites
  import L = Listener
  import LD = ListenerDialogs

  type Invites = PI.Table

  // ----- one iteration of a lookup -----

  lemma {:induction false} DropKeyAt(kept: Invites, f: Frame, rest: Invites)
    requires KeysDiffer(kept + ([f] + rest))
    ensures DropKey(kept + ([f] + rest), f.callId) == kept + rest
  {
    if kept == [] {
      assert kept + ([f] + rest) == [f] + rest && ([f] + rest)[1..] == rest;
    } else {
      var t := kept + ([f] + rest);
      assert t[1..] == kept[1..] + ([f] + rest);
      assert t[|kept|] == f;
      assert forall i :: 0 <= i < |t[1..]| ==> t[1..][i] == t[i + 1];
      DropKeyAt(kept[1..], f, rest);
    }
  }

  /** The state of a lookup that has looked at all but `rest` and met no match. */
  ghost predicate Looked(all: Invites, kept: Invites, rest: Invites, station: string, now: real) {
    && Swept(all, station, now) == kept + Swept(rest, station, now)
    && Unexpired(all, now) == kept + Unexpired(rest, now)
    && FirstOf(Unexpired(all, now), Strip(station)) == FirstOf(Unexpired(rest, now), Strip(station))
    && FirstOf(kept, Strip(station)).None?
  }

  lemma LookedAtNone(all: Invites, station: string, now: real)
    ensures Looked(all, [], all, station, now)
  {
    hide Strip;
    assert [] + Swept(all, station, now) == Swept(all, station, now);
    assert [] + Unexpired(all, now) == Unexpired(all, now);
  }

  lemma {:induction false} FirstOfAppend(t: Invites, u: Invites, station: string)
    ensures FirstOf(t + u, station) == if FirstOf(t, station).Some? then FirstOf(t, station) else FirstOf(u, station)
  {
    if t == [] {
      assert t + u == u;
    } else {
      assert (t + u)[1..] == t[1..] + u;
      FirstOfAppend(t[1..], u, station);
    }
  }

  lemma PassExpired(all: Invites, kept: Invites, f: Frame, rest: Invites, station: string, now: real)
    requires Looked(all, kept, [f] + rest, station, now) && Expired(f, now)
    ensures Looked(all, kept, rest, station, now)
  {
    hide Strip, Expired;
    assert ([f] + rest)[1..] == rest;
  }

  lemma PassOther(all: Invites, kept: Invites, f: Frame, rest: Invites, station: string, now: real)
    requires Looked(all, kept, [f] + rest, station, now) && !Expired(f, now) && f.station != Strip(station)
    ensures Looked(all, kept + [f], rest, station, now)
  {
    hide Strip, Expired;
    assert ([f] + rest)[1..] == rest;
    FirstOfAppend(kept, [f], Strip(station));
    assert FirstOf([f], Strip(station)) == FirstOf([], Strip(station));
    assert Swept([f] + rest, station, now) == [f] + Swept(rest, station, now);
    assert Unexpired([f] + rest, now) == [f] + Unexpired(rest, now);
    assert ([f] + Unexpired(rest, now))[1..] == Unexpired(rest, now);
    assert kept + ([f] + Swept(rest, station, now)) == kept + [f] + Swept(rest, station, now);
    assert kept + ([f] + Unexpired(rest, now)) == kept + [f] + Unexpired(rest, now);
  }

  lemma MeetMatch(all: Invites, kept: Invites, f: Frame, rest: Invites, station: string, now: real)
    requires Looked(all, kept, [f] + rest, station, now) && !Expired(f, now) && f.station == Strip(station)
    ensures Chosen(all, station, now) == Some(f) && Swept(all, station, now) == kept + ([f] + rest)
  {
    hide Strip, Expired;
    assert ([f] + rest)[1..] == rest;
    assert Unexpired([f] + rest, now) == [f] + Unexpired(rest, now);
  }

  lemma LookedAtAll(all: Invites, kept: Invites, station: string, now: real)
    requires Looked(all, kept, [], station, now)
    ensures Swept(all, station, now) == kept
    ensures Chosen(all, station, now) == if |kept| == 1 then Some(kept[0]) else None
  {
    hide Strip;
    assert kept + [] == kept;
  }

  class SipListener {
    var openInvites: Invites
    var acceptedDialogs: RecentTable.Table<nat>
    var dialogs: seq<L.Dialog>
    var endedOrder: seq<Id>
    var endedDialogReasons: map<Id, L.EndReason>
    var dialogCseq: nat
    var connected: bool
    var leaving: Option<Id>
    ghost var finals: seq<L.FinalResponse>
    ghost var byes: seq<(Id, nat)>
    var received: nat           // numbers the INVITEs
    ghost var expired: nat
    ghost var replaced: nat
    ghost var unanswered: nat

    ghost function Snapshot(): L.State
      reads this
    {
      L.State(openInvites, acceptedDialogs, dialogs, RecentTable.Table(endedOrder, endedDialogReasons), dialogCseq,
              connected, leaving, finals, byes, L.Tally(received, expired, replaced, unanswered))
    }

    ghost var run: seq<L.Event>

    ghost predicate Valid()
      reads this
    {
      L.Possible(L.Init, run) && Snapshot() == L.Final(L.Init, run)
    }

    /** What a valid object may rely on, whatever the run was. */
    lemma WhatHolds()
      requires Valid()
      ensures L.InvitesValid(Snapshot()) && LD.TablesValid(Snapshot()) && LD.ByesNumbered(Snapshot())
      ensures KeysDiffer(openInvites) && |endedOrder| <= L.KEPT
    {
      L.RunKeepsInvitesValid(L.Init, run);
      LD.RunKeepsTables(L.Init, run);
      LD.RunNumbersByes(L.Init, run);
    }

    constructor ()
      ensures Valid() && run == []
    {
      openInvites, acceptedDialogs, dialogs := [], RecentTable.Table([], map[]), [];
      endedOrder, endedDialogReasons := [], map[];
      dialogCseq, connected, leaving := 1, false, None;
      finals, byes := [], [];
      received, expired, replaced, unanswered := 0, 0, 0, 0;
      run := [];
    }

    // ----- pending_call_for_station and _pop_pending_invite -----

    /** True exactly when popping at the same time would return an INVITE; every unexpired one stays. */
    method PendingCallForStation(stationId: string, now: real) returns (waiting: bool)
      requires Valid()
      modifies this`openInvites, this`expired, this`run
      ensures Valid() && run == old(run) + [L.LookUp(stationId, now)]
      ensures Snapshot() == L.Step(old(Snapshot()), L.LookUp(stationId, now))
      ensures YoungStay(old(openInvites), openInvites, now)
      ensures waiting <==> Chosen(old(openInvites), stationId, now).Some?
      ensures waiting <==> Awaited(old(openInvites), Strip(stationId), now)
    {
      hide L.Possible, L.Final, KeysDiffer, L.InvitesValid, LD.TablesValid, LD.ByesNumbered;
      hide Unexpired, Chosen, Swept, L.Gone, Awaited, YoungStay, Strip;
      WhatHolds();
      L.RunAppend(L.Init, run, L.LookUp(stationId, now));
      LookUpMeans(openInvites, stationId, now);
      ghost var before := openInvites;
      waiting := SweepAndLook(stationId, now);
      expired := expired + L.Gone(before, openInvites);
      run := run + [L.LookUp(stationId, now)];
    }

    /** No INVITE is made up, and none is lost that is not older than 45 seconds. */
    ghost predicate YoungStay(before: Invites, after: Invites, now: real) {
      && (forall f :: f in before && now - f.receivedAt <= 45.0 ==> f in after)
      && (forall f :: f in after ==> f in before)
    }

    /** Some INVITE of this station is not older than 45 seconds, or exactly one of any station is. */
    ghost predicate Awaited(t: Invites, station: string, now: real) {
      (exists f :: f in t && now - f.receivedAt <= 45.0 && f.station == station) ||
      (exists i: nat :: OnlyFresh(t, now, i))
    }

    lemma LookUpMeans(t: Invites, station: string, now: real)
      ensures YoungStay(t, Swept(t, station, now), now)
      ensures Chosen(t, station, now).Some? <==> Awaited(t, Strip(station), now)
    {
      forall f | f in t && now - f.receivedAt <= 45.0 ensures f in Swept(t, station, now) {
        YoungOnesStay(t, station, now, f);
      }
      SweptKeepsUnexpired(t, station, now);
      hide Swept, Chosen, Strip;
      ChosenIsAwaited(t, station, now);
    }

    lemma ChosenIsAwaited(t: Invites, station: string, now: real)
      ensures Chosen(t, station, now).Some? <==> Awaited(t, Strip(station), now)
    {
      hide Chosen, Strip;
      ChosenExactly(t, station, now);
      match Chosen(t, station, now) {
        case None =>
          forall f | f in t && now - f.receivedAt <= 45.0 ensures f.station != Strip(station) {
            var i :| 0 <= i < |t| && t[i] == f;
          }
        case Some(f) =>
          if i: nat :| FirstFresh(t, Strip(station), now, i) && t[i] == f {
            assert t[i] in t;
          }
      }
    }

    /** The loop of pending_call_for_station. */
    method SweepAndLook(stationId: string, now: real) returns (waiting: bool)
      requires KeysDiffer(openInvites)
      modifies this`openInvites
      ensures openInvites == Swept(old(openInvites), stationId, now)
      ensures waiting <==> Chosen(old(openInvites), stationId, now).Some?
    {
      var snapshot := openInvites;
      var station := Strip(stationId);
      var pending := 0;
      ghost var kept: Invites := [];
      LookedAtNone(snapshot, stationId, now);
      hide Looked, Strip, Swept, Chosen, DropKey, KeysDiffer, Expired;
      var i := 0;
      while i < |snapshot|
        invariant 0 <= i <= |snapshot| && KeysDiffer(openInvites)
        invariant openInvites == kept + snapshot[i..] && pending == |kept|
        invariant Looked(snapshot, kept, snapshot[i..], stationId, now)
      {
        var frame := snapshot[i];
        ghost var rest := snapshot[i + 1..];
        assert snapshot[i..] == [frame] + rest;
        if Expired(frame, now) {
          PassExpired(snapshot, kept, frame, rest, stationId, now);
          DropKeyAt(kept, frame, rest);
          DropKeyMembers(openInvites, frame.callId);
          openInvites := DropKey(openInvites, frame.callId);
        } else {
          pending := pending + 1;
          if frame.station == station {
            MeetMatch(snapshot, kept, frame, rest, stationId, now);
            return true;
          }
          PassOther(snapshot, kept, frame, rest, stationId, now);
          assert kept + ([frame] + rest) == kept + [frame] + rest;
          kept := kept + [frame];
        }
        i := i + 1;
      }
      assert snapshot[i..] == [];
      LookedAtAll(snapshot, kept, stationId, now);
      assert kept + [] == kept;
      waiting := pending == 1;
    }

    /** The loop of _pop_pending_invite. */
    method SweepAndPop(stationId: string, now: real) returns (popped: Option<Frame>)
      requires KeysDiffer(openInvites)
      modifies this`openInvites
      ensures popped == Chosen(old(openInvites), stationId, now)
      ensures openInvites == AfterPop(old(openInvites), stationId, now)
    {
      var snapshot := openInvites;
      var station := Strip(stationId);
      var fallback: Option<Frame> := None;
      ghost var kept: Invites := [];
      LookedAtNone(snapshot, stationId, now);
      hide Looked, Strip, Swept, Chosen, DropKey, KeysDiffer, Expired;
      var i := 0;
      while i < |snapshot|
        invariant 0 <= i <= |snapshot| && KeysDiffer(openInvites)
        invariant openInvites == kept + snapshot[i..]
        invariant fallback == if kept == [] then None else Some(kept[0])
        invariant Looked(snapshot, kept, snapshot[i..], stationId, now)
      {
        var frame := snapshot[i];
        ghost var rest := snapshot[i + 1..];
        assert snapshot[i..] == [frame] + rest;
        if Expired(frame, now) {
          PassExpired(snapshot, kept, frame, rest, stationId, now);
          DropKeyAt(kept, frame, rest);
          DropKeyMembers(openInvites, frame.callId);
          openInvites := DropKey(openInvites, frame.callId);
        } else {
          if frame.station == station {
            MeetMatch(snapshot, kept, frame, rest, stationId, now);
            openInvites := DropKey(openInvites, frame.callId);
            return Some(frame);
          }
          if fallback.None? {
            fallback := Some(frame);
          }
          PassOther(snapshot, kept, frame, rest, stationId, now);
          assert kept + ([frame] + rest) == kept + [frame] + rest;
          kept := kept + [frame];
        }
        i := i + 1;
      }
      assert snapshot[i..] == [];
      LookedAtAll(snapshot, kept, stationId, now);
      assert kept + [] == kept;
      popped := None;
      if fallback.Some? && |openInvites| == 1 {
        popped := fallback;
        openInvites := DropKey(openInvites, fallback.value.callId);
      }
    }

    method PopPendingInvite(stationId: string, now: real) returns (popped: Option<Frame>)
      requires KeysDiffer(openInvites)
      modifies this`openInvites
      ensures popped == Chosen(old(openInvites), stationId, now)
      ensures popped.Some? ==> popped.value in old(openInvites) && now - popped.value.receivedAt <= 45.0
      ensures popped.Some? <==> Awaited(old(openInvites), Strip(stationId), now)
      ensures openInvites == AfterPop(old(openInvites), stationId, now)
    {
      ChosenIsAwaited(openInvites, stationId, now);
      ChosenIsYoung(openInvites, stationId, now);
      hide Awaited, Strip, Chosen, AfterPop, KeysDiffer;
      popped := SweepAndPop(stationId, now);
    }

    lemma ChosenIsYoung(t: Invites, station: string, now: real)
      ensures match Chosen(t, station, now)
              case None => true
              case Some(f) => f in t && now - f.receivedAt <= 45.0
    {
      hide Chosen, Strip;
      ChosenExactly(t, station, now);
    }

    /** The first INVITE of the station that is not older than 45 seconds, or the only one that young. */
    ghost predicate RightOne(t: Invites, station: string, now: real, answered: Option<Frame>) {
      && (forall i: nat :: FirstFresh(t, station, now, i) || OnlyFresh(t, now, i) ==> answered == Some(t[i]))
      && (answered.Some? <==> Awaited(t, station, now))
    }

    /** Of the INVITEs that are not older than 45 seconds, only the answered one is gone. */
    ghost predicate OthersStay(before: Invites, after: Invites, now: real, answered: Option<Frame>) {
      forall f :: f in before && now - f.receivedAt <= 45.0 ==> f in after || answered == Some(f)
    }

    lemma ChosenIsRight(t: Invites, station: string, now: real)
      requires KeysDiffer(t)
      ensures RightOne(t, Strip(station), now, Chosen(t, station, now))
      ensures OthersStay(t, AfterPop(t, station, now), now, Chosen(t, station, now))
    {
      hide Chosen, Strip, AfterPop;
      ChosenExactly(t, station, now);
      ChosenIsAwaited(t, station, now);
      forall f | f in t && now - f.receivedAt <= 45.0
        ensures f in AfterPop(t, station, now) || Chosen(t, station, now) == Some(f)
      {
        YoungOnesStay(t, station, now, f);
      }
    }

    /** An answered INVITE gets one new running dialog, listed under its Call-ID; otherwise nothing changes. */
    ghost predicate Enrolled(before: seq<L.Dialog>, after: seq<L.Dialog>, tableBefore: RecentTable.Table<nat>,
                             tableAfter: RecentTable.Table<nat>, answered: Option<Frame>)
    {
      match answered
      case None => after == before && tableAfter == tableBefore
      case Some(f) =>
        && after == before + [L.Dialog(f.callId, false, None)]
        && f.callId in tableAfter.values && tableAfter.values[f.callId] == |before|
    }

    // ----- _handle_invite, accept_pending_call and the CANCEL branch of _dispatch -----

    /** The new INVITE is pending and unanswered, in the place of one with its Call-ID; the others stay. */
    method HandleInvite(callId: Id, station: string, receivedAt: real)
      requires Valid()
      modifies this`openInvites, this`received, this`replaced, this`run
      ensures Valid() && run == old(run) + [L.InviteArrives(callId, station, receivedAt)]
      ensures Snapshot() == L.Step(old(Snapshot()), L.InviteArrives(callId, station, receivedAt))
      ensures Frame(old(received), callId, station, receivedAt) in openInvites && !L.Answered(finals, old(received))
      ensures (forall g :: g in old(openInvites) ==> g.callId != callId) ==>
        openInvites == old(openInvites) + [Frame(old(received), callId, station, receivedAt)]
      ensures forall i :: 0 <= i < |old(openInvites)| && old(openInvites)[i].callId == callId ==>
        openInvites == old(openInvites)[i := Frame(old(received), callId, station, receivedAt)]
      ensures forall g :: g in openInvites ==> g.no == old(received) || (g in old(openInvites) && g.callId != callId)
    {
      hide L.Possible, L.Final, PI.Put, PI.Get, L.Answered, LD.TablesValid, L.Final200or487;
      WhatHolds();
      ghost var s := Snapshot();
      ghost var e := L.InviteArrives(callId, station, receivedAt);
      var f := Frame(received, callId, station, receivedAt);
      PutMembers(openInvites, f);
      PutKeepsPlaces(openInvites, f);
      L.ReceiveKeepsValid(s, callId, station, receivedAt);
      L.RunAppend(L.Init, run, e);
      replaced := replaced + if PI.Get(openInvites, callId).Some? then 1 else 0;
      openInvites := PI.Put(openInvites, f);
      received := received + 1;
      run := run + [e];
    }

    method EnrollDialog(callId: Id)
      modifies this`endedOrder, this`endedDialogReasons, this`acceptedDialogs, this`dialogs
      ensures Snapshot() == L.Enroll(old(Snapshot()), callId)
      ensures endedDialogReasons == old(endedDialogReasons) - {callId} && endedOrder == Without(old(endedOrder), callId)
      ensures acceptedDialogs.values == old(acceptedDialogs).values[callId := |old(dialogs)|]
      ensures dialogs == old(dialogs) + [L.Dialog(callId, false, None)]
    {
      hide Without;
      endedOrder := Without(endedOrder, callId);
      endedDialogReasons := endedDialogReasons - {callId};
      acceptedDialogs := Assign(acceptedDialogs, callId, |dialogs|);
      dialogs := dialogs + [L.Dialog(callId, false, None)];
    }

    /** On a live connection and with a readable offer: who is answered, who stays, and what is enrolled. */
    ghost predicate Outcome(s: L.State, n: L.State, station: string, now: real, readable: bool,
                            answered: Option<Frame>)
    {
      && (s.connected && readable ==> RightOne(s.invites, Strip(station), now, answered))
      && (s.connected && readable ==> OthersStay(s.invites, n.invites, now, answered))
      && (!s.connected ==> n.invites == s.invites)
      && (!s.connected || !readable ==> answered == None)
      && (answered.Some? ==> answered.value in s.invites && now - answered.value.receivedAt <= 45.0)
      && (answered.Some? ==> !L.Answered(s.finals, answered.value.no))
      && n.finals == s.finals + (if answered.Some? then [L.FinalResponse(answered.value.no, 200)] else [])
      && Enrolled(s.dialogs, n.dialogs, s.accepted, n.accepted, answered)
    }

    lemma ChosenIsUnanswered(s: L.State, station: string, now: real)
      requires L.InvitesValid(s)
      ensures Chosen(s.invites, station, now).Some? ==> !L.Answered(s.finals, Chosen(s.invites, station, now).value.no)
    {
      ChosenIsYoung(s.invites, station, now);
      hide Chosen, L.Answered, L.Final200or487, KeysDiffer;
    }

    lemma LeftAlone(s: L.State, station: string, now: real, readable: bool)
      requires !s.connected
      ensures Outcome(s, s, station, now, readable, None)
    {
      hide L.Answered, RightOne, OthersStay, Strip;
    }

    lemma Unreadable(s: L.State, station: string, now: real)
      requires s.connected
      ensures Outcome(s, L.Answer(s, station, now, false), station, now, false, None)
    {
      L.AnswerFinals(s, station, now, false);
      AnswerMeans(s, station, now, false);
      hide L.Answer, L.Answered, RightOne, OthersStay, Enrolled, Strip, Chosen, AfterPop;
    }

    lemma Readable(s: L.State, station: string, now: real)
      requires L.InvitesValid(s) && s.connected
      ensures Outcome(s, L.Answer(s, station, now, true), station, now, true, Chosen(s.invites, station, now))
    {
      hide *;
      KeysAreDifferent(s);
      ChosenIsUnanswered(s, station, now);
      ChosenIsYoung(s.invites, station, now);
      ChosenIsRight(s.invites, station, now);
      AnswerMeans(s, station, now, true);
      L.AnswerFinals(s, station, now, true);
      OutcomeFrom(s, L.Answer(s, station, now, true), station, now, Chosen(s.invites, station, now));
    }

    lemma OutcomeFrom(s: L.State, n: L.State, station: string, now: real, answered: Option<Frame>)
      requires s.connected
      requires RightOne(s.invites, Strip(station), now, answered) && OthersStay(s.invites, n.invites, now, answered)
      requires answered.Some? ==> answered.value in s.invites && now - answered.value.receivedAt <= 45.0
      requires answered.Some? ==> !L.Answered(s.finals, answered.value.no)
      requires n.finals == if answered.Some? then s.finals + [L.FinalResponse(answered.value.no, 200)] else s.finals
      requires Enrolled(s.dialogs, n.dialogs, s.accepted, n.accepted, answered)
      ensures Outcome(s, n, station, now, true, answered)
    {
      hide RightOne, OthersStay, Enrolled, Strip, L.Answered;
    }

    lemma KeysAreDifferent(s: L.State)
      requires L.InvitesValid(s)
      ensures KeysDiffer(s.invites)
    {
    }

    lemma AcceptMeans(s: L.State, station: string, now: real, readable: bool)
      requires L.InvitesValid(s) && s.leaving.None?
      ensures Outcome(s, if s.connected then L.Answer(s, station, now, readable) else s, station, now, readable,
                      if s.connected && readable then Chosen(s.invites, station, now) else None)
    {
      hide *;
      if !s.connected {
        LeftAlone(s, station, now, readable);
      } else if readable {
        Readable(s, station, now);
      } else {
        Unreadable(s, station, now);
      }
    }

    /**
     * Returns the INVITE that was answered with 200 OK; an unreadable offer raises instead.
     */
    method AcceptPendingCall(stationId: string, now: real, readable: bool) returns (answered: Option<Frame>)
      requires Valid() && leaving.None?
      modifies this
      ensures Valid() && run == old(run) + [L.Accept(stationId, now, readable)]
      ensures Snapshot() == L.Step(old(Snapshot()), L.Accept(stationId, now, readable))
      ensures Outcome(old(Snapshot()), Snapshot(), stationId, now, readable, answered)
    {
      hide L.Possible, L.Final, Chosen, LD.TablesValid, LD.ByesNumbered, L.InvitesValid, L.Answer, Outcome, Strip;
      WhatHolds();
      AcceptMeans(Snapshot(), stationId, now, readable);
      L.RunAppend(L.Init, run, L.Accept(stationId, now, readable));
      hide KeysDiffer;
      if connected {
        answered := AnswerPendingCall(stationId, now, readable);
      } else {
        answered := None;
      }
      run := run + [L.Accept(stationId, now, readable)];
    }

    lemma AnswerMeans(s: L.State, station: string, now: real, readable: bool)
      ensures var n := L.Answer(s, station, now, readable);
              var chosen := Chosen(s.invites, station, now);
              && n.invites == AfterPop(s.invites, station, now)
              && Enrolled(s.dialogs, n.dialogs, s.accepted, n.accepted, if readable then chosen else None)
    {
      LD.AnswerEnrolls(s, station, now, readable);
      L.AnswerMoves(s, station, now, readable);
      hide Chosen, Swept, L.Gone, DropKey, L.Answer, L.Remove;
    }

    /** The part of accept_pending_call on a live connection. */
    method AnswerPendingCall(stationId: string, now: real, readable: bool) returns (answered: Option<Frame>)
      requires KeysDiffer(openInvites)
      modifies this
      ensures run == old(run) && Snapshot() == L.Answer(old(Snapshot()), stationId, now, readable)
      ensures answered == if readable then Chosen(old(openInvites), stationId, now) else None
      ensures finals == old(finals) + if answered.Some? then [L.FinalResponse(answered.value.no, 200)] else []
    {
      ghost var start := Snapshot();
      ghost var swept := L.Sweep(start, stationId, now);
      hide KeysDiffer, Chosen, Swept, L.Gone, L.Enroll, DropKey, Awaited, Strip;
      var popped := PopPendingInvite(stationId, now);
      expired := swept.tally.expired;
      if popped.None? {
        assert Snapshot() == swept;
        return None;
      }
      ghost var taken := swept.(invites := AfterPop(start.invites, stationId, now));
      assert Snapshot() == taken;
      hide AfterPop, L.Sweep;
      if !readable {
        unanswered := unanswered + 1;
        return None;
      }
      var frame := popped.value;
      EnrollDialog(frame.callId);
      finals := finals + [L.FinalResponse(frame.no, 200)];
      answered := popped;
    }

    /** Answers 487 to the pending INVITE of this Call-ID, if there is one, and never to an answered one. */
    method CancelArrives(callId: Id) returns (cancelled: Option<Frame>)
      requires Valid()
      modifies this`openInvites, this`finals, this`run
      ensures Valid() && run == old(run) + [L.CancelArrives(callId)]
      ensures Snapshot() == L.Step(old(Snapshot()), L.CancelArrives(callId))
      ensures cancelled == PI.Get(old(openInvites), callId)
      ensures if cancelled.Some? then cancelled.value in old(openInvites) && cancelled.value.callId == callId
              else forall f :: f in old(openInvites) ==> f.callId != callId
      ensures forall f :: f in openInvites <==> f in old(openInvites) && f.callId != callId
      ensures cancelled.Some? ==> !L.Answered(old(finals), cancelled.value.no) && cancelled.value !in openInvites
      ensures finals == old(finals) + if cancelled.Some? then [L.FinalResponse(cancelled.value.no, 487)] else []
    {
      hide L.Possible, L.Final, L.Answered, PI.Get, DropKey, LD.TablesValid, LD.ByesNumbered;
      WhatHolds();
      L.RunAppend(L.Init, run, L.CancelArrives(callId));
      DropKeyMembers(openInvites, callId);
      GetNone(openInvites, callId);
      cancelled := PI.Get(openInvites, callId);
      if cancelled.Some? {
        openInvites := DropKey(openInvites, callId);
        finals := finals + [L.FinalResponse(cancelled.value.no, 487)];
      }
      run := run + [L.CancelArrives(callId)];
    }

    // ----- _finish_accepted_dialog and its callers -----

    method RememberEnd(callId: Id, reason: L.EndReason)
      requires |endedOrder| <= L.KEPT
      modifies this`endedOrder, this`endedDialogReasons
      ensures Snapshot().reasons == Remember(old(Snapshot()).reasons, callId, reason, L.KEPT)
      ensures |endedOrder| <= L.KEPT
    {
      ghost var longer := Assign(RecentTable.Table(endedOrder, endedDialogReasons), callId, reason);
      if callId !in endedDialogReasons {
        endedOrder := endedOrder + [callId];
      }
      endedDialogReasons := endedDialogReasons[callId := reason];
      while |endedOrder| > L.KEPT
        invariant |endedOrder| <= L.KEPT + 1
        invariant RecentTable.Table(endedOrder, endedDialogReasons) == longer ||
                  (|longer.order| > L.KEPT && |endedOrder| == L.KEPT &&
                   RecentTable.Table(endedOrder, endedDialogReasons) == PopOldest(longer))
      {
        endedDialogReasons := endedDialogReasons - {endedOrder[0]};
        endedOrder := endedOrder[1..];
      }
    }

    method FinishAcceptedDialog(callId: Id, reason: L.EndReason)
      requires |endedOrder| <= L.KEPT
      modifies this`acceptedDialogs, this`dialogs, this`endedOrder, this`endedDialogReasons
      ensures Snapshot() == L.Finish(old(Snapshot()), callId, reason)
      ensures |endedOrder| <= L.KEPT
    {
      hide Remember, Without;
      var dialog: Option<nat> := None;
      if callId in acceptedDialogs.values {
        dialog := Some(acceptedDialogs.values[callId]);
      }
      acceptedDialogs := L.Remove(acceptedDialogs, callId);
      RememberEnd(callId, reason);
      if dialog.Some? && dialog.value < |dialogs| {
        dialogs := dialogs[dialog.value := dialogs[dialog.value].(ended := Some(reason))];
      }
    }

    /** The finally block of the connection, and stop(). */
    method FinishAllDialogs(reason: L.EndReason)
      requires |endedOrder| <= L.KEPT
      modifies this`connected, this`acceptedDialogs, this`dialogs, this`endedOrder, this`endedDialogReasons
      ensures Snapshot() == L.FinishAll(old(Snapshot()).(connected := false), old(Snapshot()).accepted.order, reason)
    {
      hide L.Finish, L.FinishAll;
      connected := false;
      var calls := acceptedDialogs.order;
      ghost var end := L.FinishAll(Snapshot(), calls, reason);
      var i := 0;
      assert calls[0..] == calls;
      while i < |calls|
        invariant 0 <= i <= |calls| && |endedOrder| <= L.KEPT
        invariant L.FinishAll(Snapshot(), calls[i..], reason) == end
        invariant connected == false
      {
        FinishOneMore(Snapshot(), calls, i, reason);
        FinishAcceptedDialog(calls[i], reason);
        i := i + 1;
      }
      FinishNoMore(Snapshot(), calls[i..], reason);
    }

    lemma FinishNoMore(s: L.State, calls: seq<Id>, reason: L.EndReason)
      requires calls == []
      ensures L.FinishAll(s, calls, reason) == s
    {
    }

    lemma FinishOneMore(s: L.State, calls: seq<Id>, i: nat, reason: L.EndReason)
      requires i < |calls|
      ensures L.FinishAll(s, calls[i..], reason) == L.FinishAll(L.Finish(s, calls[i], reason), calls[i + 1..], reason)
    {
      assert calls[i..][1..] == calls[i + 1..] && calls[i..][0] == calls[i];
    }

    /** Losing the connection (or stopping) ends every dialog that an end can still reach. */
    method ShutDown(stopping: bool)
      requires Valid()
      modifies this
      ensures Valid() && run == old(run) + [if stopping then L.Stop else L.Disconnect] && !connected
      ensures |dialogs| == |old(dialogs)|
      ensures forall d: nat :: d < |dialogs| ==> dialogs[d].ended.Some? || LD.Stranded(old(Snapshot()), d)
      ensures forall d: nat :: d < |dialogs| && old(dialogs)[d].ended.None? && !LD.Stranded(old(Snapshot()), d) ==>
        dialogs[d].ended == Some(if stopping then L.ListenerStopped else L.ListenerDisconnected)
    {
      hide L.Possible, L.Final, L.InvitesValid, LD.ByesNumbered, L.FinishAll;
      WhatHolds();
      ghost var s := Snapshot();
      ghost var e := if stopping then L.Stop else L.Disconnect;
      var reason := if stopping then L.ListenerStopped else L.ListenerDisconnected;
      ShutDownMeans(s, reason);
      hide LD.TablesValid, LD.Stranded;
      L.RunAppend(L.Init, run, e);
      FinishAllDialogs(reason);
      run := run + [e];
    }

    lemma ShutDownMeans(s: L.State, reason: L.EndReason)
      requires LD.TablesValid(s)
      ensures var n := L.FinishAll(s.(connected := false), s.accepted.order, reason);
              && |n.dialogs| == |s.dialogs| && !n.connected
              && (forall d: nat :: d < |n.dialogs| ==> n.dialogs[d].ended.Some? || LD.Stranded(s, d))
              && forall d: nat :: d < |n.dialogs| && s.dialogs[d].ended.None? && !LD.Stranded(s, d) ==>
                   n.dialogs[d].ended == Some(reason)
    {
      var c := s.(connected := false);
      LD.FinishAllStrandsNobody(c, s.accepted.order, reason, 0);
      StaysDisconnected(c, s.accepted.order, reason);
      forall d: nat | d < |s.dialogs| && !LD.Stranded(s, d)
        ensures L.FinishAll(c, s.accepted.order, reason).dialogs[d].ended.Some?
      {
        LD.ShutdownEndsEveryDialog(s, reason, d);
      }
      forall d: nat | d < |s.dialogs| && s.dialogs[d].ended.None? && !LD.Stranded(s, d)
        ensures L.FinishAll(c, s.accepted.order, reason).dialogs[d].ended == Some(reason)
      {
        ListedInOrder(s, d);
        LD.FinishAllGivesReason(c, s.accepted.order, reason, d);
      }
      hide L.FinishAll;
    }

    lemma ListedInOrder(s: L.State, d: nat)
      requires LD.TablesValid(s) && d < |s.dialogs| && s.dialogs[d].ended.None? && !LD.Stranded(s, d)
      ensures s.dialogs[d].callId in s.accepted.order && !LD.Stranded(s.(connected := false), d)
    {
    }

    lemma {:induction false} StaysDisconnected(s: L.State, calls: seq<Id>, reason: L.EndReason)
      ensures L.FinishAll(s, calls, reason).connected == s.connected
      decreases |calls|
    {
      if calls != [] {
        StaysDisconnected(L.Finish(s, calls[0], reason), calls[1..], reason);
      }
    }

    method ConnectionIsUp()
      requires Valid()
      modifies this`connected, this`run
      ensures Valid() && run == old(run) + [L.Connect] && connected
    {
      hide L.Possible, L.Final;
      L.RunAppend(L.Init, run, L.Connect);
      connected := true;
      run := run + [L.Connect];
    }

    /** A BYE ends the running dialog of its Call-ID and leaves all others as they are. */
    method ByeArrives(callId: Id)
      requires Valid()
      modifies this
      ensures Valid() && run == old(run) + [L.ByeArrives(callId)]
      ensures |dialogs| == |old(dialogs)| && callId !in acceptedDialogs.values
      ensures ReasonKept(old(endedDialogReasons), endedDialogReasons, |old(endedOrder)|, callId, L.RemoteBye)
      ensures forall d: nat :: d < |dialogs| ==>
        dialogs[d] == (if Runs(old(Snapshot()), callId, d) then old(dialogs)[d].(ended := Some(L.RemoteBye))
                       else old(dialogs)[d])
    {
      hide L.Possible, L.Final, L.InvitesValid, LD.ByesNumbered, L.Finish;
      WhatHolds();
      ghost var s := Snapshot();
      EndMeans(s, callId, L.RemoteBye);
      hide LD.TablesValid, Runs, ReasonKept;
      L.RunAppend(L.Init, run, L.ByeArrives(callId));
      FinishAcceptedDialog(callId, L.RemoteBye);
      run := run + [L.ByeArrives(callId)];
    }

    lemma EndMeans(s: L.State, callId: Id, reason: L.EndReason)
      requires LD.TablesValid(s)
      ensures var n := L.Finish(s, callId, reason);
              && callId !in n.accepted.values && |n.dialogs| == |s.dialogs|
              && ReasonKept(s.reasons.values, n.reasons.values, |s.reasons.order|, callId, reason)
              && forall d: nat :: d < |s.dialogs| ==>
                   n.dialogs[d] == (if Runs(s, callId, d) then s.dialogs[d].(ended := Some(reason)) else s.dialogs[d])
    {
      LD.FinishDelists(s, callId, reason, callId);
      ReasonIsKept(s.reasons, callId, reason);
      forall d: nat | d < |s.dialogs|
        ensures L.Finish(s, callId, reason).dialogs[d] ==
          if Runs(s, callId, d) then s.dialogs[d].(ended := Some(reason)) else s.dialogs[d]
      {
        LD.FinishEndsItsDialog(s, callId, reason, d);
      }
      hide Remember, Without, LD.TablesValid, LD.Stranded, ReasonKept;
    }

    /** The new reason is on record, and up to twenty in all the earlier ones stay with it. */
    ghost predicate ReasonKept(before: map<Id, L.EndReason>, after: map<Id, L.EndReason>, count: nat, callId: Id,
                               reason: L.EndReason)
    {
      && callId in after && after[callId] == reason
      && (count < 20 ==>
            forall other :: other in before && other != callId ==> other in after && after[other] == before[other])
    }

    lemma ReasonIsKept(t: RecentTable.Table<L.EndReason>, callId: Id, reason: L.EndReason)
      requires TableValid(t, L.KEPT)
      ensures ReasonKept(t.values, Remember(t, callId, reason, L.KEPT).values, |t.order|, callId, reason)
    {
      Remembers(t, callId, reason, L.KEPT);
    }

    /** An ACK marks exactly the running dialog of its Call-ID; one that has ended is left alone. */
    method AckArrives(callId: Id)
      requires Valid()
      modifies this`dialogs, this`run
      ensures Valid() && run == old(run) + [L.AckArrives(callId)]
      ensures |dialogs| == |old(dialogs)|
      ensures forall d: nat :: d < |dialogs| ==>
        dialogs[d] == (if Runs(old(Snapshot()), callId, d) then old(dialogs)[d].(acked := true)
                       else old(dialogs)[d])
    {
      hide L.Possible, L.Final, L.InvitesValid, LD.ByesNumbered;
      WhatHolds();
      ghost var s := Snapshot();
      forall d: nat | d < |dialogs|
        ensures |L.Acked(s, callId).dialogs| == |dialogs|
        ensures L.Acked(s, callId).dialogs[d] ==
          if Runs(s, callId, d) then dialogs[d].(acked := true) else dialogs[d]
      {
        LD.AckMarksItsDialog(s, callId, d);
      }
      hide LD.TablesValid, Runs, ReasonKept;
      L.RunAppend(L.Init, run, L.AckArrives(callId));
      if callId in acceptedDialogs.values && acceptedDialogs.values[callId] < |dialogs| {
        var d := acceptedDialogs.values[callId];
        dialogs := dialogs[d := dialogs[d].(acked := true)];
      }
      run := run + [L.AckArrives(callId)];
    }

    // ----- hangup_accepted_call -----

    /** The BYE carries a number above those of all BYE requests before it. */
    method HangUpAcceptedCall(callId: Id) returns (sent: bool)
      requires Valid() && leaving.None?
      modifies this
      ensures Valid() && run == old(run) + [L.HangUp(callId)]
      ensures Snapshot() == L.Step(old(Snapshot()), L.HangUp(callId))
      ensures sent == (callId in old(acceptedDialogs).values && old(connected))
      ensures sent ==> byes == old(byes) + [(callId, old(dialogCseq))] && dialogCseq == old(dialogCseq) + 1
      ensures sent ==> leaving == Some(callId)
      ensures !sent ==> byes == old(byes) && dialogCseq == old(dialogCseq) && leaving == None
      ensures forall i, j :: 0 <= i < j < |byes| ==> byes[i].1 < byes[j].1
    {
      hide L.Possible, L.Final, L.InvitesValid, LD.TablesValid;
      WhatHolds();
      ghost var s := Snapshot();
      LD.StepNumbersByes(s, L.HangUp(callId));
      L.RunAppend(L.Init, run, L.HangUp(callId));
      sent := callId in acceptedDialogs.values && connected;
      if sent {
        var cseq := dialogCseq;
        dialogCseq := dialogCseq + 1;
        byes := byes + [(callId, cseq)];
        leaving := Some(callId);
      }
      run := run + [L.HangUp(callId)];
    }

    /** A BYE that cannot be sent ends nothing: the dialog stays as it is, and may be hung up again. */
    method HangUpFails()
      requires Valid() && leaving.Some?
      modifies this`leaving, this`run
      ensures Valid() && run == old(run) + [L.HangUpFails] && leaving == None
    {
      hide L.Possible, L.Final;
      L.RunAppend(L.Init, run, L.HangUpFails);
      leaving := None;
      run := run + [L.HangUpFails];
    }

    method HangUpIsDone()
      requires Valid() && leaving.Some?
      modifies this
      ensures Valid() && run == old(run) + [L.HangUpDone] && leaving == None
      ensures |dialogs| == |old(dialogs)| && old(leaving).value !in acceptedDialogs.values
      ensures ReasonKept(old(endedDialogReasons), endedDialogReasons, |old(endedOrder)|, old(leaving).value, L.LocalBye)
      ensures forall d: nat :: d < |dialogs| ==>
        dialogs[d] == (if Runs(old(Snapshot()), old(leaving).value, d) then old(dialogs)[d].(ended := Some(L.LocalBye))
                       else old(dialogs)[d])
    {
      hide L.Possible, L.Final, L.InvitesValid, LD.ByesNumbered, L.Finish;
      WhatHolds();
      ghost var s := Snapshot();
      EndMeans(s, leaving.value, L.LocalBye);
      hide LD.TablesValid, Runs, ReasonKept;
      L.RunAppend(L.Init, run, L.HangUpDone);
      FinishAcceptedDialog(leaving.value, L.LocalBye);
      leaving := None;
      run := run + [L.HangUpDone];
    }
  }

  /** Dialog `d` of this Call-ID is running, and the table lists it. */
  ghost predicate Runs(s: L.State, callId: Id, d: nat) {
    d < |s.dialogs| && s.dialogs[d].ended.None? && s.dialogs[d].callId == callId && !LD.Stranded(s, d)
  }
}
