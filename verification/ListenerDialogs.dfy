// Accepted incoming calls: every dialog is in the table until it ends, ends once, and is hung up with
// a number of its own.
module ListenerDialogs {
  import opened Prelude
  import opened Text
  import opened RecentTable
  import opened Listener
  import P = PendingInvites

  /** The table of accepted calls lists running dialogs only, each under its own Call-ID. */
  ghost predicate Listed(accepted: Table<nat>, dialogs: seq<Dialog>, reasons: Table<EndReason>) {
    && Ordered(accepted)
    && TableValid(reasons, KEPT)
    && (forall id :: id in accepted.values ==>
          accepted.values[id] < |dialogs| && dialogs[accepted.values[id]].callId == id &&
          dialogs[accepted.values[id]].ended.None?)
  }

  ghost predicate TablesValid(s: State) {
    Listed(s.accepted, s.dialogs, s.reasons)
  }

  /** A running dialog that the table does not list any more: no end can reach it. */
  ghost predicate Stranded(s: State, d: nat) {
    && d < |s.dialogs| && s.dialogs[d].ended.None?
    && !(s.dialogs[d].callId in s.accepted.values && s.accepted.values[s.dialogs[d].callId] == d)
  }

  /** Accepting a call whose Call-ID is that of a running dialog. */
  predicate Overtakes(s: State, e: Event) {
    && e.Accept? && e.readable && s.connected
    && P.Chosen(s.invites, e.station, e.now).Some?
    && P.Chosen(s.invites, e.station, e.now).value.callId in s.accepted.values
  }

  lemma RemoveKeepsOrdered<V>(t: Table<V>, id: Id)
    requires Ordered(t)
    ensures Ordered(Remove(t, id)) && |Remove(t, id).order| <= |t.order|
  {
    WithoutMembers(t.order, id);
    WithoutNoDup(t.order, id);
    var r := Remove(t, id);
    assert forall i :: 0 <= i < |r.order| ==> r.order[i] in r.order;
  }

  // ----- one end -----

  lemma FinishKeepsTables(s: State, callId: Id, reason: EndReason)
    requires TablesValid(s)
    ensures TablesValid(Finish(s, callId, reason))
  {
    RemoveKeepsOrdered(s.accepted, callId);
    RememberKeepsValid(s.reasons, callId, reason, KEPT);
    hide Ordered, TableValid, Remember;
  }

  lemma FinishStrandsNobody(s: State, callId: Id, reason: EndReason, d: nat)
    requires TablesValid(s)
    ensures Stranded(Finish(s, callId, reason), d) <==> Stranded(s, d)
  {
    hide Ordered, TableValid, Remember;
  }

  /** What an end does to the dialogs: the running one of that call ends, the others stay as they are. */
  lemma FinishEndsItsDialog(s: State, callId: Id, reason: EndReason, d: nat)
    requires TablesValid(s) && d < |s.dialogs|
    ensures var n := Finish(s, callId, reason);
            && |n.dialogs| == |s.dialogs|
            && callId !in n.accepted.values
            && n.dialogs[d] == if s.dialogs[d].ended.None? && s.dialogs[d].callId == callId && !Stranded(s, d)
                               then s.dialogs[d].(ended := Some(reason)) else s.dialogs[d]
  {
    hide Ordered, TableValid, Remember;
  }

  // ----- the end of all -----

  lemma {:induction false} FinishAllKeepsTables(s: State, calls: seq<Id>, reason: EndReason)
    requires TablesValid(s)
    ensures TablesValid(FinishAll(s, calls, reason))
    decreases |calls|
  {
    if calls == [] {
    } else {
      FinishKeepsTables(s, calls[0], reason);
      hide Finish, TablesValid;
      FinishAllKeepsTables(Finish(s, calls[0], reason), calls[1..], reason);
    }
  }

  lemma FinishDelists(s: State, callId: Id, reason: EndReason, id: Id)
    ensures id in Finish(s, callId, reason).accepted.values <==> id in s.accepted.values && id != callId
  {
    hide Without, Remember;
  }

  lemma {:induction false} FinishAllDelists(s: State, calls: seq<Id>, reason: EndReason, id: Id)
    ensures id in FinishAll(s, calls, reason).accepted.values <==> id in s.accepted.values && id !in calls
    decreases |calls|
  {
    if calls == [] {
    } else {
      FinishDelists(s, calls[0], reason, id);
      hide Finish;
      FinishAllDelists(Finish(s, calls[0], reason), calls[1..], reason, id);
      assert id in calls <==> id == calls[0] || id in calls[1..];
    }
  }

  lemma {:induction false} FinishAllStrandsNobody(s: State, calls: seq<Id>, reason: EndReason, d: nat)
    requires TablesValid(s)
    ensures Stranded(FinishAll(s, calls, reason), d) <==> Stranded(s, d)
    ensures |FinishAll(s, calls, reason).dialogs| == |s.dialogs|
    decreases |calls|
  {
    if calls == [] {
    } else {
      var n := Finish(s, calls[0], reason);
      FinishKeepsTables(s, calls[0], reason);
      FinishStrandsNobody(s, calls[0], reason, d);
      assert |n.dialogs| == |s.dialogs|;
      hide Finish, TablesValid, Stranded;
      FinishAllStrandsNobody(n, calls[1..], reason, d);
    }
  }

  /** Losing the connection, like stopping, ends every dialog that is not stranded. */
  lemma ShutdownEndsEveryDialog(s: State, reason: EndReason, d: nat)
    requires TablesValid(s) && d < |s.dialogs| && !Stranded(s, d)
    ensures var n := FinishAll(s.(connected := false), s.accepted.order, reason);
            d < |n.dialogs| && n.dialogs[d].ended.Some?
  {
    var c := s.(connected := false);
    FinishAllKeepsTables(c, s.accepted.order, reason);
    FinishAllStrandsNobody(c, s.accepted.order, reason, d);
    assert !Stranded(c, d);
    var n := FinishAll(c, s.accepted.order, reason);
    assert !Stranded(n, d);
    FinishAllDelists(c, s.accepted.order, reason, n.dialogs[d].callId);
    assert n.dialogs[d].callId !in n.accepted.values;
    hide FinishAll;
  }

  // ----- steps and runs -----

  lemma EnrollKeepsTables(s: State, callId: Id)
    requires TablesValid(s)
    ensures TablesValid(Enroll(s, callId))
  {
    RemoveKeepsOrdered(s.reasons, callId);
    AssignKeepsOrdered(s.accepted, callId, |s.dialogs|);
    var n := Enroll(s, callId);
    hide Ordered, Remove;
    forall id | id in n.accepted.values
      ensures n.accepted.values[id] < |n.dialogs| && n.dialogs[n.accepted.values[id]].callId == id &&
              n.dialogs[n.accepted.values[id]].ended.None?
    {
      if id != callId {
        assert id in s.accepted.values;
      }
    }
  }

  lemma EnrollStrands(s: State, callId: Id, d: nat)
    requires TablesValid(s)
    ensures Stranded(Enroll(s, callId), d) <==>
            Stranded(s, d) || (callId in s.accepted.values && d == s.accepted.values[callId])
  {
    hide Ordered, TableValid, Remove;
  }

  /** What accept does to the tables: nothing, or one more dialog. */
  lemma AnswerEnrolls(s: State, station: string, now: real, readable: bool)
    ensures var n := Answer(s, station, now, readable);
            var chosen := P.Chosen(s.invites, station, now);
            var m := if chosen.Some? && readable then Enroll(s, chosen.value.callId) else s;
            n.accepted == m.accepted && n.dialogs == m.dialogs && n.reasons == m.reasons
  {
    hide P.AfterPop, P.Swept, P.Chosen, Remove, Assign;
  }

  lemma AnswerKeepsTables(s: State, station: string, now: real, readable: bool)
    requires TablesValid(s)
    ensures TablesValid(Answer(s, station, now, readable))
  {
    AnswerEnrolls(s, station, now, readable);
    var chosen := P.Chosen(s.invites, station, now);
    if chosen.Some? && readable {
      EnrollKeepsTables(s, chosen.value.callId);
    }
    hide Listed, P.Chosen, Answer, Enroll;
  }

  lemma StrandedByTables(s: State, t: State, d: nat)
    requires s.accepted == t.accepted && s.dialogs == t.dialogs
    ensures Stranded(s, d) <==> Stranded(t, d)
  {
  }

  lemma AnswerStrands(s: State, station: string, now: real, readable: bool, d: nat)
    requires TablesValid(s) && s.connected
    ensures Stranded(Answer(s, station, now, readable), d) <==>
            Stranded(s, d) || (Overtakes(s, Accept(station, now, readable)) &&
                               d == s.accepted.values[P.Chosen(s.invites, station, now).value.callId])
  {
    hide TablesValid, P.Chosen, Answer, Enroll, Stranded;
    AnswerEnrolls(s, station, now, readable);
    var chosen := P.Chosen(s.invites, station, now);
    if chosen.Some? && readable {
      EnrollStrands(s, chosen.value.callId, d);
      StrandedByTables(Answer(s, station, now, readable), Enroll(s, chosen.value.callId), d);
    } else {
      StrandedByTables(Answer(s, station, now, readable), s, d);
    }
  }

  lemma StepKeepsTables(s: State, e: Event)
    requires TablesValid(s) && Enabled(s, e)
    ensures TablesValid(Step(s, e))
  {
    match e
    case Accept(station, now, readable) => AnswerKeepsTables(s, station, now, readable);
    case ByeArrives(callId) => FinishKeepsTables(s, callId, RemoteBye);
    case HangUpDone => FinishKeepsTables(s, s.leaving.value, LocalBye);
    case Disconnect => FinishAllKeepsTables(s.(connected := false), s.accepted.order, ListenerDisconnected);
    case Stop => FinishAllKeepsTables(s.(connected := false), s.accepted.order, ListenerStopped);
    case _ =>
    hide Ordered, TableValid, Answer, Finish, FinishAll;
  }

  /** The only way to strand a dialog is to accept a second call under its Call-ID. */
  lemma OnlyOvertakingStrands(s: State, e: Event)
    requires TablesValid(s) && Enabled(s, e) && forall d :: !Stranded(s, d)
    ensures (forall d :: !Stranded(Step(s, e), d)) <==> !Overtakes(s, e)
  {
    var n := Step(s, e);
    match e {
      case Accept(station, now, readable) =>
        if s.connected {
          forall d ensures Stranded(n, d) <==>
            Overtakes(s, e) && d == s.accepted.values[P.Chosen(s.invites, station, now).value.callId]
          {
            AnswerStrands(s, station, now, readable, d);
          }
          if Overtakes(s, e) {
            assert Stranded(n, s.accepted.values[P.Chosen(s.invites, station, now).value.callId]);
          }
        }
      case ByeArrives(callId) =>
        forall d ensures !Stranded(n, d) { FinishStrandsNobody(s, callId, RemoteBye, d); }
      case HangUpDone =>
        forall d ensures !Stranded(n, d) {
          FinishStrandsNobody(s, s.leaving.value, LocalBye, d);
          assert !Stranded(s, d);
        }
      case Disconnect => ShutdownStrandsNobody(s, ListenerDisconnected);
      case Stop => ShutdownStrandsNobody(s, ListenerStopped);
      case AckArrives(callId) =>
        forall d ensures !Stranded(n, d) { assert !Stranded(s, d); }
      case _ =>
        forall d ensures !Stranded(n, d) { assert !Stranded(s, d); }
    }
  }

  lemma ShutdownStrandsNobody(s: State, reason: EndReason)
    requires TablesValid(s) && forall d :: !Stranded(s, d)
    ensures forall d :: !Stranded(FinishAll(s.(connected := false), s.accepted.order, reason), d)
  {
    var c := s.(connected := false);
    forall d ensures !Stranded(FinishAll(c, s.accepted.order, reason), d) {
      FinishAllStrandsNobody(c, s.accepted.order, reason, d);
      assert !Stranded(s, d);
    }
  }

  ghost predicate AlwaysReachable(s: State, run: seq<Event>)
    requires Possible(s, run)
    decreases |run|
  {
    (forall d :: !Stranded(s, d)) && (run == [] || AlwaysReachable(Step(s, run[0]), run[1..]))
  }

  predicate NeverOvertakes(s: State, run: seq<Event>)
    requires Possible(s, run)
    decreases |run|
  {
    run == [] || (!Overtakes(s, run[0]) && NeverOvertakes(Step(s, run[0]), run[1..]))
  }

  lemma {:induction false} ReachableIffNeverOvertaken(s: State, run: seq<Event>)
    requires TablesValid(s) && Possible(s, run) && forall d :: !Stranded(s, d)
    ensures AlwaysReachable(s, run) <==> NeverOvertakes(s, run)
    decreases |run|
  {
    if run == [] {
    } else {
      StepKeepsTables(s, run[0]);
      OnlyOvertakingStrands(s, run[0]);
      hide TablesValid, Step, Enabled, Stranded, Overtakes;
      var n := Step(s, run[0]);
      if forall d :: !Stranded(n, d) {
        ReachableIffNeverOvertaken(n, run[1..]);
      }
    }
  }

  lemma {:induction false} RunKeepsTables(s: State, run: seq<Event>)
    requires TablesValid(s) && Possible(s, run)
    ensures TablesValid(Final(s, run))
    decreases |run|
  {
    if run == [] {
    } else {
      StepKeepsTables(s, run[0]);
      hide TablesValid, Step, Enabled;
      RunKeepsTables(Step(s, run[0]), run[1..]);
    }
  }

  /** A dialog that has ended keeps its first reason, over any run. */
  lemma {:induction false} FirstReasonStays(s: State, run: seq<Event>, d: nat)
    requires TablesValid(s) && Possible(s, run) && d < |s.dialogs| && s.dialogs[d].ended.Some?
    ensures d < |Final(s, run).dialogs| && Final(s, run).dialogs[d] == s.dialogs[d]
    decreases |run|
  {
    if run == [] {
    } else {
      StepKeepsTables(s, run[0]);
      StepKeepsEnded(s, run[0], d);
      hide TablesValid, Step, Enabled;
      FirstReasonStays(Step(s, run[0]), run[1..], d);
    }
  }

  lemma {:induction false} FinishAllKeepsEnded(s: State, calls: seq<Id>, reason: EndReason, d: nat)
    requires TablesValid(s) && d < |s.dialogs| && s.dialogs[d].ended.Some?
    ensures d < |FinishAll(s, calls, reason).dialogs| && FinishAll(s, calls, reason).dialogs[d] == s.dialogs[d]
    decreases |calls|
  {
    if calls == [] {
    } else {
      FinishKeepsTables(s, calls[0], reason);
      FinishEndsItsDialog(s, calls[0], reason, d);
      hide TablesValid, Finish;
      FinishAllKeepsEnded(Finish(s, calls[0], reason), calls[1..], reason, d);
    }
  }

  lemma StepKeepsEnded(s: State, e: Event, d: nat)
    requires TablesValid(s) && Enabled(s, e) && d < |s.dialogs| && s.dialogs[d].ended.Some?
    ensures d < |Step(s, e).dialogs| && Step(s, e).dialogs[d] == s.dialogs[d]
  {
    match e
    case Accept(station, now, readable) => AnswerEnrolls(s, station, now, readable);
    case ByeArrives(callId) => FinishEndsItsDialog(s, callId, RemoteBye, d);
    case HangUpDone => FinishEndsItsDialog(s, s.leaving.value, LocalBye, d);
    case Disconnect => FinishAllKeepsEnded(s.(connected := false), s.accepted.order, ListenerDisconnected, d);
    case Stop => FinishAllKeepsEnded(s.(connected := false), s.accepted.order, ListenerStopped, d);
    case _ =>
    hide Ordered, TableValid, Answer, Finish, FinishAll, P.Chosen;
  }

  /** With no other INVITE pending, an incoming call is taken by whoever accepts. */
  lemma OnlyCallIsTaken(s: State, callId: Id, station: string, now: real)
    requires s.invites == [] && s.connected && s.leaving == None
    ensures var n := Step(Step(s, InviteArrives(callId, station, now)), Accept(station, now, true));
            && n.invites == [] && n.connected && n.leaving == None
            && n.accepted == Assign(s.accepted, callId, |s.dialogs|)
            && n.dialogs == s.dialogs + [Dialog(callId, false, None)]
  {
    TakesTheOnlyOne(P.Frame(s.tally.received, callId, station, now), station, now);
    var f := P.Frame(s.tally.received, callId, station, now);
    assert P.Put([], f) == [f];
    hide P.Chosen, P.AfterPop, P.Swept, P.Put, Remove, Assign;
  }

  /** The end of all gives this reason to every running dialog that the table lists. */
  lemma {:induction false} FinishAllGivesReason(s: State, calls: seq<Id>, reason: EndReason, d: nat)
    requires TablesValid(s) && d < |s.dialogs| && s.dialogs[d].ended.None? && !Stranded(s, d)
    requires s.dialogs[d].callId in calls
    ensures d < |FinishAll(s, calls, reason).dialogs|
    ensures FinishAll(s, calls, reason).dialogs[d] == s.dialogs[d].(ended := Some(reason))
    decreases |calls|
  {
    var n := Finish(s, calls[0], reason);
    FinishKeepsTables(s, calls[0], reason);
    FinishEndsItsDialog(s, calls[0], reason, d);
    FinishStrandsNobody(s, calls[0], reason, d);
    hide TablesValid, Finish, Stranded;
    if calls[0] == s.dialogs[d].callId {
      FinishAllKeepsEnded(n, calls[1..], reason, d);
    } else {
      assert s.dialogs[d].callId in calls[1..];
      FinishAllGivesReason(n, calls[1..], reason, d);
    }
  }

  /** Why the condition is needed: the same Call-ID accepted twice strands the first dialog. */
  lemma SecondCallStrandsTheFirst(callId: Id, station: string, now: real)
    ensures var twice := [InviteArrives(callId, station, now), Accept(station, now, true)];
            Possible(Init, [Connect] + (twice + twice)) && Stranded(Final(Init, [Connect] + (twice + twice)), 0)
  {
    var (invite, accept) := (InviteArrives(callId, station, now), Accept(station, now, true));
    var s1 := Step(Init, Connect);
    var s2 := Step(s1, invite);
    var s3 := Step(s2, accept);
    var s4 := Step(s3, invite);
    var s5 := Step(s4, accept);
    OnlyCallIsTaken(s1, callId, station, now);
    OnlyCallIsTaken(s3, callId, station, now);
    assert s5.dialogs[0] == Dialog(callId, false, None) && s5.accepted.values[callId] == 1;
    assert Stranded(s5, 0);
    assert Enabled(s4, accept) && Enabled(s2, accept) && Enabled(s3, invite) && Enabled(s1, invite);
    assert Possible(s5, []) && Final(s5, []) == s5;
    hide Step, Stranded, Possible, Final, Enabled;
    Unroll(s4, accept, []);
    Unroll(s3, invite, [accept]);
    Unroll(s2, accept, [invite] + [accept]);
    Unroll(s1, invite, [accept] + ([invite] + [accept]));
    Unroll(Init, Connect, [invite] + ([accept] + ([invite] + [accept])));
    var twice := [invite, accept];
    assert [invite] + ([accept] + ([invite] + [accept])) == twice + twice;
  }

  lemma Unroll(s: State, e: Event, rest: seq<Event>)
    requires Enabled(s, e) && Possible(Step(s, e), rest)
    ensures Possible(s, [e] + rest) && Final(s, [e] + rest) == Final(Step(s, e), rest)
  {
    assert ([e] + rest)[1..] == rest;
  }

  lemma TakesTheOnlyOne(f: P.Frame, station: string, now: real)
    requires f.receivedAt == now
    ensures P.Chosen([f], station, now) == Some(f)
    ensures P.AfterPop([f], station, now) == []
  {
    var t := [f];
    assert t[1..] == [];
    assert P.Unexpired(t, now) == [f] + P.Unexpired([], now) == t;
    assert P.Swept(t, station, now) == t;
    assert P.DropKey(t, f.callId) == [];
    assert P.FirstOf([], Strip(station)).None?;
    assert P.FirstOf(t, Strip(station)) == if f.station == Strip(station) then Some(f) else None;
  }

  // ----- numbers of BYE requests -----

  ghost predicate ByesNumbered(s: State) {
    s.cseq == |s.byes| + 1 && forall i :: 0 <= i < |s.byes| ==> s.byes[i].1 == i + 1
  }

  lemma StepNumbersByes(s: State, e: Event)
    requires ByesNumbered(s) && Enabled(s, e)
    ensures ByesNumbered(Step(s, e))
  {
    match e
    case ByeArrives(callId) => FinishKeepsInvites(s, callId, RemoteBye);
    case HangUpDone => FinishKeepsInvites(s, s.leaving.value, LocalBye);
    case Disconnect => FinishAllKeepsInvites(s.(connected := false), s.accepted.order, ListenerDisconnected);
    case Stop => FinishAllKeepsInvites(s.(connected := false), s.accepted.order, ListenerStopped);
    case _ =>
    hide Finish, FinishAll, P.Chosen, P.AfterPop, P.Swept, Remove;
  }

  /** Over every run, the BYE requests of the listener carry the numbers 1, 2, 3, ... */
  lemma {:induction false} RunNumbersByes(s: State, run: seq<Event>)
    requires ByesNumbered(s) && Possible(s, run)
    ensures ByesNumbered(Final(s, run))
    decreases |run|
  {
    if run == [] {
    } else {
      StepNumbersByes(s, run[0]);
      hide Step, Enabled;
      RunNumbersByes(Step(s, run[0]), run[1..]);
    }
  }

  /** Over every run: at most 20 reasons are kept, and the table lists running dialogs only. */
  lemma TablesStayValid(run: seq<Event>)
    requires Possible(Init, run)
    ensures var s := Final(Init, run);
            && |s.reasons.order| <= 20
            && forall id :: id in s.accepted.values ==>
                 s.accepted.values[id] < |s.dialogs| && s.dialogs[s.accepted.values[id]].ended.None?
  {
    RunKeepsTables(Init, run);
  }

  /** An ACK marks the running dialog that is listed under its Call-ID, and no other. */
  lemma AckMarksItsDialog(s: State, callId: Id, d: nat)
    requires TablesValid(s) && d < |s.dialogs|
    ensures var n := Acked(s, callId);
            && |n.dialogs| == |s.dialogs|
            && n.dialogs[d] == if s.dialogs[d].ended.None? && s.dialogs[d].callId == callId && !Stranded(s, d)
                               then s.dialogs[d].(acked := true) else s.dialogs[d]
  {
    hide Ordered, TableValid;
  }
}
