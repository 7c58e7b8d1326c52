// The SIP listener's side of incoming calls: pending INVITEs, the answers to them, accepted dialogs
// and their ends, over every run.
module Listener {
  import opened Prelude
  import opened Text
  import opened RecentTable
  import P = PendingInvites

  datatype EndReason = RemoteBye | LocalBye | ListenerDisconnected | ListenerStopped

  datatype Dialog = Dialog(callId: Id, acked: bool, ended: Option<EndReason>)

  /** A final response written for a received INVITE: 200 or 487. */
  datatype FinalResponse = FinalResponse(no: nat, code: nat)

  /** Not in the program: how many INVITEs came, and how many left without a final response. */
  datatype Tally = Tally(received: nat, expired: nat, replaced: nat, unanswered: nat)

  datatype State = State(
    invites: P.Table,           // _open_invites
    accepted: Table<nat>,       // _accepted_dialogs, as indices into `dialogs`
    dialogs: seq<Dialog>,
    reasons: Table<EndReason>,  // _ended_dialog_reasons
    cseq: nat,                  // _dialog_cseq
    connected: bool,            // _writer is usable
    leaving: Option<Id>,        // the call whose BYE is being sent, under _dialog_lock
    finals: seq<FinalResponse>,
    byes: seq<(Id, nat)>,
    tally: Tally)

  const Init := State([], Table([], map[]), [], Table([], map[]), 1, false, None, [], [], Tally(0, 0, 0, 0))

  const KEPT := 20

  datatype Event =
    | InviteArrives(callId: Id, station: string, at: real)
    | LookUp(station: string, now: real)                  // pending_call_for_station
    | Accept(station: string, now: real, readable: bool)  // whether parse_sdp takes the offer
    | CancelArrives(callId: Id)
    | ByeArrives(callId: Id)
    | AckArrives(callId: Id)
    | HangUp(callId: Id)
    | HangUpDone
    | HangUpFails
    | Connect
    | Disconnect
    | Stop

  // ----- the pieces -----

  function Remove<V>(t: Table<V>, id: Id): Table<V> {
    Table(Without(t.order, id), t.values - {id})
  }

  /** _finish_accepted_dialog */
  function Finish(s: State, callId: Id, reason: EndReason): State {
    var r := s.(reasons := Remember(s.reasons, callId, reason, KEPT), accepted := Remove(s.accepted, callId));
    if callId in s.accepted.values && s.accepted.values[callId] < |s.dialogs| then
      var d := s.accepted.values[callId];
      r.(dialogs := s.dialogs[d := s.dialogs[d].(ended := Some(reason))])
    else r
  }

  function FinishAll(s: State, calls: seq<Id>, reason: EndReason): State
    decreases |calls|
  {
    if calls == [] then s else FinishAll(Finish(s, calls[0], reason), calls[1..], reason)
  }

  function Receive(s: State, callId: Id, station: string, at: real): State {
    var f := P.Frame(s.tally.received, callId, station, at);
    s.(invites := P.Put(s.invites, f),
       tally := s.tally.(received := s.tally.received + 1,
                         replaced := s.tally.replaced + if P.Get(s.invites, callId).Some? then 1 else 0))
  }

  function Sweep(s: State, station: string, now: real): State {
    var swept := P.Swept(s.invites, station, now);
    s.(invites := swept, tally := s.tally.(expired := s.tally.expired + Gone(s.invites, swept)))
  }

  function Gone(before: P.Table, after: P.Table): nat {
    if |after| <= |before| then |before| - |after| else 0
  }

  /** accept_pending_call: an offer that does not parse raises after the INVITE was popped. */
  function Answer(s: State, station: string, now: real, readable: bool): State {
    var w := Sweep(s, station, now);
    var chosen := P.Chosen(s.invites, station, now);
    if chosen.None? then w
    else
      var f := chosen.value;
      var p := w.(invites := P.AfterPop(s.invites, station, now));
      if !readable then p.(tally := p.tally.(unanswered := p.tally.unanswered + 1))
      else Enroll(p, f.callId).(finals := s.finals + [FinalResponse(f.no, 200)])
  }

  /** A new dialog, listed under its Call-ID. */
  function Enroll(s: State, callId: Id): State {
    s.(reasons := Remove(s.reasons, callId),
       accepted := Assign(s.accepted, callId, |s.dialogs|),
       dialogs := s.dialogs + [Dialog(callId, false, None)])
  }

  function Cancel(s: State, callId: Id): State {
    var invite := P.Get(s.invites, callId);
    if invite.None? then s
    else s.(invites := P.DropKey(s.invites, callId), finals := s.finals + [FinalResponse(invite.value.no, 487)])
  }

  function Acked(s: State, callId: Id): State {
    if callId in s.accepted.values && s.accepted.values[callId] < |s.dialogs| then
      var d := s.accepted.values[callId];
      s.(dialogs := s.dialogs[d := s.dialogs[d].(acked := true)])
    else s
  }

  predicate Enabled(s: State, e: Event) {
    match e
    case Accept(_, _, _) => s.leaving.None?
    case HangUp(_) => s.leaving.None?
    case HangUpDone => s.leaving.Some?
    case HangUpFails => s.leaving.Some?
    case _ => true
  }

  function Step(s: State, e: Event): State
    requires Enabled(s, e)
  {
    match e
    case InviteArrives(callId, station, at) => Receive(s, callId, station, at)
    case LookUp(station, now) => Sweep(s, station, now)
    case Accept(station, now, readable) => if s.connected then Answer(s, station, now, readable) else s
    case CancelArrives(callId) => Cancel(s, callId)
    case ByeArrives(callId) => Finish(s, callId, RemoteBye)
    case AckArrives(callId) => Acked(s, callId)
    case HangUp(callId) =>
      if callId in s.accepted.values && s.connected then
        s.(cseq := s.cseq + 1, leaving := Some(callId), byes := s.byes + [(callId, s.cseq)])
      else s
    case HangUpDone => Finish(s, s.leaving.value, LocalBye).(leaving := None)
    case HangUpFails => s.(leaving := None)
    case Connect => s.(connected := true)
    case Disconnect => FinishAll(s.(connected := false), s.accepted.order, ListenerDisconnected)
    case Stop => FinishAll(s.(connected := false), s.accepted.order, ListenerStopped)
  }

  predicate Possible(s: State, run: seq<Event>)
    decreases |run|
  {
    run == [] || (Enabled(s, run[0]) && Possible(Step(s, run[0]), run[1..]))
  }

  function Final(s: State, run: seq<Event>): State
    requires Possible(s, run)
    decreases |run|
  {
    if run == [] then s else Final(Step(s, run[0]), run[1..])
  }

  lemma {:induction false} RunAppend(s: State, run: seq<Event>, e: Event)
    requires Possible(s, run) && Enabled(Final(s, run), e)
    ensures Possible(s, run + [e]) && Final(s, run + [e]) == Step(Final(s, run), e)
    decreases |run|
  {
    if run == [] {
      assert run + [e] == [e] && [e][1..] == [];
    } else {
      assert (run + [e])[0] == run[0] && (run + [e])[1..] == run[1..] + [e];
      hide Step, Enabled;
      RunAppend(Step(s, run[0]), run[1..], e);
    }
  }

  // ----- every INVITE gets at most one final response -----

  ghost predicate Answered(finals: seq<FinalResponse>, no: nat) {
    exists i :: 0 <= i < |finals| && finals[i].no == no
  }

  ghost predicate AnsweredOnce(finals: seq<FinalResponse>) {
    forall i, j :: 0 <= i < j < |finals| ==> finals[i].no != finals[j].no
  }

  /** Pending INVITEs are distinct, were received, and have no final response yet. */
  ghost predicate Pending(invites: P.Table, finals: seq<FinalResponse>, received: nat) {
    && P.KeysDiffer(invites)
    && (forall f :: f in invites ==> f.no < received && !Answered(finals, f.no))
    && (forall f, g :: f in invites && g in invites && f.no == g.no ==> f == g)
  }

  ghost predicate Final200or487(finals: seq<FinalResponse>, received: nat) {
    && AnsweredOnce(finals)
    && (forall i :: 0 <= i < |finals| ==> finals[i].no < received && finals[i].code in {200, 487})
  }

  predicate Conserved(invites: P.Table, finals: seq<FinalResponse>, tally: Tally) {
    tally.received == |invites| + |finals| + tally.expired + tally.replaced + tally.unanswered
  }

  ghost predicate InvitesValid(s: State) {
    && Pending(s.invites, s.finals, s.tally.received)
    && Final200or487(s.finals, s.tally.received)
    && Conserved(s.invites, s.finals, s.tally)
  }

  lemma ReceiveKeepsValid(s: State, callId: Id, station: string, at: real)
    requires InvitesValid(s)
    ensures InvitesValid(Receive(s, callId, station, at))
  {
    P.PutMembers(s.invites, P.Frame(s.tally.received, callId, station, at));
    hide P.Put;
  }

  lemma SweepKeepsValid(s: State, station: string, now: real)
    requires InvitesValid(s)
    ensures InvitesValid(Sweep(s, station, now))
  {
    P.SweptKeepsUnexpired(s.invites, station, now);
    P.SweptKeysDiffer(s.invites, station, now);
    hide P.Swept;
    var swept := P.Swept(s.invites, station, now);
    assert forall f :: f in swept ==> f in s.invites;
  }

  lemma AppendAnswer(finals: seq<FinalResponse>, r: FinalResponse, no: nat)
    ensures Answered(finals + [r], no) <==> Answered(finals, no) || r.no == no
    ensures AnsweredOnce(finals) && !Answered(finals, r.no) ==> AnsweredOnce(finals + [r])
  {
    var longer := finals + [r];
    assert longer[|finals|] == r;
    if Answered(finals, no) {
      var i :| 0 <= i < |finals| && finals[i].no == no;
      assert longer[i].no == no;
    }
  }

  /** Answering one pending INVITE: it leaves the table, and nothing else that is answered stays. */
  lemma OneAnswerKeepsValid(invites: P.Table, finals: seq<FinalResponse>, received: nat, f: P.Frame,
                            after: P.Table, code: nat)
    requires Pending(invites, finals, received) && Final200or487(finals, received)
    requires f in invites && code in {200, 487}
    requires P.KeysDiffer(after) && forall g :: g in after ==> g in invites && g.callId != f.callId
    ensures Pending(after, finals + [FinalResponse(f.no, code)], received)
    ensures Final200or487(finals + [FinalResponse(f.no, code)], received)
  {
    var r := FinalResponse(f.no, code);
    AppendAnswer(finals, r, f.no);
    forall g | g in after ensures !Answered(finals + [r], g.no) {
      AppendAnswer(finals, r, g.no);
    }
    hide Answered, AnsweredOnce;
  }

  lemma FewerStayPending(invites: P.Table, finals: seq<FinalResponse>, received: nat, after: P.Table)
    requires Pending(invites, finals, received)
    requires P.KeysDiffer(after) && forall g :: g in after ==> g in invites
    ensures Pending(after, finals, received)
  {
    hide Answered;
  }

  lemma CancelKeepsValid(s: State, callId: Id)
    requires InvitesValid(s)
    ensures InvitesValid(Cancel(s, callId))
  {
    P.DropKeyMembers(s.invites, callId);
    if P.Get(s.invites, callId).Some? {
      var f := P.Get(s.invites, callId).value;
      OneAnswerKeepsValid(s.invites, s.finals, s.tally.received, f, P.DropKey(s.invites, callId), 487);
    }
    hide P.DropKey, P.Get, Pending, Final200or487;
  }

  lemma PopShrinksByOne(s: State, station: string, now: real)
    requires InvitesValid(s) && P.Chosen(s.invites, station, now).Some?
    ensures |P.AfterPop(s.invites, station, now)| == |P.Swept(s.invites, station, now)| - 1
  {
    var (swept, f) := (P.Swept(s.invites, station, now), P.Chosen(s.invites, station, now).value);
    P.SweptKeepsUnexpired(s.invites, station, now);
    P.SweptKeysDiffer(s.invites, station, now);
    P.ChosenIsLive(s.invites, station, now);
    P.UnexpiredMembers(swept, now);
    assert f in swept;
    P.DropKeyMembers(swept, f.callId);
    hide P.Swept, P.Chosen, P.DropKey, P.Unexpired;
    GetFinds(swept, f);
  }

  lemma {:induction false} GetFinds(t: P.Table, f: P.Frame)
    requires f in t
    ensures P.Get(t, f.callId).Some?
  {
    if t[0].callId != f.callId {
      assert t == [t[0]] + t[1..];
      GetFinds(t[1..], f);
    }
  }

  /** What accept does to the INVITEs. */
  lemma AnswerMoves(s: State, station: string, now: real, readable: bool)
    ensures var n := Answer(s, station, now, readable);
            var w := Sweep(s, station, now);
            var chosen := P.Chosen(s.invites, station, now);
            if chosen.None? then n == w
            else
              && n.invites == P.AfterPop(s.invites, station, now)
              && n.finals == s.finals + (if readable then [FinalResponse(chosen.value.no, 200)] else [])
              && n.tally == if readable then w.tally else w.tally.(unanswered := w.tally.unanswered + 1)
  {
    hide P.AfterPop, P.Swept, P.Chosen, Remove, Assign, Gone;
  }

  lemma AnswerFinals(s: State, station: string, now: real, readable: bool)
    ensures var chosen := P.Chosen(s.invites, station, now);
            Answer(s, station, now, readable).finals ==
            if chosen.Some? && readable then s.finals + [FinalResponse(chosen.value.no, 200)] else s.finals
  {
    hide P.AfterPop, P.Swept, P.Chosen, Remove, Assign, Gone;
  }

  /** The table after popping the chosen INVITE. */
  lemma PoppedStayPending(s: State, station: string, now: real)
    requires InvitesValid(s) && P.Chosen(s.invites, station, now).Some?
    ensures var after := P.AfterPop(s.invites, station, now);
            var no := P.Chosen(s.invites, station, now).value.no;
            && Pending(after, s.finals, s.tally.received)
            && Pending(after, s.finals + [FinalResponse(no, 200)], s.tally.received)
            && Final200or487(s.finals + [FinalResponse(no, 200)], s.tally.received)
  {
    var after := P.AfterPop(s.invites, station, now);
    P.ChosenIsLive(s.invites, station, now);
    P.PopTakesOnlyTheChosen(s.invites, station, now);
    hide P.AfterPop, P.Chosen, Pending, Final200or487;
    FewerStayPending(s.invites, s.finals, s.tally.received, after);
    OneAnswerKeepsValid(s.invites, s.finals, s.tally.received, P.Chosen(s.invites, station, now).value, after, 200);
  }

  lemma AnswerKeepsConserved(s: State, station: string, now: real, readable: bool)
    requires InvitesValid(s)
    ensures var n := Answer(s, station, now, readable); Conserved(n.invites, n.finals, n.tally)
  {
    AnswerMoves(s, station, now, readable);
    SweepKeepsValid(s, station, now);
    if P.Chosen(s.invites, station, now).Some? {
      PopShrinksByOne(s, station, now);
    }
    hide P.AfterPop, P.Swept, P.Chosen, Pending, Final200or487, Answer, Gone;
  }

  lemma AnswerKeepsValid(s: State, station: string, now: real, readable: bool)
    requires InvitesValid(s)
    ensures InvitesValid(Answer(s, station, now, readable))
  {
    AnswerMoves(s, station, now, readable);
    AnswerKeepsConserved(s, station, now, readable);
    if P.Chosen(s.invites, station, now).None? {
      SweepKeepsValid(s, station, now);
    } else {
      PoppedStayPending(s, station, now);
      assert Sweep(s, station, now).tally.received == s.tally.received;
      assert s.finals + [] == s.finals;
    }
    hide P.AfterPop, P.Swept, P.Chosen, Pending, Final200or487, Conserved, Answer, Sweep;
  }

  lemma FinishKeepsInvites(s: State, callId: Id, reason: EndReason)
    ensures var n := Finish(s, callId, reason);
            n.invites == s.invites && n.finals == s.finals && n.tally == s.tally && n.cseq == s.cseq && n.byes == s.byes
  {
  }

  lemma {:induction false} FinishAllKeepsInvites(s: State, calls: seq<Id>, reason: EndReason)
    ensures var n := FinishAll(s, calls, reason);
            n.invites == s.invites && n.finals == s.finals && n.tally == s.tally && n.cseq == s.cseq && n.byes == s.byes
    decreases |calls|
  {
    if calls == [] {
    } else {
      FinishKeepsInvites(s, calls[0], reason);
      FinishAllKeepsInvites(Finish(s, calls[0], reason), calls[1..], reason);
    }
  }

  lemma StepKeepsInvitesValid(s: State, e: Event)
    requires InvitesValid(s) && Enabled(s, e)
    ensures InvitesValid(Step(s, e))
  {
    match e
    case InviteArrives(callId, station, at) => ReceiveKeepsValid(s, callId, station, at);
    case LookUp(station, now) => SweepKeepsValid(s, station, now);
    case Accept(station, now, readable) => AnswerKeepsValid(s, station, now, readable);
    case CancelArrives(callId) => CancelKeepsValid(s, callId);
    case ByeArrives(callId) => FinishKeepsInvites(s, callId, RemoteBye);
    case HangUpDone => FinishKeepsInvites(s, s.leaving.value, LocalBye);
    case Disconnect => FinishAllKeepsInvites(s.(connected := false), s.accepted.order, ListenerDisconnected);
    case Stop => FinishAllKeepsInvites(s.(connected := false), s.accepted.order, ListenerStopped);
    case _ =>
    hide Receive, Sweep, Answer, Cancel, Finish, FinishAll;
  }

  lemma {:induction false} RunKeepsInvitesValid(s: State, run: seq<Event>)
    requires InvitesValid(s) && Possible(s, run)
    ensures InvitesValid(Final(s, run))
    decreases |run|
  {
    if run == [] {
    } else {
      StepKeepsInvitesValid(s, run[0]);
      hide InvitesValid, Step, Enabled;
      RunKeepsInvitesValid(Step(s, run[0]), run[1..]);
    }
  }

  /**
   * Over every run: no INVITE gets two final responses (so never both 200 and 487), none gets one
   * while it is still pending, and every INVITE received is pending, answered, expired, replaced by
   * one with the same Call-ID, or popped for an offer that could not be read.
   */
  lemma EveryInviteHasOneFate(run: seq<Event>)
    requires Possible(Init, run)
    ensures var s := Final(Init, run);
            && (forall i, j :: 0 <= i < j < |s.finals| ==> s.finals[i].no != s.finals[j].no)
            && (forall i :: 0 <= i < |s.finals| ==> s.finals[i].no < s.tally.received && s.finals[i].code in {200, 487})
            && (forall f :: f in s.invites ==> !Answered(s.finals, f.no))
            && s.tally.received == |s.invites| + |s.finals| + s.tally.expired + s.tally.replaced + s.tally.unanswered
  {
    RunKeepsInvitesValid(Init, run);
  }
}
