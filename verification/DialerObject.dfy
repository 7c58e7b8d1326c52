// The dialer object.  Its ghost `run` lists the events so far, and Valid() says that the fields are
// where that run leads, so every theorem about runs is one about the object.  Each public method is
// the code between two awaits; it extends the run by the event of the same name.
module DialerObject {
  import opened Prelude
  import opened Text
  import opened RecentTable
  import opened CallEnds
  import opened Dialer
  import opened DialerNumbers

  lemma ResolveNobody(futures: seq<Future>, reason: Reason)
    ensures Resolve(futures, [], reason) == futures
  {
  }

  lemma ResolveOneMore(futures: seq<Future>, waiting: seq<nat>, k: nat, reason: Reason)
    requires k < |waiting| && waiting[k] < |futures|
    ensures var was := Resolve(futures, waiting[..k], reason);
            var f := waiting[k];
            Resolve(futures, waiting[..k + 1], reason) ==
            if was[f].Pending? then was[f := Done(was[f].id, reason)] else was
  {
    assert waiting[..k + 1] == waiting[..k] + [waiting[k]];
  }

  class IntercomDialer {
    var call: Option<Id>
    var pendingTarget: Option<Id>
    var writer: bool
    var failed: bool            // the stream holds an exception
    var cseq: nat
    // _ended_call_reasons with its insertion order, _call_end_waiters, and the futures
    var endedOrder: seq<Id>
    var endedCallReasons: map<Id, Reason>
    var callEndWaiters: map<Id, seq<nat>>
    var futures: seq<Future>
    // what the lock's holder is waiting for
    var op: Op
    ghost var history: History

    ghost var run: seq<Event>

    ghost function Snapshot(): State
      reads this
    {
      State(call, pendingTarget, writer, failed, cseq, op,
            Book(Table(endedOrder, endedCallReasons), callEndWaiters, futures), history)
    }

    ghost predicate Valid()
      reads this
    {
      Possible(Init, run) && Snapshot() == Final(Init, run)
    }

    constructor ()
      ensures Valid() && run == []
    {
      call, pendingTarget, writer, failed, cseq, op := None, None, false, false, 0, Idle;
      endedOrder, endedCallReasons, callEndWaiters, futures := [], map[], map[], [];
      history := History([], {}, {}, {}, {});
      run := [];
    }

    /** What a valid object may rely on, whatever the run was. */
    lemma WhatHolds()
      requires Valid()
      ensures Numbered(Snapshot())
      ensures BookValid(Snapshot().book) && ReasonsValid(Snapshot().book.table)
      ensures forall id :: id in history.reached ==> call == Some(id) || id in history.ended
    {
      RunIsNumbered(run);
      forall id | id in history.reached ensures call == Some(id) || id in history.ended {
        EveryCallIsEnded(run, id);
      }
    }

    // ----- _finish_call -----

    method RememberEnd(callId: Id, reason: Reason)
      requires ReasonsValid(Snapshot().book.table)
      modifies this`endedOrder, this`endedCallReasons
      ensures Snapshot().book.table == Record(old(Snapshot()).book.table, callId, reason)
    {
      if callId !in endedCallReasons {
        endedOrder := endedOrder + [callId];
      }
      endedCallReasons := endedCallReasons[callId := reason];
      ghost var longer := Assign(old(Snapshot()).book.table, callId, reason);
      while |endedOrder| > REMEMBERED
        invariant |endedOrder| <= REMEMBERED + 1
        invariant Table(endedOrder, endedCallReasons) == longer ||
                  (|longer.order| > REMEMBERED && |endedOrder| == REMEMBERED &&
                   Table(endedOrder, endedCallReasons) == PopOldest(longer))
      {
        endedCallReasons := endedCallReasons - {endedOrder[0]};
        endedOrder := endedOrder[1..];
      }
    }

    method ResolveWaiters(callId: Id, reason: Reason)
      requires BookValid(Snapshot().book)
      modifies this`callEndWaiters, this`futures
      ensures callEndWaiters == old(callEndWaiters) - {callId}
      ensures futures == Resolve(old(futures), old(Waiting(Snapshot().book, callId)), reason)
    {
      if callId in callEndWaiters {
        var waiting := callEndWaiters[callId];
        callEndWaiters := callEndWaiters - {callId};
        ResolveNobody(futures, reason);
        var k := 0;
        while k < |waiting|
          invariant 0 <= k <= |waiting|
          invariant callEndWaiters == old(callEndWaiters) - {callId}
          invariant futures == Resolve(old(futures), waiting[..k], reason)
        {
          var f := waiting[k];
          ResolveOneMore(old(futures), waiting, k, reason);
          if futures[f].Pending? {
            futures := futures[f := Done(futures[f].id, reason)];
          }
          k := k + 1;
        }
        assert waiting[..k] == waiting;
      } else {
        ResolveNobody(futures, reason);
        assert callEndWaiters - {callId} == callEndWaiters;
      }
    }

    method FinishCall(callId: Id, reason: Reason)
      requires BookValid(Snapshot().book)
      modifies this
      ensures run == old(run) && Snapshot() == Finish(old(Snapshot()), callId, reason)
      ensures call == (if Strip(callId) != "" && old(call) == Some(Strip(callId)) then None else old(call))
      ensures pendingTarget ==
        if Strip(callId) != "" && old(pendingTarget) == Some(Strip(callId)) then None else old(pendingTarget)
      ensures writer == old(writer) && failed == old(failed) && cseq == old(cseq) && op == old(op)
    {
      hide BookValid, ReasonsValid, Strip, Record, Resolve;
      var id := Strip(callId);
      if id == "" {
        return;
      }
      if call == Some(id) {
        call := None;
      }
      if pendingTarget == Some(id) {
        pendingTarget := None;
      }
      EndBook(id, reason);
      history := history.(ended := history.ended + {id});
    }

    /** The reasons and the waiters of a call that has ended. */
    method EndBook(id: Id, reason: Reason)
      requires BookValid(Snapshot().book)
      modifies this`endedOrder, this`endedCallReasons, this`callEndWaiters, this`futures
      ensures Snapshot().book == RecordEnd(old(Snapshot()).book, id, reason)
    {
      hide BookValid, ReasonsValid, Record, Resolve;
      ReasonsKnown();
      ResolveWaiters(id, reason);
      RememberEnd(id, reason);
    }

    lemma ReasonsKnown()
      requires BookValid(Snapshot().book)
      ensures ReasonsValid(Snapshot().book.table)
    {
    }

    // ----- _reset_connection_locked -----

    method ResetConnectionLocked()
      requires BookValid(Snapshot().book)
      modifies this
      ensures run == old(run) && Snapshot() == Dialer.ResetConnection(old(Snapshot()))
      ensures !writer && !failed && op.Idle?
    {
      hide BookValid, Strip, RecordEnd;
      writer := false;
      failed := false;
      op := Idle;
      if call.Some? {
        FinishCall(call.value, ConnectionReset);
      } else {
        pendingTarget := None;
      }
    }

    /** Afterwards there is neither call nor connection, every call has its end on record, and a connect can follow. */
    method ResetConnection()
      requires Valid() && op.Idle?
      modifies this
      ensures Valid() && run == old(run) + [Reset] && Snapshot() == Step(old(Snapshot()), Reset)
      ensures !writer && !failed && op.Idle? && Enabled(Snapshot(), Connect)
      ensures call == None && forall id :: id in history.reached ==> id in history.ended
      ensures old(call).Some? ==> KnownEnd(Snapshot().book, old(call).value) == Some(ConnectionReset)
      ensures old(call).None? ==> pendingTarget == None
    {
      ConnectionIsLost(Reset);
    }

    /** The same for a send that finds the connection gone, and for a REGISTER that fails. */
    method ConnectionIsLost(e: Event)
      requires Valid() && Enabled(Snapshot(), e) && Resets(e)
      modifies this
      ensures Valid() && run == old(run) + [e] && Snapshot() == Step(old(Snapshot()), e)
      ensures !writer && !failed && op.Idle? && Enabled(Snapshot(), Connect)
      ensures call == None && forall id :: id in history.reached ==> id in history.ended
      ensures old(call).Some? ==> KnownEnd(Snapshot().book, old(call).value) == Some(ConnectionReset)
      ensures old(call).None? ==> pendingTarget == None
    {
      hide Possible, Final, BookValid, Numbered, Step, KnownEnd;
      WhatHolds();
      ghost var s := Snapshot();
      ResetMeans(s, e);
      RunAppend(Init, run, e);
      ResetConnectionLocked();
      run := run + [e];
      WhatHolds();
    }

    // ----- _connect_locked and _register -----

    /** The counter restarts at 1, and only when no dialog is left to see it. */
    method ConnectLocked()
      requires Valid() && op.Idle? && !writer
      modifies this
      ensures Valid() && run == old(run) + [Connect] && Snapshot() == Step(old(Snapshot()), Connect)
      ensures writer && !failed && cseq == 1 && op == Registering
      ensures call == None && forall id :: id in history.reached ==> id in history.ended
    {
      hide Possible, Final, BookValid, Numbered;
      WhatHolds();
      ConnectMeans(Snapshot());
      RunAppend(Init, run, Connect);
      writer := true;
      failed := false;
      cseq := 1;
      op := Registering;
      run := run + [Connect];
    }

    /** The REGISTER takes a number of its own, so the active call's numbers stay behind the counter. */
    method RegisterIsChallenged()
      requires Valid() && op.Registering? && !failed
      modifies this`cseq, this`run
      ensures Valid() && run == old(run) + [RegisterChallenged]
      ensures Snapshot() == Step(old(Snapshot()), RegisterChallenged) && cseq == old(cseq) + 1
      ensures call.Some? ==> Below(history.sent, call.value, cseq)
    {
      hide Possible, Final, BookValid;
      WhatHolds();
      RunAppend(Init, run, RegisterChallenged);
      cseq := cseq + 1;
      run := run + [RegisterChallenged];
    }

    method RegisterIsAccepted()
      requires Valid() && op.Registering? && !failed
      modifies this`cseq, this`op, this`run
      ensures Valid() && run == old(run) + [Registered] && Snapshot() == Step(old(Snapshot()), Registered)
      ensures cseq == old(cseq) + 1 && op.Idle?
      ensures call.Some? ==> Below(history.sent, call.value, cseq)
    {
      hide Possible, Final, BookValid;
      WhatHolds();
      RunAppend(Init, run, Registered);
      cseq := cseq + 1;
      op := Idle;
      run := run + [Registered];
    }

    // ----- wait_call_end -----

    /** Either the answer at once, or None and a new future to wait on. */
    method WaitCallEnd(callId: Id) returns (blank: bool, known: Option<Reason>)
      requires Valid()
      modifies this`callEndWaiters, this`futures, this`run
      ensures Valid() && run == old(run) + [BeginWaiting(callId)]
      ensures blank == (Strip(callId) == "")
      ensures !blank ==> known == KnownEnd(old(Snapshot()).book, callId)
      ensures blank || known.Some? ==> futures == old(futures)
      ensures !blank && known.None? ==>
        futures == old(futures) + [Pending(Strip(callId))] && |old(futures)| in Waiting(Snapshot().book, Strip(callId))
    {
      hide Possible, Final, Strip, Finish, Dialer.ResetConnection, StartDial, StartBye, AfterBye, Write;
      hide CancelWait, EndWait;
      RunAppend(Init, run, BeginWaiting(callId));
      ghost var s := Snapshot();
      var id := Strip(callId);
      run := run + [BeginWaiting(callId)];
      blank, known := id == "", None;
      if blank {
        return;
      }
      if id in endedCallReasons {
        return false, Some(endedCallReasons[id]);
      }
      var waiters := if id in callEndWaiters then callEndWaiters[id] else [];
      callEndWaiters := callEndWaiters[id := waiters + [|futures|]];
      futures := futures + [Pending(id)];
      assert (waiters + [|old(futures)|])[|waiters|] == |old(futures)|;
    }

    method WaitIsCancelled(f: nat)
      requires Valid() && f < |futures|
      modifies this`futures, this`run
      ensures Valid() && run == old(run) + [CancelWaiting(f)]
      ensures futures == old(futures)[f := if old(futures)[f].Pending? then Cancelled(old(futures)[f].id)
                                           else old(futures)[f]]
    {
      hide Possible, Final;
      RunAppend(Init, run, CancelWaiting(f));
      if futures[f].Pending? {
        futures := futures[f := Cancelled(futures[f].id)];
      }
      run := run + [CancelWaiting(f)];
    }

    method WaitFinally(f: nat)
      requires Valid() && f < |futures| && !futures[f].Pending?
      modifies this`callEndWaiters, this`run
      ensures Valid() && run == old(run) + [EndWaiting(f)]
      ensures callEndWaiters == EndWait(old(Snapshot()).book, f).waiters
      ensures f !in Waiting(Snapshot().book, futures[f].id)
      ensures forall g :: g != f ==>
        (g in Waiting(Snapshot().book, futures[f].id) <==> g in Waiting(old(Snapshot()).book, futures[f].id))
      ensures forall id :: id != futures[f].id ==> Waiting(Snapshot().book, id) == Waiting(old(Snapshot()).book, id)
    {
      hide Possible, Final;
      WhatHolds();
      EndWaitTakesOne(Snapshot().book, f);
      RunAppend(Init, run, EndWaiting(f));
      var id := futures[f].id;
      if id in callEndWaiters && f in callEndWaiters[id] {
        var waiters := RemoveFirst(callEndWaiters[id], f);
        if waiters == [] {
          callEndWaiters := callEndWaiters - {id};
        } else {
          callEndWaiters := callEndWaiters[id := waiters];
        }
      }
      run := run + [EndWaiting(f)];
    }

    // ----- dial and _dial_locked -----

    method WriteRequest(verb: Method, id: Id, number: nat)
      modifies this`history
      ensures Snapshot() == Write(old(Snapshot()), verb, id, number)
    {
      history := history.(sent := history.sent + [Sent(verb, id, number)]);
    }

    method StartDialing(id: Id)
      modifies this`pendingTarget, this`history, this`op
      ensures Snapshot() == StartDial(old(Snapshot()), id)
      ensures pendingTarget == Some(id) && history.dialed == old(history).dialed + {id}
      ensures !writer ==> op.Idle? && history.sent == old(history).sent
      ensures writer ==> op == Inviting(id, cseq, false) && history.sent == old(history).sent + [Sent(Invite, id, cseq)]
    {
      pendingTarget := Some(id);
      history := history.(dialed := history.dialed + {id});
      if !writer {
        op := Idle;
        return;
      }
      WriteRequest(Invite, id, cseq);
      op := Inviting(id, cseq, false);
    }

    /** An active call is left before the new one is dialed, and what is written has a new number. */
    method DialLocked(id: Id)
      requires Valid() && op.Idle? && NewCallId(Snapshot(), id)
      modifies this
      ensures Valid() && run == old(run) + [Event.Dial(id)] && Snapshot() == Step(old(Snapshot()), Event.Dial(id))
      ensures old(call).Some? ==> op == ByeWritten(old(call).value, Some(id)) && id !in history.dialed
      ensures old(call).Some? ==> history.sent == old(history.sent) + [Sent(Bye, old(call).value, cseq)]
      ensures old(call).None? ==> pendingTarget == Some(id) && op == if writer then Inviting(id, cseq, false) else Idle
      ensures old(call).None? && writer ==> history.sent == old(history.sent) + [Sent(Invite, id, cseq)]
      ensures cseq == old(cseq) && call == old(call)
      ensures writer && !Repeats(old(Snapshot()), Event.Dial(id)) ==> NewNumber(old(history.sent), history.sent)
    {
      hide Possible, Final, BookValid, Repeats, NewNumber, Below, InviteNumbered, CutsExact, Bounded;
      WhatHolds();
      ghost var s := Snapshot();
      DialMeans(s, id);
      RunAppend(Init, run, Event.Dial(id));
      if call.Some? {
        HangUpLocked(Some(id));
      } else {
        StartDialing(id);
      }
      run := run + [Event.Dial(id)];
    }

    /** The retry has a new number, which the ACK will reuse; there is still no call. */
    method InviteIsChallenged()
      requires Valid() && op.Inviting? && !op.retried && !failed
      modifies this
      ensures Valid() && run == old(run) + [InviteChallenged] && Snapshot() == Step(old(Snapshot()), InviteChallenged)
      ensures NewNumber(old(history.sent), history.sent) && LastInvite(history.sent, op.id) == Some(cseq)
      ensures history.sent == old(history.sent) + [Sent(Invite, old(op).id, old(cseq) + 1)] && cseq == old(cseq) + 1
      ensures op == Inviting(old(op).id, cseq, true) && call == None
    {
      hide Possible, Final, NewNumber, Below;
      WhatHolds();
      ChallengeMeans(Snapshot());
      RunAppend(Init, run, InviteChallenged);
      cseq := cseq + 1;
      WriteRequest(Invite, op.id, cseq);
      op := Inviting(op.id, cseq, true);
      run := run + [InviteChallenged];
    }

    /** The ACK carries the number of the latest INVITE and is the only request that does so. */
    method InviteIsAccepted()
      requires Valid() && op.Inviting? && !failed
      modifies this
      ensures Valid() && run == old(run) + [InviteAccepted] && Snapshot() == Step(old(Snapshot()), InviteAccepted)
      ensures LastInvite(old(history.sent), op.id).Some? && Increasing(history.sent, op.id)
      ensures history.sent == old(history.sent) + [Sent(Ack, op.id, LastInvite(old(history.sent), op.id).value)]
      ensures call == None
    {
      hide Possible, Final, BookValid, LastInvite, AcksReuse;
      WhatHolds();
      AcceptMeans(Snapshot());
      RunAppend(Init, run, InviteAccepted);
      WriteRequest(Ack, op.id, op.cseq);
      op := Acking(op.id, op.cseq);
      run := run + [InviteAccepted];
    }

    /** A rejected dial leaves no call behind and never was one. */
    method InviteIsRejected()
      requires Valid() && op.Inviting? && !failed
      modifies this`pendingTarget, this`op, this`run
      ensures Valid() && run == old(run) + [InviteRejected] && Snapshot() == Step(old(Snapshot()), InviteRejected)
      ensures call == None && pendingTarget == None && op.Idle? && old(op).id !in history.reached
      ensures forall id :: id in history.reached ==> id in history.ended
    {
      hide Possible, Final, BookValid, Bounded, CutsExact, InviteNumbered;
      WhatHolds();
      RunAppend(Init, run, InviteRejected);
      pendingTarget := None;
      op := Idle;
      run := run + [InviteRejected];
    }

    /** The new call is the only one, its numbers increase, and the counter is ahead of them. */
    method EstablishCall()
      requires Valid() && op.Acking? && !failed
      modifies this
      ensures Valid() && run == old(run) + [Establish] && Snapshot() == Step(old(Snapshot()), Establish)
      ensures old(call) == None && call == Some(old(op).id) && pendingTarget == None && op.Idle?
      ensures cseq == old(cseq) + 1 && history.sent == old(history.sent)
      ensures forall id :: id in history.reached && id != old(op).id ==> id in history.ended
      ensures Increasing(history.sent, old(op).id) && Below(history.sent, old(op).id, cseq)
    {
      hide Possible, Final, BookValid, Increasing, Below, LastInvite, AcksReuse, CutsExact;
      WhatHolds();
      RunAppend(Init, run, Establish);
      call := Some(op.id);
      pendingTarget := None;
      cseq := cseq + 1;
      history := history.(reached := history.reached + {op.id});
      op := Idle;
      run := run + [Establish];
    }

    /** The best-effort BYE has the INVITE's number, and its dialog never becomes a call. */
    method BestEffortBye()
      requires Valid() && op.Acking? && !failed
      modifies this
      ensures Valid() && run == old(run) + [SetupFails] && Snapshot() == Step(old(Snapshot()), SetupFails)
      ensures call == None && pendingTarget == None && op.Idle? && old(op).id !in history.reached
      ensures history.sent == old(history.sent) + [Sent(Bye, old(op).id, old(op).cseq)] && cseq == old(cseq) + 1
    {
      hide Possible, Final, BookValid, Bounded, CutsExact, InviteNumbered;
      WhatHolds();
      RunAppend(Init, run, SetupFails);
      pendingTarget := None;
      WriteRequest(Bye, op.id, cseq);
      cseq := cseq + 1;
      op := Idle;
      run := run + [SetupFails];
    }

    // ----- hangup and _hangup_locked -----

    method HangUpLocked(next: Option<Id>)
      modifies this
      ensures run == old(run) && Snapshot() == StartBye(old(Snapshot()), next)
    {
      if call.None? || !writer {
        if next.Some? {
          StartDialing(next.value);
        }
        return;
      }
      WriteRequest(Bye, call.value, cseq);
      op := ByeWritten(call.value, next);
    }

    method HangUpScoped(scope: Option<Id>)
      requires Valid() && op.Idle?
      modifies this
      ensures Valid() && run == old(run) + [HangUp(scope)] && Snapshot() == Step(old(Snapshot()), HangUp(scope))
      ensures scope.Some? && old(call).Some? && scope != old(call) ==> Snapshot() == old(Snapshot())
      ensures old(call).None? ==> Snapshot() == old(Snapshot())
      ensures old(call).Some? && (scope == None || scope == old(call)) ==>
        && history.sent == old(history.sent) + [Sent(Bye, old(call).value, cseq)]
        && op == ByeWritten(old(call).value, None)
      ensures call == old(call) && cseq == old(cseq)
      ensures history.sent != old(history.sent) && !Repeats(old(Snapshot()), HangUp(scope)) ==>
        NewNumber(old(history.sent), history.sent)
    {
      hide Possible, Final, BookValid, Repeats, NewNumber;
      WhatHolds();
      ghost var s := Snapshot();
      StepWrites(s, HangUp(scope));
      if !Repeats(s, HangUp(scope)) {
        WritesNewNumber(s, HangUp(scope));
      }
      hide Numbered;
      RunAppend(Init, run, HangUp(scope));
      if !(scope.Some? && call.Some? && call != scope) {
        HangUpLocked(None);
      }
      run := run + [HangUp(scope)];
    }

    /** The counter is ahead again of every number that the dialog has used. */
    method SendIsComplete()
      requires Valid() && (op.ByeWritten? || op.MessageWritten?) && !failed
      modifies this
      ensures Valid() && run == old(run) + [SendCompletes] && Snapshot() == Step(old(Snapshot()), SendCompletes)
      ensures op.id == old(op).id && cseq == old(cseq) + 1 && Below(history.sent, op.id, cseq)
      ensures op.ByeWaiting? <==> old(op).ByeWritten?
    {
      hide Possible, Final, BookValid, Below, InviteNumbered, CutsExact;
      WhatHolds();
      RunAppend(Init, run, SendCompletes);
      cseq := cseq + 1;
      op := if op.ByeWritten? then ByeWaiting(op.id, op.next) else MessageWaiting(op.id, op.retried);
      run := run + [SendCompletes];
    }

    /** The call is over, with local_bye on record, before a waiting dial goes on. */
    method ByeIsOver()
      requires Valid() && op.ByeWaiting?
      modifies this
      ensures Valid() && run == old(run) + [ByeEnds] && Snapshot() == Step(old(Snapshot()), ByeEnds)
      ensures call == None && KnownEnd(Snapshot().book, old(op).id) == Some(LocalBye)
      ensures old(op).next.Some? ==> pendingTarget == old(op).next
      ensures old(op).next.None? ==> op.Idle? && history.sent == old(history).sent
    {
      hide Possible, Final, BookValid, Strip, RecordEnd, Numbered;
      WhatHolds();
      ghost var s := Snapshot();
      ByeEndMeans(s);
      hide KnownEnd, Finish;
      RunAppend(Init, run, ByeEnds);
      var next := op.next;
      FinishCall(op.id, LocalBye);
      if next.Some? {
        StartDialing(next.value);
      } else {
        op := Idle;
      }
      run := run + [ByeEnds];
    }

    // ----- send_active_message, the reader loop -----

    method SendActiveMessage() returns (sent: bool)
      requires Valid() && op.Idle?
      modifies this
      ensures Valid() && sent == Enabled(old(Snapshot()), SendMessage)
      ensures !sent ==> run == old(run) && Snapshot() == old(Snapshot())
      ensures sent ==> run == old(run) + [SendMessage] && Snapshot() == Step(old(Snapshot()), SendMessage)
      ensures sent <==> call.Some? && writer
      ensures sent ==> history.sent == old(history.sent) + [Sent(Message, call.value, cseq)]
      ensures sent ==> op == MessageWritten(call.value, false)
      ensures sent && !Repeats(old(Snapshot()), SendMessage) ==> NewNumber(old(history.sent), history.sent)
    {
      hide Possible, Final, BookValid, Repeats, NewNumber;
      if call.None? {
        return false;
      }
      if !writer {
        return false;
      }
      WhatHolds();
      ghost var s := Snapshot();
      if !Repeats(s, SendMessage) {
        WritesNewNumber(s, SendMessage);
      }
      hide Numbered;
      RunAppend(Init, run, SendMessage);
      WriteRequest(Message, call.value, cseq);
      op := MessageWritten(call.value, false);
      run := run + [SendMessage];
      sent := true;
    }

    /** The retry never repeats a number, for the counter has just advanced. */
    method MessageIsChallenged()
      requires Valid() && op.MessageWaiting? && !op.retried
      modifies this
      ensures Valid() && run == old(run) + [MessageChallenged] && Snapshot() == Step(old(Snapshot()), MessageChallenged)
      ensures history.sent == old(history.sent) + [Sent(Message, old(op).id, cseq)]
      ensures NewNumber(old(history.sent), history.sent)
    {
      hide Possible, Final, BookValid, NewNumber;
      WhatHolds();
      WritesNewNumber(Snapshot(), MessageChallenged);
      hide Numbered;
      RunAppend(Init, run, MessageChallenged);
      WriteRequest(Message, op.id, cseq);
      op := MessageWritten(op.id, true);
      run := run + [MessageChallenged];
    }

    /** The MESSAGE is answered or has timed out; nothing but the lock is given back. */
    method MessageIsOver()
      requires Valid() && op.MessageWaiting?
      modifies this`op, this`run
      ensures Valid() && run == old(run) + [MessageEnds] && op.Idle?
    {
      hide Possible, Final, BookValid;
      RunAppend(Init, run, MessageEnds);
      op := Idle;
      run := run + [MessageEnds];
    }

    // ----- operations that are cut short -----

    /** A cut send keeps its number, for the counter has not advanced; the call stays as it was. */
    method OperationIsCut()
      requires Valid() && !op.Idle?
      modifies this`op, this`history, this`run
      ensures Valid() && run == old(run) + [Interrupted] && op.Idle?
      ensures history.sent == old(history.sent) && history.reached == old(history.reached)
      ensures history.cuts == old(history.cuts) + if Sending(old(op)) then {(old(op).id, cseq)} else {}
    {
      hide Possible, Final, BookValid;
      RunAppend(Init, run, Interrupted);
      if Sending(op) {
        history := history.(cuts := history.cuts + {(op.id, cseq)});
      }
      op := Idle;
      run := run + [Interrupted];
    }

    /** The replaced call stays active, and the dial behind it cannot get through any more. */
    method ReplacingHangupFails()
      requires Valid() && op.ByeWritten? && op.next.Some?
      modifies this
      ensures Valid() && run == old(run) + [HangupRaises] && Snapshot() == Step(old(Snapshot()), HangupRaises)
      ensures call == old(call) && failed && pendingTarget == old(op).next
      ensures !Enabled(Snapshot(), InviteAccepted) && !Enabled(Snapshot(), InviteChallenged)
    {
      hide Possible, Final;
      ReplacingMeans(Snapshot());
      RunAppend(Init, run, HangupRaises);
      hide Step, Enabled, StartDial;
      history := history.(cuts := history.cuts + {(op.id, cseq)});
      failed := true;
      StartDialing(op.next.value);
      run := run + [HangupRaises];
    }

    method InboundBye(callId: Id)
      requires Valid()
      modifies this
      ensures Valid() && run == old(run) + [RemoteEnds(callId)]
      ensures Snapshot() == Finish(old(Snapshot()), callId, RemoteBye)
      ensures call == (if Strip(callId) != "" && old(call) == Some(Strip(callId)) then None else old(call))
    {
      hide Possible, Final, BookValid, Strip, Numbered;
      WhatHolds();
      RunAppend(Init, run, RemoteEnds(callId));
      FinishCall(callId, RemoteBye);
      run := run + [RemoteEnds(callId)];
    }
  }

  // ----- what the events mean for the object -----

  lemma ResetMeans(s: State, e: Event)
    requires Numbered(s) && Enabled(s, e) && Resets(e)
    ensures Step(s, e) == Dialer.ResetConnection(s)
    ensures var n := Step(s, e);
            && !n.open && !n.broken && n.op.Idle? && n.call == None
            && (s.call.None? ==> n.pending == None)
            && (s.call.Some? ==> KnownEnd(n.book, s.call.value) == Some(ConnectionReset))
  {
    assert Dialer.Valid(s);
    hide Numbered, KnownEnd, Finish, Dialer.Valid, Dialer.ResetConnection;
    StepResets(s, e);
    ResetMakesReconnectable(s, e);
    hide Step;
  }

  lemma StepResets(s: State, e: Event)
    requires Enabled(s, e) && Resets(e)
    ensures Step(s, e) == Dialer.ResetConnection(s)
  {
    hide Dialer.ResetConnection;
  }

  lemma ReplacingMeans(s: State)
    requires s.op.ByeWritten? && s.op.next.Some?
    ensures Enabled(s, HangupRaises)
    ensures var n := Step(s, HangupRaises);
            && n == StartDial(s.(history := s.history.(cuts := s.history.cuts + {(s.op.id, s.cseq)}), broken := true),
                              s.op.next.value)
            && n.call == s.call && n.broken && n.pending == s.op.next
            && !Enabled(n, InviteAccepted) && !Enabled(n, InviteChallenged)
  {
    hide Finish, Dialer.ResetConnection, BeginWait, CancelWait, EndWait;
  }

  lemma ConnectMeans(s: State)
    requires Numbered(s) && Enabled(s, Connect)
    ensures s.call == None
  {
  }

  lemma DialMeans(s: State, id: Id)
    requires Numbered(s) && Enabled(s, Event.Dial(id))
    ensures s.call.Some? ==> s.open
    ensures s.open && !Repeats(s, Event.Dial(id)) ==> NewNumber(s.history.sent, Step(s, Event.Dial(id)).history.sent)
  {
    if !Repeats(s, Event.Dial(id)) {
      WritesNewNumber(s, Event.Dial(id));
    }
    hide BookValid, Below, NewNumber;
  }

  lemma ChallengeMeans(s: State)
    requires Numbered(s) && Enabled(s, InviteChallenged)
    ensures var n := Step(s, InviteChallenged);
            && NewNumber(s.history.sent, n.history.sent)
            && LastInvite(n.history.sent, s.op.id) == Some(n.cseq) && s.call == None
  {
    WritesNewNumber(s, InviteChallenged);
    LastInviteAppend(s.history.sent, Sent(Invite, s.op.id, s.cseq + 1), s.op.id);
    hide BookValid, Below, NewNumber;
  }

  lemma AcceptMeans(s: State)
    requires Numbered(s) && Enabled(s, InviteAccepted)
    ensures LastInvite(s.history.sent, s.op.id) == Some(s.op.cseq) && s.call == None
    ensures Increasing(Step(s, InviteAccepted).history.sent, s.op.id)
  {
    IncreasingAppend(s.history.sent, Sent(Ack, s.op.id, s.op.cseq), s.op.id);
    hide BookValid, Increasing;
  }

  lemma ByeEndMeans(s: State)
    requires Numbered(s) && s.op.ByeWaiting?
    ensures var n := AfterBye(Finish(s, s.op.id, LocalBye), s.op.next);
            n.call == None && KnownEnd(n.book, s.op.id) == Some(LocalBye)
  {
    ByeEndFacts(s);
    RecordedEndIsKnown(s.book, s.op.id, LocalBye);
    ForgottenIsNone(s.call, s.op.id);
    FinishForgets(s, s.op.id, LocalBye);
    var f := Finish(s, s.op.id, LocalBye);
    assert f.book == RecordEnd(s.book, s.op.id, LocalBye) by {
      hide RecordEnd, Strip, Numbered;
    }
    hide Finish, Numbered, RecordEnd, Strip, KnownEnd, Forget;
    AfterByeKeepsCall(f, s.op.next);
    AfterByeKeepsBook(f, s.op.next);
  }

  lemma ByeEndFacts(s: State)
    requires Numbered(s) && s.op.ByeWaiting?
    ensures BookValid(s.book) && s.op.id != "" && Strip(s.op.id) == s.op.id
    ensures s.call.Some? ==> s.call.value == s.op.id
  {
    CallIdsAreTrimmed(s);
  }

  lemma ForgottenIsNone(current: Option<Id>, id: Id)
    requires current.Some? ==> current.value == id
    ensures Forget(current, id) == None
  {
  }

  lemma RecordedEndIsKnown(b: Book, id: Id, reason: Reason)
    requires BookValid(b) && Strip(id) == id
    ensures KnownEnd(RecordEnd(b, id, reason), id) == Some(reason)
  {
    Remembers(b.table, id, reason, REMEMBERED);
    hide Record, Resolve, Waiting, Strip;
  }
}
