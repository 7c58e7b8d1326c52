// The coordinator object.  Its ghost `run` lists the events so far, and Valid() says that the fields
// are where that run leads, so every theorem about runs is one about the object.  Each public method
// is the code between two awaits; it extends the run by the event of the same name.
module StreamCoordinator {
  import opened Prelude
  import opened StreamOwnership
  import opened StreamSafety
  import M = StreamMembers

  lemma {:induction false} DropClientsTwice(clients: seq<Client>, first: set<Client>, second: set<Client>)
    ensures DropClients(DropClients(clients, first), second) == DropClients(clients, first + second)
  {
    if clients == [] {
    } else {
      DropClientsTwice(clients[1..], first, second);
      if clients[0] !in first {
        assert DropClients(clients, first)[1..] == DropClients(clients[1..], first);
      }
    }
  }

  lemma {:induction false} DropClientsRelevant(clients: seq<Client>, lost: set<Client>, relevant: set<Client>)
    requires forall c :: c in clients ==> (c in lost <==> c in relevant)
    ensures DropClients(clients, lost) == DropClients(clients, relevant)
  {
    if clients == [] {
    } else {
      assert forall c :: c in clients[1..] ==> c in clients;
      DropClientsRelevant(clients[1..], lost, relevant);
    }
  }

  class StationStreamCoordinator {
    var rtspPlaySessions: seq<Client>
    var handlersInstalled: bool
    var sessionActive: bool
    var closeTask: Option<nat>
    // the event loop and the RTSP servers around it
    var sched: Sched
    var table: set<Client>
    var alive: set<Client>
    var closed: set<Client>
    var endings: nat
    var nextClient: nat
    var nextTask: nat

    ghost function Snapshot(): State
      reads this
    {
      State(rtspPlaySessions, handlersInstalled, sessionActive, closeTask, sched,
            table, alive, closed, endings, nextClient, nextTask)
    }

    ghost var run: seq<Event>

    ghost predicate Valid()
      reads this
    {
      Possible(Init, run) && Snapshot() == Final(Init, run)
    }

    /** What every valid object promises; the last part as long as all attaches were safe. */
    ghost predicate Promises()
      reads this
    {
      && (handlersInstalled <==> rtspPlaySessions != [])
      && M.Listed(run, rtspPlaySessions)
      && OneOwner(sched) && GraceYieldsToClients(Snapshot())
      && (Possible(Init, run) && AllSafe(Init, run) ==> NoLeak(Snapshot()))
    }

    lemma ValidPromises()
      requires Valid()
      ensures Promises() && Consistent(Snapshot()) && NoDup(rtspPlaySessions)
    {
      EveryRunIsConsistent(run);
      M.ClientsAreListed(run);
      RunKeepsConsistent(Init, run);
      if AllSafe(Init, run) {
        NoLeakedCall(run);
      }
    }

    constructor ()
      ensures Valid() && Promises() && run == []
    {
      rtspPlaySessions, handlersInstalled, sessionActive, closeTask := [], false, false, None;
      sched, table, alive, closed := Sched(map[], []), {}, {}, {};
      endings, nextClient, nextTask := 0, 0, 0;
      run := [];
    }

    // ----- _cancel_close_task, _schedule_close, _add and _discard_rtsp_play_session -----

    method CancelCloseTask()
      modifies this`closeTask, this`sched
      ensures Snapshot() == CancelClose(old(Snapshot()))
    {
      if closeTask.Some? {
        sched := CancelTask(sched, Grace(closeTask.value));
      }
      closeTask := None;
    }

    method StartCloseTask()
      modifies this`closeTask, this`sched, this`nextTask
      ensures Snapshot() == ScheduleClose(old(Snapshot()))
    {
      CancelCloseTask();
      sched := Spawn(sched, Grace(nextTask));
      closeTask := Some(nextTask);
      nextTask := nextTask + 1;
    }

    method AddRtspPlaySession(sess: Client)
      modifies this`rtspPlaySessions
      ensures rtspPlaySessions == AddClient(old(rtspPlaySessions), sess)
      ensures old(rtspPlaySessions) <= rtspPlaySessions && sess in rtspPlaySessions
      ensures sess !in old(rtspPlaySessions) ==> rtspPlaySessions == old(rtspPlaySessions) + [sess]
      ensures sess in old(rtspPlaySessions) ==> rtspPlaySessions == old(rtspPlaySessions)
    {
      if sess in rtspPlaySessions {
        return;
      }
      rtspPlaySessions := rtspPlaySessions + [sess];
    }

    method DiscardRtspPlaySession(sess: Client)
      modifies this`rtspPlaySessions
      ensures rtspPlaySessions == DropClients(old(rtspPlaySessions), {sess})
    {
      var kept: seq<Client> := [];
      var i := 0;
      while i < |rtspPlaySessions|
        invariant 0 <= i <= |rtspPlaySessions|
        invariant kept + DropClients(rtspPlaySessions[i..], {sess}) == DropClients(rtspPlaySessions, {sess})
      {
        assert rtspPlaySessions[i..][1..] == rtspPlaySessions[i + 1..];
        if rtspPlaySessions[i] != sess {
          kept := kept + [rtspPlaySessions[i]];
        }
        i := i + 1;
      }
      rtspPlaySessions := kept;
    }

    /** What detach, a failed push and a lost RTP client share: the last one out schedules the close. */
    method CloseIfEmpty()
      modifies this`handlersInstalled, this`closeTask, this`sched, this`nextTask
      ensures Snapshot() ==
        var s := old(Snapshot());
        if s.clients == [] then ScheduleClose(s.(handlers := false)) else s
    {
      if rtspPlaySessions == [] {
        handlersInstalled := false;
        StartCloseTask();
      }
    }

    // ----- the world around it -----

    /** Events in which the coordinator's code has no part: SETUP, lost peers, the server, the gateway. */
    predicate Outside(e: Event) {
      e.Register? || e.WriterClosed? || e.HandlerExit? || e.GatewayEndBegin? || e.ServerStop?
    }

    /** None of them touches the clients, the session or the lock, and none makes the session leak. */
    method WorldMoves(e: Event)
      requires Valid() && Outside(e) && Enabled(Snapshot(), e)
      modifies this`table, this`alive, this`closed, this`nextClient, this`endings, this`sched, this`nextTask, this`run
      ensures Valid() && Promises() && run == old(run) + [e]
      ensures Snapshot() == Step(old(Snapshot()), e)
      ensures sched.line == old(sched).line && (AllSafe(Init, run) <==> old(AllSafe(Init, run)))
    {
      hide Possible, Final, AllSafe, Consistent, Promises;
      RunAppend(Init, run, e);
      match e {
        case Register =>
          table, alive, nextClient := table + {nextClient}, alive + {nextClient}, nextClient + 1;
        case WriterClosed(c) => closed := closed + {c};
        case HandlerExit(c) => alive, closed := alive - {c}, closed + {c};
        case GatewayEndBegin => endings := endings + 1;
        case ServerStop(sessions) =>
          table, closed := table - sessions, closed + sessions;
          sched := Spawn(sched, Force(nextTask));
          nextTask := nextTask + 1;
      }
      run := run + [e];
      ValidPromises();
    }

    // ----- attach_rtsp_session -----

    /** From here on the client is attached; nothing leaks if its session is registered or about to be cleared. */
    method AttachBegins(sess: Client)
      requires Valid() && Enabled(Snapshot(), AttachBegin(sess))
      modifies this
      ensures Valid() && Promises() && run == old(run) + [AttachBegin(sess)]
      ensures Snapshot() == Step(old(Snapshot()), AttachBegin(sess))
      ensures rtspPlaySessions == old(rtspPlaySessions) + (if sess in old(rtspPlaySessions) then [] else [sess])
      ensures NoDup(rtspPlaySessions) && sess in rtspPlaySessions && handlersInstalled && closeTask == None
      ensures AllSafe(Init, run) <==> old(AllSafe(Init, run) && (sess in table || Stopping(Snapshot())))
    {
      hide Possible, Final, AllSafe, Consistent, Promises;
      RunAppend(Init, run, AttachBegin(sess));
      CancelCloseTask();
      AddRtspPlaySession(sess);
      handlersInstalled := true;
      sched := Enqueue(sched, Attach(sess));
      run := run + [AttachBegin(sess)];
      ValidPromises();
    }

    /** The lock is ours: open the session unless somebody already did. */
    method AttachGetsLock(sess: Client) returns (opens: bool)
      requires Valid() && Enabled(Snapshot(), AttachLocked(sess))
      modifies this
      ensures Valid() && Promises() && run == old(run) + [AttachLocked(sess)]
      ensures Snapshot() == Step(old(Snapshot()), AttachLocked(sess))
      ensures opens == !old(sessionActive)
      ensures opens ==> Heads(sched, Attach(sess), Dialing)
    {
      hide Possible, Final, AllSafe, Consistent, Promises;
      RunAppend(Init, run, AttachLocked(sess));
      opens := !sessionActive;
      if opens {
        sched := Move(sched, Attach(sess), Dialing);
      } else {
        sched := Release(sched, Attach(sess));
      }
      run := run + [AttachLocked(sess)];
      ValidPromises();
    }

    /** The call is set while this attach alone is inside the lock; clients or not, it is not leaked. */
    method AttachSetsCall(sess: Client)
      requires Valid() && Enabled(Snapshot(), AttachDialed(sess))
      modifies this
      ensures Valid() && Promises() && run == old(run) + [AttachDialed(sess)]
      ensures Snapshot() == Step(old(Snapshot()), AttachDialed(sess))
      ensures sessionActive && Heads(sched, Attach(sess), SettingUp)
      ensures forall t :: t in sched.pcs && t != Attach(sess) ==> sched.pcs[t] in {Asleep, WaitingLock}
      ensures AllSafe(Init, run) ==> NoLeak(Snapshot())
    {
      hide Possible, Final, AllSafe, Consistent, NoLeak;
      RunAppend(Init, run, AttachDialed(sess));
      sessionActive := true;
      sched := Move(sched, Attach(sess), SettingUp);
      run := run + [AttachDialed(sess)];
      ValidPromises();
    }

    /** Whoever leaves the lock leaves it empty, and the session not leaked. */
    method AttachReturns(sess: Client)
      requires Valid() && Enabled(Snapshot(), AttachOpened(sess))
      modifies this
      ensures Valid() && Promises() && run == old(run) + [AttachOpened(sess)]
      ensures Snapshot() == Step(old(Snapshot()), AttachOpened(sess))
      ensures NobodyInside(sched) && Attach(sess) !in sched.pcs
      ensures AllSafe(Init, run) ==> NoLeak(Snapshot())
    {
      hide Possible, Final, AllSafe, NoLeak, Current;
      ValidPromises();
      ReleaseEmptiesLock(sched, Attach(sess));
      RunAppend(Init, run, AttachOpened(sess));
      sched := Release(sched, Attach(sess));
      run := run + [AttachOpened(sess)];
      ValidPromises();
    }

    method AttachRaises(sess: Client)
      requires Valid() && Enabled(Snapshot(), AttachFailed(sess))
      modifies this
      ensures Valid() && Promises() && run == old(run) + [AttachFailed(sess)]
      ensures Snapshot() == Step(old(Snapshot()), AttachFailed(sess))
      ensures sess !in rtspPlaySessions && sess in closed && closeTask == old(closeTask)
      ensures NobodyInside(sched)
    {
      hide Possible, Final, AllSafe, Current, Promises;
      ValidPromises();
      ReleaseEmptiesLock(sched, Attach(sess));
      hide Tidy, NobodyInside;
      RunAppend(Init, run, AttachFailed(sess));
      DropClientsMembers(rtspPlaySessions, {sess});
      sched := Release(sched, Attach(sess));
      DiscardRtspPlaySession(sess);
      if rtspPlaySessions == [] {
        handlersInstalled := false;
      }
      closed := closed + {sess};
      run := run + [AttachFailed(sess)];
      ValidPromises();
    }

    // ----- detach_rtsp_session, _forward_video/_forward_audio -----

    method DetachRtspSession(sess: Client)
      modifies this
      ensures run == old(run) && Snapshot() == Discard(old(Snapshot()), {sess})
    {
      DiscardRtspPlaySession(sess);
      CloseIfEmpty();
    }

    /** The connection handler's finally block: drop the session from the table and detach it. */
    method RunTeardown(sess: Client)
      requires Valid() && Enabled(Snapshot(), Teardown(sess))
      modifies this
      ensures Valid() && Promises() && run == old(run) + [Teardown(sess)]
      ensures Snapshot() == Step(old(Snapshot()), Teardown(sess))
      ensures sess !in table && sess !in rtspPlaySessions
      ensures rtspPlaySessions == [] ==> GracePending(Snapshot())
    {
      hide Possible, Final, AllSafe, Consistent, Promises;
      RunAppend(Init, run, Teardown(sess));
      DropClientsMembers(rtspPlaySessions, {sess});
      table, alive, closed := table - {sess}, alive - {sess}, closed + {sess};
      DetachRtspSession(sess);
      run := run + [Teardown(sess)];
      ValidPromises();
    }

    /** One packet to every client; `lost` are those whose push_rtp returns False. */
    method ForwardPacket(lost: set<Client>)
      requires Valid() && Enabled(Snapshot(), PacketForwarded(lost))
      modifies this
      ensures Valid() && Promises() && run == old(run) + [PacketForwarded(lost)]
      ensures Snapshot() == Step(old(Snapshot()), PacketForwarded(lost))
      ensures forall c :: c in rtspPlaySessions <==> c in old(rtspPlaySessions) && c !in lost
    {
      hide Possible, Final, AllSafe, Consistent, Promises;
      RunAppend(Init, run, PacketForwarded(lost));
      DropClientsMembers(rtspPlaySessions, lost);
      DropLost(lost);
      CloseIfEmpty();
      run := run + [PacketForwarded(lost)];
      ValidPromises();
    }

    /** The loop over a snapshot of the clients. */
    method DropLost(lost: set<Client>)
      modifies this`rtspPlaySessions
      ensures rtspPlaySessions == DropClients(old(rtspPlaySessions), lost)
    {
      var snapshot := rtspPlaySessions;
      ghost var gone: set<Client> := {};
      DropNothing(snapshot);
      var i := 0;
      while i < |snapshot|
        invariant 0 <= i <= |snapshot|
        invariant forall c :: c in gone <==> c in lost && c in snapshot[..i]
        invariant rtspPlaySessions == DropClients(snapshot, gone)
      {
        assert snapshot[..i + 1] == snapshot[..i] + [snapshot[i]];
        if snapshot[i] in lost {
          DiscardRtspPlaySession(snapshot[i]);
          DropClientsTwice(snapshot, gone, {snapshot[i]});
          gone := gone + {snapshot[i]};
        }
        i := i + 1;
      }
      assert snapshot[..i] == snapshot;
      DropClientsRelevant(snapshot, lost, gone);
    }

    lemma {:induction false} DropNothing(clients: seq<Client>)
      ensures DropClients(clients, {}) == clients
    {
      if clients == [] {
      } else {
        DropNothing(clients[1..]);
      }
    }

    // ----- _on_gateway_call_ended, at the end of the gateway-side close -----

    method GatewayCallEnded()
      requires Valid() && Enabled(Snapshot(), GatewayEndFinish)
      modifies this
      ensures Valid() && Promises() && run == old(run) + [GatewayEndFinish]
      ensures Snapshot() == Step(old(Snapshot()), GatewayEndFinish)
      ensures !sessionActive && rtspPlaySessions == [] && !handlersInstalled
      ensures forall c :: c in old(rtspPlaySessions) ==> c in closed
    {
      hide Possible, Final, AllSafe, Consistent;
      ValidPromises();
      RunAppend(Init, run, GatewayEndFinish);
      endings := endings - 1;
      sessionActive := false;
      if rtspPlaySessions != [] {
        closed := closed + set c | c in rtspPlaySessions;
        rtspPlaySessions := [];
        handlersInstalled := false;
      }
      run := run + [GatewayEndFinish];
      ValidPromises();
    }

    // ----- force_close -----

    /** The part that the forced teardown behind a server stop and a lone force_close share. */
    method EnterForceClose(f: nat)
      modifies this
      ensures run == old(run) && Snapshot() == EnterForce(old(Snapshot()), f)
    {
      CancelCloseTask();
      rtspPlaySessions := [];
      handlersInstalled := false;
      sched := Enqueue(sched, Force(f));
    }

    method ForceEnters(f: nat)
      requires Valid() && Enabled(Snapshot(), ForceEnter(f))
      modifies this
      ensures Valid() && Promises() && run == old(run) + [ForceEnter(f)]
      ensures Snapshot() == Step(old(Snapshot()), ForceEnter(f))
      ensures rtspPlaySessions == [] && closeTask == None && ForcePending(Snapshot())
    {
      hide Possible, Final, AllSafe, Consistent, Promises;
      RunAppend(Init, run, ForceEnter(f));
      EnterForceClose(f);
      assert Force(f) in sched.pcs;
      run := run + [ForceEnter(f)];
      ValidPromises();
    }

    /** force_close() on its own, without an RTSP server to stop first. */
    method ForceStarts() returns (f: nat)
      requires Valid()
      modifies this
      ensures Valid() && Promises() && run == old(run) + [ForceBegin]
      ensures Snapshot() == Step(old(Snapshot()), ForceBegin)
      ensures rtspPlaySessions == [] && closeTask == None && Force(f) in sched.pcs
    {
      hide Possible, Final, AllSafe, Consistent, Promises;
      RunAppend(Init, run, ForceBegin);
      f := nextTask;
      nextTask := nextTask + 1;
      EnterForceClose(f);
      run := run + [ForceBegin];
      ValidPromises();
    }

    method ForceGetsLock(f: nat) returns (closes: bool)
      requires Valid() && Enabled(Snapshot(), ForceLocked(f))
      modifies this
      ensures Valid() && Promises() && run == old(run) + [ForceLocked(f)]
      ensures Snapshot() == Step(old(Snapshot()), ForceLocked(f))
      ensures closes == old(sessionActive)
      ensures closes ==> Heads(sched, Force(f), Closing(false))
    {
      hide Possible, Final, AllSafe, Consistent, Promises;
      RunAppend(Init, run, ForceLocked(f));
      closes := sessionActive;
      sched := if closes then Move(sched, Force(f), Closing(false)) else Release(sched, Force(f));
      run := run + [ForceLocked(f)];
      ValidPromises();
    }

    /** The session is closed, nobody is inside the lock, and the task is gone. */
    method ForceCloses(f: nat)
      requires Valid() && Enabled(Snapshot(), ForceClosed(f))
      modifies this
      ensures Valid() && Promises() && run == old(run) + [ForceClosed(f)]
      ensures Snapshot() == Step(old(Snapshot()), ForceClosed(f))
      ensures !sessionActive && NobodyInside(sched) && Force(f) !in sched.pcs
    {
      hide Possible, Final, AllSafe, Current, Promises;
      ValidPromises();
      ReleaseEmptiesLock(sched, Force(f));
      RunAppend(Init, run, ForceClosed(f));
      sessionActive := false;
      sched := Release(sched, Force(f));
      run := run + [ForceClosed(f)];
      ValidPromises();
    }

    // ----- _delayed_close -----

    method GraceWakes(g: nat)
      requires Valid() && Enabled(Snapshot(), GraceWake(g))
      modifies this
      ensures Valid() && Promises() && run == old(run) + [GraceWake(g)]
      ensures Snapshot() == Step(old(Snapshot()), GraceWake(g))
      ensures Grace(g) in sched.pcs <==> rtspPlaySessions == []
    {
      hide Possible, Final, AllSafe, Consistent, Promises;
      RunAppend(Init, run, GraceWake(g));
      if rtspPlaySessions != [] {
        sched := CancelTask(sched, Grace(g));
      } else {
        sched := Enqueue(sched, Grace(g));
      }
      run := run + [GraceWake(g)];
      ValidPromises();
    }

    method GraceGetsLock(g: nat) returns (closes: bool)
      requires Valid() && Enabled(Snapshot(), GraceLocked(g))
      modifies this
      ensures Valid() && Promises() && run == old(run) + [GraceLocked(g)]
      ensures Snapshot() == Step(old(Snapshot()), GraceLocked(g))
      ensures closes <==> rtspPlaySessions == [] && sessionActive
    {
      hide Possible, Final, AllSafe, Consistent, Promises;
      RunAppend(Init, run, GraceLocked(g));
      closes := false;
      if rtspPlaySessions == [] {
        if sessionActive {
          closes := true;
        }
      }
      sched := if closes then Move(sched, Grace(g), Closing(false)) else Release(sched, Grace(g));
      run := run + [GraceLocked(g)];
      ValidPromises();
    }

    /** The session is closed; if nobody cancelled the task meanwhile, no client has lost it. */
    method GraceCloses(g: nat)
      requires Valid() && Enabled(Snapshot(), GraceClosed(g))
      modifies this
      ensures Valid() && Promises() && run == old(run) + [GraceClosed(g)]
      ensures Snapshot() == Step(old(Snapshot()), GraceClosed(g))
      ensures !sessionActive && NobodyInside(sched) && Grace(g) !in sched.pcs
      ensures old(closeTask) == Some(g) ==> rtspPlaySessions == []
    {
      hide Possible, Final, AllSafe, Promises;
      ValidPromises();
      ReleaseEmptiesLock(sched, Grace(g));
      RunAppend(Init, run, GraceClosed(g));
      sessionActive := false;
      sched := Release(sched, Grace(g));
      run := run + [GraceClosed(g)];
      ValidPromises();
    }

    /** The session stays as it is, yet it is not leaked: whoever cancelled the task took over. */
    method GraceIsAborted(g: nat)
      requires Valid() && Enabled(Snapshot(), GraceAborted(g))
      modifies this
      ensures Valid() && Promises() && run == old(run) + [GraceAborted(g)]
      ensures Snapshot() == Step(old(Snapshot()), GraceAborted(g))
      ensures NobodyInside(sched) && closeTask != Some(g)
      ensures AllSafe(Init, run) ==> NoLeak(Snapshot())
    {
      hide Possible, Final, AllSafe, NoLeak;
      ValidPromises();
      ReleaseEmptiesLock(sched, Grace(g));
      RunAppend(Init, run, GraceAborted(g));
      sched := Release(sched, Grace(g));
      run := run + [GraceAborted(g)];
      ValidPromises();
    }
  }

  /** No task is inside session.open() or a locked session.close(). */
  ghost predicate NobodyInside(h: Sched) {
    forall t :: t in h.pcs ==> h.pcs[t] in {Asleep, WaitingLock}
  }

  lemma ReleaseEmptiesLock(h: Sched, t: Task)
    requires Tidy(h) && |h.line| > 0 && h.line[0] == t
    ensures NobodyInside(Release(h, t)) && t !in Release(h, t).pcs
  {
    var n := Release(h, t);
    forall u | u in n.pcs ensures n.pcs[u] in {Asleep, WaitingLock} {
      if h.pcs[u] != Asleep {
        assert u in h.line;
        var k :| 0 <= k < |h.line| && h.line[k] == u;
        assert k > 0;
      }
    }
  }
}
