// Invariants of the stream-ownership protocol over every run, and the exact gap in it.
module StreamSafety {
  import opened Prelude
  import opened StreamOwnership

  // ----- the lock line -----

  /** The line holds exactly the tasks that are not asleep, once each, and only its head runs. */
  ghost predicate Tidy(h: Sched) {
    && NoDup(h.line)
    && (forall t :: t in h.line <==> t in h.pcs && h.pcs[t] != Asleep)
    && (forall i :: 0 < i < |h.line| ==> h.line[i] in h.pcs && h.pcs[h.line[i]] == WaitingLock)
  }

  lemma TidySpawn(h: Sched, t: Task)
    requires Tidy(h) && t !in h.pcs
    ensures Tidy(Spawn(h, t))
  {
    var n := Spawn(h, t);
    assert t !in h.line;
    forall i | 0 < i < |n.line| ensures n.line[i] in n.pcs && n.pcs[n.line[i]] == WaitingLock {
      assert h.line[i] in h.line;
    }
  }

  lemma TidyEnqueue(h: Sched, t: Task)
    requires Tidy(h) && (t in h.pcs ==> h.pcs[t] == Asleep)
    ensures Tidy(Enqueue(h, t))
  {
    var n := Enqueue(h, t);
    assert t !in h.line;
    forall i | 0 < i < |n.line| ensures n.line[i] in n.pcs && n.pcs[n.line[i]] == WaitingLock {
      if i < |h.line| {
        assert n.line[i] == h.line[i];
      }
    }
  }

  lemma TidyMove(h: Sched, t: Task, pc: Pc)
    requires Tidy(h) && |h.line| > 0 && h.line[0] == t && pc != Asleep
    ensures Tidy(Move(h, t, pc))
  {
    var n := Move(h, t, pc);
    assert t in h.line;
    forall i | 0 < i < |n.line| ensures n.line[i] in n.pcs && n.pcs[n.line[i]] == WaitingLock {
      assert n.line[i] != h.line[0];
    }
  }

  lemma TidyRelease(h: Sched, t: Task)
    requires Tidy(h) && |h.line| > 0 && h.line[0] == t
    ensures Tidy(Release(h, t))
  {
    var n := Release(h, t);
    assert h.line == [t] + n.line;
    assert forall i :: 0 <= i < |n.line| ==> n.line[i] == h.line[i + 1];
    assert t !in n.line;
  }

  lemma TidyCancel(h: Sched, t: Task)
    requires Tidy(h)
    ensures Tidy(CancelTask(h, t))
  {
    if t !in h.pcs {
    } else if h.pcs[t].Closing? {
      assert t in h.line;
      var k :| 0 <= k < |h.line| && h.line[k] == t;
      assert k == 0;
      TidyMove(h, t, Closing(true));
    } else {
      WithoutMembers(h.line, t);
      WithoutNoDup(h.line, t);
      var n := CancelTask(h, t);
      forall i | 0 < i < |n.line| ensures n.line[i] in n.pcs && n.pcs[n.line[i]] == WaitingLock {
        assert n.line[i] in n.line && n.line[i] in h.line[1..];
      }
    }
  }

  // ----- consistency of the whole state -----

  /** Only the current delayed close is uncancelled, and it never closes under a client. */
  ghost predicate Current(s: State) {
    && (forall g: nat :: Grace(g) in s.sched.pcs ==> g < s.nextTask)
    && (forall f: nat :: Force(f) in s.sched.pcs ==> f < s.nextTask)
    && (forall g: nat :: Grace(g) in s.sched.pcs ==>
          (s.sched.pcs[Grace(g)] == Closing(true) <==> s.closeTask != Some(g)))
    && GraceYieldsToClients(s)
  }

  ghost predicate Consistent(s: State) {
    Tidy(s.sched) && Current(s) && HandlersMatchClients(s)
  }

  lemma CancelKeepsConsistent(s: State)
    requires Tidy(s.sched) && Current(s)
    ensures Tidy(CancelClose(s).sched) && Current(CancelClose(s))
    ensures forall g: nat :: Grace(g) in CancelClose(s).sched.pcs ==>
              CancelClose(s).sched.pcs[Grace(g)] == Closing(true)
    ensures forall t: Task :: t in CancelClose(s).sched.pcs ==> t in s.sched.pcs
    ensures forall t: Task :: !t.Grace? && t in s.sched.pcs ==> Is(CancelClose(s).sched, t, s.sched.pcs[t])
  {
    if s.closeTask.Some? {
      TidyCancel(s.sched, Grace(s.closeTask.value));
    }
  }

  lemma ScheduleKeepsConsistent(s: State)
    requires Tidy(s.sched) && Current(s) && s.clients == [] && !s.handlers
    ensures Consistent(ScheduleClose(s))
  {
    CancelKeepsConsistent(s);
    TidySpawn(CancelClose(s).sched, Grace(s.nextTask));
  }

  lemma {:induction false} DropClientsMembers(clients: seq<Client>, lost: set<Client>)
    ensures forall c :: c in DropClients(clients, lost) <==> c in clients && c !in lost
  {
    if clients == [] {
    } else {
      DropClientsMembers(clients[1..], lost);
      assert clients == [clients[0]] + clients[1..];
    }
  }

  lemma DiscardKeepsConsistent(s: State, lost: set<Client>)
    requires Consistent(s)
    ensures Consistent(Discard(s, lost))
  {
    DropClientsMembers(s.clients, lost);
    var d := s.(clients := DropClients(s.clients, lost));
    if d.clients == [] {
      ScheduleKeepsConsistent(d.(handlers := false));
    } else {
      assert s.clients != [];
    }
  }

  lemma EnterForceKeepsConsistent(s: State, f: nat)
    requires Tidy(s.sched) && Current(s) && f < s.nextTask
    requires Force(f) in s.sched.pcs ==> s.sched.pcs[Force(f)] == Asleep
    ensures Consistent(EnterForce(s, f))
  {
    CancelKeepsConsistent(s);
    TidyEnqueue(CancelClose(s).sched, Force(f));
  }

  lemma AttachKeepsConsistent(s: State, c: Client)
    requires Consistent(s) && Enabled(s, AttachBegin(c))
    ensures Consistent(Step(s, AttachBegin(c)))
  {
    CancelKeepsConsistent(s);
    TidyEnqueue(CancelClose(s).sched, Attach(c));
  }

  lemma AttachFailedKeepsConsistent(s: State, c: Client)
    requires Consistent(s) && Enabled(s, AttachFailed(c))
    ensures Consistent(Step(s, AttachFailed(c)))
  {
    TidyRelease(s.sched, Attach(c));
    DropClientsMembers(s.clients, {c});
  }

  lemma WakeKeepsConsistent(s: State, g: nat)
    requires Consistent(s) && Enabled(s, GraceWake(g))
    ensures Consistent(Step(s, GraceWake(g)))
  {
    if s.clients != [] {
      TidyCancel(s.sched, Grace(g));
    } else {
      TidyEnqueue(s.sched, Grace(g));
    }
  }

  /** What consistency speaks of is all that it depends on. */
  lemma OutsideKeepsConsistent(s: State, n: State)
    requires Consistent(s)
    requires n.clients == s.clients && n.handlers == s.handlers && n.closeTask == s.closeTask
    requires n.sched == s.sched && n.nextTask == s.nextTask
    ensures Consistent(n)
  {
    hide Tidy;
  }

  /** The head of the line moves on inside the lock. */
  lemma MoveKeepsConsistent(s: State, t: Task, pc: Pc, n: State)
    requires Consistent(s) && |s.sched.line| > 0 && s.sched.line[0] == t && t in s.sched.pcs
    requires pc != Asleep && pc != Closing(true)
    requires t.Grace? ==> s.sched.pcs[t] == WaitingLock && s.clients == []
    requires n == s.(sched := Move(s.sched, t, pc), active := n.active)
    ensures Consistent(n)
  {
    TidyMove(s.sched, t, pc);
    hide Tidy;
  }

  /** The head of the line is done. */
  lemma ReleaseKeepsConsistent(s: State, t: Task, n: State)
    requires Consistent(s) && |s.sched.line| > 0 && s.sched.line[0] == t
    requires n == s.(sched := Release(s.sched, t), active := n.active)
    ensures Consistent(n)
  {
    TidyRelease(s.sched, t);
    hide Tidy;
  }

  lemma ServerStopKeepsConsistent(s: State, sessions: set<Client>)
    requires Consistent(s) && Enabled(s, ServerStop(sessions))
    ensures Consistent(Step(s, ServerStop(sessions)))
  {
    TidySpawn(s.sched, Force(s.nextTask));
    hide Tidy;
  }

  lemma GatewayEndKeepsConsistent(s: State)
    requires Consistent(s) && Enabled(s, GatewayEndFinish)
    ensures Consistent(Step(s, GatewayEndFinish))
  {
    hide Tidy;
  }

  lemma AttachStepKeepsConsistent(s: State, e: Event)
    requires Consistent(s) && Enabled(s, e)
    requires e.AttachBegin? || e.AttachLocked? || e.AttachDialed? || e.AttachOpened? || e.AttachFailed?
    ensures Consistent(Step(s, e))
  {
    hide Consistent;
    var n := Step(s, e);
    match e
    case AttachBegin(c) => AttachKeepsConsistent(s, c);
    case AttachLocked(c) =>
      if s.active { ReleaseKeepsConsistent(s, Attach(c), n); } else { MoveKeepsConsistent(s, Attach(c), Dialing, n); }
    case AttachDialed(c) => MoveKeepsConsistent(s, Attach(c), SettingUp, n);
    case AttachOpened(c) => ReleaseKeepsConsistent(s, Attach(c), n);
    case AttachFailed(c) => AttachFailedKeepsConsistent(s, c);
  }

  lemma ForceStepKeepsConsistent(s: State, e: Event)
    requires Consistent(s) && Enabled(s, e)
    requires e.ServerStop? || e.ForceEnter? || e.ForceBegin? || e.ForceLocked? || e.ForceClosed?
    ensures Consistent(Step(s, e))
  {
    var n := Step(s, e);
    match e {
      case ServerStop(sessions) => ServerStopKeepsConsistent(s, sessions);
      case ForceEnter(f) => EnterForceKeepsConsistent(s, f);
      case ForceBegin =>
        assert Force(s.nextTask) !in s.sched.pcs;
        OutsideButCountKeepsConsistent(s);
        EnterForceKeepsConsistent(s.(nextTask := s.nextTask + 1), s.nextTask);
      case ForceLocked(f) =>
        if s.active {
          MoveKeepsConsistent(s, Force(f), Closing(false), n);
        } else {
          ReleaseKeepsConsistent(s, Force(f), n);
        }
      case ForceClosed(f) => ReleaseKeepsConsistent(s, Force(f), n);
    }
    hide Tidy, EnterForce, Move, Release;
  }

  lemma OutsideButCountKeepsConsistent(s: State)
    requires Consistent(s)
    ensures Consistent(s.(nextTask := s.nextTask + 1))
  {
    hide Tidy;
  }

  lemma GraceStepKeepsConsistent(s: State, e: Event)
    requires Consistent(s) && Enabled(s, e)
    requires e.GraceWake? || e.GraceLocked? || e.GraceClosed? || e.GraceAborted?
    ensures Consistent(Step(s, e))
  {
    hide Consistent;
    var n := Step(s, e);
    match e
    case GraceWake(g) => WakeKeepsConsistent(s, g);
    case GraceLocked(g) =>
      if s.clients == [] && s.active {
        MoveKeepsConsistent(s, Grace(g), Closing(false), n);
      } else {
        ReleaseKeepsConsistent(s, Grace(g), n);
      }
    case GraceClosed(g) => ReleaseKeepsConsistent(s, Grace(g), n);
    case GraceAborted(g) => ReleaseKeepsConsistent(s, Grace(g), n);
  }

  lemma StepKeepsConsistent(s: State, e: Event)
    requires Consistent(s) && Enabled(s, e)
    ensures Consistent(Step(s, e))
  {
    hide Consistent;
    match e
    case Teardown(c) =>
      var d := s.(table := s.table - {c}, alive := s.alive - {c}, closed := s.closed + {c});
      OutsideKeepsConsistent(s, d);
      DiscardKeepsConsistent(d, {c});
    case PacketForwarded(lost) => DiscardKeepsConsistent(s, lost);
    case GatewayEndFinish => GatewayEndKeepsConsistent(s);
    case Register => OutsideKeepsConsistent(s, Step(s, e));
    case WriterClosed(_) => OutsideKeepsConsistent(s, Step(s, e));
    case HandlerExit(_) => OutsideKeepsConsistent(s, Step(s, e));
    case GatewayEndBegin => OutsideKeepsConsistent(s, Step(s, e));
    case AttachBegin(_) => AttachStepKeepsConsistent(s, e);
    case AttachLocked(_) => AttachStepKeepsConsistent(s, e);
    case AttachDialed(_) => AttachStepKeepsConsistent(s, e);
    case AttachOpened(_) => AttachStepKeepsConsistent(s, e);
    case AttachFailed(_) => AttachStepKeepsConsistent(s, e);
    case ServerStop(_) => ForceStepKeepsConsistent(s, e);
    case ForceEnter(_) => ForceStepKeepsConsistent(s, e);
    case ForceBegin => ForceStepKeepsConsistent(s, e);
    case ForceLocked(_) => ForceStepKeepsConsistent(s, e);
    case ForceClosed(_) => ForceStepKeepsConsistent(s, e);
    case GraceWake(_) => GraceStepKeepsConsistent(s, e);
    case GraceLocked(_) => GraceStepKeepsConsistent(s, e);
    case GraceClosed(_) => GraceStepKeepsConsistent(s, e);
    case GraceAborted(_) => GraceStepKeepsConsistent(s, e);
  }

  // ----- who will close the session -----

  ghost predicate GraceAsleep(s: State) {
    s.closeTask.Some? && Is(s.sched, Grace(s.closeTask.value), Asleep)
  }

  /** `line[i]` will close the session, and no attach stands behind it to open another. */
  ghost predicate ClosesLast(s: State, i: int) {
    && 0 <= i < |s.sched.line|
    && (s.sched.line[i].Force? || (s.sched.line[i].Grace? && s.closeTask == Some(s.sched.line[i].id)))
    && forall j :: i < j < |s.sched.line| ==> !s.sched.line[j].Attach?
  }

  ghost predicate Covered(s: State) {
    TeardownPending(s) || GraceAsleep(s) || Stopping(s) || exists i :: ClosesLast(s, i)
  }

  ghost predicate AttachInLine(h: Sched) {
    exists i :: 0 <= i < |h.line| && h.line[i].Attach?
  }

  /** No client is left, but the session is open or an attach in the line may still open it. */
  ghost predicate Orphaned(s: State) {
    s.clients == [] && (s.active || AttachInLine(s.sched))
  }

  /**
   * Clients outside the session tables exist only while a forced teardown is on its way to clear
   * them; an orphaned session is covered.
   */
  ghost predicate Owned(s: State) {
    (forall c :: c in s.clients ==> c in s.table || Stopping(s)) && (Orphaned(s) ==> Covered(s))
  }

  /** Every part of the cover that lies outside the lock line survives. */
  lemma CoverGrows(s: State, n: State)
    requires s.sched == n.sched && s.closeTask == n.closeTask
    requires s.table <= n.table && s.closed <= n.closed
    ensures Covered(s) ==> Covered(n)
    ensures Stopping(s) ==> Stopping(n)
  {
    if exists i :: ClosesLast(s, i) {
      var i :| ClosesLast(s, i);
      assert ClosesLast(n, i);
    }
  }

  lemma MoveKeepsCover(s: State, t: Task, pc: Pc, n: State)
    requires t in s.sched.pcs && s.sched.pcs[t] != Asleep
    requires n.sched == Move(s.sched, t, pc) && s.closeTask == n.closeTask
    requires s.table == n.table && s.closed == n.closed
    ensures Covered(s) ==> Covered(n)
    ensures Stopping(s) ==> Stopping(n)
    ensures AttachInLine(n.sched) ==> AttachInLine(s.sched)
  {
    if exists i :: ClosesLast(s, i) {
      var i :| ClosesLast(s, i);
      assert ClosesLast(n, i);
    }
    if f: nat :| Is(s.sched, Force(f), Asleep) {
      assert Is(n.sched, Force(f), Asleep);
    }
  }

  /** When the head leaves, the cover stays, unless it was the head and nothing else can open the session. */
  lemma ReleaseKeepsCover(s: State, t: Task, n: State)
    requires |s.sched.line| > 0 && s.sched.line[0] == t
    requires t in s.sched.pcs && s.sched.pcs[t] != Asleep
    requires n.sched == Release(s.sched, t) && s.closeTask == n.closeTask
    requires s.table == n.table && s.closed <= n.closed
    ensures Covered(s) ==> Covered(n) || (ClosesLast(s, 0) && !AttachInLine(n.sched))
    ensures Stopping(s) ==> Stopping(n)
    ensures AttachInLine(n.sched) ==> AttachInLine(s.sched)
  {
    assert forall i :: 0 <= i < |n.sched.line| ==> n.sched.line[i] == s.sched.line[i + 1];
    if exists i :: ClosesLast(s, i) {
      var i :| ClosesLast(s, i);
      if i > 0 {
        assert ClosesLast(n, i - 1);
      }
    }
    if f: nat :| Is(s.sched, Force(f), Asleep) {
      assert Is(n.sched, Force(f), Asleep);
    }
  }

  lemma CancelKeepsStopping(s: State)
    ensures Stopping(s) ==> Stopping(CancelClose(s))
  {
    if f: nat :| Is(s.sched, Force(f), Asleep) {
      assert Is(CancelClose(s).sched, Force(f), Asleep);
    }
  }

  lemma DiscardKeepsOwned(s: State, lost: set<Client>)
    requires forall c :: c in s.clients && c !in lost ==> c in s.table || Stopping(s)
    ensures Owned(Discard(s, lost))
  {
    DropClientsMembers(s.clients, lost);
    var d := s.(clients := DropClients(s.clients, lost));
    if d.clients == [] {
      assert GraceAsleep(Discard(s, lost));
    }
  }

  lemma EnterForceKeepsOwned(s: State, f: nat)
    ensures Owned(EnterForce(s, f))
  {
    var n := EnterForce(s, f);
    assert ClosesLast(n, |n.sched.line| - 1);
  }

  lemma AttachKeepsOwned(s: State, c: Client)
    requires Owned(s) && Enabled(s, AttachBegin(c)) && (c in s.table || Stopping(s))
    ensures Owned(Step(s, AttachBegin(c)))
  {
    CancelKeepsStopping(s);
    var d := CancelClose(s);
    var n := Step(s, AttachBegin(c));
    assert c in n.clients;
    if f: nat :| Is(d.sched, Force(f), Asleep) {
      assert Is(n.sched, Force(f), Asleep);
    }
  }

  lemma AttachFailedKeepsOwned(s: State, c: Client)
    requires Consistent(s) && Owned(s) && Enabled(s, AttachFailed(c))
    ensures Owned(Step(s, AttachFailed(c)))
  {
    var n := Step(s, AttachFailed(c));
    ReleaseKeepsCover(s, Attach(c), n);
    DropClientsMembers(s.clients, {c});
    if n.clients == [] && s.clients != [] {
      assert s.clients[0] in s.clients;
      if c in s.table {
        assert c in n.table && c in n.closed;
      }
    }
  }

  lemma GatewayEndKeepsOwned(s: State)
    requires Owned(s) && Enabled(s, GatewayEndFinish)
    ensures Owned(Step(s, GatewayEndFinish))
  {
    var n := Step(s, GatewayEndFinish);
    CoverGrows(s, n);
    if s.clients != [] {
      var c := s.clients[0];
      assert c in s.table ==> c in n.table && c in n.closed;
    }
  }

  lemma WakeKeepsOwned(s: State, g: nat)
    requires Consistent(s) && Owned(s) && Enabled(s, GraceWake(g))
    ensures Owned(Step(s, GraceWake(g)))
  {
    var n := Step(s, GraceWake(g));
    if f: nat :| Is(s.sched, Force(f), Asleep) {
      assert Is(n.sched, Force(f), Asleep);
    }
    if s.clients == [] {
      assert ClosesLast(n, |n.sched.line| - 1);
    }
  }

  lemma ServerStopKeepsOwned(s: State, sessions: set<Client>)
    requires Owned(s) && Enabled(s, ServerStop(sessions))
    ensures Owned(Step(s, ServerStop(sessions)))
  {
    assert Is(Step(s, ServerStop(sessions)).sched, Force(s.nextTask), Asleep);
  }

  /** A task at the head moves on inside the lock, or leaves it. */
  lemma HeadKeepsOwned(s: State, t: Task, n: State)
    requires Owned(s) && |s.sched.line| > 0 && s.sched.line[0] == t
    requires t in s.sched.pcs && s.sched.pcs[t] != Asleep
    requires n == s.(sched := n.sched, active := n.active)
    requires
      || (exists pc :: n.sched == Move(s.sched, t, pc) && (n.active ==> s.active || t.Attach?))
      || (n.sched == Release(s.sched, t) && (n.active ==> s.active) &&
          (ClosesLast(s, 0) && s.clients == [] ==> !n.active))
    ensures Owned(n)
  {
    if n.sched == Release(s.sched, t) && (n.active ==> s.active) &&
       (ClosesLast(s, 0) && s.clients == [] ==> !n.active)
    {
      ReleaseKeepsCover(s, t, n);
    } else {
      var pc :| n.sched == Move(s.sched, t, pc);
      MoveKeepsCover(s, t, pc, n);
      assert t.Attach? ==> s.sched.line[0].Attach?;
    }
  }

  lemma AttachStepKeepsOwned(s: State, e: Event)
    requires Consistent(s) && Owned(s) && Enabled(s, e)
    requires e.AttachLocked? || e.AttachDialed? || e.AttachOpened?
    ensures Owned(Step(s, e))
  {
    hide Consistent, Owned;
    HeadKeepsOwned(s, Attach(e.client), Step(s, e));
  }

  lemma ForceStepKeepsOwned(s: State, e: Event)
    requires Owned(s) && Enabled(s, e) && (e.ForceLocked? || e.ForceClosed?)
    ensures Owned(Step(s, e))
  {
    hide Owned;
    HeadKeepsOwned(s, Force(e.id), Step(s, e));
  }

  lemma GraceStepKeepsOwned(s: State, e: Event)
    requires Consistent(s) && Owned(s) && Enabled(s, e)
    requires e.GraceLocked? || e.GraceClosed? || e.GraceAborted?
    ensures Owned(Step(s, e))
  {
    hide Owned, Tidy;
    HeadKeepsOwned(s, Grace(e.id), Step(s, e));
  }

  lemma StepKeepsOwned(s: State, e: Event)
    requires Consistent(s) && Owned(s) && Enabled(s, e) && Safe(s, e)
    ensures Owned(Step(s, e))
  {
    match e {
      case AttachBegin(c) => AttachKeepsOwned(s, c);
      case AttachFailed(c) => AttachFailedKeepsOwned(s, c);
      case Teardown(c) =>
        var d := s.(table := s.table - {c}, alive := s.alive - {c}, closed := s.closed + {c});
        DiscardKeepsOwned(d, {c});
      case PacketForwarded(lost) => DiscardKeepsOwned(s, lost);
      case GatewayEndFinish => GatewayEndKeepsOwned(s);
      case ServerStop(sessions) => ServerStopKeepsOwned(s, sessions);
      case ForceEnter(f) => EnterForceKeepsOwned(s, f);
      case ForceBegin => EnterForceKeepsOwned(s.(nextTask := s.nextTask + 1), s.nextTask);
      case GraceWake(g) => WakeKeepsOwned(s, g);
      case AttachLocked(_) => AttachStepKeepsOwned(s, e);
      case AttachDialed(_) => AttachStepKeepsOwned(s, e);
      case AttachOpened(_) => AttachStepKeepsOwned(s, e);
      case ForceLocked(_) => ForceStepKeepsOwned(s, e);
      case ForceClosed(_) => ForceStepKeepsOwned(s, e);
      case GraceLocked(_) => GraceStepKeepsOwned(s, e);
      case GraceClosed(_) => GraceStepKeepsOwned(s, e);
      case GraceAborted(_) => GraceStepKeepsOwned(s, e);
      case Register => CoverGrows(s, Step(s, e));
      case WriterClosed(_) => CoverGrows(s, Step(s, e));
      case HandlerExit(_) => CoverGrows(s, Step(s, e));
      case GatewayEndBegin => CoverGrows(s, Step(s, e));
    }
    hide Consistent, Covered, Stopping, Orphaned, Discard, EnterForce, Move, Release;
  }

  // ----- theorems over runs -----

  lemma {:induction false} RunKeepsConsistent(s: State, run: seq<Event>)
    requires Consistent(s) && Possible(s, run)
    ensures Consistent(Final(s, run))
    decreases |run|
  {
    if run == [] {
    } else {
      StepKeepsConsistent(s, run[0]);
      RunKeepsConsistent(Step(s, run[0]), run[1..]);
    }
  }

  lemma {:induction false} RunKeepsOwned(s: State, run: seq<Event>)
    requires Consistent(s) && Owned(s) && Possible(s, run) && AllSafe(s, run)
    ensures Consistent(Final(s, run)) && Owned(Final(s, run))
    decreases |run|
  {
    if run == [] {
    } else {
      StepKeepsConsistent(s, run[0]);
      StepKeepsOwned(s, run[0]);
      RunKeepsOwned(Step(s, run[0]), run[1..]);
    }
  }

  /**
   * In every run: the packet handlers are installed exactly while a client is attached, at most
   * one task is inside session.open() or a locked session.close(), and a delayed close that was
   * not cancelled is never closing while a client is attached.
   */
  lemma EveryRunIsConsistent(run: seq<Event>)
    requires Possible(Init, run)
    ensures HandlersMatchClients(Final(Init, run))
    ensures OneOwner(Final(Init, run).sched)
    ensures GraceYieldsToClients(Final(Init, run))
  {
    RunKeepsConsistent(Init, run);
    var h := Final(Init, run).sched;
    forall t | t in h.pcs && h.pcs[t] != Asleep && h.pcs[t] != WaitingLock
      ensures |h.line| > 0 && h.line[0] == t
    {
      assert t in h.line;
      var k :| 0 <= k < |h.line| && h.line[k] == t;
    }
  }

  /**
   * No leaked call: after any run of safe attaches, an open media session without clients still
   * has a delayed close, a forced close or the RTSP teardown of a closed client ahead of it.
   */
  lemma NoLeakedCall(run: seq<Event>)
    requires Possible(Init, run) && AllSafe(Init, run)
    ensures NoLeak(Final(Init, run))
  {
    RunKeepsOwned(Init, run);
    OwnedMeansNoLeak(Final(Init, run));
  }

  lemma OwnedMeansNoLeak(s: State)
    requires Consistent(s) && Owned(s)
    ensures NoLeak(s)
  {
    if s.active && s.clients == [] {
      assert Covered(s);
      if i :| ClosesLast(s, i) {
        assert s.sched.line[i] in s.sched.line;
      }
    }
  }

  /** Once every task has ended and no dead client awaits its teardown, no client means no call. */
  lemma QuiescentWithoutClientsIsClosed(run: seq<Event>)
    requires Possible(Init, run) && AllSafe(Init, run)
    requires Final(Init, run).sched.pcs == map[]
    requires Final(Init, run).clients == []
    requires Final(Init, run).table !! Final(Init, run).closed
    ensures !Final(Init, run).active
  {
    NoLeakedCall(run);
  }

  // ----- the gap: an attach that comes too late -----

  const ServerStops: seq<Event> := [Register, ServerStop({0}), ForceEnter(0), ForceLocked(0)]
  const LatePlay: seq<Event> := [AttachBegin(0), AttachLocked(0), AttachDialed(0), AttachFailed(0)]

  const Stopped := Init.(alive := {0}, closed := {0}, nextClient := 1, nextTask := 1)
  const Leaked := Stopped.(active := true)

  lemma ServerStopsRun()
    ensures Possible(Init, ServerStops) && Final(Init, ServerStops) == Stopped
  {
    var s1 := Init.(table := {0}, alive := {0}, nextClient := 1);
    var s2 := Stopped.(sched := Sched(map[Force(0) := Asleep], []));
    var s3 := Stopped.(sched := Sched(map[Force(0) := WaitingLock], [Force(0)]));
    assert Step(Init, ServerStops[0]) == s1;
    assert Step(s1, ServerStops[1]) == s2;
    assert Step(s2, ServerStops[2]) == s3;
    assert Step(s3, ServerStops[3]) == Stopped;
    assert Final(s3, ServerStops[3..]) == Stopped;
    assert Final(s2, ServerStops[2..]) == Final(s3, ServerStops[3..]);
  }

  lemma LatePlayRun()
    ensures Possible(Stopped, LatePlay) && Final(Stopped, LatePlay) == Leaked
  {
    var s5 := Stopped.(clients := [0], handlers := true,
                       sched := Sched(map[Attach(0) := WaitingLock], [Attach(0)]));
    var s6 := s5.(sched := Sched(map[Attach(0) := Dialing], [Attach(0)]));
    var s7 := s6.(active := true, sched := Sched(map[Attach(0) := SettingUp], [Attach(0)]));
    assert Step(Stopped, LatePlay[0]) == s5;
    assert Step(s5, LatePlay[1]) == s6;
    assert Step(s6, LatePlay[2]) == s7;
    assert Step(s7, LatePlay[3]) == Leaked;
    assert Final(s7, LatePlay[3..]) == Leaked;
    assert Final(s6, LatePlay[2..]) == Final(s7, LatePlay[3..]);
  }

  lemma {:induction false} RunsCompose(s: State, run: seq<Event>, more: seq<Event>)
    requires Possible(s, run) && Possible(Final(s, run), more)
    ensures Possible(s, run + more)
    ensures Final(s, run + more) == Final(Final(s, run), more)
    decreases |run|
  {
    if run == [] {
      assert run + more == more;
    } else {
      assert (run + more)[1..] == run[1..] + more;
      RunsCompose(Step(s, run[0]), run[1..], more);
    }
  }

  /**
   * The condition is needed.  When a PLAY reaches attach after rtsp.stop() has dropped its session
   * and its open() then fails past the dial, the run ends with the call open, no client, no task
   * and no teardown to come.
   */
  lemma LateAttachLeaks()
    ensures Possible(Init, ServerStops + LatePlay)
    ensures !NoLeak(Final(Init, ServerStops + LatePlay))
    ensures Final(Init, ServerStops + LatePlay).sched.pcs == map[]
  {
    ServerStopsRun();
    LatePlayRun();
    RunsCompose(Init, ServerStops, LatePlay);
  }

  lemma {:induction false} RunAppend(s: State, run: seq<Event>, e: Event)
    requires Possible(s, run) && Enabled(Final(s, run), e)
    ensures Possible(s, run + [e]) && Final(s, run + [e]) == Step(Final(s, run), e)
    ensures AllSafe(s, run + [e]) <==> AllSafe(s, run) && Safe(Final(s, run), e)
    decreases |run|
  {
    if run == [] {
      assert run + [e] == [e] && [e][1..] == [];
    } else {
      assert (run + [e])[0] == run[0] && (run + [e])[1..] == run[1..] + [e];
      hide Step, Enabled, Safe;
      RunAppend(Step(s, run[0]), run[1..], e);
    }
  }
}
