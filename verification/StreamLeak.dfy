// The exact boundary of the no-leak property: one attach that is not safe can always end in a leak.
module StreamLeak {
  import opened Prelude
  import opened StreamOwnership
  import opened StreamSafety

  // ----- what else holds of every run -----

  /** Each kind of task is only ever where its code can be. */
  ghost predicate Fitting(h: Sched) {
    && (forall x :: Attach(x) in h.pcs ==> h.pcs[Attach(x)] in {WaitingLock, Dialing, SettingUp})
    && (forall f :: Force(f) in h.pcs ==> h.pcs[Force(f)] in {Asleep, WaitingLock, Closing(false)})
    && (forall g :: Grace(g) in h.pcs ==> h.pcs[Grace(g)] in {Asleep, WaitingLock, Closing(false), Closing(true)})
  }

  /** A registered session still has its connection handler. */
  ghost predicate Grounded(s: State) {
    Fitting(s.sched) && s.table <= s.alive
  }

  lemma CancelKeepsFitting(s: State)
    requires Fitting(s.sched)
    ensures Fitting(CancelClose(s).sched)
    ensures CancelClose(s).table == s.table && CancelClose(s).alive == s.alive
  {
  }

  lemma DiscardKeepsGrounded(s: State, lost: set<Client>)
    requires Grounded(s)
    ensures Grounded(Discard(s, lost))
  {
    var d := s.(clients := DropClients(s.clients, lost)).(handlers := false);
    CancelKeepsFitting(d);
    hide CancelClose, DropClients;
  }

  lemma EnterForceKeepsGrounded(s: State, f: nat)
    requires Grounded(s)
    ensures Grounded(EnterForce(s, f))
  {
    CancelKeepsFitting(s);
    hide CancelClose;
  }

  lemma StepKeepsGrounded(s: State, e: Event)
    requires Grounded(s) && Enabled(s, e)
    ensures Grounded(Step(s, e))
  {
    match e
    case AttachBegin(_) => CancelKeepsFitting(s); hide CancelClose, Discard, EnterForce;
    case Teardown(c) =>
      DiscardKeepsGrounded(s.(table := s.table - {c}, alive := s.alive - {c}, closed := s.closed + {c}), {c});
      hide CancelClose, Discard, EnterForce;
    case PacketForwarded(lost) => DiscardKeepsGrounded(s, lost); hide CancelClose, Discard, EnterForce;
    case ForceEnter(f) => EnterForceKeepsGrounded(s, f); hide CancelClose, Discard, EnterForce;
    case ForceBegin =>
      EnterForceKeepsGrounded(s.(nextTask := s.nextTask + 1), s.nextTask);
      hide CancelClose, Discard, EnterForce;
    case _ => hide CancelClose, Discard, EnterForce, DropClients;
  }

  lemma {:induction false} RunKeepsGrounded(s: State, run: seq<Event>)
    requires Grounded(s) && Possible(s, run)
    ensures Grounded(Final(s, run))
    decreases |run|
  {
    if run == [] {
    } else {
      StepKeepsGrounded(s, run[0]);
      hide Grounded, Step, Enabled;
      RunKeepsGrounded(Step(s, run[0]), run[1..]);
    }
  }

  // ----- runs without attaches -----

  predicate NoAttach(run: seq<Event>) {
    forall i :: 0 <= i < |run| ==> !run[i].AttachBegin?
  }

  ghost predicate Leads(s: State, run: seq<Event>, t: State) {
    Possible(s, run) && NoAttach(run) && Final(s, run) == t
  }

  lemma LeadsNowhere(s: State)
    ensures Leads(s, [], s)
  {
  }

  lemma LeadsOneStep(s: State, e: Event)
    requires Enabled(s, e) && !e.AttachBegin?
    ensures Leads(s, [e], Step(s, e))
  {
    assert [e][1..] == [];
  }

  lemma LeadsOn(s: State, run: seq<Event>, t: State, more: seq<Event>, u: State)
    requires Leads(s, run, t) && Leads(t, more, u)
    ensures Leads(s, run + more, u)
  {
    RunsCompose(s, run, more);
  }

  lemma {:induction false} NoAttachIsSafe(s: State, run: seq<Event>)
    requires Possible(s, run) && NoAttach(run)
    ensures AllSafe(s, run)
    decreases |run|
  {
    if run == [] {
    } else {
      assert !run[0].AttachBegin?;
      assert forall i :: 0 <= i < |run[1..]| ==> run[1..][i] == run[i + 1];
      NoAttachIsSafe(Step(s, run[0]), run[1..]);
    }
  }

  // ----- the way into the leak -----

  /**
   * The late attach of `c` waits for the lock, nobody else is attached, and nothing but the tasks in
   * front of it, the gateway, or a closed client's teardown will ever close the session.
   */
  ghost predicate Doomed(s: State, c: Client) {
    && Consistent(s) && Grounded(s)
    && !Stopping(s) && s.closeTask == None && c !in s.table
    && |s.sched.line| > 0 && s.sched.line[|s.sched.line| - 1] == Attach(c) && Is(s.sched, Attach(c), WaitingLock)
    && s.clients != [] && forall i :: 0 <= i < |s.clients| ==> s.clients[i] == c
  }

  lemma {:induction false} DropKeeps(clients: seq<Client>, lost: set<Client>, c: Client)
    requires c !in lost && forall i :: 0 <= i < |clients| ==> clients[i] == c
    ensures DropClients(clients, lost) == clients
  {
    if clients == [] {
    } else {
      assert clients == [clients[0]] + clients[1..];
      DropKeeps(clients[1..], lost, c);
    }
  }

  lemma {:induction false} DropsAll(clients: seq<Client>, c: Client)
    requires forall i :: 0 <= i < |clients| ==> clients[i] == c
    ensures DropClients(clients, {c}) == []
  {
    if clients != [] {
      DropsAll(clients[1..], c);
    }
  }

  lemma {:induction false} DropLeaves(clients: seq<Client>, lost: set<Client>, c: Client)
    requires c in clients && c !in lost && forall x :: x in clients && x != c ==> x in lost
    ensures DropClients(clients, lost) != []
    ensures forall i :: 0 <= i < |DropClients(clients, lost)| ==> DropClients(clients, lost)[i] == c
  {
    DropClientsMembers(clients, lost);
    var d := DropClients(clients, lost);
    assert c in d;
    forall i | 0 <= i < |d| ensures d[i] == c {
      assert d[i] in d;
    }
  }

  /** One lost packet for everybody else, and the late attach is on its own. */
  lemma LateAttachDooms(s: State, c: Client) returns (run: seq<Event>, t: State)
    requires Consistent(s) && Grounded(s) && Enabled(s, AttachBegin(c)) && !Safe(s, AttachBegin(c))
    ensures Leads(Step(s, AttachBegin(c)), run, t) && Doomed(t, c)
  {
    var n := Step(s, AttachBegin(c));
    AttachKeepsConsistent(s, c);
    StepKeepsGrounded(s, AttachBegin(c));
    NobodyStops(s, c);
    assert n.sched.line[|n.sched.line| - 1] == Attach(c);
    var others := set x | x in n.clients && x != c;
    DropLeaves(n.clients, others, c);
    run := [PacketForwarded(others)];
    t := Step(n, PacketForwarded(others));
    assert t == n.(clients := DropClients(n.clients, others));
    LeadsOneStep(n, PacketForwarded(others));
    DiscardKeepsConsistent(n, others);
    DiscardKeepsGrounded(n, others);
  }

  lemma NobodyStops(s: State, c: Client)
    requires Consistent(s) && !Stopping(s) && Enabled(s, AttachBegin(c))
    ensures var n := Step(s, AttachBegin(c)); !Stopping(n) && n.closeTask == None && c in n.clients && n.handlers
  {
    CancelKeepsConsistent(s);
    var d := CancelClose(s);
    var n := Step(s, AttachBegin(c));
    if f: nat :| Is(n.sched, Force(f), Asleep) {
      assert Is(d.sched, Force(f), Asleep);
      assert Is(s.sched, Force(f), Asleep);
    }
  }

  // ----- draining the line in front of the late attach -----

  /** A doomed state stays doomed while the head of the line moves on or leaves. */
  lemma HeadKeepsDoomed(s: State, c: Client, t: Task, n: State)
    requires Doomed(s, c) && s.sched.line[0] == t && t != Attach(c)
    requires Consistent(n) && Grounded(n)
    requires n.clients == s.clients && n.closeTask == s.closeTask && n.table == s.table
    requires n.sched == Release(s.sched, t) || (exists pc :: n.sched == Move(s.sched, t, pc) && pc != Asleep)
    ensures Doomed(n, c)
  {
    if f: nat :| Is(n.sched, Force(f), Asleep) {
      assert Is(s.sched, Force(f), Asleep);
    }
  }

  /** One step of a task at the head that is not the late attach. */
  lemma HeadStep(s: State, c: Client, e: Event, t: Task) returns (n: State)
    requires Doomed(s, c) && Enabled(s, e) && s.sched.line[0] == t && t != Attach(c)
    requires match e
      case AttachLocked(x) => t == Attach(x)
      case AttachFailed(x) => t == Attach(x)
      case ForceLocked(f) => t == Force(f)
      case ForceClosed(f) => t == Force(f)
      case GraceLocked(g) => t == Grace(g)
      case GraceClosed(g) => t == Grace(g)
      case _ => false
    ensures n == Step(s, e) && Doomed(n, c) && Leads(s, [e], n)
    ensures n.sched.line == s.sched.line[1..] || (n.sched.line == s.sched.line && (e.AttachLocked? || e.ForceLocked?))
    ensures e.AttachLocked? && n.sched.line == s.sched.line ==> Is(n.sched, t, Dialing)
    ensures e.ForceLocked? && n.sched.line == s.sched.line ==> Is(n.sched, t, Closing(false))
    ensures e.GraceLocked? ==> n.sched.line == s.sched.line[1..]
  {
    n := Step(s, e);
    StepKeepsConsistent(s, e);
    StepKeepsGrounded(s, e);
    LeadsOneStep(s, e);
    if e.AttachFailed? {
      assert e.client != c;
      DropKeeps(s.clients, {e.client}, c);
    }
    hide Consistent, Grounded, Leads, Doomed;
    assert s.clients != [] by { DoomedHasClient(s, c); }
    HeadKeepsDoomed(s, c, t, n);
  }

  lemma DoomedHasClient(s: State, c: Client)
    requires Doomed(s, c)
    ensures s.clients != [] && s.sched.line != []
  {
  }

  /** Where the head of a line can be. */
  lemma HeadIsSomewhere(s: State, c: Client)
    requires Doomed(s, c) && |s.sched.line| > 1
    ensures var t := s.sched.line[0];
            && t != Attach(c) && t in s.sched.pcs && Heads(s.sched, t, s.sched.pcs[t])
            && match t
               case Attach(_) => s.sched.pcs[t] in {WaitingLock, Dialing, SettingUp}
               case Force(_) => s.sched.pcs[t] in {WaitingLock, Closing(false)}
               case Grace(_) => s.sched.pcs[t] in {WaitingLock, Closing(false), Closing(true)}
  {
    var t := s.sched.line[0];
    assert t in s.sched.line;
    assert s.sched.line[|s.sched.line| - 1] == Attach(c);
  }

  lemma HeadLeaves(s: State, c: Client) returns (run: seq<Event>, n: State)
    requires Doomed(s, c) && |s.sched.line| > 1
    ensures Doomed(n, c) && Leads(s, run, n) && n.sched.line == s.sched.line[1..]
  {
    HeadIsSomewhere(s, c);
    var t := s.sched.line[0];
    hide Doomed, Leads, Step;
    match t {
      case Attach(x) =>
        if s.sched.pcs[t] == WaitingLock {
          n := HeadStep(s, c, AttachLocked(x), t);
          run := [AttachLocked(x)];
          if n.sched.line == s.sched.line {
            var m := n;
            n := HeadStep(m, c, AttachFailed(x), t);
            LeadsOn(s, run, m, [AttachFailed(x)], n);
            run := run + [AttachFailed(x)];
          }
        } else {
          n := HeadStep(s, c, AttachFailed(x), t);
          run := [AttachFailed(x)];
        }
      case Force(f) =>
        if s.sched.pcs[t] == WaitingLock {
          n := HeadStep(s, c, ForceLocked(f), t);
          run := [ForceLocked(f)];
          if n.sched.line == s.sched.line {
            var m := n;
            n := HeadStep(m, c, ForceClosed(f), t);
            LeadsOn(s, run, m, [ForceClosed(f)], n);
            run := run + [ForceClosed(f)];
          }
        } else {
          n := HeadStep(s, c, ForceClosed(f), t);
          run := [ForceClosed(f)];
        }
      case Grace(g) =>
        if s.sched.pcs[t] == WaitingLock {
          n := HeadStep(s, c, GraceLocked(g), t);
          run := [GraceLocked(g)];
        } else {
          n := HeadStep(s, c, GraceClosed(g), t);
          run := [GraceClosed(g)];
        }
    }
  }

  lemma LineDrains(s: State, c: Client) returns (run: seq<Event>, n: State)
    requires Doomed(s, c)
    ensures Doomed(n, c) && Leads(s, run, n) && n.sched.line == [Attach(c)]
    decreases |s.sched.line|
  {
    DoomedHasClient(s, c);
    if |s.sched.line| == 1 {
      assert s.sched.line[|s.sched.line| - 1] == Attach(c);
      LeadsNowhere(s);
      run, n := [], s;
    } else {
      hide Doomed, Leads;
      var first, m := HeadLeaves(s, c);
      var rest;
      rest, n := LineDrains(m, c);
      LeadsOn(s, first, m, rest, n);
      run := first + rest;
    }
  }

  // ----- the teardowns of clients that are already closed -----

  lemma OneTeardown(s: State, c: Client, x: Client) returns (n: State)
    requires Doomed(s, c) && s.sched.line == [Attach(c)] && x in s.table && x in s.closed
    ensures n == s.(table := s.table - {x}, alive := s.alive - {x}, closed := s.closed + {x})
    ensures Doomed(n, c) && Leads(s, [Teardown(x)], n)
  {
    assert Attach(x) in s.sched.pcs ==> Attach(x) in s.sched.line;
    n := Step(s, Teardown(x));
    DropKeeps(s.clients, {x}, c);
    StepKeepsConsistent(s, Teardown(x));
    StepKeepsGrounded(s, Teardown(x));
    LeadsOneStep(s, Teardown(x));
    assert n.sched == s.sched && n.clients == s.clients;
    hide Consistent, Grounded, Leads;
  }

  lemma TeardownsEnd(s: State, c: Client) returns (run: seq<Event>, n: State)
    requires Doomed(s, c) && s.sched.line == [Attach(c)]
    ensures Doomed(n, c) && Leads(s, run, n) && n.sched.line == [Attach(c)] && !TeardownPending(n)
    decreases s.table
  {
    if TeardownPending(s) {
      var x :| x in s.table && x in s.closed;
      var m := OneTeardown(s, c, x);
      hide Doomed, Leads, TeardownPending;
      var rest;
      rest, n := TeardownsEnd(m, c);
      LeadsOn(s, [Teardown(x)], m, rest, n);
      run := [Teardown(x)] + rest;
    } else {
      LeadsNowhere(s);
      run, n := [], s;
    }
  }

  // ----- the leak -----

  /** Only the late attach is left, and the session is closed. */
  ghost predicate Alone(s: State, c: Client) {
    && s.closeTask == None && c !in s.table && !TeardownPending(s) && !s.active
    && (forall f: nat :: Force(f) in s.sched.pcs ==> Force(f) in s.sched.line)
    && s.sched.line == [Attach(c)] && Is(s.sched, Attach(c), WaitingLock)
    && forall i :: 0 <= i < |s.clients| ==> s.clients[i] == c
  }

  /** Without other tasks, the gateway can end an open session. */
  lemma SessionEnds(s: State, c: Client) returns (run: seq<Event>, n: State)
    requires Doomed(s, c) && s.sched.line == [Attach(c)] && !TeardownPending(s)
    ensures Leads(s, run, n) && Alone(n, c)
  {
    forall f: nat | Force(f) in s.sched.pcs ensures Force(f) in s.sched.line {
      assert !Is(s.sched, Force(f), Asleep);
    }
    if !s.active {
      LeadsNowhere(s);
      run, n := [], s;
    } else {
      var m := Step(s, GatewayEndBegin);
      n := Step(m, GatewayEndFinish);
      LeadsOneStep(s, GatewayEndBegin);
      LeadsOneStep(m, GatewayEndFinish);
      LeadsOn(s, [GatewayEndBegin], m, [GatewayEndFinish], n);
      run := [GatewayEndBegin] + [GatewayEndFinish];
      assert forall x :: x in s.clients ==> x == c;
      assert !TeardownPending(n);
      hide Leads, Consistent, Grounded;
    }
  }

  /** Its open() sets the call and then fails: the call stays, and nobody is left to close it. */
  lemma LateAttachFails(s: State, c: Client) returns (run: seq<Event>, n: State)
    requires Alone(s, c)
    ensures Leads(s, run, n) && !NoLeak(n)
  {
    var s1 := Step(s, AttachLocked(c));
    var s2 := Step(s1, AttachDialed(c));
    n := Step(s2, AttachFailed(c));
    LeadsOneStep(s, AttachLocked(c));
    LeadsOneStep(s1, AttachDialed(c));
    LeadsOneStep(s2, AttachFailed(c));
    LeadsOn(s, [AttachLocked(c)], s1, [AttachDialed(c)], s2);
    LeadsOn(s, [AttachLocked(c)] + [AttachDialed(c)], s2, [AttachFailed(c)], n);
    run := [AttachLocked(c)] + [AttachDialed(c)] + [AttachFailed(c)];
    hide Leads;
    DropsAll(s.clients, c);
    assert n.clients == [];
    forall f: nat ensures Force(f) !in n.sched.pcs {
      assert Force(f) in s.sched.pcs ==> Force(f) in s.sched.line;
    }
    assert !TeardownPending(n);
  }

  /** Every attach that is not safe can end in a leak, with no further attach at all. */
  lemma UnsafeAttachCanLeak(s: State, c: Client) returns (run: seq<Event>)
    requires Consistent(s) && Grounded(s) && Enabled(s, AttachBegin(c)) && !Safe(s, AttachBegin(c))
    ensures Possible(Step(s, AttachBegin(c)), run) && AllSafe(Step(s, AttachBegin(c)), run)
    ensures !NoLeak(Final(Step(s, AttachBegin(c)), run))
  {
    var n := Step(s, AttachBegin(c));
    var run1, s1 := LateAttachDooms(s, c);
    var run2, s2 := LineDrains(s1, c);
    var run3, s3 := TeardownsEnd(s2, c);
    var run4, s4 := SessionEnds(s3, c);
    var run5, s5 := LateAttachFails(s4, c);
    LeadsOn(n, run1, s1, run2, s2);
    LeadsOn(n, run1 + run2, s2, run3, s3);
    LeadsOn(n, run1 + run2 + run3, s3, run4, s4);
    LeadsOn(n, run1 + run2 + run3 + run4, s4, run5, s5);
    run := run1 + run2 + run3 + run4 + run5;
    NoAttachIsSafe(n, run);
  }

  /**
   * The boundary is exact.  After any run of safe attaches, one more attach keeps every continuation
   * with safe attaches free of leaks if and only if its session is still in its server's table, or a
   * forced teardown is still waiting for that server to stop.
   */
  lemma NoLeakExactly(before: seq<Event>, c: Client)
    requires Possible(Init, before) && AllSafe(Init, before) && Enabled(Final(Init, before), AttachBegin(c))
    ensures var s := Final(Init, before);
            var n := Step(s, AttachBegin(c));
            (forall run :: Possible(n, run) && AllSafe(n, run) ==> NoLeak(Final(n, run)))
            <==> c in s.table || Stopping(s)
  {
    RunKeepsOwned(Init, before);
    RunKeepsGrounded(Init, before);
    var s := Final(Init, before);
    var n := Step(s, AttachBegin(c));
    if Safe(s, AttachBegin(c)) {
      StepKeepsConsistent(s, AttachBegin(c));
      StepKeepsOwned(s, AttachBegin(c));
      forall run | Possible(n, run) && AllSafe(n, run) ensures NoLeak(Final(n, run)) {
        RunKeepsOwned(n, run);
        OwnedMeansNoLeak(Final(n, run));
      }
    } else {
      var run := UnsafeAttachCanLeak(s, c);
    }
  }
}
