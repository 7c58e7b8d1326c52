// Who is attached, and in which order, read off the events of a run alone.
module StreamMembers {
  import opened Prelude
  import opened StreamOwnership
  import opened StreamSafety

  /** The client's own teardown, lost packet or failed attach, and what ends it for everybody. */
  predicate Leaves(e: Event, c: Client) {
    || e == Teardown(c) || e == AttachFailed(c)
    || (e.PacketForwarded? && c in e.lost)
    || e.GatewayEndFinish? || e.ForceEnter? || e.ForceBegin?
  }

  /** It has attached, and none of these has come since. */
  predicate Attached(run: seq<Event>, c: Client) {
    run != [] &&
    var (front, last) := (run[..|run| - 1], run[|run| - 1]);
    last == AttachBegin(c) || (Attached(front, c) && !Leaves(last, c))
  }

  /** The place in the run of the attach that began the present stay. */
  function Since(run: seq<Event>, c: Client): nat
    requires Attached(run, c)
  {
    var front := run[..|run| - 1];
    if Attached(front, c) && !Leaves(run[|run| - 1], c) then Since(front, c) else |run| - 1
  }

  /** The attached clients, each once, longest attached first. */
  ghost predicate Listed(run: seq<Event>, clients: seq<Client>) {
    && NoDup(clients)
    && (forall c :: c in clients <==> Attached(run, c))
    && (forall i, j :: 0 <= i < j < |clients| ==>
          Attached(run, clients[i]) && Attached(run, clients[j]) && Since(run, clients[i]) < Since(run, clients[j]))
  }

  lemma {:induction false} FrontIsPossible(s: State, run: seq<Event>)
    requires Possible(s, run) && run != []
    ensures Possible(s, run[..|run| - 1]) && Enabled(Final(s, run[..|run| - 1]), run[|run| - 1])
    ensures Final(s, run) == Step(Final(s, run[..|run| - 1]), run[|run| - 1])
    decreases |run|
  {
    if |run| > 1 {
      assert run[..|run| - 1][1..] == run[1..][..|run| - 2];
      FrontIsPossible(Step(s, run[0]), run[1..]);
    }
  }

  lemma SinceIsEarlier(run: seq<Event>, c: Client)
    requires Attached(run, c)
    ensures Since(run, c) < |run|
  {
  }

  // ----- what one step does to the list -----

  /** The clients that an event removes. */
  function Lost(e: Event, clients: seq<Client>): set<Client> {
    set c | c in clients && Leaves(e, c)
  }

  lemma {:induction false} DropClientsSubsequence(clients: seq<Client>, lost: set<Client>) returns (at: seq<nat>)
    ensures var kept := DropClients(clients, lost);
            && |at| == |kept|
            && (forall i :: 0 <= i < |at| ==> at[i] < |clients| && kept[i] == clients[at[i]])
            && (forall i, j :: 0 <= i < j < |at| ==> at[i] < at[j])
  {
    if clients == [] {
      at := [];
    } else {
      var rest := DropClientsSubsequence(clients[1..], lost);
      var moved := seq(|rest|, i requires 0 <= i < |rest| => rest[i] + 1);
      at := if clients[0] in lost then moved else [0] + moved;
    }
  }

  lemma {:induction false} DropAll(clients: seq<Client>, lost: set<Client>)
    requires forall i :: 0 <= i < |clients| ==> clients[i] in lost
    ensures DropClients(clients, lost) == []
  {
    if clients != [] {
      DropAll(clients[1..], lost);
    }
  }

  lemma {:induction false} DropOnlyThese(clients: seq<Client>, lost: set<Client>, same: set<Client>)
    requires forall i :: 0 <= i < |clients| ==> (clients[i] in lost <==> clients[i] in same)
    ensures DropClients(clients, lost) == DropClients(clients, same)
  {
    if clients != [] {
      DropOnlyThese(clients[1..], lost, same);
    }
  }

  lemma {:induction false} DropNobody(clients: seq<Client>)
    ensures DropClients(clients, {}) == clients
  {
    if clients != [] {
      DropNobody(clients[1..]);
    }
  }

  lemma OthersLoseNobody(clients: seq<Client>, e: Event)
    requires !e.AttachFailed? && !e.Teardown? && !e.PacketForwarded?
    requires !e.GatewayEndFinish? && !e.ForceEnter? && !e.ForceBegin?
    ensures DropClients(clients, Lost(e, clients)) == clients
  {
    DropNobody(clients);
    assert Lost(e, clients) == {};
  }

  lemma StepMoves(s: State, e: Event)
    requires Enabled(s, e)
    ensures Step(s, e).clients ==
      if e.AttachBegin? then (if e.client in s.clients then s.clients else s.clients + [e.client])
      else DropClients(s.clients, Lost(e, s.clients))
  {
    var lost := Lost(e, s.clients);
    match e {
      case AttachFailed(c) => DropOnlyThese(s.clients, {c}, lost);
      case Teardown(c) => DropOnlyThese(s.clients, {c}, lost);
      case PacketForwarded(gone) => DropOnlyThese(s.clients, gone, lost);
      case GatewayEndFinish => DropAll(s.clients, lost);
      case ForceEnter(_) => DropAll(s.clients, lost);
      case ForceBegin => DropAll(s.clients, lost);
      case AttachBegin(_) =>
      case _ => OthersLoseNobody(s.clients, e);
    }
    hide DropClients, Lost, CancelTask, Release, Enqueue, Move, Spawn;
  }

  // ----- the list over a whole run -----

  lemma SinceStays(run: seq<Event>, c: Client)
    requires run != [] && Attached(run[..|run| - 1], c) && !Leaves(run[|run| - 1], c)
    ensures Attached(run, c) && Since(run, c) == Since(run[..|run| - 1], c)
  {
  }

  /** An attach appends a client that is not there, and changes nothing for one that is. */
  lemma AttachLists(run: seq<Event>, before: seq<Client>, c: Client)
    requires run != [] && run[|run| - 1] == AttachBegin(c) && Listed(run[..|run| - 1], before)
    ensures Listed(run, if c in before then before else before + [c])
  {
    var front := run[..|run| - 1];
    var after := if c in before then before else before + [c];
    forall i | 0 <= i < |before| ensures Attached(run, before[i]) && Since(run, before[i]) == Since(front, before[i]) {
      assert before[i] in before;
      SinceStays(run, before[i]);
    }
    if c !in before {
      assert !Attached(front, c);
      assert Attached(run, c) && Since(run, c) == |run| - 1;
    }
    forall i, j | 0 <= i < j < |after|
      ensures Attached(run, after[i]) && Attached(run, after[j]) && Since(run, after[i]) < Since(run, after[j])
    {
      if j == |before| {
        SinceIsEarlier(front, before[i]);
      }
    }
    hide Since;
  }

  lemma DropLists(run: seq<Event>, before: seq<Client>)
    requires run != [] && !run[|run| - 1].AttachBegin? && Listed(run[..|run| - 1], before)
    ensures Listed(run, DropClients(before, Lost(run[|run| - 1], before)))
  {
    var (front, last) := (run[..|run| - 1], run[|run| - 1]);
    var after := DropClients(before, Lost(last, before));
    DropClientsMembers(before, Lost(last, before));
    var at := DropClientsSubsequence(before, Lost(last, before));
    forall i | 0 <= i < |after| ensures Attached(run, after[i]) && Since(run, after[i]) == Since(front, before[at[i]]) {
      assert after[i] in after;
      SinceStays(run, after[i]);
    }
    hide Since;
  }

  /**
   * Over every run: a client is in the list if and only if it has attached and neither its own
   * teardown, lost packet or failed attach nor a gateway end or forced close has come since; it is
   * there once, behind those that have been attached for longer.
   */
  lemma {:induction false} ClientsAreListed(run: seq<Event>)
    requires Possible(Init, run)
    ensures Listed(run, Final(Init, run).clients)
    decreases |run|
  {
    if run == [] {
    } else {
      var (front, last) := (run[..|run| - 1], run[|run| - 1]);
      FrontIsPossible(Init, run);
      var s := Final(Init, front);
      StepMoves(s, last);
      ClientsAreListed(front);
      hide Possible, Final, Step, Enabled, Listed;
      if last.AttachBegin? {
        AttachLists(run, s.clients, last.client);
      } else {
        DropLists(run, s.clients);
      }
    }
  }

  // ----- the media session over a whole run -----

  predicate Closes(e: Event) {
    e.GraceClosed? || e.ForceClosed? || e.GatewayEndFinish?
  }

  /** Some open() has set the call, and no close has come since. */
  predicate CallSet(run: seq<Event>) {
    run != [] && (run[|run| - 1].AttachDialed? || (!Closes(run[|run| - 1]) && CallSet(run[..|run| - 1])))
  }

  lemma StepOpensOrCloses(s: State, e: Event)
    requires Enabled(s, e)
    ensures Step(s, e).active <==> e.AttachDialed? || (!Closes(e) && s.active)
  {
    hide DropClients, CancelTask, Release, Enqueue, Move, Spawn;
  }

  /** Over every run: the session is active if and only if a call was set and not closed since. */
  lemma {:induction false} ActiveExactly(run: seq<Event>)
    requires Possible(Init, run)
    ensures Final(Init, run).active <==> CallSet(run)
    decreases |run|
  {
    if run == [] {
    } else {
      FrontIsPossible(Init, run);
      StepOpensOrCloses(Final(Init, run[..|run| - 1]), run[|run| - 1]);
      ActiveExactly(run[..|run| - 1]);
      hide Possible, Final, Step, Enabled;
    }
  }

  // ----- the sessions of the RTSP server over a whole run -----

  function Registered(run: seq<Event>): nat {
    if run == [] then 0 else Registered(run[..|run| - 1]) + (if run[|run| - 1].Register? then 1 else 0)
  }

  /** Begun and finished ends of the call by the gateway. */
  function Begun(run: seq<Event>): int {
    if run == [] then 0
    else
      var last := run[|run| - 1];
      Begun(run[..|run| - 1]) + (if last.GatewayEndBegin? then 1 else if last.GatewayEndFinish? then -1 else 0)
  }

  /** The handler of this client has ended. */
  predicate HandlerEnded(run: seq<Event>, c: Client) {
    Teardown(c) in run || HandlerExit(c) in run
  }

  /** The server has stopped while this client was listed. */
  ghost predicate Dropped(run: seq<Event>, c: Client) {
    exists k :: 0 <= k < |run| && run[k].ServerStop? && c in run[k].sessions
  }

  lemma DroppedStep(run: seq<Event>, c: Client)
    requires run != []
    ensures var (front, last) := (run[..|run| - 1], run[|run| - 1]);
            && (Dropped(run, c) <==> Dropped(front, c) || (last.ServerStop? && c in last.sessions))
            && (HandlerEnded(run, c) <==> HandlerEnded(front, c) || last == Teardown(c) || last == HandlerExit(c))
            && (Teardown(c) in run <==> Teardown(c) in front || last == Teardown(c))
  {
    var (front, last) := (run[..|run| - 1], run[|run| - 1]);
    assert run == front + [last];
    if k :| 0 <= k < |run| && run[k].ServerStop? && c in run[k].sessions {
      assert k < |front| ==> front[k] == run[k];
    }
    if k :| 0 <= k < |front| && front[k].ServerStop? && c in front[k].sessions {
      assert run[k] == front[k];
    }
  }

  /** Which handlers run, which sessions are listed, and how many ends of the gateway's are under way. */
  ghost predicate SessionsAre(run: seq<Event>, s: State) {
    && s.nextClient == Registered(run) && s.endings == Begun(run)
    && (forall c: Client :: c in s.alive <==> c < Registered(run) && !HandlerEnded(run, c))
    && (forall c: Client :: c in s.table <==> c < Registered(run) && Teardown(c) !in run && !Dropped(run, c))
  }

  lemma StepSessions(s: State, e: Event)
    requires Enabled(s, e)
    ensures var n := Step(s, e);
            && n.nextClient == s.nextClient + (if e.Register? then 1 else 0)
            && n.endings == s.endings + (if e.GatewayEndBegin? then 1 else if e.GatewayEndFinish? then -1 else 0)
            && (forall c: Client :: c in n.alive <==>
                  (c in s.alive && e != Teardown(c) && e != HandlerExit(c)) || (e.Register? && c == s.nextClient))
            && (forall c: Client :: c in n.table <==>
                  (c in s.table && e != Teardown(c) && !(e.ServerStop? && c in e.sessions)) ||
                  (e.Register? && c == s.nextClient))
  {
    hide DropClients, CancelTask, Release, Enqueue, Move, Spawn, AddClient;
  }

  /** Ends concern clients that were registered before. */
  lemma EndsAreOfRegistered(s: State, e: Event, c: Client)
    requires Enabled(s, e) && (e == Teardown(c) || e == HandlerExit(c) || (e.ServerStop? && c in e.sessions))
    ensures c in s.alive || c in s.table
  {
  }

  /** Ends of handlers and stops of the server concern clients that were registered before. */
  ghost predicate EndsAreKnown(run: seq<Event>) {
    forall c: Client :: HandlerEnded(run, c) || Dropped(run, c) ==> c < Registered(run)
  }

  /**
   * Over every run: a handler runs if and only if its client has registered and it has not ended; a
   * session is listed if and only if it has registered and neither its teardown nor a stop of the
   * server has taken it.
   */
  lemma {:induction false} SessionsExactly(run: seq<Event>)
    requires Possible(Init, run)
    ensures SessionsAre(run, Final(Init, run)) && EndsAreKnown(run)
    decreases |run|
  {
    if run == [] {
    } else {
      var (front, last) := (run[..|run| - 1], run[|run| - 1]);
      FrontIsPossible(Init, run);
      var s := Final(Init, front);
      SessionsExactly(front);
      StepSessions(s, last);
      hide Possible, Final, Step, HandlerEnded, Dropped, Enabled;
      forall c: Client
        ensures last == Teardown(c) || last == HandlerExit(c) || (last.ServerStop? && c in last.sessions) ==>
                  c < Registered(front)
        ensures Dropped(run, c) <==> Dropped(front, c) || (last.ServerStop? && c in last.sessions)
        ensures HandlerEnded(run, c) <==> HandlerEnded(front, c) || last == Teardown(c) || last == HandlerExit(c)
        ensures Teardown(c) in run <==> Teardown(c) in front || last == Teardown(c)
      {
        DroppedStep(run, c);
        if last == Teardown(c) || last == HandlerExit(c) || (last.ServerStop? && c in last.sessions) {
          EndsAreOfRegistered(s, last, c);
        }
      }
      TornDownIsKnown(front);
    }
  }

  lemma TornDownIsKnown(run: seq<Event>)
    requires EndsAreKnown(run)
    ensures forall c: Client :: Teardown(c) in run ==> c < Registered(run)
  {
    forall c: Client | Teardown(c) in run ensures c < Registered(run) {
      assert HandlerEnded(run, c);
    }
  }

  /** A handler ends without a teardown exactly when the server's stop has taken its session from it. */
  lemma HandlerMayExit(run: seq<Event>, c: Client)
    requires Possible(Init, run) && Attach(c) !in Final(Init, run).sched.pcs
    ensures Enabled(Final(Init, run), HandlerExit(c)) <==>
            c < Registered(run) && !HandlerEnded(run, c) && Dropped(run, c)
    ensures Enabled(Final(Init, run), Teardown(c)) <==>
            c < Registered(run) && !HandlerEnded(run, c) && !Dropped(run, c)
  {
    SessionsExactly(run);
    hide Possible, Final, Dropped;
  }
}
