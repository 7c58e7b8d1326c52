// The stream-ownership protocol of one door station, as a small-step system: one step is the code
// between two awaits.  RTSP clients attach to and detach from a single gateway media session; a
// grace timer, a forced teardown and the gateway itself may close it.  Every open and close but
// the gateway's runs under one FIFO lock.
module StreamOwnership {
  import opened Prelude

  type Client = nat

  /** A task that takes the stream lock: an attach, a delayed close or a forced close. */
  datatype Task = Attach(client: Client) | Grace(id: nat) | Force(id: nat)

  /**
   * Where a task is.  `Asleep`: a grace task in its sleep, a force task still stopping the RTSP
   * server.  `Dialing` and `SettingUp` split session.open() at the point where it sets the call.
   * `Closing` is inside session.close(); `cancelled` tells that a cancellation was requested there.
   */
  datatype Pc = Asleep | WaitingLock | Dialing | SettingUp | Closing(cancelled: bool)

  /**
   * The event loop's view of the tasks.  `line` is the lock: its head holds the lock once it has
   * left WaitingLock, the others wait in order of arrival.
   */
  datatype Sched = Sched(pcs: map<Task, Pc>, line: seq<Task>)

  /**
   * `clients`, `handlers`, `active` and `closeTask` are the coordinator's own fields.  `table` is
   * the RTSP servers' session tables, `alive` the connections whose handler still runs, `closed`
   * the connections whose writer is closing; `endings` counts the gateway-side endings that are in
   * the middle of session.close().
   */
  datatype State = State(
    clients: seq<Client>,
    handlers: bool,
    active: bool,
    closeTask: Option<nat>,
    sched: Sched,
    table: set<Client>,
    alive: set<Client>,
    closed: set<Client>,
    endings: nat,
    nextClient: nat,
    nextTask: nat)

  const Init := State([], false, false, None, Sched(map[], []), {}, {}, {}, 0, 0, 0)

  datatype Event =
    | Register                      // a client completes SETUP
    | WriterClosed(client: Client)  // the peer drops the connection
    | AttachBegin(client: Client)   // PLAY
    | AttachLocked(client: Client)
    | AttachDialed(client: Client)  // session.open() has set the call
    | AttachOpened(client: Client)
    | AttachFailed(client: Client)  // session.open() raised
    | Teardown(client: Client)      // the connection handler's finally block
    | HandlerExit(client: Client)   // the same, for a session no longer in the table
    | PacketForwarded(lost: set<Client>)
    | GatewayEndBegin
    | GatewayEndFinish
    | ServerStop(sessions: set<Client>)
    | ForceEnter(id: nat)           // force_close() after the server has stopped
    | ForceBegin                    // force_close() on its own
    | ForceLocked(id: nat)
    | ForceClosed(id: nat)
    | GraceWake(id: nat)
    | GraceLocked(id: nat)
    | GraceClosed(id: nat)
    | GraceAborted(id: nat)         // the cancellation stopped session.close() half way

  // ----- the lock and the tasks -----

  predicate Is(h: Sched, t: Task, pc: Pc) {
    t in h.pcs && h.pcs[t] == pc
  }

  /** `t` is at the head of the lock line, at `pc`. */
  predicate Heads(h: Sched, t: Task, pc: Pc) {
    |h.line| > 0 && h.line[0] == t && Is(h, t, pc)
  }

  function Spawn(h: Sched, t: Task): Sched {
    h.(pcs := h.pcs[t := Asleep])
  }

  function Enqueue(h: Sched, t: Task): Sched {
    Sched(h.pcs[t := WaitingLock], h.line + [t])
  }

  function Move(h: Sched, t: Task, pc: Pc): Sched {
    h.(pcs := h.pcs[t := pc])
  }

  /** The head of the line is done and lets the next one in. */
  function Release(h: Sched, t: Task): Sched
    requires |h.line| > 0
  {
    Sched(h.pcs - {t}, h.line[1..])
  }

  /** task.cancel(): a sleeping or waiting task ends, one inside session.close() is told to. */
  function CancelTask(h: Sched, t: Task): Sched {
    if t !in h.pcs then h
    else if h.pcs[t].Closing? then Move(h, t, Closing(true))
    else Sched(h.pcs - {t}, Without(h.line, t))
  }

  // ----- the synchronous helpers of the coordinator -----

  function CancelClose(s: State): State {
    if s.closeTask.None? then s
    else s.(closeTask := None, sched := CancelTask(s.sched, Grace(s.closeTask.value)))
  }

  function ScheduleClose(s: State): State {
    var c := CancelClose(s);
    c.(closeTask := Some(c.nextTask), sched := Spawn(c.sched, Grace(c.nextTask)),
       nextTask := c.nextTask + 1)
  }

  function AddClient(clients: seq<Client>, c: Client): seq<Client> {
    if c in clients then clients else clients + [c]
  }

  function DropClients(clients: seq<Client>, lost: set<Client>): seq<Client> {
    if clients == [] then []
    else if clients[0] in lost then DropClients(clients[1..], lost)
    else [clients[0]] + DropClients(clients[1..], lost)
  }

  /** Discard clients; the last one to leave takes the handlers and starts the grace timer. */
  function Discard(s: State, lost: set<Client>): State {
    var d := s.(clients := DropClients(s.clients, lost));
    if d.clients == [] then ScheduleClose(d.(handlers := false)) else d
  }

  function EnterForce(s: State, f: nat): State {
    var c := CancelClose(s);
    c.(clients := [], handlers := false, sched := Enqueue(c.sched, Force(f)))
  }

  // ----- steps -----

  predicate Enabled(s: State, e: Event) {
    match e
    case Register => true
    case WriterClosed(c) => c in s.alive
    case AttachBegin(c) => c in s.alive && Attach(c) !in s.sched.pcs
    case AttachLocked(c) => Heads(s.sched, Attach(c), WaitingLock)
    case AttachDialed(c) => Heads(s.sched, Attach(c), Dialing)
    case AttachOpened(c) => Heads(s.sched, Attach(c), SettingUp)
    case AttachFailed(c) => Heads(s.sched, Attach(c), Dialing) || Heads(s.sched, Attach(c), SettingUp)
    case Teardown(c) => c in s.alive && c in s.table && Attach(c) !in s.sched.pcs
    case HandlerExit(c) => c in s.alive && c !in s.table && Attach(c) !in s.sched.pcs
    case PacketForwarded(_) => s.handlers
    case GatewayEndBegin => s.active
    case GatewayEndFinish => s.endings > 0
    case ServerStop(sessions) => sessions <= s.table
    case ForceEnter(f) => Is(s.sched, Force(f), Asleep)
    case ForceBegin => true
    case ForceLocked(f) => Heads(s.sched, Force(f), WaitingLock)
    case ForceClosed(f) => Heads(s.sched, Force(f), Closing(false))
    case GraceWake(g) => Is(s.sched, Grace(g), Asleep)
    case GraceLocked(g) => Heads(s.sched, Grace(g), WaitingLock)
    case GraceClosed(g) => Heads(s.sched, Grace(g), Closing(false)) || Heads(s.sched, Grace(g), Closing(true))
    case GraceAborted(g) => Heads(s.sched, Grace(g), Closing(true))
  }

  function Step(s: State, e: Event): State
    requires Enabled(s, e)
  {
    match e
    case Register =>
      s.(table := s.table + {s.nextClient}, alive := s.alive + {s.nextClient},
         nextClient := s.nextClient + 1)
    case WriterClosed(c) => s.(closed := s.closed + {c})
    case AttachBegin(c) =>
      var d := CancelClose(s);
      d.(clients := AddClient(d.clients, c), handlers := true, sched := Enqueue(d.sched, Attach(c)))
    case AttachLocked(c) =>
      if s.active then s.(sched := Release(s.sched, Attach(c)))
      else s.(sched := Move(s.sched, Attach(c), Dialing))
    case AttachDialed(c) => s.(active := true, sched := Move(s.sched, Attach(c), SettingUp))
    case AttachOpened(c) => s.(sched := Release(s.sched, Attach(c)))
    case AttachFailed(c) =>
      var clients := DropClients(s.clients, {c});
      s.(sched := Release(s.sched, Attach(c)), clients := clients,
         handlers := s.handlers && clients != [], closed := s.closed + {c})
    case Teardown(c) =>
      Discard(s.(table := s.table - {c}, alive := s.alive - {c}, closed := s.closed + {c}), {c})
    case HandlerExit(c) => s.(alive := s.alive - {c}, closed := s.closed + {c})
    case PacketForwarded(lost) => Discard(s, lost)
    case GatewayEndBegin => s.(endings := s.endings + 1)
    case GatewayEndFinish =>
      var d := s.(endings := s.endings - 1, active := false);
      if d.clients == [] then d
      else d.(clients := [], handlers := false, closed := d.closed + set c | c in d.clients)
    case ServerStop(sessions) =>
      s.(table := s.table - sessions, closed := s.closed + sessions,
         sched := Spawn(s.sched, Force(s.nextTask)), nextTask := s.nextTask + 1)
    case ForceEnter(f) => EnterForce(s, f)
    case ForceBegin => EnterForce(s.(nextTask := s.nextTask + 1), s.nextTask)
    case ForceLocked(f) =>
      if s.active then s.(sched := Move(s.sched, Force(f), Closing(false)))
      else s.(sched := Release(s.sched, Force(f)))
    case ForceClosed(f) => s.(active := false, sched := Release(s.sched, Force(f)))
    case GraceWake(g) =>
      if s.clients != [] then s.(sched := CancelTask(s.sched, Grace(g)))
      else s.(sched := Enqueue(s.sched, Grace(g)))
    case GraceLocked(g) =>
      if s.clients == [] && s.active then s.(sched := Move(s.sched, Grace(g), Closing(false)))
      else s.(sched := Release(s.sched, Grace(g)))
    case GraceClosed(g) => s.(active := false, sched := Release(s.sched, Grace(g)))
    case GraceAborted(g) => s.(sched := Release(s.sched, Grace(g)))
  }

  // ----- runs -----

  /** `run` can be taken from `s`, every step enabled. */
  predicate Possible(s: State, run: seq<Event>)
    decreases |run|
  {
    run == [] || (Enabled(s, run[0]) && Possible(Step(s, run[0]), run[1..]))
  }

  function Final(s: State, run: seq<Event>): State
    requires Possible(s, run)
    decreases |run|
  {
    if run == [] then s else Final(Step(s, run[0]), run[1..])
  }

  /** A forced teardown is still waiting for its RTSP server to stop. */
  ghost predicate Stopping(s: State) {
    exists f: nat :: Is(s.sched, Force(f), Asleep)
  }

  /** An attach whose session is in its server's table, or that a forced teardown is about to clear. */
  ghost predicate Safe(s: State, e: Event) {
    e.AttachBegin? ==> e.client in s.table || Stopping(s)
  }

  ghost predicate AllSafe(s: State, run: seq<Event>)
    requires Possible(s, run)
    decreases |run|
  {
    run == [] || (Safe(s, run[0]) && AllSafe(Step(s, run[0]), run[1..]))
  }

  // ----- what is claimed -----

  /** The current, uncancelled delayed close has not finished. */
  ghost predicate GracePending(s: State) {
    s.closeTask.Some? && Grace(s.closeTask.value) in s.sched.pcs &&
    s.sched.pcs[Grace(s.closeTask.value)] != Closing(true)
  }

  ghost predicate ForcePending(s: State) {
    exists f: nat :: Force(f) in s.sched.pcs
  }

  ghost predicate TeardownPending(s: State) {
    exists c :: c in s.table && c in s.closed
  }

  /** A media session without clients is still going to be closed by somebody. */
  ghost predicate NoLeak(s: State) {
    s.active && s.clients == [] ==> GracePending(s) || ForcePending(s) || TeardownPending(s)
  }

  /** Only the head of the line may be inside session.open() or session.close(). */
  ghost predicate OneOwner(h: Sched) {
    forall t :: t in h.pcs && h.pcs[t] != Asleep && h.pcs[t] != WaitingLock ==>
      |h.line| > 0 && h.line[0] == t
  }

  ghost predicate HandlersMatchClients(s: State) {
    s.handlers <==> s.clients != []
  }

  /** A delayed close that nobody has cancelled is never inside session.close() under a client. */
  ghost predicate GraceYieldsToClients(s: State) {
    forall g :: Is(s.sched, Grace(g), Closing(false)) ==> s.clients == []
  }
}
