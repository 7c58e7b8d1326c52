// The life of outgoing calls: dial, replace, scoped hangup, MESSAGE, remote BYE, reset and wait, with
// a step for every piece of code between two points where another task may run.
module Dialer {
  import opened Prelude
  import opened Text
  import opened RecentTable
  import opened CallEnds

  datatype Method = Invite | Ack | Message | Bye

  /** A request as written to the connection. */
  datatype Sent = Sent(verb: Method, id: Id, cseq: nat)

  /** What the holder of the dialer's lock is doing. */
  datatype Op =
    | Idle
    | Registering
    | ByeWritten(id: Id, next: Option<Id>)   // the send may still fail; `next` is the dial behind it
    | ByeWaiting(id: Id, next: Option<Id>)
    | Inviting(id: Id, cseq: nat, retried: bool)
    | Acking(id: Id, cseq: nat)
    | MessageWritten(id: Id, retried: bool)
    | MessageWaiting(id: Id, retried: bool)

  /** Not in the program: what has happened so far. */
  datatype History = History(
    sent: seq<Sent>,
    dialed: set<Id>,
    reached: set<Id>,       // established
    ended: set<Id>,
    cuts: set<(Id, nat)>)   // in-dialog requests whose drain() was cut short, with their numbers

  datatype State = State(
    call: Option<Id>,     // _call
    pending: Option<Id>,  // _pending_camera_count_target
    open: bool,           // _writer is set
    broken: bool,         // the stream holds an exception, which every further drain() raises again
    cseq: nat,
    op: Op,
    book: Book,
    history: History)

  const Init := State(None, None, false, false, 0, Idle, Empty, History([], {}, {}, {}, {}))

  datatype Event =
    | Reset                       // ensure_connected, close, or the error path of dial
    | Connect
    | RegisterAgain
    | RegisterChallenged
    | Registered
    | RegisterFails
    | Dial(id: Id)                // the second locked section of dial, with a new Call-ID
    | InviteChallenged
    | InviteAccepted
    | InviteRejected
    | Establish
    | SetupFails
    | HangUp(scope: Option<Id>)
    | SendMessage
    | MessageChallenged
    | MessageEnds
    | SendCompletes               // drain() of a MESSAGE or BYE returns
    | SendBreaks                  // drain() raises ConnectionError
    | ByeEnds                     // answered or timed out
    | HangupRaises                // drain() of a replaced call's BYE raises anything but ConnectionError
    | Interrupted                 // any other exception, a timeout or a cancellation
    | RemoteEnds(id: Id)          // a BYE from the gateway
    | BeginWaiting(id: Id)
    | CancelWaiting(waiter: nat)
    | EndWaiting(waiter: nat)

  // ----- the pieces -----

  function Forget(current: Option<Id>, id: Id): Option<Id> {
    if current == Some(id) then None else current
  }

  /** _finish_call */
  function Finish(s: State, id: Id, reason: Reason): State {
    var key := Strip(id);
    if key == "" then s
    else s.(call := Forget(s.call, key), pending := Forget(s.pending, key), book := RecordEnd(s.book, key, reason),
            history := s.history.(ended := s.history.ended + {key}))
  }

  /** _reset_connection_locked */
  function ResetConnection(s: State): State {
    if s.call.Some? then Finish(s.(open := false, broken := false, op := Idle), s.call.value, ConnectionReset)
    else s.(open := false, broken := false, op := Idle, pending := None)
  }

  /** _send_request, up to the point where it waits. */
  function Write(s: State, verb: Method, id: Id, cseq: nat): State {
    s.(history := s.history.(sent := s.history.sent + [Sent(verb, id, cseq)]))
  }

  /** The start of _dial_locked.  Without a connection the send fails at once. */
  function StartDial(s: State, id: Id): State {
    var p := s.(pending := Some(id), history := s.history.(dialed := s.history.dialed + {id}));
    if s.open then Write(p, Invite, id, s.cseq).(op := Inviting(id, s.cseq, false)) else p.(op := Idle)
  }

  /** _hangup_locked up to its first wait; `next` is the Call-ID of the dial that replaces this call. */
  function StartBye(s: State, next: Option<Id>): State {
    if s.call.None? || !s.open then
      if next.Some? then StartDial(s, next.value) else s
    else
      Write(s, Bye, s.call.value, s.cseq).(op := ByeWritten(s.call.value, next))
  }

  function AfterBye(s: State, next: Option<Id>): State {
    if next.Some? then StartDial(s, next.value) else s.(op := Idle)
  }

  /** The drain() of a MESSAGE or BYE is awaited; the counter advances only behind it. */
  predicate Sending(op: Op) {
    op.ByeWritten? || op.MessageWritten?
  }

  predicate InDialog(op: Op) {
    Sending(op) || op.ByeWaiting? || op.MessageWaiting?
  }

  function CutShort(s: State): State {
    if Sending(s.op) then s.(history := s.history.(cuts := s.history.cuts + {(s.op.id, s.cseq)})) else s
  }

  /** hangup(call_id=...) leaves a call alone that is somebody else's. */
  predicate OutOfScope(s: State, scope: Option<Id>) {
    scope.Some? && s.call.Some? && s.call != scope
  }

  predicate NewCallId(s: State, id: Id) {
    id != "" && Trimmed(id) && id !in s.history.dialed
  }

  predicate InSend(op: Op) {
    op.ByeWritten? || op.MessageWritten? || op.Inviting? || op.Acking?
  }

  predicate Enabled(s: State, e: Event) {
    match e
    case Reset => s.op.Idle?
    case Connect => s.op.Idle? && !s.open
    case RegisterAgain => s.op.Idle? && s.open
    case RegisterChallenged => s.op.Registering? && !s.broken
    case Registered => s.op.Registering? && !s.broken
    case RegisterFails => s.op.Registering?
    case Dial(id) => s.op.Idle? && NewCallId(s, id)
    case InviteChallenged => s.op.Inviting? && !s.op.retried && !s.broken
    case InviteAccepted => s.op.Inviting? && !s.broken
    case InviteRejected => s.op.Inviting? && !s.broken
    case Establish => s.op.Acking? && !s.broken
    case SetupFails => s.op.Acking? && !s.broken
    case HangUp(_) => s.op.Idle?
    case SendMessage => s.op.Idle? && s.call.Some? && s.open
    case MessageChallenged => s.op.MessageWaiting? && !s.op.retried
    case MessageEnds => s.op.MessageWaiting?
    case SendCompletes => Sending(s.op) && !s.broken
    case SendBreaks => InSend(s.op)
    case ByeEnds => s.op.ByeWaiting?
    case HangupRaises => s.op.ByeWritten? && s.op.next.Some?
    case Interrupted => !s.op.Idle?
    case RemoteEnds(_) => true
    case BeginWaiting(_) => true
    case CancelWaiting(f) => f < |s.book.futures|
    case EndWaiting(f) => f < |s.book.futures| && !s.book.futures[f].Pending?
  }

  function Step(s: State, e: Event): State
    requires Enabled(s, e)
  {
    match e
    case Reset => ResetConnection(s)
    case Connect => s.(open := true, broken := false, cseq := 1, op := Registering)
    case RegisterAgain => s.(op := Registering)
    case RegisterChallenged => s.(cseq := s.cseq + 1)
    case Registered => s.(cseq := s.cseq + 1, op := Idle)
    case RegisterFails => ResetConnection(s)
    case Dial(id) => StartBye(s, Some(id))
    case InviteChallenged =>
      Write(s, Invite, s.op.id, s.cseq + 1).(cseq := s.cseq + 1, op := Inviting(s.op.id, s.cseq + 1, true))
    case InviteAccepted => Write(s, Ack, s.op.id, s.op.cseq).(op := Acking(s.op.id, s.op.cseq))
    case InviteRejected => s.(pending := None, op := Idle)
    case Establish =>
      s.(call := Some(s.op.id), pending := None, cseq := s.cseq + 1, op := Idle,
         history := s.history.(reached := s.history.reached + {s.op.id}))
    case SetupFails => Write(s, Bye, s.op.id, s.cseq).(pending := None, cseq := s.cseq + 1, op := Idle)
    case HangUp(scope) => if OutOfScope(s, scope) then s else StartBye(s, None)
    case SendMessage => Write(s, Message, s.call.value, s.cseq).(op := MessageWritten(s.call.value, false))
    case MessageChallenged => Write(s, Message, s.op.id, s.cseq).(op := MessageWritten(s.op.id, true))
    case MessageEnds => s.(op := Idle)
    case SendCompletes =>
      s.(cseq := s.cseq + 1, op := if s.op.ByeWritten? then ByeWaiting(s.op.id, s.op.next)
                                   else MessageWaiting(s.op.id, s.op.retried))
    case SendBreaks => ResetConnection(s)
    case ByeEnds => AfterBye(Finish(s, s.op.id, LocalBye), s.op.next)
    case HangupRaises => AfterBye(CutShort(s).(broken := true), s.op.next)
    case Interrupted => CutShort(s).(op := Idle)
    case RemoteEnds(id) => Finish(s, id, RemoteBye)
    case BeginWaiting(id) => s.(book := BeginWait(s.book, id))
    case CancelWaiting(f) => s.(book := CancelWait(s.book, f))
    case EndWaiting(f) => s.(book := EndWait(s.book, f))
  }

  predicate Possible(s: State, run: seq<Event>)
    decreases |run|
  {
    run == [] || (Enabled(s, run[0]) && Possible(Step(s, run[0]), run[1..]))
  }

  function Final(s: State, run: seq<Event>): State
    requires Possible(s, run)
    decreases |run|
  {
    if run == [] then s else Final(Step(s, run[0]), run[1..])
  }

  lemma Unroll(s: State, e: Event, rest: seq<Event>)
    requires Enabled(s, e) && Possible(Step(s, e), rest)
    ensures Possible(s, [e] + rest) && Final(s, [e] + rest) == Final(Step(s, e), rest)
  {
    assert ([e] + rest)[1..] == rest;
  }

  lemma {:induction false} RunAppend(s: State, run: seq<Event>, e: Event)
    requires Possible(s, run) && Enabled(Final(s, run), e)
    ensures Possible(s, run + [e]) && Final(s, run + [e]) == Step(Final(s, run), e)
    decreases |run|
  {
    if run == [] {
      assert run + [e] == [e] && [e][1..] == [];
    } else {
      assert (run + [e])[0] == run[0] && (run + [e])[1..] == run[1..] + [e];
      hide Step, Enabled;
      RunAppend(Step(s, run[0]), run[1..], e);
    }
  }

  // ----- invariants -----

  /** The call under way was dialed here and is not established yet; a call being left was. */
  ghost predicate OpValid(s: State) {
    match s.op
    case Inviting(id, cseq, _) => s.open && cseq == s.cseq && id in s.history.dialed && id !in s.history.reached
    case Acking(id, cseq) => s.open && cseq == s.cseq && id in s.history.dialed && id !in s.history.reached
    case ByeWritten(id, next) => s.open && id in s.history.reached && (next.Some? ==> NewCallId(s, next.value))
    case ByeWaiting(id, next) => s.open && id in s.history.reached && (next.Some? ==> NewCallId(s, next.value))
    case MessageWritten(id, _) => s.open && id in s.history.reached
    case MessageWaiting(id, _) => s.open && id in s.history.reached
    case Registering => s.open
    case Idle => true
  }

  ghost predicate IdsValid(s: State) {
    && s.history.reached <= s.history.dialed
    && (forall id :: id in s.history.dialed ==> id != "" && Trimmed(id))
  }

  ghost predicate CallValid(s: State) {
    && (s.call.Some? ==> s.open && s.call.value in s.history.reached)
    && IdsValid(s)
  }

  /** No new call comes up beside an active one, and in-dialog requests concern the active call. */
  ghost predicate Exclusive(s: State) {
    && ((s.op.Inviting? && !s.broken) || s.op.Acking? ==> s.call.None?)
    && (s.op.Acking? ==> !s.broken)
    && (InDialog(s.op) && s.call.Some? ==> s.call.value == s.op.id)
  }

  ghost predicate Valid(s: State) {
    BookValid(s.book) && CallValid(s) && OpValid(s) && Exclusive(s)
  }

  /** Which call an event ends, and the reason it gives. */
  function Ends(s: State, e: Event): Option<(Id, Reason)>
    requires Enabled(s, e)
  {
    match e
    case Reset => EndOfActive(s)
    case RegisterFails => EndOfActive(s)
    case SendBreaks => EndOfActive(s)
    case ByeEnds => Some((s.op.id, LocalBye))
    case RemoteEnds(id) => if Strip(id) == "" then None else Some((Strip(id), RemoteBye))
    case _ => None
  }

  function EndOfActive(s: State): Option<(Id, Reason)> {
    if s.call.Some? then Some((s.call.value, ConnectionReset)) else None
  }

  function BookAfter(s: State, e: Event): Book
    requires Enabled(s, e)
  {
    if Ends(s, e).Some? then RecordEnd(s.book, Ends(s, e).value.0, Ends(s, e).value.1)
    else if e.BeginWaiting? then BeginWait(s.book, e.id)
    else if e.CancelWaiting? then CancelWait(s.book, e.waiter)
    else if e.EndWaiting? then EndWait(s.book, e.waiter)
    else s.book
  }

  lemma ResetUpdatesBook(s: State)
    requires CallValid(s) && OpValid(s)
    ensures var r := ResetConnection(s);
            if s.call.Some? then
              && r.book == RecordEnd(s.book, s.call.value, ConnectionReset)
              && r.history.ended == s.history.ended + {s.call.value}
            else r.book == s.book && r.history == s.history
  {
    CallIdsAreTrimmed(s);
    hide CallValid, OpValid, RecordEnd, Strip;
  }

  lemma AfterByeKeepsBook(s: State, next: Option<Id>)
    ensures AfterBye(s, next).book == s.book && AfterBye(s, next).history.ended == s.history.ended
    ensures StartBye(s, next).book == s.book && StartBye(s, next).history.ended == s.history.ended
  {
  }

  lemma EndUpdatesBook(s: State, e: Event)
    requires CallValid(s) && OpValid(s) && Enabled(s, e) && Ends(s, e).Some?
    ensures Step(s, e).book == RecordEnd(s.book, Ends(s, e).value.0, Ends(s, e).value.1)
    ensures Step(s, e).history.ended == s.history.ended + {Ends(s, e).value.0}
  {
    CallIdsAreTrimmed(s);
    ResetUpdatesBook(s);
    hide RecordEnd, Strip, ResetConnection, AfterBye, BeginWait, CancelWait, EndWait;
    if e.ByeEnds? {
      AfterByeKeepsBook(Finish(s, s.op.id, LocalBye), s.op.next);
    }
  }

  lemma OthersUpdateBook(s: State, e: Event)
    requires Enabled(s, e) && Ends(s, e).None?
    ensures Step(s, e).book == BookAfter(s, e)
  {
    hide RecordEnd, BeginWait, CancelWait, EndWait;
  }

  lemma OthersEndNothing(s: State, e: Event)
    requires Enabled(s, e) && Ends(s, e).None?
    ensures Step(s, e).history.ended == s.history.ended
  {
    hide RecordEnd, BeginWait, CancelWait, EndWait;
  }

  lemma StepUpdatesBook(s: State, e: Event)
    requires CallValid(s) && OpValid(s) && Enabled(s, e)
    ensures Step(s, e).book == BookAfter(s, e)
    ensures Step(s, e).history.ended ==
      if Ends(s, e).Some? then s.history.ended + {Ends(s, e).value.0} else s.history.ended
  {
    if Ends(s, e).Some? {
      EndUpdatesBook(s, e);
    } else {
      OthersUpdateBook(s, e);
      OthersEndNothing(s, e);
    }
    hide CallValid, OpValid, Step, Enabled, Ends, RecordEnd, BeginWait, CancelWait, EndWait;
  }

  lemma StepKeepsBookValid(s: State, e: Event)
    requires Valid(s) && Enabled(s, e)
    ensures BookValid(Step(s, e).book)
  {
    hide BookValid, RecordEnd, BeginWait, CancelWait, EndWait, Step;
    StepUpdatesBook(s, e);
    if Ends(s, e).Some? {
      RecordEndKeepsValid(s.book, Ends(s, e).value.0, Ends(s, e).value.1);
    } else if e.BeginWaiting? {
      BeginWaitKeepsValid(s.book, e.id);
    } else if e.CancelWaiting? {
      CancelWaitKeepsValid(s.book, e.waiter);
    } else if e.EndWaiting? {
      EndWaitKeepsValid(s.book, e.waiter);
    }
  }

  lemma CallIdsAreTrimmed(s: State)
    requires CallValid(s) && OpValid(s)
    ensures s.call.Some? ==> s.call.value != "" && Strip(s.call.value) == s.call.value
    ensures s.op.ByeWaiting? ==> s.op.id != "" && Strip(s.op.id) == s.op.id
  {
    if s.call.Some? {
      StripIsTrimmed(s.call.value);
    }
    if s.op.ByeWaiting? {
      StripIsTrimmed(s.op.id);
    }
  }

  lemma ResetForgets(s: State)
    requires CallValid(s) && OpValid(s)
    ensures ResetConnection(s).call == None
  {
    CallIdsAreTrimmed(s);
    hide CallValid, OpValid, RecordEnd, Strip;
  }

  lemma StepKeepsIdsValid(s: State, e: Event)
    requires OpValid(s) && IdsValid(s) && Enabled(s, e)
    ensures IdsValid(Step(s, e))
  {
    hide RecordEnd, BeginWait, CancelWait, EndWait, Strip, Trimmed, Forget;
  }

  lemma StepWithoutEnd(s: State, e: Event)
    requires Enabled(s, e) && Ends(s, e).None?
    ensures s.call.Some? ==> Step(s, e).call == if e.Establish? then Some(s.op.id) else s.call
  {
    hide RecordEnd, BeginWait, CancelWait, EndWait, Strip;
  }

  lemma AfterByeKeepsCall(s: State, next: Option<Id>)
    ensures AfterBye(s, next).call == s.call
  {
  }

  lemma FinishForgets(s: State, id: Id, reason: Reason)
    ensures Finish(s, id, reason).call == if Strip(id) == "" then s.call else Forget(s.call, Strip(id))
  {
    hide RecordEnd, Strip, Forget;
  }

  /** The three ways for a call to end. */
  lemma StepWithEndIs(s: State, e: Event)
    requires Enabled(s, e) && Ends(s, e).Some?
    ensures Resets(e) ==> Step(s, e) == ResetConnection(s) && s.call.Some? && Ends(s, e).value.0 == s.call.value
    ensures e.ByeEnds? ==> Step(s, e) == AfterBye(Finish(s, s.op.id, LocalBye), s.op.next)
    ensures e.ByeEnds? ==> Ends(s, e).value.0 == s.op.id
    ensures e.RemoteEnds? ==> Step(s, e) == Finish(s, e.id, RemoteBye) && Ends(s, e).value.0 == Strip(e.id) != ""
    ensures Resets(e) || e.ByeEnds? || e.RemoteEnds?
  {
    hide ResetConnection, Finish, AfterBye, StartBye, Strip;
  }

  lemma StepWithEnd(s: State, e: Event)
    requires CallValid(s) && OpValid(s) && Enabled(s, e) && Ends(s, e).Some?
    ensures Step(s, e).call == Forget(s.call, Ends(s, e).value.0)
  {
    StepWithEndIs(s, e);
    CallIdsAreTrimmed(s);
    if Resets(e) {
      ResetForgets(s);
    } else if e.ByeEnds? {
      FinishForgets(s, s.op.id, LocalBye);
      AfterByeKeepsCall(Finish(s, s.op.id, LocalBye), s.op.next);
    } else {
      FinishForgets(s, e.id, RemoteBye);
    }
    hide CallValid, OpValid, Step, Enabled, Ends, ResetConnection, Finish, AfterBye, Strip;
  }

  lemma StepEndsCall(s: State, e: Event)
    requires CallValid(s) && OpValid(s) && s.call.Some? && Enabled(s, e)
    ensures Step(s, e).call ==
      if Ends(s, e).Some? && Ends(s, e).value.0 == s.call.value then None
      else if e.Establish? then Some(s.op.id)
      else s.call
  {
    if Ends(s, e).Some? {
      StepWithEnd(s, e);
      assert !e.Establish?;
    } else {
      StepWithoutEnd(s, e);
    }
    hide Step, Enabled, Ends;
  }

  lemma StepReaches(s: State, e: Event)
    requires Enabled(s, e)
    ensures var n := Step(s, e);
            if e.Establish? then n.history.reached == s.history.reached + {s.op.id} && n.call == Some(s.op.id)
            else n.history.reached == s.history.reached && (s.call.None? ==> n.call.None?)
  {
    hide BookValid, RecordEnd, BeginWait, CancelWait, EndWait, Strip, Trimmed;
  }

  predicate Resets(e: Event) {
    e.Reset? || e.RegisterFails? || e.SendBreaks?
  }

  lemma StepKeepsOpen(s: State, e: Event)
    requires Enabled(s, e) && s.open && !Resets(e)
    ensures Step(s, e).open
  {
    hide Strip, Forget, RecordEnd, BeginWait, CancelWait, EndWait;
  }

  lemma ResettingEndsCall(s: State, e: Event)
    requires CallValid(s) && OpValid(s) && Enabled(s, e) && Resets(e)
    ensures Step(s, e).call.None?
  {
    ResetForgets(s);
    hide CallValid, OpValid, ResetConnection;
  }

  lemma StepKeepsCallOpen(s: State, e: Event)
    requires CallValid(s) && OpValid(s) && Enabled(s, e)
    ensures Step(s, e).call.Some? ==> Step(s, e).open && Step(s, e).call.value in Step(s, e).history.reached
  {
    StepReaches(s, e);
    assert e.Establish? ==> s.open;
    if Resets(e) {
      ResettingEndsCall(s, e);
    } else {
      if s.open {
        StepKeepsOpen(s, e);
      }
      if s.call.Some? {
        StepEndsCall(s, e);
      }
    }
    hide Step, Enabled, Ends, IdsValid, OpValid;
  }

  lemma StepKeepsCallValid(s: State, e: Event)
    requires CallValid(s) && OpValid(s) && Enabled(s, e)
    ensures CallValid(Step(s, e))
  {
    StepKeepsIdsValid(s, e);
    StepKeepsCallOpen(s, e);
  }

  lemma StepKeepsOpValid(s: State, e: Event)
    requires CallValid(s) && OpValid(s) && Enabled(s, e)
    ensures OpValid(Step(s, e))
  {
    hide BookValid, RecordEnd, BeginWait, CancelWait, EndWait, Strip, Trimmed;
  }

  lemma StepStartsDial(s: State, e: Event)
    requires OpValid(s) && Enabled(s, e)
    requires Step(s, e).op.Inviting? || Step(s, e).op.Acking?
    ensures s.op.Inviting? || s.op.Acking? || e.ByeEnds? || e.HangupRaises? || (e.Dial? && (s.call.None? || !s.open))
    ensures !e.Establish?
  {
    hide RecordEnd, BeginWait, CancelWait, EndWait, Strip, Forget, Write;
  }

  lemma StepBreaks(s: State, e: Event)
    requires Enabled(s, e)
    ensures !Resets(e) && !e.Connect? ==> (Step(s, e).broken <==> s.broken || e.HangupRaises?)
    ensures e.HangupRaises? ==> !Step(s, e).op.Acking?
    ensures Step(s, e).op.Acking? && !s.op.Acking? ==> e.InviteAccepted?
  {
    hide RecordEnd, BeginWait, CancelWait, EndWait, Strip, Forget;
  }

  lemma ResettingClears(s: State, e: Event)
    requires CallValid(s) && Enabled(s, e) && Resets(e)
    ensures Step(s, e).op.Idle? && !Step(s, e).broken
  {
    if s.call.Some? {
      StripIsTrimmed(s.call.value);
    }
    hide RecordEnd, Strip, Forget;
  }

  lemma StepDialsAlone(s: State, e: Event)
    requires CallValid(s) && OpValid(s) && Exclusive(s) && Enabled(s, e)
    ensures var n := Step(s, e);
            && ((n.op.Inviting? && !n.broken) || n.op.Acking? ==> n.call.None?)
            && (n.op.Acking? ==> !n.broken)
  {
    var n := Step(s, e);
    StepBreaks(s, e);
    if Resets(e) {
      ResettingClears(s, e);
    } else if n.op.Inviting? || n.op.Acking? {
      StepStartsDial(s, e);
      if s.call.Some? {
        StepEndsCall(s, e);
        assert e.ByeEnds? ==> Ends(s, e).value.0 == s.op.id;
      } else {
        StepReachesNothingNew(s, e);
      }
    }
    hide Step, Enabled, CallValid, OpValid, Ends;
  }

  lemma StepReachesNothingNew(s: State, e: Event)
    requires Enabled(s, e) && s.call.None?
    ensures Step(s, e).call.Some? ==> e.Establish? && Step(s, e).op.Idle?
  {
    hide RecordEnd, BeginWait, CancelWait, EndWait, Strip;
  }

  lemma StepLeavesItsCall(s: State, e: Event)
    requires Exclusive(s) && Enabled(s, e)
    ensures InDialog(Step(s, e).op) && Step(s, e).call.Some? ==> Step(s, e).call.value == Step(s, e).op.id
  {
    hide BookValid, RecordEnd, BeginWait, CancelWait, EndWait, Strip, Trimmed;
  }

  lemma StepKeepsValid(s: State, e: Event)
    requires Valid(s) && Enabled(s, e)
    ensures Valid(Step(s, e))
  {
    StepKeepsBookValid(s, e);
    StepKeepsCallValid(s, e);
    StepKeepsOpValid(s, e);
    StepDialsAlone(s, e);
    StepLeavesItsCall(s, e);
    hide BookValid, CallValid, OpValid, Step, Enabled;
  }

  lemma {:induction false} RunKeepsValid(s: State, run: seq<Event>)
    requires Valid(s) && Possible(s, run)
    ensures Valid(Final(s, run))
    decreases |run|
  {
    if run == [] {
    } else {
      StepKeepsValid(s, run[0]);
      hide Valid, Step, Enabled;
      RunKeepsValid(Step(s, run[0]), run[1..]);
    }
  }

  lemma InitIsValid()
    ensures Valid(Init)
  {
  }

  // ----- scoping: an event ends the call it names, and no other -----

  /**
   * The active call is cleared if and only if the event ends that very call, and its reason is then
   * on record.  Otherwise it stays; in particular no other call is ever established over it.
   */
  lemma EndsExactlyTheCallItNames(s: State, e: Event)
    requires Valid(s) && s.call.Some? && Enabled(s, e)
    ensures var n := Step(s, e);
            var id := s.call.value;
            if Ends(s, e).Some? && Ends(s, e).value.0 == id then
              n.call == None && KnownEnd(n.book, id) == Some(Ends(s, e).value.1)
            else n.call == s.call
  {
    StripIsTrimmed(s.call.value);
    StepUpdatesBook(s, e);
    StepEndsCall(s, e);
    if Ends(s, e).Some? && Ends(s, e).value.0 == s.call.value {
      Remembers(s.book.table, s.call.value, Ends(s, e).value.1, REMEMBERED);
    }
    assert !e.Establish?;
    hide Step, Enabled, Ends, BookValid, Record, Resolve, Waiting, Strip;
  }

  /** A hangup scoped to another call than the active one does nothing at all. */
  lemma ScopedHangupSparesOthers(s: State, id: Id)
    requires Valid(s) && s.op.Idle? && s.call.Some?
    ensures Step(s, HangUp(Some(id))) == s <==> s.call.value != id
  {
  }

  // ----- every established call is accounted for -----

  /** Established, not active any more, and yet never ended. */
  ghost predicate Abandoned(s: State, id: Id) {
    id in s.history.reached && id !in s.history.ended && s.call != Some(id)
  }

  lemma StepAccounts(s: State, e: Event)
    requires Valid(s) && Enabled(s, e) && forall id :: !Abandoned(s, id)
    ensures forall id :: !Abandoned(Step(s, e), id)
  {
    var n := Step(s, e);
    StepUpdatesBook(s, e);
    StepReaches(s, e);
    if s.call.Some? {
      EndsExactlyTheCallItNames(s, e);
    }
    hide Valid, Step, Enabled, Ends;
    forall id ensures !Abandoned(n, id) {
      assert !Abandoned(s, id);
    }
  }

  lemma {:induction false} RunAccounts(s: State, run: seq<Event>)
    requires Valid(s) && Possible(s, run) && forall id :: !Abandoned(s, id)
    ensures forall id :: !Abandoned(Final(s, run), id)
    decreases |run|
  {
    if run == [] {
    } else {
      StepKeepsValid(s, run[0]);
      StepAccounts(s, run[0]);
      hide Valid, Step, Enabled, Abandoned;
      RunAccounts(Step(s, run[0]), run[1..]);
    }
  }

  /**
   * In every run: whatever call was ever established is the active one, or it has been ended with a
   * reason.  A replaced call whose hangup raises is no exception, for the dial behind it cannot get
   * through on a stream that has failed.
   */
  lemma EveryCallIsEnded(run: seq<Event>, id: Id)
    requires Possible(Init, run)
    ensures var s := Final(Init, run);
            id in s.history.reached ==> s.call == Some(id) || id in s.history.ended
  {
    InitIsValid();
    RunAccounts(Init, run);
    assert !Abandoned(Final(Init, run), id);
  }

  /** In every run, a call is established only while no other one is active. */
  lemma CallsNeverOverlap(run: seq<Event>)
    requires Possible(Init, run) && Enabled(Final(Init, run), Establish)
    ensures Final(Init, run).call == None
  {
    InitIsValid();
    RunKeepsValid(Init, run);
  }

  /** The state after connecting and setting up one call. */
  function Talking(id: Id): State {
    State(Some(id), None, true, false, 3, Idle, Empty,
          History([Sent(Invite, id, 2), Sent(Ack, id, 2)], {id}, {id}, {}, {}))
  }

  function SetUp(id: Id, more: seq<Event>): seq<Event> {
    [Connect] + ([Registered] + ([Dial(id)] + ([InviteAccepted] + ([Establish] + more))))
  }

  lemma SetUpRun(id: Id, more: seq<Event>)
    requires id != "" && Trimmed(id) && Possible(Talking(id), more)
    ensures Possible(Init, SetUp(id, more)) && Final(Init, SetUp(id, more)) == Final(Talking(id), more)
  {
    var s1 := Step(Init, Connect);
    var s2 := Step(s1, Registered);
    var s3 := Step(s2, Dial(id));
    var s4 := Step(s3, InviteAccepted);
    assert Step(s4, Establish) == Talking(id);
    hide Possible, Final, Step;
    Unroll(s4, Establish, more);
    Unroll(s3, InviteAccepted, [Establish] + more);
    Unroll(s2, Dial(id), [InviteAccepted] + ([Establish] + more));
    Unroll(s1, Registered, [Dial(id)] + ([InviteAccepted] + ([Establish] + more)));
    Unroll(Init, Connect, [Registered] + ([Dial(id)] + ([InviteAccepted] + ([Establish] + more))));
  }

  lemma EndOfRun(s: State)
    ensures Possible(s, []) && Final(s, []) == s
  {
  }

  // ----- no lost wakeup -----

  /** The reason given by the first event of the run that ends this call. */
  function FirstEnd(s: State, run: seq<Event>, id: Id): Option<Reason>
    requires Possible(s, run)
    decreases |run|
  {
    if run == [] then None
    else if Ends(s, run[0]).Some? && Ends(s, run[0]).value.0 == id then Some(Ends(s, run[0]).value.1)
    else FirstEnd(Step(s, run[0]), run[1..], id)
  }

  predicate NeverCancels(run: seq<Event>, waiter: nat) {
    forall i :: 0 <= i < |run| ==> run[i] != CancelWaiting(waiter)
  }

  lemma WaitingKeepsFutures(b: Book, id: Id, f: nat)
    requires f < |b.futures|
    ensures f < |BeginWait(b, id).futures| && BeginWait(b, id).futures[f] == b.futures[f]
  {
    hide Strip;
  }

  lemma StepWakes(s: State, e: Event, f: nat)
    requires Valid(s) && Enabled(s, e) && f < |s.book.futures| && e != CancelWaiting(f)
    ensures f < |Step(s, e).book.futures|
    ensures Step(s, e).book.futures[f] ==
      if s.book.futures[f].Pending? && Ends(s, e).Some? && Ends(s, e).value.0 == s.book.futures[f].id
      then Done(s.book.futures[f].id, Ends(s, e).value.1) else s.book.futures[f]
  {
    StepUpdatesBook(s, e);
    if Ends(s, e).Some? {
      EndWakesItsWaiters(s.book, Ends(s, e).value.0, Ends(s, e).value.1, f);
      ResolvingKeepsLength(s.book, Ends(s, e).value.0, Ends(s, e).value.1);
    } else if e.BeginWaiting? {
      WaitingKeepsFutures(s.book, e.id, f);
    }
    assert e.CancelWaiting? ==> e.waiter < |s.book.futures|;
    assert e.EndWaiting? ==> e.waiter < |s.book.futures|;
    hide Step, Ends, Enabled, Valid, RecordEnd, BeginWait;
  }

  lemma ResolvingKeepsLength(b: Book, id: Id, reason: Reason)
    ensures |RecordEnd(b, id, reason).futures| == |b.futures|
  {
  }

  /** A waiter that is not cancelled hears the first end of its call, whatever else happens. */
  lemma {:induction false} WaiterHearsTheFirstEnd(s: State, run: seq<Event>, f: nat)
    requires Valid(s) && Possible(s, run) && NeverCancels(run, f)
    requires f < |s.book.futures| && !s.book.futures[f].Cancelled?
    ensures f < |Final(s, run).book.futures|
    ensures Final(s, run).book.futures[f] ==
      var was := s.book.futures[f];
      if was.Pending? && FirstEnd(s, run, was.id).Some? then Done(was.id, FirstEnd(s, run, was.id).value) else was
    decreases |run|
  {
    if run == [] {
    } else {
      assert run[0] != CancelWaiting(f);
      assert forall i :: 0 <= i < |run[1..]| ==> run[1..][i] == run[i + 1];
      StepKeepsValid(s, run[0]);
      StepWakes(s, run[0], f);
      hide Valid, Step, Enabled, Ends;
      WaiterHearsTheFirstEnd(Step(s, run[0]), run[1..], f);
    }
  }

  /** In every run: nobody waits for a call whose end is remembered, and at most 32 ends are. */
  lemma NobodyWaitsForARememberedEnd(run: seq<Event>, f: nat)
    requires Possible(Init, run) && f < |Final(Init, run).book.futures|
    ensures var b := Final(Init, run).book;
            && (b.futures[f].Pending? ==> b.futures[f].id !in b.table.values && f in Waiting(b, b.futures[f].id))
            && |b.table.order| <= 32 && NoDup(b.table.order)
  {
    InitIsValid();
    RunKeepsValid(Init, run);
  }

  // ----- how long a reason is remembered -----

  function EndsOf(s: State, run: seq<Event>): seq<(Id, Reason)>
    requires Possible(s, run)
    decreases |run|
  {
    if run == [] then []
    else (if Ends(s, run[0]).Some? then [Ends(s, run[0]).value] else []) + EndsOf(Step(s, run[0]), run[1..])
  }

  lemma RecordAllFirst(t: Reasons, first: (Id, Reason), rest: seq<(Id, Reason)>)
    ensures RememberAll(t, [first] + rest, REMEMBERED) == RememberAll(Record(t, first.0, first.1), rest, REMEMBERED)
  {
    assert ([first] + rest)[1..] == rest;
  }

  lemma StepUpdatesTable(s: State, e: Event)
    requires CallValid(s) && OpValid(s) && Enabled(s, e)
    ensures Step(s, e).book.table ==
      if Ends(s, e).Some? then Record(s.book.table, Ends(s, e).value.0, Ends(s, e).value.1) else s.book.table
  {
    StepUpdatesBook(s, e);
    hide CallValid, OpValid, Step, Enabled, Ends, Record, Resolve, Waiting, Strip;
  }

  lemma {:induction false} TableListsTheEnds(s: State, run: seq<Event>)
    requires Valid(s) && Possible(s, run)
    ensures Final(s, run).book.table == RememberAll(s.book.table, EndsOf(s, run), REMEMBERED)
    decreases |run|
  {
    if run == [] {
    } else {
      StepKeepsValid(s, run[0]);
      StepUpdatesTable(s, run[0]);
      hide Valid, Step, Enabled, Ends, Record, RememberAll;
      TableListsTheEnds(Step(s, run[0]), run[1..]);
      var rest := EndsOf(Step(s, run[0]), run[1..]);
      if Ends(s, run[0]).Some? {
        RecordAllFirst(s.book.table, Ends(s, run[0]).value, rest);
      } else {
        assert [] + rest == rest;
      }
    }
  }

  /**
   * Over any run without a second end of that call, its reason is kept exactly as long as fewer than
   * 32 calls are newer.
   */
  lemma ReasonSurvivesExactly(s: State, run: seq<Event>, i: nat)
    requires Valid(s) && Possible(s, run) && i < |s.book.table.order|
    requires !Mentions(EndsOf(s, run), s.book.table.order[i])
    ensures var (t, after) := (s.book.table, Final(s, run).book.table.values);
            if Insertions(t, EndsOf(s, run), 32) <= i + 32 - |t.order|
            then t.order[i] in after && t.order[i] in t.values && after[t.order[i]] == t.values[t.order[i]]
            else t.order[i] !in after
  {
    TableListsTheEnds(s, run);
    SurvivesExactly(s.book.table, i, EndsOf(s, run), REMEMBERED);
  }

  // ----- the connection and the counter, read off the events of a run alone -----

  lemma {:induction false} FrontIsPossible(s: State, run: seq<Event>)
    requires Possible(s, run) && run != []
    ensures Possible(s, run[..|run| - 1]) && Enabled(Final(s, run[..|run| - 1]), run[|run| - 1])
    ensures Final(s, run) == Step(Final(s, run[..|run| - 1]), run[|run| - 1])
    decreases |run|
  {
    if |run| > 1 {
      assert run[..|run| - 1][1..] == run[1..][..|run| - 2];
      hide Step, Enabled;
      FrontIsPossible(Step(s, run[0]), run[1..]);
    } else {
      assert run[1..] == [] && run[..0] == [];
    }
  }

  /** A connection was made, and no reset has come since. */
  predicate Connected(run: seq<Event>) {
    run != [] && (run[|run| - 1].Connect? || (!Resets(run[|run| - 1]) && Connected(run[..|run| - 1])))
  }

  predicate Advances(e: Event) {
    e.RegisterChallenged? || e.Registered? || e.InviteChallenged? || e.Establish? || e.SetupFails? || e.SendCompletes?
  }

  /** One, and one more for every event since the connection that completes a request. */
  function CounterAfter(run: seq<Event>): nat {
    if run == [] then 0
    else if run[|run| - 1].Connect? then 1
    else CounterAfter(run[..|run| - 1]) + if Advances(run[|run| - 1]) then 1 else 0
  }

  lemma StepConnects(s: State, e: Event)
    requires Enabled(s, e)
    ensures Step(s, e).open <==> e.Connect? || (!Resets(e) && s.open)
  {
    hide RecordEnd, BeginWait, CancelWait, EndWait, Strip, Forget;
  }

  lemma StepAdvances(s: State, e: Event)
    requires Enabled(s, e)
    ensures Step(s, e).cseq == if e.Connect? then 1 else s.cseq + (if Advances(e) then 1 else 0)
  {
    hide RecordEnd, BeginWait, CancelWait, EndWait, Strip, Forget;
  }

  /**
   * Over every run: there is a connection if and only if one was made and not reset since, and the
   * counter is what the events since then make it.
   */
  lemma {:induction false} ConnectionExactly(run: seq<Event>)
    requires Possible(Init, run)
    ensures Final(Init, run).open <==> Connected(run)
    ensures Final(Init, run).cseq == CounterAfter(run)
    decreases |run|
  {
    if run == [] {
    } else {
      FrontIsPossible(Init, run);
      StepConnects(Final(Init, run[..|run| - 1]), run[|run| - 1]);
      StepAdvances(Final(Init, run[..|run| - 1]), run[|run| - 1]);
      ConnectionExactly(run[..|run| - 1]);
      hide Possible, Final, Step, Enabled;
    }
  }

  /** After a reset the dialer can connect again at once, and it is rid of everything about the old connection. */
  lemma ResetMakesReconnectable(s: State, e: Event)
    requires Valid(s) && Enabled(s, e) && Resets(e)
    ensures var n := Step(s, e);
            && Enabled(n, Connect) && !n.broken && n.call == None && n.cseq == s.cseq
            && (s.call.None? ==> n.pending == None)
            && (s.call.Some? ==> KnownEnd(n.book, s.call.value) == Some(ConnectionReset))
  {
    StepConnects(s, e);
    StepAdvances(s, e);
    ResettingClears(s, e);
    ResettingEndsCall(s, e);
    if s.call.Some? {
      EndsExactlyTheCallItNames(s, e);
    } else {
      ResettingNobody(s, e);
    }
    hide Step, Valid;
  }

  lemma ResettingNobody(s: State, e: Event)
    requires Enabled(s, e) && Resets(e) && s.call.None?
    ensures Step(s, e).pending == None
  {
  }
}
