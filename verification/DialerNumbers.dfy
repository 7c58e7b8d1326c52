// The CSeq numbers of the requests the dialer writes, dialog by dialog, over whole runs.
module DialerNumbers {
  import opened Prelude
  import opened Text
  import opened RecentTable
  import opened CallEnds
  import opened Dialer

  // ----- numbers in a log of requests -----

  /** Requests that take a number of their own: all but ACK. */
  predicate Counts(r: Sent, id: Id) {
    r.id == id && !r.verb.Ack?
  }

  ghost predicate Below(sent: seq<Sent>, id: Id, n: nat) {
    forall i :: 0 <= i < |sent| && Counts(sent[i], id) ==> sent[i].cseq < n
  }

  ghost predicate Increasing(sent: seq<Sent>, id: Id) {
    forall i, j :: 0 <= i < j < |sent| && Counts(sent[i], id) && Counts(sent[j], id) ==> sent[i].cseq < sent[j].cseq
  }

  function LastInvite(sent: seq<Sent>, id: Id): Option<nat>
    decreases |sent|
  {
    if sent == [] then None
    else
      var last := sent[|sent| - 1];
      if last.verb.Invite? && last.id == id then Some(last.cseq) else LastInvite(sent[..|sent| - 1], id)
  }

  /** Every ACK carries the number of its dialog's latest INVITE. */
  ghost predicate AcksReuse(sent: seq<Sent>) {
    forall j :: 0 <= j < |sent| && sent[j].verb.Ack? ==> LastInvite(sent[..j], sent[j].id) == Some(sent[j].cseq)
  }

  lemma BelowAppend(sent: seq<Sent>, r: Sent, id: Id, n: nat)
    ensures Below(sent + [r], id, n) <==> Below(sent, id, n) && (Counts(r, id) ==> r.cseq < n)
  {
    var longer := sent + [r];
    assert longer[|sent|] == r;
    if Below(longer, id, n) {
      forall i | 0 <= i < |sent| && Counts(sent[i], id) ensures sent[i].cseq < n {
        assert longer[i] == sent[i];
      }
    }
  }

  lemma IncreasingAppend(sent: seq<Sent>, r: Sent, id: Id)
    ensures Increasing(sent + [r], id) <==> Increasing(sent, id) && (Counts(r, id) ==> Below(sent, id, r.cseq))
  {
    var longer := sent + [r];
    assert longer[|sent|] == r;
    if Increasing(longer, id) {
      forall i, j | 0 <= i < j < |sent| && Counts(sent[i], id) && Counts(sent[j], id)
        ensures sent[i].cseq < sent[j].cseq
      {
        assert longer[i] == sent[i] && longer[j] == sent[j];
      }
      if Counts(r, id) {
        forall i | 0 <= i < |sent| && Counts(sent[i], id) ensures sent[i].cseq < r.cseq {
          assert longer[i] == sent[i];
        }
      }
    }
  }

  lemma AcksAppend(sent: seq<Sent>, r: Sent)
    requires AcksReuse(sent) && (r.verb.Ack? ==> LastInvite(sent, r.id) == Some(r.cseq))
    ensures AcksReuse(sent + [r])
  {
    var longer := sent + [r];
    forall j | 0 <= j < |longer| && longer[j].verb.Ack?
      ensures LastInvite(longer[..j], longer[j].id) == Some(longer[j].cseq)
    {
      if j < |sent| {
        assert longer[..j] == sent[..j];
      } else {
        assert longer[..j] == sent;
      }
    }
  }

  lemma LastInviteAppend(sent: seq<Sent>, r: Sent, id: Id)
    ensures LastInvite(sent + [r], id) ==
      if r.verb.Invite? && r.id == id then Some(r.cseq) else LastInvite(sent, id)
  {
    assert (sent + [r])[..|sent|] == sent;
  }

  // ----- what one step writes -----

  function WrittenByStartBye(s: State, next: Option<Id>): Option<Sent> {
    if s.call.None? || !s.open then
      if next.Some? && s.open then Some(Sent(Invite, next.value, s.cseq)) else None
    else Some(Sent(Bye, s.call.value, s.cseq))
  }

  function Written(s: State, e: Event): Option<Sent>
    requires Enabled(s, e)
  {
    match e
    case Dial(id) => WrittenByStartBye(s, Some(id))
    case HangUp(scope) => if OutOfScope(s, scope) then None else WrittenByStartBye(s, None)
    case InviteChallenged => Some(Sent(Invite, s.op.id, s.cseq + 1))
    case InviteAccepted => Some(Sent(Ack, s.op.id, s.op.cseq))
    case SetupFails => Some(Sent(Bye, s.op.id, s.cseq))
    case SendMessage => Some(Sent(Message, s.call.value, s.cseq))
    case MessageChallenged => Some(Sent(Message, s.op.id, s.cseq))
    case ByeEnds => if s.op.next.Some? && s.open then Some(Sent(Invite, s.op.next.value, s.cseq)) else None
    case HangupRaises => if s.op.next.Some? && s.open then Some(Sent(Invite, s.op.next.value, s.cseq)) else None
    case _ => None
  }

  function Log(s: State, e: Event): seq<Sent>
    requires Enabled(s, e)
  {
    if Written(s, e).Some? then s.history.sent + [Written(s, e).value] else s.history.sent
  }

  lemma StepWrites(s: State, e: Event)
    requires Enabled(s, e)
    ensures Step(s, e).history.sent == Log(s, e)
  {
    hide RecordEnd, BeginWait, CancelWait, EndWait, Strip, Trimmed;
  }

  /** A request of an established dialog, written although the dialog has used its number already. */
  ghost predicate Reuses(s: State, e: Event)
    requires Enabled(s, e)
  {
    var r := Written(s, e);
    r.Some? && r.value.id in s.history.reached && !Below(s.history.sent, r.value.id, r.value.cseq)
  }

  // ----- invariants -----

  /** No number beyond the counter has been used by the calls that may still send. */
  ghost predicate Bounded(s: State) {
    && (forall i :: 0 <= i < |s.history.sent| ==> s.history.sent[i].id in s.history.dialed)
    && (s.call.Some? ==> Below(s.history.sent, s.call.value, s.cseq + 1))
    && (HasId(s.op) ==> Below(s.history.sent, s.op.id, s.cseq + 1))
  }

  predicate HasId(op: Op) {
    !op.Idle? && !op.Registering?
  }

  ghost predicate InviteNumbered(s: State) {
    && ((s.op.Inviting? || s.op.Acking?) ==> Increasing(s.history.sent, s.op.id))
    && (s.op.Inviting? ==> LastInvite(s.history.sent, s.op.id) == Some(s.op.cseq))
    && AcksReuse(s.history.sent)
  }

  ghost predicate AllIncreasing(s: State) {
    forall id :: id in s.history.reached ==> Increasing(s.history.sent, id)
  }

  lemma NewIdIsUnused(s: State, id: Id)
    requires Bounded(s) && id !in s.history.dialed
    ensures Increasing(s.history.sent, id) && forall n :: Below(s.history.sent, id, n)
  {
  }

  lemma LogBound(s: State, e: Event, id: Id, n: nat)
    requires Enabled(s, e)
    requires Below(s.history.sent, id, n)
    requires Written(s, e).Some? && Counts(Written(s, e).value, id) ==> Written(s, e).value.cseq < n
    ensures Below(Log(s, e), id, n)
  {
    if Written(s, e).Some? {
      BelowAppend(s.history.sent, Written(s, e).value, id, n);
    }
  }

  /** The call after a step is the one of before or the one being set up. */
  lemma StepMovesCall(s: State, e: Event)
    requires OpValid(s) && CallValid(s) && Enabled(s, e)
    ensures var n := Step(s, e);
            n.call.Some? ==> (n.call == s.call || (e.Establish? && n.call.value == s.op.id)) && !e.Connect?
  {
    hide BookValid, RecordEnd, BeginWait, CancelWait, EndWait, Strip, Trimmed;
  }

  lemma StepCounts(s: State, e: Event)
    requires Enabled(s, e) && !e.Connect?
    ensures Step(s, e).cseq >= s.cseq
    ensures s.history.dialed <= Step(s, e).history.dialed
  {
    hide BookValid, RecordEnd, BeginWait, CancelWait, EndWait, Strip, Trimmed;
  }

  /** The operation after a step concerns the same call, the active call, or a new one. */
  lemma StepMovesOp(s: State, e: Event)
    requires OpValid(s) && Enabled(s, e)
    ensures var n := Step(s, e);
            HasId(n.op) ==> || (HasId(s.op) && n.op.id == s.op.id)
                            || s.call == Some(n.op.id)
                            || n.op.id !in s.history.dialed
  {
    hide BookValid, RecordEnd, BeginWait, CancelWait, EndWait, Strip, Trimmed;
  }

  lemma WrittenIsCounted(s: State, e: Event)
    requires OpValid(s) && CallValid(s) && Enabled(s, e) && Written(s, e).Some?
    ensures Written(s, e).value.cseq <= Step(s, e).cseq
    ensures Written(s, e).value.id in Step(s, e).history.dialed
  {
    hide BookValid, RecordEnd, BeginWait, CancelWait, EndWait, Strip, Trimmed;
  }

  lemma BelowWeaken(sent: seq<Sent>, id: Id, m: nat, n: nat)
    requires Below(sent, id, m) && m <= n
    ensures Below(sent, id, n)
  {
  }

  lemma StillBelow(s: State, e: Event, id: Id)
    requires Enabled(s, e) && !e.Connect? && Below(s.history.sent, id, s.cseq + 1)
    requires Written(s, e).Some? ==> Written(s, e).value.cseq <= Step(s, e).cseq
    ensures Below(Step(s, e).history.sent, id, Step(s, e).cseq + 1)
  {
    StepWrites(s, e);
    StepCounts(s, e);
    hide Step, Enabled, Written, Below;
    BelowWeaken(s.history.sent, id, s.cseq + 1, Step(s, e).cseq + 1);
    LogBound(s, e, id, Step(s, e).cseq + 1);
  }

  lemma NewIsBelow(s: State, e: Event, id: Id)
    requires Bounded(s) && Enabled(s, e) && id !in s.history.dialed
    requires Written(s, e).Some? ==> Written(s, e).value.cseq <= Step(s, e).cseq
    ensures Below(Step(s, e).history.sent, id, Step(s, e).cseq + 1)
  {
    StepWrites(s, e);
    NewIdIsUnused(s, id);
    hide Step, Enabled, Written, Below;
    LogBound(s, e, id, Step(s, e).cseq + 1);
  }

  lemma StepDials(s: State, e: Event)
    requires OpValid(s) && CallValid(s) && Bounded(s) && Enabled(s, e) && !e.Connect?
    ensures var n := Step(s, e);
            forall i :: 0 <= i < |n.history.sent| ==> n.history.sent[i].id in n.history.dialed
  {
    StepWrites(s, e);
    StepCounts(s, e);
    if Written(s, e).Some? {
      WrittenIsCounted(s, e);
    }
    hide Step, Enabled, Written, Below;
  }

  lemma StepKeepsBounded(s: State, e: Event)
    requires Valid(s) && Bounded(s) && Enabled(s, e)
    ensures Bounded(Step(s, e))
  {
    var n := Step(s, e);
    if e.Connect? {
      assert n.history == s.history && !HasId(n.op) && n.call.None?;
      return;
    }
    StepDials(s, e);
    StepMovesCall(s, e);
    StepMovesOp(s, e);
    if Written(s, e).Some? {
      WrittenIsCounted(s, e);
    }
    hide Valid, Step, Enabled, Written, Below;
    if n.call.Some? {
      StillBelow(s, e, n.call.value);
    }
    if HasId(n.op) {
      if n.op.id in s.history.dialed {
        StillBelow(s, e, n.op.id);
      } else {
        NewIsBelow(s, e, n.op.id);
      }
    }
  }

  /** How an INVITE under way comes about. */
  lemma StepInvites(s: State, e: Event)
    requires OpValid(s) && Enabled(s, e)
    ensures var n := Step(s, e);
            && (n.op.Inviting? ==>
                  || (n.op == s.op && Written(s, e).None?)
                  || (s.op.Inviting? && n.op.id == s.op.id && Written(s, e) == Some(Sent(Invite, n.op.id, s.cseq + 1))
                      && n.op.cseq == s.cseq + 1)
                  || (n.op.id !in s.history.dialed && Written(s, e) == Some(Sent(Invite, n.op.id, n.op.cseq))))
            && (n.op.Acking? ==>
                  || (n.op == s.op && Written(s, e).None?)
                  || (s.op.Inviting? && n.op.id == s.op.id && Written(s, e) == Some(Sent(Ack, s.op.id, s.op.cseq))))
            && (Written(s, e).Some? && Written(s, e).value.verb.Ack? ==>
                  s.op.Inviting? && Written(s, e) == Some(Sent(Ack, s.op.id, s.op.cseq)))
  {
    hide RecordEnd, BeginWait, CancelWait, EndWait, Strip, Trimmed;
  }

  lemma StepKeepsInviteNumbered(s: State, e: Event)
    requires Valid(s) && Bounded(s) && InviteNumbered(s) && Enabled(s, e)
    ensures InviteNumbered(Step(s, e))
  {
    var n := Step(s, e);
    StepWrites(s, e);
    StepInvites(s, e);
    hide Valid, Step, Enabled, Written, Below, Increasing, AcksReuse, LastInvite;
    if Written(s, e).Some? {
      var w := Written(s, e).value;
      AcksAppend(s.history.sent, w);
      if n.op.Inviting? || n.op.Acking? {
        LastInviteAppend(s.history.sent, w, n.op.id);
        IncreasingAppend(s.history.sent, w, n.op.id);
        if n.op.id !in s.history.dialed {
          NewIdIsUnused(s, n.op.id);
        }
      }
    }
  }

  lemma StepIncreases(s: State, e: Event)
    requires Valid(s) && Bounded(s) && InviteNumbered(s) && Enabled(s, e)
    ensures AllIncreasing(Step(s, e)) <==> AllIncreasing(s) && !Reuses(s, e)
  {
    var n := Step(s, e);
    StepWrites(s, e);
    StepReaches(s, e);
    StepInvites(s, e);
    assert Written(s, e).Some? && Written(s, e).value.verb.Ack? ==> s.op.id !in s.history.reached;
    assert e.Establish? ==> Written(s, e).None?;
    hide Valid, Step, Enabled, Written, Below, Increasing, AcksReuse, LastInvite;
    var (was, log) := (s.history.sent, n.history.sent);
    if Written(s, e).Some? {
      forall id ensures Increasing(log, id) <==>
        Increasing(was, id) && (Counts(Written(s, e).value, id) ==> Below(was, id, Written(s, e).value.cseq))
      {
        IncreasingAppend(was, Written(s, e).value, id);
      }
    }
    if AllIncreasing(n) {
      forall id | id in s.history.reached ensures Increasing(was, id) {
        assert id in n.history.reached;
      }
    }
    if AllIncreasing(s) && !Reuses(s, e) {
      forall id | id in n.history.reached ensures Increasing(log, id) {
        if id in s.history.reached {
          assert Increasing(was, id);
        }
      }
    }
  }

  // ----- the requests that repeat a number -----

  /** The established dialog in which an event starts a request of its own. */
  function Starts(s: State, e: Event): Option<Id>
    requires Enabled(s, e)
  {
    match e
    case Dial(_) => if s.open then s.call else None
    case HangUp(scope) => if s.open && !OutOfScope(s, scope) then s.call else None
    case SendMessage => s.call
    case _ => None
  }

  /** The counter still has the number of a request of this dialog that was cut short. */
  predicate Repeats(s: State, e: Event)
    requires Enabled(s, e)
  {
    Starts(s, e).Some? && (Starts(s, e).value, s.cseq) in s.history.cuts
  }

  ghost predicate CutsBounded(s: State, id: Id) {
    forall n: nat :: (id, n) in s.history.cuts ==> n <= s.cseq
  }

  /** A dialog that may still send has used the counter's number if and only if a cut request did. */
  ghost predicate CutsExact(s: State) {
    && (forall id, n: nat :: (id, n) in s.history.cuts ==> id in s.history.reached)
    && (s.call.Some? ==> CutsBounded(s, s.call.value))
    && (HasId(s.op) ==> CutsBounded(s, s.op.id))
    && (s.call.Some? && !Sending(s.op) ==>
          (Below(s.history.sent, s.call.value, s.cseq) <==> (s.call.value, s.cseq) !in s.history.cuts))
    && (InDialog(s.op) ==> (Below(s.history.sent, s.op.id, s.cseq) <==> !Sending(s.op)))
  }

  lemma ReusesIffRepeats(s: State, e: Event)
    requires Valid(s) && CutsExact(s) && Enabled(s, e)
    ensures Reuses(s, e) <==> Repeats(s, e)
  {
    hide BookValid, Below;
  }

  // ----- cuts over one step -----

  function CutsAfter(s: State, e: Event): set<(Id, nat)> {
    if (e.Interrupted? || e.HangupRaises?) && Sending(s.op)
    then s.history.cuts + {(s.op.id, s.cseq)} else s.history.cuts
  }

  lemma StepCuts(s: State, e: Event)
    requires Enabled(s, e)
    ensures Step(s, e).history.cuts == CutsAfter(s, e)
  {
    hide RecordEnd, BeginWait, CancelWait, EndWait, Strip, Trimmed, Forget;
  }

  lemma StepCutsReached(s: State, e: Event)
    requires OpValid(s) && CutsExact(s) && Enabled(s, e)
    ensures forall id, n: nat :: (id, n) in Step(s, e).history.cuts ==> id in Step(s, e).history.reached
  {
    StepCuts(s, e);
    StepReaches(s, e);
    hide Step, Enabled, Below;
  }

  lemma StepKeepsCutsBounded(s: State, e: Event, id: Id)
    requires CutsBounded(s, id) && Enabled(s, e) && !e.Connect?
    ensures CutsBounded(Step(s, e), id)
  {
    StepCuts(s, e);
    StepCounts(s, e);
    hide Step, Enabled;
  }

  lemma NewIdIsUncut(s: State, e: Event, id: Id)
    requires OpValid(s) && CallValid(s) && CutsExact(s) && Enabled(s, e) && id !in s.history.dialed
    ensures CutsBounded(Step(s, e), id)
  {
    StepCuts(s, e);
    hide Step, Enabled, Below;
  }

  lemma StepCutsBounded(s: State, e: Event)
    requires Valid(s) && CutsExact(s) && Enabled(s, e)
    ensures var n := Step(s, e);
            && (n.call.Some? ==> CutsBounded(n, n.call.value))
            && (HasId(n.op) ==> CutsBounded(n, n.op.id))
  {
    var n := Step(s, e);
    StepMovesCall(s, e);
    StepMovesOp(s, e);
    assert e.Connect? ==> !HasId(n.op);
    hide Valid, Step, Enabled, CutsBounded, Below;
    if n.call.Some? {
      StepKeepsCutsBounded(s, e, n.call.value);
    }
    if HasId(n.op) {
      if n.op.id in s.history.dialed {
        StepKeepsCutsBounded(s, e, n.op.id);
      } else {
        assert OpValid(s) && CallValid(s) by { ValidParts(s); }
        NewIdIsUncut(s, e, n.op.id);
      }
    }
  }

  lemma ValidParts(s: State)
    requires Valid(s)
    ensures OpValid(s) && CallValid(s) && Exclusive(s)
  {
  }

  /** The ways in which a call that is in the middle of no send got there. */
  lemma CallSettles(s: State, e: Event, id: Id)
    requires OpValid(s) && CallValid(s) && Exclusive(s) && Enabled(s, e)
    requires !Sending(Step(s, e).op) && Step(s, e).call == Some(id)
    ensures || (e.Establish? && s.op.id == id)
            || (s.call == Some(id) && e.SendCompletes? && s.op.id == id)
            || (s.call == Some(id) && (e.Interrupted? || e.HangupRaises?) && Sending(s.op) && s.op.id == id)
            || (s.call == Some(id) && !Sending(s.op))
    ensures Step(s, e).cseq == s.cseq || Step(s, e).cseq == s.cseq + 1
    ensures e.SendCompletes? || e.Establish? ==> Step(s, e).cseq == s.cseq + 1
    ensures e.Interrupted? || e.HangupRaises? ==> Step(s, e).cseq == s.cseq
  {
    StepMovesCall(s, e);
    StepCountsByOne(s, e);
    if Sending(s.op) {
      SendingStops(s, e);
    }
    hide Step, Enabled;
  }

  lemma StepCountsByOne(s: State, e: Event)
    requires Enabled(s, e) && !e.Connect?
    ensures Step(s, e).cseq == s.cseq || Step(s, e).cseq == s.cseq + 1
    ensures e.SendCompletes? || e.Establish? ==> Step(s, e).cseq == s.cseq + 1
    ensures e.Interrupted? || e.HangupRaises? ==> Step(s, e).cseq == s.cseq
  {
    hide RecordEnd, BeginWait, CancelWait, EndWait, Strip, Trimmed, Forget;
  }

  lemma SendingStays(s: State, e: Event)
    requires Sending(s.op) && Enabled(s, e)
    requires !e.Interrupted? && !e.HangupRaises? && !e.SendCompletes? && !e.SendBreaks?
    ensures Step(s, e).op == s.op
  {
    hide RecordEnd, BeginWait, CancelWait, EndWait, Strip, Forget;
  }

  lemma SendingStops(s: State, e: Event)
    requires CallValid(s) && OpValid(s) && Sending(s.op) && Enabled(s, e) && !Sending(Step(s, e).op)
    ensures e.SendCompletes? || e.Interrupted? || e.HangupRaises? || Step(s, e).call.None?
  {
    if e.SendBreaks? {
      ResettingEndsCall(s, e);
    } else if !e.SendCompletes? && !e.Interrupted? && !e.HangupRaises? {
      SendingStays(s, e);
    }
    hide CallValid, OpValid, RecordEnd, BeginWait, CancelWait, EndWait, Strip, ResetConnection;
  }

  lemma SettledIsNotWritten(s: State, e: Event, id: Id)
    requires OpValid(s) && CallValid(s) && Enabled(s, e)
    requires !Sending(Step(s, e).op) && Step(s, e).call == Some(id)
    ensures Written(s, e).Some? ==> Written(s, e).value.id != id
  {
    hide BookValid, RecordEnd, BeginWait, CancelWait, EndWait, Strip, Trimmed;
  }

  /** Writing for other dialogs changes nothing in this one. */
  lemma OthersWrite(s: State, e: Event, id: Id, n: nat)
    requires Enabled(s, e) && (Written(s, e).Some? ==> Written(s, e).value.id != id)
    ensures Below(Step(s, e).history.sent, id, n) <==> Below(s.history.sent, id, n)
  {
    StepWrites(s, e);
    if Written(s, e).Some? {
      BelowAppend(s.history.sent, Written(s, e).value, id, n);
    }
    hide Step, Enabled, Written, Below;
  }

  lemma CallStaysExact(s: State, e: Event, id: Id)
    requires Valid(s) && Bounded(s) && CutsExact(s) && Enabled(s, e)
    requires !Sending(Step(s, e).op) && Step(s, e).call == Some(id)
    ensures var n := Step(s, e); Below(n.history.sent, id, n.cseq) <==> (id, n.cseq) !in n.history.cuts
  {
    var n := Step(s, e);
    CallSettles(s, e, id);
    SettledIsNotWritten(s, e, id);
    OthersWrite(s, e, id, n.cseq);
    StepCuts(s, e);
    assert e.Establish? ==> id !in s.history.reached && HasId(s.op);
    assert e.SendCompletes? ==> HasId(s.op);
    hide Valid, Step, Enabled, Written, Below;
    if n.cseq == s.cseq + 1 {
      assert Below(s.history.sent, id, s.cseq + 1);
      assert (id, s.cseq + 1) !in s.history.cuts;
    }
  }

  /** How an in-dialog operation comes about. */
  lemma StepSends(s: State, e: Event)
    requires OpValid(s) && Enabled(s, e) && InDialog(Step(s, e).op)
    ensures var n := Step(s, e);
            || (n.op == s.op && Written(s, e).None? && n.cseq == s.cseq)
            || (Sending(n.op) && Written(s, e).Some? &&
                Counts(Written(s, e).value, n.op.id) && Written(s, e).value.cseq == n.cseq)
            || (Sending(s.op) && !Sending(n.op) && n.op.id == s.op.id && n.cseq == s.cseq + 1 && Written(s, e).None?)
  {
    hide RecordEnd, BeginWait, CancelWait, EndWait, Strip, Trimmed, Forget;
  }

  lemma OpStaysExact(s: State, e: Event)
    requires Valid(s) && Bounded(s) && CutsExact(s) && Enabled(s, e) && InDialog(Step(s, e).op)
    ensures var n := Step(s, e); Below(n.history.sent, n.op.id, n.cseq) <==> !Sending(n.op)
  {
    var n := Step(s, e);
    StepSends(s, e);
    StepWrites(s, e);
    if Written(s, e).Some? {
      BelowAppend(s.history.sent, Written(s, e).value, n.op.id, n.cseq);
    }
    hide Valid, Step, Enabled, Written, Below;
  }

  lemma StepKeepsCutsExact(s: State, e: Event)
    requires Valid(s) && Bounded(s) && CutsExact(s) && Enabled(s, e)
    ensures CutsExact(Step(s, e))
  {
    var n := Step(s, e);
    StepCutsReached(s, e);
    StepCutsBounded(s, e);
    if n.call.Some? && !Sending(n.op) {
      CallStaysExact(s, e, n.call.value);
    }
    if InDialog(n.op) {
      OpStaysExact(s, e);
    }
    hide Valid, Bounded, Step, Enabled, CutsBounded, Below;
  }

  // ----- whole runs -----

  ghost predicate Numbered(s: State) {
    Valid(s) && Bounded(s) && InviteNumbered(s) && CutsExact(s)
  }

  predicate NeverRepeats(s: State, run: seq<Event>)
    requires Possible(s, run)
    decreases |run|
  {
    run == [] || (!Repeats(s, run[0]) && NeverRepeats(Step(s, run[0]), run[1..]))
  }

  lemma StepKeepsNumbered(s: State, e: Event)
    requires Numbered(s) && Enabled(s, e)
    ensures Numbered(Step(s, e))
  {
    StepKeepsValid(s, e);
    StepKeepsBounded(s, e);
    StepKeepsInviteNumbered(s, e);
    StepKeepsCutsExact(s, e);
    hide Valid, Bounded, InviteNumbered, CutsExact, Step, Enabled;
  }

  lemma {:induction false} RunNumbers(s: State, run: seq<Event>)
    requires Numbered(s) && Possible(s, run)
    ensures Numbered(Final(s, run))
    ensures AllIncreasing(Final(s, run)) <==> AllIncreasing(s) && NeverRepeats(s, run)
    decreases |run|
  {
    if run == [] {
    } else {
      StepKeepsNumbered(s, run[0]);
      StepIncreases(s, run[0]);
      ReusesIffRepeats(s, run[0]);
      hide Numbered, Step, Enabled, Reuses, Repeats, AllIncreasing;
      RunNumbers(Step(s, run[0]), run[1..]);
    }
  }

  lemma RunIsNumbered(run: seq<Event>)
    requires Possible(Init, run)
    ensures Numbered(Final(Init, run))
  {
    InitIsNumbered();
    RunNumbers(Init, run);
  }

  /** The log has grown by one request, whose number its dialog has not used before. */
  ghost predicate NewNumber(before: seq<Sent>, after: seq<Sent>) {
    |after| == |before| + 1 && after[..|before|] == before &&
    Below(before, after[|before|].id, after[|before|].cseq)
  }

  /** Every request but an ACK and the BYE of a failed setup takes a new number, unless it repeats a cut one. */
  lemma WritesNewNumber(s: State, e: Event)
    requires Numbered(s) && Enabled(s, e) && !Repeats(s, e) && !e.InviteAccepted? && !e.SetupFails?
    ensures Written(s, e).Some? ==> NewNumber(s.history.sent, Step(s, e).history.sent)
  {
    StepWrites(s, e);
    ReusesIffRepeats(s, e);
    if Written(s, e).Some? {
      var w := Written(s, e).value;
      if w.id !in s.history.dialed {
        NewIdIsUnused(s, w.id);
      } else {
        WrittenIsKnown(s, e);
      }
      assert (s.history.sent + [w])[..|s.history.sent|] == s.history.sent;
    }
    hide Valid, Step, Enabled, Written, Below;
  }

  lemma WrittenIsKnown(s: State, e: Event)
    requires Valid(s) && Enabled(s, e) && Written(s, e).Some? && !e.InviteAccepted? && !e.SetupFails?
    ensures var w := Written(s, e).value;
            || w.id !in s.history.dialed
            || w.id in s.history.reached
            || (s.op.Inviting? && w.id == s.op.id && w.cseq == s.cseq + 1)
  {
    hide BookValid;
  }

  lemma InitIsNumbered()
    ensures Numbered(Init) && AllIncreasing(Init)
  {
    InitIsValid();
  }

  /**
   * Over every run, within each dialog that was ever established, the numbers of INVITE, MESSAGE and
   * BYE strictly increase if and only if no dial, hangup or message starts a request in a dialog
   * while the counter still has the number of a request that was cut short there.  And every ACK
   * carries the number of its dialog's latest INVITE.
   */
  lemma NumbersIncreaseExactly(run: seq<Event>)
    requires Possible(Init, run)
    ensures (forall id :: id in Final(Init, run).history.reached ==> Increasing(Final(Init, run).history.sent, id)) <==>
            NeverRepeats(Init, run)
    ensures AcksReuse(Final(Init, run).history.sent)
  {
    InitIsNumbered();
    RunNumbers(Init, run);
  }

  // ----- no connection, no request -----

  lemma WritingNeedsConnection(s: State, e: Event)
    requires OpValid(s) && CallValid(s) && Enabled(s, e)
    ensures Written(s, e).Some? ==> s.open
  {
    hide BookValid;
  }

  /** From a reset on, and until the next connect, not a single request is written. */
  lemma {:induction false} SilentUntilConnect(s: State, run: seq<Event>)
    requires Valid(s) && !s.open && Possible(s, run) && forall i :: 0 <= i < |run| ==> !run[i].Connect?
    ensures Final(s, run).history.sent == s.history.sent && !Final(s, run).open
    decreases |run|
  {
    if run == [] {
    } else {
      assert !run[0].Connect?;
      assert forall i :: 0 <= i < |run[1..]| ==> run[1..][i] == run[i + 1];
      StepKeepsValid(s, run[0]);
      StepConnects(s, run[0]);
      StepWrites(s, run[0]);
      WritingNeedsConnection(s, run[0]);
      hide Valid, Step, Enabled, Written;
      SilentUntilConnect(Step(s, run[0]), run[1..]);
    }
  }

  /** Why the condition is needed: a MESSAGE cut short leaves its number to the BYE. */
  lemma CutMessageReusesItsNumber()
    ensures var run := SetUp("a", [SendMessage, Interrupted, HangUp(None)]);
            && Possible(Init, run)
            && "a" in Final(Init, run).history.reached
            && !Increasing(Final(Init, run).history.sent, "a")
  {
    var s5 := Talking("a");
    var s6 := Step(s5, SendMessage);
    var s7 := Step(s6, Interrupted);
    var s8 := Step(s7, HangUp(None));
    var sent := s8.history.sent;
    assert sent == [Sent(Invite, "a", 2), Sent(Ack, "a", 2), Sent(Message, "a", 3), Sent(Bye, "a", 3)];
    assert Counts(sent[2], "a") && Counts(sent[3], "a");
    assert "a" in s8.history.reached;
    hide Possible, Final, Step, SetUp, Talking;
    EndOfRun(s8);
    Unroll(s7, HangUp(None), []);
    Unroll(s6, Interrupted, [HangUp(None)]);
    Unroll(s5, SendMessage, [Interrupted, HangUp(None)]);
    assert [SendMessage] + [Interrupted, HangUp(None)] == [SendMessage, Interrupted, HangUp(None)];
    SetUpRun("a", [SendMessage, Interrupted, HangUp(None)]);
  }
}
