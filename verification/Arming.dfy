// The armed state of one gateway: arm, disarm, the pickup gate and the auto-disarm timers.
module Arming {
  import opened Prelude
  import opened Text

  datatype Reason = NoReason | Manual | Ringing

  const RING_ARM_SECONDS := 120.0

  /** An auto-disarm task.  Cancelling one is only a request: it may still fire. */
  datatype Timer = Timer(deadline: real, cancelled: bool, done: bool)

  /** ArmedState, the pickup flag of the entry, and the event loop's timers and clock. */
  datatype State = State(
    armed: bool,
    reason: Reason,
    target: string,
    until: real,
    task: Option<nat>,
    pickupAllowed: bool,
    timers: seq<Timer>,
    now: real)

  const Init := State(false, NoReason, "", 0.0, None, true, [], 0.0)

  datatype Event =
    | ArmManually(duration: real, station: string)
    | Ring(station: string)
    | Disarm
    | SetPickup(allowed: bool)
    | Fire(timer: nat)      // the sleep is over
    | CancelLands(timer: nat)
    | Wait(seconds: real)

  // ----- streaming_state.py -----

  /** Both arm() and disarm() first cancel a running timer and forget it. */
  function DropTimer(s: State): State {
    if s.task.Some? && s.task.value < |s.timers| && !s.timers[s.task.value].done
    then s.(task := None, timers := s.timers[s.task.value := s.timers[s.task.value].(cancelled := true)])
    else s
  }

  function Arm(s: State, reason: Reason, duration: real, station: string): State {
    var d := DropTimer(s);
    d.(armed := true, reason := reason, target := Strip(station), until := s.now + duration,
       task := Some(|d.timers|), timers := d.timers + [Timer(s.now + duration, false, false)])
  }

  function Off(s: State): State {
    s.(armed := false, reason := NoReason, target := "", until := 0.0)
  }

  function ForceDisarm(s: State): State {
    var d := DropTimer(s);
    if d.armed then Off(d) else d
  }

  function SetAllowed(s: State, allowed: bool): State {
    var p := s.(pickupAllowed := allowed);
    if !allowed && p.armed && p.reason.Ringing? then ForceDisarm(p) else p
  }

  /** _on_ring */
  function OnRing(s: State, station: string): State {
    if s.pickupAllowed then Arm(s, Ringing, RING_ARM_SECONDS, station) else ForceDisarm(s)
  }

  /** The rest of _auto_off, once its sleep is over: the identity check decides. */
  function AutoOff(s: State, t: nat): State
    requires t < |s.timers|
  {
    var d := s.(timers := s.timers[t := s.timers[t].(done := true)]);
    if s.task == Some(t) then Off(d).(task := None) else d
  }

  /** is_stream_allowed */
  predicate StreamAllowed(s: State, station: string) {
    s.armed && (s.target == "" || (Strip(station) != "" && s.target == Strip(station)))
  }

  // ----- runs -----

  /** Timers never fire early; everything else may happen at any time. */
  predicate Enabled(s: State, e: Event) {
    match e
    case ArmManually(duration, _) => duration >= 0.0
    case Fire(t) => t < |s.timers| && !s.timers[t].done && s.now >= s.timers[t].deadline
    case CancelLands(t) => t < |s.timers| && !s.timers[t].done && s.timers[t].cancelled
    case Wait(seconds) => seconds >= 0.0
    case Ring(_) => true
    case Disarm => true
    case SetPickup(_) => true
  }

  function Step(s: State, e: Event): State
    requires Enabled(s, e)
  {
    match e
    case ArmManually(duration, station) => Arm(s, Manual, duration, station)
    case Ring(station) => OnRing(s, station)
    case Disarm => ForceDisarm(s)
    case SetPickup(allowed) => SetAllowed(s, allowed)
    case Fire(t) => AutoOff(s, t)
    case CancelLands(t) => s.(timers := s.timers[t := s.timers[t].(done := true)])
    case Wait(seconds) => s.(now := s.now + seconds)
  }

  predicate Possible(s: State, run: seq<Event>)
    decreases |run|
  {
    run == [] || (Enabled(s, run[0]) && Possible(Step(s, run[0]), run[1..]))
  }

  function Final(s: State, run: seq<Event>): State
    requires Possible(s, run)
    decreases |run|
  {
    if run == [] then s else Final(Step(s, run[0]), run[1..])
  }

  lemma {:induction false} RunsCompose(s: State, run: seq<Event>, more: seq<Event>)
    requires Possible(s, run + more)
    ensures Possible(s, run) && Possible(Final(s, run), more)
    ensures Final(s, run + more) == Final(Final(s, run), more)
    decreases |run|
  {
    if run == [] {
      assert run + more == more;
    } else {
      assert (run + more)[0] == run[0] && (run + more)[1..] == run[1..] + more;
      var n := Step(s, run[0]);
      assert Possible(n, run[1..] + more);
      RunsCompose(n, run[1..], more);
    }
  }

  lemma {:induction false} RunAppend(s: State, run: seq<Event>, e: Event)
    requires Possible(s, run) && Enabled(Final(s, run), e)
    ensures Possible(s, run + [e]) && Final(s, run + [e]) == Step(Final(s, run), e)
    decreases |run|
  {
    if run == [] {
      assert run + [e] == [e] && [e][1..] == [];
    } else {
      assert (run + [e])[0] == run[0] && (run + [e])[1..] == run[1..] + [e];
      hide Step, Enabled;
      RunAppend(Step(s, run[0]), run[1..], e);
    }
  }

  // ----- invariants -----

  /** The remembered timer is the latest one, still running, and armed means it is remembered. */
  ghost predicate Valid(s: State) {
    && (s.task.Some? ==> s.task.value < |s.timers| && !s.timers[s.task.value].done)
    && (s.task.Some? ==> !s.timers[s.task.value].cancelled && s.timers[s.task.value].deadline == s.until)
    && (s.armed <==> s.task.Some?)
    && (!s.armed ==> s.reason == NoReason && s.target == "")
    && (s.reason.Ringing? ==> s.pickupAllowed)
  }

  lemma StepKeepsValid(s: State, e: Event)
    requires Valid(s) && Enabled(s, e)
    ensures Valid(Step(s, e))
  {
  }

  lemma {:induction false} RunKeepsValid(s: State, run: seq<Event>)
    requires Valid(s) && Possible(s, run)
    ensures Valid(Final(s, run))
    decreases |run|
  {
    if run == [] {
    } else {
      StepKeepsValid(s, run[0]);
      RunKeepsValid(Step(s, run[0]), run[1..]);
    }
  }

  /** In every run, being armed by a ring implies that pickup is allowed. */
  lemma RingArmedOnlyWithPickup(run: seq<Event>)
    requires Possible(Init, run)
    ensures Final(Init, run).armed && Final(Init, run).reason.Ringing? ==> Final(Init, run).pickupAllowed
    ensures !Final(Init, run).armed ==> forall station :: !StreamAllowed(Final(Init, run), station)
  {
    RunKeepsValid(Init, run);
  }

  /** Of all timers, cancelled or not, only the one of the latest arm can change the armed state. */
  lemma SupersededTimerIsInert(run: seq<Event>, t: nat)
    requires Possible(Init, run) && Enabled(Final(Init, run), Fire(t))
    ensures var s := Final(Init, run);
            var n := Step(s, Fire(t));
            if s.armed && s.task == Some(t) then !n.armed && s.now >= s.until
            else n == s.(timers := n.timers)
  {
    RunKeepsValid(Init, run);
  }

  // ----- one tenure: from an arm to its end -----

  predicate Arms(s: State, e: Event) {
    e.ArmManually? || (e.Ring? && s.pickupAllowed)
  }

  /** Nothing in the run arms again: no manual arm, and no ring while pickup is allowed. */
  predicate NoRearm(s: State, run: seq<Event>)
    requires Possible(s, run)
    decreases |run|
  {
    run == [] || (!Arms(s, run[0]) && NoRearm(Step(s, run[0]), run[1..]))
  }

  /** What ends the tenure that timer `t` belongs to. */
  predicate Ends(e: Event, ringing: bool, t: nat) {
    e.Disarm? || e.Ring? || (e.SetPickup? && !e.allowed && ringing) || e == Fire(t)
  }

  ghost predicate AnyEnds(run: seq<Event>, ringing: bool, t: nat) {
    exists i :: 0 <= i < |run| && Ends(run[i], ringing, t)
  }

  ghost predicate Tenured(s: State, a: State) {
    s.armed && s.reason == a.reason && s.target == a.target && s.until == a.until && s.task == a.task
  }

  lemma {:induction false} StaysOff(s: State, run: seq<Event>)
    requires Valid(s) && Possible(s, run) && NoRearm(s, run) && !s.armed
    ensures !Final(s, run).armed
    decreases |run|
  {
    if run == [] {
    } else {
      StepKeepsValid(s, run[0]);
      StaysOff(Step(s, run[0]), run[1..]);
    }
  }

  lemma EndsOrStays(s: State, e: Event)
    requires Valid(s) && s.armed && Enabled(s, e) && !Arms(s, e)
    ensures if Ends(e, s.reason.Ringing?, s.task.value) then !Step(s, e).armed else Tenured(Step(s, e), s)
  {
  }

  /**
   * After an arm, and as long as nothing arms again, the state is exactly this: still armed, with
   * the same reason, target, deadline and timer, if and only if neither a disarm, nor a ring or a
   * closing of the pickup gate that disarms, nor the arm's own timer has come since.
   */
  lemma {:induction false} TenureIsExact(s: State, run: seq<Event>)
    requires Valid(s) && s.armed && Possible(s, run) && NoRearm(s, run)
    ensures Final(s, run).armed <==> !AnyEnds(run, s.reason.Ringing?, s.task.value)
    ensures Final(s, run).armed ==> Tenured(Final(s, run), s)
    decreases |run|
  {
    if run == [] {
    } else {
      var n := Step(s, run[0]);
      StepKeepsValid(s, run[0]);
      EndsOrStays(s, run[0]);
      var (ringing, t) := (s.reason.Ringing?, s.task.value);
      if Ends(run[0], ringing, t) {
        StaysOff(n, run[1..]);
        assert AnyEnds(run, ringing, t);
      } else {
        TenureIsExact(n, run[1..]);
        if AnyEnds(run[1..], ringing, t) {
          var i :| 0 <= i < |run[1..]| && Ends(run[1..][i], ringing, t);
          assert Ends(run[i + 1], ringing, t);
        }
        if AnyEnds(run, ringing, t) {
          var i :| 0 <= i < |run| && Ends(run[i], ringing, t);
          assert Ends(run[1..][i - 1], ringing, t);
        }
      }
    }
  }

  /** Events that cannot end a tenure before its deadline: time, gates that stay open, other timers. */
  predicate Quiet(e: Event) {
    e.Fire? || e.CancelLands? || e.Wait? || (e.SetPickup? && e.allowed)
  }

  lemma {:induction false} OwnTimerCannotBeEarly(s: State, run: seq<Event>, i: nat)
    requires Valid(s) && s.armed && Possible(s, run) && NoRearm(s, run) && i < |run|
    requires run[i] == Fire(s.task.value)
    ensures Final(s, run).now >= s.until
    decreases |run|
  {
    var n := Step(s, run[0]);
    StepKeepsValid(s, run[0]);
    if i == 0 {
      TimeMovesOn(n, run[1..]);
    } else if n.armed {
      EndsOrStays(s, run[0]);
      OwnTimerCannotBeEarly(n, run[1..], i - 1);
    } else {
      FiresLater(n, run[1..], i - 1, s.task.value, s.until);
    }
  }

  lemma {:induction false} TimeMovesOn(s: State, run: seq<Event>)
    requires Possible(s, run)
    ensures Final(s, run).now >= s.now
    decreases |run|
  {
    if run == [] {
    } else {
      TimeMovesOn(Step(s, run[0]), run[1..]);
    }
  }

  /** A timer's deadline never changes. */
  lemma {:induction false} FiresLater(s: State, run: seq<Event>, i: nat, t: nat, deadline: real)
    requires Possible(s, run) && i < |run| && run[i] == Fire(t)
    requires t < |s.timers| && s.timers[t].deadline == deadline
    ensures Final(s, run).now >= deadline
    decreases |run|
  {
    var n := Step(s, run[0]);
    if i == 0 {
      TimeMovesOn(n, run[1..]);
    } else {
      FiresLater(n, run[1..], i - 1, t, deadline);
    }
  }

  /** Once the deadline has come, the arm's own timer can fire, and it disarms. */
  lemma DeadlineDisarms(run: seq<Event>)
    requires Possible(Init, run) && Final(Init, run).armed && Final(Init, run).now >= Final(Init, run).until
    ensures var s := Final(Init, run);
            && s.task.Some? && Enabled(s, Fire(s.task.value))
            && !Step(s, Fire(s.task.value)).armed && Step(s, Fire(s.task.value)).task.None?
  {
    RunKeepsValid(Init, run);
  }

  /** Left alone, an arm lasts at least until its own deadline, whatever older timers do. */
  lemma ArmLastsUntilDeadline(before: seq<Event>, arm: Event, after: seq<Event>)
    requires Possible(Init, before + ([arm] + after)) && Possible(Init, before)
    requires Arms(Final(Init, before), arm)
    requires forall e :: e in after ==> Quiet(e)
    requires Possible(Final(Init, before), [arm]) && Final(Init, before + ([arm] + after)).now <
             Final(Final(Init, before), [arm]).until
    ensures Tenured(Final(Init, before + ([arm] + after)), Final(Final(Init, before), [arm]))
  {
    var s := Final(Init, before);
    RunsCompose(Init, before, [arm] + after);
    RunsCompose(s, [arm], after);
    RunKeepsValid(Init, before);
    StepKeepsValid(s, arm);
    assert [arm][1..] == [];
    var a := Step(s, arm);
    assert Final(s, [arm]) == a;
    QuietDoesNotRearm(a, after);
    TenureIsExact(a, after);
    if AnyEnds(after, a.reason.Ringing?, a.task.value) {
      var i :| 0 <= i < |after| && Ends(after[i], a.reason.Ringing?, a.task.value);
      assert after[i] in after;
      OwnTimerCannotBeEarly(a, after, i);
    }
  }

  /** A ring from a station lets that station stream, and no other, until something ends or replaces it. */
  lemma RingAdmitsItsStationOnly(s: State, station: string, after: seq<Event>, other: string)
    requires Valid(s) && s.pickupAllowed && Strip(station) != ""
    requires Possible(Step(s, Ring(station)), after) && NoRearm(Step(s, Ring(station)), after)
    ensures StreamAllowed(Final(Step(s, Ring(station)), after), other) <==>
      Strip(other) == Strip(station) && !AnyEnds(after, true, |s.timers|)
  {
    StepKeepsValid(s, Ring(station));
    TenureIsExact(Step(s, Ring(station)), after);
  }

  /**
   * A manual arm admits the station it names, or every station if it names none, until something ends
   * or replaces it.
   */
  lemma ManualArmAdmits(s: State, duration: real, station: string, after: seq<Event>, other: string)
    requires Valid(s) && duration >= 0.0
    requires var a := Step(s, ArmManually(duration, station)); Possible(a, after) && NoRearm(a, after)
    ensures StreamAllowed(Final(Step(s, ArmManually(duration, station)), after), other) <==>
      (Strip(station) == "" || Strip(other) == Strip(station)) && !AnyEnds(after, false, |s.timers|)
  {
    StepKeepsValid(s, ArmManually(duration, station));
    TenureIsExact(Step(s, ArmManually(duration, station)), after);
  }

  lemma {:induction false} QuietDoesNotRearm(s: State, run: seq<Event>)
    requires Possible(s, run) && forall e :: e in run ==> Quiet(e)
    ensures NoRearm(s, run)
    decreases |run|
  {
    if run == [] {
    } else {
      assert run[0] in run;
      assert forall e :: e in run[1..] ==> e in run;
      QuietDoesNotRearm(Step(s, run[0]), run[1..]);
    }
  }

  // ----- the object -----

  /**
   * The armed state shared by the switch, the listener and the cameras of one gateway.  Its ghost
   * `run` lists the events so far; Consistent() says that the fields are where that run leads.
   */
  class ArmedState {
    var armed: bool
    var reason: Reason
    var targetStationId: string
    var untilMonotonic: real
    var autoDisarmTask: Option<nat>
    var allowPickup: bool
    var timers: seq<Timer>
    var now: real
    ghost var run: seq<Event>

    ghost function Snapshot(): State
      reads this
    {
      State(armed, reason, targetStationId, untilMonotonic, autoDisarmTask, allowPickup, timers, now)
    }

    ghost predicate Consistent()
      reads this
    {
      Possible(Init, run) && Snapshot() == Final(Init, run)
    }

    /** What holds whatever the run was. */
    ghost predicate Promises()
      reads this
    {
      && (armed && reason.Ringing? ==> allowPickup)
      && (armed <==> autoDisarmTask.Some?)
      && (autoDisarmTask.Some? ==>
            autoDisarmTask.value < |timers| && timers[autoDisarmTask.value].deadline == untilMonotonic)
    }

    lemma WhatHolds()
      requires Consistent()
      ensures Valid(Snapshot()) && Promises() && TimerKnown()
    {
      RunKeepsValid(Init, run);
    }

    predicate TimerKnown()
      reads this
    {
      autoDisarmTask.Some? ==> autoDisarmTask.value < |timers|
    }

    constructor ()
      ensures Consistent() && Promises() && run == []
    {
      armed, reason, targetStationId, untilMonotonic := false, NoReason, "", 0.0;
      autoDisarmTask, allowPickup, timers, now := None, true, [], 0.0;
      run := [];
    }

    // ----- arm and disarm -----

    method CancelTimer()
      requires TimerKnown()
      modifies this`autoDisarmTask, this`timers
      ensures Snapshot() == DropTimer(old(Snapshot()))
      ensures |timers| == |old(timers)|
      ensures old(autoDisarmTask).Some? && !old(timers)[old(autoDisarmTask).value].done ==>
        && autoDisarmTask == None && timers[old(autoDisarmTask).value].cancelled
        && !timers[old(autoDisarmTask).value].done
    {
      if autoDisarmTask.Some? && !timers[autoDisarmTask.value].done {
        var t := autoDisarmTask.value;
        timers := timers[t := timers[t].(cancelled := true)];
        autoDisarmTask := None;
      }
    }

    method ArmFor(why: Reason, duration: real, station: string)
      requires TimerKnown()
      modifies this
      ensures run == old(run) && Snapshot() == Arm(old(Snapshot()), why, duration, station)
    {
      hide Strip;
      CancelTimer();
      armed := true;
      reason := why;
      targetStationId := Strip(station);
      untilMonotonic := now + duration;
      autoDisarmTask := Some(|timers|);
      timers := timers + [Timer(now + duration, false, false)];
    }

    method DisarmNow()
      requires TimerKnown()
      modifies this
      ensures run == old(run) && Snapshot() == ForceDisarm(old(Snapshot()))
    {
      CancelTimer();
      if !armed {
        return;
      }
      armed, reason, targetStationId, untilMonotonic := false, NoReason, "", 0.0;
    }

    // ----- the events -----

    /** Armed for the station, until a deadline that a timer of its own watches. */
    method ArmByUser(duration: real, station: string)
      requires Consistent() && duration >= 0.0
      modifies this
      ensures Consistent() && Promises() && run == old(run) + [ArmManually(duration, station)]
      ensures armed && reason == Manual && untilMonotonic == now + duration && targetStationId == Strip(station)
      ensures autoDisarmTask == Some(|old(timers)|)
    {
      hide Possible, Final, Strip, Valid;
      WhatHolds();
      RunAppend(Init, run, ArmManually(duration, station));
      ArmFor(Manual, duration, station);
      run := run + [ArmManually(duration, station)];
      WhatHolds();
    }

    /** Afterwards no station may stream, whatever timers are still about to fire. */
    method DisarmByUser()
      requires Consistent()
      modifies this
      ensures Consistent() && Promises() && run == old(run) + [Disarm]
      ensures !armed && autoDisarmTask == None
    {
      hide Possible, Final, Strip;
      WhatHolds();
      RunAppend(Init, run, Disarm);
      DisarmNow();
      run := run + [Disarm];
      WhatHolds();
    }

    /** Closing the gate ends exactly a ring arm; a manual arm stays. */
    method SetPickupAllowed(allowed: bool)
      requires Consistent()
      modifies this
      ensures Consistent() && Promises() && run == old(run) + [SetPickup(allowed)]
      ensures allowPickup == allowed
      ensures armed <==> old(armed) && (allowed || !old(reason).Ringing?)
    {
      hide Possible, Final, Strip;
      WhatHolds();
      RunAppend(Init, run, SetPickup(allowed));
      allowPickup := allowed;
      if !allowed {
        if armed && reason.Ringing? {
          DisarmNow();
        }
      }
      run := run + [SetPickup(allowed)];
      WhatHolds();
    }

    /** A ring arms for its station exactly if pickup is allowed, and disarms otherwise. */
    method OnRinging(station: string)
      requires Consistent()
      modifies this
      ensures Consistent() && Promises() && run == old(run) + [Ring(station)]
      ensures armed == allowPickup == old(allowPickup)
      ensures armed ==>
        reason == Ringing && targetStationId == Strip(station) && untilMonotonic == now + 120.0
    {
      hide Possible, Final, Strip, Valid;
      WhatHolds();
      RunAppend(Init, run, Ring(station));
      if allowPickup {
        ArmFor(Ringing, RING_ARM_SECONDS, station);
      } else {
        DisarmNow();
      }
      run := run + [Ring(station)];
      WhatHolds();
    }

    /** A timer disarms if and only if it is the latest arm's, and then its deadline has passed. */
    method TimerFires(t: nat)
      requires Consistent() && t < |timers| && !timers[t].done && now >= timers[t].deadline
      modifies this
      ensures Consistent() && Promises() && run == old(run) + [Fire(t)]
      ensures armed <==> old(armed) && old(autoDisarmTask) != Some(t)
      ensures old(armed) && !armed ==> now >= old(untilMonotonic)
      ensures armed ==> reason == old(reason) && targetStationId == old(targetStationId)
      ensures armed ==> untilMonotonic == old(untilMonotonic)
      ensures |timers| == |old(timers)| && timers[t].done
    {
      hide Possible, Final, Strip;
      WhatHolds();
      RunAppend(Init, run, Fire(t));
      timers := timers[t := timers[t].(done := true)];
      if autoDisarmTask == Some(t) {
        armed, reason, targetStationId, untilMonotonic := false, NoReason, "", 0.0;
        autoDisarmTask := None;
      }
      run := run + [Fire(t)];
      WhatHolds();
    }

    /** Time passes, or a cancelled timer ends: nothing that anybody can see changes. */
    method WorldMoves(e: Event)
      requires Consistent() && Enabled(Snapshot(), e) && (e.Wait? || e.CancelLands?)
      modifies this`now, this`timers, this`run
      ensures Consistent() && Promises() && run == old(run) + [e]
      ensures now == old(now) + (if e.Wait? then e.seconds else 0.0)
      ensures timers ==
        if e.CancelLands? then old(timers)[e.timer := old(timers)[e.timer].(done := true)] else old(timers)
    {
      hide Possible, Final, Strip;
      WhatHolds();
      RunAppend(Init, run, e);
      match e {
        case Wait(seconds) => now := now + seconds;
        case CancelLands(t) => timers := timers[t := timers[t].(done := true)];
      }
      run := run + [e];
      WhatHolds();
    }

    method IsStreamAllowed(station: string) returns (allowed: bool)
      ensures allowed == StreamAllowed(Snapshot(), station)
      ensures allowed <==>
        armed && (targetStationId == "" || (Strip(station) != "" && targetStationId == Strip(station)))
    {
      if !armed {
        return false;
      }
      var id := Strip(station);
      allowed := targetStationId == "" || (id != "" && targetStationId == id);
    }
  }
}
