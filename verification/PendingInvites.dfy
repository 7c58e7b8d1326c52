// The listener's table of unanswered INVITEs, and which one a station gets.
module PendingInvites {
  import opened Prelude
  import opened Text

  const EXPIRY := 45.0

  /** A received INVITE: its place in the order of reception, and what the lookups need of it. */
  datatype Frame = Frame(no: nat, callId: string, station: string, receivedAt: real)

  /** A dictionary keyed by Call-ID, in insertion order. */
  type Table = seq<Frame>

  ghost predicate KeysDiffer(t: Table) {
    forall i, j :: 0 <= i < j < |t| ==> t[i].callId != t[j].callId
  }

  predicate Expired(f: Frame, now: real) {
    now - f.receivedAt > EXPIRY
  }

  // ----- dictionary operations -----

  /** pop(call_id, None) */
  function DropKey(t: Table, callId: string): Table {
    if t == [] then [] else if t[0].callId == callId then t[1..] else [t[0]] + DropKey(t[1..], callId)
  }

  function Get(t: Table, callId: string): Option<Frame> {
    if t == [] then None else if t[0].callId == callId then Some(t[0]) else Get(t[1..], callId)
  }

  /** t[f.callId] = f: in place if the key is there, at the end if not. */
  function Put(t: Table, f: Frame): Table {
    if t == [] then [f] else if t[0].callId == f.callId then [f] + t[1..] else [t[0]] + Put(t[1..], f)
  }

  // ----- selection -----

  function Unexpired(t: Table, now: real): Table {
    if t == [] then []
    else if Expired(t[0], now) then Unexpired(t[1..], now)
    else [t[0]] + Unexpired(t[1..], now)
  }

  function FirstOf(t: Table, station: string): Option<Frame> {
    if t == [] then None else if t[0].station == station then Some(t[0]) else FirstOf(t[1..], station)
  }

  /** Of the unexpired INVITEs, the first from this station, or else the only one. */
  function Chosen(t: Table, station: string, now: real): Option<Frame> {
    var live := Unexpired(t, now);
    if FirstOf(live, Strip(station)).Some? then FirstOf(live, Strip(station))
    else if |live| == 1 then Some(live[0])
    else None
  }

  /** What both lookups leave behind: expired entries go, up to the first match. */
  function Swept(t: Table, station: string, now: real): Table {
    if t == [] then []
    else if Expired(t[0], now) then Swept(t[1..], station, now)
    else if t[0].station == Strip(station) then t
    else [t[0]] + Swept(t[1..], station, now)
  }

  function AfterPop(t: Table, station: string, now: real): Table {
    if Chosen(t, station, now).Some?
    then DropKey(Swept(t, station, now), Chosen(t, station, now).value.callId)
    else Swept(t, station, now)
  }

  // ----- lemmas -----

  lemma {:induction false} SweptKeepsUnexpired(t: Table, station: string, now: real)
    ensures Unexpired(Swept(t, station, now), now) == Unexpired(t, now)
    ensures FirstOf(Unexpired(t, now), Strip(station)).None? ==> Swept(t, station, now) == Unexpired(t, now)
    ensures |Swept(t, station, now)| <= |t|
    ensures forall i :: 0 <= i < |Swept(t, station, now)| ==> Swept(t, station, now)[i] in t
  {
    hide Strip;
    if t == [] {
    } else {
      SweptKeepsUnexpired(t[1..], station, now);
      if !Expired(t[0], now) && t[0].station != Strip(station) {
        assert Swept(t, station, now)[1..] == Swept(t[1..], station, now);
      }
    }
  }

  lemma {:induction false} SweptKeysDiffer(t: Table, station: string, now: real)
    requires KeysDiffer(t)
    ensures KeysDiffer(Swept(t, station, now))
  {
    hide Strip;
    if t == [] {
    } else {
      SweptKeysDiffer(t[1..], station, now);
      SweptKeepsUnexpired(t[1..], station, now);
      var rest := Swept(t[1..], station, now);
      forall i | 0 <= i < |rest| ensures rest[i].callId != t[0].callId {
        assert rest[i] in t[1..];
      }
    }
  }

  lemma {:induction false} UnexpiredMembers(t: Table, now: real)
    ensures forall i :: 0 <= i < |Unexpired(t, now)| ==>
              Unexpired(t, now)[i] in t && !Expired(Unexpired(t, now)[i], now)
  {
    if t == [] {
    } else {
      UnexpiredMembers(t[1..], now);
    }
  }

  lemma {:induction false} DropKeyAbsent(t: Table, callId: string)
    requires forall i :: 0 <= i < |t| ==> t[i].callId != callId
    ensures DropKey(t, callId) == t
  {
    if t == [] {
    } else {
      assert t == [t[0]] + t[1..];
      DropKeyAbsent(t[1..], callId);
    }
  }

  lemma {:induction false} DropKeyMembers(t: Table, callId: string)
    requires KeysDiffer(t)
    ensures KeysDiffer(DropKey(t, callId))
    ensures forall f :: f in DropKey(t, callId) <==> f in t && f.callId != callId
    ensures |DropKey(t, callId)| == |t| - if Get(t, callId).Some? then 1 else 0
    ensures Get(t, callId).Some? ==> Get(t, callId).value in t && Get(t, callId).value.callId == callId
  {
    if t == [] {
    } else {
      assert t == [t[0]] + t[1..];
      DropKeyMembers(t[1..], callId);
      assert forall f :: f in t[1..] ==> f.callId != t[0].callId;
      var rest := DropKey(t[1..], callId);
      if t[0].callId != callId {
        assert forall i :: 0 <= i < |rest| ==> rest[i] in rest;
      }
    }
  }

  lemma {:induction false} GetNone(t: Table, callId: string)
    ensures Get(t, callId).None? <==> forall f :: f in t ==> f.callId != callId
  {
    if t != [] {
      GetNone(t[1..], callId);
      assert t == [t[0]] + t[1..];
    }
  }

  lemma {:induction false} UnexpiredDropKey(t: Table, f: Frame, now: real)
    requires KeysDiffer(t) && f in t
    ensures Unexpired(DropKey(t, f.callId), now) ==
            if Expired(f, now) then Unexpired(t, now) else DropKey(Unexpired(t, now), f.callId)
  {
    assert t == [t[0]] + t[1..];
    if t[0].callId == f.callId {
      assert t[0] == f;
    } else {
      UnexpiredDropKey(t[1..], f, now);
      var rest := DropKey(t[1..], f.callId);
      assert ([t[0]] + rest)[1..] == rest;
    }
  }

  lemma {:induction false} FirstOfIsFirst(t: Table, station: string)
    ensures match FirstOf(t, station)
            case None => forall i :: 0 <= i < |t| ==> t[i].station != station
            case Some(f) => exists i :: 0 <= i < |t| && t[i] == f && f.station == station &&
                                         forall j :: 0 <= j < i ==> t[j].station != station
  {
    if t == [] {
    } else if t[0].station == station {
    } else {
      FirstOfIsFirst(t[1..], station);
      if FirstOf(t, station).Some? {
        var i :| 0 <= i < |t[1..]| && t[1..][i] == FirstOf(t, station).value &&
                 t[1..][i].station == station && forall j :: 0 <= j < i ==> t[1..][j].station != station;
        assert t[i + 1] == FirstOf(t, station).value;
        assert forall j :: 0 < j < i + 1 ==> t[j] == t[1..][j - 1];
      }
    }
  }

  /** The chosen INVITE is in the table and still live. */
  lemma ChosenIsLive(t: Table, station: string, now: real)
    requires Chosen(t, station, now).Some?
    ensures Chosen(t, station, now).value in Unexpired(t, now)
    ensures Chosen(t, station, now).value in t && !Expired(Chosen(t, station, now).value, now)
  {
    hide Strip;
    UnexpiredMembers(t, now);
    FirstOfIsFirst(Unexpired(t, now), Strip(station));
  }

  /** Popping takes exactly the chosen INVITE; every other live one stays, in its place. */
  lemma PopTakesOnlyTheChosen(t: Table, station: string, now: real)
    requires KeysDiffer(t)
    ensures Unexpired(AfterPop(t, station, now), now) ==
      if Chosen(t, station, now).Some? then DropKey(Unexpired(t, now), Chosen(t, station, now).value.callId)
      else Unexpired(t, now)
    ensures forall f :: f in AfterPop(t, station, now) ==>
              f in t && (Chosen(t, station, now).Some? ==> f.callId != Chosen(t, station, now).value.callId)
    ensures KeysDiffer(AfterPop(t, station, now))
  {
    hide Strip;
    var swept := Swept(t, station, now);
    SweptKeepsUnexpired(t, station, now);
    SweptKeysDiffer(t, station, now);
    if Chosen(t, station, now).Some? {
      var f := Chosen(t, station, now).value;
      ChosenIsLive(t, station, now);
      UnexpiredMembers(swept, now);
      assert f in swept;
      UnexpiredDropKey(swept, f, now);
      DropKeyMembers(swept, f.callId);
    }
  }

  lemma {:induction false} PutMembers(t: Table, f: Frame)
    requires KeysDiffer(t)
    ensures KeysDiffer(Put(t, f)) && f in Put(t, f)
    ensures forall g :: g in Put(t, f) ==> g == f || (g in t && g.callId != f.callId)
    ensures |Put(t, f)| == |t| + if Get(t, f.callId).Some? then 0 else 1
  {
    if t == [] {
    } else if t[0].callId == f.callId {
      assert forall g :: g in t[1..] ==> g.callId != f.callId;
    } else {
      PutMembers(t[1..], f);
      var rest := Put(t[1..], f);
      forall i | 0 <= i < |rest| ensures rest[i].callId != t[0].callId {
        assert rest[i] in rest;
      }
      assert f in [t[0]] + rest;
    }
  }

  // ----- the same, with the numbers written out -----

  lemma {:induction false} UnexpiredAreFresh(t: Table, now: real)
    ensures forall f :: f in Unexpired(t, now) <==> f in t && now - f.receivedAt <= 45.0
  {
    if t == [] {
    } else {
      UnexpiredAreFresh(t[1..], now);
      assert t == [t[0]] + t[1..];
    }
  }

  /** The i-th INVITE is the first of this station that is not older than 45 seconds. */
  predicate FirstFresh(t: Table, station: string, now: real, i: nat) {
    && i < |t| && now - t[i].receivedAt <= 45.0 && t[i].station == station
    && forall j :: 0 <= j < i && now - t[j].receivedAt <= 45.0 ==> t[j].station != station
  }

  /** No other INVITE than this one is that young. */
  predicate OnlyFresh(t: Table, now: real, i: nat) {
    && i < |t| && now - t[i].receivedAt <= 45.0
    && forall j :: 0 <= j < |t| && j != i ==> now - t[j].receivedAt > 45.0
  }

  lemma {:induction false} FirstFreshIsFirstOf(t: Table, station: string, now: real)
    ensures match FirstOf(Unexpired(t, now), station)
            case None => forall i :: 0 <= i < |t| && now - t[i].receivedAt <= 45.0 ==> t[i].station != station
            case Some(f) => exists i: nat :: FirstFresh(t, station, now, i) && t[i] == f
  {
    if t == [] {
    } else {
      FirstFreshIsFirstOf(t[1..], station, now);
      assert forall k :: 0 < k < |t| ==> t[k] == t[1..][k - 1];
      if now - t[0].receivedAt <= 45.0 && t[0].station == station {
        assert FirstFresh(t, station, now, 0);
      } else if FirstOf(Unexpired(t[1..], now), station).Some? {
        var first := FirstOf(Unexpired(t[1..], now), station).value;
        var i: nat :| FirstFresh(t[1..], station, now, i) && t[1..][i] == first;
        assert FirstFresh(t, station, now, i + 1) && t[i + 1] == t[1..][i];
      }
    }
  }

  lemma {:induction false} NobodyFresh(t: Table, now: real)
    ensures |Unexpired(t, now)| == 0 <==> forall i :: 0 <= i < |t| ==> now - t[i].receivedAt > 45.0
  {
    if t != [] {
      NobodyFresh(t[1..], now);
      assert forall k :: 0 < k < |t| ==> t[k] == t[1..][k - 1];
    }
  }

  lemma {:induction false} OnlyFreshIsOnly(t: Table, now: real)
    ensures |Unexpired(t, now)| == 1 <==> exists i: nat :: OnlyFresh(t, now, i)
    ensures forall i: nat :: OnlyFresh(t, now, i) ==> Unexpired(t, now) == [t[i]]
  {
    if t != [] {
      OnlyFreshIsOnly(t[1..], now);
      NobodyFresh(t[1..], now);
      assert forall k :: 0 < k < |t| ==> t[k] == t[1..][k - 1];
      if now - t[0].receivedAt <= 45.0 {
        assert |Unexpired(t, now)| == 1 ==> OnlyFresh(t, now, 0);
      } else {
        if i: nat :| OnlyFresh(t[1..], now, i) {
          assert OnlyFresh(t, now, i + 1);
        }
      }
      forall i: nat | OnlyFresh(t, now, i) ensures Unexpired(t, now) == [t[i]] {
        if i > 0 {
          assert now - t[0].receivedAt > 45.0;
          assert OnlyFresh(t[1..], now, i - 1);
        } else {
          assert forall k :: 0 <= k < |t[1..]| ==> now - t[1..][k].receivedAt > 45.0;
        }
      }
    }
  }

  /** What is chosen, exactly: the first young INVITE of the station, or else the only young one. */
  lemma ChosenExactly(t: Table, station: string, now: real)
    ensures match Chosen(t, station, now)
            case Some(f) =>
              && f in t && now - f.receivedAt <= 45.0
              && ((exists i: nat :: FirstFresh(t, Strip(station), now, i) && t[i] == f) ||
                  (exists i: nat :: OnlyFresh(t, now, i) && t[i] == f))
            case None =>
              && (forall i :: 0 <= i < |t| && now - t[i].receivedAt <= 45.0 ==> t[i].station != Strip(station))
              && !exists i: nat :: OnlyFresh(t, now, i)
    ensures forall i: nat :: FirstFresh(t, Strip(station), now, i) ==> Chosen(t, station, now) == Some(t[i])
    ensures forall i: nat :: OnlyFresh(t, now, i) ==> Chosen(t, station, now) == Some(t[i])
  {
    hide Strip;
    var wanted := Strip(station);
    UnexpiredAreFresh(t, now);
    FirstFreshIsFirstOf(t, wanted, now);
    OnlyFreshIsOnly(t, now);
    forall i: nat | FirstFresh(t, wanted, now, i) ensures Chosen(t, station, now) == Some(t[i]) {
      var k: nat :| FirstFresh(t, wanted, now, k) && t[k] == FirstOf(Unexpired(t, now), wanted).value;
      assert !(k < i) && !(i < k);
    }
    forall i: nat | OnlyFresh(t, now, i) ensures Chosen(t, station, now) == Some(t[i]) {
      assert Unexpired(t, now) == [t[i]];
      assert FirstOf([t[i]], wanted) == if t[i].station == wanted then Some(t[i]) else FirstOf([t[i]][1..], wanted);
    }
  }

  /** No lookup throws out an INVITE that is not older than 45 seconds. */
  lemma YoungOnesStay(t: Table, station: string, now: real, f: Frame)
    requires f in t && now - f.receivedAt <= 45.0
    ensures f in Swept(t, station, now)
    ensures KeysDiffer(t) ==> f in AfterPop(t, station, now) || Chosen(t, station, now) == Some(f)
  {
    UnexpiredAreFresh(t, now);
    SweptKeepsUnexpired(t, station, now);
    UnexpiredAreFresh(Swept(t, station, now), now);
    if KeysDiffer(t) && Chosen(t, station, now).Some? {
      SweptKeysDiffer(t, station, now);
      DropKeyMembers(Swept(t, station, now), Chosen(t, station, now).value.callId);
      ChosenIsLive(t, station, now);
      assert f.callId == Chosen(t, station, now).value.callId ==> f == Chosen(t, station, now).value;
    }
    hide Swept, Unexpired, Chosen, DropKey;
  }

  // ----- places in the table -----

  /** A new INVITE takes the place of one with its Call-ID, or the last place. */
  lemma {:induction false} PutKeepsPlaces(t: Table, f: Frame)
    requires KeysDiffer(t)
    ensures forall i :: 0 <= i < |t| && t[i].callId == f.callId ==> Put(t, f) == t[i := f]
    ensures (forall i :: 0 <= i < |t| ==> t[i].callId != f.callId) ==> Put(t, f) == t + [f]
  {
    if t == [] {
    } else if t[0].callId != f.callId {
      PutKeepsPlaces(t[1..], f);
      assert t == [t[0]] + t[1..];
      forall i | 0 <= i < |t| && t[i].callId == f.callId ensures Put(t, f) == t[i := f] {
        assert t[1..][i - 1] == t[i];
        assert [t[0]] + t[1..][i - 1 := f] == t[i := f];
      }
      if forall i :: 0 <= i < |t| ==> t[i].callId != f.callId {
        assert forall i :: 0 <= i < |t[1..]| ==> t[1..][i] == t[i + 1];
        assert [t[0]] + (t[1..] + [f]) == t + [f];
      }
    } else {
      assert [f] + t[1..] == t[0 := f];
    }
  }
}
