// How the dialer remembers why calls ended, and how it wakes those who wait for an end.
module CallEnds {
  import opened Prelude
  import opened Text
  import opened RecentTable

  datatype Reason = RemoteBye | LocalBye | ConnectionReset

  datatype Future =
    | Pending(id: Id)
    | Cancelled(id: Id)
    | Done(id: Id, reason: Reason)

  /** _ended_call_reasons, _call_end_waiters, and the futures handed out, numbered. */
  datatype Book = Book(table: Reasons, waiters: map<Id, seq<nat>>, futures: seq<Future>)

  const Empty := Book(Table([], map[]), map[], [])

  // ----- the table of reasons -----

  const REMEMBERED := 32

  type Reasons = Table<Reason>

  ghost predicate ReasonsValid(t: Reasons) {
    TableValid(t, REMEMBERED)
  }

  function Record(t: Reasons, id: Id, reason: Reason): Reasons {
    Remember(t, id, reason, REMEMBERED)
  }

  // ----- waiting -----

  ghost predicate BookValid(b: Book) {
    && ReasonsValid(b.table)
    && (forall f :: 0 <= f < |b.futures| && b.futures[f].Pending? ==>
          b.futures[f].id in b.waiters && f in b.waiters[b.futures[f].id])
    && (forall id, k :: id in b.waiters && 0 <= k < |b.waiters[id]| ==>
          b.waiters[id][k] < |b.futures| && b.futures[b.waiters[id][k]].id == id)
    && (forall id :: id in b.waiters ==> id !in b.table.values)
    && ListsValid(b)
  }

  /** Nobody waits twice for the same call, and no empty list stays behind. */
  ghost predicate ListsValid(b: Book) {
    forall id :: id in b.waiters ==> b.waiters[id] != [] && NoDup(b.waiters[id])
  }

  /** set_result() on every listed future that is not done. */
  function Resolve(futures: seq<Future>, waiting: seq<nat>, reason: Reason): seq<Future> {
    seq(|futures|, f requires 0 <= f < |futures| =>
      if f in waiting && futures[f].Pending? then Done(futures[f].id, reason) else futures[f])
  }

  function Waiting(b: Book, id: Id): seq<nat> {
    if id in b.waiters then b.waiters[id] else []
  }

  /** The part of _finish_call after the call itself is forgotten. */
  function RecordEnd(b: Book, id: Id, reason: Reason): Book {
    Book(Record(b.table, id, reason), b.waiters - {id}, Resolve(b.futures, Waiting(b, id), reason))
  }

  /** wait_call_end: what is known at once ... */
  function KnownEnd(b: Book, id: Id): Option<Reason> {
    if Strip(id) in b.table.values then Some(b.table.values[Strip(id)]) else None
  }

  predicate MustWait(b: Book, id: Id) {
    Strip(id) != "" && KnownEnd(b, id).None?
  }

  /** ... or a new future in line. */
  function BeginWait(b: Book, id: Id): Book {
    if MustWait(b, id) then
      b.(waiters := b.waiters[Strip(id) := Waiting(b, Strip(id)) + [|b.futures|]],
         futures := b.futures + [Pending(Strip(id))])
    else b
  }

  function CancelWait(b: Book, f: nat): Book
    requires f < |b.futures|
  {
    if b.futures[f].Pending? then b.(futures := b.futures[f := Cancelled(b.futures[f].id)]) else b
  }

  function RemoveFirst(s: seq<nat>, x: nat): seq<nat> {
    if s == [] then [] else if s[0] == x then s[1..] else [s[0]] + RemoveFirst(s[1..], x)
  }

  /** The finally block of wait_call_end. */
  function EndWait(b: Book, f: nat): Book
    requires f < |b.futures|
  {
    var id := b.futures[f].id;
    if id in b.waiters && f in b.waiters[id] then
      var rest := RemoveFirst(b.waiters[id], f);
      b.(waiters := if rest == [] then b.waiters - {id} else b.waiters[id := rest])
    else b
  }

  /** list.remove: the first occurrence goes, everything else stays in its place. */
  lemma {:induction false} RemoveFirstExactly(front: seq<nat>, x: nat, back: seq<nat>)
    requires x !in front
    ensures RemoveFirst(front + [x] + back, x) == front + back
  {
    var s := front + [x] + back;
    if front == [] {
      assert s[1..] == back;
    } else {
      assert s[1..] == front[1..] + [x] + back;
      RemoveFirstExactly(front[1..], x, back);
    }
  }

  lemma {:induction false} RemoveFirstKeepsOthers(s: seq<nat>, x: nat)
    ensures forall k :: 0 <= k < |RemoveFirst(s, x)| ==> RemoveFirst(s, x)[k] in s
    ensures forall y :: y in s && y != x ==> y in RemoveFirst(s, x)
    ensures NoDup(s) ==> NoDup(RemoveFirst(s, x)) && x !in RemoveFirst(s, x)
  {
    if s == [] {
    } else {
      RemoveFirstKeepsOthers(s[1..], x);
      assert s == [s[0]] + s[1..];
      assert NoDup(s) ==> NoDup(s[1..]) && s[0] !in s[1..];
    }
  }

  lemma PushKeepsNoDup(s: seq<nat>, x: nat)
    requires NoDup(s) && x !in s
    ensures NoDup(s + [x])
  {
  }

  /** The finally block takes this future off its list, and touches no other. */
  lemma EndWaitTakesOne(b: Book, f: nat)
    requires BookValid(b) && f < |b.futures|
    ensures var (n, id) := (EndWait(b, f), b.futures[f].id);
            && f !in Waiting(n, id)
            && (forall g :: g != f ==> (g in Waiting(n, id) <==> g in Waiting(b, id)))
            && (forall other :: other != id ==> Waiting(n, other) == Waiting(b, other))
  {
    RemoveFirstKeepsOthers(Waiting(b, b.futures[f].id), f);
  }

  lemma RecordEndKeepsValid(b: Book, id: Id, reason: Reason)
    requires BookValid(b)
    ensures BookValid(RecordEnd(b, id, reason))
  {
    RememberKeepsValid(b.table, id, reason, REMEMBERED);
    Remembers(b.table, id, reason, REMEMBERED);
    var r := RecordEnd(b, id, reason);
    forall f | 0 <= f < |r.futures| && r.futures[f].Pending?
      ensures r.futures[f].id in r.waiters && f in r.waiters[r.futures[f].id]
    {
      assert b.futures[f].Pending?;
      assert b.futures[f].id != id;
    }
    forall other, k | other in r.waiters && 0 <= k < |r.waiters[other]|
      ensures r.waiters[other][k] < |r.futures| && r.futures[r.waiters[other][k]].id == other
    {
      assert b.waiters[other][k] < |b.futures|;
    }
  }

  lemma BeginWaitKeepsValid(b: Book, id: Id)
    requires BookValid(b)
    ensures BookValid(BeginWait(b, id))
  {
    if MustWait(b, id) {
      var r := BeginWait(b, id);
      var n := |b.futures|;
      var key := Strip(id);
      assert n !in Waiting(b, key);
      PushKeepsNoDup(Waiting(b, key), n);
      forall f | 0 <= f < |r.futures| && r.futures[f].Pending?
        ensures r.futures[f].id in r.waiters && f in r.waiters[r.futures[f].id]
      {
        if f == n {
          assert r.waiters[key][|r.waiters[key]| - 1] == n;
        } else {
          assert r.futures[f] == b.futures[f];
        }
      }
      forall other, k | other in r.waiters && 0 <= k < |r.waiters[other]|
        ensures r.waiters[other][k] < |r.futures| && r.futures[r.waiters[other][k]].id == other
      {
        if other == key && k == |r.waiters[key]| - 1 {
        } else {
          assert other in b.waiters && r.waiters[other][k] == b.waiters[other][k];
        }
      }
    }
  }

  lemma CancelWaitKeepsValid(b: Book, f: nat)
    requires BookValid(b) && f < |b.futures|
    ensures BookValid(CancelWait(b, f))
  {
  }

  lemma EndWaitKeepsValid(b: Book, f: nat)
    requires BookValid(b) && f < |b.futures| && !b.futures[f].Pending?
    ensures BookValid(EndWait(b, f))
  {
    var id := b.futures[f].id;
    if id in b.waiters && f in b.waiters[id] {
      var rest := RemoveFirst(b.waiters[id], f);
      RemoveFirstKeepsOthers(b.waiters[id], f);
      var r := EndWait(b, f);
      forall g | 0 <= g < |r.futures| && r.futures[g].Pending?
        ensures r.futures[g].id in r.waiters && g in r.waiters[r.futures[g].id]
      {
        assert g != f && g in b.waiters[b.futures[g].id];
      }
      forall other, k | other in r.waiters && 0 <= k < |r.waiters[other]|
        ensures r.waiters[other][k] < |r.futures| && r.futures[r.waiters[other][k]].id == other
      {
        if other == id {
          assert rest[k] in b.waiters[id];
        }
      }
    }
  }

  /** An end wakes exactly those who wait for that call, all of them, and tells them the reason. */
  lemma EndWakesItsWaiters(b: Book, id: Id, reason: Reason, f: nat)
    requires BookValid(b) && f < |b.futures|
    ensures RecordEnd(b, id, reason).futures[f] ==
      if b.futures[f] == Pending(id) then Done(id, reason) else b.futures[f]
  {
    hide ReasonsValid, Record;
    if f in Waiting(b, id) {
      var k :| 0 <= k < |b.waiters[id]| && b.waiters[id][k] == f;
      assert b.futures[f].id == id;
    }
  }
}
