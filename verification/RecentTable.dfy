// A dictionary that keeps its insertion order and, by evicting the oldest key, a bounded size: the
// form in which dialer and listener remember why their latest calls ended.
module RecentTable {
  import opened Prelude

  type Id = string

  datatype Table<V> = Table(order: seq<Id>, values: map<Id, V>)

  /** Dictionary and order list the same keys, each once. */
  ghost predicate Ordered<V>(t: Table<V>) {
    && NoDup(t.order)
    && (forall i :: 0 <= i < |t.order| ==> t.order[i] in t.values)
    && (forall id :: id in t.values ==> id in t.order)
  }

  ghost predicate TableValid<V>(t: Table<V>, limit: nat) {
    Ordered(t) && |t.order| <= limit
  }

  /** Assigning to a key: in place if it is there, at the end if not. */
  function Assign<V>(t: Table<V>, id: Id, value: V): Table<V> {
    Table(if id in t.values then t.order else t.order + [id], t.values[id := value])
  }

  function PopOldest<V>(t: Table<V>): Table<V>
    requires t.order != []
  {
    Table(t.order[1..], t.values - {t.order[0]})
  }

  function Remember<V>(t: Table<V>, id: Id, value: V, limit: nat): Table<V> {
    var a := Assign(t, id, value);
    if |a.order| > limit then PopOldest(a) else a
  }

  lemma AssignKeepsOrdered<V>(t: Table<V>, id: Id, value: V)
    requires Ordered(t)
    ensures Ordered(Assign(t, id, value))
  {
    var a := Assign(t, id, value);
    if id !in t.values {
      assert a.order[|t.order|] == id;
    }
  }

  lemma PopOldestKeepsOrdered<V>(t: Table<V>)
    requires Ordered(t) && t.order != []
    ensures Ordered(PopOldest(t))
  {
    var p := PopOldest(t);
    assert forall i :: 0 <= i < |p.order| ==> p.order[i] == t.order[i + 1];
    forall x | x in p.values ensures x in p.order {
      var i :| 0 <= i < |t.order| && t.order[i] == x;
      assert p.order[i - 1] == x;
    }
  }

  lemma RememberKeepsValid<V>(t: Table<V>, id: Id, value: V, limit: nat)
    requires TableValid(t, limit)
    ensures TableValid(Remember(t, id, value, limit), limit)
  {
    AssignKeepsOrdered(t, id, value);
    var a := Assign(t, id, value);
    if |a.order| > limit {
      PopOldestKeepsOrdered(a);
    }
  }

  /** The new entry is there, and nothing is made up about any other key. */
  lemma Remembers<V>(t: Table<V>, id: Id, value: V, limit: nat)
    requires TableValid(t, limit) && limit > 0
    ensures var r := Remember(t, id, value, limit).values;
            && id in r && r[id] == value
            && (forall other :: other in r && other != id ==> other in t.values && r[other] == t.values[other])
  {
    if id !in t.values && |t.order| == limit {
      assert t.order[0] in t.values;
    }
  }

  /** How many of these assignments make a new entry. */
  function Insertions<V>(t: Table<V>, entries: seq<(Id, V)>, limit: nat): nat
    decreases |entries|
  {
    if entries == [] then 0
    else (if entries[0].0 in t.values then 0 else 1) +
         Insertions(Remember(t, entries[0].0, entries[0].1, limit), entries[1..], limit)
  }

  function RememberAll<V>(t: Table<V>, entries: seq<(Id, V)>, limit: nat): Table<V>
    decreases |entries|
  {
    if entries == [] then t
    else RememberAll(Remember(t, entries[0].0, entries[0].1, limit), entries[1..], limit)
  }

  ghost predicate Mentions<V>(entries: seq<(Id, V)>, id: Id) {
    exists k :: 0 <= k < |entries| && entries[k].0 == id
  }

  lemma RememberMovesOthers<V>(t: Table<V>, i: nat, id: Id, value: V, limit: nat)
    requires TableValid(t, limit) && i < |t.order| && t.order[i] != id
    ensures var r := Remember(t, id, value, limit);
            var x := t.order[i];
            if id in t.values || |t.order| < limit then
              i < |r.order| && r.order[i] == x && x in r.values && r.values[x] == t.values[x]
            else if i > 0 then
              i - 1 < |r.order| && r.order[i - 1] == x && x in r.values && r.values[x] == t.values[x]
            else
              x !in r.values
    ensures |Remember(t, id, value, limit).order| ==
      if id in t.values then |t.order| else if |t.order| < limit then |t.order| + 1 else limit
  {
  }

  lemma RememberSparesOthers<V>(t: Table<V>, id: Id, value: V, other: Id, limit: nat)
    requires other !in t.values && other != id
    ensures other !in Remember(t, id, value, limit).values
  {
  }

  lemma MentionsTail<V>(entries: seq<(Id, V)>, id: Id)
    requires entries != [] && !Mentions(entries, id)
    ensures entries[0].0 != id && !Mentions(entries[1..], id)
  {
    assert entries[0].0 != id;
    assert forall k :: 0 <= k < |entries[1..]| ==> entries[1..][k] == entries[k + 1];
  }

  lemma {:induction false} AbsentStaysAbsent<V>(t: Table<V>, id: Id, entries: seq<(Id, V)>, limit: nat)
    requires id !in t.values && !Mentions(entries, id)
    ensures id !in RememberAll(t, entries, limit).values
    decreases |entries|
  {
    hide Remember, Mentions;
    if entries == [] {
    } else {
      MentionsTail(entries, id);
      RememberSparesOthers(t, entries[0].0, entries[0].1, id, limit);
      AbsentStaysAbsent(Remember(t, entries[0].0, entries[0].1, limit), id, entries[1..], limit);
    }
  }

  /**
   * Eviction is oldest-inserted-first, exactly: the i-th oldest entry survives if and only if the
   * later assignments make at most i new entries beyond the free places; assigning again to a key
   * that is still there costs nothing.
   */
  lemma {:induction false} SurvivesExactly<V>(t: Table<V>, i: nat, entries: seq<(Id, V)>, limit: nat)
    requires TableValid(t, limit) && i < |t.order| && !Mentions(entries, t.order[i])
    ensures var after := RememberAll(t, entries, limit).values;
            if Insertions(t, entries, limit) <= i + limit - |t.order|
            then t.order[i] in after && t.order[i] in t.values && after[t.order[i]] == t.values[t.order[i]]
            else t.order[i] !in after
    decreases |entries|
  {
    assert |t.order| <= limit && t.order[i] in t.values;
    hide Remember, Mentions, TableValid;
    if entries == [] {
    } else {
      var (id, value) := (entries[0].0, entries[0].1);
      MentionsTail(entries, t.order[i]);
      var r := Remember(t, id, value, limit);
      RememberKeepsValid(t, id, value, limit);
      RememberMovesOthers(t, i, id, value, limit);
      if id in t.values || |t.order| < limit {
        SurvivesExactly(r, i, entries[1..], limit);
      } else if i > 0 {
        SurvivesExactly(r, i - 1, entries[1..], limit);
      } else {
        AbsentStaysAbsent(r, t.order[i], entries[1..], limit);
      }
    }
  }
}
