// The portal's event history: what each poll fetches, what the cache keeps and what is fired.
module EventHistory {
  import opened Prelude

  datatype Event = Event(id: string, screenshot: bool)

  const PAGE := 20
  const CACHE := 200

  function FirstN<T>(s: seq<T>, n: nat): seq<T> {
    if |s| <= n then s else s[..n]
  }

  /** The events in front of the one with this id, or all of them. */
  function Before(events: seq<Event>, id: string): seq<Event> {
    if events == [] || events[0].id == id then [] else [events[0]] + Before(events[1..], id)
  }

  function NonScreenshots(events: seq<Event>): seq<Event> {
    if events == [] then []
    else (if events[0].screenshot then [] else [events[0]]) + NonScreenshots(events[1..])
  }

  /** The portal's answer: the newest page of what is newer than `newestId`, newest first. */
  function Reply(history: seq<Event>, newestId: string): seq<Event> {
    FirstN(if newestId == "" then history else Before(history, newestId), PAGE)
  }

  // ----- the coordinator and the entity -----

  class Coordinator {
    var newestId: string
    var events: seq<Event>
    var lastEvent: Option<Event>

    constructor ()
      ensures newestId == "" && events == [] && lastEvent == None
    {
      newestId, events, lastEvent := "", [], None;
    }

    /** The part of poll_events behind the request: an empty answer changes nothing. */
    method Poll(reply: seq<Event>)
      modifies this
      ensures events == FirstN(reply + old(events), if reply == [] then |old(events)| else 200)
      ensures newestId == if reply != [] && reply[0].id != "" then reply[0].id else old(newestId)
      ensures lastEvent == if NonScreenshots(reply) != [] then Some(NonScreenshots(reply)[0]) else old(lastEvent)
    {
      if reply == [] {
        assert [] + events == events;
        return;
      }
      if reply[0].id != "" {
        newestId := reply[0].id;
      }
      events := reply + events;
      if |events| > CACHE {
        events := events[..CACHE];
      }
      var i := 0;
      while i < |reply|
        invariant 0 <= i <= |reply|
        invariant NonScreenshots(reply) == NonScreenshots(reply[i..])
        invariant lastEvent == old(lastEvent)
      {
        assert reply[i..][1..] == reply[i + 1..];
        if !reply[i].screenshot {
          lastEvent := Some(reply[i]);
          break;
        }
        i := i + 1;
      }
    }
  }

  class EventEntity {
    var lastSeenId: string
    var fired: seq<Event>

    constructor ()
      ensures lastSeenId == "" && fired == []
    {
      lastSeenId, fired := "", [];
    }

    /** _handle_update: newest first, up to the last seen event. */
    method HandleUpdate(events: seq<Event>)
      modifies this
      ensures fired == old(fired) + NonScreenshots(Before(events, old(lastSeenId)))
      ensures lastSeenId == if events == [] then old(lastSeenId) else events[0].id
    {
      hide Before, NonScreenshots;
      assert events[0..] == events;
      var i := 0;
      while i < |events| && events[i].id != lastSeenId
        invariant 0 <= i <= |events| && lastSeenId == old(lastSeenId)
        invariant fired + NonScreenshots(Before(events[i..], lastSeenId)) ==
                  old(fired) + NonScreenshots(Before(events, lastSeenId))
      {
        FiresNext(events, i, lastSeenId);
        if !events[i].screenshot {
          fired := fired + [events[i]];
        }
        i := i + 1;
      }
      FiresNoMore(events, i, lastSeenId);
      if events != [] {
        lastSeenId := events[0].id;
      }
    }
  }

  lemma FiresNoMore(events: seq<Event>, i: nat, id: string)
    requires i <= |events| && (i < |events| ==> events[i].id == id)
    ensures NonScreenshots(Before(events[i..], id)) == []
  {
    assert i < |events| ==> events[i..][0] == events[i];
  }

  lemma FiresNext(events: seq<Event>, i: nat, id: string)
    requires i < |events| && events[i].id != id
    ensures NonScreenshots(Before(events[i..], id)) ==
      (if events[i].screenshot then [] else [events[i]]) + NonScreenshots(Before(events[i + 1..], id))
  {
    assert events[i..][0] == events[i] && events[i..][1..] == events[i + 1..];
    assert Before(events[i..], id)[1..] == Before(events[i + 1..], id);
  }

  // ----- whole runs -----

  /** `groups[k]` are the events, newest first, that happen between poll k - 1 and poll k. */
  function History(groups: seq<seq<Event>>): seq<Event> {
    if groups == [] then [] else groups[|groups| - 1] + History(groups[..|groups| - 1])
  }

  /** What a page limit of 20 lets through of each group, newest first. */
  function Fetched(groups: seq<seq<Event>>): seq<Event> {
    if groups == [] then []
    else FirstN(groups[|groups| - 1], PAGE) + Fetched(groups[..|groups| - 1])
  }

  /** The order in which the entity fires: group by group, each newest first. */
  function FiringOrder(groups: seq<seq<Event>>): seq<Event> {
    if groups == [] then []
    else FiringOrder(groups[..|groups| - 1]) + NonScreenshots(FirstN(groups[|groups| - 1], PAGE))
  }

  ghost predicate DistinctIds(events: seq<Event>) {
    (forall i, j :: 0 <= i < j < |events| ==> events[i].id != events[j].id) &&
    (forall i :: 0 <= i < |events| ==> events[i].id != "")
  }

  lemma {:induction false} BeforeOfAppend(newer: seq<Event>, older: seq<Event>, id: string)
    requires forall i :: 0 <= i < |newer| ==> newer[i].id != id
    requires older == [] || older[0].id == id
    ensures Before(newer + older, id) == newer
  {
    if newer == [] {
      assert newer + older == older;
    } else {
      assert (newer + older)[1..] == newer[1..] + older;
      BeforeOfAppend(newer[1..], older, id);
    }
  }

  /** Cache and cursors after a round: the newest 200 fetched events, and the head of the history. */
  ghost predicate CacheMatches(groups: seq<seq<Event>>, events: seq<Event>, newestId: string) {
    && events == FirstN(Fetched(groups), 200)
    && newestId == (if History(groups) == [] then "" else History(groups)[0].id)
    && (events == [] <==> History(groups) == [])
    && (events != [] ==> events[0] == History(groups)[0])
  }

  /** The newest non-screenshot event that was fetched. */
  function NewestShown(groups: seq<seq<Event>>): Option<Event> {
    if NonScreenshots(Fetched(groups)) == [] then None else Some(NonScreenshots(Fetched(groups))[0])
  }

  ghost predicate Idle(c: Coordinator, e: EventEntity, groups: seq<seq<Event>>)
    reads c, e
  {
    && CacheMatches(groups, c.events, c.newestId)
    && c.lastEvent == NewestShown(groups)
    && e.lastSeenId == c.newestId
    && e.fired == FiringOrder(groups)
  }

  lemma {:induction false} NonScreenshotsAppend(a: seq<Event>, b: seq<Event>)
    ensures NonScreenshots(a + b) == NonScreenshots(a) + NonScreenshots(b)
  {
    if a == [] {
      assert a + b == b;
    } else {
      assert (a + b)[1..] == a[1..] + b;
      NonScreenshotsAppend(a[1..], b);
    }
  }

  /** What a poll fetches when everything so far was seen: the newest page of the new group. */
  lemma ReplyIsNewGroup(group: seq<Event>, older: seq<Event>, newestId: string)
    requires DistinctIds(group + older)
    requires newestId == if older == [] then "" else older[0].id
    ensures Reply(group + older, newestId) == FirstN(group, PAGE)
  {
    if older == [] {
      assert group + older == group;
    } else {
      assert (group + older)[|group|] == older[0];
      forall i | 0 <= i < |group| ensures group[i].id != newestId {
        assert (group + older)[i] == group[i];
      }
      BeforeOfAppend(group, older, newestId);
    }
  }

  lemma FirstNTwice<T>(a: seq<T>, b: seq<T>, n: nat)
    ensures FirstN(a + FirstN(b, n), n) == FirstN(a + b, n)
  {
    if |b| > n {
      assert (a + b[..n])[..n] == (a + b)[..n];
    }
  }

  /** Behind the reply the cache still holds its old newest event, so the entity stops right there. */
  lemma CacheKeepsCursor(reply: seq<Event>, cached: seq<Event>, id: string)
    requires |reply| <= PAGE
    requires forall i :: 0 <= i < |reply| ==> reply[i].id != id
    requires cached == [] || cached[0].id == id
    ensures Before(FirstN(reply + cached, CACHE), id) == reply
  {
    var rest := FirstN(cached, CACHE - |reply|);
    assert FirstN(reply + cached, CACHE) == reply + rest;
    BeforeOfAppend(reply, rest, id);
  }

  lemma GroupAppended(groups: seq<seq<Event>>, group: seq<Event>)
    ensures History(groups + [group]) == group + History(groups)
    ensures Fetched(groups + [group]) == FirstN(group, PAGE) + Fetched(groups)
    ensures FiringOrder(groups + [group]) == FiringOrder(groups) + NonScreenshots(FirstN(group, PAGE))
  {
    assert (groups + [group])[..|groups|] == groups;
  }

  lemma RoundKeepsCache(groups: seq<seq<Event>>, group: seq<Event>, events: seq<Event>, newestId: string)
    requires CacheMatches(groups, events, newestId) && DistinctIds(group + History(groups))
    ensures var reply := FirstN(group, PAGE);
            CacheMatches(groups + [group], FirstN(reply + events, CACHE),
                         if reply != [] then reply[0].id else newestId)
  {
    var reply := FirstN(group, PAGE);
    GroupAppended(groups, group);
    FirstNTwice(reply, Fetched(groups), CACHE);
    assert group != [] ==> (group + History(groups))[0] == reply[0];
    assert group == [] ==> group + History(groups) == History(groups) && reply + events == events;
  }

  lemma RoundFinds(groups: seq<seq<Event>>, group: seq<Event>, events: seq<Event>, newestId: string)
    requires CacheMatches(groups, events, newestId) && DistinctIds(group + History(groups))
    ensures Reply(group + History(groups), newestId) == FirstN(group, PAGE)
    ensures Before(FirstN(FirstN(group, PAGE) + events, CACHE), newestId) == FirstN(group, PAGE)
    ensures group != [] ==> group[0].id != ""
  {
    var history := group + History(groups);
    ReplyIsNewGroup(group, History(groups), newestId);
    forall i | 0 <= i < |FirstN(group, PAGE)| ensures FirstN(group, PAGE)[i].id != newestId {
      assert history[i] == group[i];
      if History(groups) != [] {
        assert history[|group|] == History(groups)[0];
      }
    }
    CacheKeepsCursor(FirstN(group, PAGE), events, newestId);
    assert group != [] ==> history[0] == group[0];
  }

  lemma RoundShows(groups: seq<seq<Event>>, group: seq<Event>)
    ensures var shown := NonScreenshots(FirstN(group, PAGE));
            NewestShown(groups + [group]) == if shown != [] then Some(shown[0]) else NewestShown(groups)
  {
    GroupAppended(groups, group);
    NonScreenshotsAppend(FirstN(group, PAGE), Fetched(groups));
  }

  /** One round: the group happens, the coordinator polls, the entity is notified. */
  method Round(c: Coordinator, e: EventEntity, ghost groups: seq<seq<Event>>, group: seq<Event>, history: seq<Event>)
    requires Idle(c, e, groups)
    requires history == group + History(groups) && DistinctIds(history)
    modifies c, e
    ensures Idle(c, e, groups + [group])
  {
    hide Before, NonScreenshots, DistinctIds, Fetched, FiringOrder;
    ghost var (events, id) := (c.events, c.newestId);
    RoundFinds(groups, group, events, id);
    RoundKeepsCache(groups, group, events, id);
    RoundShows(groups, group);
    GroupAppended(groups, group);
    var reply := Reply(history, c.newestId);
    c.Poll(reply);
    assert reply == [] ==> [] + events == events && c.events == events;
    e.HandleUpdate(c.events);
  }

  // ----- exactly once -----

  lemma {:induction false} CountNonScreenshots(events: seq<Event>, ev: Event)
    requires DistinctIds(events)
    ensures multiset(NonScreenshots(events))[ev] == if ev in events && !ev.screenshot then 1 else 0
  {
    if events == [] {
    } else {
      var tail := events[1..];
      assert events == [events[0]] + tail;
      assert DistinctIds(tail);
      CountNonScreenshots(tail, ev);
      assert events[0] !in tail by {
        assert forall j :: 0 <= j < |tail| ==> tail[j] == events[j + 1];
      }
      if !events[0].screenshot {
        assert NonScreenshots(events) == [events[0]] + NonScreenshots(tail);
      }
    }
  }

  /** The event is within the first page of its group. */
  ghost predicate WithinPage(groups: seq<seq<Event>>, ev: Event) {
    exists k :: 0 <= k < |groups| && ev in FirstN(groups[k], PAGE)
  }

  ghost predicate InSomeGroup(groups: seq<seq<Event>>, ev: Event) {
    exists k :: 0 <= k < |groups| && ev in groups[k]
  }

  lemma InSomeGroupStep(groups: seq<seq<Event>>, ev: Event)
    requires groups != []
    ensures InSomeGroup(groups, ev) <==> InSomeGroup(groups[..|groups| - 1], ev) || ev in groups[|groups| - 1]
  {
    var front := groups[..|groups| - 1];
    if k :| 0 <= k < |front| && ev in front[k] {
      assert ev in groups[k];
    }
    if k :| 0 <= k < |groups| && ev in groups[k] {
      if k < |front| {
        assert ev in front[k];
      }
    }
  }

  lemma {:induction false} HistoryMembers(groups: seq<seq<Event>>, ev: Event)
    ensures ev in History(groups) <==> InSomeGroup(groups, ev)
  {
    if groups == [] {
    } else {
      HistoryMembers(groups[..|groups| - 1], ev);
      InSomeGroupStep(groups, ev);
    }
  }

  lemma DistinctParts(a: seq<Event>, b: seq<Event>)
    requires DistinctIds(a + b)
    ensures DistinctIds(a) && DistinctIds(b)
    ensures forall x, y :: x in a && y in b ==> x.id != y.id
  {
    forall i, j | 0 <= i < j < |a| ensures a[i].id != a[j].id {
      assert (a + b)[i] == a[i] && (a + b)[j] == a[j];
    }
    forall i, j | 0 <= i < j < |b| ensures b[i].id != b[j].id {
      assert (a + b)[|a| + i] == b[i] && (a + b)[|a| + j] == b[j];
    }
    forall i | 0 <= i < |a| ensures a[i].id != "" {
      assert (a + b)[i] == a[i];
    }
    forall i | 0 <= i < |b| ensures b[i].id != "" {
      assert (a + b)[|a| + i] == b[i];
    }
    forall x, y | x in a && y in b ensures x.id != y.id {
      var i :| 0 <= i < |a| && a[i] == x;
      var j :| 0 <= j < |b| && b[j] == y;
      assert (a + b)[i] == x && (a + b)[|a| + j] == y;
    }
  }

  function Pages(groups: seq<seq<Event>>): (pages: seq<seq<Event>>)
    ensures |pages| == |groups| && forall k :: 0 <= k < |groups| ==> pages[k] == FirstN(groups[k], PAGE)
  {
    if groups == [] then [] else Pages(groups[..|groups| - 1]) + [FirstN(groups[|groups| - 1], PAGE)]
  }

  lemma WithinPageStep(groups: seq<seq<Event>>, ev: Event)
    requires groups != []
    ensures WithinPage(groups, ev) <==>
      WithinPage(groups[..|groups| - 1], ev) || ev in FirstN(groups[|groups| - 1], PAGE)
  {
    var front := groups[..|groups| - 1];
    InSomeGroupStep(Pages(groups), ev);
    assert Pages(groups)[..|groups| - 1] == Pages(front);
    assert WithinPage(groups, ev) <==> InSomeGroup(Pages(groups), ev);
    assert WithinPage(front, ev) <==> InSomeGroup(Pages(front), ev);
  }

  lemma WithinPageIsHistory(groups: seq<seq<Event>>, ev: Event)
    requires WithinPage(groups, ev)
    ensures ev in History(groups)
  {
    var k :| 0 <= k < |groups| && ev in FirstN(groups[k], PAGE);
    assert ev in groups[k];
    HistoryMembers(groups, ev);
  }

  lemma PageIsDistinct(group: seq<Event>)
    requires DistinctIds(group)
    ensures DistinctIds(FirstN(group, PAGE))
    ensures forall ev :: ev in FirstN(group, PAGE) ==> ev in group
  {
  }

  /** Over a whole run, an event is fired once if it was within a page and no screenshot, else never. */
  lemma {:induction false} FiringCount(groups: seq<seq<Event>>, ev: Event)
    requires DistinctIds(History(groups))
    ensures multiset(FiringOrder(groups))[ev] == if WithinPage(groups, ev) && !ev.screenshot then 1 else 0
  {
    if groups == [] {
    } else {
      var (front, last) := (groups[..|groups| - 1], groups[|groups| - 1]);
      hide NonScreenshots, WithinPage, DistinctIds, FirstN;
      DistinctParts(last, History(front));
      PageIsDistinct(last);
      FiringCount(front, ev);
      CountNonScreenshots(FirstN(last, PAGE), ev);
      WithinPageStep(groups, ev);
      if WithinPage(front, ev) {
        WithinPageIsHistory(front, ev);
      }
    }
  }

  /** Every non-screenshot event of the whole history is fired exactly once. */
  ghost predicate AllFiredOnce(groups: seq<seq<Event>>) {
    forall ev :: ev in History(groups) && !ev.screenshot ==> multiset(FiringOrder(groups))[ev] == 1
  }

  /** No group has a non-screenshot event behind its first page. */
  ghost predicate PagesSuffice(groups: seq<seq<Event>>) {
    forall k, i :: 0 <= k < |groups| && 20 <= i < |groups[k]| ==> groups[k][i].screenshot
  }

  lemma {:induction false} PositionsAreUnique(groups: seq<seq<Event>>, k: nat, i: nat, l: nat, j: nat)
    requires DistinctIds(History(groups))
    requires k < |groups| && i < |groups[k]| && l < |groups| && j < |groups[l]|
    requires groups[k][i] == groups[l][j]
    ensures k == l && i == j
    decreases |groups|
  {
    var (front, last) := (groups[..|groups| - 1], groups[|groups| - 1]);
    DistinctParts(last, History(front));
    assert groups[k][i] in groups[k] && groups[l][j] in groups[l];
    HistoryMembers(front, groups[k][i]);
    if k < |front| && l < |front| {
      PositionsAreUnique(front, k, i, l, j);
    } else if k < |front| || l < |front| {
      assert false;
    }
  }

  /**
   * Exactly-once delivery holds if and only if no poll finds a non-screenshot event behind the
   * first 20 new ones; in every case, nothing is ever fired twice.
   */
  lemma ExactlyOnce(groups: seq<seq<Event>>)
    requires DistinctIds(History(groups))
    ensures AllFiredOnce(groups) <==> PagesSuffice(groups)
    ensures forall ev :: multiset(FiringOrder(groups))[ev] <= 1
  {
    forall ev ensures multiset(FiringOrder(groups))[ev] <= 1 {
      FiringCount(groups, ev);
    }
    if PagesSuffice(groups) {
      forall ev | ev in History(groups) && !ev.screenshot ensures multiset(FiringOrder(groups))[ev] == 1 {
        FiringCount(groups, ev);
        HistoryMembers(groups, ev);
        assert InSomeGroup(groups, ev);
        var k :| 0 <= k < |groups| && ev in groups[k];
        var i :| 0 <= i < |groups[k]| && groups[k][i] == ev;
        assert FirstN(groups[k], PAGE)[i] == ev;
        assert ev in FirstN(groups[k], PAGE);
      }
    }
    if AllFiredOnce(groups) {
      forall k, i | 0 <= k < |groups| && PAGE <= i < |groups[k]| ensures groups[k][i].screenshot {
        LostIsUnfired(groups, k, i);
      }
    }
  }

  lemma LostIsUnfired(groups: seq<seq<Event>>, k: nat, i: nat)
    requires DistinctIds(History(groups)) && AllFiredOnce(groups)
    requires k < |groups| && PAGE <= i < |groups[k]|
    ensures groups[k][i].screenshot
  {
    var ev := groups[k][i];
    assert ev in groups[k];
    HistoryMembers(groups, ev);
    FiringCount(groups, ev);
    if l :| 0 <= l < |groups| && ev in FirstN(groups[l], PAGE) {
      var j :| 0 <= j < |FirstN(groups[l], PAGE)| && FirstN(groups[l], PAGE)[j] == ev;
      PositionsAreUnique(groups, k, i, l, j);
    }
  }

  /** When no poll finds more than a page, the cache is exactly the newest 200 of the history. */
  lemma {:induction false} NothingIsLost(groups: seq<seq<Event>>)
    requires forall k :: 0 <= k < |groups| ==> |groups[k]| <= 20
    ensures Fetched(groups) == History(groups)
  {
    if groups == [] {
    } else {
      NothingIsLost(groups[..|groups| - 1]);
    }
  }

  // ----- the entity after a whole run -----

  lemma {:induction false} EarlierIsDistinct(groups: seq<seq<Event>>, k: nat)
    requires k <= |groups| && DistinctIds(History(groups))
    ensures DistinctIds(History(groups[..k]))
  {
    if k == |groups| {
      assert groups[..k] == groups;
    } else {
      var front := groups[..|groups| - 1];
      DistinctParts(groups[|groups| - 1], History(front));
      assert front[..k] == groups[..k];
      EarlierIsDistinct(front, k);
    }
  }

  /**
   * Polls and notifications over all groups of events: what the entity has fired in the end holds
   * nothing twice, and it holds every non-screenshot event if and only if no poll found one behind
   * its first page.
   */
  method Rounds(c: Coordinator, e: EventEntity, groups: seq<seq<Event>>)
    requires Idle(c, e, []) && DistinctIds(History(groups))
    modifies c, e
    ensures Idle(c, e, groups)
    ensures forall ev :: multiset(e.fired)[ev] <= 1
    ensures (forall ev :: ev in History(groups) && !ev.screenshot ==> multiset(e.fired)[ev] == 1)
            <==> PagesSuffice(groups)
  {
    hide History, FiringOrder, PagesSuffice, AllFiredOnce;
    var history: seq<Event> := [];
    var k := 0;
    assert groups[..0] == [];
    while k < |groups|
      invariant 0 <= k <= |groups|
      invariant history == History(groups[..k]) && Idle(c, e, groups[..k])
    {
      hide DistinctIds, CacheMatches, Idle, NewestShown;
      EarlierIsDistinct(groups, k + 1);
      GroupAppended(groups[..k], groups[k]);
      assert groups[..k + 1] == groups[..k] + [groups[k]];
      history := groups[k] + history;
      Round(c, e, groups[..k], groups[k], history);
      k := k + 1;
    }
    assert groups[..k] == groups;
    FiredExactlyOnce(groups, e.fired);
  }

  lemma FiredExactlyOnce(groups: seq<seq<Event>>, fired: seq<Event>)
    requires DistinctIds(History(groups)) && fired == FiringOrder(groups)
    ensures forall ev :: multiset(fired)[ev] <= 1
    ensures (forall ev :: ev in History(groups) && !ev.screenshot ==> multiset(fired)[ev] == 1)
            <==> PagesSuffice(groups)
  {
    hide PagesSuffice, DistinctIds, FiringOrder;
    ExactlyOnce(groups);
  }
}
