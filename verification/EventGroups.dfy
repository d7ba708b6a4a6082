/** Groups of events, and what the grouped events model makes of a stream of events (historygroupedeventsmodel.cpp). */
module EventGroups {
  import opened Permutations
  import opened HistoryModel
  import opened Strings
  import opened Threads
  import Participants

  /** What Event::operator== compares. */
  datatype EventId = EventId(eventType: int, accountId: string, threadId: string, eventId: string)

  /** An event: its identity, and the rest of its properties. */
  datatype Event = Event(id: EventId, properties: map<string, string>, participants: seq<string>)

  datatype EventGroup = EventGroup(displayedEvent: Event, events: seq<Event>)

  predicate Contains(events: seq<Event>, e: Event) {
    exists i :: 0 <= i < |events| && events[i].id == e.id
  }

  function Displays(groups: seq<EventGroup>): (r: seq<Event>)
    ensures |r| == |groups|
  {
    seq(|groups|, i requires 0 <= i < |groups| => groups[i].displayedEvent)
  }

  // ---------------------------------------------------------------- one group

  ghost predicate DistinctIds(events: seq<Event>) {
    forall i, j :: 0 <= i < j < |events| ==> events[i].id != events[j].id
  }

  /** Never empty, no event twice, in order, showing its first event. */
  ghost predicate GroupOk(before: (Event, Event) -> bool, g: EventGroup) {
    && g.events != [] && g.displayedEvent == g.events[0]
    && DistinctIds(g.events) && Sorted(before, g.events)
  }

  /** The first event that e goes before, or the end. */
  function InsertionPoint(before: (Event, Event) -> bool, events: seq<Event>, e: Event): (i: nat)
    ensures i <= |events|
    ensures i < |events| ==> before(e, events[i])
    ensures forall k :: 0 <= k < i ==> !before(e, events[k])
  {
    if events == [] || before(e, events[0]) then 0 else 1 + InsertionPoint(before, events[1..], e)
  }

  /** addEventToGroup */
  function WithEvent(before: (Event, Event) -> bool, g: EventGroup, e: Event): EventGroup {
    var events := if Contains(g.events, e) then g.events else Insert(g.events, InsertionPoint(before, g.events, e), e);
    if events != [] && g.displayedEvent.id != events[0].id then EventGroup(events[0], events) else g.(events := events)
  }

  lemma WithEventOk(before: (Event, Event) -> bool, g: EventGroup, e: Event)
    requires StrictWeakOrder(before) && GroupOk(before, g)
    ensures GroupOk(before, WithEvent(before, g, e))
    ensures !Contains(g.events, e) ==>
              WithEvent(before, g, e).displayedEvent == if before(e, g.displayedEvent) then e else g.displayedEvent
    ensures Contains(g.events, e) ==> WithEvent(before, g, e) == g
    ensures multiset(WithEvent(before, g, e).events)
         == multiset(g.events) + if Contains(g.events, e) then multiset{} else multiset{e}
  {
    if !Contains(g.events, e) {
      var p := InsertionPoint(before, g.events, e);
      InsertUpper(before, g.events, e, p);
      InsertDistinct(g.events, e, p);
      assert Insert(g.events, p, e)[0] == if p == 0 then e else g.events[0];
      assert before(e, g.events[0]) <==> p == 0;
    }
  }

  lemma InsertDistinct(events: seq<Event>, e: Event, p: nat)
    requires DistinctIds(events) && !Contains(events, e) && p <= |events|
    ensures DistinctIds(Insert(events, p, e))
    ensures multiset(Insert(events, p, e)) == multiset(events) + multiset{e}
  {
    InsertElements(events, p, e);
  }

  lemma InsertUpper(before: (Event, Event) -> bool, events: seq<Event>, e: Event, p: nat)
    requires StrictWeakOrder(before) && Sorted(before, events) && p <= |events|
    requires p < |events| ==> before(e, events[p])
    requires forall k :: 0 <= k < p ==> !before(e, events[k])
    ensures Sorted(before, Insert(events, p, e))
  {
    forall k | p <= k < |events| ensures !before(events[k], e) {
      Asymmetric(before, e, events[p]);
      if k > p { NotAfterTransitive(before, e, events[p], events[k]); }
    }
  }

  /** removeEventFromGroup, for a group with other events left: the first event is shown. */
  function WithoutEvent(events: seq<Event>, e: Event): seq<Event> {
    if events == [] then []
    else if events[0].id == e.id then events[1..]
    else [events[0]] + WithoutEvent(events[1..], e)
  }

  lemma HeadBefore(before: (Event, Event) -> bool, events: seq<Event>)
    requires DistinctIds(events) && Sorted(before, events) && events != []
    ensures forall x :: x in events[1..] ==> x.id != events[0].id && !before(x, events[0])
  {
  }

  lemma ConsOk(before: (Event, Event) -> bool, head: Event, rest: seq<Event>)
    requires DistinctIds(rest) && Sorted(before, rest)
    requires forall x :: x in rest ==> x.id != head.id && !before(x, head)
    ensures DistinctIds([head] + rest) && Sorted(before, [head] + rest)
  {
  }

  lemma {:induction false} WithoutEventElements(events: seq<Event>, e: Event, x: Event)
    requires DistinctIds(events)
    ensures x in WithoutEvent(events, e) <==> x in events && x.id != e.id
  {
    if events != [] {
      WithoutEventElements(events[1..], e, x);
      assert x in events <==> x == events[0] || x in events[1..];
      assert events[0].id == e.id && x in events[1..] ==> x.id != e.id;
    }
  }

  lemma {:induction false} WithoutEventOk(before: (Event, Event) -> bool, events: seq<Event>, e: Event)
    requires DistinctIds(events) && Sorted(before, events)
    ensures DistinctIds(WithoutEvent(events, e)) && Sorted(before, WithoutEvent(events, e))
  {
    if events != [] {
      WithoutEventOk(before, events[1..], e);
      HeadBefore(before, events);
      forall x | x in WithoutEvent(events[1..], e) ensures x in events[1..] {
        WithoutEventElements(events[1..], e, x);
      }
      if events[0].id != e.id { ConsOk(before, events[0], WithoutEvent(events[1..], e)); }
    }
  }

  // ---------------------------------------------------------------- lists of groups

  ghost predicate AllOk(before: (Event, Event) -> bool, groups: seq<EventGroup>) {
    forall i :: 0 <= i < |groups| ==> GroupOk(before, groups[i])
  }

  ghost predicate InOrder(before: (Event, Event) -> bool, groups: seq<EventGroup>) {
    Sorted(before, Displays(groups))
  }

  /** One round of onEventsAdded, the search having answered pos. */
  function AddedAt(before: (Event, Event) -> bool, same: (Event, Event) -> bool, groups: seq<EventGroup>, e: Event,
                   pos: nat):
    seq<EventGroup>
    requires pos <= |groups|
  {
    if pos < |groups| && same(e, groups[pos].displayedEvent) then groups[pos := WithEvent(before, groups[pos], e)]
    else Insert(groups, pos, EventGroup(e, [e]))
  }

  /** One round of onEventsRemoved, the search having answered pos. */
  function RemovedAt(groups: seq<EventGroup>, e: Event, pos: nat): seq<EventGroup>
    requires pos <= |groups|
  {
    if pos == |groups| || !Contains(groups[pos].events, e) then groups
    else
      var events := WithoutEvent(groups[pos].events, e);
      if events == [] then RemoveAt(groups, pos) else groups[pos := EventGroup(events[0], events)]
  }

  /** Where fetchMore puts e: the group found from the bottom, or the place for a new one. */
  datatype Spot = InGroup(pos: nat) | NewGroup(pos: nat)

  function ScanUp(before: (Event, Event) -> bool, same: (Event, Event) -> bool, groups: seq<EventGroup>, e: Event,
                  n: nat): (r: Spot)
    requires n <= |groups|
    ensures r.pos <= |groups| && (r.InGroup? ==> r.pos < |groups|)
  {
    if n == 0 then NewGroup(0)
    else if same(e, groups[n - 1].displayedEvent) then InGroup(n - 1)
    else if before(groups[n - 1].displayedEvent, e) then NewGroup(n)
    else ScanUp(before, same, groups, e, n - 1)
  }

  function PutAt(before: (Event, Event) -> bool, groups: seq<EventGroup>, e: Event, spot: Spot): seq<EventGroup>
    requires spot.pos <= |groups| && (spot.InGroup? ==> spot.pos < |groups|)
  {
    match spot
    case InGroup(pos) => groups[pos := WithEvent(before, groups[pos], e)]
    case NewGroup(pos) => Insert(groups, pos, EventGroup(e, [e]))
  }

  function Fetched(before: (Event, Event) -> bool, same: (Event, Event) -> bool, groups: seq<EventGroup>,
                   e: Event): seq<EventGroup> {
    PutAt(before, groups, e, ScanUp(before, same, groups, e, |groups|))
  }

  function Fold<S, E>(f: (S, E) -> S, s: S, es: seq<E>): S {
    if es == [] then s else f(Fold(f, s, es[..|es| - 1]), es[|es| - 1])
  }

  lemma {:induction false} FoldConcat<S, E>(f: (S, E) -> S, s: S, es1: seq<E>, es2: seq<E>)
    ensures Fold(f, Fold(f, s, es1), es2) == Fold(f, s, es1 + es2)
    decreases |es2|
  {
    if es2 == [] {
      assert es1 + es2 == es1;
    } else {
      var n := |es2| - 1;
      FoldConcat(f, s, es1, es2[..n]);
      assert (es1 + es2)[..|es1 + es2| - 1] == es1 + es2[..n];
    }
  }

  /** fetchMore on a page of events. */
  function FetchedAll(before: (Event, Event) -> bool, same: (Event, Event) -> bool, groups: seq<EventGroup>,
                      page: seq<Event>):
    seq<EventGroup>
  {
    Fold((g, e) => Fetched(before, same, g, e), groups, page)
  }

  lemma SingleOk(before: (Event, Event) -> bool, e: Event)
    ensures GroupOk(before, EventGroup(e, [e]))
  {
  }

  /** Wherever the search lands, adding keeps every group proper. */
  lemma AddedAtOk(before: (Event, Event) -> bool, same: (Event, Event) -> bool, groups: seq<EventGroup>, e: Event,
                  pos: nat)
    requires StrictWeakOrder(before) && AllOk(before, groups) && pos <= |groups|
    ensures AllOk(before, AddedAt(before, same, groups, e, pos))
  {
    SingleOk(before, e);
    if pos < |groups| { WithEventOk(before, groups[pos], e); }
  }

  lemma FetchedOk(before: (Event, Event) -> bool, same: (Event, Event) -> bool, groups: seq<EventGroup>, e: Event)
    requires StrictWeakOrder(before) && AllOk(before, groups)
    ensures AllOk(before, Fetched(before, same, groups, e))
  {
    SingleOk(before, e);
    var spot := ScanUp(before, same, groups, e, |groups|);
    if spot.InGroup? { WithEventOk(before, groups[spot.pos], e); }
  }

  lemma RemovedAtOk(before: (Event, Event) -> bool, groups: seq<EventGroup>, e: Event, pos: nat)
    requires AllOk(before, groups) && pos <= |groups|
    ensures AllOk(before, RemovedAt(groups, e, pos))
  {
    if pos < |groups| { WithoutEventOk(before, groups[pos].events, e); }
  }

  lemma DisplaysInsert(groups: seq<EventGroup>, p: nat, g: EventGroup)
    requires p <= |groups|
    ensures Displays(Insert(groups, p, g)) == Insert(Displays(groups), p, g.displayedEvent)
  {
  }

  lemma DisplaysUpdate(groups: seq<EventGroup>, p: nat, g: EventGroup)
    requires p < |groups|
    ensures Displays(groups[p := g]) == Displays(groups)[p := g.displayedEvent]
  {
  }

  /** An update between two neighbours it does not cross. */
  lemma UpdateSorted(before: (Event, Event) -> bool, items: seq<Event>, p: nat, e: Event)
    requires StrictWeakOrder(before) && Sorted(before, items) && p < |items|
    ensures Sorted(before, items[p := e]) <==>
              (p == 0 || !before(e, items[p - 1])) && (p + 1 == |items| || !before(items[p + 1], e))
  {
    var after := items[p := e];
    if (p == 0 || !before(e, items[p - 1])) && (p + 1 == |items| || !before(items[p + 1], e)) {
      forall i, j | 0 <= i < j < |items| ensures !before(after[j], after[i]) {
        if i == p && j > p + 1 { NotAfterTransitive(before, e, items[p + 1], items[j]); }
        if j == p && i < p - 1 { NotAfterTransitive(before, items[i], items[p - 1], e); }
      }
    } else if p > 0 && before(e, items[p - 1]) {
      assert before(after[p], after[p - 1]);
    } else {
      assert before(after[p + 1], after[p]);
    }
  }

  /** Adding to a list of groups that is in order leaves it in order. */
  lemma AddedAtInOrder(before: (Event, Event) -> bool, same: (Event, Event) -> bool, groups: seq<EventGroup>, e: Event,
                       pos: nat)
    requires StrictWeakOrder(before) && AllOk(before, groups) && InOrder(before, groups)
    requires IsPosition(before, Displays(groups), e, pos)
    ensures InOrder(before, AddedAt(before, same, groups, e, pos))
  {
    if pos < |groups| && same(e, groups[pos].displayedEvent) {
      var g := WithEvent(before, groups[pos], e);
      WithEventOk(before, groups[pos], e);
      DisplaysUpdate(groups, pos, g);
      var shown := Displays(groups);
      if g.displayedEvent == e {
        if pos > 0 { Asymmetric(before, shown[pos - 1], e); }
        if pos + 1 < |groups| { assert !before(shown[pos + 1], e); }
        UpdateSorted(before, shown, pos, e);
      } else {
        assert g.displayedEvent == groups[pos].displayedEvent;
        assert shown[pos := g.displayedEvent] == shown;
      }
    } else {
      DisplaysInsert(groups, pos, EventGroup(e, [e]));
      InsertSorted(before, Displays(groups), e, pos);
    }
  }

  /** Taking an event out keeps the groups in order exactly when the group's next event is not after the next group. */
  lemma RemovedAtInOrder(before: (Event, Event) -> bool, groups: seq<EventGroup>, e: Event, pos: nat)
    requires StrictWeakOrder(before) && AllOk(before, groups) && InOrder(before, groups)
    requires pos < |groups| && Contains(groups[pos].events, e)
    ensures var events := WithoutEvent(groups[pos].events, e);
            InOrder(before, RemovedAt(groups, e, pos)) <==>
              events == [] || pos + 1 == |groups| || !before(groups[pos + 1].displayedEvent, events[0])
  {
    var events := WithoutEvent(groups[pos].events, e);
    var shown := Displays(groups);
    if events == [] {
      assert Displays(RemoveAt(groups, pos)) == RemoveAt(shown, pos);
      RemoveSorted(before, shown, pos);
    } else {
      DisplaysUpdate(groups, pos, EventGroup(events[0], events));
      UpdateSorted(before, shown, pos, events[0]);
      WithoutEventElements(groups[pos].events, e, events[0]);
      if pos > 0 {
        assert !before(shown[pos], shown[pos - 1]);
        assert !before(events[0], shown[pos]);
        NotAfterTransitive(before, shown[pos - 1], shown[pos], events[0]);
      }
    }
  }

  lemma {:induction false} ScanUpMeaning(before: (Event, Event) -> bool, same: (Event, Event) -> bool,
                                         groups: seq<EventGroup>,
                                         e: Event, n: nat)
    requires n <= |groups|
    ensures var spot := ScanUp(before, same, groups, e, n);
            && spot.pos <= n
            && (forall j :: (if spot.InGroup? then spot.pos + 1 else spot.pos) <= j < n ==>
                   !before(groups[j].displayedEvent, e) && !same(e, groups[j].displayedEvent))
            && (spot.InGroup? ==> spot.pos < n && same(e, groups[spot.pos].displayedEvent))
            && (spot.NewGroup? && spot.pos > 0 ==>
                  before(groups[spot.pos - 1].displayedEvent, e) && !same(e, groups[spot.pos - 1].displayedEvent))
  {
    if n > 0 { ScanUpMeaning(before, same, groups, e, n - 1); }
  }

  /**
   * fetchMore keeps the groups in order when it starts a group, and when it extends one exactly if the
   * event is not before the group above.
   */
  lemma FetchedInOrder(before: (Event, Event) -> bool, same: (Event, Event) -> bool, groups: seq<EventGroup>, e: Event)
    requires StrictWeakOrder(before) && AllOk(before, groups) && InOrder(before, groups)
    requires var spot := ScanUp(before, same, groups, e, |groups|);
             spot.InGroup? ==> !Contains(groups[spot.pos].events, e)
    ensures var spot := ScanUp(before, same, groups, e, |groups|);
            InOrder(before, Fetched(before, same, groups, e)) <==>
              spot.NewGroup? || spot.pos == 0 || !before(e, groups[spot.pos - 1].displayedEvent)
  {
    var spot := ScanUp(before, same, groups, e, |groups|);
    ScanUpMeaning(before, same, groups, e, |groups|);
    match spot {
      case NewGroup(pos) => NewGroupInOrder(before, groups, e, pos);
      case InGroup(pos) => GrownGroupInOrder(before, groups, e, pos);
    }
  }

  lemma NewGroupInOrder(before: (Event, Event) -> bool, groups: seq<EventGroup>, e: Event, pos: nat)
    requires StrictWeakOrder(before) && InOrder(before, groups) && pos <= |groups|
    requires pos > 0 ==> before(groups[pos - 1].displayedEvent, e)
    requires forall j :: pos <= j < |groups| ==> !before(groups[j].displayedEvent, e)
    ensures InOrder(before, Insert(groups, pos, EventGroup(e, [e])))
  {
    DisplaysInsert(groups, pos, EventGroup(e, [e]));
    if pos > 0 { ScanPosition(before, Displays(groups), e, pos); }
    InsertSorted(before, Displays(groups), e, pos);
  }

  lemma GrownGroupInOrder(before: (Event, Event) -> bool, groups: seq<EventGroup>, e: Event, pos: nat)
    requires StrictWeakOrder(before) && AllOk(before, groups) && InOrder(before, groups) && pos < |groups|
    requires !Contains(groups[pos].events, e)
    requires forall j :: pos < j < |groups| ==> !before(groups[j].displayedEvent, e)
    ensures InOrder(before, groups[pos := WithEvent(before, groups[pos], e)]) <==>
              pos == 0 || !before(e, groups[pos - 1].displayedEvent)
  {
    var g := WithEvent(before, groups[pos], e);
    var shown := Displays(groups);
    WithEventOk(before, groups[pos], e);
    DisplaysUpdate(groups, pos, g);
    if g.displayedEvent == e {
      assert pos + 1 < |groups| ==> !before(shown[pos + 1], e);
      UpdateSorted(before, shown, pos, e);
    } else {
      assert shown[pos := g.displayedEvent] == shown;
      if pos > 0 {
        assert !before(shown[pos], shown[pos - 1]);
        NotAfterTransitive(before, shown[pos - 1], shown[pos], e);
      }
    }
  }

  lemma ScanPosition(before: (Event, Event) -> bool, shown: seq<Event>, e: Event, pos: nat)
    requires StrictWeakOrder(before) && Sorted(before, shown) && 0 < pos <= |shown|
    requires before(shown[pos - 1], e) && forall j :: pos <= j < |shown| ==> !before(shown[j], e)
    ensures IsPosition(before, shown, e, pos)
  {
    forall i | 0 <= i < pos ensures before(shown[i], e) {
      if i < pos - 1 {
        Asymmetric(before, shown[pos - 1], e);
        NotAfterTransitive(before, shown[i], shown[pos - 1], e);
      }
    }
  }

  // ---------------------------------------------------------------- what the groups list

  ghost predicate Listed(groups: seq<EventGroup>, x: Event) {
    exists i :: 0 <= i < |groups| && x in groups[i].events
  }

  ghost predicate ListedId(groups: seq<EventGroup>, id: EventId) {
    exists i, j :: 0 <= i < |groups| && 0 <= j < |groups[i].events| && groups[i].events[j].id == id
  }

  lemma WithEventContent(before: (Event, Event) -> bool, g: EventGroup, e: Event, x: Event)
    ensures x in WithEvent(before, g, e).events <==> x in g.events || (x == e && !Contains(g.events, e))
  {
    if !Contains(g.events, e) {
      var p := InsertionPoint(before, g.events, e);
      var after := Insert(g.events, p, e);
      assert after[p] == e;
      if x in g.events {
        var j :| 0 <= j < |g.events| && g.events[j] == x;
        assert after[if j < p then j else j + 1] == x;
      }
    }
  }

  /** Adding loses nothing and brings in nothing else; only a group that lists the event already stays as it is. */
  lemma AddedAtContent(before: (Event, Event) -> bool, same: (Event, Event) -> bool, groups: seq<EventGroup>, e: Event,
                       pos: nat,
                       x: Event)
    requires pos <= |groups|
    ensures Listed(groups, x) ==> Listed(AddedAt(before, same, groups, e, pos), x)
    ensures Listed(AddedAt(before, same, groups, e, pos), x) ==> Listed(groups, x) || x == e
    ensures ListedId(AddedAt(before, same, groups, e, pos), e.id)
  {
    var after := AddedAt(before, same, groups, e, pos);
    if pos < |groups| && same(e, groups[pos].displayedEvent) {
      WithEventContent(before, groups[pos], e, x);
      WithEventContent(before, groups[pos], e, e);
      if i :| 0 <= i < |groups| && x in groups[i].events { assert x in after[i].events; }
      if Contains(groups[pos].events, e) {
        var j :| 0 <= j < |groups[pos].events| && groups[pos].events[j].id == e.id;
        assert after[pos].events[j].id == e.id;
      } else {
        var j :| 0 <= j < |after[pos].events| && after[pos].events[j] == e;
      }
    } else {
      if i :| 0 <= i < |groups| && x in groups[i].events { assert x in after[if i < pos then i else i + 1].events; }
      assert after[pos].events[0].id == e.id;
    }
  }

  /**
   * An event of the group that the search lands on joins it, unless it is listed there already, and every other group
   * stays as it is; any other event gets a group of its own, put before the one that the search lands on.
   */
  lemma AddedAtExactly(before: (Event, Event) -> bool, same: (Event, Event) -> bool, groups: seq<EventGroup>, e: Event,
                       pos: nat)
    requires pos <= |groups|
    ensures var after := AddedAt(before, same, groups, e, pos);
            if pos < |groups| && same(e, groups[pos].displayedEvent) then
              && |after| == |groups|
              && (forall i :: 0 <= i < |groups| && i != pos ==> after[i] == groups[i])
              && multiset(after[pos].events) == multiset(groups[pos].events) +
                   if exists k :: 0 <= k < |groups[pos].events| && groups[pos].events[k].id == e.id then multiset{}
                   else multiset{e}
            else
              && |after| == |groups| + 1
              && after[pos].displayedEvent == e && after[pos].events == [e]
              && (forall i :: 0 <= i < pos ==> after[i] == groups[i])
              && (forall i :: pos < i < |after| ==> after[i] == groups[i - 1])
  {
    if pos < |groups| && same(e, groups[pos].displayedEvent) { JoinedExactly(before, groups[pos], e); }
  }

  lemma JoinedExactly(before: (Event, Event) -> bool, g: EventGroup, e: Event)
    ensures multiset(WithEvent(before, g, e).events) == multiset(g.events) +
              if exists k :: 0 <= k < |g.events| && g.events[k].id == e.id then multiset{} else multiset{e}
  {
    if !Contains(g.events, e) { InsertElements(g.events, InsertionPoint(before, g.events, e), e); }
  }

  /** The scan from the bottom: the event passes the groups below pos, and joins the group there or stops above it. */
  ghost predicate ScanStops(before: (Event, Event) -> bool, same: (Event, Event) -> bool, groups: seq<EventGroup>,
                            e: Event, pos: nat, joins: bool)
  {
    && pos <= |groups|
    && (forall j :: pos < j < |groups| ==> !same(e, groups[j].displayedEvent) && !before(groups[j].displayedEvent, e))
    && if joins then pos < |groups| && same(e, groups[pos].displayedEvent)
       else
         && (pos < |groups| ==> !same(e, groups[pos].displayedEvent) && !before(groups[pos].displayedEvent, e))
         && (pos > 0 ==> !same(e, groups[pos - 1].displayedEvent) && before(groups[pos - 1].displayedEvent, e))
  }

  /** A fetched event joins the group at which the scan stops, or gets a group there; all others stay as they are. */
  lemma FetchedExactly(before: (Event, Event) -> bool, same: (Event, Event) -> bool, groups: seq<EventGroup>, e: Event,
                       pos: nat, joins: bool)
    requires ScanStops(before, same, groups, e, pos, joins)
    ensures var after := Fetched(before, same, groups, e);
            if joins then
              && |after| == |groups|
              && (forall i :: 0 <= i < |groups| && i != pos ==> after[i] == groups[i])
              && multiset(after[pos].events) == multiset(groups[pos].events) +
                   if exists k :: 0 <= k < |groups[pos].events| && groups[pos].events[k].id == e.id then multiset{}
                   else multiset{e}
            else
              && |after| == |groups| + 1
              && after[pos].displayedEvent == e && after[pos].events == [e]
              && (forall i :: 0 <= i < pos ==> after[i] == groups[i])
              && (forall i :: pos < i < |after| ==> after[i] == groups[i - 1])
  {
    ScanUpLands(before, same, groups, e, pos, joins, |groups|);
    if joins { JoinedExactly(before, groups[pos], e); }
  }

  lemma {:induction false} ScanUpLands(before: (Event, Event) -> bool, same: (Event, Event) -> bool,
                                       groups: seq<EventGroup>, e: Event, pos: nat, joins: bool, n: nat)
    requires ScanStops(before, same, groups, e, pos, joins)
    requires pos <= n <= |groups| && (joins ==> pos < n)
    ensures ScanUp(before, same, groups, e, n) == if joins then InGroup(pos) else NewGroup(pos)
  {
    if n > (if joins then pos + 1 else pos) { ScanUpLands(before, same, groups, e, pos, joins, n - 1); }
  }

  /** And the scan always stops somewhere. */
  lemma ScanStopsSomewhere(before: (Event, Event) -> bool, same: (Event, Event) -> bool, groups: seq<EventGroup>,
                           e: Event)
    returns (pos: nat, joins: bool)
    ensures ScanStops(before, same, groups, e, pos, joins)
  {
    var spot := ScanUp(before, same, groups, e, |groups|);
    ScanUpMeaning(before, same, groups, e, |groups|);
    pos, joins := spot.pos, spot.InGroup?;
  }

  /**
   * An event is removed from the group that the search lands on: the others of the group keep their order, a group
   * left without events goes, and every other group stays as it is.
   */
  lemma RemovedAtExactly(groups: seq<EventGroup>, e: Event, pos: nat, k: nat)
    requires pos < |groups| && k < |groups[pos].events| && groups[pos].events[k].id == e.id
    requires forall i :: 0 <= i < k ==> groups[pos].events[i].id != e.id
    ensures var after := RemovedAt(groups, e, pos);
            var rest := groups[pos].events[..k] + groups[pos].events[k + 1..];
            if rest == [] then
              && |after| == |groups| - 1
              && (forall i :: 0 <= i < pos ==> after[i] == groups[i])
              && (forall i :: pos <= i < |after| ==> after[i] == groups[i + 1])
            else
              && |after| == |groups|
              && (forall i :: 0 <= i < |groups| && i != pos ==> after[i] == groups[i])
              && after[pos].events == rest && after[pos].displayedEvent == rest[0]
  {
    WithoutEventAt(groups[pos].events, e, k);
  }

  lemma {:induction false} WithoutEventAt(events: seq<Event>, e: Event, k: nat)
    requires k < |events| && events[k].id == e.id && forall i :: 0 <= i < k ==> events[i].id != e.id
    ensures WithoutEvent(events, e) == events[..k] + events[k + 1..]
  {
    if k > 0 {
      WithoutEventAt(events[1..], e, k - 1);
      BehindHead(events, k);
    }
  }

  lemma BehindHead(events: seq<Event>, k: nat)
    requires 0 < k < |events|
    ensures [events[0]] + (events[1..][..k - 1] + events[1..][k..]) == events[..k] + events[k + 1..]
  {
  }

  /** A removal takes out the event it finds in the group it looks at, and nothing else. */
  lemma RemovedAtContent(before: (Event, Event) -> bool, groups: seq<EventGroup>, e: Event, pos: nat, x: Event)
    requires AllOk(before, groups) && pos <= |groups|
    ensures Listed(RemovedAt(groups, e, pos), x) <==>
              exists i :: 0 <= i < |groups| && x in groups[i].events && (i == pos ==> x.id != e.id)
  {
    var after := RemovedAt(groups, e, pos);
    if pos < |groups| && Contains(groups[pos].events, e) {
      var events := WithoutEvent(groups[pos].events, e);
      WithoutEventElements(groups[pos].events, e, x);
      if i :| 0 <= i < |groups| && x in groups[i].events && (i == pos ==> x.id != e.id) {
        assert x in after[if events != [] || i < pos then i else i - 1].events;
      }
      if i :| 0 <= i < |after| && x in after[i].events {
        var h := if events != [] || i < pos then i else i + 1;
        assert x in groups[h].events && (h == pos ==> x.id != e.id);
      }
    }
  }

  /**
   * The group of an event is looked up by the displayed events only: on groups in order a removal takes effect
   * exactly when the event ties with the one its group shows and comes after the one the group above shows.
   */
  lemma RemovalFindsExactly(before: (Event, Event) -> bool, groups: seq<EventGroup>, e: Event, i: nat, pos: nat)
    requires StrictWeakOrder(before) && AllOk(before, groups) && InOrder(before, groups)
    requires i < |groups| && Contains(groups[i].events, e)
    requires forall j :: 0 <= j < |groups| && j != i ==> !Contains(groups[j].events, e)
    requires IsPosition(before, Displays(groups), e, pos)
    ensures RemovedAt(groups, e, pos) != groups <==>
              !before(groups[i].displayedEvent, e) && (i == 0 || before(groups[i - 1].displayedEvent, e))
  {
    var shown := Displays(groups);
    assert i < |shown| && (before(shown[i], e) <==> i < pos);
    assert i > 0 ==> (before(shown[i - 1], e) <==> i - 1 < pos);
    if pos == i { RemovalChanges(before, groups, e, i); }
  }

  lemma RemovalChanges(before: (Event, Event) -> bool, groups: seq<EventGroup>, e: Event, i: nat)
    requires AllOk(before, groups) && i < |groups| && Contains(groups[i].events, e)
    ensures RemovedAt(groups, e, i) != groups
  {
    var k :| 0 <= k < |groups[i].events| && groups[i].events[k].id == e.id;
    WithoutEventElements(groups[i].events, e, groups[i].events[k]);
    assert WithoutEvent(groups[i].events, e) != groups[i].events;
  }

  // ---------------------------------------------------------------- an event that is announced again

  /** No two groups list an event with this id. */
  ghost predicate ListedOnce(groups: seq<EventGroup>, e: Event) {
    forall i, j :: 0 <= i < j < |groups| && Contains(groups[i].events, e) ==> !Contains(groups[j].events, e)
  }

  /**
   * An event that one group lists is announced again, as every modification does: it stays in one group exactly if the
   * search lands on that group and it is still of the same group; then nothing changes at all.
   */
  lemma AddedAgainExactly(before: (Event, Event) -> bool, same: (Event, Event) -> bool, groups: seq<EventGroup>,
                          e: Event, i: nat, pos: nat)
    requires pos <= |groups| && i < |groups| && AllOk(before, groups)
    requires forall j :: 0 <= j < |groups| ==> (Contains(groups[j].events, e) <==> j == i)
    ensures ListedOnce(AddedAt(before, same, groups, e, pos), e) <==> pos == i && same(e, groups[i].displayedEvent)
    ensures pos == i && same(e, groups[i].displayedEvent) ==> AddedAt(before, same, groups, e, pos) == groups
  {
    var after := AddedAt(before, same, groups, e, pos);
    if pos < |groups| && same(e, groups[pos].displayedEvent) {
      if pos == i {
        assert WithEvent(before, groups[i], e) == groups[i];
      } else {
        WithEventContent(before, groups[pos], e, e);
        ContainsMember(after[pos].events, e);
        BothListed(after, e, i, pos);
      }
    } else {
      var k := if i < pos then i else i + 1;
      assert after[k] == groups[i] && after[pos] == EventGroup(e, [e]);
      ContainsMember([e], e);
      BothListed(after, e, k, pos);
    }
  }

  lemma ContainsMember(events: seq<Event>, e: Event)
    requires e in events
    ensures Contains(events, e)
  {
  }

  lemma BothListed(groups: seq<EventGroup>, e: Event, i: nat, j: nat)
    requires i < |groups| && j < |groups| && i != j && Contains(groups[i].events, e) && Contains(groups[j].events, e)
    ensures !ListedOnce(groups, e)
  {
    var low, high := if i < j then i else j, if i < j then j else i;
    assert Contains(groups[low].events, e) && Contains(groups[high].events, e);
  }

  // ---------------------------------------------------------------- groups that show it

  lemma PairOk(before: (Event, Event) -> bool, a: Event, b: Event)
    requires StrictWeakOrder(before) && before(a, b) && a.id != b.id
    ensures GroupOk(before, EventGroup(a, [a, b])) && GroupOk(before, EventGroup(b, [b]))
    ensures GroupOk(before, EventGroup(a, [a])) && !before(b, a)
  {
    Asymmetric(before, a, b);
  }

  /** Removing the second event of a group of two finds nothing. */
  lemma SecondEventIsNotFound(before: (Event, Event) -> bool, a: Event, b: Event, pos: nat)
    requires StrictWeakOrder(before) && before(a, b) && a.id != b.id
    requires IsPosition(before, Displays([EventGroup(a, [a, b])]), b, pos)
    ensures var groups := [EventGroup(a, [a, b])];
            AllOk(before, groups) && InOrder(before, groups) && RemovedAt(groups, b, pos) == groups
  {
    PairOk(before, a, b);
    assert Displays([EventGroup(a, [a, b])])[0] == a;
  }

  /** Announcing that event again, as every modification does, lists it a second time, in a group of its own. */
  lemma SecondEventIsListedTwice(before: (Event, Event) -> bool, same: (Event, Event) -> bool, a: Event, b: Event,
                                 pos: nat)
    requires StrictWeakOrder(before) && before(a, b) && a.id != b.id
    requires IsPosition(before, Displays([EventGroup(a, [a, b])]), b, pos)
    ensures var groups := [EventGroup(a, [a, b])];
            && AllOk(before, groups) && InOrder(before, groups)
            && AddedAt(before, same, groups, b, pos) == [EventGroup(a, [a, b]), EventGroup(b, [b])]
  {
    PairOk(before, a, b);
    assert Displays([EventGroup(a, [a, b])])[0] == a;
  }

  /** Removing the displayed event of a group that reaches past the next one leaves the groups out of order. */
  lemma RemovalBreaksOrder(before: (Event, Event) -> bool, a: Event, b: Event, c: Event)
    requires StrictWeakOrder(before) && before(a, b) && before(b, c) && a.id != b.id && b.id != c.id && a.id != c.id
    ensures var groups := [EventGroup(a, [a, c]), EventGroup(b, [b])];
            && AllOk(before, groups) && InOrder(before, groups)
            && IsPosition(before, Displays(groups), a, 0) && !InOrder(before, RemovedAt(groups, a, 0))
  {
    var groups := [EventGroup(a, [a, c]), EventGroup(b, [b])];
    PairOk(before, a, b);
    PairOk(before, a, c);
    assert WithoutEvent([a, c], a) == [c];
    assert RemovedAt(groups, a, 0) == [EventGroup(c, [c]), EventGroup(b, [b])];
    var shown := Displays(RemovedAt(groups, a, 0));
    assert shown[0] == c && shown[1] == b;
  }

  /** Fetching an event of the last group that belongs before the group above leaves the groups out of order. */
  lemma FetchBreaksOrder(before: (Event, Event) -> bool, same: (Event, Event) -> bool, a: Event, b: Event, c: Event)
    requires StrictWeakOrder(before) && before(a, b) && before(b, c) && a.id != b.id && b.id != c.id && a.id != c.id
    requires same(a, c)
    ensures var groups := [EventGroup(b, [b]), EventGroup(c, [c])];
            AllOk(before, groups) && InOrder(before, groups) && !InOrder(before, Fetched(before, same, groups, a))
  {
    var groups := [EventGroup(b, [b]), EventGroup(c, [c])];
    PairOk(before, a, b);
    PairOk(before, b, c);
    assert before(a, c);
    assert ScanUp(before, same, groups, a, 2) == InGroup(1);
    FirstOfGroup(before, c, a);
    var shown := Displays(Fetched(before, same, groups, a));
    assert shown[0] == b && shown[1] == a;
  }

  lemma FirstOfGroup(before: (Event, Event) -> bool, c: Event, a: Event)
    requires before(a, c) && a.id != c.id
    ensures WithEvent(before, EventGroup(c, [c]), a).displayedEvent == a
  {
    assert InsertionPoint(before, [c], a) == 0 && Insert([c], 0, a)[0] == a;
  }

  // ---------------------------------------------------------------- an ordered stream

  ghost predicate NoneEmpty(runs: seq<seq<Event>>) {
    forall i :: 0 <= i < |runs| ==> runs[i] != []
  }

  /** The runs of neighbouring events of the same group. */
  function Runs(same: (Event, Event) -> bool, stream: seq<Event>): (r: seq<seq<Event>>)
    ensures NoneEmpty(r)
    ensures r == [] <==> stream == []
  {
    if stream == [] then []
    else
      Grow(same, Runs(same, stream[..|stream| - 1]), stream[|stream| - 1])
  }

  /** One more event: it goes on with the last run or starts another. */
  function Grow(same: (Event, Event) -> bool, runs: seq<seq<Event>>, e: Event): (r: seq<seq<Event>>)
    requires NoneEmpty(runs)
    ensures NoneEmpty(r) && r != []
  {
    var m := |runs| - 1;
    if runs != [] && same(e, runs[m][0]) then runs[..m] + [runs[m] + [e]] else runs + [[e]]
  }

  function AsGroups(runs: seq<seq<Event>>): seq<EventGroup>
    requires NoneEmpty(runs)
  {
    seq(|runs|, i requires 0 <= i < |runs| => EventGroup(runs[i][0], runs[i]))
  }

  function Flatten(runs: seq<seq<Event>>): seq<Event> {
    if runs == [] then [] else Flatten(runs[..|runs| - 1]) + runs[|runs| - 1]
  }

  /** Every event goes before the later ones, and all are different events. */
  ghost predicate Stream(before: (Event, Event) -> bool, stream: seq<Event>) {
    && (forall i, j :: 0 <= i < j < |stream| ==> before(stream[i], stream[j]))
    && DistinctIds(stream)
  }

  /** On the events of the stream, being of the same group is an equivalence. */
  ghost predicate SameIsEquivalence(same: (Event, Event) -> bool, universe: seq<Event>) {
    && (forall a :: a in universe ==> same(a, a))
    && (forall a, b :: a in universe && b in universe && same(a, b) ==> same(b, a))
    && (forall a, b, c :: a in universe && b in universe && c in universe && same(a, b) && same(b, c) ==> same(a, c))
  }

  /** Each run is of the group of its first event, and the next one starts another group. */
  ghost predicate Cut(same: (Event, Event) -> bool, runs: seq<seq<Event>>) {
    && NoneEmpty(runs)
    && (forall i :: 0 <= i < |runs| ==> OneGroup(same, runs[i]))
    && (forall i :: 0 < i < |runs| ==> !same(runs[i][0], runs[i - 1][0]))
  }

  /** Such runs that give the stream back. */
  ghost predicate AreRuns(same: (Event, Event) -> bool, stream: seq<Event>, runs: seq<seq<Event>>) {
    Flatten(runs) == stream && Cut(same, runs)
  }

  ghost predicate OneGroup(same: (Event, Event) -> bool, run: seq<Event>) {
    forall j :: 0 < j < |run| ==> same(run[j], run[0])
  }

  lemma {:induction false} FlattenElements(runs: seq<seq<Event>>, x: Event)
    ensures x in Flatten(runs) <==> exists i :: 0 <= i < |runs| && x in runs[i]
  {
    if runs != [] {
      var n := |runs| - 1;
      FlattenElements(runs[..n], x);
      assert forall i :: 0 <= i < n ==> runs[..n][i] == runs[i];
      if x in Flatten(runs[..n]) {
        var i :| 0 <= i < n && x in runs[..n][i];
        assert x in runs[i];
      }
    }
  }

  lemma {:induction false} RunsFlatten(same: (Event, Event) -> bool, stream: seq<Event>)
    ensures Flatten(Runs(same, stream)) == stream
  {
    if stream != [] {
      var n := |stream| - 1;
      RunsFlatten(same, stream[..n]);
      var e, r := stream[n], Runs(same, stream[..n]);
      assert stream == stream[..n] + [e];
      if r != [] && same(e, r[|r| - 1][0]) {
        var longer := r[..|r| - 1] + [r[|r| - 1] + [e]];
        assert longer[..|r| - 1] == r[..|r| - 1];
      } else {
        assert (r + [[e]])[..|r|] == r;
      }
    }
  }

  /** Splitting off the last event of the last run. */
  function DropLast(runs: seq<seq<Event>>): seq<seq<Event>>
    requires runs != [] && runs[|runs| - 1] != []
  {
    var m := |runs| - 1;
    if |runs[m]| == 1 then runs[..m] else runs[..m] + [runs[m][..|runs[m]| - 1]]
  }

  lemma DropLastRuns(same: (Event, Event) -> bool, stream: seq<Event>, runs: seq<seq<Event>>)
    requires AreRuns(same, stream, runs) && stream != []
    ensures runs != [] && runs[|runs| - 1][|runs[|runs| - 1]| - 1] == stream[|stream| - 1]
    ensures AreRuns(same, stream[..|stream| - 1], DropLast(runs))
  {
    var m := |runs| - 1;
    var last := runs[m];
    var k := |last| - 1;
    assert Flatten(runs) == Flatten(runs[..m]) + last;
    assert last == last[..k] + [last[k]];
    assert stream[..|stream| - 1] == Flatten(runs[..m]) + last[..k];
    if |last| > 1 {
      assert DropLast(runs)[..m] == runs[..m];
    } else {
      assert Flatten(runs[..m]) + last[..k] == Flatten(runs[..m]);
    }
  }

  lemma {:induction false} RunsAreRuns(same: (Event, Event) -> bool, stream: seq<Event>)
    ensures AreRuns(same, stream, Runs(same, stream))
  {
    RunsFlatten(same, stream);
    if stream != [] {
      var n := |stream| - 1;
      var runs := Runs(same, stream[..n]);
      RunsAreRuns(same, stream[..n]);
      GrowRuns(same, runs, stream[n]);
    }
  }

  lemma GrowRuns(same: (Event, Event) -> bool, runs: seq<seq<Event>>, e: Event)
    requires Cut(same, runs)
    ensures Cut(same, Grow(same, runs, e))
  {
    if runs != [] { GrowOneGroup(same, runs[|runs| - 1], e); }
  }

  lemma GrowOneGroup(same: (Event, Event) -> bool, run: seq<Event>, e: Event)
    requires run != [] && OneGroup(same, run)
    ensures same(e, run[0]) ==> OneGroup(same, run + [e])
    ensures (run + [e])[0] == run[0]
  {
  }

  lemma FlattenLength(runs: seq<seq<Event>>)
    ensures runs != [] ==> |Flatten(runs)| >= |runs[|runs| - 1]|
  {
  }

  /** There is only one way to cut a stream into such runs. */
  lemma {:induction false} RunsUnique(same: (Event, Event) -> bool, stream: seq<Event>, runs: seq<seq<Event>>)
    requires AreRuns(same, stream, runs)
    ensures runs == Runs(same, stream)
    decreases |stream|
  {
    if stream == [] {
      FlattenLength(runs);
    } else {
      DropLastRuns(same, stream, runs);
      RunsUnique(same, stream[..|stream| - 1], DropLast(runs));
      LastRun(same, stream, runs);
    }
  }

  lemma LastRun(same: (Event, Event) -> bool, stream: seq<Event>, runs: seq<seq<Event>>)
    requires AreRuns(same, stream, runs) && stream != [] && runs != []
    requires runs[|runs| - 1][|runs[|runs| - 1]| - 1] == stream[|stream| - 1]
    requires NoneEmpty(DropLast(runs))
    ensures runs == Grow(same, DropLast(runs), stream[|stream| - 1])
  {
    var m := |runs| - 1;
    var last, e := runs[m], stream[|stream| - 1];
    if |last| > 1 {
      assert OneGroup(same, last);
      RegrowLast(runs);
    } else {
      assert last == [e];
      assert runs == runs[..m] + [[e]];
    }
  }

  lemma RegrowLast(runs: seq<seq<Event>>)
    requires runs != [] && |runs[|runs| - 1]| > 1
    ensures var fewer, m := DropLast(runs), |runs| - 1;
            && |fewer| == |runs| && fewer[m] != [] && fewer[m][0] == runs[m][0]
            && runs == fewer[..m] + [fewer[m] + [runs[m][|runs[m]| - 1]]]
  {
    var m := |runs| - 1;
    var last := runs[m];
    assert last == last[..|last| - 1] + [last[|last| - 1]];
    assert DropLast(runs)[..m] == runs[..m];
    assert runs == runs[..m] + [last];
  }

  /**
   * Under an equivalence the runs are maximal: inside one every two events are of the same group, in neighbours no
   * two are.
   */
  lemma RunsAreMaximal(same: (Event, Event) -> bool, stream: seq<Event>, i: nat, x: Event, y: Event)
    requires SameIsEquivalence(same, stream) && i < |Runs(same, stream)|
    requires x in Runs(same, stream)[i]
    ensures y in Runs(same, stream)[i] ==> same(x, y)
    ensures i + 1 < |Runs(same, stream)| && y in Runs(same, stream)[i + 1] ==> !same(x, y) && !same(y, x)
  {
    RunsAreRuns(same, stream);
    WithHead(same, stream, i, x);
    if y in Runs(same, stream)[i] { WithHead(same, stream, i, y); }
    if i + 1 < |Runs(same, stream)| && y in Runs(same, stream)[i + 1] {
      WithHead(same, stream, i + 1, y);
      var a, b := Runs(same, stream)[i][0], Runs(same, stream)[i + 1][0];
      assert !same(b, a);
      assert same(x, y) <==> same(y, x);
      assert same(b, y) && same(y, x) ==> same(b, x);
      assert same(b, x) && same(x, a) ==> same(b, a);
    }
  }

  lemma WithHead(same: (Event, Event) -> bool, stream: seq<Event>, i: nat, x: Event)
    requires SameIsEquivalence(same, stream) && i < |Runs(same, stream)| && x in Runs(same, stream)[i]
    ensures var head := Runs(same, stream)[i][0];
            head in stream && x in stream && same(x, head) && same(head, x)
  {
    var runs := Runs(same, stream);
    RunsAreRuns(same, stream);
    FlattenElements(runs, x);
    FlattenElements(runs, runs[i][0]);
    var j :| 0 <= j < |runs[i]| && runs[i][j] == x;
    assert OneGroup(same, runs[i]);
  }

  // ---------------------------------------------------------------- fetchMore on a stream

  lemma LaterThanAll(before: (Event, Event) -> bool, events: seq<Event>, e: Event)
    requires StrictWeakOrder(before) && forall x :: x in events ==> before(x, e) && x.id != e.id
    ensures !Contains(events, e) && InsertionPoint(before, events, e) == |events|
    ensures Insert(events, |events|, e) == events + [e]
  {
    forall i | 0 <= i < |events| ensures !before(e, events[i]) && events[i].id != e.id {
      Asymmetric(before, events[i], e);
    }
  }

  /** Fetching an ordered stream from nothing produces exactly its runs. */
  lemma {:induction false} FetchedRuns(before: (Event, Event) -> bool, same: (Event, Event) -> bool, stream: seq<Event>)
    requires StrictWeakOrder(before) && Stream(before, stream)
    ensures FetchedAll(before, same, [], stream) == AsGroups(Runs(same, stream))
  {
    if stream != [] {
      var n := |stream| - 1;
      FetchedRuns(before, same, stream[..n]);
      FetchedGrow(before, same, stream);
    }
  }

  lemma FetchedGrow(before: (Event, Event) -> bool, same: (Event, Event) -> bool, stream: seq<Event>)
    requires StrictWeakOrder(before) && Stream(before, stream) && stream != []
    ensures var n := |stream| - 1;
            var runs := Runs(same, stream[..n]);
            Fetched(before, same, AsGroups(runs), stream[n]) == AsGroups(Grow(same, runs, stream[n]))
  {
    RunsComeBefore(before, same, stream);
    LastGroup(before, same, Runs(same, stream[..|stream| - 1]), stream[|stream| - 1]);
  }

  lemma RunsComeBefore(before: (Event, Event) -> bool, same: (Event, Event) -> bool, stream: seq<Event>)
    requires Stream(before, stream) && stream != []
    ensures var n := |stream| - 1;
            forall i, x :: 0 <= i < |Runs(same, stream[..n])| && x in Runs(same, stream[..n])[i] ==>
                             before(x, stream[n]) && x.id != stream[n].id
  {
    var n := |stream| - 1;
    var runs := Runs(same, stream[..n]);
    RunsFlatten(same, stream[..n]);
    forall i, x | 0 <= i < |runs| && x in runs[i] ensures before(x, stream[n]) && x.id != stream[n].id {
      FlattenElements(runs, x);
      var j :| 0 <= j < n && stream[..n][j] == x;
      assert stream[j] == x;
    }
  }

  lemma LastGroup(before: (Event, Event) -> bool, same: (Event, Event) -> bool, runs: seq<seq<Event>>, e: Event)
    requires StrictWeakOrder(before) && NoneEmpty(runs)
    requires runs != [] ==> forall x :: x in runs[|runs| - 1] ==> before(x, e) && x.id != e.id
    ensures Fetched(before, same, AsGroups(runs), e) == AsGroups(Grow(same, runs, e))
  {
    var m := |runs| - 1;
    var groups := AsGroups(runs);
    if runs != [] {
      LaterThanAll(before, runs[m], e);
      assert groups[m] == EventGroup(runs[m][0], runs[m]) && runs[m][0] in runs[m];
    }
    if runs != [] && same(e, runs[m][0]) {
      assert ScanUp(before, same, groups, e, |groups|) == InGroup(m);
      assert (runs[m] + [e])[0] == runs[m][0];
      assert WithEvent(before, groups[m], e) == EventGroup(runs[m][0], runs[m] + [e]);
    } else {
      assert ScanUp(before, same, groups, e, |groups|) == NewGroup(|groups|);
    }
  }

  /** Where the pages are cut makes no difference. */
  lemma PagesDoNotMatter(before: (Event, Event) -> bool, same: (Event, Event) -> bool, groups: seq<EventGroup>,
                         page1: seq<Event>, page2: seq<Event>)
    ensures FetchedAll(before, same, FetchedAll(before, same, groups, page1), page2)
         == FetchedAll(before, same, groups, page1 + page2)
  {
    FoldConcat((g, e) => Fetched(before, same, g, e), groups, page1, page2);
  }

  // ---------------------------------------------------------------- being of the same group

  datatype Grouping = Grouping(
    properties: seq<string>, normalize: string -> string, phone: (string, string) -> bool)

  const FIELD_PARTICIPANTS := "participants"

  /** matchFlagsForAccount, as far as comparing participants is concerned. */
  function ModeForAccount(accountId: string): Participants.MatchMode {
    if ProtocolFromAccountId(accountId) in PHONE_PROTOCOLS then Participants.Phone else Participants.Exact
  }

  /** The events agree on one grouping property; the mode is that of the first one's account. */
  predicate AgreeOn(g: Grouping, property: string, e1: Event, e2: Event) {
    && property in e1.properties && property in e2.properties
    && if property == FIELD_PARTICIPANTS then
         Participants.CompareRaw(g.normalize, g.phone, e1.participants, e2.participants,
                                 ModeForAccount(e1.id.accountId))
       else e1.properties[property] == e2.properties[property]
  }

  predicate SameGroup(g: Grouping, e1: Event, e2: Event) {
    forall i :: 0 <= i < |g.properties| ==> AgreeOn(g, g.properties[i], e1, e2)
  }

  /** Both events have the properties, and other than participants they have the same values. */
  ghost predicate SameValues(properties: seq<string>, e1: Event, e2: Event) {
    forall p :: p in properties ==>
                  && p in e1.properties && p in e2.properties
                  && (p != "participants" ==> e1.properties[p] == e2.properties[p])
  }

  /** The normalised numbers can be paired off, or the names are the same and not repeated. */
  ghost predicate SameParticipants(g: Grouping, phones: bool, p1: seq<string>, p2: seq<string>) {
    if phones then exists f :: Participants.PairsRaw(g.normalize, g.phone, p1, p2, f)
    else Elements(p1) == Elements(p2) && Participants.NoDuplicates(p2)
  }

  /**
   * What being of the same group says of two events: their grouping properties have the same values, and if the
   * participants are among these, they are the same people: on a phone account the normalised numbers can be paired
   * off, on any other the names are the same ones.
   */
  lemma SameGroupExactly(g: Grouping, e1: Event, e2: Event, parts: seq<string>, names: set<string>)
    requires parts != [] && (forall i :: 0 <= i < |parts| ==> '/' !in parts[i]) && e1.id.accountId == Join(parts, '/')
    requires Participants.Difunctional(g.phone, names)
    requires forall x :: x in e1.participants || x in e2.participants ==> g.normalize(x) in names
    requires Participants.NoDuplicates(e1.participants)
    ensures SameGroup(g, e1, e2) <==>
              && SameValues(g.properties, e1, e2)
              && ("participants" in g.properties ==>
                    SameParticipants(g, OfPhoneProtocol(parts), e1.participants, e2.participants))
  {
    ModeExactly(e1.id.accountId, parts);
    AgreeingProperties(g, e1, e2);
    SamePeople(g, e1, e2, names);
  }

  lemma SamePeople(g: Grouping, e1: Event, e2: Event, names: set<string>)
    requires Participants.Difunctional(g.phone, names)
    requires forall x :: x in e1.participants || x in e2.participants ==> g.normalize(x) in names
    requires Participants.NoDuplicates(e1.participants)
    ensures var mode := ModeForAccount(e1.id.accountId);
            Participants.CompareRaw(g.normalize, g.phone, e1.participants, e2.participants, mode) <==>
              SameParticipants(g, mode.Phone?, e1.participants, e2.participants)
  {
    if ModeForAccount(e1.id.accountId).Phone? {
      Participants.RawNamesPairedExactly(g.normalize, g.phone, names, e1.participants, e2.participants);
    } else {
      Participants.RawNamesExact(g.normalize, g.phone, e1.participants, e2.participants);
    }
  }

  predicate OfPhoneProtocol(parts: seq<string>) {
    |parts| >= 3 && (parts[1] == "ofono" || parts[1] == "sip" || parts[1] == "multimedia")
  }

  /** Participants are compared as phone numbers on the accounts of three protocols. */
  lemma ModeExactly(accountId: string, parts: seq<string>)
    requires parts != [] && (forall i :: 0 <= i < |parts| ==> '/' !in parts[i]) && accountId == Join(parts, '/')
    ensures ModeForAccount(accountId).Phone? <==> OfPhoneProtocol(parts)
  {
    ProtocolExactly(parts);
    PhoneModeProtocols(accountId);
    assert |"ofono"| != 0 && |"sip"| != 0 && |"multimedia"| != 0;
  }

  lemma PhoneModeProtocols(accountId: string)
    ensures var p := ProtocolFromAccountId(accountId);
            ModeForAccount(accountId).Phone? <==> p == "ofono" || p == "sip" || p == "multimedia"
  {
  }

  lemma AgreeingProperties(g: Grouping, e1: Event, e2: Event)
    ensures SameGroup(g, e1, e2) <==>
              && SameValues(g.properties, e1, e2)
              && (FIELD_PARTICIPANTS in g.properties ==>
                    Participants.CompareRaw(g.normalize, g.phone, e1.participants, e2.participants,
                                            ModeForAccount(e1.id.accountId)))
  {
    if SameGroup(g, e1, e2) {
      forall p | p in g.properties ensures AgreeOn(g, p, e1, e2) {
      }
    }
  }

  method AreOfSameGroup(g: Grouping, e1: Event, e2: Event) returns (same: bool)
    ensures same == SameGroup(g, e1, e2)
  {
    for i := 0 to |g.properties|
      invariant forall j :: 0 <= j < i ==> AgreeOn(g, g.properties[j], e1, e2)
    {
      var property := g.properties[i];
      if property !in e1.properties || property !in e2.properties {
        return false;
      }
      if property == FIELD_PARTICIPANTS {
        var matching := Participants.CompareParticipants(g.normalize, g.phone, e1.participants, e2.participants,
                                                        ModeForAccount(e1.id.accountId));
        if !matching {
          return false;
        }
      } else if e1.properties[property] != e2.properties[property] {
        return false;
      }
    }
    return true;
  }

  /** The normalised names of the participants of these events. */
  ghost function NamesOf(g: Grouping, universe: seq<Event>): set<string> {
    set e, x | e in universe && x in Participants.Normalized(g.normalize, e.participants) :: x
  }

  /** Every event has the grouping properties, and participants are compared in one, symmetric, way. */
  ghost predicate Comparable(g: Grouping, universe: seq<Event>) {
    && (forall e, i :: e in universe && 0 <= i < |g.properties| ==> g.properties[i] in e.properties)
    && (|| FIELD_PARTICIPANTS !in g.properties
        || (Participants.Equivalence(g.phone, NamesOf(g, universe))
            && forall e :: e in universe ==> ModeForAccount(e.id.accountId).Phone?)
        || (forall e :: e in universe ==>
              ModeForAccount(e.id.accountId).Exact? && Participants.NoDuplicates(e.participants)))
  }

  lemma AgreeOnParticipants(g: Grouping, universe: seq<Event>, a: Event, b: Event, c: Event)
    requires Comparable(g, universe) && FIELD_PARTICIPANTS in g.properties
    requires a in universe && b in universe && c in universe
    ensures var m := ModeForAccount(a.id.accountId);
            && m == ModeForAccount(b.id.accountId)
            && Participants.CompareRaw(g.normalize, g.phone, a.participants, a.participants, m)
            && (Participants.CompareRaw(g.normalize, g.phone, a.participants, b.participants, m) ==>
                  Participants.CompareRaw(g.normalize, g.phone, b.participants, a.participants, m))
            && (Participants.CompareRaw(g.normalize, g.phone, a.participants, b.participants, m)
                && Participants.CompareRaw(g.normalize, g.phone, b.participants, c.participants, m) ==>
                  Participants.CompareRaw(g.normalize, g.phone, a.participants, c.participants, m))
  {
    if ModeForAccount(a.id.accountId).Phone? {
      Participants.CompareIsEquivalenceExactly(g.phone, NamesOf(g, universe));
      forall e | e in universe
        ensures Participants.Over(Participants.Normalized(g.normalize, e.participants), NamesOf(g, universe))
      {
      }
    } else {
      Participants.ExactIsSameSet(g.phone, a.participants, a.participants);
      Participants.ExactIsSameSet(g.phone, a.participants, b.participants);
      Participants.ExactIsSameSet(g.phone, b.participants, a.participants);
      Participants.ExactIsSameSet(g.phone, b.participants, c.participants);
      Participants.ExactIsSameSet(g.phone, a.participants, c.participants);
    }
  }

  /** On comparable events being of the same group is an equivalence. */
  lemma SameGroupIsEquivalence(g: Grouping, universe: seq<Event>)
    requires Comparable(g, universe)
    ensures SameIsEquivalence((a, b) => SameGroup(g, a, b), universe)
  {
    forall a, b, c, i | a in universe && b in universe && c in universe && 0 <= i < |g.properties|
      ensures AgreeOn(g, g.properties[i], a, a)
      ensures AgreeOn(g, g.properties[i], a, b) ==> AgreeOn(g, g.properties[i], b, a)
      ensures AgreeOn(g, g.properties[i], a, b) && AgreeOn(g, g.properties[i], b, c) ==>
                AgreeOn(g, g.properties[i], a, c)
    {
      if g.properties[i] == FIELD_PARTICIPANTS { AgreeOnParticipants(g, universe, a, b, c); }
    }
  }
}
