/** The grouped events of the client (historygroupedeventsmodel.cpp). */
module GroupedEventsModel {
  import opened Permutations
  import opened HistoryModel
  import opened EventGroups
  import opened EventArrivals

  class GroupedEvents {
    /** lessThan in the direction of the sort order */
    const before: (Event, Event) -> bool
    const grouping: Grouping
    var mEventGroups: seq<EventGroup>

    function Same(): (Event, Event) -> bool {
      (a, b) => SameGroup(grouping, a, b)
    }

    /** Every group is never empty, lists no event twice, is in order and shows its first event. */
    ghost predicate Valid()
      reads this
    {
      StrictWeakOrder(before) && AllOk(before, mEventGroups)
    }

    constructor (before: (Event, Event) -> bool, grouping: Grouping)
      requires StrictWeakOrder(before)
      ensures Valid() && mEventGroups == [] && this.before == before && this.grouping == grouping
    {
      this.before, this.grouping := before, grouping;
      mEventGroups := [];
    }

    method AddEventToGroup(e: Event, group: EventGroup) returns (r: EventGroup)
      requires group.events != []
      ensures r == WithEvent(before, group, e)
    {
      var events := group.events;
      if !Contains(events, e) {
        var append := true;
        var i := 0;
        while i < |group.events|
          invariant i <= |group.events| && append && events == group.events
          invariant forall k :: 0 <= k < i ==> !before(e, group.events[k])
        {
          if before(e, events[i]) {
            events := Insert(events, i, e);
            append := false;
            break;
          }
          i := i + 1;
        }
        InsertionPointUnique(before, group.events, e, i);
        if append {
          events := events + [e];
        }
      }
      r := group.(events := events);
      if r.displayedEvent.id != events[0].id {
        r := r.(displayedEvent := events[0]);
      }
    }

    /** The part of removeEventFromGroup that looks for the event to show. */
    method FindDisplayed(events: seq<Event>) returns (displayedEvent: Event)
      requires events != [] && Sorted(before, events)
      requires StrictWeakOrder(before)
      ensures displayedEvent == events[0]
    {
      displayedEvent := events[0];
      for i := 0 to |events|
        invariant displayedEvent == events[0]
      {
        if before(events[i], displayedEvent) {
          displayedEvent := events[i];
        }
      }
    }

    method RemoveEventFromGroup(e: Event, row: nat)
      requires Valid() && row < |mEventGroups| && Contains(mEventGroups[row].events, e)
      modifies this
      ensures Valid()
      ensures mEventGroups == RemovedAt(old(mEventGroups), e, row)
    {
      RemovedAtOk(before, mEventGroups, e, row);
      ghost var groups := mEventGroups;
      var group := mEventGroups[row];
      var events := WithoutEvent(group.events, e);
      WithoutEventOk(before, group.events, e);
      if events == [] {
        mEventGroups := RemoveAt(mEventGroups, row);
        return;
      }
      group := group.(events := events);
      if group.displayedEvent.id == e.id {
        var displayedEvent := FindDisplayed(events);
        group := group.(displayedEvent := displayedEvent);
      }
      mEventGroups := mEventGroups[row := group];
      assert group == EventGroup(events[0], events);
    }

    /** One round of onEventsAdded. */
    method OnEventAdded(e: Event)
      requires Valid()
      modifies this
      ensures Valid()
      ensures OneAdded(before, Same(), old(mEventGroups), e, mEventGroups)
      ensures InOrder(before, old(mEventGroups)) ==> InOrder(before, mEventGroups)
      ensures Gained(old(mEventGroups), [e], mEventGroups)
    {
      ghost var groups := mEventGroups;
      var pos, _ := PositionForItem(before, Displays(mEventGroups), e);
      AddedAtOk(before, Same(), groups, e, pos);
      AddedAtGains(before, Same(), groups, e, pos);
      if InOrder(before, groups) { AddedAtInOrder(before, Same(), groups, e, pos); }
      if pos < |mEventGroups| {
        var same := AreOfSameGroup(grouping, e, mEventGroups[pos].displayedEvent);
        if same {
          var group := AddEventToGroup(e, mEventGroups[pos]);
          mEventGroups := mEventGroups[pos := group];
          return;
        }
      }
      mEventGroups := Insert(mEventGroups, pos, EventGroup(e, [e]));
    }

    method OnEventsAdded(events: seq<Event>)
      requires Valid()
      modifies this
      ensures Valid()
      ensures AllAdded(before, Same(), old(mEventGroups), events, mEventGroups)
      ensures InOrder(before, old(mEventGroups)) ==> InOrder(before, mEventGroups)
      ensures Gained(old(mEventGroups), events, mEventGroups)
    {
      for i := 0 to |events|
        invariant Valid()
        invariant AllAdded(before, Same(), old(mEventGroups), events[..i], mEventGroups)
        invariant InOrder(before, old(mEventGroups)) ==> InOrder(before, mEventGroups)
        invariant Gained(old(mEventGroups), events[..i], mEventGroups)
      {
        ghost var groups := mEventGroups;
        OnEventAdded(events[i]);
        ChainNext(Adding(before, Same()), old(mEventGroups), events, i, groups, mEventGroups);
        GainedThen(old(mEventGroups), events, i, groups, mEventGroups);
      }
      assert events[..|events|] == events;
    }

    /** One round of onEventsRemoved. */
    method OnEventRemoved(e: Event)
      requires Valid()
      modifies this
      ensures Valid()
      ensures OneRemoved(before, old(mEventGroups), e, mEventGroups)
      ensures Lost(old(mEventGroups), [e], mEventGroups)
    {
      var pos, _ := PositionForItem(before, Displays(mEventGroups), e);
      RemovedAtLoses(before, mEventGroups, e, pos);
      if pos >= |mEventGroups| || !Contains(mEventGroups[pos].events, e) {
        assert mEventGroups == RemovedAt(mEventGroups, e, pos);
        return;
      }
      RemoveEventFromGroup(e, pos);
    }

    method OnEventsRemoved(events: seq<Event>)
      requires Valid()
      modifies this
      ensures Valid()
      ensures AllRemoved(before, old(mEventGroups), events, mEventGroups)
      ensures Lost(old(mEventGroups), events, mEventGroups)
    {
      for i := 0 to |events|
        invariant Valid()
        invariant AllRemoved(before, old(mEventGroups), events[..i], mEventGroups)
        invariant Lost(old(mEventGroups), events[..i], mEventGroups)
      {
        ghost var groups := mEventGroups;
        OnEventRemoved(events[i]);
        ChainNext(Removing(before), old(mEventGroups), events, i, groups, mEventGroups);
        LostThen(old(mEventGroups), events, i, groups, mEventGroups);
      }
      assert events[..|events|] == events;
    }

    /** One round of fetchMore: the groups are tried from the bottom. */
    method FetchEvent(e: Event)
      requires Valid()
      modifies this
      ensures Valid()
      ensures mEventGroups == Fetched(before, Same(), old(mEventGroups), e)
    {
      ghost var groups := mEventGroups;
      FetchedOk(before, Same(), groups, e);
      var pos := |mEventGroups| - 1;
      while pos >= 0
        invariant -1 <= pos < |groups| && mEventGroups == groups
        invariant ScanUp(before, Same(), groups, e, |groups|) == ScanUp(before, Same(), groups, e, pos + 1)
      {
        var group := mEventGroups[pos];
        var same := AreOfSameGroup(grouping, e, group.displayedEvent);
        if same {
          group := AddEventToGroup(e, group);
          mEventGroups := mEventGroups[pos := group];
          return;
        } else if before(group.displayedEvent, e) {
          break;
        }
        pos := pos - 1;
      }
      pos := pos + 1;
      mEventGroups := Insert(mEventGroups, pos, EventGroup(e, [e]));
    }

    method FetchMore(page: seq<Event>)
      requires Valid()
      modifies this
      ensures Valid()
      ensures mEventGroups == FetchedAll(before, Same(), old(mEventGroups), page)
      ensures Gained(old(mEventGroups), page, mEventGroups)
    {
      for i := 0 to |page|
        invariant Valid()
        invariant mEventGroups == FetchedAll(before, Same(), old(mEventGroups), page[..i])
        invariant Gained(old(mEventGroups), page[..i], mEventGroups)
      {
        ghost var groups := mEventGroups;
        FetchEvent(page[i]);
        assert page[..i + 1][..i] == page[..i];
        FetchedGains(before, Same(), groups, page[i]);
        GainedThen(old(mEventGroups), page, i, groups, mEventGroups);
      }
      assert page[..|page|] == page;
    }
  }

  /** Every event of the list is in the groups now, all that was there still is, and nothing else came in. */
  ghost predicate Gained(groups: seq<EventGroup>, events: seq<Event>, after: seq<EventGroup>) {
    && (forall x :: Listed(groups, x) ==> Listed(after, x))
    && (forall x :: Listed(after, x) ==> Listed(groups, x) || x in events)
    && (forall e :: e in events ==> ListedId(after, e.id))
  }

  lemma ListedHasId(groups: seq<EventGroup>, after: seq<EventGroup>, id: EventId)
    requires (forall x :: Listed(groups, x) ==> Listed(after, x)) && ListedId(groups, id)
    ensures ListedId(after, id)
  {
    var i, j :| 0 <= i < |groups| && 0 <= j < |groups[i].events| && groups[i].events[j].id == id;
    assert Listed(groups, groups[i].events[j]);
    var k :| 0 <= k < |after| && groups[i].events[j] in after[k].events;
    var l :| 0 <= l < |after[k].events| && after[k].events[l] == groups[i].events[j];
  }

  lemma GainedThen(groups: seq<EventGroup>, events: seq<Event>, i: nat, between: seq<EventGroup>,
                   after: seq<EventGroup>)
    requires i < |events| && Gained(groups, events[..i], between) && Gained(between, [events[i]], after)
    ensures Gained(groups, events[..i + 1], after)
  {
    assert events[..i + 1] == events[..i] + [events[i]];
    assert events[i] in [events[i]];
    forall d | d in events[..i + 1] ensures ListedId(after, d.id) {
      if d in events[..i] { ListedHasId(between, after, d.id); }
    }
  }

  lemma AddedAtGains(before: (Event, Event) -> bool, same: (Event, Event) -> bool, groups: seq<EventGroup>, e: Event,
                     pos: nat)
    requires pos <= |groups|
    ensures Gained(groups, [e], AddedAt(before, same, groups, e, pos))
  {
    forall x ensures Listed(groups, x) ==> Listed(AddedAt(before, same, groups, e, pos), x)
             ensures Listed(AddedAt(before, same, groups, e, pos), x) ==> Listed(groups, x) || x == e
             ensures ListedId(AddedAt(before, same, groups, e, pos), e.id)
    {
      AddedAtContent(before, same, groups, e, pos, x);
    }
  }

  /** Fetching an event puts it into a group, wherever the scan ends, and loses none. */
  lemma FetchedGains(before: (Event, Event) -> bool, same: (Event, Event) -> bool, groups: seq<EventGroup>, e: Event)
    ensures Gained(groups, [e], Fetched(before, same, groups, e))
  {
    var spot := ScanUp(before, same, groups, e, |groups|);
    ScanUpMeaning(before, same, groups, e, |groups|);
    AddedAtGains(before, (a, b) => spot.InGroup?, groups, e, spot.pos);
  }

  /** At most the events of the list are gone, and nothing came in. */
  ghost predicate Lost(groups: seq<EventGroup>, events: seq<Event>, after: seq<EventGroup>) {
    && (forall x :: Listed(after, x) ==> Listed(groups, x))
    && (forall x :: Listed(groups, x) && (forall e :: e in events ==> e.id != x.id) ==> Listed(after, x))
  }

  lemma LostThen(groups: seq<EventGroup>, events: seq<Event>, i: nat, between: seq<EventGroup>, after: seq<EventGroup>)
    requires i < |events| && Lost(groups, events[..i], between) && Lost(between, [events[i]], after)
    ensures Lost(groups, events[..i + 1], after)
  {
    assert events[..i + 1] == events[..i] + [events[i]];
    assert events[i] in events[..i + 1];
  }

  lemma RemovedAtLoses(before: (Event, Event) -> bool, groups: seq<EventGroup>, e: Event, pos: nat)
    requires AllOk(before, groups) && pos <= |groups|
    ensures Lost(groups, [e], RemovedAt(groups, e, pos))
  {
    assert e in [e];
    forall x ensures Listed(RemovedAt(groups, e, pos), x) ==> Listed(groups, x)
             ensures Listed(groups, x) && x.id != e.id ==> Listed(RemovedAt(groups, e, pos), x)
    {
      RemovedAtContent(before, groups, e, pos, x);
    }
  }

  /** An event that joins a group goes in front of the first one it goes before; those it ties with stay ahead. */
  lemma JoinedInPlace(before: (Event, Event) -> bool, g: EventGroup, e: Event, p: nat)
    requires p <= |g.events| && forall k :: 0 <= k < |g.events| ==> g.events[k].id != e.id
    requires forall k :: 0 <= k < p ==> !before(e, g.events[k])
    requires p < |g.events| ==> before(e, g.events[p])
    ensures WithEvent(before, g, e).events == g.events[..p] + [e] + g.events[p..]
  {
    InsertionPointUnique(before, g.events, e, p);
  }

  lemma InsertionPointUnique(before: (Event, Event) -> bool, events: seq<Event>, e: Event, i: nat)
    requires i <= |events| && (forall k :: 0 <= k < i ==> !before(e, events[k]))
    requires i < |events| ==> before(e, events[i])
    ensures InsertionPoint(before, events, e) == i
    ensures i == |events| ==> Insert(events, i, e) == events + [e]
  {
    var p := InsertionPoint(before, events, e);
    assert p < |events| ==> (before(e, events[p]) && p >= i);
  }
}
