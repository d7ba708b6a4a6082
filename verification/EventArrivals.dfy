/** What arriving and leaving events make of the groups, event by event (historygroupedeventsmodel.cpp). */
module EventArrivals {
  import opened HistoryModel
  import opened EventGroups

  /** The search may land anywhere, but on groups in order it finds the position of the event. */
  ghost predicate Lands(before: (Event, Event) -> bool, groups: seq<EventGroup>, e: Event, pos: nat) {
    && pos <= |groups|
    && (InOrder(before, groups) ==> IsPosition(before, Displays(groups), e, pos))
  }

  ghost predicate OneAdded(before: (Event, Event) -> bool, same: (Event, Event) -> bool, groups: seq<EventGroup>,
                           e: Event, after: seq<EventGroup>)
  {
    exists pos: nat :: Lands(before, groups, e, pos) && after == AddedAt(before, same, groups, e, pos)
  }

  ghost predicate OneRemoved(before: (Event, Event) -> bool, groups: seq<EventGroup>, e: Event,
                             after: seq<EventGroup>)
  {
    exists pos: nat :: Lands(before, groups, e, pos) && after == RemovedAt(groups, e, pos)
  }

  /** The state after the elements of es, each taking the state one step on. */
  ghost predicate Chain<S(!new), E>(step: (S, E, S) -> bool, s: S, es: seq<E>, after: S) {
    if es == [] then after == s
    else
      var front, last := es[..|es| - 1], es[|es| - 1];
      exists between :: Chain(step, s, front, between) && step(between, last, after)
  }

  lemma ChainNext<S(!new), E>(step: (S, E, S) -> bool, s: S, es: seq<E>, i: nat, between: S, after: S)
    requires i < |es| && Chain(step, s, es[..i], between) && step(between, es[i], after)
    ensures Chain(step, s, es[..i + 1], after)
  {
    var more := es[..i + 1];
    assert more[..|more| - 1] == es[..i] && more[|more| - 1] == es[i];
  }

  ghost function Adding(before: (Event, Event) -> bool, same: (Event, Event) -> bool):
    (seq<EventGroup>, Event, seq<EventGroup>) -> bool
  {
    (groups, e, after) => OneAdded(before, same, groups, e, after)
  }

  ghost function Removing(before: (Event, Event) -> bool): (seq<EventGroup>, Event, seq<EventGroup>) -> bool {
    (groups, e, after) => OneRemoved(before, groups, e, after)
  }

  /** onEventsAdded: the events are added one after the other. */
  ghost predicate AllAdded(before: (Event, Event) -> bool, same: (Event, Event) -> bool, groups: seq<EventGroup>,
                           events: seq<Event>, after: seq<EventGroup>)
  {
    Chain(Adding(before, same), groups, events, after)
  }

  /** onEventsRemoved: the events are removed one after the other. */
  ghost predicate AllRemoved(before: (Event, Event) -> bool, groups: seq<EventGroup>, events: seq<Event>,
                             after: seq<EventGroup>)
  {
    Chain(Removing(before), groups, events, after)
  }

  lemma LastAdded(before: (Event, Event) -> bool, same: (Event, Event) -> bool, groups: seq<EventGroup>,
                  events: seq<Event>, after: seq<EventGroup>) returns (between: seq<EventGroup>)
    requires AllAdded(before, same, groups, events, after) && events != []
    ensures AllAdded(before, same, groups, events[..|events| - 1], between)
    ensures OneAdded(before, same, between, events[|events| - 1], after)
  {
    var step, n := Adding(before, same), |events| - 1;
    between :| Chain(step, groups, events[..n], between) && step(between, events[n], after);
  }

  // ---------------------------------------------------------------- a stream that arrives backwards

  function Backwards<T>(s: seq<T>): (r: seq<T>)
    ensures |r| == |s| && forall i :: 0 <= i < |s| ==> r[i] == s[|s| - 1 - i]
  {
    seq(|s|, i requires 0 <= i < |s| => s[|s| - 1 - i])
  }

  lemma {:induction false} FlattenFront(run: seq<Event>, runs: seq<seq<Event>>)
    ensures Flatten([run] + runs) == run + Flatten(runs)
  {
    var n := |runs|;
    assert ([run] + runs)[..n] == if n == 0 then [] else [run] + runs[..n - 1];
    if n > 0 { FlattenFront(run, runs[..n - 1]); }
  }

  /** One more event in front: it joins the first run or starts one. */
  function Led(same: (Event, Event) -> bool, runs: seq<seq<Event>>, e: Event): (r: seq<seq<Event>>)
    requires NoneEmpty(runs)
    ensures NoneEmpty(r)
  {
    if runs != [] && same(e, runs[0][0]) then [[e] + runs[0]] + runs[1..] else [[e]] + runs
  }

  lemma RunsLed(same: (Event, Event) -> bool, e: Event, stream: seq<Event>)
    requires SameIsEquivalence(same, [e] + stream)
    ensures Runs(same, [e] + stream) == Led(same, Runs(same, stream), e)
  {
    var runs := Runs(same, stream);
    RunsAreRuns(same, stream);
    LedCut(same, e, stream);
    FlattenLed(same, runs, e);
    RunsUnique(same, [e] + stream, Led(same, runs, e));
  }

  lemma FlattenLed(same: (Event, Event) -> bool, runs: seq<seq<Event>>, e: Event)
    requires NoneEmpty(runs)
    ensures Flatten(Led(same, runs, e)) == [e] + Flatten(runs)
  {
    if runs != [] && same(e, runs[0][0]) {
      FlattenFront([e] + runs[0], runs[1..]);
      FlattenFront(runs[0], runs[1..]);
      assert runs == [runs[0]] + runs[1..];
      assert [e] + (runs[0] + Flatten(runs[1..])) == [e] + runs[0] + Flatten(runs[1..]);
    } else {
      FlattenFront([e], runs);
    }
  }

  lemma RunElements(same: (Event, Event) -> bool, stream: seq<Event>)
    ensures forall i, x :: 0 <= i < |Runs(same, stream)| && x in Runs(same, stream)[i] ==> x in stream
  {
    var runs := Runs(same, stream);
    RunsFlatten(same, stream);
    forall i, x | 0 <= i < |runs| && x in runs[i] ensures x in stream {
      FlattenElements(runs, x);
    }
  }

  lemma LedCut(same: (Event, Event) -> bool, e: Event, stream: seq<Event>)
    requires SameIsEquivalence(same, [e] + stream)
    ensures Cut(same, Led(same, Runs(same, stream), e))
  {
    var runs := Runs(same, stream);
    RunsAreRuns(same, stream);
    RunElements(same, stream);
    assert forall x :: x in stream ==> x in [e] + stream;
    assert e in [e] + stream;
    if runs != [] {
      assert forall i :: 0 <= i < |runs| ==> runs[i][0] in runs[i];
      assert same(e, runs[0][0]) <==> same(runs[0][0], e);
      if same(e, runs[0][0]) { LedRun(same, runs[0], e, [e] + stream); }
      if same(e, runs[0][0]) && |runs| > 1 {
        assert !same(runs[1][0], runs[0][0]);
        assert !same(runs[1][0], e);
      }
    }
  }

  lemma LedRun(same: (Event, Event) -> bool, run: seq<Event>, e: Event, universe: seq<Event>)
    requires SameIsEquivalence(same, universe) && run != [] && OneGroup(same, run)
    requires e in universe && (forall x :: x in run ==> x in universe) && same(e, run[0])
    ensures OneGroup(same, [e] + run)
  {
    forall j | 0 <= j < |run| ensures same(run[j], e) {
      assert run[j] in run && run[0] in run;
      assert same(run[j], run[0]) && same(run[0], e);
    }
  }

  lemma LeadsFirst(before: (Event, Event) -> bool, e: Event, runs: seq<seq<Event>>)
    requires NoneEmpty(runs) && Leads(before, e, runs) && runs != []
    ensures before(e, runs[0][0]) && forall x :: x in runs[0] ==> before(e, x) && x.id != e.id
  {
    assert runs[0][0] in runs[0];
  }

  /** An event that goes before every listed one is put in front. */
  lemma AddedInFront(before: (Event, Event) -> bool, same: (Event, Event) -> bool, runs: seq<seq<Event>>, e: Event)
    requires NoneEmpty(runs) && Leads(before, e, runs)
    ensures AddedAt(before, same, AsGroups(runs), e, 0) == AsGroups(Led(same, runs, e))
  {
    if runs != [] && same(e, runs[0][0]) {
      LeadsFirst(before, e, runs);
      var g := EventGroup(runs[0][0], runs[0]);
      assert runs[0][0] in runs[0];
      assert InsertionPoint(before, runs[0], e) == 0;
      assert Insert(runs[0], 0, e) == [e] + runs[0];
      assert WithEvent(before, g, e) == EventGroup(e, [e] + runs[0]);
    }
  }

  ghost predicate Leads(before: (Event, Event) -> bool, e: Event, runs: seq<seq<Event>>) {
    forall i, x :: 0 <= i < |runs| && x in runs[i] ==> before(e, x) && x.id != e.id
  }

  /** The first event of the stream goes before all those in the runs of the rest. */
  lemma FirstBeforeRuns(before: (Event, Event) -> bool, same: (Event, Event) -> bool, stream: seq<Event>)
    requires Stream(before, stream) && stream != []
    ensures Leads(before, stream[0], Runs(same, stream[1..]))
  {
    var runs := Runs(same, stream[1..]);
    RunElements(same, stream[1..]);
    forall i, x | 0 <= i < |runs| && x in runs[i] ensures before(stream[0], x) && x.id != stream[0].id {
      assert x in stream[1..];
      var j :| 0 < j < |stream| && stream[j] == x;
    }
  }

  /** So on these runs the search for it lands on the first group. */
  lemma LandsInFront(before: (Event, Event) -> bool, same: (Event, Event) -> bool, stream: seq<Event>, pos: nat)
    requires StrictWeakOrder(before) && Stream(before, stream) && stream != []
    requires Lands(before, AsGroups(Runs(same, stream[1..])), stream[0], pos)
    ensures pos == 0
  {
    var e, runs := stream[0], Runs(same, stream[1..]);
    var shown := Displays(AsGroups(runs));
    StreamRest(before, stream);
    RunsInOrder(before, same, stream[1..]);
    FirstBeforeRuns(before, same, stream);
    assert IsPosition(before, shown, e, pos);
    if runs != [] {
      LeadsFirst(before, e, runs);
      assert shown[0] == runs[0][0];
      Asymmetric(before, e, shown[0]);
    }
  }

  lemma {:induction false} RunsInOrder(before: (Event, Event) -> bool, same: (Event, Event) -> bool,
                                       stream: seq<Event>)
    requires StrictWeakOrder(before) && Stream(before, stream)
    ensures InOrder(before, AsGroups(Runs(same, stream)))
  {
    if stream != [] {
      var n := |stream| - 1;
      var runs, e := Runs(same, stream[..n]), stream[n];
      RunsInOrder(before, same, stream[..n]);
      RunsComeBefore(before, same, stream);
      var shown, grown := Displays(AsGroups(runs)), Displays(AsGroups(Grow(same, runs, e)));
      forall i | 0 <= i < |shown| ensures !before(e, shown[i]) {
        assert shown[i] in runs[i];
        Asymmetric(before, shown[i], e);
      }
      assert grown == shown || grown == shown + [e];
    }
  }

  /**
   * A stream whose events arrive from the last to the first is grouped into its runs, as fetchMore groups it: each
   * event finds the group of the one that follows it.
   */
  lemma {:induction false} AddedBackwards(before: (Event, Event) -> bool, same: (Event, Event) -> bool,
                                          stream: seq<Event>, after: seq<EventGroup>)
    requires StrictWeakOrder(before) && Stream(before, stream) && SameIsEquivalence(same, stream)
    requires AllAdded(before, same, [], Backwards(stream), after)
    ensures after == AsGroups(Runs(same, stream))
    ensures after == FetchedAll(before, same, [], stream)
  {
    FetchedRuns(before, same, stream);
    if stream != [] {
      var e, rest, arrived := stream[0], stream[1..], Backwards(stream);
      var n := |arrived| - 1;
      assert arrived[..n] == Backwards(rest) && arrived[n] == e;
      assert stream == [e] + rest;
      var between := LastAdded(before, same, [], arrived, after);
      StreamRest(before, stream);
      AddedBackwards(before, same, rest, between);
      OneMoreInFront(before, same, stream, after);
    }
  }

  lemma OneMoreInFront(before: (Event, Event) -> bool, same: (Event, Event) -> bool, stream: seq<Event>,
                       after: seq<EventGroup>)
    requires StrictWeakOrder(before) && Stream(before, stream) && SameIsEquivalence(same, stream) && stream != []
    requires OneAdded(before, same, AsGroups(Runs(same, stream[1..])), stream[0], after)
    ensures after == AsGroups(Runs(same, stream))
  {
    PutInFront(before, same, stream, after);
    assert stream == [stream[0]] + stream[1..];
    RunsLed(same, stream[0], stream[1..]);
  }

  lemma PutInFront(before: (Event, Event) -> bool, same: (Event, Event) -> bool, stream: seq<Event>,
                   after: seq<EventGroup>)
    requires StrictWeakOrder(before) && Stream(before, stream) && stream != []
    requires OneAdded(before, same, AsGroups(Runs(same, stream[1..])), stream[0], after)
    ensures after == AsGroups(Led(same, Runs(same, stream[1..]), stream[0]))
  {
    var e, groups := stream[0], AsGroups(Runs(same, stream[1..]));
    var pos: nat :| Lands(before, groups, e, pos) && after == AddedAt(before, same, groups, e, pos);
    LandsInFront(before, same, stream, pos);
    FirstBeforeRuns(before, same, stream);
    AddedInFront(before, same, Runs(same, stream[1..]), e);
  }

  lemma StreamRest(before: (Event, Event) -> bool, stream: seq<Event>)
    requires Stream(before, stream) && stream != []
    ensures Stream(before, stream[1..]) && Stream(before, stream[..|stream| - 1])
  {
  }

  // ---------------------------------------------------------------- a stream that arrives in order

  function Alone(stream: seq<Event>): (r: seq<EventGroup>)
    ensures |r| == |stream|
  {
    seq(|stream|, i requires 0 <= i < |stream| => EventGroup(stream[i], [stream[i]]))
  }

  /** A stream whose events arrive from the first to the last is never grouped: the search lands after all groups. */
  lemma {:induction false} AddedForwards(before: (Event, Event) -> bool, same: (Event, Event) -> bool,
                                         stream: seq<Event>, after: seq<EventGroup>)
    requires StrictWeakOrder(before) && Stream(before, stream) && AllAdded(before, same, [], stream, after)
    ensures after == Alone(stream)
  {
    if stream != [] {
      var n := |stream| - 1;
      var between := LastAdded(before, same, [], stream, after);
      StreamRest(before, stream);
      AddedForwards(before, same, stream[..n], between);
      OneMoreBehind(before, same, stream, after);
    }
  }

  lemma OneMoreBehind(before: (Event, Event) -> bool, same: (Event, Event) -> bool, stream: seq<Event>,
                      after: seq<EventGroup>)
    requires StrictWeakOrder(before) && Stream(before, stream) && stream != []
    requires OneAdded(before, same, Alone(stream[..|stream| - 1]), stream[|stream| - 1], after)
    ensures after == Alone(stream)
  {
    var e, groups := stream[|stream| - 1], Alone(stream[..|stream| - 1]);
    var pos: nat :| Lands(before, groups, e, pos) && after == AddedAt(before, same, groups, e, pos);
    LandsBehind(before, stream, pos);
    AddedBehind(before, same, groups, e);
    AloneThen(stream);
  }

  lemma AddedBehind(before: (Event, Event) -> bool, same: (Event, Event) -> bool, groups: seq<EventGroup>, e: Event)
    ensures AddedAt(before, same, groups, e, |groups|) == groups + [EventGroup(e, [e])]
  {
  }

  lemma AloneThen(stream: seq<Event>)
    requires stream != []
    ensures var n := |stream| - 1; Alone(stream) == Alone(stream[..n]) + [EventGroup(stream[n], [stream[n]])]
  {
  }

  lemma LandsBehind(before: (Event, Event) -> bool, stream: seq<Event>, pos: nat)
    requires StrictWeakOrder(before) && Stream(before, stream) && stream != []
    requires Lands(before, Alone(stream[..|stream| - 1]), stream[|stream| - 1], pos)
    ensures pos == |stream| - 1
  {
    var n := |stream| - 1;
    var shown := Displays(Alone(stream[..n]));
    assert shown == stream[..n];
    assert InOrder(before, Alone(stream[..n])) by {
      forall i, j | 0 <= i < j < n ensures !before(shown[j], shown[i]) { Asymmetric(before, stream[i], stream[j]); }
    }
    assert IsPosition(before, shown, stream[n], pos);
    assert n > 0 ==> before(shown[n - 1], stream[n]);
  }

  /** So the two ways of learning of a stream agree exactly if no event is of the same group as the one before it. */
  lemma ArrivalMattersExactly(before: (Event, Event) -> bool, same: (Event, Event) -> bool, stream: seq<Event>,
                              after: seq<EventGroup>)
    requires StrictWeakOrder(before) && Stream(before, stream) && AllAdded(before, same, [], stream, after)
    ensures after == FetchedAll(before, same, [], stream) <==>
              forall i :: 0 < i < |stream| ==> !same(stream[i], stream[i - 1])
  {
    AddedForwards(before, same, stream, after);
    FetchedRuns(before, same, stream);
    RunsAreRuns(same, stream);
    if after == AsGroups(Runs(same, stream)) {
      AloneAreRuns(same, stream);
    } else if forall i :: 0 < i < |stream| ==> !same(stream[i], stream[i - 1]) {
      FlattenSingles(stream);
      RunsUnique(same, stream, Singles(stream));
    }
  }

  lemma AloneAreRuns(same: (Event, Event) -> bool, stream: seq<Event>)
    requires AsGroups(Runs(same, stream)) == Alone(stream)
    ensures forall i :: 0 < i < |stream| ==> !same(stream[i], stream[i - 1])
  {
    RunsAreRuns(same, stream);
    SinglesFromGroups(Runs(same, stream), stream);
    SinglesApart(same, Runs(same, stream), stream);
  }

  lemma SinglesApart(same: (Event, Event) -> bool, runs: seq<seq<Event>>, stream: seq<Event>)
    requires Cut(same, runs) && |runs| == |stream| && forall i :: 0 <= i < |stream| ==> runs[i] == [stream[i]]
    ensures forall i :: 0 < i < |stream| ==> !same(stream[i], stream[i - 1])
  {
    forall i | 0 < i < |stream| ensures !same(stream[i], stream[i - 1]) {
      assert runs[i][0] == stream[i] && runs[i - 1][0] == stream[i - 1];
    }
  }

  lemma SinglesFromGroups(runs: seq<seq<Event>>, stream: seq<Event>)
    requires NoneEmpty(runs) && AsGroups(runs) == Alone(stream)
    ensures |runs| == |stream| && forall i :: 0 <= i < |stream| ==> runs[i] == [stream[i]]
  {
    assert |runs| == |AsGroups(runs)|;
    forall i | 0 <= i < |stream| ensures runs[i] == [stream[i]] {
      assert AsGroups(runs)[i] == Alone(stream)[i];
    }
  }

  function Singles(stream: seq<Event>): (r: seq<seq<Event>>)
    ensures |r| == |stream|
  {
    seq(|stream|, i requires 0 <= i < |stream| => [stream[i]])
  }

  lemma {:induction false} FlattenSingles(stream: seq<Event>)
    ensures Flatten(Singles(stream)) == stream
  {
    if stream != [] {
      var n := |stream| - 1;
      FlattenSingles(stream[..n]);
      assert Singles(stream)[..n] == Singles(stream[..n]);
      assert stream == stream[..n] + [stream[n]];
    }
  }
}
